/** A network service (host and port), the registry that interns one service
    per endpoint, and the one-slot memo of the reachability probe. */
module Services {
  import opened Wrappers
  import opened Text

  /** Seconds the reachability probe waits for a TCP connection. */
  const CheckTimeoutSeconds := 3

  datatype Service = Service(host: string, port: int) {
    /** The string form `host:port`, through which equality and hashing go;
        its last colon separates the host from the port's digits. */
    function ToString(): (s: string)
      ensures RPartition(s, ':') == Some((host, IntToString(port)))
    {
      DigitsHaveNoColon(IntToString(port));
      RPartitionUnique(host + ":" + IntToString(port), ':', host, IntToString(port));
      host + ":" + IntToString(port)
    }
  }

  lemma DigitsHaveNoColon(s: string)
    requires forall i :: 0 <= i < |s| ==> IsDigit(s[i]) || s[i] == '-'
    ensures ':' !in s
  {
  }

  /** `__eq__` compares string forms; they agree exactly when host and port do,
      so the equality (and the hash, computed from the same string) is that of
      the endpoint. */
  lemma {:induction false} EqualIffSameEndpoint(a: Service, b: Service)
    ensures a.ToString() == b.ToString() <==> a == b
  {
    if a.ToString() == b.ToString() {
      var s := a.ToString();
      assert a.host + ":" + IntToString(a.port) == a.host + [':'] + IntToString(a.port);
      assert b.host + ":" + IntToString(b.port) == b.host + [':'] + IntToString(b.port);
      DigitsHaveNoColon(IntToString(a.port));
      DigitsHaveNoColon(IntToString(b.port));
      RPartitionUnique(s, ':', a.host, IntToString(a.port));
      RPartitionUnique(s, ':', b.host, IntToString(b.port));
      IntToStringInjective(a.port, b.port);
    }
  }

  /** The same host on two ports gives two services that are not equal. */
  lemma PortsSeparateServices(host: string, p: int, q: int)
    requires p != q
    ensures Service(host, p).ToString() != Service(host, q).ToString()
  {
    EqualIffSameEndpoint(Service(host, p), Service(host, q));
  }

  /** The network as the probe sees it: the endpoints that accept a TCP
      connection within the timeout, and a log of every connection attempt. */
  class Network {
    const reachable: set<Service>
    /** Each attempt as (endpoint, timeout in seconds), in order. */
    ghost var probes: seq<(Service, int)>

    constructor (reachable: set<Service>)
      ensures this.reachable == reachable && probes == []
    {
      this.reachable := reachable;
      probes := [];
    }

    /** Whether `socket.create_connection` to the service succeeds. */
    predicate Accepts(s: Service) {
      s in reachable
    }

    /** One connection attempt; every connection failure reads as `false`. */
    method CreateConnection(s: Service, timeout: int) returns (ok: bool)
      modifies this
      ensures ok == Accepts(s)
      ensures probes == old(probes) + [(s, timeout)]
    {
      probes := probes + [(s, timeout)];
      ok := s in reachable;
    }
  }

  /** The probes that a run of `check_is_connectable` calls issues when the
      one-slot memo starts out holding `key`: a call probes exactly when its
      service differs from the one the memo holds, and then takes the slot. */
  function Probes(key: Option<Service>, calls: seq<Service>): (r: seq<Service>)
    ensures forall i :: 0 <= i < |r| ==> r[i] in calls
    decreases |calls|
  {
    if |calls| == 0 then []
    else (if key == Some(calls[0]) then [] else [calls[0]]) + Probes(Some(calls[0]), calls[1..])
  }

  /** The memo key after a run of calls. */
  function LastKey(key: Option<Service>, calls: seq<Service>): Option<Service> {
    if |calls| == 0 then key else Some(calls[|calls| - 1])
  }

  /** Probes of a run extended by one call. */
  lemma {:induction false} ProbesSnoc(key: Option<Service>, calls: seq<Service>, s: Service)
    ensures Probes(key, calls + [s]) == Probes(key, calls) + (if LastKey(key, calls) == Some(s) then [] else [s])
    decreases |calls|
  {
    if |calls| == 0 {
      assert calls + [s] == [s];
      assert [s][1..] == [];
    } else {
      var c, rest := calls[0], calls[1..];
      assert (calls + [s])[0] == c;
      assert (calls + [s])[1..] == rest + [s];
      ProbesSnoc(Some(c), rest, s);
      if |rest| > 0 {
        assert rest[|rest| - 1] == calls[|calls| - 1];
      }
      var head := if key == Some(c) then [] else [c];
      var last := if LastKey(key, calls) == Some(s) then [] else [s];
      assert Probes(key, calls + [s]) == head + (Probes(Some(c), rest) + last);
      assert head + (Probes(Some(c), rest) + last) == (head + Probes(Some(c), rest)) + last;
    }
  }

  /** Every call probes at most once. */
  lemma {:induction false} ProbesAtMostCalls(key: Option<Service>, calls: seq<Service>)
    ensures |Probes(key, calls)| <= |calls|
    decreases |calls|
  {
    if |calls| > 0 {
      ProbesAtMostCalls(Some(calls[0]), calls[1..]);
    }
  }

  /** Consecutive calls on the same service probe once, or not at all when the
      memo already holds it. */
  lemma {:induction false} RepeatedCallsProbeOnce(key: Option<Service>, s: Service, calls: seq<Service>)
    requires forall i :: 0 <= i < |calls| ==> calls[i] == s
    ensures Probes(key, calls) == if |calls| == 0 || key == Some(s) then [] else [s]
    decreases |calls|
  {
    if |calls| > 0 {
      RepeatedCallsProbeOnce(Some(s), s, calls[1..]);
    }
  }

  /** The services a run of calls names. */
  function ServicesIn(calls: seq<Service>): set<Service>
    decreases |calls|
  {
    if |calls| == 0 then {} else {calls[0]} + ServicesIn(calls[1..])
  }

  lemma {:induction false} ServicesInMembers(calls: seq<Service>, s: Service)
    ensures s in ServicesIn(calls) <==> s in calls
    decreases |calls|
  {
    if |calls| > 0 {
      ServicesInMembers(calls[1..], s);
      assert calls == [calls[0]] + calls[1..];
    }
  }

  /** Calls on each service grouped together: a service that comes back
      later in the run comes next, so once the calls move past a service it
      does not return. */
  ghost predicate Grouped(calls: seq<Service>)
    decreases |calls|
  {
    |calls| <= 1 || ((calls[0] in calls[1..] ==> calls[0] == calls[1]) && Grouped(calls[1..]))
  }

  /** With grouped calls the memo probes each distinct service exactly once,
      except the one it already holds at the start. */
  lemma {:induction false} GroupedCallsProbeEachServiceOnce(key: Option<Service>, calls: seq<Service>)
    requires Grouped(calls)
    requires key.Some? && key.value in calls ==> key.value == calls[0]
    ensures |Probes(key, calls)| == |ServicesIn(calls) - (if key.Some? then {key.value} else {})|
    decreases |calls|
  {
    if |calls| > 0 {
      var c, rest := calls[0], calls[1..];
      GroupedCallsProbeEachServiceOnce(Some(c), rest);
      if key.Some? && key.value != c {
        assert key.value !in rest;
        ServicesInMembers(rest, key.value);
      }
      assert ServicesIn(calls) == {c} + ServicesIn(rest);
      CountWithout(key, c, ServicesIn(rest));
    }
  }

  /** Counting step of the lemma above: one more named service `c` adds one
      to the count unless the memo already holds it. */
  lemma CountWithout(key: Option<Service>, c: Service, rest: set<Service>)
    requires key.Some? && key.value != c ==> key.value !in rest
    ensures |({c} + rest) - (if key.Some? then {key.value} else {})| == |rest - {c}| + (if key == Some(c) then 0 else 1)
  {
    if key == Some(c) {
      assert ({c} + rest) - {c} == rest - {c};
    } else {
      assert ({c} + rest) - (if key.Some? then {key.value} else {}) == (rest - {c}) + {c};
    }
  }

  /** An example: the one slot is shared by all services, so interleaving
      two services probes on every call: three calls on two services probe
      three times, not once per distinct service. */
  lemma InterleavedCallsReprobe(a: Service, b: Service)
    requires a != b
    ensures Probes(None, [a, b, a]) == [a, b, a]
  {
    assert [a, b, a][1..] == [b, a];
    assert [b, a][1..] == [a];
    assert [a][1..] == [];
    assert Probes(Some(b), [a]) == [a];
    assert Probes(Some(a), [b, a]) == [b, a];
  }

  /** The hidden cache state of the `Service` class: the `new_cached`
      registry, one instance per `(host, port)`, and the `lru_cache(maxsize=1)`
      slot of `check_is_connectable`, shared by every instance. */
  class ServiceCache {
    var registry: map<(string, int), Service>
    var memo: Option<(Service, bool)>

    constructor ()
      ensures registry == map[] && memo == None
    {
      registry := map[];
      memo := None;
    }

    /** Every registered service is the one for its key. */
    ghost predicate Interned()
      reads this
    {
      forall key :: key in registry ==> registry[key] == Service(key.0, key.1)
    }

    /** Interned, and a memoised probe result is the network's answer. */
    ghost predicate Valid(net: Network)
      reads this
    {
      Interned() && (memo.Some? ==> memo.value.1 == net.Accepts(memo.value.0))
    }

    /** The service whose probe the memo holds. */
    function MemoKey(): Option<Service>
      reads this
    {
      if memo.Some? then Some(memo.value.0) else None
    }

    /** `Service.new_cached`: the first call for an endpoint creates and
        registers its service, later calls return the registered one. */
    method NewCached(host: string, port: int) returns (s: Service)
      requires Interned()
      modifies this
      ensures Interned()
      ensures s == Service(host, port)
      ensures (host, port) in old(registry) ==> registry == old(registry) && s == old(registry)[(host, port)]
      ensures registry == old(registry)[(host, port) := s]
      ensures memo == old(memo)
    {
      if (host, port) in registry {
        s := registry[(host, port)];
      } else {
        s := Service(host, port);
        registry := registry[(host, port) := s];
      }
    }

    /** `check_is_connectable`: answers from the slot when it holds an equal
        service, otherwise probes with the fixed timeout and takes the slot. */
    method CheckIsConnectable(s: Service, net: Network) returns (ok: bool)
      requires Valid(net)
      modifies this, net
      ensures Valid(net)
      ensures ok == net.Accepts(s)
      ensures memo == Some((s, ok)) && registry == old(registry)
      ensures net.probes == old(net.probes) + if old(MemoKey()) == Some(s) then [] else [(s, CheckTimeoutSeconds)]
    {
      if memo.Some? && memo.value.0.ToString() == s.ToString() {
        EqualIffSameEndpoint(memo.value.0, s);
        ok := memo.value.1;
      } else {
        if memo.Some? {
          EqualIffSameEndpoint(memo.value.0, s);
        }
        ok := net.CreateConnection(s, CheckTimeoutSeconds);
        memo := Some((s, ok));
      }
    }
  }
}
