/** The server-list script: each NFS server is probed once, without a memo,
    and all of its mount points are brought in line with the answer; the
    errors of one server are collected and raised together at the end, and a
    server that raises stops the script. */
module NfsServers {
  import opened Wrappers
  import opened MountPoints
  import opened Services
  import opened RemoteEntries
  import opened Passes

  /** The port every server of the list is probed on (section 3.1 of RFC 7530). */
  const ServerPort := 2049

  /** A mount point as the server list gives it: a path, or a mount point. */
  datatype MountPointArg = PathArg(path: string) | PointArg(mountPoint: MountPoint)

  datatype NfsServer = NfsServer(service: Service, mountPoints: seq<MountPoint>)

  /** `NfsServer.__init__`: the service listens on the NFS port, and the
      mount points keep their order, a path becoming a default mount point. */
  function NewNfsServer(host: string, args: seq<MountPointArg>): (s: NfsServer)
    ensures s.service == Service(host, ServerPort)
    ensures |s.mountPoints| == |args|
    ensures forall i :: 0 <= i < |args| ==>
      (args[i].PathArg? ==> s.mountPoints[i] == NewMountPoint(args[i].path)) &&
      (args[i].PointArg? ==> s.mountPoints[i] == args[i].mountPoint)
  {
    NfsServer(Service(host, ServerPort), seq(|args|, i requires 0 <= i < |args| =>
      match args[i]
      case PointArg(mp) => mp
      case PathArg(path) => NewMountPoint(path)))
  }

  /** Every mount point of the server, each decided by the server's service. */
  function ServerTargets(server: NfsServer): (ts: seq<Target>)
    ensures |ts| == |server.mountPoints|
    ensures forall i :: 0 <= i < |ts| ==> ts[i] == Target(server.mountPoints[i], server.service)
  {
    seq(|server.mountPoints|, i requires 0 <= i < |server.mountPoints| => Target(server.mountPoints[i], server.service))
  }

  /** How `refresh_mount_points` ends: normally, with an `ExceptionGroup` of
      the mount and unmount errors, or with an error it does not catch. */
  datatype ServerOutcome = Refreshed | ErrorGroup(errors: seq<Failure>) | Raised(error: Failure)

  function OutcomeOf(sw: Sweep): ServerOutcome {
    if sw.escaped.Some? then Raised(sw.escaped.value)
    else if |Failures(sw.reports)| > 0 then ErrorGroup(Failures(sw.reports))
    else Refreshed
  }

  /** The pass over one server's mount points. */
  function ServerSweep(os: System, net: Network, server: NfsServer, m: set<string>): Sweep {
    SweepFrom(os, net, ServerTargets(server), CatchMountErrors, m)
  }

  /** The error group is raised exactly when some mount or unmount failed; it
      holds each error once, in mount-point order, so never more errors than
      mount points, and every mount point was tried. */
  lemma ServerOutcomeMeaning(os: System, net: Network, server: NfsServer, m: set<string>)
    ensures var sw := ServerSweep(os, net, server, m);
      && (OutcomeOf(sw) == Refreshed <==> sw.escaped.None? && forall i :: 0 <= i < |sw.reports| ==> sw.reports[i].outcome.Pass?)
      && (OutcomeOf(sw).ErrorGroup? ==>
            && OutcomeOf(sw).errors == Failures(sw.reports)
            && 0 < |OutcomeOf(sw).errors| <= |server.mountPoints|
            && |sw.reports| == |server.mountPoints|
            && (forall i :: 0 <= i < |sw.reports| ==> sw.reports[i].target.mountPoint == server.mountPoints[i]))
      && (OutcomeOf(sw).Raised? ==> OutcomeOf(sw).error.LaunchError?)
  {
    var sw := ServerSweep(os, net, server, m);
    SweepCovers(os, net, ServerTargets(server), CatchMountErrors, m);
    FailuresEmptyIffAllPass(sw.reports);
    FailuresAtMostReports(sw.reports);
  }

  /** A server whose mount points are all in the state its probe asks for is
      refreshed without a command. */
  lemma SettledServerIsQuiet(os: System, net: Network, server: NfsServer, m: set<string>)
    requires forall i :: 0 <= i < |server.mountPoints| ==> os.IsMountedIn(m, server.mountPoints[i]) == net.Accepts(server.service)
    ensures OutcomeOf(ServerSweep(os, net, server, m)) == Refreshed
    ensures CommandsOf(ServerSweep(os, net, server, m).reports) == []
  {
    SettledSweepIsQuiet(os, net, ServerTargets(server), CatchMountErrors, m);
  }

  /** The body of the loop of `refresh_mount_points` for one mount point,
      with the server's answer `serverOk`. */
  method RefreshPoint(mp: MountPoint, serverOk: bool, os: System) returns (outcome: Outcome<Failure>)
    modifies os
    ensures var a := Decide(serverOk, os.IsMountedIn(old(os.mounted), mp));
      && outcome == ActionOutcome(os, a, mp)
      && os.mounted == ActionMounted(os, a, mp, old(os.mounted))
      && os.commands == old(os.commands) + ActionCommands(a, mp)
  {
    var mounted := os.CheckIsMounted(mp);
    outcome := Pass;
    if serverOk {
      if !mounted {
        outcome := os.Mount(mp);
      }
    } else {
      if mounted {
        outcome := os.Unmount(mp);
      }
    }
  }

  /** One mount point of a server's pass, from what `RefreshPoint`
      promises to the state of the pass after it. */
  lemma EachStep(os: System, net: Network, whole: Sweep, reports: seq<Report>, targets: seq<Target>, i: nat, m: set<string>,
                 outcome: Outcome<Failure>, next: set<string>, base: seq<seq<string>>, after: seq<seq<string>>)
    requires i < |targets|
    requires whole == Continue(reports, SweepFrom(os, net, targets[i..], CatchMountErrors, m))
    requires var t := targets[i];
      var a := Decide(net.Accepts(t.service), os.IsMountedIn(m, t.mountPoint));
      && outcome == ActionOutcome(os, a, t.mountPoint)
      && next == ActionMounted(os, a, t.mountPoint, m)
      && after == base + CommandsOf(reports) + ActionCommands(a, t.mountPoint)
    ensures var more := reports + [Refresh(os, net, targets[i], m)];
      && after == base + CommandsOf(more)
      && Failures(more) == Failures(reports) + (if outcome.Fail? then [outcome.error] else [])
      && (outcome.Fail? && outcome.error.LaunchError? ==> whole == Sweep(more, next, Some(outcome.error)))
      && (!(outcome.Fail? && outcome.error.LaunchError?) ==> whole == Continue(more, SweepFrom(os, net, targets[i + 1..], CatchMountErrors, next)))
  {
    var t := targets[i];
    var rep := Refresh(os, net, t, m);
    assert targets[i..] == [t] + targets[i + 1..];
    SweepAdvance(os, net, whole, reports, t, targets[i + 1..], CatchMountErrors, m);
    CommandsOfSnoc(reports, rep);
    FailuresSnoc(reports, rep);
    AppendAssoc(base, CommandsOf(reports), ActionCommands(rep.action, t.mountPoint));
  }


  /** The loop of `refresh_mount_points` over the mount points, with the
      server's answer `serverOk`: the error that escapes, if one does, and
      the mount and unmount errors collected on the way. */
  method RefreshEach(server: NfsServer, serverOk: bool, ghost net: Network, os: System) returns (escaped: Option<Failure>, errors: seq<Failure>)
    requires serverOk == net.Accepts(server.service)
    modifies os
    ensures var sw := ServerSweep(os, net, server, old(os.mounted));
      && escaped == sw.escaped
      && (escaped.None? ==> errors == Failures(sw.reports))
      && os.mounted == sw.mounted
      && os.commands == old(os.commands) + CommandsOf(sw.reports)
  {
    errors := [];
    ghost var targets := ServerTargets(server);
    ghost var whole := SweepFrom(os, net, targets, CatchMountErrors, os.mounted);
    ghost var reports: seq<Report> := [];
    assert targets[0..] == targets;
    assert whole == Continue([], whole);
    var i := 0;
    while i < |server.mountPoints|
      invariant 0 <= i <= |server.mountPoints|
      invariant whole == Continue(reports, SweepFrom(os, net, targets[i..], CatchMountErrors, os.mounted))
      invariant errors == Failures(reports)
      invariant os.commands == old(os.commands) + CommandsOf(reports)
    {
      var mp := server.mountPoints[i];
      ghost var m := os.mounted;
      var outcome := RefreshPoint(mp, serverOk, os);
      EachStep(os, net, whole, reports, targets, i, m, outcome, os.mounted, old(os.commands), os.commands);
      ghost var rep := Refresh(os, net, targets[i], m);
      reports := reports + [rep];
      if outcome.Fail? {
        if outcome.error.LaunchError? {
          assert whole == Sweep(reports, os.mounted, Some(outcome.error));
          escaped := Some(outcome.error);
          return;
        }
        errors := errors + [outcome.error];
      }
      i := i + 1;
    }
    assert targets[i..] == [];
    assert reports + [] == reports;
    assert whole == Sweep(reports, os.mounted, None);
    escaped := None;
  }

  /** `NfsServer.refresh_mount_points`: one probe, then for each mount point
      a mount when the server answered and the point is not mounted, or an
      unmount when it did not and the point is mounted; mount and unmount
      errors are collected and raised together, any other error escapes at
      once. */
  method RefreshMountPoints(server: NfsServer, ghost pass: (NfsServer, set<string>) -> ServerResult, net: Network, os: System) returns (r: ServerOutcome)
    requires PassOf(pass, os, net)
    modifies net, os
    ensures net.probes == old(net.probes) + [(server.service, CheckTimeoutSeconds)]
    ensures var res := pass(server, old(os.mounted));
      r == res.outcome && os.mounted == res.mounted && os.commands == old(os.commands) + res.commands
  {
    ghost var res := ServerRefresh(os, net, server, os.mounted);
    var serverOk := net.CreateConnection(server.service, CheckTimeoutSeconds);
    var escaped, errors := RefreshEach(server, serverOk, net, os);
    if escaped.Some? {
      r := Raised(escaped.value);
    } else if |errors| > 0 {
      r := ErrorGroup(errors);
    } else {
      r := Refreshed;
    }
  }

  /** What refreshing one server gives the script: its outcome, its
      commands and the mounted set after it. */
  datatype ServerResult = ServerResult(outcome: ServerOutcome, commands: seq<seq<string>>, mounted: set<string>)

  function ServerRefresh(os: System, net: Network, s: NfsServer, m: set<string>): ServerResult {
    var sw := ServerSweep(os, net, s, m);
    ServerResult(OutcomeOf(sw), CommandsOf(sw.reports), sw.mounted)
  }

  /** The run of the script over the server list from the mounted set `m`:
      the outcome of each refreshed server, the commands, the mounted set at
      the end, and the outcome that stopped the script, if one did. */
  datatype ServersRun = ServersRun(outcomes: seq<ServerOutcome>, commands: seq<seq<string>>, mounted: set<string>, raised: Option<ServerOutcome>)

  function ServersFrom(pass: (NfsServer, set<string>) -> ServerResult, servers: seq<NfsServer>, m: set<string>): (run: ServersRun)
    ensures |run.outcomes| <= |servers|
    decreases |servers|
  {
    if |servers| == 0 then ServersRun([], [], m, None)
    else
      var res := pass(servers[0], m);
      if res.outcome != Refreshed then ServersRun([res.outcome], res.commands, res.mounted, Some(res.outcome))
      else After([res.outcome], res.commands, ServersFrom(pass, servers[1..], res.mounted))
  }

  /** The pass of the script over one server. */
  function ScriptPass(os: System, net: Network): (NfsServer, set<string>) -> ServerResult {
    (s: NfsServer, m: set<string>) => ServerRefresh(os, net, s, m)
  }

  /** `pass` refreshes every server as `ServerRefresh` does against `os` and
      `net`. */
  ghost predicate PassOf(pass: (NfsServer, set<string>) -> ServerResult, os: System, net: Network) {
    forall s: NfsServer, m: set<string> {:trigger ServerRefresh(os, net, s, m)} :: pass(s, m) == ServerRefresh(os, net, s, m)
  }

  /** The script's pass is such a pass. */
  lemma ScriptPassIsPassOf(os: System, net: Network)
    ensures PassOf(ScriptPass(os, net), os, net)
  {
  }

  /** The outcomes and commands `done` and `commands` before the run `run`. */
  function After(done: seq<ServerOutcome>, commands: seq<seq<string>>, run: ServersRun): ServersRun {
    ServersRun(done + run.outcomes, commands + run.commands, run.mounted, run.raised)
  }

  /** The servers are refreshed in list order until the first one that
      raises, which is the last one refreshed; without a raise every server
      is refreshed. */
  lemma {:induction false} ServersStopAtFirstRaise(pass: (NfsServer, set<string>) -> ServerResult, servers: seq<NfsServer>, m: set<string>)
    ensures var run := ServersFrom(pass, servers, m);
      && |run.outcomes| <= |servers|
      && (run.raised.None? <==> |run.outcomes| == |servers| && forall i :: 0 <= i < |run.outcomes| ==> run.outcomes[i] == Refreshed)
      && (run.raised.Some? ==> 0 < |run.outcomes| && run.outcomes[|run.outcomes| - 1] == run.raised.value && run.raised.value != Refreshed)
      && (forall i :: 0 <= i < |run.outcomes| - 1 ==> run.outcomes[i] == Refreshed)
    decreases |servers|
  {
    if |servers| > 0 {
      var res := pass(servers[0], m);
      var run := ServersFrom(pass, servers, m);
      if res.outcome != Refreshed {
        assert run.outcomes == [res.outcome] && run.outcomes[0] != Refreshed;
      } else {
        var rest := ServersFrom(pass, servers[1..], res.mounted);
        ServersStopAtFirstRaise(pass, servers[1..], res.mounted);
        assert run.outcomes == [Refreshed] + rest.outcomes && run.raised == rest.raised;
        RefreshedCons(rest.outcomes);
      }
    }
  }

  /** Indexing into an outcome list behind one more `Refreshed`. */
  lemma RefreshedCons(rest: seq<ServerOutcome>)
    ensures var all := [Refreshed] + rest;
      && (forall i :: 0 <= i < |all| ==> (all[i] == Refreshed <==> i == 0 || rest[i - 1] == Refreshed))
      && (|rest| > 0 ==> all[|all| - 1] == rest[|rest| - 1])
  {
  }

  /** One probe per refreshed server, in list order. */
  function ServerProbes(servers: seq<NfsServer>): (log: seq<(Service, int)>)
    ensures |log| == |servers|
  {
    if |servers| == 0 then []
    else ServerProbes(servers[..|servers| - 1]) + [(servers[|servers| - 1].service, CheckTimeoutSeconds)]
  }

  /** The probe log names each server's service, in server order. */
  lemma {:induction false} ServerProbesEach(servers: seq<NfsServer>)
    ensures forall i :: 0 <= i < |servers| ==> ServerProbes(servers)[i] == (servers[i].service, CheckTimeoutSeconds)
    decreases |servers|
  {
    if |servers| > 0 {
      var init := servers[..|servers| - 1];
      ServerProbesEach(init);
      forall i | 0 <= i < |servers| - 1
        ensures ServerProbes(servers)[i] == (servers[i].service, CheckTimeoutSeconds)
      {
        assert init[i] == servers[i];
      }
    }
  }

  lemma ServerProbesSnoc(servers: seq<NfsServer>, i: nat)
    requires i < |servers|
    ensures ServerProbes(servers[..i + 1]) == ServerProbes(servers[..i]) + [(servers[i].service, CheckTimeoutSeconds)]
  {
    assert servers[..i + 1][..i] == servers[..i];
  }

  lemma ServersAdvance(pass: (NfsServer, set<string>) -> ServerResult, whole: ServersRun, done: seq<ServerOutcome>, commands: seq<seq<string>>, s: NfsServer, rest: seq<NfsServer>, m: set<string>)
    requires whole == After(done, commands, ServersFrom(pass, [s] + rest, m))
    ensures var res := pass(s, m);
      if res.outcome != Refreshed then whole == ServersRun(done + [res.outcome], commands + res.commands, res.mounted, Some(res.outcome))
      else whole == After(done + [res.outcome], commands + res.commands, ServersFrom(pass, rest, res.mounted))
  {
    assert ([s] + rest)[0] == s && ([s] + rest)[1..] == rest;
    var res := pass(s, m);
    var next := ServersFrom(pass, rest, res.mounted);
    AppendAssoc(done, [res.outcome], next.outcomes);
    AppendAssoc(commands, res.commands, next.commands);
  }

  /** One server of the script's run, from what `RefreshMountPoints`
      promises to the state of the run after it. */
  lemma ServersStep(pass: (NfsServer, set<string>) -> ServerResult, whole: ServersRun,
                    done: seq<ServerOutcome>, commands: seq<seq<string>>, servers: seq<NfsServer>, i: nat, m: set<string>,
                    r: ServerOutcome, next: set<string>, baseCommands: seq<seq<string>>, afterCommands: seq<seq<string>>,
                    baseProbes: seq<(Service, int)>, afterProbes: seq<(Service, int)>)
    requires i < |servers|
    requires whole == After(done, commands, ServersFrom(pass, servers[i..], m))
    requires var res := pass(servers[i], m);
      && r == res.outcome && next == res.mounted
      && afterCommands == baseCommands + commands + res.commands
    requires afterProbes == baseProbes + ServerProbes(servers[..i]) + [(servers[i].service, CheckTimeoutSeconds)]
    ensures var res := pass(servers[i], m);
      && afterCommands == baseCommands + (commands + res.commands)
      && afterProbes == baseProbes + ServerProbes(servers[..i + 1])
      && (r != Refreshed ==> whole == ServersRun(done + [r], commands + res.commands, next, Some(r)))
      && (r == Refreshed ==> whole == After(done + [r], commands + res.commands, ServersFrom(pass, servers[i + 1..], next)))
  {
    assert servers[i..] == [servers[i]] + servers[i + 1..];
    ServersAdvance(pass, whole, done, commands, servers[i], servers[i + 1..], m);
    var res := pass(servers[i], m);
    AppendAssoc(baseCommands, commands, res.commands);
    ServerProbesSnoc(servers, i);
    AppendAssoc(baseProbes, ServerProbes(servers[..i]), [(servers[i].service, CheckTimeoutSeconds)]);
  }


  /** One turn of `main`'s loop: the next server refreshed, and the run so
      far advanced past it. */
  method RefreshNext(servers: seq<NfsServer>, i: nat, ghost pass: (NfsServer, set<string>) -> ServerResult, net: Network, os: System,
                     ghost whole: ServersRun, ghost done: seq<ServerOutcome>, ghost commands: seq<seq<string>>,
                     ghost baseCommands: seq<seq<string>>, ghost baseProbes: seq<(Service, int)>)
    returns (r: ServerOutcome, ghost res: ServerResult)
    requires i < |servers| && PassOf(pass, os, net)
    requires whole == After(done, commands, ServersFrom(pass, servers[i..], os.mounted))
    requires os.commands == baseCommands + commands
    requires net.probes == baseProbes + ServerProbes(servers[..i])
    modifies net, os
    ensures res == pass(servers[i], old(os.mounted)) && r == res.outcome
    ensures os.commands == baseCommands + (commands + res.commands)
    ensures net.probes == baseProbes + ServerProbes(servers[..i + 1])
    ensures r != Refreshed ==> whole == ServersRun(done + [r], commands + res.commands, os.mounted, Some(r))
    ensures r == Refreshed ==> whole == After(done + [r], commands + res.commands, ServersFrom(pass, servers[i + 1..], os.mounted))
  {
    ghost var m := os.mounted;
    res := pass(servers[i], m);
    r := RefreshMountPoints(servers[i], pass, net, os);
    ServersStep(pass, whole, done, commands, servers, i, m, r, os.mounted, baseCommands, os.commands, baseProbes, net.probes);
  }

  /** `main`'s loop over the servers: the first server that raises stops it. */
  method RefreshServers(servers: seq<NfsServer>, ghost pass: (NfsServer, set<string>) -> ServerResult, net: Network, os: System) returns (raised: Option<ServerOutcome>)
    requires PassOf(pass, os, net)
    modifies net, os
    ensures var run := ServersFrom(pass, servers, old(os.mounted));
      && raised == run.raised
      && os.mounted == run.mounted
      && os.commands == old(os.commands) + run.commands
      && net.probes == old(net.probes) + ServerProbes(servers[..|run.outcomes|])
  {
    ghost var whole := ServersFrom(pass, servers, os.mounted);
    ghost var done: seq<ServerOutcome> := [];
    ghost var commands: seq<seq<string>> := [];
    assert servers[0..] == servers;
    assert whole == After(done, commands, whole);
    var i := 0;
    while i < |servers|
      invariant 0 <= i <= |servers| && |done| == i
      invariant whole == After(done, commands, ServersFrom(pass, servers[i..], os.mounted))
      invariant os.commands == old(os.commands) + commands
      invariant net.probes == old(net.probes) + ServerProbes(servers[..i])
    {
      var r, res := RefreshNext(servers, i, pass, net, os, whole, done, commands, old(os.commands), old(net.probes));
      done := done + [r];
      commands := commands + res.commands;
      if r != Refreshed {
        raised := Some(r);
        return;
      }
      i := i + 1;
    }
    assert servers[i..] == [];
    assert done + [] == done && commands + [] == commands;
    assert whole == ServersRun(done, commands, os.mounted, None);
    raised := None;
  }

  /** The loop of `main` that builds the server list from the decoded file:
      one server per item, in order. */
  method BuildServers(items: seq<(string, seq<MountPointArg>)>) returns (servers: seq<NfsServer>)
    ensures |servers| == |items|
    ensures forall i :: 0 <= i < |items| ==> servers[i] == NewNfsServer(items[i].0, items[i].1)
  {
    servers := [];
    var i := 0;
    while i < |items|
      invariant 0 <= i <= |items| && |servers| == i
      invariant forall j :: 0 <= j < i ==> servers[j] == NewNfsServer(items[j].0, items[j].1)
    {
      servers := servers + [NewNfsServer(items[i].0, items[i].1)];
      i := i + 1;
    }
  }

  /** `main` after its checks, the decoded server file given: the servers
      are built, then refreshed in order until one raises. */
  method RunServers(items: seq<(string, seq<MountPointArg>)>, net: Network, os: System)
    returns (servers: seq<NfsServer>, raised: Option<ServerOutcome>)
    modifies net, os
    ensures |servers| == |items|
    ensures forall i :: 0 <= i < |items| ==> servers[i] == NewNfsServer(items[i].0, items[i].1)
    ensures var run := ServersFrom(ScriptPass(os, net), servers, old(os.mounted));
      && raised == run.raised
      && os.mounted == run.mounted
      && os.commands == old(os.commands) + run.commands
      && net.probes == old(net.probes) + ServerProbes(servers[..|run.outcomes|])
  {
    servers := BuildServers(items);
    ScriptPassIsPassOf(os, net);
    raised := RefreshServers(servers, ScriptPass(os, net), net, os);
  }
}
