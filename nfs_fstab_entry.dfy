/** NFS rows: the `key=value` mount options that fix the protocol version and
    port, and the split of the row's name into server host and remote path. */
module NfsEntries {
  import opened Wrappers
  import opened Text
  import opened MountPoints
  import opened Services
  import opened FstabEntries

  /** The NFS parameters read from the mount options. */
  datatype NfsMountOptions = NfsMountOptions(version: int, port: int)

  /** The version assumed when no `version=` option is given. */
  const DefaultVersion := 3
  /** The registered NFS port, which NFSv4 clients use without RPC binding
      (section 3.1 of RFC 7530). */
  const NfsV4Port := 2049
  /** The port of an entry whose port would have to be discovered through the
      port mapper, which is not implemented. */
  const UndiscoveredPort := 0

  /** Option `option` has the form `key=...`. */
  predicate HasKey(option: string, key: string) {
    Partition(option, '=').Some? && Partition(option, '=').value.0 == key
  }

  /** The `options_mapping` dict: options without `=` are skipped, the others
      split at their first `=`, and a later option overwrites an earlier one
      with the same key. */
  function OptionsMapping(options: seq<string>): (m: map<string, string>)
    ensures forall key :: key in m ==> '=' !in key
    decreases |options|
  {
    if |options| == 0 then map[]
    else
      var m := OptionsMapping(options[..|options| - 1]);
      match Partition(options[|options| - 1], '=')
      case None => m
      case Some((key, value)) => m[key := value]
  }

  /** The loop of `from_entry` that fills `options_mapping`. */
  method MappingOf(options: seq<string>) returns (m: map<string, string>)
    ensures m == OptionsMapping(options)
  {
    m := map[];
    var i := 0;
    while i < |options|
      invariant 0 <= i <= |options|
      invariant m == OptionsMapping(options[..i])
    {
      assert options[..i + 1][..i] == options[..i];
      match Partition(options[i], '=') {
        case None =>
        case Some((key, value)) =>
          m := m[key := value];
      }
      i := i + 1;
    }
    assert options[..|options|] == options;
  }

  /** A key is mapped exactly when some option carries it. */
  lemma {:induction false} MappingKeys(options: seq<string>, key: string)
    ensures key in OptionsMapping(options) <==> exists i :: 0 <= i < |options| && HasKey(options[i], key)
    decreases |options|
  {
    if |options| > 0 {
      var init := options[..|options| - 1];
      MappingKeys(init, key);
      MappingKeyStep(options, key);
      if key in OptionsMapping(options) {
        if !HasKey(options[|options| - 1], key) {
          var i :| 0 <= i < |init| && HasKey(init[i], key);
          assert options[i] == init[i];
        }
      } else {
        forall i | 0 <= i < |options| ensures !HasKey(options[i], key) {
          if i < |init| {
            assert options[i] == init[i];
          }
        }
      }
    }
  }

  lemma MappingKeyStep(options: seq<string>, key: string)
    requires |options| > 0
    ensures key in OptionsMapping(options) <==> key in OptionsMapping(options[..|options| - 1]) || HasKey(options[|options| - 1], key)
  {
  }

  /** `options[i]` is `key=value` and no later option has key `key`. */
  predicate LastSettingAt(options: seq<string>, i: nat, key: string, value: string) {
    && i < |options|
    && Partition(options[i], '=') == Some((key, value))
    && forall j :: i < j < |options| ==> !HasKey(options[j], key)
  }

  /** No option has key `key`. */
  predicate Unset(options: seq<string>, key: string) {
    forall j :: 0 <= j < |options| ==> !HasKey(options[j], key)
  }

  /** The last option with a key decides its value. */
  lemma {:induction false} MappingLastWins(options: seq<string>, i: nat, key: string, value: string)
    requires LastSettingAt(options, i, key, value)
    ensures key in OptionsMapping(options) && OptionsMapping(options)[key] == value
    decreases |options|
  {
    var init := options[..|options| - 1];
    if i < |options| - 1 {
      assert !HasKey(options[|options| - 1], key);
      assert LastSettingAt(init, i, key, value);
      MappingLastWins(init, i, key, value);
    }
  }

  /** A key no option carries is absent from the mapping. */
  lemma MappingUnset(options: seq<string>, key: string)
    requires Unset(options, key)
    ensures key !in OptionsMapping(options)
  {
    MappingKeys(options, key);
  }

  /** `int(...)` of an option value. */
  function IntOf(text: string): (r: Result<int, ParseError>)
    ensures r.Success? <==> ParseInt(text).Some?
    ensures r.Success? ==> r.value == ParseInt(text).value
    ensures r.Failure? ==> r.error == NotAnInteger(text)
  {
    match ParseInt(text)
    case Some(n) => Success(n)
    case None => Failure(NotAnInteger(text))
  }

  /** The port used when no `port=` option is given. */
  function DefaultPort(version: int): int {
    if version == 4 then NfsV4Port else UndiscoveredPort
  }

  /** The version and port read from an options mapping: each is the integer
      of its value, or its default when it is absent; the version is read
      first, so a bad version is the error even when the port is bad too. */
  function Resolve(mapping: map<string, string>): (r: Result<NfsMountOptions, ParseError>)
    ensures r.Failure? <==>
      ("version" in mapping && ParseInt(mapping["version"]).None?) || ("port" in mapping && ParseInt(mapping["port"]).None?)
    ensures "version" in mapping && ParseInt(mapping["version"]).None? ==> r == Failure(NotAnInteger(mapping["version"]))
    ensures ("version" !in mapping || ParseInt(mapping["version"]).Some?) && "port" in mapping && ParseInt(mapping["port"]).None? ==>
      r == Failure(NotAnInteger(mapping["port"]))
    ensures r.Success? ==> r.value.version == if "version" in mapping then ParseInt(mapping["version"]).value else DefaultVersion
    ensures r.Success? ==> r.value.port == if "port" in mapping then ParseInt(mapping["port"]).value else DefaultPort(r.value.version)
  {
    var version :- if "version" in mapping then IntOf(mapping["version"]) else Success(DefaultVersion);
    var port :- if "port" in mapping then IntOf(mapping["port"]) else Success(DefaultPort(version));
    Success(NfsMountOptions(version, port))
  }

  /** The version and port of a row's options: an option the row does not
      carry takes its default. */
  function ResolveOptions(options: seq<string>): (r: Result<NfsMountOptions, ParseError>)
    ensures Unset(options, "version") && r.Success? ==> r.value.version == DefaultVersion
    ensures Unset(options, "port") && r.Success? ==> r.value.port == DefaultPort(r.value.version)
  {
    MappingKeys(options, "version");
    MappingKeys(options, "port");
    Resolve(OptionsMapping(options))
  }

  /** Without `version=` and `port=` the entry is NFSv3 on an undiscovered port. */
  lemma ResolveDefaults(options: seq<string>)
    requires Unset(options, "version") && Unset(options, "port")
    ensures ResolveOptions(options) == Success(NfsMountOptions(DefaultVersion, UndiscoveredPort))
  {
    MappingUnset(options, "version");
    MappingUnset(options, "port");
  }

  /** The version is the last `version=` value; without `port=` the port is
      2049 for version 4 and 0 for every other version. */
  lemma ResolveVersionDefaultPort(options: seq<string>, i: nat, text: string, version: int)
    requires LastSettingAt(options, i, "version", text) && ParseInt(text) == Some(version)
    requires Unset(options, "port")
    ensures ResolveOptions(options) == Success(NfsMountOptions(version, if version == 4 then NfsV4Port else UndiscoveredPort))
  {
    MappingLastWins(options, i, "version", text);
    MappingUnset(options, "port");
  }

  /** An explicit port wins whatever the version. */
  lemma ResolveExplicitPort(options: seq<string>, i: nat, text: string, port: int)
    requires LastSettingAt(options, i, "port", text) && ParseInt(text) == Some(port)
    ensures ResolveOptions(options).Success? ==> ResolveOptions(options).value.port == port
    ensures Unset(options, "version") ==> ResolveOptions(options) == Success(NfsMountOptions(DefaultVersion, port))
  {
    MappingLastWins(options, i, "port", text);
    if Unset(options, "version") {
      MappingUnset(options, "version");
    }
  }

  /** A version value that is not an integer is an error. */
  lemma ResolveBadVersion(options: seq<string>, i: nat, text: string)
    requires LastSettingAt(options, i, "version", text) && ParseInt(text).None?
    ensures ResolveOptions(options) == Failure(NotAnInteger(text))
  {
    MappingLastWins(options, i, "version", text);
  }

  /** A port value that is not an integer is an error whatever the version;
      the error names the port's text once the version is read. */
  lemma ResolveBadPort(options: seq<string>, i: nat, text: string)
    requires LastSettingAt(options, i, "port", text) && ParseInt(text).None?
    ensures ResolveOptions(options).Failure?
    ensures ("version" !in OptionsMapping(options) || ParseInt(OptionsMapping(options)["version"]).Some?) ==>
      ResolveOptions(options) == Failure(NotAnInteger(text))
    ensures Unset(options, "version") ==> ResolveOptions(options) == Failure(NotAnInteger(text))
  {
    MappingLastWins(options, i, "port", text);
    if Unset(options, "version") {
      MappingUnset(options, "version");
    }
  }

  /** An example: only the first `=` separates key from value. */
  lemma ValueKeepsLaterEquals()
    ensures OptionsMapping(["sec=a=b"]) == map["sec" := "a=b"]
  {
    PartitionUnique("sec=a=b", '=', "sec", "a=b");
    assert ["sec=a=b"][..0] == [];
  }

  /** `NfsMountOptions.from_options_sequence` of the single-file scripts. */
  method FromOptionsSequence(options: seq<string>) returns (r: Result<NfsMountOptions, ParseError>)
    ensures r == ResolveOptions(options)
  {
    var mapping := MappingOf(options);
    r := Resolve(mapping);
  }

  /** `NfsMountOptions.from_entry`: as above, and `warned` says whether the
      "RPC discovery of NFS port is not implemented" warning is logged. */
  method FromEntry(f: Fields) returns (r: Result<NfsMountOptions, ParseError>, warned: bool)
    ensures r == ResolveOptions(f.mountOptions)
    ensures warned <==> r.Success? && r.value.port == UndiscoveredPort
  {
    var mapping := MappingOf(f.mountOptions);
    r := Resolve(mapping);
    warned := r.Success? && r.value.port == 0;
  }

  /** `NfsFstabEntry.__post_init__` on a row's fields, the service aside from
      its interning: the name splits at its right-most colon into host and
      remote path, then the options give the port. */
  function NfsEntryOf(f: Fields): (r: Result<Entry, ParseError>)
    ensures r.Success? ==> r.value.Nfs? && r.value.fields == f
    ensures r.Success? ==> r.value.service.host + [':'] + r.value.remotePath == f.name && ':' !in r.value.remotePath
    ensures r.Success? ==> ResolveOptions(f.mountOptions).Success? && r.value.service.port == ResolveOptions(f.mountOptions).value.port
    ensures ':' !in f.name ==> r == Failure(NoHostSeparator(f.name))
    ensures ':' in f.name && ResolveOptions(f.mountOptions).Failure? ==> r == Failure(ResolveOptions(f.mountOptions).error)
    ensures ':' in f.name && ResolveOptions(f.mountOptions).Success? ==> r.Success?
  {
    match RPartition(f.name, ':')
    case None => Failure(NoHostSeparator(f.name))
    case Some((host, remotePath)) =>
      var options :- ResolveOptions(f.mountOptions);
      Success(Nfs(f, remotePath, Service(host, options.port)))
  }

  /** An example: a raw IPv6 host keeps its colons. */
  lemma Ipv6HostSurvives(f: Fields)
    requires f.name == "2001:db8::1:/export"
    requires ResolveOptions(f.mountOptions).Success?
    ensures NfsEntryOf(f).Success?
    ensures NfsEntryOf(f).value.service.host == "2001:db8::1" && NfsEntryOf(f).value.remotePath == "/export"
  {
    var host, remotePath := "2001:db8::1", "/export";
    assert host + [':'] + remotePath == f.name;
    assert ':' !in remotePath;
    RPartitionUnique(f.name, ':', host, remotePath);
  }

  /** `__post_init__` with the service interned through `Service.new_cached`. */
  method PostInit(f: Fields, cache: ServiceCache) returns (r: Result<Entry, ParseError>, warned: bool)
    requires cache.Interned()
    modifies cache
    ensures cache.Interned() && cache.memo == old(cache.memo)
    ensures r == NfsEntryOf(f)
    ensures warned <==> ':' in f.name && r.Success? && r.value.service.port == UndiscoveredPort
    ensures r.Failure? ==> cache.registry == old(cache.registry)
    ensures r.Success? ==> cache.registry == old(cache.registry)[(r.value.service.host, r.value.service.port) := r.value.service]
  {
    match RPartition(f.name, ':')
    case None =>
      r := Failure(NoHostSeparator(f.name));
      warned := false;
    case Some((host, remotePath)) =>
      var options;
      options, warned := FromEntry(f);
      if options.Failure? {
        r := Failure(options.error);
      } else {
        var service := cache.NewCached(host, options.value.port);
        r := Success(Nfs(f, remotePath, service));
      }
  }
}
