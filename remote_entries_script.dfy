/** The earliest script: the same classes again, and a `main` that
    refreshes every remote entry of the table, whatever its options, logging
    each mount or unmount error and going on. */
module RemoteEntriesScript {
  import opened Wrappers
  import opened MountPoints
  import opened Services
  import opened FstabEntries
  import opened FstabFile
  import opened Passes

  /** No option is looked at: every NFS entry of the table is refreshed, and
      nothing else is. */
  lemma EveryRemoteEntryIsRefreshed(entries: seq<Entry>, t: Target)
    ensures t in Targets(entries, AnyRemote) <==> exists i :: 0 <= i < |entries| && entries[i].Nfs? && TargetOf(entries[i]) == t
  {
    TargetsAreEligibleEntries(entries, AnyRemote, t);
  }

  /** The work of `main` after its privilege check, the table's lines given:
      a table that does not load fails before any refresh; otherwise the
      remote entries are refreshed in table order, a mount or unmount error
      is logged and the loop goes on, and any other error ends the script.
      `errors` are the errors the refreshes raised, in order. */
  method RefreshTable(lines: seq<string>, cache: ServiceCache, net: Network, os: System)
    returns (r: Result<Option<Failure>, ParseError>, errors: seq<Failure>)
    requires cache.Valid(net)
    modifies cache, net, os
    ensures cache.Valid(net)
    ensures r.Failure? <==> ParseTable(lines).Failure?
    ensures r.Failure? ==> r.error == ParseTable(lines).error && errors == []
    ensures r.Failure? ==> os.mounted == old(os.mounted) && os.commands == old(os.commands) && net.probes == old(net.probes)
    ensures r.Success? ==> var s := SweepFrom(os, net, Targets(ParseTable(lines).value, AnyRemote), CatchMountErrors, old(os.mounted));
      && r.value == s.escaped
      && errors == Failures(s.reports)
      && os.mounted == s.mounted
      && os.commands == old(os.commands) + CommandsOf(s.reports)
      && net.probes == old(net.probes) + ProbesOf(old(cache.MemoKey()), s.reports)
  {
    var table := FromLines(lines, cache);
    if table.Failure? {
      r, errors := Failure(table.error), [];
      return;
    }
    PassOverIsSweepOf(os, net, CatchMountErrors);
    var escaped;
    escaped, errors := RefreshEntries(table.value.entries, AnyRemote, CatchMountErrors, cache, net, os, PassOver(os, net, CatchMountErrors));
    r := Success(escaped);
  }
}
