/** The package's `Application`: the filter that picks the entries marked for
    automatic mounting, the error list that the refresh callback fills, and
    `run`, which loads the table, refreshes the marked entries and logs a
    summary when some refresh failed. */
module Stabbie {
  import opened Wrappers
  import opened MountPoints
  import opened Services
  import opened FstabEntries
  import opened FstabFile
  import opened RemoteEntries
  import opened Passes

  /** The `stabbie_mount_option` class attribute. */
  const StabbieMountOption := "x-stabbie"

  /** `fstab_entries_filter_key`. */
  predicate FilterKey(e: Entry) {
    Eligible(Marked(StabbieMountOption), e)
  }

  /** An entry is picked exactly when it is an NFS entry and `x-stabbie` is one
      of its mount options. */
  lemma FilterKeyMeaning(e: Entry)
    ensures FilterKey(e) <==> e.Nfs? && StabbieMountOption in e.fields.mountOptions
  {
    HasOptionIsMember(e.fields.mountOptions, StabbieMountOption);
  }

  /** An example: the option is matched as a whole, so `x-stabbie=1` and
      `x-stabbie2` do not mark an entry. */
  lemma LookalikeOptionsDoNotMark(e: Entry)
    requires e.Nfs? && e.fields.mountOptions == ["x-stabbie=1", "x-stabbie2"]
    ensures !FilterKey(e)
  {
    FilterKeyMeaning(e);
    assert e.fields.mountOptions[0] != StabbieMountOption;
    assert e.fields.mountOptions[1] != StabbieMountOption;
  }

  /** The marked entries of a table, in table order, are the mount points the
      run refreshes. */
  lemma MarkedEntriesAreRefreshed(entries: seq<Entry>, t: Target)
    ensures t in Targets(entries, Marked(StabbieMountOption)) <==>
      exists i :: 0 <= i < |entries| && FilterKey(entries[i]) && TargetOf(entries[i]) == t
  {
    TargetsAreEligibleEntries(entries, Marked(StabbieMountOption), t);
  }

  /** A refresh of a marked, unmounted entry whose server answers, and whose
      mount fails, reports that mount error. */
  lemma {:induction false} FailedMountIsReported(os: System, net: Network, e: Entry, m: set<string>)
    requires FilterKey(e) && net.Accepts(e.service)
    requires !os.IsMountedIn(m, e.fields.mountPoint)
    requires os.exec(MountCommand(e.fields.mountPoint)).Exited? && os.exec(MountCommand(e.fields.mountPoint)).code != 0
    ensures Failures(SweepFrom(os, net, Targets([e], Marked(StabbieMountOption)), DropAll, m).reports) == [MountError(e.fields.mountPoint.path)]
  {
    var t := TargetOf(e);
    assert [e][1..] == [];
    assert Targets([e], Marked(StabbieMountOption)) == [t];
    var rep := Refresh(os, net, t, m);
    assert rep.outcome == Fail(MountError(e.fields.mountPoint.path));
    SweepStep(os, net, t, [], DropAll, m);
    assert [t] + [] == [t];
    var s := SweepFrom(os, net, [t], DropAll, m);
    assert s.reports == [rep] + [] == [rep];
    assert s.reports[..0] == [];
  }

  class Application {
    /** `__refresh_errors`. */
    var refreshErrors: seq<Failure>

    /** `__init__`: every application starts with no refresh error. */
    constructor ()
      ensures refreshErrors == []
    {
      refreshErrors := [];
    }

    /** `refresh_error_callback`: the error goes at the end of the list. */
    method RefreshErrorCallback(error: Failure)
      modifies this
      ensures refreshErrors == old(refreshErrors) + [error]
    {
      refreshErrors := refreshErrors + [error];
    }

    /** The error callback called on each error in turn. */
    method CollectErrors(errors: seq<Failure>)
      modifies this
      ensures refreshErrors == old(refreshErrors) + errors
    {
      var k := 0;
      while k < |errors|
        invariant 0 <= k <= |errors|
        invariant refreshErrors == old(refreshErrors) + errors[..k]
      {
        RefreshErrorCallback(errors[k]);
        assert errors[..k + 1] == errors[..k] + [errors[k]];
        k := k + 1;
      }
      assert errors[..k] == errors;
    }

    /** `run` as written, the table's lines given and the worker pool run as one
        sequential pass that refreshes every marked entry (a pool that hands
        out several entries per task skips the rest of a task after a refresh
        that raises, which this pass does not): a table that does not load
        fails the run before any refresh; otherwise each marked entry is
        refreshed in table order. No
        error callback is handed to `map_async`, so every error of a refresh
        is dropped, the error list stays as it was, and the summary holds that
        list exactly when it is not empty. */
    method Run(lines: seq<string>, cache: ServiceCache, net: Network, os: System)
      returns (r: Result<Option<seq<Failure>>, ParseError>)
      requires cache.Valid(net)
      modifies this, cache, net, os
      ensures cache.Valid(net)
      ensures r.Failure? <==> ParseTable(lines).Failure?
      ensures r.Failure? ==> r.error == ParseTable(lines).error
      ensures r.Failure? ==> os.mounted == old(os.mounted) && os.commands == old(os.commands) && net.probes == old(net.probes)
      ensures r.Success? ==> var s := SweepFrom(os, net, Targets(ParseTable(lines).value, Marked(StabbieMountOption)), DropAll, old(os.mounted));
        && os.mounted == s.mounted
        && os.commands == old(os.commands) + CommandsOf(s.reports)
        && net.probes == old(net.probes) + ProbesOf(old(cache.MemoKey()), s.reports)
      ensures refreshErrors == old(refreshErrors)
      ensures r.Success? ==> (r.value.Some? <==> |refreshErrors| > 0) && (r.value.Some? ==> r.value.value == refreshErrors)
    {
      var table := FromLines(lines, cache);
      if table.Failure? {
        r := Failure(table.error);
        return;
      }
      PassOverIsSweepOf(os, net, DropAll);
      var escaped, dropped := RefreshEntries(table.value.entries, Marked(StabbieMountOption), DropAll, cache, net, os, PassOver(os, net, DropAll));
      var errors := refreshErrors;
      r := Success(if |errors| > 0 then Some(errors) else None);
    }

    /** `run` with each refresh submitted to the pool on its own (one
        `apply_async` per entry, say) with `refresh_error_callback` as its
        error callback: each error a refresh raises reaches the list, in table
        order, and the summary holds them all. Handing the callback to the one
        `map_async` call would not do: its result keeps only the first error
        and calls the callback once. */
    method RunCollecting(lines: seq<string>, cache: ServiceCache, net: Network, os: System)
      returns (r: Result<Option<seq<Failure>>, ParseError>)
      requires cache.Valid(net)
      modifies this, cache, net, os
      ensures cache.Valid(net)
      ensures r.Failure? <==> ParseTable(lines).Failure?
      ensures r.Failure? ==> r.error == ParseTable(lines).error && refreshErrors == old(refreshErrors)
      ensures r.Failure? ==> os.mounted == old(os.mounted) && os.commands == old(os.commands) && net.probes == old(net.probes)
      ensures r.Success? ==> var s := SweepFrom(os, net, Targets(ParseTable(lines).value, Marked(StabbieMountOption)), DropAll, old(os.mounted));
        && os.mounted == s.mounted
        && os.commands == old(os.commands) + CommandsOf(s.reports)
        && net.probes == old(net.probes) + ProbesOf(old(cache.MemoKey()), s.reports)
        && refreshErrors == old(refreshErrors) + Failures(s.reports)
        && (r.value.Some? <==> |refreshErrors| > 0) && (r.value.Some? ==> r.value.value == refreshErrors)
    {
      var table := FromLines(lines, cache);
      if table.Failure? {
        r := Failure(table.error);
        return;
      }
      PassOverIsSweepOf(os, net, DropAll);
      var escaped, errors := RefreshEntries(table.value.entries, Marked(StabbieMountOption), DropAll, cache, net, os, PassOver(os, net, DropAll));
      CollectErrors(errors);
      var collected := refreshErrors;
      r := Success(if |collected| > 0 then Some(collected) else None);
    }
  }
}
