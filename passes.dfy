/** A refresh pass: `refresh_mount_point` applied to a run of targets in
    order, with a policy saying which errors the caller swallows. The three
    generations of the program run such a pass over the table's eligible
    entries, and the server script runs one over each server's mount points. */
module Passes {
  import opened Wrappers
  import opened MountPoints
  import opened Services
  import opened FstabEntries
  import opened RemoteEntries

  /** A mount point and the service that decides whether it should be mounted. */
  datatype Target = Target(mountPoint: MountPoint, service: Service)

  function TargetOf(e: Entry): (t: Target)
    requires e.Nfs?
    ensures t.mountPoint == e.fields.mountPoint && t.service == e.service
  {
    Target(e.fields.mountPoint, e.service)
  }

  /** What one refresh did: the action it chose and what that action raised. */
  datatype Report = Report(target: Target, action: Action, outcome: Outcome<Failure>)

  /** Which errors the caller of a refresh swallows before going on with the
      next target: the `except MountError` / `except UnmountError` clauses of
      the loops, or a worker pool whose results nobody reads. */
  datatype ErrorPolicy = CatchMountErrors | DropAll

  predicate Caught(policy: ErrorPolicy, f: Failure) {
    policy == DropAll || !f.LaunchError?
  }

  /** The result of a pass: one report per refreshed target, the mounted set
      at the end, and the error that ended the pass early, if one did. */
  datatype Sweep = Sweep(reports: seq<Report>, mounted: set<string>, escaped: Option<Failure>)

  /** One `refresh_mount_point` on `t` when the mounted set is `m`. */
  function Refresh(os: System, net: Network, t: Target, m: set<string>): (r: Report)
    ensures r.target == t
    ensures r.action == Decide(net.Accepts(t.service), os.IsMountedIn(m, t.mountPoint))
  {
    var a := Decide(net.Accepts(t.service), os.IsMountedIn(m, t.mountPoint));
    Report(t, a, ActionOutcome(os, a, t.mountPoint))
  }

  /** `reports` done before the pass `s`. */
  function Continue(reports: seq<Report>, s: Sweep): Sweep {
    Sweep(reports + s.reports, s.mounted, s.escaped)
  }

  /** The pass over `targets` from the mounted set `m`: each target is
      refreshed in turn; a caught error goes on to the next target and an
      uncaught one ends the pass. */
  function SweepFrom(os: System, net: Network, targets: seq<Target>, policy: ErrorPolicy, m: set<string>): (sw: Sweep)
    ensures |sw.reports| <= |targets|
    decreases |targets|
  {
    if |targets| == 0 then Sweep([], m, None)
    else
      var rep := Refresh(os, net, targets[0], m);
      var next := ActionMounted(os, rep.action, targets[0].mountPoint, m);
      if rep.outcome.Fail? && !Caught(policy, rep.outcome.error) then Sweep([rep], next, Some(rep.outcome.error))
      else Continue([rep], SweepFrom(os, net, targets[1..], policy, next))
  }

  /** The command lines of a run of reports, in order. */
  function CommandsOf(reports: seq<Report>): seq<seq<string>>
    decreases |reports|
  {
    if |reports| == 0 then []
    else
      var last := reports[|reports| - 1];
      CommandsOf(reports[..|reports| - 1]) + ActionCommands(last.action, last.target.mountPoint)
  }

  /** The errors of a run of reports, in order. */
  function Failures(reports: seq<Report>): seq<Failure>
    decreases |reports|
  {
    if |reports| == 0 then []
    else
      var last := reports[|reports| - 1];
      Failures(reports[..|reports| - 1]) + if last.outcome.Fail? then [last.outcome.error] else []
  }

  /** The services the reports asked about, in order. */
  function ServicesOf(reports: seq<Report>): (ss: seq<Service>)
    ensures |ss| == |reports| && forall i :: 0 <= i < |reports| ==> ss[i] == reports[i].target.service
  {
    seq(|reports|, i requires 0 <= i < |reports| => reports[i].target.service)
  }

  /** The connection attempts of a run of probes. */
  function ProbeLog(ss: seq<Service>): (log: seq<(Service, int)>)
    ensures |log| == |ss| && forall i :: 0 <= i < |ss| ==> log[i] == (ss[i], CheckTimeoutSeconds)
  {
    seq(|ss|, i requires 0 <= i < |ss| => (ss[i], CheckTimeoutSeconds))
  }

  lemma CommandsOfSnoc(reports: seq<Report>, rep: Report)
    ensures CommandsOf(reports + [rep]) == CommandsOf(reports) + ActionCommands(rep.action, rep.target.mountPoint)
  {
    assert (reports + [rep])[..|reports|] == reports;
  }

  lemma FailuresSnoc(reports: seq<Report>, rep: Report)
    ensures Failures(reports + [rep]) == Failures(reports) + if rep.outcome.Fail? then [rep.outcome.error] else []
  {
    assert (reports + [rep])[..|reports|] == reports;
  }

  lemma ServicesOfSnoc(reports: seq<Report>, rep: Report)
    ensures ServicesOf(reports + [rep]) == ServicesOf(reports) + [rep.target.service]
  {
  }

  lemma ProbeLogConcat(a: seq<Service>, b: seq<Service>)
    ensures ProbeLog(a + b) == ProbeLog(a) + ProbeLog(b)
  {
  }

  /** Every report issues at most one command line. */
  lemma {:induction false} CommandsAtMostReports(reports: seq<Report>)
    ensures |CommandsOf(reports)| <= |reports|
    decreases |reports|
  {
    if |reports| > 0 {
      CommandsAtMostReports(reports[..|reports| - 1]);
    }
  }

  /** Every report carries at most one error. */
  lemma {:induction false} FailuresAtMostReports(reports: seq<Report>)
    ensures |Failures(reports)| <= |reports|
    decreases |reports|
  {
    if |reports| > 0 {
      FailuresAtMostReports(reports[..|reports| - 1]);
    }
  }

  /** The error list is empty exactly when every refresh passed. */
  lemma {:induction false} FailuresEmptyIffAllPass(reports: seq<Report>)
    ensures Failures(reports) == [] <==> forall i :: 0 <= i < |reports| ==> reports[i].outcome.Pass?
    decreases |reports|
  {
    if |reports| > 0 {
      var init := reports[..|reports| - 1];
      FailuresEmptyIffAllPass(init);
      assert forall i :: 0 <= i < |init| ==> init[i] == reports[i];
    }
  }

  /** A pass visits a prefix of the targets in order, one report each; it
      stops early only at an error the policy does not catch, which it
      reports last; every earlier error is one the policy catches. */
  lemma {:induction false} SweepCovers(os: System, net: Network, targets: seq<Target>, policy: ErrorPolicy, m: set<string>)
    ensures var s := SweepFrom(os, net, targets, policy, m);
      && |s.reports| <= |targets|
      && (forall i :: 0 <= i < |s.reports| ==> s.reports[i].target == targets[i])
      && (s.escaped.None? ==> |s.reports| == |targets|)
      && (s.escaped.Some? ==> 0 < |s.reports| && s.reports[|s.reports| - 1].outcome == Fail(s.escaped.value) && !Caught(policy, s.escaped.value))
      && (forall i :: 0 <= i < |s.reports| && (s.escaped.None? || i < |s.reports| - 1) ==>
            s.reports[i].outcome.Pass? || Caught(policy, s.reports[i].outcome.error))
    decreases |targets|
  {
    if |targets| > 0 {
      var rep := Refresh(os, net, targets[0], m);
      var next := ActionMounted(os, rep.action, targets[0].mountPoint, m);
      if !(rep.outcome.Fail? && !Caught(policy, rep.outcome.error)) {
        SweepCovers(os, net, targets[1..], policy, next);
        var rest := SweepFrom(os, net, targets[1..], policy, next);
        var all := [rep] + rest.reports;
        assert forall i :: 0 < i < |all| ==> all[i] == rest.reports[i - 1];
      }
    }
  }

  /** Under a policy that drops every error, each target is refreshed exactly
      once and nothing escapes. This is the sequential pass that models the
      worker pool; a pool task holding several entries stops at the first
      refresh that raises. */
  lemma DropAllVisitsEveryTarget(os: System, net: Network, targets: seq<Target>, m: set<string>)
    ensures SweepFrom(os, net, targets, DropAll, m).escaped.None?
    ensures |SweepFrom(os, net, targets, DropAll, m).reports| == |targets|
  {
    SweepCovers(os, net, targets, DropAll, m);
  }

  /** The loops of the scripts, which catch mount and unmount errors: only a
      launch error ends the pass early, and without one every target is
      refreshed once, in order. */
  lemma CaughtPassRefreshesEach(os: System, net: Network, targets: seq<Target>, m: set<string>)
    ensures var s := SweepFrom(os, net, targets, CatchMountErrors, m);
      && (s.escaped.Some? ==> s.escaped.value.LaunchError?)
      && (s.escaped.None? ==> |s.reports| == |targets| && forall i :: 0 <= i < |targets| ==> s.reports[i].target == targets[i])
  {
    SweepCovers(os, net, targets, CatchMountErrors, m);
  }

  /** A pass changes the mount state of no path outside its targets. */
  lemma {:induction false} SweepTouchesOnlyTargets(os: System, net: Network, targets: seq<Target>, policy: ErrorPolicy, m: set<string>, q: string)
    requires forall i :: 0 <= i < |targets| ==> targets[i].mountPoint.path != q
    ensures q in SweepFrom(os, net, targets, policy, m).mounted <==> q in m
    decreases |targets|
  {
    if |targets| > 0 {
      var rep := Refresh(os, net, targets[0], m);
      var next := ActionMounted(os, rep.action, targets[0].mountPoint, m);
      assert q in next <==> q in m;
      if !(rep.outcome.Fail? && !Caught(policy, rep.outcome.error)) {
        SweepTouchesOnlyTargets(os, net, targets[1..], policy, next, q);
      }
    }
  }

  /** Every target already in the state its service asks for. */
  predicate Settled(os: System, net: Network, targets: seq<Target>, m: set<string>) {
    forall i :: 0 <= i < |targets| ==> os.IsMountedIn(m, targets[i].mountPoint) == net.Accepts(targets[i].service)
  }

  /** A pass over settled targets skips them all: no command runs, nothing
      escapes and the mounted set stays as it was. */
  lemma {:induction false} SettledSweepIsQuiet(os: System, net: Network, targets: seq<Target>, policy: ErrorPolicy, m: set<string>)
    requires Settled(os, net, targets, m)
    ensures var s := SweepFrom(os, net, targets, policy, m);
      s.mounted == m && s.escaped.None? && CommandsOf(s.reports) == [] && Failures(s.reports) == []
    decreases |targets|
  {
    if |targets| > 0 {
      assert os.IsMountedIn(m, targets[0].mountPoint) == net.Accepts(targets[0].service);
      assert forall i :: 0 <= i < |targets| - 1 ==> targets[1..][i] == targets[i + 1];
      SettledSweepIsQuiet(os, net, targets[1..], policy, m);
      var rep := Refresh(os, net, targets[0], m);
      var rest := SweepFrom(os, net, targets[1..], policy, m);
      SkipsHaveNoCommands(rep, rest.reports);
    }
  }

  lemma {:induction false} SkipsHaveNoCommands(rep: Report, rest: seq<Report>)
    requires rep.action == Skip && rep.outcome == Pass
    requires CommandsOf(rest) == [] && Failures(rest) == []
    ensures CommandsOf([rep] + rest) == [] && Failures([rep] + rest) == []
    decreases |rest|
  {
    if |rest| == 0 {
      assert [rep] + rest == [] + [rep];
      CommandsOfSnoc([], rep);
      FailuresSnoc([], rep);
    } else {
      var init := rest[..|rest| - 1];
      var last := rest[|rest| - 1];
      assert rest == init + [last];
      CommandsOfSnoc(init, last);
      FailuresSnoc(init, last);
      SkipsHaveNoCommands(rep, init);
      assert [rep] + rest == ([rep] + init) + [last];
      CommandsOfSnoc([rep] + init, last);
      FailuresSnoc([rep] + init, last);
    }
  }

  /** No two targets share a path, and every path's mount state is readable. */
  predicate Distinct(os: System, targets: seq<Target>) {
    && (forall i, j :: 0 <= i < j < |targets| ==> targets[i].mountPoint.path != targets[j].mountPoint.path)
    && (forall i :: 0 <= i < |targets| ==> targets[i].mountPoint.path !in os.unreadable)
  }

  /** A pass over distinct targets in which every refresh passes leaves each
      target in the state its service asks for. */
  lemma {:induction false} CleanSweepSettles(os: System, net: Network, targets: seq<Target>, policy: ErrorPolicy, m: set<string>)
    requires Distinct(os, targets)
    requires Failures(SweepFrom(os, net, targets, policy, m).reports) == []
    ensures Settled(os, net, targets, SweepFrom(os, net, targets, policy, m).mounted)
    decreases |targets|
  {
    if |targets| > 0 {
      var t := targets[0];
      var rep := Refresh(os, net, t, m);
      var next := ActionMounted(os, rep.action, t.mountPoint, m);
      var s := SweepFrom(os, net, targets, policy, m);
      FailuresEmptyIffAllPass(s.reports);
      assert s.reports[0] == rep;
      assert rep.outcome.Pass?;
      RefreshReachesTarget(os, net.Accepts(t.service), t.mountPoint, m);
      var rest := SweepFrom(os, net, targets[1..], policy, next);
      assert s == Continue([rep], rest);
      forall i | 0 <= i < |rest.reports| ensures rest.reports[i].outcome.Pass? {
        assert s.reports[i + 1] == rest.reports[i];
      }
      FailuresEmptyIffAllPass(rest.reports);
      assert Distinct(os, targets[1..]) by {
        assert forall i :: 0 <= i < |targets| - 1 ==> targets[1..][i] == targets[i + 1];
      }
      CleanSweepSettles(os, net, targets[1..], policy, next);
      SweepTouchesOnlyTargets(os, net, targets[1..], policy, next, t.mountPoint.path);
      forall i | 0 <= i < |targets| ensures os.IsMountedIn(s.mounted, targets[i].mountPoint) == net.Accepts(targets[i].service) {
        if i > 0 {
          assert targets[1..][i - 1] == targets[i];
        }
      }
    }
  }

  /** "If the mounted state is already achieved, doesn't change it": after a
      clean pass over distinct targets, a second pass does nothing. */
  lemma SecondSweepIsQuiet(os: System, net: Network, targets: seq<Target>, policy: ErrorPolicy, m: set<string>)
    requires Distinct(os, targets)
    requires Failures(SweepFrom(os, net, targets, policy, m).reports) == []
    ensures var again := SweepFrom(os, net, targets, policy, SweepFrom(os, net, targets, policy, m).mounted);
      CommandsOf(again.reports) == [] && again.mounted == SweepFrom(os, net, targets, policy, m).mounted
  {
    CleanSweepSettles(os, net, targets, policy, m);
    SettledSweepIsQuiet(os, net, targets, policy, SweepFrom(os, net, targets, policy, m).mounted);
  }

  /** Which entries a generation of the program refreshes: the NFS entries
      whose options hold a marker as a whole element, or every NFS entry. */
  datatype Eligibility = Marked(option: string) | AnyRemote

  predicate Eligible(el: Eligibility, e: Entry) {
    e.Nfs? && (el.Marked? ==> HasOption(e.fields.mountOptions, el.option))
  }

  /** `option` is one of `options`, looked up from the front. */
  predicate HasOption(options: seq<string>, option: string)
    decreases |options|
  {
    |options| > 0 && (options[0] == option || HasOption(options[1..], option))
  }

  /** The lookup finds exactly the members of the list. */
  lemma {:induction false} HasOptionIsMember(options: seq<string>, option: string)
    ensures HasOption(options, option) <==> option in options
    decreases |options|
  {
    if |options| > 0 {
      HasOptionIsMember(options[1..], option);
      assert options == [options[0]] + options[1..];
    }
  }

  /** The targets of the eligible entries, in table order. */
  function Targets(entries: seq<Entry>, el: Eligibility): seq<Target>
    decreases |entries|
  {
    if |entries| == 0 then []
    else (if Eligible(el, entries[0]) then [TargetOf(entries[0])] else []) + Targets(entries[1..], el)
  }

  /** A target comes from an eligible entry, and every eligible entry gives one. */
  lemma {:induction false} TargetsAreEligibleEntries(entries: seq<Entry>, el: Eligibility, t: Target)
    ensures t in Targets(entries, el) <==> exists i :: 0 <= i < |entries| && Eligible(el, entries[i]) && TargetOf(entries[i]) == t
    decreases |entries|
  {
    if |entries| > 0 {
      TargetsAreEligibleEntries(entries[1..], el, t);
      if exists i :: 0 <= i < |entries| - 1 && Eligible(el, entries[1..][i]) && TargetOf(entries[1..][i]) == t {
        var i :| 0 <= i < |entries| - 1 && Eligible(el, entries[1..][i]) && TargetOf(entries[1..][i]) == t;
        assert entries[i + 1] == entries[1..][i];
      }
      if exists i :: 0 <= i < |entries| && Eligible(el, entries[i]) && TargetOf(entries[i]) == t {
        var i :| 0 <= i < |entries| && Eligible(el, entries[i]) && TargetOf(entries[i]) == t;
        if i > 0 {
          assert entries[1..][i - 1] == entries[i];
        }
      }
    }
  }

  /** Filtering keeps table order: the targets of two tables one after the
      other are those of the first, then those of the second. */
  lemma {:induction false} TargetsConcat(a: seq<Entry>, b: seq<Entry>, el: Eligibility)
    ensures Targets(a + b, el) == Targets(a, el) + Targets(b, el)
    decreases |a|
  {
    if |a| == 0 {
      assert a + b == b;
    } else {
      assert (a + b)[0] == a[0] && (a + b)[1..] == a[1..] + b;
      TargetsConcat(a[1..], b, el);
    }
  }

  lemma TargetsStep(entries: seq<Entry>, i: nat, el: Eligibility)
    requires i < |entries|
    ensures Targets(entries[i..], el) == (if Eligible(el, entries[i]) then [TargetOf(entries[i])] else []) + Targets(entries[i + 1..], el)
  {
    assert entries[i..][0] == entries[i] && entries[i..][1..] == entries[i + 1..];
  }

  lemma SweepStep(os: System, net: Network, t: Target, rest: seq<Target>, policy: ErrorPolicy, m: set<string>)
    ensures var rep := Refresh(os, net, t, m);
      var next := ActionMounted(os, rep.action, t.mountPoint, m);
      SweepFrom(os, net, [t] + rest, policy, m) ==
        if rep.outcome.Fail? && !Caught(policy, rep.outcome.error) then Sweep([rep], next, Some(rep.outcome.error))
        else Continue([rep], SweepFrom(os, net, rest, policy, next))
  {
    assert ([t] + rest)[0] == t && ([t] + rest)[1..] == rest;
  }

  lemma ContinueTwice(a: seq<Report>, b: seq<Report>, s: Sweep)
    ensures Continue(a, Continue(b, s)) == Continue(a + b, s)
  {
    assert a + (b + s.reports) == (a + b) + s.reports;
  }

  /** One more refresh of a pass in progress. */
  lemma SweepAdvance(os: System, net: Network, whole: Sweep, reports: seq<Report>, t: Target, rest: seq<Target>, policy: ErrorPolicy, m: set<string>)
    requires whole == Continue(reports, SweepFrom(os, net, [t] + rest, policy, m))
    ensures var rep := Refresh(os, net, t, m);
      var next := ActionMounted(os, rep.action, t.mountPoint, m);
      if rep.outcome.Fail? && !Caught(policy, rep.outcome.error) then whole == Sweep(reports + [rep], next, Some(rep.outcome.error))
      else whole == Continue(reports + [rep], SweepFrom(os, net, rest, policy, next))
  {
    SweepStep(os, net, t, rest, policy, m);
    var rep := Refresh(os, net, t, m);
    var next := ActionMounted(os, rep.action, t.mountPoint, m);
    if !(rep.outcome.Fail? && !Caught(policy, rep.outcome.error)) {
      ContinueTwice(reports, [rep], SweepFrom(os, net, rest, policy, next));
    }
  }

  /** The probe log of a run of memoised probes extended by one call. */
  lemma ProbeLogSnoc(key: Option<Service>, calls: seq<Service>, s: Service)
    ensures ProbeLog(Probes(key, calls + [s])) ==
      ProbeLog(Probes(key, calls)) + if LastKey(key, calls) == Some(s) then [] else [(s, CheckTimeoutSeconds)]
  {
    ProbesSnoc(key, calls, s);
    var x := if LastKey(key, calls) == Some(s) then [] else [s];
    ProbeLogConcat(Probes(key, calls), x);
    assert ProbeLog(x) == if LastKey(key, calls) == Some(s) then [] else [(s, CheckTimeoutSeconds)];
  }

  /** The service the probe memo holds after the reports, with `key` held
      at the start. */
  function MemoAfter(key: Option<Service>, reports: seq<Report>): Option<Service> {
    if |reports| == 0 then key else Some(reports[|reports| - 1].target.service)
  }

  /** The connection attempts of the memoised probes the reports asked
      for, with the memo holding `key` at the start: a probe of the service
      the memo already holds makes none. */
  function ProbesOf(key: Option<Service>, reports: seq<Report>): seq<(Service, int)>
    decreases |reports|
  {
    if |reports| == 0 then []
    else
      var init := reports[..|reports| - 1];
      var s := reports[|reports| - 1].target.service;
      ProbesOf(key, init) + if MemoAfter(key, init) == Some(s) then [] else [(s, CheckTimeoutSeconds)]
  }

  lemma ProbesOfSnoc(key: Option<Service>, reports: seq<Report>, rep: Report)
    ensures ProbesOf(key, reports + [rep]) == ProbesOf(key, reports) +
      if MemoAfter(key, reports) == Some(rep.target.service) then [] else [(rep.target.service, CheckTimeoutSeconds)]
    ensures MemoAfter(key, reports + [rep]) == Some(rep.target.service)
  {
    assert (reports + [rep])[..|reports|] == reports;
  }

  /** The pass's probes are the one-slot memo's probes of the services
      asked about, in order. */
  lemma {:induction false} ProbesOfIsProbeLog(key: Option<Service>, reports: seq<Report>)
    ensures ProbesOf(key, reports) == ProbeLog(Probes(key, ServicesOf(reports)))
    ensures MemoAfter(key, reports) == LastKey(key, ServicesOf(reports))
    decreases |reports|
  {
    if |reports| > 0 {
      var init := reports[..|reports| - 1];
      var rep := reports[|reports| - 1];
      assert reports == init + [rep];
      ProbesOfIsProbeLog(key, init);
      ServicesOfSnoc(init, rep);
      ProbeLogSnoc(key, ServicesOf(init), rep.target.service);
    }
  }

  lemma AppendAssoc<T>(a: seq<T>, b: seq<T>, c: seq<T>)
    ensures (a + b) + c == a + (b + c)
  {
  }

  /** One eligible entry of the loop, from what `RefreshMountPoint`
      promises to the state of the loop after it. */
  lemma EntryStep(os: System, net: Network, whole: Sweep, reports: seq<Report>, key: Option<Service>,
                  entries: seq<Entry>, i: nat, el: Eligibility, policy: ErrorPolicy, m: set<string>,
                  r: Outcome<Failure>, next: set<string>, baseCommands: seq<seq<string>>, afterCommands: seq<seq<string>>,
                  baseProbes: seq<(Service, int)>, afterProbes: seq<(Service, int)>)
    requires i < |entries| && Eligible(el, entries[i])
    requires whole == Continue(reports, SweepFrom(os, net, Targets(entries[i..], el), policy, m))
    requires var t := TargetOf(entries[i]);
      var a := Decide(net.Accepts(t.service), os.IsMountedIn(m, t.mountPoint));
      && r == ActionOutcome(os, a, t.mountPoint)
      && next == ActionMounted(os, a, t.mountPoint, m)
      && afterCommands == baseCommands + CommandsOf(reports) + ActionCommands(a, t.mountPoint)
    requires var t := TargetOf(entries[i]);
      afterProbes == baseProbes + ProbesOf(key, reports) +
      if MemoAfter(key, reports) == Some(t.service) then [] else [(t.service, CheckTimeoutSeconds)]
    ensures var more := reports + [Refresh(os, net, TargetOf(entries[i]), m)];
      && afterCommands == baseCommands + CommandsOf(more)
      && afterProbes == baseProbes + ProbesOf(key, more)
      && MemoAfter(key, more) == Some(TargetOf(entries[i]).service)
      && Failures(more) == Failures(reports) + (if r.Fail? then [r.error] else [])
      && (r.Fail? && !Caught(policy, r.error) ==> whole == Sweep(more, next, Some(r.error)))
      && (!(r.Fail? && !Caught(policy, r.error)) ==> whole == Continue(more, SweepFrom(os, net, Targets(entries[i + 1..], el), policy, next)))
  {
    var t := TargetOf(entries[i]);
    var rest := Targets(entries[i + 1..], el);
    TargetsStep(entries, i, el);
    var rep := Refresh(os, net, t, m);
    SweepAdvance(os, net, whole, reports, t, rest, policy, m);
    ProbesOfSnoc(key, reports, rep);
    CommandsOfSnoc(reports, rep);
    FailuresSnoc(reports, rep);
    AppendAssoc(baseCommands, CommandsOf(reports), ActionCommands(rep.action, t.mountPoint));
    AppendAssoc(baseProbes, ProbesOf(key, reports),
      if MemoAfter(key, reports) == Some(t.service) then [] else [(t.service, CheckTimeoutSeconds)]);
  }

  /** An ineligible entry adds no target. */
  lemma SkipStep(entries: seq<Entry>, i: nat, el: Eligibility)
    requires i < |entries| && !Eligible(el, entries[i])
    ensures Targets(entries[i..], el) == Targets(entries[i + 1..], el)
  {
    TargetsStep(entries, i, el);
    assert [] + Targets(entries[i + 1..], el) == Targets(entries[i + 1..], el);
  }


  /** A pass over targets, as a function of the targets and the mounted set
      at the start. */
  type SweepFunction = (seq<Target>, set<string>) -> Sweep

  /** `sweep` is the pass against `os` and `net` under `policy`. */
  ghost predicate SweepOf(sweep: SweepFunction, os: System, net: Network, policy: ErrorPolicy) {
    forall ts: seq<Target>, m: set<string> {:trigger SweepFrom(os, net, ts, policy, m)} :: sweep(ts, m) == SweepFrom(os, net, ts, policy, m)
  }

  function PassOver(os: System, net: Network, policy: ErrorPolicy): SweepFunction {
    (ts: seq<Target>, m: set<string>) => SweepFrom(os, net, ts, policy, m)
  }

  lemma PassOverIsSweepOf(os: System, net: Network, policy: ErrorPolicy)
    ensures SweepOf(PassOver(os, net, policy), os, net, policy)
  {
  }

  /** The loop body for an eligible entry: its mount point is refreshed,
      and the pass in progress advances by the report `rep`. */
  method RefreshEligible(ghost entries: seq<Entry>, ghost i: nat, e: Entry, el: Eligibility, policy: ErrorPolicy,
                         cache: ServiceCache, net: Network, os: System, ghost whole: Sweep, ghost reports: seq<Report>,
                         ghost key: Option<Service>, ghost baseCommands: seq<seq<string>>, ghost baseProbes: seq<(Service, int)>,
                         ghost sweep: SweepFunction, errors: seq<Failure>)
    returns (r: Outcome<Failure>, ghost rep: Report, more: seq<Failure>)
    requires i < |entries| && entries[i] == e && Eligible(el, e)
    requires cache.Valid(net) && SweepOf(sweep, os, net, policy)
    requires whole == Continue(reports, sweep(Targets(entries[i..], el), os.mounted))
    requires os.commands == baseCommands + CommandsOf(reports)
    requires net.probes == baseProbes + ProbesOf(key, reports)
    requires cache.MemoKey() == MemoAfter(key, reports)
    requires errors == Failures(reports)
    modifies cache, net, os
    ensures cache.Valid(net) && cache.registry == old(cache.registry)
    ensures os.commands == baseCommands + CommandsOf(reports + [rep])
    ensures net.probes == baseProbes + ProbesOf(key, reports + [rep])
    ensures cache.MemoKey() == MemoAfter(key, reports + [rep])
    ensures more == Failures(reports + [rep]) && more == errors + if r.Fail? then [r.error] else []
    ensures r.Fail? && !Caught(policy, r.error) ==> whole == Sweep(reports + [rep], os.mounted, Some(r.error))
    ensures !(r.Fail? && !Caught(policy, r.error)) ==>
      whole == Continue(reports + [rep], sweep(Targets(entries[i + 1..], el), os.mounted))
  {
    ghost var m := os.mounted;
    assert sweep(Targets(entries[i..], el), m) == SweepFrom(os, net, Targets(entries[i..], el), policy, m);
    r := RefreshMountPoint(e, cache, net, os);
    EntryStep(os, net, whole, reports, key, entries, i, el, policy, m, r, os.mounted, baseCommands, os.commands, baseProbes, net.probes);
    rep := Refresh(os, net, TargetOf(e), m);
    more := if r.Fail? then errors + [r.error] else errors;
    assert sweep(Targets(entries[i + 1..], el), os.mounted) == SweepFrom(os, net, Targets(entries[i + 1..], el), policy, os.mounted);
  }

  /** The loop body for any entry: an eligible one is refreshed, an
      ineligible one skipped; `stop` is the error that ends the loop, if
      one does. */
  method RefreshEntry(ghost entries: seq<Entry>, ghost i: nat, e: Entry, el: Eligibility, policy: ErrorPolicy,
                      cache: ServiceCache, net: Network, os: System, ghost whole: Sweep, ghost reports: seq<Report>,
                      ghost key: Option<Service>, ghost baseCommands: seq<seq<string>>, ghost baseProbes: seq<(Service, int)>,
                      ghost sweep: SweepFunction, errors: seq<Failure>)
    returns (stop: Option<Failure>, ghost done: seq<Report>, more: seq<Failure>)
    requires i < |entries| && entries[i] == e
    requires cache.Valid(net) && SweepOf(sweep, os, net, policy)
    requires whole == Continue(reports, sweep(Targets(entries[i..], el), os.mounted))
    requires os.commands == baseCommands + CommandsOf(reports)
    requires net.probes == baseProbes + ProbesOf(key, reports)
    requires cache.MemoKey() == MemoAfter(key, reports)
    requires errors == Failures(reports)
    modifies cache, net, os
    ensures cache.Valid(net) && cache.registry == old(cache.registry)
    ensures os.commands == baseCommands + CommandsOf(done)
    ensures net.probes == baseProbes + ProbesOf(key, done)
    ensures cache.MemoKey() == MemoAfter(key, done)
    ensures more == Failures(done)
    ensures stop.Some? ==> whole == Sweep(done, os.mounted, stop)
    ensures stop.None? ==> whole == Continue(done, sweep(Targets(entries[i + 1..], el), os.mounted))
  {
    if Eligible(el, e) {
      var r;
      ghost var rep;
      r, rep, more := RefreshEligible(entries, i, e, el, policy, cache, net, os, whole, reports, key, baseCommands, baseProbes, sweep, errors);
      done := reports + [rep];
      stop := if r.Fail? && !Caught(policy, r.error) then Some(r.error) else None;
    } else {
      SkipStep(entries, i, el);
      done, more, stop := reports, errors, None;
    }
  }

  /** The loop over the table shared by the three generations: each eligible
      entry's mount point is refreshed in table order, each ineligible one is
      skipped, and an error the policy does not catch ends the loop. The
      errors met on the way come back in order, the one that ended the loop
      last. */
  method RefreshEntries(entries: seq<Entry>, el: Eligibility, policy: ErrorPolicy, cache: ServiceCache, net: Network, os: System,
                        ghost sweep: SweepFunction)
    returns (escaped: Option<Failure>, errors: seq<Failure>)
    requires cache.Valid(net) && SweepOf(sweep, os, net, policy)
    modifies cache, net, os
    ensures cache.Valid(net) && cache.registry == old(cache.registry)
    ensures var s := sweep(Targets(entries, el), old(os.mounted));
      && escaped == s.escaped
      && errors == Failures(s.reports)
      && os.mounted == s.mounted
      && os.commands == old(os.commands) + CommandsOf(s.reports)
      && net.probes == old(net.probes) + ProbesOf(old(cache.MemoKey()), s.reports)
  {
    errors := [];
    ghost var whole := sweep(Targets(entries, el), os.mounted);
    ghost var key := cache.MemoKey();
    ghost var reports: seq<Report> := [];
    assert entries[0..] == entries;
    assert whole == Continue([], whole);
    var i := 0;
    while i < |entries|
      invariant 0 <= i <= |entries|
      invariant cache.Valid(net) && cache.registry == old(cache.registry)
      invariant whole == Continue(reports, sweep(Targets(entries[i..], el), os.mounted))
      invariant os.commands == old(os.commands) + CommandsOf(reports)
      invariant net.probes == old(net.probes) + ProbesOf(key, reports)
      invariant cache.MemoKey() == MemoAfter(key, reports)
      invariant errors == Failures(reports)
    {
      escaped, reports, errors := RefreshEntry(entries, i, entries[i], el, policy, cache, net, os, whole, reports, key,
                                               old(os.commands), old(net.probes), sweep, errors);
      if escaped.Some? {
        return;
      }
      i := i + 1;
    }
    assert entries[i..] == [];
    assert sweep([], os.mounted) == SweepFrom(os, net, [], policy, os.mounted);
    assert reports + [] == reports;
    assert whole == Sweep(reports, os.mounted, None);
    escaped := None;
  }
}
