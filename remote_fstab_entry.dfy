/** `RemoteFstabEntry.refresh_mount_point`: mount a reachable, unmounted
    mount point, unmount an unreachable, mounted one, and leave the two
    settled cases alone. */
module RemoteEntries {
  import opened Wrappers
  import opened MountPoints
  import opened Services
  import opened FstabEntries

  /** What a refresh does to the mount point. */
  datatype Action = Skip | DoMount | DoUnmount

  /** The decision table of `refresh_mount_point`. */
  function Decide(reachable: bool, mounted: bool): (a: Action)
    ensures a == DoMount <==> reachable && !mounted
    ensures a == DoUnmount <==> !reachable && mounted
    ensures a == Skip <==> reachable == mounted
  {
    if reachable && mounted then Skip
    else if !reachable && !mounted then Skip
    else if reachable && !mounted then DoMount
    else DoUnmount
  }

  /** The command lines an action hands to the operating system. */
  function ActionCommands(a: Action, mp: MountPoint): seq<seq<string>> {
    match a
    case Skip => []
    case DoMount => [MountCommand(mp)]
    case DoUnmount => [UnmountCommand(mp)]
  }

  /** What the action raises, if anything. */
  function ActionOutcome(os: System, a: Action, mp: MountPoint): Outcome<Failure> {
    match a
    case Skip => Pass
    case DoMount => os.MountOutcome(mp)
    case DoUnmount => os.UnmountOutcome(mp)
  }

  /** The mounted set after the action, from the mounted set `m` before it. */
  function ActionMounted(os: System, a: Action, mp: MountPoint, m: set<string>): (r: set<string>)
    ensures forall q :: q != mp.path ==> (q in r <==> q in m)
    ensures ActionOutcome(os, a, mp).Fail? ==> r == m
  {
    match a
    case Skip => m
    case DoMount => if os.MountOutcome(mp).Pass? then m + {mp.path} else m
    case DoUnmount => if os.UnmountOutcome(mp).Pass? then m - {mp.path} else m
  }

  /** A refresh that succeeds reaches the state the probe asks for: mounted
      exactly when reachable, as far as the lookup can tell. */
  lemma RefreshReachesTarget(os: System, reachable: bool, mp: MountPoint, m: set<string>)
    requires mp.path !in os.unreadable
    requires ActionOutcome(os, Decide(reachable, os.IsMountedIn(m, mp)), mp).Pass?
    ensures os.IsMountedIn(ActionMounted(os, Decide(reachable, os.IsMountedIn(m, mp)), mp, m), mp) == reachable
  {
  }

  /** Once a refresh has succeeded, a second one with the same reachability
      does nothing. */
  lemma SecondRefreshSkips(os: System, reachable: bool, mp: MountPoint, m: set<string>)
    requires mp.path !in os.unreadable
    requires ActionOutcome(os, Decide(reachable, os.IsMountedIn(m, mp)), mp).Pass?
    ensures Decide(reachable, os.IsMountedIn(ActionMounted(os, Decide(reachable, os.IsMountedIn(m, mp)), mp, m), mp)) == Skip
  {
    RefreshReachesTarget(os, reachable, mp, m);
  }

  /** `refresh_mount_point`: the service is probed (through the one-slot
      memo) before the mount state is read; then at most one mount or
      unmount runs, and its error escapes unchanged. */
  method RefreshMountPoint(e: Entry, cache: ServiceCache, net: Network, os: System) returns (r: Outcome<Failure>)
    requires e.Nfs? && cache.Valid(net)
    modifies cache, net, os
    ensures cache.Valid(net) && cache.registry == old(cache.registry)
    ensures cache.memo == Some((e.service, net.Accepts(e.service)))
    ensures net.probes == old(net.probes) + if old(cache.MemoKey()) == Some(e.service) then [] else [(e.service, CheckTimeoutSeconds)]
    ensures var a := Decide(net.Accepts(e.service), os.IsMountedIn(old(os.mounted), e.fields.mountPoint));
      && r == ActionOutcome(os, a, e.fields.mountPoint)
      && os.mounted == ActionMounted(os, a, e.fields.mountPoint, old(os.mounted))
      && os.commands == old(os.commands) + ActionCommands(a, e.fields.mountPoint)
  {
    var mp := e.fields.mountPoint;
    var serviceOk := cache.CheckIsConnectable(e.service, net);
    var mounted := os.CheckIsMounted(mp);
    if serviceOk && mounted {
      r := Pass;
      return;
    }
    if !serviceOk && !mounted {
      r := Pass;
      return;
    }
    if serviceOk && !mounted {
      r := os.Mount(mp);
      return;
    }
    r := os.Unmount(mp);
  }
}
