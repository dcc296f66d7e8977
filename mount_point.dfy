/** The mount point controller: one path, the `mount`/`umount` command lines
    for it, and the operating system whose mount state those commands change. */
module MountPoints {
  import opened Wrappers

  /** A path plus the unmount flags. */
  datatype MountPoint = MountPoint(path: string, unmountForce: bool, unmountLazy: bool)

  /** `MountPoint(path)`: both unmount flags are `True` class attributes. */
  function NewMountPoint(path: string): (mp: MountPoint)
    ensures mp.path == path && mp.unmountForce && mp.unmountLazy
  {
    MountPoint(path, true, true)
  }

  /** The `mount_command` property: `mount` with the path as its only
      argument, so the options come from the table row of the path. */
  function MountCommand(mp: MountPoint): (cmd: seq<string>)
    ensures |cmd| == 2 && cmd[0] == "mount" && cmd[1] == mp.path
  {
    ["mount", mp.path]
  }

  /** The `unmount_command` property, built by appending to `["umount"]`. */
  function UnmountCommand(mp: MountPoint): (cmd: seq<string>)
    ensures |cmd| >= 2 && cmd[0] == "umount" && cmd[|cmd| - 1] == mp.path
  {
    var command := ["umount"];
    var withForce := if mp.unmountForce then command + ["-f"] else command;
    var withLazy := if mp.unmountLazy then withForce + ["-l"] else withForce;
    withLazy + [mp.path]
  }

  /** The unmount command line starts with `umount` and ends with the path;
      between them stand `-f` exactly when the unmount is forced and `-l`
      exactly when it is lazy, `-f` first. */
  lemma UnmountCommandShape(mp: MountPoint)
    ensures var cmd := UnmountCommand(mp);
      && |cmd| == 2 + (if mp.unmountForce then 1 else 0) + (if mp.unmountLazy then 1 else 0)
      && cmd[0] == "umount" && cmd[|cmd| - 1] == mp.path
      && ("-f" in cmd[1..|cmd| - 1] <==> mp.unmountForce)
      && ("-l" in cmd[1..|cmd| - 1] <==> mp.unmountLazy)
      && (mp.unmountForce ==> cmd[1] == "-f")
  {
    var cmd := UnmountCommand(mp);
    assert cmd[1..|cmd| - 1] == (if mp.unmountForce then ["-f"] else []) + (if mp.unmountLazy then ["-l"] else []);
  }

  /** An example: with the default flags the unmount is forced and lazy. */
  lemma DefaultUnmountCommand(path: string)
    ensures UnmountCommand(NewMountPoint(path)) == ["umount", "-f", "-l", path]
  {
  }

  /** The mount command names only the path, so two mount points with the
      same path mount alike; the unmount command also spells out both flags,
      so it tells any two mount points apart. */
  lemma CommandsIdentifyMountPoint(a: MountPoint, b: MountPoint)
    ensures MountCommand(a) == MountCommand(b) <==> a.path == b.path
    ensures UnmountCommand(a) == UnmountCommand(b) <==> a == b
  {
    UnmountCommandShape(a);
    UnmountCommandShape(b);
  }

  /** How a command ends when the operating system runs it. */
  datatype Exit = Exited(code: int) | NotLaunched

  /** The errors a mount or unmount can raise. `LaunchError` is the `OSError`
      of a command that could not be started (a missing binary, say): it is not
      a `SubprocessError`, so the controller does not convert it. */
  datatype Failure = MountError(path: string) | UnmountError(path: string) | LaunchError(command: seq<string>)

  /** `subprocess.run(cmd, check=True)` inside `except SubprocessError`: a
      non-zero exit raises `converted`, a launch failure escapes as it is. */
  function Converted(exit: Exit, cmd: seq<string>, converted: Failure): (r: Outcome<Failure>)
    requires !converted.LaunchError?
    ensures r == Pass <==> exit == Exited(0)
    ensures r == Fail(converted) <==> exit.Exited? && exit.code != 0
    ensures r == Fail(LaunchError(cmd)) <==> exit == NotLaunched
  {
    match exit
    case Exited(code) => if code == 0 then Pass else Fail(converted)
    case NotLaunched => Fail(LaunchError(cmd))
  }

  /** The operating system as the controller sees it: the set of mounted
      paths, the paths whose lookup raises `OSError`, and how each command line
      ends. A failed command leaves the mount state as it was. */
  class System {
    var mounted: set<string>
    const unreadable: set<string>
    const exec: seq<string> -> Exit
    /** Every command line handed to the operating system, in order. */
    ghost var commands: seq<seq<string>>

    constructor (mounted: set<string>, unreadable: set<string>, exec: seq<string> -> Exit)
      ensures this.mounted == mounted && this.unreadable == unreadable && this.exec == exec
      ensures commands == []
    {
      this.mounted := mounted;
      this.unreadable := unreadable;
      this.exec := exec;
      commands := [];
    }

    /** What `check_is_mounted` answers when the mounted set is `m`. */
    predicate IsMountedIn(m: set<string>, mp: MountPoint) {
      mp.path in m && mp.path !in unreadable
    }

    function MountOutcome(mp: MountPoint): Outcome<Failure> {
      Converted(exec(MountCommand(mp)), MountCommand(mp), MountError(mp.path))
    }

    function UnmountOutcome(mp: MountPoint): Outcome<Failure> {
      Converted(exec(UnmountCommand(mp)), UnmountCommand(mp), UnmountError(mp.path))
    }

    /** `check_is_mounted`: read afresh on every call; a lookup error reads as "not mounted". */
    method CheckIsMounted(mp: MountPoint) returns (b: bool)
      ensures b <==> mp.path in mounted && mp.path !in unreadable
    {
      b := mp.path in mounted;
      if mp.path in unreadable {
        b := false;
      }
    }

    /** `mount`: runs `mount <path>`. */
    method Mount(mp: MountPoint) returns (r: Outcome<Failure>)
      modifies this
      ensures r == MountOutcome(mp)
      ensures mounted == if r.Pass? then old(mounted) + {mp.path} else old(mounted)
      ensures forall q :: q != mp.path ==> (q in mounted <==> q in old(mounted))
      ensures commands == old(commands) + [MountCommand(mp)]
    {
      var cmd := MountCommand(mp);
      commands := commands + [cmd];
      match exec(cmd)
      case Exited(code) =>
        if code == 0 {
          mounted := mounted + {mp.path};
          r := Pass;
        } else {
          r := Fail(MountError(mp.path));
        }
      case NotLaunched =>
        r := Fail(LaunchError(cmd));
    }

    /** `unmount`: runs `umount [-f] [-l] <path>`. */
    method Unmount(mp: MountPoint) returns (r: Outcome<Failure>)
      modifies this
      ensures r == UnmountOutcome(mp)
      ensures mounted == if r.Pass? then old(mounted) - {mp.path} else old(mounted)
      ensures forall q :: q != mp.path ==> (q in mounted <==> q in old(mounted))
      ensures commands == old(commands) + [UnmountCommand(mp)]
    {
      var cmd := UnmountCommand(mp);
      commands := commands + [cmd];
      match exec(cmd)
      case Exited(code) =>
        if code == 0 {
          mounted := mounted - {mp.path};
          r := Pass;
        } else {
          r := Fail(UnmountError(mp.path));
        }
      case NotLaunched =>
        r := Fail(LaunchError(cmd));
    }
  }
}
