# stabbie, modelled in Dafny

stabbie keeps the remote NFS mounts of a machine in line with the
reachability of their servers. It reads the mount table (`/etc/fstab`) and
picks the NFS entries marked for automatic mounting, then probes each
entry's server with a TCP connection. It mounts a reachable server's
mount point that is not mounted, and unmounts an unreachable server's
mount point that is. The repository holds three generations of this
program, and this project models all three:

- the `stabbie` package, whose `Application.run` refreshes the entries
  marked `x-stabbie` through a worker pool;
- the single-file `stabbie.py`, which refreshes the entries marked
  `x-connectable-check` one after the other;
- `refresh_remote_fstab_entries.py`, which refreshes every NFS entry.

A fourth program, `refresh_nfs_mounts.py`, reads a list of servers
instead of the mount table. For each server it probes once, brings every
mount point in line, collects the mount and unmount errors and raises
them together.

The modules follow the package's structure:

| module | file | models |
|---|---|---|
| `Wrappers` | wrappers.dfy | `Option`, `Result`, `Outcome` |
| `Text` | text.dfy | `str.split`, `str.strip`, `str.join`, `int()` and `str()` of integers, `partition`/`rpartition` |
| `MountPoints` | mount_point.dfy | `MountPoint`, its command lines, and the operating system as the class `System` |
| `Services` | service.dfy | `Service`, its string form and equality, the network as the class `Network`, and the registry and one-slot memo as the class `ServiceCache` |
| `FstabEntries` | fstab_entry.dfy | the `FstabEntry` record and `__str__` |
| `NfsEntries` | nfs_fstab_entry.dfy | `NfsMountOptions` and `NfsFstabEntry.__post_init__` |
| `EntryBuilder` | fstab_entry_builder.dfy | `FstabEntryBuilder.from_line` and the round trip with `__str__` |
| `FstabFile` | fstab.dfy | `FstabBuilder.cleanup_line` and `from_file` |
| `RemoteEntries` | remote_fstab_entry.dfy | `RemoteFstabEntry.refresh_mount_point` |
| `Passes` | passes.dfy | a refresh pass over the eligible entries of a table, shared by the three generations |
| `Stabbie` | application.dfy | the package's `Application` |
| `SingleFileScript` | single_file_script.dfy | `main` of `stabbie.py` |
| `RemoteEntriesScript` | remote_entries_script.dfy | `main` of `refresh_remote_fstab_entries.py` |
| `NfsServers` | nfs_servers.dfy | `NfsServer` and `main` of `refresh_nfs_mounts.py` |

The classes of the older scripts are copies of the package's classes.
Where a copy is identical, one Dafny definition models every copy, and the
table below cites each one.

How the outside world enters the model:

- **Operating system.** It is a `System` object:
  - `mounted` is the set of mounted paths, and only `mount` and `umount` change it;
  - `unreadable` holds the paths whose `is_mount` lookup raises `OSError`;
  - `exec` says how each command line ends: with an exit code, or not launched at all;
  - a ghost `commands` log records each command line handed over.
- **Network.** It is a `Network` object. `reachable` is the set of
  services that accept a connection, and a ghost `probes` log records
  each connection attempt together with its timeout.
- **The mount table.** The file is given as its sequence of lines.
- **The server list.** `servers.json` is given as its decoded sequence of
  `(address, mount points)` items.

Each operation that loops or changes state is a method proved against a
function. The function is the reference semantics:

- `ParseTable` for the table load;
- `Refresh` and `SweepFrom` for a refresh pass;
- `ServersFrom` for the server script.

The lemmas state what the source promises about those functions.

## Model

| member | source | states |
|---|---|---|
| MountPoints.NewMountPoint | stabbie/fstab/entry/mount_point.py:15-21 | a new mount point keeps its path, and its unmount is both forced and lazy |
| MountPoints.MountCommand | stabbie/fstab/entry/mount_point.py:26-28 | the mount command is `mount` followed only by the path, so the options come from the table row of that path; the copy at stabbie.py:36-38 is the same |
| MountPoints.UnmountCommand | stabbie/fstab/entry/mount_point.py:30-38 | the unmount command has at least two words, starts with `umount` and ends with the path |
| MountPoints.UnmountCommandShape | stabbie/fstab/entry/mount_point.py:30-38 | the unmount command starts with `umount` and ends with the path; `-f` is present iff forced, `-l` iff lazy, `-f` comes first, and the length is 2 plus one per flag; the copy at stabbie/fstab/mount_point.py:30-38 is the same |
| MountPoints.DefaultUnmountCommand | stabbie/fstab/entry/mount_point.py:16-17 | an example: with the default flags the unmount command is `umount -f -l <path>`; the copy at stabbie/fstab/mount_point.py:16-17 is the same |
| MountPoints.CommandsIdentifyMountPoint | stabbie/fstab/entry/mount_point.py:26-38 | two mount points have the same mount command iff they have the same path, and the same unmount command iff they are equal, flags included |
| MountPoints.Converted | stabbie/fstab/entry/mount_point.py:47-57 | `run(..., check=True)` inside `except SubprocessError` passes iff the exit code is 0; it raises the converted error iff the code is non-zero, and the unconverted launch error iff the command could not start; the copy at stabbie/fstab/mount_point.py:47-57 is the same |
| MountPoints.System.CheckIsMounted | stabbie/fstab/entry/mount_point.py:40-45 | the answer is "mounted" iff the path is in the current mounted set and its lookup does not raise; a lookup error reads as not mounted, and nothing is cached; the copy at stabbie/fstab/mount_point.py:40-45 is the same |
| MountPoints.System.Mount | stabbie/fstab/entry/mount_point.py:47-51 | runs exactly `mount <path>`; the path joins the mounted set iff the command succeeds, and no other path changes |
| MountPoints.System.Unmount | stabbie/fstab/entry/mount_point.py:53-57 | runs exactly the unmount command; the path leaves the mounted set iff the command succeeds, and no other path changes |
| Services.Service.ToString | stabbie/fstab/entry/service.py:20-21 | the string form `host:port` splits at its last colon into exactly the host and the decimal port, so the host may hold colons; the copy at stabbie.py:85-86 is the same |
| Services.EqualIffSameEndpoint | stabbie/fstab/entry/service.py:20-27 | two string forms `host:port` are equal iff the hosts and the ports are, so `__eq__` and `__hash__` are those of the endpoint; the copy at stabbie.py:85-92 is the same |
| Services.PortsSeparateServices | stabbie/fstab/entry/service.py:15-24 | the same host on two different ports gives two unequal services |
| Services.Network.CreateConnection | stabbie/fstab/entry/service.py:37-43 | the probe answers true iff the service accepts a connection, and logs one attempt with the given timeout; the copy at refresh_nfs_mounts.py:92-100 is the same |
| Services.Probes | stabbie/fstab/entry/service.py:29 | reference definition of the probes a run of calls issues through the one-slot `lru_cache(maxsize=1)`: only services that were asked about are probed |
| Services.ServiceCache.NewCached | stabbie/fstab/entry/service.py:15-18 | the first call for `(host, port)` registers a new service; later calls return the registered service and change nothing; the probe memo is untouched |
| Services.ServiceCache.CheckIsConnectable | stabbie/fstab/entry/service.py:29-43 | the answer is the network's; the call probes with the 3-second timeout iff the one slot does not hold an equal service, and then the slot holds this service and its answer; the copy at stabbie.py:94-108 is the same |
| Services.ProbesSnoc | stabbie/fstab/entry/service.py:29 | one more call adds a probe iff its service differs from the one the slot holds after the earlier calls |
| Services.ProbesAtMostCalls | stabbie/fstab/entry/service.py:29-36 | a run of calls probes at most once per call |
| Services.RepeatedCallsProbeOnce | stabbie/fstab/entry/service.py:29-36 | consecutive calls on one service probe once, or not at all when the slot already holds it |
| Services.GroupedCallsProbeEachServiceOnce | stabbie/fstab/entry/service.py:29-36 | when the calls on each service come together, the number of probes is the number of distinct services, less the one the slot starts with |
| Services.InterleavedCallsReprobe | stabbie/fstab/entry/service.py:29 | an example: the slot is shared by all services: calls on `a`, `b`, `a` probe three times |
| FstabEntries.DecimalAvoids | stabbie/fstab/entry/fstab_entry.py:23-24 | dump and fsck are written in decimal, with no character other than digits and `-` |
| FstabEntries.Serialize | stabbie/fstab/entry/fstab_entry.py:16-26 | `__str__` joins the six columns with single spaces: when no field holds a space, splitting the text at every space gives back exactly the six columns; the copy at stabbie.py:120-130 is the same |
| EntryBuilder.SplitSegments | stabbie/fstab/entry/fstab_entry_builder.py:13-18 | the tokenising loop keeps the non-empty pieces of the split at space and tab, in order |
| EntryBuilder.NonEmpty | stabbie/fstab/entry/fstab_entry_builder.py:16-18 | no kept piece is empty, and at most as many are kept as there were |
| EntryBuilder.Words | stabbie/fstab/entry/fstab_entry_builder.py:13-18 | reference definition: the maximal runs of characters other than space and tab, none empty and none with a blank |
| EntryBuilder.SegmentsAreWords | stabbie/fstab/entry/fstab_entry_builder.py:13-18 | the segments are exactly those maximal runs, in order |
| EntryBuilder.SplitOptions | stabbie/fstab/entry/fstab_entry_builder.py:22 | `split(",")`: no piece holds a comma, and the pieces joined back with `,` give the column, which fixes the split |
| EntryBuilder.ParseFields | stabbie/fstab/entry/fstab_entry_builder.py:21-25 | fewer than three segments fail; name, path and type are the first three segments, and the mount point wraps the second; the options are the comma pieces of the fourth segment, and no option at all without one; dump and fsck are the integers of the fifth and sixth, or 0 without them; a non-integer dump fails with its text, and so does a non-integer fsck once the dump reads; nothing else fails; the copies at stabbie.py:229-233 and refresh_remote_fstab_entries.py:217-221 are the same |
| EntryBuilder.ExtraSegmentsIgnored | stabbie/fstab/entry/fstab_entry_builder.py:21 | segments after the sixth change nothing |
| EntryBuilder.ParseLine | stabbie/fstab/entry/fstab_entry_builder.py:9-36 | `from_line` without the interning of the service: a parsed entry is the NFS variant iff its type is `nfs` |
| EntryBuilder.ParseLineDispatch | stabbie/fstab/entry/fstab_entry_builder.py:28-36 | the NFS variant is built iff the type is exactly `nfs`; any other type, `nfs4` included, gives a generic entry with the same fields |
| EntryBuilder.FromLine | stabbie/fstab/entry/fstab_entry_builder.py:9-36 | `from_line` gives the parsed entry or the first error; an NFS entry's service is registered, and the probe memo is untouched; the copies at stabbie.py:217-244 and refresh_remote_fstab_entries.py:204-233 are the same |
| EntryBuilder.ParsedIsPrintable | stabbie/fstab/entry/fstab_entry_builder.py:21-24 | when a line has at least four segments, the parsed fields have non-empty, blank-free columns and options that rejoin to a non-empty column |
| EntryBuilder.ParseSerialized | stabbie/fstab/entry/fstab_entry.py:16-26 | parsing the text form of such fields gives the same fields back |
| EntryBuilder.RoundTrip | stabbie/fstab/entry/fstab_entry.py:16-26 | an entry parsed from a line with at least four segments is parsed back from its `__str__`: the same entry, NFS part included |
| EntryBuilder.SegmentsWithoutOptions | stabbie/fstab/entry/fstab_entry.py:22 | without options the empty fourth column drops out of the segments of `__str__` |
| EntryBuilder.EmptyOptionsShift | stabbie/fstab/entry/fstab_entry.py:22 | without options, re-parsing `__str__` moves dump into the options, fsck into dump, and sets fsck to 0 |
| FstabFile.CleanupLine | stabbie/fstab/fstab.py:21-25 | `cleanup_line`: the cleaned line has no whitespace at either end |
| FstabFile.CleanupIsClean | stabbie/fstab/fstab.py:21-25 | a cleaned line holds no `#`, and has no whitespace at either end |
| FstabFile.CleanupIsStrippedPrefix | stabbie/fstab/fstab.py:23-25 | a cleaned line is the part before the first `#`, stripped; the copies at stabbie.py:261-265 and refresh_remote_fstab_entries.py:249-253 are the same |
| FstabFile.CommentLineIsBlank | stabbie/fstab/fstab.py:23-25 | an example: a line that starts with `#` cleans to the empty line |
| FstabFile.CleanupIdempotent | stabbie/fstab/fstab.py:21-25 | cleaning a cleaned line changes nothing |
| FstabFile.ParseTable | stabbie/fstab/fstab.py:27-41 | reference definition of `from_file` over given lines: a loaded table has at most one entry per line |
| FstabFile.ParseTableIsParseAll | stabbie/fstab/fstab.py:32-38 | loading a table is parsing, in order, the lines that do not clean to the empty line |
| FstabFile.ParseAllSucceeds | stabbie/fstab/fstab.py:32-38 | the load succeeds iff every such line parses; then there is one entry per line, in order |
| FstabFile.ParseAllFirstFailure | stabbie/fstab/fstab.py:36-41 | the first line that fails decides the error, and no partial table comes back |
| FstabFile.TableEntriesFollowLines | stabbie/fstab/fstab.py:32-41 | the load gives one entry per meaningful line, in file order, or no table at all |
| FstabFile.BlankLineIgnored | stabbie/fstab/fstab.py:34-35 | inserting a line that cleans to the empty line anywhere changes nothing |
| FstabFile.FromLines | stabbie/fstab/fstab.py:27-41 | the loop returns the table that `ParseTable` defines, or its error; the registry only grows and the memo is untouched; `Fstab.entries` holds the entries that `__iter__` yields; the copy at stabbie.py:267-281 is the same |
| NfsEntries.OptionsMapping | stabbie/fstab/entry/nfs_fstab_entry.py:36-42 | reference definition of `options_mapping`: no key holds `=`, since an option splits at its first `=` |
| NfsEntries.MappingOf | stabbie/fstab/entry/nfs_fstab_entry.py:36-42 | the loop fills the options mapping that `OptionsMapping` defines |
| NfsEntries.MappingKeys | stabbie/fstab/entry/nfs_fstab_entry.py:37-42 | a key is mapped iff some option has the form `key=...`; options without `=` add nothing |
| NfsEntries.MappingLastWins | stabbie/fstab/entry/nfs_fstab_entry.py:42 | the last option with a key decides its value |
| NfsEntries.MappingUnset | stabbie/fstab/entry/nfs_fstab_entry.py:36-42 | a key that no option carries is absent |
| NfsEntries.ValueKeepsLaterEquals | stabbie/fstab/entry/nfs_fstab_entry.py:39 | an example: only the first `=` splits: `sec=a=b` maps `sec` to `a=b` |
| NfsEntries.IntOf | stabbie/fstab/entry/nfs_fstab_entry.py:45-47 | `int()` of a value succeeds iff the text is an optional sign followed by digits, and otherwise fails with that text |
| NfsEntries.Resolve | stabbie/fstab/entry/nfs_fstab_entry.py:45-47 | the version is the integer of `version`, or 3 without it; the port is the integer of `port`, or without it 2049 for version 4 and 0 otherwise; it fails iff a present value is not an integer, with the version's text first |
| NfsEntries.ResolveOptions | stabbie/fstab/entry/nfs_fstab_entry.py:31-47 | an option that no element of the options carries takes its default: version 3, and the default port of the resolved version |
| NfsEntries.ResolveDefaults | stabbie/fstab/entry/nfs_fstab_entry.py:45-47 | without `version=` and `port=`, the entry is NFSv3 on port 0 |
| NfsEntries.ResolveVersionDefaultPort | stabbie/fstab/entry/nfs_fstab_entry.py:45-47 | the version is the last `version=` value; without `port=`, the port is 2049 iff the version is 4, and 0 otherwise |
| NfsEntries.ResolveExplicitPort | stabbie/fstab/entry/nfs_fstab_entry.py:47 | an explicit `port=` wins whatever the version |
| NfsEntries.ResolveBadVersion | stabbie/fstab/entry/nfs_fstab_entry.py:45 | a `version` value that is not an integer is an error |
| NfsEntries.ResolveBadPort | stabbie/fstab/entry/nfs_fstab_entry.py:45-47 | a `port` value that is not an integer fails the resolution whatever the version; when the version is absent or reads, the error is the port's text |
| NfsEntries.FromEntry | stabbie/fstab/entry/nfs_fstab_entry.py:31-50 | gives the resolved options; the warning is logged iff the resolved port is 0, an explicit `port=0` included |
| NfsEntries.FromOptionsSequence | stabbie.py:179-195 | the same resolution, with no warning; the copy at refresh_remote_fstab_entries.py:166-182 is the same |
| NfsEntries.NfsEntryOf | stabbie/fstab/entry/nfs_fstab_entry.py:12-23 | a name without `:` fails; a name with `:` succeeds iff the options resolve, and otherwise fails with their error; host, `:` and remote path make up the name, and the remote path has no `:`; the service's port is the resolved port; the copy at stabbie.py:202-213 is the same |
| NfsEntries.Ipv6HostSurvives | stabbie/fstab/entry/nfs_fstab_entry.py:15-17 | an example: with options that resolve, `2001:db8::1:/export` gives an entry with host `2001:db8::1` and remote path `/export` |
| NfsEntries.PostInit | stabbie/fstab/entry/nfs_fstab_entry.py:12-23 | `__post_init__` builds that entry with its service interned; the registry changes only on success, and then by that one service; the warning is logged iff the port is 0 |
| RemoteEntries.Decide | stabbie/fstab/entry/remote_fstab_entry.py:27-45 | mount iff reachable and not mounted; unmount iff unreachable and mounted; otherwise nothing; the copies at stabbie.py:152-170 and refresh_remote_fstab_entries.py:139-157 are the same |
| RemoteEntries.ActionMounted | stabbie/fstab/entry/remote_fstab_entry.py:36-45 | a refresh changes the mount state of no other path, and a failed command leaves the mounted set as it was |
| RemoteEntries.RefreshReachesTarget | stabbie/fstab/entry/remote_fstab_entry.py:17-21 | after a refresh that does not fail, the mount point is mounted iff its service is reachable |
| RemoteEntries.SecondRefreshSkips | stabbie/fstab/entry/remote_fstab_entry.py:17-21 | once the state is achieved, a second refresh with the same reachability does nothing |
| RemoteEntries.RefreshMountPoint | stabbie/fstab/entry/remote_fstab_entry.py:17-45 | the probe goes through the memo before the mount state is read; at most one mount or unmount runs, as `Decide` says; its error escapes unchanged; the registry is untouched |
| Passes.Refresh | stabbie/fstab/entry/remote_fstab_entry.py:17-45 | one refresh of a target decides its action from the target's service and mount state |
| Passes.SweepFrom | stabbie.py:347-360 | reference definition of a pass over targets in order, a caught error going on and an uncaught one ending it: at most one report per target |
| Passes.CommandsAtMostReports | stabbie/fstab/entry/remote_fstab_entry.py:27-45 | a pass runs at most one command per refreshed target |
| Passes.SweepCovers | stabbie.py:347-360 | a pass refreshes a prefix of its targets, in order; it stops early only at an error the loop does not catch, which comes last; every earlier error is one it catches |
| Passes.CaughtPassRefreshesEach | stabbie.py:347-360 | in the loops that catch mount and unmount errors, only a launch error ends the pass early; otherwise each target is refreshed once, in order; the copy at refresh_remote_fstab_entries.py:293-303 is the same |
| Passes.DropAllVisitsEveryTarget | stabbie/stabbie.py:108-114 | in the sequential pass that models the pool, whose results nobody reads, each target is refreshed once and no error ends the run |
| Passes.SweepTouchesOnlyTargets | stabbie/fstab/entry/mount_point.py:26-38 | a pass changes the mount state of no path outside its targets |
| Passes.SettledSweepIsQuiet | stabbie/fstab/entry/remote_fstab_entry.py:27-33 | a pass over targets already in the state their services ask for runs no command, raises nothing and changes nothing |
| Passes.CleanSweepSettles | stabbie/fstab/entry/remote_fstab_entry.py:17-45 | after a pass with no error over distinct, readable paths, every target is in the state its service asks for |
| Passes.SecondSweepIsQuiet | stabbie/fstab/entry/remote_fstab_entry.py:17-21 | after such a pass, a second pass runs no command and changes nothing |
| Passes.FailuresEmptyIffAllPass | stabbie/stabbie.py:117-118 | the error list of a pass is empty iff every refresh passed |
| Passes.HasOptionIsMember | stabbie/stabbie.py:85 | the option test matches whole elements of the option list |
| Passes.TargetsAreEligibleEntries | stabbie/stabbie.py:111 | a target comes from an eligible entry, and every eligible entry gives one |
| Passes.TargetsConcat | stabbie/stabbie.py:111 | filtering keeps table order |
| Passes.ProbesOfIsProbeLog | stabbie/fstab/entry/service.py:29-36 | the probes of a pass are the memo's probes of the services asked about, in order, each with the 3-second timeout |
| Passes.RefreshEntries | stabbie.py:347-360 | the loop over the table refreshes the eligible entries in table order and skips the others; it ends at an error it does not catch; the mounted set, the commands, the probes and the errors are those of `SweepFrom`; the copy at refresh_remote_fstab_entries.py:293-303 is the same |
| Stabbie.FilterKeyMeaning | stabbie/stabbie.py:81-86 | an entry is picked iff it is an NFS entry and `x-stabbie` is one of its options |
| Stabbie.LookalikeOptionsDoNotMark | stabbie/stabbie.py:85 | an example: `x-stabbie=1` and `x-stabbie2` do not mark an entry |
| Stabbie.MarkedEntriesAreRefreshed | stabbie/stabbie.py:109-111 | the mount points refreshed are those of the marked entries, in table order |
| Stabbie.FailedMountIsReported | stabbie/stabbie.py:109-114 | a failing mount of a marked entry is an error of its refresh; see Findings |
| Stabbie.Application.constructor | stabbie/stabbie.py:42-43 | an application starts with no refresh error |
| Stabbie.Application.RefreshErrorCallback | stabbie/stabbie.py:93-94 | the callback appends exactly its argument, and nothing else changes |
| Stabbie.Application.CollectErrors | stabbie/stabbie.py:93-94 | the callback called on a run of errors appends them in order |
| Stabbie.Application.Run | stabbie/stabbie.py:96-124 | a table that does not load fails the run before any refresh; otherwise the marked entries are refreshed in order, and no error ends the pass; the error list stays as it was; the summary holds the list iff the list is not empty |
| Stabbie.Application.RunCollecting | stabbie/stabbie.py:108-122 | the corrected run, with each refresh submitted on its own (one `apply_async` per entry, say) and `refresh_error_callback` as its error callback: the error list grows by every refresh error, in table order, and the summary holds them all |
| SingleFileScript.FilterPredicateMeaning | stabbie.py:334-337 | an entry is refreshed iff it is an NFS entry and `x-connectable-check` is one of its options |
| SingleFileScript.RefreshTable | stabbie.py:339-361 | a table that does not load fails before any refresh; otherwise the marked entries are refreshed in order; mount and unmount errors are caught, and it goes on; a launch error ends the run |
| RemoteEntriesScript.EveryRemoteEntryIsRefreshed | refresh_remote_fstab_entries.py:293 | every NFS entry is refreshed whatever its options, and nothing else is |
| RemoteEntriesScript.RefreshTable | refresh_remote_fstab_entries.py:292-303 | the same run, with every NFS entry |
| NfsServers.NewNfsServer | refresh_nfs_mounts.py:109-116 | a server's service uses port 2049; each path becomes a default mount point, an existing mount point is kept, and order and length are preserved |
| NfsServers.BuildServers | refresh_nfs_mounts.py:185-188 | one server per item of the list, in order |
| NfsServers.RefreshPoint | refresh_nfs_mounts.py:134-160 | for one mount point, a reachable server mounts an unmounted point and an unreachable one unmounts a mounted point; otherwise the point is skipped |
| NfsServers.RefreshEach | refresh_nfs_mounts.py:133-160 | every mount point is handled in order, and mount and unmount errors are caught and collected in order; only another error escapes, at once |
| NfsServers.RefreshMountPoints | refresh_nfs_mounts.py:118-164 | exactly one probe, before any mount point is touched; then the pass above, and an error group iff some mount or unmount failed |
| NfsServers.ServerOutcomeMeaning | refresh_nfs_mounts.py:133-164 | the server is refreshed without error iff every mount point passed; an error group holds every error once, in order; it is never larger than the number of mount points, and every mount point was tried |
| NfsServers.SettledServerIsQuiet | refresh_nfs_mounts.py:133-160 | a server whose mount points are all in the state its probe asks for runs no command |
| NfsServers.ServersStopAtFirstRaise | refresh_nfs_mounts.py:191-192 | servers are refreshed in list order until the first one that raises, which is the last one refreshed; without one, every server is refreshed |
| NfsServers.ServersFrom | refresh_nfs_mounts.py:191-192 | reference definition of the loop over the servers, which stops at the first server whose refresh raises: at most one outcome per server |
| NfsServers.ServerProbesEach | refresh_nfs_mounts.py:128 | one probe per refreshed server, on its service, in list order, with the 3-second timeout |
| NfsServers.RefreshServers | refresh_nfs_mounts.py:191-192 | the loop over the servers gives the run that `ServersFrom` defines: the outcome that stopped it, the mounted set, the commands and one probe per server refreshed |
| NfsServers.RunServers | refresh_nfs_mounts.py:184-192 | `main` builds the servers from the list, then refreshes them until one raises |

## Left out

- The reading of `/etc/fstab` and `servers.json`, and the JSON decoding: the model takes the lines of the table and the decoded server list as inputs.
- `subprocess.run`, `Path.is_mount` and `socket.create_connection` are foreign calls. Each becomes an oracle:
  - `System.exec` gives how each command ends;
  - `System.unreadable` holds the paths whose lookup raises;
  - `Network.reachable` holds the services that accept a connection.
  Which socket exceptions escape the probe is not modelled: every failed connection reads as unreachable.
- A mount or unmount whose command fails leaves `mounted` unchanged. What a failed command does to the real mount table cannot be known.
- The worker pool of `Application.run` (stabbie/stabbie.py:108-114) runs in the model as one sequential pass in table order:
  - the interleaving of the workers is not modelled;
  - each worker holds its own copy of the service registry and memo, which is not modelled either: the model shares one `ServiceCache`;
  - the chunks are not modelled. With no chunk size given, `map_async` hands the workers tasks of ceil(N / (4 × workers)) entries each, where N is the number of marked entries, and a task stops at the first refresh that raises. So when more than 4 × workers entries are marked, a failing refresh skips the entries after it in its task. The model refreshes every target, and `Passes.DropAllVisitsEveryTarget` is about this sequential pass.
- `Application.refresh_remote_fstab_entry` only logs and then refreshes, so it is modelled as the refresh itself.
- Logging is not modelled. The only exception is the port-0 warning of `NfsMountOptions.from_entry`, which is the `warned` result of `NfsEntries.FromEntry`.
- Also not modelled: command-line parsing and the logging set-up of the entry points, including the `LOG_LEVEL` and `COLOR_LOGS` environment variables, along with the `geteuid` check, the Python version check and `sys.exit`. The methods model the work each `main` does once those checks pass.
- `color_log_formatter.py` is not part of this model: it only formats log output.
- `Fstab.__str__` is not part of this model: it joins entry objects as strings, and so fails for any non-empty table.
- `int()` is restricted to an optional sign and ASCII digits. Python also accepts underscores, other Unicode digits and surrounding whitespace.
- `str.strip` is restricted to ASCII whitespace and the separators `\x1c`-`\x1f`. Python also strips other Unicode whitespace.
- The source uses `""` for the options when the fourth column is absent. The model uses the empty list: both iterate to nothing and join to `""`, so every later use agrees.
- `@cache` and `lru_cache` are modelled as the map `(host, port) -> Service` and as one slot holding the last service and its answer. The internals, such as keying on the class or on keyword arguments, are not modelled.
- The three prose-level promises about reachability are not what the code does:
  - the service is probed "at most once per run";
  - the probe happens "once per distinct service";
  - the verdict is cached per service.
  `lru_cache(maxsize=1)` on a method keeps one slot shared by every service, so the model follows the code. `Services.GroupedCallsProbeEachServiceOnce` gives the case where the promise holds, and `Services.InterleavedCallsReprobe` gives one where it does not.
- The older scripts define the classes again, and the model uses one definition for the copies that do the same thing:
  - `stabbie.py` repeats `MountPoint`, `Service`, `FstabEntry` (with `__str__`), `FstabEntryBuilder`, `Fstab` and `FstabBuilder` with the package's logic;
  - `refresh_remote_fstab_entries.py` repeats them with the same parsing, cleanup and loading. Its cleanup method is named `__clean_line` (line 249), and its builder and loader log differently (lines 214 and 261). Its `FstabEntry` (lines 110-117) has no `__str__`, so `FstabEntries.Serialize` and the round trip apply only to the package and `stabbie.py`;
  - both older scripts resolve the NFS options with `NfsMountOptions.from_options_sequence`, which has no port-0 warning. It is modelled by `NfsEntries.FromOptionsSequence`.
- Only the package has the port-0 warning, so only `NfsEntries.FromEntry` reports it. The legacy entry construction, `NfsFstabEntry.__post_init__` in stabbie.py:202-213, is modelled by the package's `NfsEntries.PostInit`, and its `warned` result is ignored there.
- The loops of the passes are specified over a ghost function parameter (`SweepOf`, `PassOf`) that equals the reference function. This is only a proof device: it does not change what the methods state.

## Findings

| source | as written | input that shows it | evidently intended | confidence | as-written member | corrected member |
|---|---|---|---|---|---|---|
| stabbie/stabbie.py:109-114 | `map_async` gets no `error_callback`, and its result is never read, so an error raised by a refresh is dropped; `refresh_error_callback` is never called, the error list stays empty, and the "Some mount points couldn't be refreshed" summary at lines 117-122 never appears | a table with one entry marked `x-stabbie` that is not mounted, whose server accepts the connection and whose `mount` exits with a non-zero code: the refresh raises `MountError`, and `run` ends with an empty error list and no summary | every refresh error reaches `refresh_error_callback` and appears in the summary, as when each refresh is submitted on its own (one `apply_async` per entry, say) with `refresh_error_callback` as its error callback; handing the callback to the one `map_async` call would report only the first error, since its result keeps only the first exception and calls the callback once | not executed | Stabbie.Application.Run, Stabbie.FailedMountIsReported | Stabbie.Application.RunCollecting |
