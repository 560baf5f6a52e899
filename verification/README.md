# Waydroid host side: models and proofs

Waydroid runs Android in an LXC container. Its host side is an orchestrator: it stacks
mounts, brings up a bridge with firewall rules, starts and stops the container together with a
session process, quotes shell commands, writes property files, keeps a directory of desktop
files, installs images and kills process trees. Most of these steps can fail part-way. This
project models the outside world that the orchestrator has to keep consistent as explicit
data, models each external command as a step that succeeds or fails (chosen
non-deterministically and counted, so that every proof covers every pattern of failures and
contracts can also say what holds when nothing fails), and proves what the code guarantees
about that data.

Code that changes things step by step is modelled by classes and methods whose loops and
branches are the source's. Each method is proved against a relation or a function between the
old and the new state, and the main results are lemmas about all sequences of such steps.

`dafny verify dfyconfig.toml` checks everything.

| module | models | main results |
|---|---|---|
| `MountTable`, `MountHost` | `mount.py` over /proc/mounts | the unmount order is never refused and clears exactly the prefix |
| `Rootfs` | `mount_rootfs`, `umount_rootfs` | retry safety and round trip after any failure |
| `Firewall`, `NetScript`, `NetRuns` | `waydroid-net.sh` with iptables | rules over every sequence of runs that may die anywhere, exact rollback |
| `Lifecycle` | `container_manager.py`, parts of `lxc.py` and `hardware_manager.py` | what one clean stop recovers from every reachable state, exactly |
| `StopProtocol` | the stop messages between session and container service | every interleaving is finite and quiesces |
| `ShellCommand` | `run.py` and the shell's reading of its output | the exact condition under which the flat string is read back as the same command |
| `Lines`, `Getprop`, `PropFiles` | `props.py` and the override loop of `lxc.py` | parsing inverts printing, what pop-while-enumerating leaves, write then read |
| `DesktopIndex` | `user_manager.py` | agreement of desktop files and launchable packages |
| `OtaUpdate` | `images.py`: `get`, `validate`, `replace` | integrity and progress over every run, for both images |
| `ProcessTree` | `run_core.py`: `kill_command` | termination, exactly the tree, once, parents first |
| `ServiceRunner` | `runner.py` | every interleaving of workers, loops and `stop` |

## Where the code does not do what its text says

Each of these is kept as the code has it, with a lemma at a failing input and with the exact
condition.

- `umount_all` says it unmounts what is mounted *inside* a folder. It selects by string prefix,
  so a mount on `/r2` goes with `/r` (`MountTable.SiblingIsTakenDown`). The two agree exactly when
  no mount sits beside the folder under a longer name (`MountTable.PrefixIsFolderIffNoSibling`).
- `ismount` also looks at the first column of /proc/mounts. A completed unmount is reported as
  failed (`MountHost.FooledByDeviceName`) exactly when a mount that stays carries an unmounted path
  in that column (`MountHost.StillMountedMeaning`). `stop` then keeps the session
  (`Lifecycle.CleanStopRecovers`).
- `docs/host-integration.md` calls the network script idempotent. After a `stop` that died among its
  deletions `network_up` still exists, and `start` returns success with a rule missing
  (`NetRuns.DeadStopMisleadsStart`). A successful `start` leaves the rules in place exactly if
  `network_up` was missing or everything was in place before (`NetRuns.StartRestoresIff`); a `stop` that
  returns, followed by a successful `start`, always repairs (`NetRuns.StopStartRecovers`).
- A `start` of the network that is killed after its rules and before `network_up` leaves bridge and
  rules, and `stop` then refuses to do anything; the container's `stop` ignores that and reports nothing
  (`NetRuns.DeadStartSurvivesStop`, `Lifecycle.KilledStartSurvivesStop`). A `stop` that returns has
  removed the rules exactly if `network_up` existed or none was there (`NetRuns.StopClearsIff`,
  `Lifecycle.CleanStopRecovers`).
- The IPv6 rule can outlive the bridge, over a `stop` (`NetRuns.Ipv6LeaksOverStartAndStop`) and over a `start`
  that removes a stale bridge and then fails (`NetRuns.Ipv6LeaksOverFailedStart`). A run of either kind,
  however it ends, leaves the rule without a bridge exactly if the rule was there, the bridge is gone
  afterwards, and the run is without `LXC_IPV6_NAT=true` for that network (`NetRuns.Ipv6RuleLeak`; for any rule
  and over any sequence of runs `NetRuns.RulesStayContainedIff`). With `LXC_IPV6_NAT=true` but the
  addresses unset, `stop` deletes an identical rule that `start` never added (`NetRuns.StopUndoesStart6`).
- Where every command succeeds and `ismount` is not fooled, `stop` with `quit_session` keeps tracking a
  session exactly if its `pid` is none that os.kill accepts: missing, not a number, or outside the range of
  pids, which raises an OverflowError and not the OSError that is suppressed. The outer handler swallows
  the exception (`Lifecycle.PidlessSessionIsKept`, `Lifecycle.ContainerManager.EndSession`,
  `Lifecycle.CleanStopRecovers`).
- An Android shutdown request is dropped if the container is not STOPPED within 30 polls, and then nothing
  stops (`StopProtocol.DroppedShutdownStopsNothing`). Everything stops exactly if some request was not
  dropped in this way (`StopProtocol.StopQuiesces`).
- `flat_cmd` leaves `=` unquoted, so a command whose first argument looks like `NAME=value` is read
  as an assignment, and one without an environment whose first argument is a reserved word is not read
  as a command (`ShellCommand.AssignmentShapedCommandIsLost`, `ShellCommand.ReservedCommandIsLost`); all
  others are read back (`ShellCommand.FlatParsesBack`).
- The override loop pops while it enumerates and skips the entry after each popped one. It is the
  intended filter exactly when no two neighbours match, and an earlier override can create
  such neighbours (`PropFiles.PopIsFilterIffNoNeighbours`, `PropFiles.CascadeLosesOverride`).
- If saving the configuration fails after an image was extracted, the same build is installed again
  by the next run (`OtaUpdate.FailedSaveInstallsAgain`). There are exactly as many installations as
  moves of the recorded datetime and failed recordings together (`OtaUpdate.GetRunsProgress`,
  `OtaUpdate.EveryInstallIsNewIff`).
- A package event that arrives while the platform service does not answer is dropped, and the package
  can then disagree with nothing queued (`DesktopIndex.DroppedEventMisleads`), exactly if no later event is
  queued and the file was not right anyway (`DesktopIndex.HandleTracks`); a full resync repairs it
  (`DesktopIndex.ResyncRepairs`).
- `ServiceRunner.stop` says it asks the thread to stop and quits its loop. A `stop` can be lost in three ways: it
  finds no loop because the worker has not published one (`ServiceRunner.StopBeforePublishingIsLost`), it finds
  one that does not run yet (`ServiceRunner.QuitBeforeRunIsLost`), or it finds the loop of a later worker
  (`ServiceRunner.StopFindsLaterLoop`). It ends a worker exactly if, when it quits the loop it found, the
  worker is back at the check or gone, or runs that loop or one that was told to quit before
  (`ServiceRunner.StopEndsWorkerIff`).

## Model

| member | source | states |
|---|---|---|
| MountTable.UmountListClears | tools/helpers/mount.py:77-111 | For any table with any stacking: unmounting in the order of `umount_all_list` is never refused by a kernel that refuses mountpoints with mounts below them, and leaves exactly the entries outside the prefix, in their original order |
| MountTable.UmountPrefixGoesThrough | tools/helpers/mount.py:106-108 | The same for every first part of the list: no refusal, the rest of the list is what is still mounted under the prefix, nothing outside has moved |
| MountTable.SortDescendingSorts | tools/helpers/mount.py:98 | `sort(reverse=True)`: descending in Python's string order and a permutation, repetitions included |
| Strings.FirstDifferenceDecides | tools/helpers/mount.py:98 | Python's string order: where neither string starts with the other, the first difference decides by code point |
| MountTable.NothingBelowHead | tools/helpers/mount.py:98-108 | The head of the sorted list has a mount of its own and no mount of the whole table lies below it |
| MountTable.UmountHead | tools/helpers/mount.py:107-108 | One unmount succeeds, takes the newest mount there, and the tail of the list lists the rest |
| MountTable.RootGoesLast | tools/helpers/mount.py:98-108 | Stopping the unmount of a folder after any number of steps keeps "a mount below the folder implies a mount at the folder", whatever is beside it |
| MountTable.PrefixIsFolderIffNoSibling | tools/helpers/mount.py:92-104 | The prefix test selects what is inside the folder if and only if no mount beside the folder starts with its name |
| MountTable.SiblingIsTakenDown | tools/helpers/mount.py:92-104 | A concrete table where unmounting /r takes /r2 down |
| MountHost.Host.Ismount | tools/helpers/mount.py:8-21 | True if and only if some line has the folder in its second or first column |
| MountHost.Host.UmountAllList | tools/helpers/mount.py:77-99 | The mountpoints with the prefix, each as often as it is mounted, sorted in reverse |
| MountHost.Host.UmountAll | tools/helpers/mount.py:102-111 | The kernel never refuses; a failed command leaves a first part of the list done; otherwise the table is what was outside the prefix, and "Failed to umount" is raised if and only if a surviving mount carries an unmounted path in its first column; a failing command leaves something mounted under the folder |
| MountHost.StillMountedMeaning | tools/helpers/mount.py:109-111 | The check after unmounting can only fire through the first column |
| MountHost.FooledByDeviceName | tools/helpers/mount.py:16-20 | A concrete table where the unmount is complete and still reported as failed |
| MountHost.Host.Mount | tools/helpers/mount.py:113-152 | Success adds exactly one entry on top of the (cleared) table, or nothing when already mounted without `force`; failure leaves the table before mounting, or a partly done unmount; if no command fails it succeeds, exactly unless clearing is reported as failed |
| MountHost.Host.MountOverlay | tools/helpers/mount.py:154-180 | Adds exactly the overlay entry, or changes nothing; it succeeds if and only if no command fails and the folders may be made |
| MountHost.Host.Bind | tools/helpers/mount.py:24-51 | Skips a taken destination, or with `umount` clears it first; success adds exactly the bind entry, failure leaves the table before mounting or a partly done unmount; if no command fails it succeeds, exactly unless a folder may not be made or clearing is reported as failed |
| MountHost.Host.BindFile | tools/helpers/mount.py:54-74 | Adds exactly the bind entry unless the destination is taken, creating file and folder as asked; it succeeds if and only if no command fails |
| Rootfs.ImagesHelper.MountRootfs | tools/helpers/images.py:162-201 | A successful run leaves the table of an undisturbed run on the cleared table and a newly written property file; however it ends, the table is a first part of the unmounts or of the mounts; if no command fails it succeeds with the overlays as configured, exactly unless `ismount` is fooled while clearing; and a first overlay that cannot be mounted never ends it, but switches overlays off |
| Rootfs.ImagesHelper.MountImages | tools/helpers/images.py:164-185 | The image and overlay half, with the same clauses |
| Rootfs.ImagesHelper.MountSystemOverlay | tools/helpers/images.py:166-176 | The first overlay if configured; if that fails it is recorded as switched off, and only a failing save raises |
| Rootfs.ImagesHelper.MountBinds | tools/helpers/images.py:187-201 | The bind half: only appends, and on success all of it, exactly if no command fails, with the property file newly written |
| Rootfs.ImagesHelper.MountEgl | tools/helpers/images.py:187-190 | The EGL folders that exist, each bound once |
| Rootfs.ImagesHelper.UmountRootfs | tools/helpers/images.py:203-204 | It succeeds if and only if nothing is left under rootfs and `ismount` is not fooled, whatever fails; table and failures as for umount_all |
| Rootfs.CleanRunHoldsAll | tools/helpers/images.py:162-201 | On any base table: the newest at rootfs is the system overlay directly over system.img, or system.img without overlays, and likewise vendor.img at rootfs/vendor, with the overlay folders spelled out; each EGL folder that exists, /odm or else /vendor/odm, and the property file are bound from there unless the path was taken; nothing is mounted anywhere else, and nothing new is hidden by a later mount |
| Rootfs.InsideOnly | tools/helpers/images.py:162-201 | An undisturbed run mounts rootfs itself first and adds nothing outside rootfs |
| Rootfs.AttemptKeepsRooted | tools/helpers/images.py:162-201 | Wherever an attempt stops, mounts below rootfs still imply a mount at rootfs, and the outside is unchanged; mounts beside rootfs are allowed |
| Rootfs.SameStack | tools/helpers/images.py:162-201 | The stack a run builds depends on the rest of the table only through five paths it asks `ismount` about |
| Rootfs.RetrySafety | tools/helpers/images.py:162-201 | After any number of attempts each stopped anywhere, a successful attempt clears everything inside and builds the stack it would build on the outside mounts alone, also with mounts beside rootfs; without those the whole table is the same |
| Rootfs.AttemptKeepsOutside | tools/helpers/images.py:162-201 | From any table at all, an attempt stopped anywhere leaves mounts outside the prefix untouched and in order |
| Rootfs.AttemptThenUmount | tools/helpers/images.py:162-204 | An attempt stopped anywhere followed by `umount_rootfs` is a round trip: the outside as before, nothing inside |
| Firewall.DelAfterAdd | data/scripts/waydroid-net.sh:102-109 | `-D` undoes `-I` always, and `-A` if the rule was not there before |
| Firewall.DeletesUndoAdds | data/scripts/waydroid-net.sh:97-110 | Any distinct additions are undone exactly by any deletions that name them all and nothing that was there before, wherever foreign rules are |
| Firewall.DeleteAllAfterAddAll | data/scripts/waydroid-net.sh:223-235 | Adding a list and deleting it in the same order equals adding and deleting rule by rule |
| Firewall.AppendDeleteExact | data/scripts/waydroid-net.sh:108-109 | `-A` then `-D` keeps the chain as a multiset, and as a sequence if and only if everything from the first identical rule on is that rule |
| NetScript.Net.Start | data/scripts/waydroid-net.sh:139-221 | What `start` can do to bridge, `network_up` and chains, for every command that may fail, be interrupted or be the last one; it succeeds if no command fails; if exactly one command failed and it returned, the trap has taken the bridge away unless interfaces are attached |
| NetScript.Net.BringUp | data/scripts/waydroid-net.sh:160-220 | Under `set -e`: a first part of the rules is added, none before the bridge exists, `network_up` only after all |
| NetScript.Net.CreateBridge | data/scripts/waydroid-net.sh:163-177 | Creates the bridge if it is missing; a success leaves one |
| NetScript.Net.Cleanup | data/scripts/waydroid-net.sh:150-159 | The trap runs `stop force` once or twice; unless the bridge's deletion fails or the shell dies, the bridge is gone if nothing is attached |
| NetScript.Net.Stop | data/scripts/waydroid-net.sh:253-273 | Refuses without `network_up`; otherwise the body of `stop`, after which the bridge is gone unless interfaces are attached, its deletion failed or the shell died |
| NetScript.Net.StopForce | data/scripts/waydroid-net.sh:253-273 | Deletes all rules before the bridge goes, or a first part if it dies; without a bridge it deletes none; unless the bridge's deletion fails or the shell dies the bridge is gone if no interface is attached |
| NetScript.Net.TakeDown | data/scripts/waydroid-net.sh:258-272 | When there is a bridge: all rules go before it, and unless its deletion fails or the shell dies it goes exactly if no interface is attached, whatever the commands whose failure is passed over do |
| NetScript.Net.DeleteBridge | data/scripts/waydroid-net.sh:268-269 | The bridge is deleted unless interfaces are attached |
| NetScript.Net.StartIptables | data/scripts/waydroid-net.sh:97-110 | Adds a first part of the rule list, all of it on success; the IPv6 rule only with both conditions |
| NetScript.Net.StopIptables | data/scripts/waydroid-net.sh:223-235 | Deletes the whole list, failures ignored, unless the shell dies |
| NetRuns.StopKeepsContained | data/scripts/waydroid-net.sh:253-273 | A stop that dies anywhere keeps "at most once, and only with the bridge"; a completed one has removed the rule |
| NetRuns.BringUpKeepsContained | data/scripts/waydroid-net.sh:160-220 | The same for the bring-up; with `network_up` each listed rule is there exactly once |
| NetRuns.StartKeepsContained | data/scripts/waydroid-net.sh:139-221 | The same for `start` with stale-bridge recovery and rollback, and the exact count when it returns |
| NetRuns.RulesStayContained | data/scripts/waydroid-net.sh:139-273 | Over every sequence of start and stop runs, each of which may die after any command: every rule that the runs' deletions name occurs at most once and only while the bridge exists |
| NetRuns.ContainedIff | data/scripts/waydroid-net.sh:139-273 | One run of either kind, however it ends, keeps any rule contained if and only if there still is a bridge, the rule was not there, or the run's deletions name it |
| NetRuns.RulesStayContainedIff | data/scripts/waydroid-net.sh:139-273 | Over every sequence of runs, wherever they die, any rule stays contained if and only if no run takes the bridge away while the rule is there and not named |
| NetRuns.CompleteRunKeepsConsistent | data/scripts/waydroid-net.sh:139-273 | One run that returns, successfully or not, keeps each rule that its bring-up adds present exactly once if `network_up` exists and absent otherwise |
| NetRuns.CompleteRunsStayConsistent | data/scripts/waydroid-net.sh:139-273 | The same for every sequence of runs that return: each IPv4 rule whatever the environments, and the IPv6 rule too when they share one |
| NetRuns.CompleteRunKeepsInStep | data/scripts/waydroid-net.sh:139-273 | ... and rules that only the deletions name stay absent |
| NetRuns.StartRestoresIff | data/scripts/waydroid-net.sh:139-146 | From single rules tied to the bridge, a successful start leaves its rules in place and `network_up` if and only if `network_up` was missing or all was in place already |
| NetRuns.DeadStopMisleadsStart | data/scripts/waydroid-net.sh:139-146 | A stop that dies after one deletion, then a start that returns success with that rule missing |
| NetRuns.StopStartRecovers | data/scripts/waydroid-net.sh:139-273 | From any state left by runs that died, a stop that returns and a successful start restore every rule that both name, the IPv6 rule included |
| NetRuns.StopClearsIff | data/scripts/waydroid-net.sh:253-273 | A stop that returns has removed all its rules if and only if `network_up` existed or none was there |
| NetRuns.DeadStartSurvivesStop | data/scripts/waydroid-net.sh:253-256 | A start killed before `network_up`, then a stop that refuses: bridge and every rule stay |
| NetRuns.Ipv6RuleLeak | data/scripts/waydroid-net.sh:139-273 | A start or stop that ends in any way leaves a contained IPv6 rule contained if and only if there still is a bridge, the rule was not there, or the run's environment has LXC_IPV6_NAT=true for its network |
| NetRuns.Ipv6LeaksOverStartAndStop | data/scripts/waydroid-net.sh:232-234 | A start with IPv6 NAT and a stop without leave the rule without a bridge |
| NetRuns.Ipv6LeaksOverFailedStart | data/scripts/waydroid-net.sh:144-163 | A killed start with IPv6 NAT and a failing start without leave the rule without a bridge |
| NetRuns.RunsKeepOthers | data/scripts/waydroid-net.sh:139-273 | Over every sequence of runs, wherever they die, all other rules keep their place and order in every chain; once none of the script's rules is left, all chains are exactly as before the first run |
| NetRuns.FailedStartRestores | data/scripts/waydroid-net.sh:148-221 | A start that fails at any command gives every chain back exactly, with any foreign rules, if none of the script's rules was there before |
| NetRuns.StartedChains | data/scripts/waydroid-net.sh:97-110 | The four INPUT, two FORWARD and two POSTROUTING rules, and the IPv6 rule under both conditions, each at its end of its chain with all other rules in between untouched |
| NetRuns.StopUndoesStart | data/scripts/waydroid-net.sh:97-110 | INPUT and FORWARD come back as exact sequences even with identical foreign rules, POSTROUTING as multisets, and everything exactly under an if-and-only-if condition |
| NetRuns.StopUndoesStart6 | data/scripts/waydroid-net.sh:223-235 | The same with LXC_IPV6_NAT=true; the IPv6 chain survives as a multiset if and only if the addresses were set or no identical foreign rule exists |
| Lifecycle.ContainerManager.DoStart | tools/actions/container_manager.py:334-371 | A session is tracked only when every step is done (network up, sensors, whole mount stack, container RUNNING); a failed network start touches nothing else; refused while a session is tracked; if no command fails it succeeds, exactly when initialised, without a tracked session, and with `ismount` not fooled; LXC has been told to start once |
| Lifecycle.ContainerManager.Launch | tools/actions/container_manager.py:341-368 | The steps between the checks and tracking, failing at any of them |
| Lifecycle.ContainerManager.BootContainer | tools/actions/container_manager.py:346-368 | Sensors, session config, mounts, container; foreign mounts are kept; succeeds if no command fails and `ismount` is not fooled |
| Lifecycle.ContainerManager.PrepareDrivers | tools/actions/container_manager.py:217-235 | Prepared after the first success and not again |
| Lifecycle.ContainerManager.PrepareSession | tools/actions/container_manager.py:347-354 | Raises only with a failed command |
| Lifecycle.ContainerManager.MountAll | tools/actions/container_manager.py:356-364 | The data bind of old configurations and the whole rootfs stack |
| Lifecycle.ContainerManager.Stop | tools/actions/container_manager.py:373-409 | Best effort: exceptions are dropped, and only a failing lxc-stop, which changes nothing, keeps it from going on; the session goes if and only if then nothing is left under rootfs, `ismount` is not fooled, and with `quit_session` there is a pid to signal; if no mount command fails the table is exactly the foreign mounts; if no command fails, the container is STOPPED, `network_up` and the sensor daemon are gone, and the bridge is gone if the network was up and nothing is attached to it |
| Lifecycle.ContainerManager.TearDown | tools/actions/container_manager.py:379-407 | The body that may raise at each step, with the same outcome |
| Lifecycle.ContainerManager.CleanUp | tools/actions/container_manager.py:392-407 | Network, sensors, mounts, session: each is done whatever fails in the others |
| Lifecycle.ContainerManager.UmountAndEnd | tools/actions/container_manager.py:395-407 | The session goes if and only if nothing is left under rootfs, `ismount` is not fooled and there is a pid to signal where asked for |
| Lifecycle.ContainerManager.StopContainer | tools/actions/container_manager.py:381-390 | A container that is not STOPPED is told to stop once; only a failing lxc-stop raises, a timeout does not end the clean-up |
| Lifecycle.ContainerManager.UmountAll | tools/actions/container_manager.py:395-400 | Rootfs, then the data bind with any exception dropped: it raises if and only if something is left under rootfs or `ismount` is fooled; the exact table if no command fails |
| Lifecycle.ContainerManager.EndSession | tools/actions/container_manager.py:402-407 | SIGUSR1 to the session's pid exactly once with `quit_session`, then forgotten; kept if and only if its pid is missing, not a number or out of range |
| Lifecycle.ContainerManager.StartCall | tools/actions/container_manager.py:36-46 | Only root, or the session's own user from the session's own process; anyone else changes nothing |
| Lifecycle.ContainerManager.StopCall | tools/actions/container_manager.py:48-76 | Neither root nor the user of the tracked session: refused with nothing changed; for those it raises only if not initialised |
| Lifecycle.ContainerManager.WaitForStatus | tools/actions/container_manager.py:175-189 | Raises exactly after the given number of seconds, counted as a failure; returns before with the status reached, if lxc-info does not fail |
| Lifecycle.ContainerManager.LxcStart | tools/helpers/lxc.py:433-452 | Tells LXC to start once; returns only with the container seen RUNNING, raises exactly after ten seconds |
| Lifecycle.ContainerManager.LxcStop | tools/helpers/lxc.py:454-457 | Raises without effect or leaves the container stopped or stopping |
| Lifecycle.ContainerManager.Status | tools/helpers/lxc.py:425-431 | A failing lxc-info is taken for STOPPED |
| Lifecycle.ContainerManager.StartNetworking | tools/actions/container_manager.py:299-306 | Raises if and only if the script does not exit with zero |
| Lifecycle.ContainerManager.StopNetworking | tools/actions/container_manager.py:308-310 | Never raises; if no command fails `network_up` is gone, and if it had existed the bridge too unless interfaces are attached |
| Lifecycle.ContainerManager.StartSensors | tools/actions/container_manager.py:312-321 | One more daemon if and only if it is installed |
| Lifecycle.ContainerManager.StopSensors | tools/actions/container_manager.py:323-332 | All instances are gone if no command fails |
| Lifecycle.ContainerManager.Freeze | tools/actions/container_manager.py:419-425 | RUNNING becomes FROZEN, anything else stays |
| Lifecycle.ContainerManager.Unfreeze | tools/actions/container_manager.py:427-433 | FROZEN becomes RUNNING, anything else stays |
| Lifecycle.ContainerManager.Reboot | tools/services/hardware_manager.py:54-56 | LXC is told to stop and then to start; success means RUNNING; only the container moves |
| Lifecycle.ContainerManager.Upgrade | tools/services/hardware_manager.py:58-67 | Keeps the session, the network and foreign mounts; succeeds only with a tracked session, rootfs mounted and RUNNING with the whole stack; if no command fails, it succeeds exactly then and with `ismount` not fooled; the images have been replaced once in between, with nothing mounted under rootfs, and LXC was told to stop and to start |
| Lifecycle.ContainerManager.TakeRootfsDown | tools/services/hardware_manager.py:59-60 | Container told to stop, nothing left under rootfs, everything else mounted as before |
| Lifecycle.ContainerManager.ReplaceImages | tools/services/hardware_manager.py:61-62 | Only with nothing mounted under rootfs |
| Lifecycle.ContainerManager.BootAgain | tools/services/hardware_manager.py:64-67 | From a table with nothing under rootfs: the whole stack and RUNNING, if no command fails |
| Lifecycle.ContainerManager.ShutdownRequest | tools/services/hardware_manager.py:69-85 | If no command fails: it raises only for a shutdown of an uninitialised service; a STOPPED container is started for a reboot and fully stopped for a shutdown; otherwise it is done as soon as the container is STOPPED, or dropped after exactly 30 seconds with the container not STOPPED. A reboot moves only the container; a shutdown is a stop that signals the session |
| Lifecycle.HistoryKeeps | tools/actions/container_manager.py:334-409 | Over every history, wherever starts and stops failed or were killed: foreign mounts and all other firewall rules are untouched, a rooted table stays rooted, each of the script's rules stays single and tied to the bridge; and rules and `network_up` stay in step if no script was killed |
| Lifecycle.CleanStopRecovers | tools/actions/container_manager.py:373-409 | From every reachable state, killed network scripts included, one stop whose commands succeed leaves STOPPED, no `network_up`, no sensor daemon and exactly the foreign mounts there ever were; no session, if and only if `ismount` is not fooled and there is a pid to signal; none of the script's rules, if and only if `network_up` existed or none was there, and then every chain as before the history; no bridge, if and only if there was none or `network_up` existed and nothing is attached |
| Lifecycle.CleanStopRestoresFirewall | tools/actions/container_manager.py:373-409 | If no network script was killed, that stop always gives every chain back exactly as before the first start |
| Lifecycle.KilledStartSurvivesStop | tools/actions/container_manager.py:308-310 | A start whose network script is killed, then a stop none of whose commands fails: bridge and rules stay |
| Lifecycle.PidlessSessionIsKept | tools/actions/container_manager.py:402-409 | A session with no pid that os.kill accepts is kept by a clean stop |
| Lifecycle.TrackedOnlyAfterStart | tools/actions/container_manager.py:334-371 | A tracked session came from one start that completed every step, with network, sensors, the whole mount stack and the container up, and has been tracked without a gap since |
| Lifecycle.UpMeans | tools/actions/container_manager.py:354-368 | What a container that is up runs on: images, overlays and binds as spelled out for mount_rootfs, and with an old LXC config the session's data folder |
| Lifecycle.SessionGoesUnmounted | tools/actions/container_manager.py:395-407 | Over every history a session goes only by a stop that has unmounted rootfs, and with `quit_session` its process has been signalled |
| Lifecycle.NetStaysTidy | tools/actions/container_manager.py:299-310 | Each transition keeps the rules single and tied to the bridge and all other rules untouched, also if its script is killed; if it returns, rules and `network_up` stay in step |
| StopProtocol.StepLosesWeight | tools/actions/session_manager.py:21-28 | Every step of either process lowers a weight and never adds a stop |
| StopProtocol.RunsAreFinite | tools/actions/session_manager.py:21-132 | No interleaving is longer than the weight of its first state |
| StopProtocol.StopsNeverMultiply | tools/actions/session_manager.py:90-126 | SIGUSR1 never triggers another Stop: the stops waiting, running or still to be added by callers that fall back never exceed those at the start, at most two for each request |
| StopProtocol.LateReplyMakesTwoStops | tools/actions/session_manager.py:122-126 | A caller whose reply is late makes two stops of one request |
| StopProtocol.StepKeepsInv | tools/actions/container_manager.py:402-407 | A session about to be forgotten, or already forgotten, has been told to quit |
| StopProtocol.StepKeepsPursued | tools/actions/session_manager.py:116-132 | As long as the session is tracked, a stop is on its way to it or all requests not dropped are still waiting |
| StopProtocol.StepKeepsAccounted | tools/services/hardware_manager.py:69-85 | Requests, stops under way and dropped shutdowns are accounted for: none is gained, and one is lost only by a stop that came to its end |
| StopProtocol.RunKeeps | tools/actions/session_manager.py:21-132 | All three invariants along every interleaving |
| StopProtocol.QuietMeansSettled | tools/actions/session_manager.py:116-132 | Nothing can happen any more only when nothing is waiting and nobody is at work |
| StopProtocol.StopQuiesces | tools/actions/session_manager.py:21-132 | From any stop requests at either side or both, in any interleaving, if teardown does not raise: the session's loop has quit, its process is gone and no session is tracked, if and only if some request was not a shutdown dropped after 30 polls; otherwise the session runs on |
| StopProtocol.OthersStop | tools/services/hardware_manager.py:69-85 | With any request that is not a shutdown, everything stops |
| StopProtocol.DroppedShutdownStopsNothing | tools/services/hardware_manager.py:73-76 | One dropped shutdown request: nothing stops |
| StopProtocol.ForgottenMeansGone | tools/actions/container_manager.py:402-407 | Even if teardown raises, a session is forgotten only if its process quits |
| StopProtocol.ServiceEndsIff | tools/actions/container_manager.py:373-409 | Once nothing more can happen, the service has ended if and only if it was sent a SIGTERM or SIGINT, whether teardown raised or not |
| StopProtocol.StrangersAreRefused | tools/actions/container_manager.py:64-76 | A call that is neither root's nor, with the session tracked, its owner's does nothing |
| StopProtocol.SuspendAsksSessionFirst | tools/services/hardware_manager.py:47-50 | A suspend goes to the session if it can be reached, and only else to the service |
| ShellCommand.FlatCmd | tools/helpers/run.py:7-33 | The loops build the joined string of quoted assignments and arguments, after `cd` if a directory is given |
| ShellCommand.LexEscaped | tools/helpers/run.py:24 | shlex.quote's escaping, read inside single quotes, gives back any string, apostrophes included |
| ShellCommand.LexQuote | tools/helpers/run.py:26 | A quoted argument is read as one word holding exactly the argument, whatever follows |
| ShellCommand.FlatTokenises | tools/helpers/run.py:21-29 | The string is read as one word per assignment and per argument, by sections 2.2 and 2.3 of Shell Command Language, IEEE Std 1003.1-2017 |
| ShellCommand.FlatParsesBack | tools/helpers/run.py:7-33 | The shell reads back exactly these assignments and this command if and only if the names are names, the first argument does not look like an assignment, and without an environment it is not a reserved word (section 2.4) |
| ShellCommand.WorkingDirReads | tools/helpers/run.py:28-31 | With a directory: the words cd and directory, a semicolon, then the same words |
| ShellCommand.RootUnwraps | tools/helpers/run.py:57-78 | `root` with an environment wraps twice and two rounds of reading unwrap it to the original command, under the same if-and-only-if condition |
| ShellCommand.UserRuns | tools/helpers/run.py:36-59 | What the process of `user` executes is exactly the command in its environment, if and only if there is no environment or the condition of FlatParsesBack holds; without an environment the arguments are passed on one by one |
| ShellCommand.RootRuns | tools/helpers/run.py:62-78 | The same for `root`: sudo runs in the environment and is given what executes the command in it; without an environment sudo and then the arguments one by one |
| ShellCommand.QuoteLeavesAlone | tools/helpers/run.py:24-26 | An argument stays unquoted if and only if it is not empty and has only the characters that are safe by shlex |
| ShellCommand.AssignmentShapedCommandIsLost | tools/helpers/run.py:25-26 | A command that is not read back |
| ShellCommand.ReservedCommandIsLost | tools/helpers/run.py:25-26 | `if x` is read back if and only if there is an environment |
| Getprop.HostList | tools/helpers/props.py:17-32 | The loop collects what each line parses to, later lines winning |
| Getprop.StoreLine | tools/helpers/props.py:23-31 | The loop body is that parse |
| Getprop.SeparatorPlaces | tools/helpers/props.py:25-27 | In a printed line the separator stands where the key ends, and earlier only where the key contains it |
| Getprop.PrintedParses | tools/helpers/props.py:23-31 | A printed line parses to its key and value, if the key has the prefix |
| Getprop.PrintedParsesBack | tools/helpers/props.py:23-31 | ... and without a prefix it does so if and only if the key does not contain the separator |
| Getprop.OtherLines | tools/helpers/props.py:23-26 | White space around a line does not matter; without the bracket and prefix or the separator it is passed over |
| Getprop.UnclosedParses | tools/helpers/props.py:27-29 | A value without its closing bracket is taken as it is |
| Lines.BreakEndsLine | tools/helpers/props.py:22 | Every line break ends one line, a carriage return with a line feed one line together |
| Lines.StripPadded | tools/helpers/props.py:23 | Stripping takes away exactly the white space around a text |
| Getprop.HostListInvertsGetprop | tools/helpers/props.py:17-32 | host_list inverts getprop's printing for all properties without line breaks whose keys lack the separator, whatever the values hold |
| Getprop.WantedEntries | tools/helpers/props.py:17-32 | With distinct keys the result holds exactly the entries whose key has the prefix |
| PropFiles.PopMatching | tools/helpers/lxc.py:388-390 | Popping while enumerating drops the 1st, 3rd, 5th ... entry of each run of adjacent matches |
| PropFiles.WriteProps | tools/helpers/lxc.py:385-394 | The file holds the overridden entries, one per line |
| PropFiles.PopIsFilterIffNoNeighbours | tools/helpers/lxc.py:388-390 | It is the intended filter if and only if no two neighbours match |
| PropFiles.FileGet | tools/helpers/props.py:53-62 | The first line with the key decides; comments and empty lines do not |
| PropFiles.FirstLineDecides | tools/helpers/props.py:55-62 | The value is that of the first line that is, after trimming, no comment and the key with an equals sign and the value, or the key alone; if and only if there is none it is empty |
| PropFiles.OverrideReads | tools/helpers/lxc.py:387-391 | Without matching neighbours the key reads as the override and every other key as before |
| PropFiles.OverrideTakesEffectIff | tools/helpers/lxc.py:387-391 | An override reads back if and only if no two neighbours match, or the value that survives equals it |
| PropFiles.OverridesRead | tools/helpers/lxc.py:387-391 | Any list of overrides: the last value given for a key, the old value for all others |
| PropFiles.WriteThenRead | tools/helpers/lxc.py:385-394 | The same through the file, written and read with `file_get` |
| PropFiles.SeparateKeysAreOrderly | tools/helpers/lxc.py:387-391 | A condition on the base list and the overrides alone that is enough for that |
| PropFiles.CascadeLosesOverride | tools/helpers/lxc.py:387-391 | An earlier override makes entries adjacent and a later one is lost |
| ProcessTree.Killer.KillProcessTree | tools/helpers/run_core.py:94-111 | Terminates on every acyclic list, killing in the order of the specification |
| ProcessTree.Killer.KillCommand | tools/helpers/run_core.py:114-131 | Raises before any kill if and only if some row is not a pair |
| ProcessTree.PairsAreRows | tools/helpers/run_core.py:125-129 | Line by line the first column is the pid and the second the parent's |
| ProcessTree.ChildHasFewer | tools/helpers/run_core.py:109-111 | A child has strictly fewer descendants than its parent |
| ProcessTree.KillsExactlyTheTree | tools/helpers/run_core.py:94-111 | Killed if and only if it is the root or a transitive descendant |
| ProcessTree.KillsOnce | tools/helpers/run_core.py:94-111 | With distinct pids each is killed once |
| ProcessTree.KillsParentsFirst | tools/helpers/run_core.py:94-111 | Every kill after the first is of a child of a process killed earlier |
| OtaUpdate.Updater.Get | tools/helpers/images.py:25-82 | Both images in turn, each by one step; a failing system step leaves vendor alone; if nothing fails it completes exactly when both channels list builds |
| OtaUpdate.Updater.GetImage | tools/helpers/images.py:36-53 | The first newer build is asked for; a delivery that is missing or has another hash changes nothing and raises; a good one is extracted and then recorded; if nothing fails it completes exactly when the channel lists builds |
| OtaUpdate.Updater.Validate | tools/helpers/images.py:84-97 | True if and only if the channel answered and lists the archive's SHA-256 |
| OtaUpdate.Updater.Replace | tools/helpers/images.py:99-121 | Per archive: absent or unlisted changes nothing, a listed one is extracted; the recorded times move both or not at all, and only after both archives are done; it completes if and only if no operation fails |
| OtaUpdate.Updater.ReplaceImage | tools/helpers/images.py:102-110 | One archive: extracted if and only if it is listed, unless something raises |
| OtaUpdate.NothingUnlistedExtracted | tools/helpers/images.py:25-121 | Over any interleaving of get and replace with any failures, every extracted archive had its SHA-256 listed in the response fetched in that step |
| OtaUpdate.MovesIffPassed | tools/helpers/images.py:36-53 | A step that does not raise moves the image if and only if its archive has the hash asked for; an archive that has not never moves it, and for get raises; a move adds just this archive with the datetime meant for it or the old one; a move of a step that does not raise always records it |
| OtaUpdate.OnlyPassedChecksMove | tools/helpers/images.py:25-121 | Over any history: without a passing archive image and datetime stand still, and what was extracted is exactly the archives of the steps that moved, each of which passed its check |
| OtaUpdate.GetStepProgress | tools/helpers/images.py:36-53 | One step never lowers the datetime, moves it only to a newer listed one, and a completed step makes progress if there is any to make |
| OtaUpdate.GetRunsProgress | tools/helpers/images.py:25-82 | Over any runs against one channel: monotone, at most as many moves as distinct newer datetimes, and exactly as many extractions as moves and failed recordings together |
| OtaUpdate.EveryInstallIsNewIff | tools/helpers/images.py:50-51 | No installation beyond the moves if and only if every extraction was recorded |
| OtaUpdate.CompletedRunsReachMax | tools/helpers/images.py:25-82 | Completed runs end at the maximum, in at most as many runs as there are distinct newer datetimes |
| OtaUpdate.WholeRunsProject | tools/helpers/images.py:25-82 | Whole get runs, system then vendor, are such runs for each image separately, whatever fails; completed ones bring both to their maximum |
| OtaUpdate.NewestFirstNeedsOneRun | tools/helpers/images.py:36-53 | With the channel listed newest first one completed run suffices |
| OtaUpdate.FailedSaveInstallsAgain | tools/helpers/images.py:50-51 | A concrete pair of runs that extracts the same build twice |
| DesktopIndex.PrependList | tools/services/user_manager.py:42-45 | The reversed loop with insertion at the front |
| DesktopIndex.PrependedAddsMissing | tools/services/user_manager.py:42-45 | The old list is a suffix, what is added was wanted and missing, all wanted are present, nothing is added twice, in the order of the new list |
| DesktopIndex.UserManager.UpdateDesktopFile | tools/services/user_manager.py:94-134 | None changes nothing; without LAUNCHER the file goes; otherwise it is written over what was there |
| DesktopIndex.FileHolds | tools/services/user_manager.py:94-134 | Without LAUNCHER there is no file; otherwise it has the app's package and name, both marks, and the user's own keys and entries; NoDisplay is true if and only if it was, or was missing and the package is a system app, and else unchanged; every other file keeps its content |
| DesktopIndex.UpdateTwiceIsOnce | tools/services/user_manager.py:94-134 | Idempotent, and the user's own keys, categories, actions and NoDisplay survive |
| DesktopIndex.AppFilesAreNamed | tools/services/user_manager.py:99 | Names matching the pattern and packages correspond one to one |
| DesktopIndex.UserManager.UserUnlocked | tools/services/user_manager.py:146-153 | From any directory content: an app file exists if and only if the service lists the package as launchable; files outside the pattern are untouched; the file of each shown package has the listed name and both marks, system apps have a NoDisplay entry, and no other new file has |
| DesktopIndex.UserManager.PackageStateChanged | tools/services/user_manager.py:157-165 | The reaction to one event against the current package state |
| DesktopIndex.HandleTracks | tools/services/user_manager.py:157-165 | Handling an event keeps a package's bookkeeping; with the service not answering it does so if and only if another event is queued or the file was right anyway |
| DesktopIndex.DroppedEventMisleads | tools/services/user_manager.py:157-165 | A removal event lost while the service does not answer: the file stays with nothing queued |
| DesktopIndex.StepKeepsGood | tools/services/user_manager.py:136-165 | Installs, removals, answered events and resyncs keep the invariant |
| DesktopIndex.IndexAgrees | tools/services/user_manager.py:157-165 | With events handled in order against the current state, every package without a queued event has a file if and only if it is installed and launchable |
| DesktopIndex.ResyncAgrees | tools/services/user_manager.py:136-155 | A full resync makes every package agree |
| DesktopIndex.ResyncRepairs | tools/services/user_manager.py:136-155 | After any events, lost ones included, a resync restores the full invariant |
| ServiceRunner.AtMostOnceMore | tools/services/runner.py:30-36 | In every interleaving after `stop` with no later `start`, each worker begins `run_fn` at most once more, and only if it had passed the check |
| ServiceRunner.LateThreadNeverBegins | tools/services/runner.py:24-36 | A thread created after the flag was set never begins it |
| ServiceRunner.StartRunsTheService | tools/services/runner.py:24-32 | A start after whatever came before, stops included: its worker begins `run_fn`, publishes a loop of its own and runs it |
| ServiceRunner.KeepsRunning | tools/services/runner.py:30-32 | While the flag is clear a worker at the check goes on, one whose loop has ended comes back, and none ends unless run_fn raises |
| ServiceRunner.StepKeepsCaught | tools/services/runner.py:34-41 | A stop that landed inside the running loop keeps its hold on the worker |
| ServiceRunner.StopCatchesTheWorker | tools/services/runner.py:34-41 | Once a stop that holds the running loop, or is about to find it, has returned, the worker only has the steps to its end before it, without another `run_fn` |
| ServiceRunner.EndsInBoundedSteps | tools/services/runner.py:30-41 | From there it ends after exactly as many of its own steps as remain, each of them possible whatever others do |
| ServiceRunner.ReachableIsSound | tools/services/runner.py:24-41 | In every interleaving each loop belongs to one worker and is told to quit only once it runs |
| ServiceRunner.QuitCatchesIff | tools/services/runner.py:34-39 | After the quit a worker has only the steps to its end before it if and only if it was at the check or gone, or in the loop found or in one told to quit before |
| ServiceRunner.GetsStuck | tools/services/runner.py:30-32 | Any other worker gets, by its own steps alone, into a loop that nobody has told to quit |
| ServiceRunner.StopEndsWorkerIff | tools/services/runner.py:30-41 | Over all interleavings after the quit with no later start, the worker never sits in a loop that nobody told to quit, if and only if that condition held |
| ServiceRunner.QuitBeforeRunIsLost | tools/services/runner.py:34-41 | A quit between publishing and running has no effect |
| ServiceRunner.StopBeforePublishingIsLost | tools/services/runner.py:34-41 | A stop that finds no loop because the worker has not published one yet |
| ServiceRunner.StopFindsLaterLoop | tools/services/runner.py:34-39 | A stop that lands while the worker is in its loop, but finds the loop of a later one |

## Left out

Members that state less than one might wish, and why:

- NetRuns.RulesStayContained: the part of the exact theorem `NetRuns.RulesStayContainedIff` that can be read off the environments.
- PropFiles.SeparateKeysAreOrderly: a sufficient condition that can be read off the input; the exact one for a single override is `PropFiles.OverrideTakesEffectIff`.
- Rootfs.RetrySafety: starts from a table where a mount below rootfs implies one at rootfs, because `mount(umount=True)` clears only if rootfs itself is mounted; and for mounts beside rootfs that stay it asks that their first column is none of the five paths a run looks up, because such a mount would be taken for that path.
- ServiceRunner.StopCatchesTheWorker: one direction, for a `stop` that need not have read the loop yet; it then presumes that no other worker is between the check and publishing. The exact theorem from the moment when the loop has been read is `ServiceRunner.StopEndsWorkerIff`.
- StopProtocol.StopQuiesces: presumes that teardown does not raise; what holds without that is `StopProtocol.ForgottenMeansGone`.

Form:

- The stop protocol and the service worker are state machines on values, one step per atomic action of each process or thread, because their point is the interleaving; their objects are not classes.
- Lists that Python changes in place are values that methods return; aliasing between such lists does not occur in the source and is not modelled.
- `Lifecycle` keeps the two halves of `stop` and `do_start` in methods of their own so that each can be stated; the order of commands is the source's.

Behaviour:

- The nftables backend of the network script, and the choice between backends.
- dnsmasq, sysctl writes, directory creation and addresses of the bridge are single steps without state; the kill of dnsmasq is one of them.
- A signal that arrives while the trap's own `stop force` runs interrupts it only by killing the shell.
- An iptables deletion fails only when there is nothing to delete. Other commands whose exit code the network script passes over do no harm when they fail and are not counted as failures, except the deletion of the bridge.
- Lines of /proc/mounts that are malformed or end in `\040(deleted)`, symbolic links on mount paths, and mount options.
- Whether a path exists is an arbitrary answer; the first column of a mount is a fixed function of what was mounted, so two loop devices for one image have one name.
- `make_prop` and the property sources before the override loop; loading, parsing and lower-casing of the configuration.
- HTTP, JSON, zip and hashing: replies are lists of builds, SHA-256 is an arbitrary function, a download is an arbitrary archive; removing the overlay directories is a step that may raise. A failed extraction counts as one that put files in place.
- The interval between an archive's check and its extraction: the open file is taken to be the same.
- Migration of old desktop files, adb, the unlock callback, icons and the Exec lines of desktop files; key files that cannot be parsed or saved.
- Pids that are reused between listing and killing, sudo, and exit codes of kill.
- Driver probing, device permissions, cgroup and schedtune steps of a start: each is one step that may fail.
- A container that stops by itself within the second after it was seen RUNNING.
- `waydroid container stop` and `restart` from the command line: another process without the tracked session.
- Stops with `quit_session=False` from initialisation or upgrade, which keep the session on purpose.
- D-Bus and gbinder marshalling and the inside of GLib's main loop.
- Shell aliases and expansions: the reader gives up on what would be expanded, and no quoted word is.
- Log messages of `user` and the process handling of `core`.
- The window, the argument parser, bug reports, packaging, ARM translation and the small mapping tables: they would only add easy members.
