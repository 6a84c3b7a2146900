# Kata Containers: a verified model of the agent's state machines and of parts of the runtime

The Kata agent runs inside the guest and keeps the state of a sandbox: which storages are mounted and who
uses them, which processes have exited and who waits for them, which hotplug events have been seen, what the
watched configuration directories look like. The runtime on the host drives it. This project models the parts
of both in which a mistake is easy to make and hard to see, as Dafny datatypes, specification functions, state
machines and classes, and proves what they guarantee over every input, every interleaving of locked sections,
or every run. Classes and methods follow the code that updates fields in place; each method is tied to a
specification function or to a step of a state machine, and the theorems are about those.

| files | component |
|---|---|
| `WatcherModel`, `WatcherWalk`, `WatcherStorage`, `WatcherMirror`, `WatcherContent`, `WatcherLimits`, `WatcherRecovery`, `WatcherLoss` | mirroring watched mounts into the guest |
| `StorageCounts`, `StorageSafety`, `StorageHistory`, `StorageRemovals`, `StorageExamples`, `StorageLeaks` | reference counts of sandbox storages |
| `ProcessExit`, `ProcessExitSandbox` | waiting for a process to exit |
| `UeventRendezvous`, `UeventHistory`, `UeventSandbox` | waiting for a hotplug event |
| `Text`, `Pci`, `PciSpelling`, `EnvEntries`, `DeviceEnv` | PCI addresses and their translation in environment variables |
| `DeviceSpec`, `DeviceSpecLaws` | device numbers in the OCI specification |
| `MonitorModel`, `MonitorHistory`, `MonitorObject` | the sandbox monitor |
| `CopyFile`, `CopyFileDirs`, `CopyFileTransfer` | copying a file to the guest in parts |
| `RateLimiter`, `AcrnSlots`, `OnlineCpus` | rate conversion, ACRN slots, bringing CPUs online |
| `Wrappers`, `Sequences` | option and result types, elements of a list |

`dafny verify dfyconfig.toml` verifies all of it.

## Results

- **The mirror.** After a scan the record and the target are the path-for-path image of the source if, and only
  if, every change since the previous scan is one a scan can follow: a link that leads nowhere, an entry with
  the same image, or a newer entry whose kind the copy can put in place (`ScanMirrorsExactly`). Over any run of
  successful scans the mirror holds after every scan exactly when that is so at every step
  (`RunMirrorsExactly`). A mirror shows every file with its content, every link with its destination and every
  directory, and nothing else (`MirrorExactly`); where kinds stay and changes raise the modification time the
  target shows exactly the source tree after every scan (`SteadyRunShows`). From any state whatsoever, such as
  the one a failed scan leaves, there is an exact condition too (`MirrorsFromExactly`); what a failed scan
  recorded without copying is lost until it changes (`LostByFailure`), as happens with every tree of one entry
  too many once that entry is deleted (`FailureLoses`). The limits are characterised before the scan
  (`FitsCountExactly`). After any scan, whatever was there before it, scanning the unchanged source again copies
  dangling links only (`RescanUpdates`), and succeeds exactly when the source is small enough and has no file or
  link or the record has at most 16 paths (`RescanSucceedsExactly`).
- **Storages.** A removal, first or repeated, that has a use to spare of what it releases (every listed path that
  is still counted has more uses than other holders) never unmounts a mount point under another container,
  whatever the interleaving and whatever fails (`NeverUnmountedInUse`). A first
  removal always has (`FirstIsSound`); when a repeated one has is characterised (`RepeatIsSoundExactly`); the
  code does not rule out that it has not (`RetryUnmountsInUse`). After any run at all, unsound repeats
  included, a removal unmounts exactly what its list drains, that is what it lists as often as it is counted
  (`UnmountsExactly`), and does harm exactly if another container uses that (`HarmsExactly`); where no list has
  duplicates these are the listed paths with count one (`UnmountsCountOne`, `HarmsCountOne`). What a removal
  does not unmount it orphans exactly if no other list has it (`ReleasedExactly`). When a release fails is exact
  (`ReleaseFailsExactly`), and so is, from the steps alone, who uses a path (`UsesExactly`). A path that is counted but on
  no list is not unmounted by any removal of any run (`OrphanForever`), and shared paths end so
  (`SharedIsLeaked`).
- **Exit status.** Every waiter that returns a status had registered for a process that was reaped with that status
  and no other, and the process is removed by exactly one of them (`ExitAgreement`); which processes are listed
  is exact over every run (`TableExactly`); a waiter that lost the race never blocks while it holds the
  sandbox lock (`NoStuckWaiter`), and no broadcast waits for room (`ChannelsStayShort`).
- **Hotplug events.** The map holds exactly the devices added and neither added again nor removed since
  (`EventsExactly`), so a wait is answered at once exactly if one of them matches (`AnsweredAtOnceExactly`). No
  recorded event matches a watcher that is still armed (`NoLostEvent`), every request is sent exactly the first
  matching event added after its wait (`FirstMatchIsSent`, `SentSinceWait`), and saved indices never go stale
  (`SlotOwnership`). The `unwrap` on timeout aborts exactly when an event was sent between the timer
  and the lock (`TimeoutAbortsExactly`), and some run gets there (`TimeoutCanAbort`).
- **PCI.** The texts that the parsers accept, and what they read, are characterised for slots with or without a
  function, addresses and paths of any length (`ParseSlotFnExactly`, `ParseAddressExactly`, `ParsePathExactly`);
  printing and parsing are inverse. Translating an environment
  entry with a map and then its inverse gives its canonical printing back (`TranslateEntryBack`), which is the
  entry itself exactly when its addresses are written so (`TranslateBackExactly`); some map undoes all translations
  exactly when the map is one-to-one (`RoundTripExactly`). Which entries are translated, and to what, is exact
  (`EntryExactly`).
- **Device numbers.** The update of the specification is one simultaneous renumbering: exactly the rules with the
  kind and both numbers of an updated device get its new numbers (`RuleIsUpdated`), with an exact condition for
  success. Updating back restores the devices exactly when no earlier device ends up at
  the path of a changed one (`UndoDevicesExactly`), and devices and rules exactly when moreover no other rule
  carries the guest key of an updated device that is first at its path (`UndoExactly`).
- **Monitor.** Goroutines are counted by running state and stop tokens, channels are closed once and never used
  afterwards, and a watcher loses none of the first 128 failures (`GoroutinesCounted`, `ClosedOnce`, `InOrder`).
  What it is sent, and how many goroutines, tokens and pending reports there are, is told by the steps alone
  (`SentSinceRegistration`, `CountsExactly`).
  A stop that waits for room in the stop channel can finish exactly when some goroutine is not itself waiting for
  the monitor lock (`StopFinishesExactly`), and a run that ends in the deadlock exists (`DeadlockIsReachable`).
- **File copies.** The host's parts and the guest's assembly together deliver the file, once and whole, exactly when
  the leftover temporary file is shorter than the file, or of its size and overwritten by one part
  (`SentExactly`). What arrives otherwise is exact as well (`ArrivesExactly`): a longer leftover keeps the old
  destination, one of the same size puts zeros in place of the first part. Where there was no leftover, sending a
  file of several parts again after a failure delivers it exactly unless the failure left the whole file under
  the temporary name (`ResendExactly`); that runs into the second case (`ResendSpoils`).
- **Numbers.** `revertBytes` equals the base-1000 digits read in base 1024 exactly below 16 * 1000^6
  (`RevertBytesExactly`), which covers every configured rate divided by 8 (`BucketSizeIsMeant`).

Where code and text disagree the model follows the code. The error texts of the watcher say that counts must be
below 16 and 1 MiB, the conditions also accept equality. The comment on the entry limit speaks of all entries,
but the limit is enforced at files and links only (`DirectoriesAreNotCounted`). The ACRN pool has a placeholder with
index 8 that an update refuses. An event is taken for memory only if its device path is written without a leading
slash (`MemoryExactly`).

## Model

| member | source | states |
|---|---|---|
| WatcherWalk.WalkOrdered | src/agent/src/watcher.rs:255-266 | a recursive scan of a tree with distinct names visits no path twice and every directory before what it holds |
| WatcherWalk.ListingSize | src/agent/src/watcher.rs:204-278 | a walk visits as many distinct paths as it has visits |
| WatcherWalk.ListingClosed | src/agent/src/watcher.rs:204-278 | every proper prefix of a visited path is visited as a directory |
| WatcherWalk.FitsCountConcat | src/agent/src/watcher.rs:236-242 | the entry limit holds over two stretches of a walk iff it holds over the first and then over the second |
| WatcherStorage.PruneStep | src/agent/src/watcher.rs:168-182 | deleting vanished paths one at a time in any order gives the same target as deleting them together |
| WatcherStorage.Storage.MakeDirs | src/agent/src/watcher.rs:114-116 | the loops over the prefixes create a directory and its missing ancestors and nothing else, iff nothing but directories is in the way; otherwise nothing changes |
| WatcherStorage.Storage.UpdateTarget | src/agent/src/watcher.rs:82-149 | copying one entry succeeds iff its parents can be made and its kind may replace what is there; success leaves a file with its content, a link with its destination, or a directory at its path |
| WatcherStorage.Storage.RemoveFromTarget | src/agent/src/watcher.rs:168-182 | exactly the vanished paths and everything below a vanished directory are gone, nothing else changes |
| WatcherStorage.Storage.ScanLeaf | src/agent/src/watcher.rs:222-242 | a file or link is recorded, listed if new or newer, and refused over 16 records |
| WatcherStorage.Storage.ScanPath | src/agent/src/watcher.rs:204-278 | the recursive scan records and lists exactly the walk of the tree and returns its exact size, or stops at the first visit that breaks a limit, with that limit's error and the walk up to it recorded |
| WatcherStorage.Storage.PruneRecord | src/agent/src/watcher.rs:158-165 | exactly the recorded paths that no longer exist are dropped and returned |
| WatcherStorage.Storage.CopyAll | src/agent/src/watcher.rs:194-198 | every listed entry is copied in order, failures notwithstanding |
| WatcherStorage.Storage.Scan | src/agent/src/watcher.rs:151-201 | a scan succeeds iff the limits hold; then state and count are those of the specification; otherwise it fails at the first visit that breaks a limit, with that limit's error, vanished paths have left the target and the walk up to that visit is recorded, uncopied |
| WatcherMirror.RecordedIs | src/agent/src/watcher.rs:226-253 | a walk overwrites the record with exactly the tree's paths and times |
| WatcherMirror.ChangedIs | src/agent/src/watcher.rs:226-252 | an entry is listed for copying iff it was visited and is new, or newer and no directory |
| WatcherMirror.UpdateAll | src/agent/src/watcher.rs:107-149 | when every copy finds its parents and an entry it may replace, all copies together complete the image |
| WatcherMirror.PruneExact | src/agent/src/watcher.rs:158-182 | pruning the image of a tree keeps exactly the paths that still exist |
| WatcherMirror.KeptIsListed | src/agent/src/watcher.rs:159 | if the changes can be followed, a recorded path that exists is in the new tree and not merely reached through a link |
| WatcherMirror.CopiesRespectKinds | src/agent/src/watcher.rs:82-94 | copies never remove an entry and change it only by a copy that its kind admits |
| WatcherMirror.AlikeExactly | src/agent/src/watcher.rs:82-94 | two entries have the same copy iff they are files of the same content, links of the same destination, or directories |
| WatcherMirror.CarriesGivesMirror | src/agent/src/watcher.rs:151-201 | a scan turns a mirror of the old tree into one of the new tree if the changes can be followed |
| WatcherMirror.MirrorNeedsCarries | src/agent/src/watcher.rs:82-149 | if the scan leaves a mirror, the change at every common path was one a scan can follow |
| WatcherMirror.ScanMirrorsExactly | src/agent/src/watcher.rs:151-201 | mirror after the scan iff every change can be followed |
| WatcherMirror.RunMirrorsExactly | src/agent/src/watcher.rs:151-201 | over any run of successful scans: a mirror after every scan iff every step can be followed |
| WatcherMirror.SteadyRunMirrors | src/agent/src/watcher.rs:44-53 | a source whose paths keep their kind and whose changes of content or destination raise the modification time is mirrored after every scan |
| WatcherContent.WalkExactly | src/agent/src/watcher.rs:255-266 | a recursive scan visits exactly the entries of the tree, each at its path |
| WatcherContent.ListingExactly | src/agent/src/watcher.rs:204-278 | the listing of a tree holds exactly its entries |
| WatcherContent.ExistsExactly | src/agent/src/watcher.rs:159 | a recorded path exists iff it is a file or directory of the tree or leads through a link of it to something |
| WatcherContent.WalkSize | src/agent/src/watcher.rs:204-278 | the size that a scan adds up is that of all files and links of the tree |
| WatcherContent.MirrorExactly | src/agent/src/watcher.rs:107-149 | a mirror holds every file with its content, every link with its destination and every directory, records their times, and has nothing else |
| WatcherContent.SteadyRunShows | src/agent/src/watcher.rs:44-53 | after every scan of a steady run the target shows exactly the entries of the tree that was scanned |
| WatcherLimits.FitsCountExactly | src/agent/src/watcher.rs:236-242 | the entry limit holds iff there is no file or link, or the known paths and those visited up to the last file or link number at most 16 |
| WatcherLimits.SuccessBoundsLeaves | src/agent/src/watcher.rs:236-277 | a successful scan saw at most 16 files and links of at most 1 MiB together |
| WatcherLimits.SmallTreeSucceeds | src/agent/src/watcher.rs:204-278 | a tree of at most 16 entries and 1 MiB is accepted once vanished paths are pruned |
| WatcherLimits.DirectoriesAreNotCounted | src/agent/src/watcher.rs:243-267 | a tree of directories alone is accepted, however large |
| WatcherLimits.RescanUpdates | src/agent/src/watcher.rs:151-201 | after a scan from any state, rescanning the unchanged source reports its dangling links only and keeps the record; without any, nothing changes |
| WatcherLimits.ScannedRests | src/agent/src/watcher.rs:158-182 | every scan leaves a record of the tree's paths and times and of earlier paths that still exist, nothing else |
| WatcherLimits.RescanSucceedsExactly | src/agent/src/watcher.rs:204-278 | after a scan from any state, rescanning the unchanged source succeeds iff it is at most 1 MiB and has no file or link, or the record, paths found through a link included, has at most 16 paths |
| WatcherLimits.RescanOfTree | src/agent/src/watcher.rs:204-278 | where the record is exactly the tree, that is iff the tree has at most 16 entries or no file or link |
| WatcherLimits.RecordExactly | src/agent/src/watcher.rs:158-165 | after a scan the record is exactly the tree iff no recorded path is found only through a link |
| WatcherRecovery.UnblockedCopies | src/agent/src/watcher.rs:107-149 | copies that nothing blocks leave exactly the copied entries, their missing ancestors and what was there |
| WatcherRecovery.MirrorsFromExactly | src/agent/src/watcher.rs:151-201 | from any record and target: a mirror after the scan iff no recorded path is found only through a link, nothing foreign is left in the target, and every entry is copied, there already, or a directory above a copy |
| WatcherRecovery.UncopiedStays | src/agent/src/watcher.rs:226-234 | a recorded file or link that the target lacks keeps every scan from mirroring until it becomes newer |
| WatcherRecovery.LostByFailure | src/agent/src/watcher.rs:335-385 | so it is with what a failed scan recorded, where the storage goes on being watched because no bind mount could replace it |
| WatcherLoss.FailureLoses | src/agent/src/watcher.rs:335-385 | every tree of 17 entries that fits otherwise and ends in a file or link: the scan fails at the last entry; without that entry a scan succeeds from the state before and from the one left by the failure, and the latter does not mirror the source |
| WatcherLoss.FolderLoses | src/agent/src/watcher.rs:335-385 | such sources exist: a directory of 16 small files, of which one is then deleted |
| StorageCounts.StillCountedExactly | src/agent/src/rpc.rs:293-297 | the mount points to release are exactly the listed ones still counted, each once if listed once |
| StorageCounts.ReleaseTakesOne | src/agent/src/rpc.rs:300-302 | releasing distinct mount points takes at most one from the count of each, exactly one without a failure, and unmounts only last uses, all of them without a failure |
| StorageCounts.ReleaseForeign | src/agent/src/rpc.rs:300-302 | a mount point that is not listed keeps its count and stays mounted |
| StorageCounts.ReleaseSucceeds | src/agent/src/rpc.rs:300-302 | without faults the release of distinct counted mount points succeeds |
| StorageCounts.ReleaseStops | src/agent/src/rpc.rs:300-302 | the first failure leaves the rest of the list alone |
| StorageCounts.ReleaseExactly | src/agent/src/rpc.rs:300-302 | for any list, duplicates or not: a release without faults succeeds iff nothing is listed more often than counted, and unmounts exactly what some stretch it gets through lists as often as counted |
| StorageCounts.FaultsCutShort | src/agent/src/rpc.rs:300-302 | faults unmount nothing that the release without faults would not |
| StorageCounts.DrainedOnce | src/agent/src/rpc.rs:300-302 | on a list without duplicates that is what is listed and counted once |
| StorageCounts.ReleaseFailsExactly | src/agent/src/sandbox.rs:151-171 | for any list and any faults: a release fails iff it reaches a path with no use left, or a last use whose unmount or deletion fails, and unmounts exactly the last uses it reaches that can be unmounted |
| StorageCounts.Sandbox.SetSandboxStorage | src/agent/src/sandbox.rs:108-119 | one more use of the path, and whether it is the first |
| StorageCounts.Sandbox.UnsetSandboxStorage | src/agent/src/sandbox.rs:131-143 | one use less; the last takes the entry away; an unknown path is an error |
| StorageCounts.Sandbox.UnsetAndRemoveSandboxStorage | src/agent/src/sandbox.rs:151-171 | fails iff the path is unknown or its last use cannot be unmounted or its directory not deleted; unmounts iff it is the last use and can be; the count is gone in any case |
| StorageCounts.Sandbox.MountsToRelease | src/agent/src/rpc.rs:291-298 | the container's listed mount points that are still counted, in order |
| StorageCounts.Sandbox.ReleaseMounts | src/agent/src/rpc.rs:300-302 | the loop releases in order up to the first failure |
| StorageCounts.Sandbox.RemoveContainerResources | src/agent/src/rpc.rs:286-307 | the container is forgotten iff every release succeeded |
| StorageSafety.ReleaseIsCounted | src/agent/src/sandbox.rs:131-171 | a release with a use to spare of each path keeps every other holder counted |
| StorageSafety.StepKeepsInv | src/agent/src/mount.rs:629-697 | every locked step, repeated removals with a use to spare included, keeps: counts at least the holders, each path on one live list once, holders hold what they asked for |
| StorageSafety.RunKeepsInv | src/agent/src/mount.rs:629-697 | so does every guarded run |
| StorageSafety.FirstIsSound | src/agent/src/rpc.rs:286-307 | the first removal of a container always has a use to spare |
| StorageSafety.NoRepeatsIsGuarded | src/agent/src/rpc.rs:286-307 | so a run without repeated removals is guarded |
| StorageSafety.OnlyHolder | src/agent/src/rpc.rs:286-307 | what a removal with a use to spare unmounts is held by no other container |
| StorageSafety.NeverUnmountedInUse | src/agent/src/rpc.rs:286-307 | in every interleaving, and whatever fails, such a removal unmounts nothing that another running or starting container uses |
| StorageSafety.FirstRemovalIsHarmless | src/agent/src/rpc.rs:286-307 | in particular no first removal does in a run without repeats |
| StorageSafety.GuardExactly | src/agent/src/sandbox.rs:131-143 | a use to spare of everything listed is exactly what keeps all holders counted |
| StorageSafety.RepeatIsSoundExactly | src/agent/src/rpc.rs:300-306 | after a failed removal the repeat is sound iff all that was released and is still counted had more uses than holders |
| StorageHistory.WantedExactly | src/agent/src/mount.rs:629-697 | what a container is recorded to want is what its last creation asked for |
| StorageHistory.RunningExactly | src/agent/src/rpc.rs:286-307 | the running containers are those started with no removal attempted since |
| StorageHistory.ClaimedExactly | src/agent/src/mount.rs:629-697 | a creation in progress has claimed the first of its paths, as many as it made claims |
| StorageHistory.UsesExactly | src/agent/src/mount.rs:629-697 | over every run, by its steps: a container uses a path iff it runs and asked for it, or is being created and has claimed it |
| StorageHistory.NeverUnmountedUnderUser | src/agent/src/rpc.rs:286-307 | a removal with a use to spare unmounts nothing that another container uses in that sense |
| StorageRemovals.UnmountsExactly | src/agent/src/rpc.rs:286-307 | after every run, unsound repeats included, any removal without faults unmounts exactly what its list drains |
| StorageRemovals.HarmsExactly | src/agent/src/rpc.rs:286-307 | it unmounts something under another container iff another uses what its list drains |
| StorageRemovals.FaultsAddNoHarm | src/agent/src/sandbox.rs:151-156 | in any state, failing unmounts and deletions make no removal harmful that would not be without them |
| StorageRemovals.ListsAreDistinct | src/agent/src/mount.rs:629-697 | no list names a path twice if no container asks for one twice, or if all removals had a use to spare |
| StorageRemovals.UnmountsCountOne | src/agent/src/rpc.rs:286-307 | in such runs, unsound repeats included in the first case, a removal unmounts exactly the listed paths with count one |
| StorageRemovals.HarmsCountOne | src/agent/src/rpc.rs:286-307 | and does harm iff one of them is used by another |
| StorageExamples.RetryUnmountsInUse | src/agent/src/rpc.rs:300-306 | a guarded run after which repeating a failed removal unmounts a path in use, for any two containers and paths |
| StorageLeaks.StepKeepsOrphan | src/agent/src/mount.rs:643-649 | no locked step, repeated removals included, lists or unmounts a path that is counted but on no list |
| StorageLeaks.OrphanForever | src/agent/src/mount.rs:643-649 | such a path stays so to the end of every run, and no removal after it unmounts it |
| StorageLeaks.ReleasedExactly | src/agent/src/sandbox.rs:131-171 | after every run: a removal without failures unmounts a listed path iff it is counted as often as listed, and orphans it iff it is counted more often and no other list, live or failed, has it |
| StorageLeaks.SharedIsOrphaned | src/agent/src/mount.rs:643-649 | while no removal has failed, that is iff its count is more than one |
| StorageLeaks.SharedIsLeaked | src/agent/src/mount.rs:643-649 | a run in which two containers share a path, both are removed, and it stays mounted |
| ProcessExit.BroadcastOnce | src/agent/src/rpc.rs:550-553 | every watcher still listening gets the code once, nobody else gets anything |
| ProcessExit.StepKeepsInv | src/agent/src/rpc.rs:491-558 | every locked section keeps the invariant on processes, channels and waiters |
| ProcessExit.RunKeepsInv | src/agent/src/rpc.rs:491-558 | so does every run |
| ProcessExit.ExitAgreement | src/agent/src/rpc.rs:526-557 | a waiter with a status registered for a process that was reaped with that status and no other, and the process was removed by exactly one waiter |
| ProcessExit.ChannelsStayShort | src/agent/src/rpc.rs:501-553 | no exit channel holds more than one message |
| ProcessExit.NoStuckWaiter | src/agent/src/rpc.rs:526-542 | a waiter that lost the race finds on its channel exactly the code its process was reaped with, or an empty channel without sender if the container was replaced |
| ProcessExit.FinishReturnsCode | src/agent/src/rpc.rs:526-557 | winner or loser, a waiter of a reaped process in a live container returns the code it was reaped with |
| ProcessExit.ExitsAreReaps | src/agent/src/signal.rs:45-73 | over every run: a code is recorded for a process iff it was reaped with it while listed |
| ProcessExit.TableExactly | src/agent/src/rpc.rs:526-557 | over every run: a process is listed, with its container and exec id, iff it was started so, its container was not removed since and no waiter removed it |
| ProcessExit.ContainersExactly | src/agent/src/rpc.rs:286-307 | over every run: a container is there, with its init process, iff it was created so and not removed since |
| ProcessExit.WaitersExactly | src/agent/src/rpc.rs:491-558 | over every run: a waiter exists iff it registered, and has returned or failed iff it finished or was cancelled |
| ProcessExit.RemovedByWaiter | src/agent/src/rpc.rs:544-557 | what was removed by a waiter, a waiter has returned for |
| ProcessExitSandbox.Sandbox.FindContainerProcess | src/agent/src/sandbox.rs:234-247 | finds a process that the id names in the container, the init process for the empty id, and fails iff there is none |
| ProcessExitSandbox.Sandbox.HandleChild | src/agent/src/signal.rs:45-73 | a known child gets the reported exit code or signal number and its sender is dropped; nothing else about it or the table changes, and other reports are ignored |
| ProcessExitSandbox.Sandbox.RegisterWaiter | src/agent/src/rpc.rs:510-518 | takes the registration step for a process that the id names, or changes nothing iff there is none |
| ProcessExitSandbox.Sandbox.SendToWatchers | src/agent/src/rpc.rs:550-553 | the loop is the broadcast and no send finds a full channel |
| ProcessExitSandbox.Sandbox.FinishWaiter | src/agent/src/rpc.rs:526-557 | takes the finishing step and returns what the step records |
| UeventRendezvous.OfferAllSlots | src/agent/src/uevent.rs:89-96 | an added event empties exactly the slots whose matcher it satisfies |
| UeventRendezvous.OfferAllRequest | src/agent/src/uevent.rs:89-96 | it is sent once, to exactly the owners of those slots |
| UeventRendezvous.StepKeepsInv | src/agent/src/uevent.rs:68-162 | every locked section, timer and delivery keeps the invariant |
| UeventRendezvous.RunKeepsInv | src/agent/src/uevent.rs:68-162 | so does every run |
| UeventRendezvous.NoLostEvent | src/agent/src/uevent.rs:117-140 | no recorded event satisfies a watcher that is still armed |
| UeventHistory.EventsExactly | src/agent/src/uevent.rs:85-103 | over every run, by its steps: the map holds a device with an event iff that event added it and it was neither added again nor removed since |
| UeventHistory.AnsweredAtOnceExactly | src/agent/src/uevent.rs:124-131 | a wait finds a recorded event iff a device was added with a matching one and neither added again nor removed since |
| UeventHistory.MemoryExactly | src/agent/src/uevent.rs:69-81 | an event is taken for memory iff its device path begins with devices/system/memory |
| UeventRendezvous.FirstMatchIsSent | src/agent/src/uevent.rs:83-96 | a request is sent exactly the first matching event added since it registered, unless it timed out before |
| UeventHistory.LogIsAdded | src/agent/src/uevent.rs:85-86 | the events recorded are the ones that add devices other than memory, in order |
| UeventHistory.SentSinceWait | src/agent/src/uevent.rs:117-158 | over every run, by its steps: a request was made by a wait, and sent the first matching event added since, or gave up when none had been |
| UeventHistory.PhaseExactly | src/agent/src/uevent.rs:117-162 | a request exists iff a wait registered it, is answered iff it received, and has timed out or aborted iff it was disarmed |
| UeventRendezvous.SlotOwnership | src/agent/src/uevent.rs:137-158 | a saved index names the request's own slot throughout; the slot is armed, emptied by one event, or emptied by its timeout |
| UeventRendezvous.TimeoutAbortsExactly | src/agent/src/uevent.rs:148-157 | the timeout finds an empty slot and aborts iff an event was sent to the request, and otherwise empties the slot and times out |
| UeventRendezvous.TimeoutCanAbort | src/agent/src/uevent.rs:146-150 | a run that reaches this, for every event and request |
| UeventSandbox.Sandbox.ProcessAdd | src/agent/src/uevent.rs:68-97 | the loop over the slots is the processing step; memory is not recorded |
| UeventSandbox.Sandbox.ProcessRemove | src/agent/src/uevent.rs:100-103 | forgets the device |
| UeventSandbox.Sandbox.WaitForUevent | src/agent/src/uevent.rs:124-140 | returns a recorded match iff there is one, otherwise takes the registration step |
| UeventSandbox.Sandbox.DisarmWatcher | src/agent/src/uevent.rs:149-156 | takes the timeout step; fails where the agent aborts |
| Text.SplitJoin | src/agent/src/pci.rs:165-183 | splitting joined pieces without separators gives the pieces back |
| Text.HexRoundTrip | src/agent/src/pci.rs:91-95 | a number printed in hexadecimal at any width reads back as itself |
| Text.ParseSignedExactly | src/agent/src/pci.rs:80-84 | a text is read as a number iff it is that number in hexadecimal digits of either case, at any width, with an optional sign, within 64 bits |
| Text.ParseUnsignedExactly | src/agent/src/pci.rs:114-142 | the same for domain and bus, with their maxima |
| Text.ReprintJoined | src/agent/src/device.rs:619-628 | reading a comma list and printing it again gives the text itself iff each piece is what its value prints as |
| Text.TranslateEach | src/agent/src/device.rs:619-626 | translating a list succeeds iff every text parses to a mapped value, and prints the images in order |
| Pci.NewSlotFn | src/agent/src/pci.rs:27-63 | packs iff both numbers are in range; slot and function read back |
| Pci.Repacked | src/agent/src/pci.rs:54-63 | every byte is the packing of its slot and function |
| Pci.ParsePrintSlotFn | src/agent/src/pci.rs:66-95 | a printed slot and function parses to itself |
| Pci.ParsePrintAddress | src/agent/src/pci.rs:114-142 | every address survives printing and parsing |
| Pci.ParsePrintPath | src/agent/src/pci.rs:165-183 | every non-empty path of any length survives printing and parsing |
| Pci.CanonicalIsStable | src/agent/src/pci.rs:114-183 | printing what was parsed keeps its meaning and is stable, for every accepted text |
| Pci.VfioOptionRoundTrip | src/agent/src/device.rs:702-711 | an option built from a printed address and path is decoded to that pair |
| PciSpelling.Layout | src/agent/src/pci.rs:27-63 | slot and function are the upper five and the lower three bits |
| PciSpelling.ParseSlotFnExactly | src/agent/src/pci.rs:66-89 | a text is read as a slot and function iff it spells the slot alone and the function is 0, or the slot, a dot and the function |
| PciSpelling.SlotAlone | src/agent/src/pci.rs:81-85 | every slot, printed at any width, is read as that slot with function 0 |
| PciSpelling.ParseAddressExactly | src/agent/src/pci.rs:114-136 | a text is read as an address iff it spells domain, bus and slot with colons between them |
| PciSpelling.ParsePathExactly | src/agent/src/pci.rs:165-183 | a text is read as a path iff it spells its slots, at least one, in order with slashes between them |
| PciSpelling.PrintedForm | src/agent/src/pci.rs:91-142 | addresses are printed as DDDD:BB:SS.F |
| DeviceEnv.UpdateEnvPci | src/agent/src/device.rs:601-632 | the entries are translated in place; on failure exactly those before the offending one are |
| EnvEntries.TranslateOne | src/agent/src/device.rs:606-628 | the body for one entry is the specified translation |
| DeviceEnv.TranslatedExactly | src/agent/src/device.rs:606-628 | succeeds iff the entry is well formed and all its addresses are mapped; names, order and other entries stay, addresses become their images |
| DeviceEnv.EntryExactly | src/agent/src/device.rs:601-632 | for all texts: an entry is translated to another iff it has another name and stays, or is a PCIDEVICE_ name with known addresses separated by commas and becomes the name with what they map to |
| EnvEntries.PrintedMeaning | src/agent/src/device.rs:617-628 | the printed form of a PCI entry means what it was printed from |
| DeviceEnv.TranslateEntryBack | src/agent/src/device.rs:601-632 | translating with a map and then its inverse gives the canonical printing of the entry |
| DeviceEnv.TranslateBackExactly | src/agent/src/device.rs:601-632 | it gives the entry itself iff its addresses are written as they would be printed |
| DeviceEnv.RoundTripExactly | src/agent/src/device.rs:601-632 | some map undoes every translation iff the map is one-to-one |
| DeviceSpec.KeyedUpdatesExactly | src/agent/src/device.rs:544-556 | the numbers collected for rules are exactly those of the updated devices, by host key |
| DeviceSpec.KeysExactly | src/agent/src/device.rs:544-549 | keys agree iff kind, major and minor do, so a character and a block device with equal numbers are told apart |
| DeviceSpec.RuleIsUpdated | src/agent/src/device.rs:572-592 | a rule with the kind, major and minor of an updated device gets the numbers of its update, every other rule is unchanged |
| DeviceSpec.DevicesAreUpdated | src/agent/src/device.rs:521-542 | the first device of each path with an update gets its numbers and final path, and nothing else changes |
| DeviceSpec.NoClashExactly | src/agent/src/device.rs:544-556 | the loop meets a key twice iff two updated devices share type and host numbers |
| DeviceSpec.RemainingNothing | src/agent/src/device.rs:560-570 | no update is left over iff every update names a device |
| DeviceSpec.Spec.UpdateDevices | src/agent/src/device.rs:521-558 | only the first device of each path is updated; stops at the first conflict |
| DeviceSpec.Spec.UpdateRules | src/agent/src/device.rs:572-592 | each rule is looked up once by its old numbers |
| DeviceSpec.Spec.UpdateSpecDevices | src/agent/src/device.rs:514-595 | succeeds iff there is a linux section, every update names a device and no two updated devices agree in kind, major and minor; then exactly the first device of each path and the rules about it get the update; a failure leaves the rules alone and a prefix of the devices updated |
| DeviceSpecLaws.RulesFollowDevices | src/agent/src/device.rs:572-592 | a rule that had an updated device's kind and numbers has them afterwards too, every other rule is unchanged |
| DeviceSpecLaws.UndoDevicesExactly | src/agent/src/device.rs:521-542 | updating back, paths included, restores every device iff no device before a changed one ends up at its path |
| DeviceSpecLaws.UndoExactly | src/agent/src/device.rs:514-595 | where both updates are accepted, devices and rules are restored iff no device before a changed one ends up at its path and no rule that named no updated first device carries the guest key of one |
| DeviceSpecLaws.UndoAccepted | src/agent/src/device.rs:544-556 | the update back is accepted iff the devices that come first at a path some update led to have different guest keys; if every change can be traced these are the updated devices that come first |
| DeviceSpecLaws.UndoKeptPaths | src/agent/src/device.rs:514-595 | updates that keep all paths are undone iff every rule either named an updated device or does not carry the guest key of one |
| MonitorModel.StepKeepsInv | src/runtime/virtcontainers/monitor.go:48-140 | every locked section, token and receive keeps the invariant |
| MonitorModel.RunKeepsInv | src/runtime/virtcontainers/monitor.go:48-140 | so does every run |
| MonitorModel.GoroutinesCounted | src/runtime/virtcontainers/monitor.go:55-74 | live goroutines are the stop tokens plus one if running; none left means stopped without tokens |
| MonitorModel.StopFinishesExactly | src/runtime/virtcontainers/monitor.go:111-127 | some continuation of the run lets a waiting stop finish iff not every live goroutine is waiting for the lock it holds |
| MonitorModel.DeadlockIsReachable | src/runtime/virtcontainers/monitor.go:79-127 | a run that ends with the stop and both goroutines waiting for each other |
| MonitorModel.ClosedOnce | src/runtime/virtcontainers/monitor.go:98-139 | no send on a closed channel, no channel closed twice, and exactly the unwatched channels are closed |
| MonitorModel.InOrder | src/runtime/virtcontainers/monitor.go:79-109 | a watcher is sent a subsequence, in order, of the failures since its registration, with none of the first 128 missing |
| MonitorHistory.RunningExactly | src/runtime/virtcontainers/monitor.go:48-140 | over every run, by its steps: the monitor runs iff a watcher was registered and no stop completed since |
| MonitorHistory.CountsExactly | src/runtime/virtcontainers/monitor.go:55-127 | goroutines are starts less tokens taken, tokens are completed stops less tokens taken, pending reports are ticks less reports |
| MonitorHistory.LogIsFailures | src/runtime/virtcontainers/monitor.go:79-91 | the failures that count are those reported while the monitor ran |
| MonitorHistory.ReportReaches | src/runtime/virtcontainers/monitor.go:92-108 | a report reaches exactly the open watchers that have room for it |
| MonitorHistory.SentSinceRegistration | src/runtime/virtcontainers/monitor.go:48-140 | by the steps: a watcher is sent, in order and without losing any of the first 128, what is reported from its registration to the first completed stop, which closes it |
| MonitorObject.Monitor.NewWatcher | src/runtime/virtcontainers/monitor.go:48-77 | takes the registration step |
| MonitorObject.Monitor.Notify | src/runtime/virtcontainers/monitor.go:79-109 | takes the notification step |
| MonitorObject.Monitor.SendAll | src/runtime/virtcontainers/monitor.go:92-108 | the loop of sends that do not wait, ended by a closed channel |
| MonitorObject.Monitor.Stop | src/runtime/virtcontainers/monitor.go:111-140 | takes the stop step: nothing if not running, done if there is room for the token, waiting otherwise |
| MonitorObject.Monitor.Resume | src/runtime/virtcontainers/monitor.go:123-139 | takes the step of a stop that waited, once there is room |
| MonitorObject.Monitor.FinishStop | src/runtime/virtcontainers/monitor.go:123-139 | with room for the token, leaves it, closes the channels and marks the monitor stopped |
| MonitorObject.Monitor.CloseAll | src/runtime/virtcontainers/monitor.go:129-139 | the loop of closes, ended by a channel that is closed already |
| CopyFile.TmpCollides | src/agent/src/rpc.rs:1735-1736 | the temporary file is the destination iff the destination's extension is tmp |
| CopyFile.FaultKeepsDestination | src/agent/src/rpc.rs:1721-1759 | a fault shows as an error and leaves all but the temporary file alone, unless only the reply is lost; a request that succeeds has its full effect |
| CopyFile.TouchesOnly | src/agent/src/rpc.rs:1713-1736 | a request changes nothing but its destination and the temporary file, and nothing unless the destination is the base directory or below it |
| CopyFile.OnePart | src/agent/src/rpc.rs:1738-1759 | one part lies over what was written before, and is renamed into place iff the announced size is reached |
| CopyFile.AssembledExactly | src/agent/src/rpc.rs:1735-1759 | for every split into parts in order and every accepted path: renamed with the last part and not before, whole, iff the leftover is harmless |
| CopyFile.UntouchedBefore | src/agent/src/rpc.rs:1744-1749 | before the last part only the temporary file differs |
| CopyFile.MovedEarly | src/agent/src/rpc.rs:1744-1759 | a leftover of the announced size is renamed at the first of several parts |
| CopyFile.SpoiledExactly | src/agent/src/rpc.rs:1738-1759 | the file that arrives then has zeros in place of its first part, and is right iff that part is zeros |
| CopyFile.LongerLeftoverBlocks | src/agent/src/rpc.rs:1745-1749 | a longer leftover is overwritten and never renamed |
| CopyFile.ArrivesExactly | src/agent/src/rpc.rs:1735-1759 | what the destination holds after a transfer, for every leftover |
| CopyFile.TmpDestinationExactly | src/agent/src/rpc.rs:1735-1749 | a destination with extension tmp is unchanged before the last part iff the parts so far are a prefix of it |
| CopyFile.TmpDestinationArrives | src/agent/src/rpc.rs:1735-1759 | in the end it holds the file iff the old one was not longer; otherwise the old tail follows |
| CopyFileDirs.DirsKept | src/agent/src/rpc.rs:1717-1733 | whatever fails, no directory goes and no mode changes but that of the destination's parent; once data can be written all directories above the destination are there and the parent has the mode sent along |
| CopyFileTransfer.Guest.DoCopyFile | src/agent/src/rpc.rs:1710-1762 | handles one request as specified, files and directories, with a fault at any of its operations |
| CopyFileTransfer.Guest.MakeDirs | src/agent/src/rpc.rs:1725-1731 | makes the missing directories on the way down to a depth and leaves all others as they are |
| CopyFileTransfer.Guest.WriteTmp | src/agent/src/rpc.rs:1738-1744 | opens or creates the temporary file and writes all or some of the data at its offset |
| CopyFileTransfer.Guest.Finish | src/agent/src/rpc.rs:1751-1759 | sets mode and owner and renames, stopping where it fails |
| CopyFileTransfer.ChunksJoin | src/runtime/virtcontainers/kata_agent.go:2116-2141 | the parts join to the file |
| CopyFileTransfer.ChunksSplit | src/runtime/virtcontainers/kata_agent.go:2125-2138 | no part exceeds the maximum and none is empty unless the file is |
| CopyFileTransfer.CopyToGuest | src/runtime/virtcontainers/kata_agent.go:2087-2144 | the host's loop has the guest handle the parts in order up to the first that fails; on success all directories above the destination are there; without faults it succeeds iff the agent accepts the path |
| CopyFileTransfer.SentExactly | src/runtime/virtcontainers/kata_agent.go:2122-2141 | the file arrives, once, whole, with the mode, uid and gid sent along, and with no other file changed, iff the leftover is shorter, or of the same size and the file fits in one part |
| CopyFileTransfer.ResendSpoils | src/runtime/virtcontainers/kata_agent.go:2122-2141 | sending several parts again after the last stat, rename, mode or owner failed delivers a file that begins with zeros |
| CopyFileTransfer.LeftLength | src/agent/src/rpc.rs:1738-1759 | what a failed part leaves under the temporary name has the size of the file iff it was the last part and only its completion failed |
| CopyFileTransfer.ResendExactly | src/runtime/virtcontainers/kata_agent.go:2122-2141 | from no leftover, after a failure of any part with any fault, sending again assembles the file iff the failure was not one of the last part after its write (or of its reply, at a destination that is its own temporary file) |
| RateLimiter.DigitsRoundTrip | src/runtime/virtcontainers/fc.go:1278-1285 | base-1000 digits determine the number |
| RateLimiter.RevertedIncreases | src/runtime/virtcontainers/fc.go:1278-1285 | the conversion is strictly increasing and at least its input |
| RateLimiter.RevertBytesWraps | src/runtime/virtcontainers/fc.go:1278-1285 | the 64-bit result is the digits read in base 1024, reduced to 64 bits |
| RateLimiter.RevertBytesExactly | src/runtime/virtcontainers/fc.go:1278-1285 | the result is exact iff the number is below 16 * 1000^6 |
| RateLimiter.NoWrapExactly | src/runtime/virtcontainers/fc.go:1278-1285 | no intermediate exceeds 64 bits iff the number is below the same limit |
| RateLimiter.BucketSizeIsMeant | src/runtime/virtcontainers/fc.go:938-971 | for every 64-bit rate, rate / 8 is converted exactly, without wrapping, and increasingly |
| RateLimiter.LimitWrapsToZero | src/runtime/virtcontainers/fc.go:1284 | the limit itself comes out as zero |
| AcrnSlots.Launch.AppendDevices | src/runtime/virtcontainers/acrn_arch_base.go:463-547 | every valid device gets the next slot; the table holds the slot of the last block device of each index |
| AcrnSlots.AttachedExactly | src/runtime/virtcontainers/acrn_arch_base.go:370-510 | a device gets an argument iff it is complete: kind, names and paths as its type demands |
| AcrnSlots.SlotsIncrease | src/runtime/virtcontainers/acrn_arch_base.go:532-547 | slots increase strictly and skip the reserved one |
| AcrnSlots.TableIsSlotExactly | src/runtime/virtcontainers/acrn_arch_base.go:471-475 | the table holds a device's own slot iff no later block device has its index |
| AcrnSlots.BuildDevices | src/runtime/virtcontainers/acrn.go:231-353 | bridge, LPC, console, image and the placeholders 1 to 8, unless the image, the console or the block index is missing |
| AcrnSlots.Launch.UpdateBlockDevice | src/runtime/virtcontainers/acrn.go:536-564 | refuses swap, an empty file and indices from 8 on, aborts on a negative index; otherwise rescans the slot in the table and reports success even if the command fails |
| AcrnSlots.RescanReachesPlaceholder | src/runtime/virtcontainers/acrn.go:336-353 | for any added devices, the slot for an index is that of the image or placeholder made for it iff no valid added block device has the index |
| OnlineCpus.CandidatesExactly | src/agent/src/sandbox.rs:392-419 | the entries switched on are, each once, those that match, read as offline and can be written, up to a read failure |
| OnlineCpus.MatchesExactly | src/agent/src/sandbox.rs:388-398 | a name matches iff the prefix followed by a digit occurs anywhere in it |
| OnlineCpus.OnlineResources | src/agent/src/sandbox.rs:388-427 | switches on the first num of them, or all if num is not positive; fails iff the listing breaks off first |
| OnlineCpus.MeetsExactly | src/agent/src/sandbox.rs:437-451 | the retries meet a request iff some round is the first by which the listings offer enough, those before it are intact and it is there |
| OnlineCpus.OnlineAll | src/agent/src/sandbox.rs:434-458 | a positive request never turns into an unlimited one, never switches on more than asked, and succeeds, with exactly that many switched on, iff some round is the first by which enough is offered |

## Left out

- Single-file sources of the watcher, and special files such as pipes: the mirror is about directory sources.
- Changes of the source while a scan runs: a scan sees one tree; the next scan may see any other.
- WatcherStorage.Storage.UpdateTarget: a copy of a file onto a link in the target is a failed copy here; the code writes through the link to where it leads, which is not modelled. Either way the link stays where the source has a file, so there is no mirror.
- The bind mount that replaces a watched source that grew too large, and the interval timer of the watcher.
- StorageSafety.NeverUnmountedInUse: says nothing of a removal without a use to spare; `StorageRemovals.HarmsExactly` says when such a removal does harm at once. A removal of an id without container is a step as well: with a timeout the code performs it.
- Roll-back of the storages of a creation that failed: the code does none, and its claims stay counted.
- Mount handlers, unmounting, deleting and waiting for children are inputs: each may succeed or fail, or yields an arbitrary status.
- ProcessExit.ExitAgreement: pids are not reused during a run; the process tables of all containers are one map by pid.
- Counters are unbounded: wrap-around of a storage count after 2^32 uses is not modelled.
- Uevent messages are not parsed here: an event is a record, a matcher any function on it.
- `add_devices` itself: it collects the updates and calls the two functions that are modelled.
- The monitor's ticker and what it pings: a goroutine may find a failure at any time. A consumer that closes its own channel, and the caller's wait for the goroutines after a stop, are not steps of the model.
- CopyFileTransfer.Guest.DoCopyFile: a directory in the place of a file, or the reverse, is a fault; paths that alias through links or `..` are not modelled. Two transfers whose destinations differ only in the extension share a temporary file, and the model takes one transfer at a time.
- The text of ACRN arguments beyond slot and device, UUID handling and the other launch options.
- OnlineCpus.OnlineAll: sysfs is an arbitrary listing per round; that a CPU switched on is offline again in a later listing is not excluded. Memory is brought online by the same loop.
- Logging, tracing, the async runtime, gRPC plumbing, networking and the other hypervisors.
