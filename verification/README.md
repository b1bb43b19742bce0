# Dump management: a verified model

This project models the dump lifecycle of an OpenBMC system in Dafny: the managers that issue dump
ids, start children, react to exits and file events in any order, keep quotas by evicting, and
rebuild themselves after a restart; and the tools around them that collect, transfer, label and
offload dumps.

Each manager is a class whose methods update its fields in place, as the program's objects do. What a
method does to the state is a specification function; the lemmas are about these functions, and every
method's postcondition is the connection. Callbacks of one event loop do not interleave inside, so a
run is a sequence of events. What a process cannot know beforehand (whether a fork succeeds, what a
device answers, how much a write takes) is a parameter of the event, and the lemmas hold for all of it.

| files | subject |
|---|---|
| `nvidia_manager.dfy`, `nvidia_runs.dfy`, `nvidia_effects.dfy` | NVIDIA system dumps: exclusion of types, retimer mode, ids, null slots, and what each callback achieves |
| `faultlog_quota.dfy`, `ordered_ids.dfy` | fault log quotas by count and by measured space |
| `bmc_manager.dfy`, `bmc_rotation.dfy`, `bmc_runs.dfy`, `bmc_blocked.dfy`, `bmc_effects.dfy` | BMC dumps: rotation by a running total, the user flag, persistence, blocked rotation, ids and written dumps |
| `dump_name.dfy` | dump file names |
| `nsm_transfer.dfy` | the record transfer of the NSM network dump tool |
| `openpower.dfy`, `openpower_system.dfy`, `openpower_resource.dfy` | dumps mirrored from the host |
| `dreport_budget.dfy` | the size budget of a dump report |
| `elog_watch.dfy` | at most one dump per error log |
| `inotify.dfy` | the inotify buffer parser |
| `offload.dfy` | offloading over a unix socket |
| `ibm_header.dfy` | the IBM dump header |

`dafny verify dfyconfig.toml` checks everything. Automatic induction is switched off for every lemma;
inductions are written out.

Findings, each proved below:

- A failed fork blocks its type for the life of the process, unless the type is the empty one or a child
  or an entry of the type is left that can still release it: exactly then every later request for it is
  refused (`NvidiaRuns.ForkFailureLocks`, `NvidiaRuns.LockedIsForever`, `NvidiaRuns.LockedRuns`).
- A file event that overtakes the exit of its child lets a second child of the type start
  (`NvidiaRuns.FileKeepsDistinct`, `NvidiaRuns.FileBeforeExitAllowsTwo`).
- A child that fails after its entry was deleted leaves a null slot, which the next eviction that
  reaches it follows (`NvidiaRuns.NullSlotOrigin`, `NvidiaRuns.NullSlotCrashes`).
- The first id issued after a restart is above the last one issued before if and only if a directory at
  least as new is left; otherwise ids are used again (`NvidiaRuns.ForgettingReissues`,
  `NvidiaRuns.IdRecursAfterRestart`).
- The BMC running total is right after n deletions if and only if the directory started within its
  total or nothing has been freed yet (`BmcRotation.RunningIsRecomputed`), for entries whose files lie in
  the directories of their ids; in general one deletion keeps it right if and only if what is measured is
  what is freed (`BmcRotation.DeletionTracksDisk`).
- An oldest BMC entry without a directory, such as a dump that failed before writing anything, makes
  every request throw while space is short, until it is deleted, the process restarts or space is freed
  (`BmcBlocked.BlockedThrowsAtOnce`, `BmcBlocked.BlockedRuns`).
- The fault log manager raises QuotaExceeded if and only if the minimum is positive and the allowed size
  without any entry would be 0; if that size is positive but below the minimum the dump starts all the
  same (`FaultLogQuota.Manager.MakeRoom`).
- A switch dump can be erased before its bytes were saved. All bytes were saved if and only if no copy
  was cut short by a failing read, which saveRecord reports as success, and no record with bytes follows
  the last one saved, which a failing next-handle read hides (`NsmTransfer.WholeChainSaved`; each failure
  alone suffices: `NsmTransfer.FailingReadErases`, `NsmTransfer.FailingNextErases`).
- After a failing copy of a file given with its directory, the partial copy stays in the report,
  unaccounted (`DreportBudget.BudgetNeedsCleanUp`).
- In the IBM header the system name takes 33 bytes, so the serial number starts at offset 97; the
  comment in `tools/dreport.d/ibm.d/gendumpheader` puts it at 96. The same comment leaves out one
  separator of the file entry and calls its type BMCDUMP where the code writes BMPDUMP. Ids of more
  than eight digits overflow their field (`IbmHeader.DumpHeaderLayout`, `IbmHeader.IdFieldFits`).
- A notification follows a pointer to an entry it has just deleted if and only if it is for the invalid
  source id, some entry has no source, and every such entry has another size and can be deleted. Two such
  notifications on a new manager suffice (`OpenPowerSystem.DanglesExactly`,
  `OpenPowerSystem.TwoInvalidNotificationsDangle`).
- A failed creation of a user dump's entry leaves its child running without the flag
  (`BmcRuns.EntryFailureBreaksFlag`).

## Model

| member | source | states |
|---|---|---|
| NvidiaRuns.RunsAreExclusive | dump-extensions/nvidia-dumps/dump_manager_system.cpp:88-98 | In every interleaving of requests, exits, file events, deletions, restores and restarts without fork failures: each type in progress has a watched child of that type, the two retimer dumps are never both in progress, a link dump in progress implies the retimer is in debug mode, and with no child watched nothing is in progress |
| NvidiaRuns.GuardedStep | dump-extensions/nvidia-dumps/dump_manager_system.cpp:653-656 | One callback keeps a watched child for every type in progress |
| NvidiaRuns.ExclusiveStep | dump-extensions/nvidia-dumps/retimer_debug_mode_state.cpp:117-128 | One callback, fork failures included, keeps the retimer dumps exclusive and debug mode on while a link dump is in progress |
| NvidiaRuns.RetimerRuns | dump-extensions/nvidia-dumps/dump_manager_system.cpp:537-542 | The two retimer properties hold in every run whatsoever |
| NvidiaRuns.RestoreOnlyClears | dump-extensions/nvidia-dumps/dump_manager_system.cpp:809-827 | Restoring never starts a child and only removes types from the in-progress set; debug mode is left alone while the link dump stays in it |
| NvidiaRuns.ForkFailure | dump-extensions/nvidia-dumps/dump_manager_system.cpp:679-685 | After a failed fork every type in progress still has a child if and only if an earlier child of the requested type is still watched |
| NvidiaRuns.LockedRuns | dump-extensions/nvidia-dumps/dump_manager_system.cpp:88-98 | Lockout: once a type is locked, every later request for it, or for the other retimer type, is refused until the process ends |
| NvidiaRuns.LockedIsForever | dump-extensions/nvidia-dumps/dump_manager_system.cpp:542-544 | A type in progress stays so in every run the process lives through if and only if it is locked: not the empty type, no child of it watched, no live entry of it |
| NvidiaRuns.ForkFailureLocks | dump-extensions/nvidia-dumps/dump_manager_system.cpp:679-685 | A failed fork locks the type if and only if the type is not the empty one and no child or entry of it is left after the eviction |
| NvidiaRuns.Release | dump-extensions/nvidia-dumps/dump_manager_system.cpp:713-730 | Every type that is not locked is released by one exit, one file event, or two events of a new file |
| NvidiaRuns.FailedForkFromStart | dump-extensions/nvidia-dumps/dump_manager_system.cpp:679-685 | In a new process one failed fork of a type other than the empty one refuses that type ever after |
| NvidiaRuns.LockedStep | dump-extensions/nvidia-dumps/dump_manager_system.cpp:690-730 | No callback that leaves the process alive can end such a lockout |
| NvidiaRuns.FileKeepsDistinct | dump-extensions/nvidia-dumps/dump_manager_system.cpp:726 | A file event keeps the watched children of distinct types, all in progress, if and only if no child of its entry's type is still watched |
| NvidiaRuns.OneChildPerType | dump-extensions/nvidia-dumps/dump_manager_system.cpp:88-98 | If every exit is handled before its file event there is at most one watched child per type, and the two retimer children are never watched together; failed forks included |
| NvidiaRuns.FileBeforeExitAllowsTwo | dump-extensions/nvidia-dumps/dump_manager_system.cpp:713-729 | Without that order a three-event run ends with two live children of one type |
| NvidiaRuns.KeysBelowRuns | dump-extensions/nvidia-dumps/dump_manager_system.cpp:818-819 | In runs with restarts and crashes too, every key and every id a callback holds stays at most the last issued id |
| NvidiaRuns.RecoveredRunsRemember | dump-extensions/nvidia-dumps/dump_manager_system.cpp:809-819 | If at every restart, after a crash or not, a directory covers the last id issued before, the last id ends at least at every key held at any point of the run |
| NvidiaRuns.RestartRemembers | dump-extensions/nvidia-dumps/dump_manager_system.cpp:809-819 | A restart keeps the last issued id if and only if a directory at least as new is left |
| NvidiaRuns.ForgettingReissues | dump-extensions/nvidia-dumps/dump_manager_system.cpp:809-819 | The first id issued after a restart is above the last one issued before if and only if a directory at least as new is left |
| NvidiaRuns.RestoreKeepsKeysBelow | dump-extensions/nvidia-dumps/dump_manager_system.cpp:800-828 | Restore raises the last id to cover every restored key |
| NvidiaRuns.CreateAddsOne | dump-extensions/nvidia-dumps/dump_manager_system.cpp:100-119 | An accepted request issues the next id, adds exactly one entry under it, and keeps of the others exactly the youngest LIMIT - 1 |
| NvidiaRuns.CreatedIdIsFresh | dump-extensions/nvidia-dumps/dump_manager_system.cpp:549 | After any run, restarts and crashes included: one id serves the child's arguments, its exit callback and the new entry, and is above every key held then; above every key held at any earlier point if at every restart a directory covered the last id |
| NvidiaRuns.IdRecursAfterRestart | dump-extensions/nvidia-dumps/dump_manager_system.cpp:800-828 | Otherwise an id recurs: create, delete, restart, create |
| NvidiaRuns.LimitedKeepsYoungest | dump-extensions/nvidia-dumps/dump_manager_system.cpp:50-78 | Eviction by count keeps a suffix of the ids of the right size, with unchanged entries |
| NvidiaRuns.NullSlotOrigin | dump-extensions/nvidia-dumps/dump_manager_system.hpp:108-116 | While the process lives, a null slot appears if and only if a child fails after its entry was deleted, and then stays |
| NvidiaRuns.NullSlotCrashes | dump-extensions/nvidia-dumps/dump_manager_system.hpp:108-116 | A run of a creation, a deletion and a failed exit after which the next request crashes in the eviction |
| NvidiaEffects.RestoresExactlyListed | dump-extensions/nvidia-dumps/dump_manager_system.cpp:800-828 | After restoring any listing an id is a key if and only if it was one or a listed file carries it; a new one is a completed dump with its file, a live listed entry is completed with its type kept, all others are unchanged |
| NvidiaEffects.RestartKnowsListed | dump-extensions/nvidia-dumps/dump_manager_system.cpp:809-827 | A restarted process has exactly the listed dumps, all completed, and nothing in progress |
| NvidiaEffects.FileCompletes | dump-extensions/nvidia-dumps/dump_manager_system.cpp:712-745 | A written file completes the live entry of its id, ends its type and, for a link dump, the debug mode, or adds a completed entry; nothing else changes |
| NvidiaEffects.RequestOutcome | dump-extensions/nvidia-dumps/dump_manager_system.cpp:86-131 | Exactly when a request is accepted, and exactly when it meets each error, in terms of the types in progress, the space, the tools and the fork |
| NvidiaEffects.FailedRequest | dump-extensions/nvidia-dumps/dump_manager_system.cpp:432-688 | A request that is not accepted leaves, beside the eviction, a type in progress unless the watch failed, debug mode for a link dump, and if its entry failed the child with a used-up id |
| NvidiaEffects.ExitEffect | dump-extensions/nvidia-dumps/dump_manager_system.cpp:639-656 | The exit of a watched child takes it and its type out of the watch, and marks the live entry of its id failed if and only if the status says so |
| NvidiaEffects.DeleteEffect | dump_manager.cpp:8-11 | Deleting a live entry removes it and nothing else |
| NvidiaEffects.DeleteAllEmpties | dump_manager.cpp:13-22 | Deleting everything crashes if and only if there is a null slot, and otherwise empties the entries and nothing else |
| NvidiaManager.Manager.LimitDumpEntries | dump-extensions/nvidia-dumps/dump_manager_system.cpp:50-78 | The eviction loop keeps exactly the youngest entries, and crashes exactly when an entry to evict is a null slot |
| NvidiaManager.Manager.CreateDump | dump-extensions/nvidia-dumps/dump_manager_system.cpp:80-131 | The method's new state and result are those of the create step the run lemmas are about |
| NvidiaManager.Manager.StartDump | dump-extensions/nvidia-dumps/dump_manager_system.cpp:86-131 | The part of createDump after the eviction |
| NvidiaManager.Manager.CaptureDump | dump-extensions/nvidia-dumps/dump_manager_system.cpp:432-688 | Parent side of a capture: an unreadable partition, too little space or an unknown type changes nothing, a failed fork leaves the type in progress, a failed watch takes it out again and issues no id |
| NvidiaManager.Manager.OnChildExit | dump-extensions/nvidia-dumps/dump_manager_system.cpp:639-656 | Failure mark, removal of the child and of its type |
| NvidiaManager.Manager.CreateEntry | dump-extensions/nvidia-dumps/dump_manager_system.cpp:712-745 | A file completes its entry or adds one |
| NvidiaManager.Manager.DeleteEntry | dump_manager.cpp:8-11 | Deleting removes exactly one live entry |
| NvidiaManager.Manager.OnDeleteAll | dump_manager.cpp:13-22 | The walk over all entries deletes everything, or crashes on a null slot |
| NvidiaManager.Manager.OnRestore | dump-extensions/nvidia-dumps/dump_manager_system.cpp:800-828 | The walk over the directories, in any order given, restores as specified |
| NvidiaManager.Manager.EventLoop | dump-extensions/nvidia-dumps/dump_manager_system.cpp:759-792 | Callbacks in sequence produce the state of the run |
| FaultLogQuota.SurvivorsAreLongestSuffix | dump-extensions/faultlog-dump/dump_manager_faultlog.cpp:54-122 | The survivors of both quota steps are the longest suffix of the ids with fewer than LIMIT entries and the minimum space: the acceptable suffixes are exactly those inside it; files of all others are gone |
| FaultLogQuota.RoomIsUnique | dump-extensions/faultlog-dump/dump_manager_faultlog.cpp:124-130 | That result depends on the store and the options alone |
| FaultLogQuota.Manager.MakeRoom | dump-extensions/faultlog-dump/dump_manager_faultlog.cpp:124-130 | Both loops leave the longest acceptable suffix, or crash exactly if a null slot is to be evicted; decided beforehand: QuotaExceeded if and only if the minimum is positive and the allowed size without any entry is 0, and a start below the minimum if and only if that size is positive but below it; otherwise, with rotation, the kept bytes and the minimum fit into the total, up to the last kilobyte |
| FaultLogQuota.OutcomeIsForeseen | dump-extensions/faultlog-dump/dump_manager_faultlog.cpp:84-122 | Whether there is enough space in the end, or none at all, depends only on what is on the disk without any entry |
| FaultLogQuota.RoomIsMade | dump-extensions/faultlog-dump/dump_manager_faultlog.cpp:54-122 | The two steps together make the shortest oldest-first eviction that meets count and space |
| FaultLogQuota.Manager.LimitDumpEntries | dump-extensions/faultlog-dump/dump_manager_faultlog.cpp:54-82 | The count loop evicts exactly the excess, oldest first, or crashes exactly if that includes a null slot |
| FaultLogQuota.Manager.LimitTotalDumpSize | dump-extensions/faultlog-dump/dump_manager_faultlog.cpp:84-122 | The space loop stops at the first eviction that leaves enough, or crashes exactly if it has to evict a null slot before; with rotation off nothing is evicted and too little space is an error |
| FaultLogQuota.Manager.GetAllowedSize | dump-extensions/faultlog-dump/dump_manager_faultlog.cpp:579-612 | The free size recomputed from the disk, in whole kilobytes that fit together with the bytes in use, capped by the maximum |
| FaultLogQuota.AllowedMeasures | dump-extensions/faultlog-dump/dump_manager_faultlog.cpp:579-612 | The allowed size in bytes: with it the disk stays below one kilobyte above its total, and unless it is the maximum the rest of the total is in use |
| FaultLogQuota.MeasuresOneSize | dump-extensions/faultlog-dump/dump_manager_faultlog.cpp:579-612 | No other size has that property |
| FaultLogQuota.CalculateDirectorySize | dump-extensions/faultlog-dump/dump_manager_faultlog.cpp:561-577 | The recursive accumulator is the total size of all regular files at any depth |
| FaultLogQuota.EvictedIsKeep | dump-extensions/faultlog-dump/dump_manager_faultlog.cpp:97-108 | Evicting one by one equals deleting at once everything but a suffix, files included |
| FaultLogQuota.SuffixIsEvicted | dump-extensions/faultlog-dump/dump_manager_faultlog.cpp:70-78 | Every suffix is reached by some number of evictions |
| FaultLogQuota.AllowedGrows | dump-extensions/faultlog-dump/dump_manager_faultlog.cpp:579-612 | Evicting more never lowers the allowed size |
| FaultLogQuota.MinimumAboveMaximumKeepsNothing | dump-extensions/faultlog-dump/dump_manager_faultlog.cpp:600-609 | If the minimum exceeds the maximum every entry is evicted |
| OrderedIds.DropOldestIsSuffix | dump-extensions/faultlog-dump/dump_manager_faultlog.cpp:70-78 | Dropping the n smallest ids leaves a suffix of the expected size |
| OrderedIds.SuffixesAreChain | dump-extensions/faultlog-dump/dump_manager_faultlog.cpp:70-78 | Suffixes of one id set are ordered by size |
| OrderedIds.TotalRemove | dump-extensions/faultlog-dump/dump_manager_faultlog.cpp:561-577 | Removing one directory takes exactly its size off a total |
| OrderedIds.TotalShrinks | dump-extensions/faultlog-dump/dump_manager_faultlog.cpp:561-577 | Removing directories never grows a total |
| BmcRotation.RunningTracksDisk | dump_manager_bmc.cpp:352-363 | Conservation: after n deletions the running total has gained what the disk has lost |
| BmcRotation.DeletionTracksDisk | dump_manager_bmc.cpp:354-362 | One deletion keeps an exact running total exact if and only if the measured directory is as large as the one the entry's file lies in |
| BmcRotation.RunningIsRecomputed | dump_manager_bmc.cpp:340-363 | Over entries in place the running total equals the recomputed free space if and only if the directory started within its total or nothing has been freed; it overstates what is left of the total by exactly the initial excess |
| BmcRotation.RunningGrows | dump_manager_bmc.cpp:360 | The running total never decreases |
| BmcRotation.DeletionsAreShortest | dump_manager_bmc.cpp:352-363 | The loop deletes the fewest oldest entries that bring the total to the minimum |
| BmcRotation.RotateResult | dump_manager_bmc.cpp:350-381 | The loop's entries, disk and result in closed form |
| BmcRotation.RotateSucceeds | dump_manager_bmc.cpp:352-363 | Over any entries rotation yields an allowance if and only if enough is measured in the directories of some number of oldest entries, each live and with its directory when it is reached |
| BmcRotation.RotateStops | dump_manager_bmc.cpp:352-363 | Over any entries: the state the loop stops in, and which of its four ends it takes, in terms of the entries it has passed |
| BmcRotation.PlacedRotateSucceeds | dump_manager_bmc.cpp:352-363 | If every entry is live with a file in its directory: if and only if deleting all of them would free enough |
| BmcRotation.RotateAgrees | dump_manager_bmc.cpp:340-381 | The incremental rotation gives the same entries, disk and result as one that measures the disk after every deletion |
| BmcRotation.RotateStopsEarlier | dump_manager_bmc.cpp:348-363 | With an overstated total it evicts no more than the measuring one |
| BmcRotation.FilesKbRoundsUp | dump_manager_bmc.cpp:327-338 | Per-file rounding never understates the bytes and overstates them by less than a kilobyte for each file |
| BmcRotation.AllowanceFits | dump_manager_bmc.cpp:340-381 | For MIN <= MAX the allowance lies between them and fits with the space in use into the total, up to the initial excess; in bytes too if there was none |
| BmcManager.Manager.GetAllowedSize | dump_manager_bmc.cpp:340-381 | The loop over entries and running total gives the specified entries, disk and allowance, and its error ends |
| BmcManager.Manager.GetDirectorySize | dump_manager_bmc.cpp:327-338 | The size accumulator is the sum of the files' sizes, each rounded up |
| BmcManager.Manager.GetFreeSize | dump_manager_bmc.cpp:342-348 | Free kilobytes, 0 if the directory is over its total |
| BmcManager.Manager.CreateDump | dump_manager_bmc.cpp:66-106 | The new state and result of a request: flag test, rotation, child, id, entry, flag |
| BmcManager.Manager.OnChildExit | dump_manager_bmc.cpp:141-160 | Failure mark, flag reset, removal of the child |
| BmcManager.Manager.CreateEntry | dump_manager_bmc.cpp:188-237 | A file updates and persists its entry or adds one |
| BmcManager.Manager.DeleteEntry | bmc_dump_entry.cpp:16-31 | Deleting removes the entry and the directory of its file; a dump in progress frees nothing |
| BmcManager.Manager.OnDeleteAll | dump_manager.cpp:13-22 | The walk deletes all entries with their files, or crashes on a null slot |
| BmcManager.Manager.RestoreAll | dump_manager_bmc.cpp:282-325 | The result of restore does not depend on the order in which directories are visited |
| BmcManager.Manager.RestoreDirectory | dump_manager_bmc.cpp:300-322 | One directory: the first file that deserializes wins |
| BmcManager.Manager.EventLoop | dump_manager_bmc.cpp:239-274 | Callbacks in sequence produce the state of the run |
| BmcRuns.FlagImpliesUserChild | dump_manager_bmc.cpp:66-70 | In every run, entry-creation failures included, the user flag is set only while a user child is watched |
| BmcRuns.EntryFailureBreaksFlag | dump_manager_bmc.cpp:87-104 | A started user dump keeps the flag exact if and only if its entry was created |
| BmcRuns.OneUserChild | dump_manager_bmc.cpp:138-160 | Without such failures the flag is set exactly while one user child is watched, and there are never two |
| BmcRuns.OnDiskRuns | bmc_dump_entry.hpp:150-166 | In every run each completed entry agrees with its directory and its persisted origin |
| BmcRuns.OnDiskAfterRotate | dump_manager_bmc.cpp:352-363 | Rotation keeps the agreement between entries and disk |
| BmcRuns.OnDiskAfterUpdate | dump_entry.cpp:66-106 | Completing an entry and persisting it makes entry and directory agree |
| BmcRuns.RestoredKeepsDisk | dump_entry.cpp:108-171 | Restoring tidy directories changes no file and yields the entry each directory describes |
| BmcRuns.RestoredOneDump | bmc_dump_entry.hpp:184-204 | Round trip of one directory through deserializeEntry |
| BmcRuns.RestartGivesBackCompleted | dump_manager_bmc.cpp:282-325 | After any run a restart restores every completed entry with the same id, originator, times, size and file, and the last id is at least every restored id |
| BmcRuns.RunsGrantWhatFits | dump_manager_bmc.cpp:340-381 | Whenever every entry is live and has its file, after any run, rotation agrees with measuring the disk each time and the allowance fits in bytes |
| BmcBlocked.BlockedThrowsAtOnce | dump_manager_bmc.cpp:354-360 | A request that passes the user flag throws at once, changing nothing, if and only if space is short and the oldest entry has no directory |
| BmcBlocked.ThrowingLeavesBlocked | dump_manager_bmc.cpp:354-362 | A request that throws over a missing directory leaves the manager blocked, whatever it deleted before |
| BmcBlocked.BlockedRuns | dump_manager_bmc.cpp:352-363 | A blocked manager stays blocked, and starts no dump, through requests, exits, writes and file events that free no space and give the oldest entry no directory |
| BmcBlocked.MeasuredCoversFreed | dump_manager_bmc.cpp:360-362 | Over entries in place the running total never understates the free space |
| BmcEffects.KeysBelowRuns | dump_manager_bmc.cpp:108-186 | In every run with issued ids keys and the ids callbacks hold stay at most the last issued one, restarts included |
| BmcEffects.CreateIssuesNext | dump_manager_bmc.cpp:66-106 | After any run an accepted request issues the id after the last one, above every key, and leaves the entries rotation kept, one more in progress with its originator and time, and a child that holds the id |
| BmcEffects.RequestOutcome | dump_manager_bmc.cpp:66-106 | Exactly when a request is accepted, and exactly when it meets each error |
| BmcEffects.FailedStart | dump_manager_bmc.cpp:108-186 | A failed fork or watch leaves only the rotation behind; a failed entry also leaves its child and a used-up id |
| BmcEffects.ExitEffect | dump_manager_bmc.cpp:141-160 | An exit marks the live entry of the child's id failed if and only if the status says so, and resets the flag of a user's child |
| BmcEffects.DeleteEffect | bmc_dump_entry.cpp:16-31 | Deleting a live entry removes it and the directory of its file, and nothing else |
| BmcEffects.DeleteAllEmpties | dump_manager.cpp:13-22 | Deleting everything without a null slot leaves no entry and no directory of any entry's file, and all other directories |
| BmcEffects.FileCompletes | bmc_dump_entry.hpp:150-166 | The event of a dump's file completes the live entry of its id with path, file size and the time of the name, keeping and persisting originator and start time; or it adds a completed entry |
| BmcEffects.FileIsGiven | dump_manager_bmc.cpp:188-237 | After the event of its file a dump is completed and is what a restart would give back |
| BmcEffects.RunKeepsGiven | dump_manager_bmc.cpp:239-274 | It stays so through every run in which its directory is neither evicted nor deleted, failures noted since aside |
| BmcEffects.HandledDumpIsGivenBack | dump_manager_bmc.cpp:282-325 | Every dump whose file was handled, and whose directory was neither evicted nor deleted since, is given back by a restart exactly as the file event left it |
| BmcEffects.RestartReadsDisk | dump_manager_bmc.cpp:282-325 | A restart over any disk: a directory yields an entry if and only if the name of some file in it carries its number; the first such file counts, with the persisted origin if version and id fit; an origin of another id is removed when read, and no other file changes |
| BmcEffects.RestoresFirst | dump_entry.cpp:108-171 | The same of one directory with any files in any order |
| BmcRuns.LastCovers | dump_manager_bmc.cpp:300-301 | The last id after restore is at least every restored id, whatever the directories hold |
| BmcRuns.DreportNamesItsFile | tools/dreport.d/dreport:215-217 | A directory holding one file named by dreport meets the naming assumption of the persistence results |
| DumpName.NameRoundTrip | dump_utils.cpp:56-78 | The parser reads back id and time from every name dreport writes |
| DumpName.DecimalRoundTrip | dump_utils.cpp:73-76 | Reading a printed number gives the number |
| DumpName.MatchAtStart | dump_utils.cpp:61-66 | The pattern matches such a name at its start and captures id and time |
| DumpName.MatchesExactly | dump_utils.cpp:61-66 | The scan matches at a position, with two captures, if and only if the text there has the shape of the pattern with these captures; there is never a choice |
| DumpName.RefusedExactly | dump_utils.cpp:66-71 | A name is refused if and only if it has that shape at no position |
| DumpName.FirstShapeCounts | dump_utils.cpp:66-77 | Otherwise the first such position counts: both numbers are read if they fit 64 bits, the id cut to 32, and else it throws |
| NsmTransfer.EraseComesLast | nsm-net-dump-tool/main.cpp:645-667 | For every device: an erase command follows a chain of records that were requested, polled to Success and handed to saveRecord with success, the last of which read 0 as next handle; only erase traffic follows it; Success needs an erase that reported Success, and any other result 3 errors or 1000 busy statuses |
| NsmTransfer.WholeChainSaved | nsm-net-dump-tool/main.cpp:441-457 | Before an erase all bytes of the device's chain were saved if and only if no copy was cut short by a failing read and the records after the last one saved hold nothing |
| NsmTransfer.WholeChainSavedUnlessEmpty | nsm-net-dump-tool/main.cpp:633-634 | Where every record holds something: if and only if no copy was cut short and the handle after the last record really is 0 |
| NsmTransfer.CopyIsWhole | nsm-net-dump-tool/main.cpp:441-445 | A copy is whole if and only if the reads before the first failing one can take the record |
| NsmTransfer.WholeMeansTaken | nsm-net-dump-tool/main.cpp:426-447 | No copy of a run was cut short if and only if the device let every stream it handed out be taken whole |
| NsmTransfer.HandlesOfChain | nsm-net-dump-tool/main.cpp:581-634 | The handles are those of the device's chain from its start; only the last next-handle read can have failed |
| NsmTransfer.FailingReadErases | nsm-net-dump-tool/main.cpp:441-457 | A device with one failing read and no failing next-handle read is erased with nothing saved |
| NsmTransfer.FailingNextErases | nsm-net-dump-tool/main.cpp:349-355 | A device with a failing next-handle read and no failing read is erased with half of its bytes saved |
| NsmTransfer.PollLoopIsBounded | nsm-net-dump-tool/main.cpp:602-623 | A poll loop makes at most 1002 reads and reaches at most one cap; when it ends, the last status was Success if and only if neither equality test holds |
| NsmTransfer.FlattenIsLinear | nsm-net-dump-tool/main.cpp:581-634 | Calls for saved records are linear in their number |
| NsmTransfer.SwitchDumpIsLinear | nsm-net-dump-tool/main.cpp:568-681 | The whole switch dump is linear in the number of records |
| NsmTransfer.ChainIsNoLonger | nsm-net-dump-tool/main.cpp:633-634 | No more records are fetched than the device's chain has, and all of them only if the chain has then ended |
| NsmTransfer.ObservesDevice | nsm-net-dump-tool/main.cpp:341-357 | The replies and bytes in a run are those of the device at the points of the run where they were given |
| NsmTransfer.Tool.SaveRecord | nsm-net-dump-tool/main.cpp:360-458 | For every chunking of the reads the bytes up to the first read that returns none are appended, and the counter grows by their number modulo 2^32 |
| NsmTransfer.Tool.RequestRecord | nsm-net-dump-tool/main.cpp:583-598 | At most three attempts, the last of which succeeded if the loop did |
| NsmTransfer.Tool.PollStatus | nsm-net-dump-tool/main.cpp:599-623 | Neither cap is reached if and only if the last status was Success |
| NsmTransfer.Tool.FetchRecord | nsm-net-dump-tool/main.cpp:583-633 | One round: a fetched segment, or nothing appended and the reason for the break |
| NsmTransfer.Tool.GetRecords | nsm-net-dump-tool/main.cpp:568-638 | At every exit the bytes appended are those of exactly segmentsCounter records in chain order, every reply being the device's |
| NsmTransfer.Tool.EraseDump | nsm-net-dump-tool/main.cpp:653-667 | The erase is sent again until its status is Success or one of the caps is reached, and not once more: no round starts after a Success or a cap, every command that was sent is followed by one status read, and a result other than Success means exactly 3 errors or exactly 1000 busy statuses; at most 1002 rounds |
| NsmTransfer.Tool.EraseRound | nsm-net-dump-tool/main.cpp:655-666 | One round: a command that fails, or one that is sent and the status read after it |
| NsmTransfer.ErasesAreBounded | nsm-net-dump-tool/main.cpp:653-667 | Both counts stay within their caps, below them if the erase succeeded; otherwise exactly one cap is reached |
| NsmTransfer.Tool.GetSwitchDump | nsm-net-dump-tool/main.cpp:568-681 | Every trace has the shape the protocol results are about; no copy is cut short if and only if the device let every stream be taken whole; for every device whose chain has n records the tool, watched for n records or more, ends within 1007 * (n + 1) + 2004 calls, and an erase finds all bytes saved exactly on the condition of WholeChainSaved |
| OpenPowerSystem.NotifyReconciles | dump-extensions/openpower-dumps/dump_manager_system.cpp:25-129 | The loop with deletions equals a loop-free reconciliation: repetition, stale entry deleted first, oldest pending request completed, or entry added |
| OpenPowerSystem.RunsAreConsistent | dump-extensions/openpower-dumps/dump_manager_system.cpp:201-226 | In every run an entry is pending exactly when it has no source, and no real source occurs twice |
| OpenPowerSystem.NotifyIsIdempotent | dump-extensions/openpower-dumps/dump_manager_system.cpp:44-95 | After a normal return exactly one entry holds the source, completed with the size; repeating changes nothing; a throwing one changed nothing |
| OpenPowerSystem.DanglesExactly | dump-extensions/openpower-dumps/dump_manager_system.cpp:67-95 | In every state, for every notification: a deleted entry is followed if and only if the notification is for the invalid source, some entry has no source, and every such entry has another size and can be deleted |
| OpenPowerSystem.NotifyForInvalid | dump-extensions/openpower-dumps/dump_manager_system.cpp:39-128 | What a notification for the invalid source does in any state: which entries are gone, even when it throws, which one is completed, and when one is added |
| OpenPowerSystem.TwoInvalidNotificationsDangle | dump-extensions/openpower-dumps/dump_manager_system.cpp:67-95 | Two notifications for the invalid source on a new manager follow a deleted entry, with nothing ever pending |
| OpenPowerSystem.ScanForReal | dump-extensions/openpower-dumps/dump_manager_system.cpp:67-85 | For a real source the entry kept for the update is never deleted, in any state |
| OpenPowerSystem.StepKeepsConsistent | dump-extensions/openpower-dumps/system_dump_entry.cpp:32-70 | Requests, notifications, deletions and offloads keep this |
| OpenPowerSystem.ScanWithHolder | dump-extensions/openpower-dumps/dump_manager_system.cpp:44-77 | With an entry of the source the loop ends there, fails there, or deletes it and goes on |
| OpenPowerSystem.ScanWithoutHolder | dump-extensions/openpower-dumps/dump_manager_system.cpp:79-85 | Without one the loop finds the oldest pending entry |
| OpenPowerSystem.GoesExactly | dump-extensions/openpower-dumps/system_dump_entry.cpp:32-70 | An entry goes if and only if it is deleted or another size is reported for its source, and the host is down, or it is not being offloaded and has no source or the host deletes its dump |
| OpenPowerSystem.OffloadedIsKept | dump-extensions/openpower-dumps/system_dump_entry.cpp:32-50 | Once its offload was started an entry outlives every run while the host is up, and if completed does not change |
| OpenPower.DeleteEffect | dump-extensions/openpower-dumps/resource_dump_entry.cpp:42-79 | A deletion removes the entry under exactly that condition, and nothing else |
| OpenPower.RequestEffect | dump-extensions/openpower-dumps/dump_manager_system.cpp:201-226 | While ids last a request adds one pending entry, without source and size, under a free id above all others |
| OpenPowerSystem.Manager.Notify | dump-extensions/openpower-dumps/dump_manager_system.cpp:25-129 | The loop over the entries yields the specified state |
| OpenPowerSystem.Manager.CreateDump | dump-extensions/openpower-dumps/dump_manager_system.cpp:201-226 | A request adds one pending entry under the next id |
| OpenPowerSystem.Manager.DeleteEntry | dump-extensions/openpower-dumps/system_dump_entry.cpp:32-70 | Deletion is refused while offloading or if the host fails it |
| OpenPowerResource.RunRefines | dump-extensions/openpower-dumps/dump_manager_resource.cpp:25-107 | In every run the manager refines a FIFO queue |
| OpenPowerResource.NotifyRefines | dump-extensions/openpower-dumps/dump_manager_resource.cpp:25-107 | A new source completes the oldest pending request or adds one completed entry; a replay changes nothing |
| OpenPowerResource.StepRefines | dump-extensions/openpower-dumps/dump_manager_resource.cpp:126-213 | Each event is matched by one step of the queue |
| OpenPowerResource.ScanFinds | dump-extensions/openpower-dumps/dump_manager_resource.cpp:36-63 | The loop finds a completed entry of the source if there is one, else the oldest pending entry |
| OpenPowerResource.CountsFromEmpty | dump-extensions/openpower-dumps/dump_manager_resource.cpp:25-107 | In deletion-free runs: completed entries are as many as distinct sources, entries as many as requests and unmatched notifications |
| OpenPowerResource.NotifyEffect | dump-extensions/openpower-dumps/dump_manager_resource.cpp:25-107 | A notification whose source no completed entry holds leaves a completed entry with this source and size in place of a pending one or as a new one, and every other entry as before; a replay changes nothing |
| OpenPowerResource.SizesFromEmpty | dump-extensions/openpower-dumps/dump_manager_resource.cpp:36-70 | In deletion-free runs a source is held with a size if and only if that size came with its first notification |
| OpenPowerResource.OffloadedIsKept | dump-extensions/openpower-dumps/resource_dump_entry.cpp:23-55 | Once its offload was started an entry outlives every run while the host is up, and if completed does not change |
| OpenPowerResource.Manager.Notify | dump-extensions/openpower-dumps/dump_manager_resource.cpp:25-107 | The loop over the entries yields the specified state |
| OpenPowerResource.Manager.CreateDump | dump-extensions/openpower-dumps/dump_manager_resource.cpp:126-213 | A request adds one pending entry under the next id |
| DreportBudget.RunsKeepBudget | tools/dreport.d/include.d/functions:83-132 | After any sequence of operations the kept files compress to at most the running size and the limit |
| DreportBudget.NewReportKeepsBudget | tools/dreport.d/include.d/functions:83-132 | A report that starts empty never exceeds its limit by more than an empty archive |
| DreportBudget.CheckKeepsBudget | tools/dreport.d/include.d/functions:83-132 | One check re-establishes this however large the checked file has become |
| DreportBudget.StepKeepsBudget | tools/dreport.d/include.d/functions:8-51 | Appends, copies, failures and rejections keep it |
| DreportBudget.BudgetNeedsCleanUp | tools/dreport.d/include.d/functions:38-43 | An operation keeps the budget of every report if and only if a failing copy leaves nothing behind or removes it |
| DreportBudget.RoomForAllRefusesNothing | tools/dreport.d/include.d/functions:102-130 | A limit with room for everything raw beside an empty archive removes nothing in any sequence of operations, although the running size counts a file again on every append: the report has the files of an unlimited one |
| DreportBudget.StepRefusesNothing | tools/dreport.d/include.d/functions:8-51 | One operation with such room leaves the files an unlimited one would, and adds no more raw bytes than it produces |
| DreportBudget.Dreport.CheckSizeOf | tools/dreport.d/include.d/functions:83-132 | The shell function's effect on files and running size |
| DreportBudget.Dreport.AddCmdOutput | tools/dreport.d/include.d/functions:8-27 | Append, remove on failure, check |
| DreportBudget.Dreport.AddCopyFile | tools/dreport.d/include.d/functions:33-51 | Copy under the base name, remove the given path on failure, check |
| DreportBudget.CheckVerdict | tools/dreport.d/include.d/functions:83-132 | A checked file is refused and removed if and only if it fits neither raw nor with the whole archive; otherwise it stays and the running size grows by what it was accepted by |
| DreportBudget.CommandEffect | tools/dreport.d/include.d/functions:8-27 | A failing command leaves nothing of its file, a successful one appends its output; other files are untouched |
| ElogWatch.RunsAttemptOnce | elog_watch.cpp:133-147 | With crashes anywhere a dump is attempted at most once between two removals of an error log, and memory equals disk whenever a callback has returned |
| ElogWatch.StepRemembers | elog_watch.cpp:171-180 | One callback or crash keeps this |
| ElogWatch.AttemptAppended | elog_watch.cpp:83-90 | An attempt for an id with none outstanding keeps at-most-once |
| ElogWatch.RemovalAppended | elog_watch.cpp:171-180 | A removal keeps it and ends the outstanding attempt |
| ElogWatch.SignalRequestsDump | elog_watch.cpp:133-141 | A first relevant signal does request a dump and remembers it on disk |
| ElogWatch.SignalEffect | elog_watch.cpp:133-147 | With a crash anywhere: which signals list the log in memory and on disk, and which attempt a dump |
| ElogWatch.RemovalEffect | elog_watch.cpp:171-180 | With a crash anywhere: a removal takes the log, and no other, off the list in memory and on disk unless it crashes before saving |
| ElogWatch.RemovedIsDumpedAgain | elog_watch.cpp:171-180 | A log announced again after its removal is dumped again |
| ElogWatch.RunsListOutstanding | elog_watch.cpp:133-180 | In every run without crashes the list holds exactly the logs with an attempt since their last removal |
| ElogWatch.Watch.AddCallback | elog_watch.cpp:83-147 | Insert, save, request, in that order, with a crash between any two |
| ElogWatch.Watch.DelCallback | elog_watch.cpp:171-181 | Erase and save |
| ElogWatch.Watch.constructor | elog_watch.cpp:47-55 | A new process starts with the persisted list |
| Inotify.Watch.Parse | watch.cpp:108-123 | For every buffer that begins with encoded events the loop ends at exactly the bytes read, and the map takes exactly the paths of selected events to the bits of the first of them |
| Inotify.RecordRoundTrip | watch.cpp:114-119 | Mask, length and name are read back from an encoded record at any position |
| Inotify.ReadsRecord | watch.cpp:112-123 | A record lies wholly within the bytes read, and the next offset is that of the next record |
| Inotify.FirstSelectedIsUnique | watch.cpp:117-120 | The map is determined by the events, so bytes behind them play no part |
| Inotify.FirstSelectedExtends | watch.cpp:119 | An existing key wins |
| Inotify.AndIsBitwise | watch.cpp:115 | The selected bits are those set in both masks |
| Inotify.NamelessReadsOn | watch.cpp:119 | A nameless record is read with an empty name if and only if a zero byte or nothing follows it |
| Inotify.Watch.Emplace | watch.cpp:114-120 | One turn of the loop as specified |
| Offload.LoopEnds | dump_offload.cpp:36-81 | The loop returns, throws or goes on according to the capacity before the first fatal turn alone, and has then written as much of the block as that allows |
| Offload.Socket.Write | dump_offload.cpp:36-81 | What is delivered is always a prefix of the buffer, and on normal return the whole buffer |
| Offload.OffloadedMeansDelivered | bmc_dump_entry.cpp:33-37 | Over any requests an entry is marked offloaded if and only if some request delivered the whole file |
| Offload.RequestDoneMeansDelivered | dump_offload.cpp:116-203 | A request returns normally if and only if it delivered the whole file |
| Offload.NotInSetOffloadsNothing | dump_offload.cpp:145-146 | In the branch where select reports readiness without the socket in the set, which a single descriptor cannot reach, the entry is marked offloaded with nothing sent |
| Offload.Entry.RequestOffload | dump_offload.cpp:116-203 | Result of a request, and a prefix of the file delivered in every case |
| Offload.Entry.InitiateOffload | bmc_dump_entry.cpp:33-37 | The flag is set only after a request that returned |
| IbmHeader.FileEntrySize | tools/dreport.d/ibm.d/gendumpheader:105-118 | The file entry is 0x40 bytes, as its size bytes say, if and only if serial number, id field and time stamp have 29 characters together; for a regular serial number and time stamp, if and only if the id has at most eight digits |
| IbmHeader.FileEntryLayout | tools/dreport.d/ibm.d/gendumpheader:105-118 | Eye catcher, size, flags, separators and prefix of the file entry, and the positions of serial number, id and time stamp |
| IbmHeader.SectionEntryLayout | tools/dreport.d/ibm.d/gendumpheader:132-144 | The section entry is 0x30 bytes, as its size bytes say, with its eye catcher, flags and type, and its size field reads as archive, header and dump entry together |
| IbmHeader.DumpHeaderSize | tools/dreport.d/ibm.d/gendumpheader:176-198 | The header is 0x200 bytes, as its size bytes say, if and only if model and serial number have 15 characters together |
| IbmHeader.DumpHeaderLayout | tools/dreport.d/ibm.d/gendumpheader:146-198 | Eye catcher, version, size field, model, system name and fillers of the header at their positions; the serial number starts one byte after the documented offset |
| IbmHeader.SizeField | tools/dreport.d/ibm.d/gendumpheader:54-72 | The 8-byte size field read back big-endian is archive size + 516, for every file size |
| IbmHeader.FieldIsDetermined | tools/dreport.d/ibm.d/gendumpheader:54-72 | No other eight bytes read as the same number |
| IbmHeader.PackReadsBack | tools/dreport.d/ibm.d/gendumpheader:68-71 | Escaped digit pairs denote the number the digits denote |
| IbmHeader.HexRoundTrip | tools/dreport.d/ibm.d/gendumpheader:59 | Reading printed hexadecimal gives the number |
| IbmHeader.IdFieldFits | tools/dreport.d/ibm.d/gendumpheader:75-80 | The id field is eight characters if and only if the id has at most eight digits |
| IbmHeader.IdRoundTrip | tools/dreport.d/ibm.d/gendumpheader:75-80 | The id is read back from its zero-padded field, of any width |
| IbmHeader.HeaderFile.WriteDumpSize | tools/dreport.d/ibm.d/gendumpheader:54-72 | The function appends that field |
| IbmHeader.HeaderFile.WriteEscapes | tools/dreport.d/ibm.d/gendumpheader:68-71 | The loop over digit pairs appends their bytes |
| IbmHeader.HeaderFile.WriteDumpId | tools/dreport.d/ibm.d/gendumpheader:75-80 | The function appends the id field |
| IbmHeader.HeaderFile.WriteFileEntry | tools/dreport.d/ibm.d/gendumpheader:105-118 | The function appends the file entry |
| IbmHeader.HeaderFile.WriteSectionEntry | tools/dreport.d/ibm.d/gendumpheader:132-144 | The function appends the section entry |
| IbmHeader.HeaderFile.WriteDumpHeader | tools/dreport.d/ibm.d/gendumpheader:176-198 | The function appends the header |
| IbmHeader.HeaderFile.WritePackage | tools/dreport.d/ibm.d/gendumpheader:207-219 | The whole package is 0x40 + 0x30 + 516 bytes for regular facts |

## Left out

- Entries are values in a map field, not objects: what the model does not capture is aliasing of entry objects, D-Bus property signals, and progress timers and percentages.
- D-Bus, systemd, i2c, sockets, fork and exec, clocks and the building of child arguments other than the id: their outcomes are parameters.
- NvidiaManager.Manager.CaptureDump: what the two space computations come to is the parameter `space`; the dump parameters other than the type only reach the child's arguments and are left out.
- NvidiaRuns.RunsAreExclusive: assumes that no fork fails (ForkFailure and LockedRuns say what happens then), that fork never returns a process already watched, and that the retimer mode is not written from outside.
- NvidiaRuns.OneChildPerType: a child counts until it leaves the watch. The callback is registered for stops as well as exits (dump-extensions/nvidia-dumps/dump_manager_system.cpp:662), so a stopped child leaves the watch while it lives; stops are not modelled apart from exits.
- NvidiaRuns.LockedIsForever: speaks of states whose keys are at most the last issued id, as KeysBelowRuns shows of runs; for the empty type it assumes that the 32-bit ids are not exhausted.
- NvidiaRuns.CreatedIdIsFresh: assumes that file events carry issued ids, files match their directories, no watch setup fails and the 32-bit ids are not exhausted; a failed watch setup lets a running child and a later request share an id. In Recovers a crash is judged together with the restart that follows it; a crash that nothing follows is not covered.
- Directory names are taken as canonical decimal numbers below 2^32, so two directories cannot stand for one id; `unsigned long` has 64 bits.
- Inotify directory watches: file events reach a manager as events of their own; files placed directly in the dump directory are not modelled.
- FaultLogQuota.Manager.GetAllowedSize: a file system error, on which the source returns 0, is not modelled. After a crash over a null slot the process starts again, which is not modelled for this manager.
- Fault log CPER fields and entry creation: a flat list of optional fields, no hard property.
- BmcRotation.AllowanceFits: speaks of entries that are live with a file in the directory of their id; for all other entries RotateStops, DeletionTracksDisk and BmcBlocked.MeasuredCoversFreed say what rotation does.
- BmcRuns.RestartGivesBackCompleted: assumes that each child writes one well-named file into a new directory named by its id, and that persisting succeeds; JSON text, its failures and partial writes of the preserve file are not modelled.
- BmcManager.Manager.GetAllowedSize: `size` is an `int` in the source; sizes are unbounded here, so a directory of 2^31 kilobytes or more is not captured. The dump type parameter is reduced to whether it is a user dump.
- NsmTransfer.Tool.GetRecords: watched for at most `limit` records, because the loop need not end on a cyclic chain; GetSwitchDump removes the bound for devices whose chain ends. The functions for the NIC dump, the NIC log and the GPU dump run the same loop with other targets and file names and no erase, so GetRecords stands for all four. The output file always opens; sleeps and log messages are left out.
- OpenPowerSystem.NotifyReconciles: notifications for the invalid source id itself are excluded here and in NotifyIsIdempotent, which is false of them; NotifyForInvalid says what they do. The ids are not exhausted, and construction of an entry does not fail.
- OpenPowerSystem.Scan: the loop runs over a snapshot of the ids. The source erases the map element its loop stands on (dump-extensions/openpower-dumps/dump_manager_system.cpp:75), reads it again and advances from it, which is undefined; the branch for a stale size rests on reading it as the snapshot does.
- OpenPowerResource.RunRefines: assumes that the 32-bit ids are not exhausted.
- The OpenPOWER request preconditions (host state, dump already in progress, selector and password parameters): they only refuse a request before any state changes.
- DreportBudget.Dreport.CheckSizeOf: the checked path is a file of the report, as both callers have just written it.
- DreportBudget.RunsKeepBudget: regular files only; directories, which the plain `rm` of a refused source does not remove, and the log files of dreport itself are left out. The archive function only has to compress: adding or growing a file adds at most its size, and an empty archive's own size is counted beside both bounds.
- ElogWatch.RunsAttemptOnce: saving the list is atomic and its file is not corrupted; exceptions of createDump other than QuotaExceeded end the process like a crash after the attempt. Parsing of signals is the flag `relevant`.
- Inotify.Watch.Parse: events that pass the mask have names, as events of files inside a watched directory do (NamelessReadsOn says what is read otherwise); the machine is little-endian; the size limit of the buffer and read errors are not modelled.
- Offload.Entry.RequestOffload: the bytes read from the file are its contents; a file that changes while it is read is not modelled. A write takes fewer than 2^31 bytes, as the kernel ensures.
- IbmHeader.HeaderFile.WriteDumpHeader: model, serial number, id and date are plain text without printf directives or blanks, and `expr` does not overflow; dump_time and getbmc_serial are not called by the package function and left out.
- The FDR manager repeats the NVIDIA manager without the in-progress set; the core, ramoops and stub managers, the PLDM transport, create-dump-dbus, the dump type tables and the dreport plugins are plumbing without a hard property.
