/** How an entry without a directory, such as a dump that failed before writing, blocks the BMC rotation. */
module BmcBlocked {
  import opened Wrappers
  import opened OrderedIds
  import opened DumpName
  import opened BmcManager
  import opened BmcRotation
  import opened BmcRuns

  /** Too little space, and the oldest entry, the one rotation has to delete, has no directory. */
  ghost predicate Blocked(s: State, cfg: Config) {
    && cfg.rotation && FreeKb(s.disk, cfg) < cfg.minSpace
    && s.entries != map[] && Oldest(s.entries.Keys) !in s.disk
  }

  /** A request that the user flag lets through throws at once, changing nothing, if and only if the manager is blocked. */
  lemma {:induction false} BlockedThrowsAtOnce(s: State, cfg: Config, request: Request, spawn: Spawn, entryOk: bool)
    requires !(s.userDump && request.user)
    ensures AfterCreateDump(s, cfg, request, spawn, entryOk) == (s, FilesystemError) <==> Blocked(s, cfg)
  {
    var n := RotateStops(s.entries, s.disk, FreeKb(s.disk, cfg), cfg);
    if n > 0 {
      var id := Oldest(s.entries.Keys);
      EvictedLosesOldest(s.entries, n);
    }
    hide Restored, AfterSpawn, FreeKb;
  }

  lemma {:induction false} EvictedLosesOldest(entries: map<nat, Option<Entry>>, n: nat)
    ensures EvictedEntries(entries, n).Keys <= entries.Keys
    ensures n > 0 && entries != map[] ==> Oldest(entries.Keys) !in EvictedEntries(entries, n)
    decreases n
  {
    if n == 0 || entries == map[] {
    } else {
      EvictedLosesOldest(entries - {Oldest(entries.Keys)}, n - 1);
    }
  }

  /** Files lie in the directories of their ids. */
  predicate InPlace(entries: map<nat, Option<Entry>>) {
    forall id :: id in entries && entries[id].Some? && entries[id].value.file.Some? ==>
      entries[id].value.file.value.dir == id
  }

  /** Over entries in place the running total never understates: dumps without a file are measured but free nothing. */
  lemma {:induction false} MeasuredCoversFreed(entries: map<nat, Option<Entry>>, disk: map<nat, Dir>, n: nat)
    requires InPlace(entries) && Passable(entries, disk, n)
    ensures UsedKb(disk) <= Measured(entries, disk, n) + UsedKb(PassedDisk(entries, disk, n))
    decreases n
  {
    if n == 0 {
    } else {
      var id := Oldest(entries.Keys);
      TotalRemove(disk, DirKb, id);
      hide DirKb, Total;
      MeasuredCoversFreed(entries - {id}, Removed(disk, entries[id].value), n - 1);
    }
  }

  /** A request that throws over a missing directory leaves the manager blocked, whatever it deleted before. */
  lemma {:induction false} ThrowingLeavesBlocked(s: State, cfg: Config, request: Request, spawn: Spawn, entryOk: bool)
    requires InPlace(s.entries)
    requires AfterCreateDump(s, cfg, request, spawn, entryOk).1 == FilesystemError
    ensures Blocked(AfterCreateDump(s, cfg, request, spawn, entryOk).0, cfg)
  {
    var n := RotateStops(s.entries, s.disk, FreeKb(s.disk, cfg), cfg);
    MeasuredCoversFreed(s.entries, s.disk, n);
    hide Restored, AfterSpawn, Rotate, Measured, PassedDisk, EvictedEntries, UsedKb;
  }

  // ----- the block persists ------------------------------------------------------------------

  /**
   The event frees no space, gives the oldest entry no directory, and makes no older entry that has one:
   any request, any exit but a failed one of an older child that left a directory, a write elsewhere, the file
   of an entry that is not older, and the deletion of another entry without a file.
   */
  ghost predicate Harmless(s: State, e: Event)
    requires s.entries != map[]
  {
    var oldest := Oldest(s.entries.Keys);
    match e
    case CreateDump(_, _, _) => true
    case ChildExit(pid, status) =>
      pid in s.children && status != 0 ==> s.children[pid].callbackId >= oldest || s.children[pid].callbackId !in s.disk
    case Write(dir, _) => dir != oldest
    case FileEvent(path, jsonBytes) =>
      Extract(path.name).NoMatch? ||
      (Extract(path.name).Details? && Lookup(s.disk, path).Some? && Extract(path.name).id >= oldest &&
       (s.disk[path.dir].preserve.Some? ==> Kb(jsonBytes) >= Kb(s.disk[path.dir].preserve.value.bytes)))
    case Delete(id) =>
      id in s.entries && s.entries[id].Some? ==> id != oldest && s.entries[id].value.file.None?
    case DeleteAll => false
    case Restart => false
  }

  lemma {:induction false} UsedGrows(disk: map<nat, Dir>, k: nat, dir: Dir)
    requires k in disk ==> DirKb(disk[k]) <= DirKb(dir)
    ensures UsedKb(disk) <= UsedKb(disk[k := dir])
  {
    TotalRemove(disk[k := dir], DirKb, k);
    assert disk[k := dir] - {k} == disk - {k};
    if k in disk {
      TotalRemove(disk, DirKb, k);
    } else {
      assert disk - {k} == disk;
    }
  }

  lemma {:induction false} FilesKbAppended(files: seq<File>, file: File)
    ensures FilesKb(files + [file]) == FilesKb(files) + Kb(file.bytes)
  {
    if files == [] {
    } else {
      FilesKbAppended(files[1..], file);
      assert (files + [file])[1..] == files[1..] + [file];
    }
  }

  lemma {:induction false} WriteUsesMore(s: State, dir: nat, file: File)
    ensures UsedKb(s.disk) <= UsedKb(AfterWrite(s, dir, file).disk)
  {
    var d := if dir in s.disk then s.disk[dir] else Dir([], None);
    FilesKbAppended(d.files, file);
    UsedGrows(s.disk, dir, d.(files := d.files + [file]));
  }

  lemma {:induction false} FileUsesMore(s: State, path: Path, jsonBytes: nat)
    requires s.entries != map[] && Harmless(s, FileEvent(path, jsonBytes))
    ensures var s' := AfterFileEvent(s, path, jsonBytes);
            && UsedKb(s.disk) <= UsedKb(s'.disk) && s'.disk.Keys == s.disk.Keys
            && s.entries.Keys <= s'.entries.Keys
            && forall id :: id in s'.entries && id !in s.entries ==> id >= Oldest(s.entries.Keys)
  {
    hide Extract, Lookup, Restored;
    if Extract(path.name).Details? {
      var id, t := Extract(path.name).id, Extract(path.name).timestamp;
      if id in s.entries && s.entries[id].Some? {
        var e := Updated(s.entries[id].value, t, Lookup(s.disk, path).value.bytes, path);
        UsedGrows(s.disk, path.dir, s.disk[path.dir].(preserve := Some(Serialized(e, id, jsonBytes))));
      }
    }
    hide UsedKb;
  }

  lemma {:induction false} OldestStays(s: State, s': State)
    requires s.entries != map[] && Oldest(s.entries.Keys) in s'.entries
    requires forall id :: id in s'.entries && id !in s.entries ==> id >= Oldest(s.entries.Keys)
    ensures s'.entries != map[] && Oldest(s'.entries.Keys) == Oldest(s.entries.Keys)
  {
    assert s'.entries.Keys != {};
  }

  lemma {:induction false} BlockedStep(s: State, cfg: Config, e: Event)
    requires Blocked(s, cfg) && Harmless(s, e)
    ensures Blocked(Step(s, cfg, e), cfg)
  {
    match e {
      case CreateDump(request, spawn, entryOk) =>
        if !(s.userDump && request.user) {
          BlockedThrowsAtOnce(s, cfg, request, spawn, entryOk);
        }
        assert Step(s, cfg, e) == s;
      case ChildExit(pid, status) => BlockedExit(s, cfg, pid, status);
      case Write(dir, file) => WriteUsesMore(s, dir, file);
      case FileEvent(path, jsonBytes) =>
        FileUsesMore(s, path, jsonBytes);
        OldestStays(s, AfterFileEvent(s, path, jsonBytes));
      case Delete(id) =>
        OldestStays(s, AfterDelete(s, id));
    }
    hide UsedKb, AfterFileEvent, AfterCreateDump, Harmless;
  }

  lemma {:induction false} BlockedExit(s: State, cfg: Config, pid: int, status: int)
    requires Blocked(s, cfg) && Harmless(s, ChildExit(pid, status))
    ensures Blocked(AfterChildExit(s, pid, status), cfg)
  {
    hide FreeKb;
    var s' := AfterChildExit(s, pid, status);
    assert Oldest(s.entries.Keys) in s'.entries;
    if pid in s.children && status != 0 && s.children[pid].callbackId < Oldest(s.entries.Keys) {
      assert s'.entries.Keys == s.entries.Keys + {s.children[pid].callbackId};
    } else {
      OldestStays(s, s');
    }
  }

  /** So no request starts a dump until the entry is deleted, the process restarts, or space is freed. */
  lemma {:induction false} BlockedRuns(s: State, cfg: Config, events: seq<Event>, request: Request, spawn: Spawn, entryOk: bool)
    requires Blocked(s, cfg) && Along(s, cfg, events, (t: State, e) => t.entries != map[] && Harmless(t, e))
    ensures var t := Run(s, cfg, events);
            && Blocked(t, cfg)
            && AfterCreateDump(t, cfg, request, spawn, entryOk) ==
               (t, if t.userDump && request.user then Unavailable else FilesystemError)
    decreases |events|
  {
    if events == [] {
      if !(s.userDump && request.user) {
        BlockedThrowsAtOnce(s, cfg, request, spawn, entryOk);
      }
      hide Blocked;
    } else {
      BlockedStep(s, cfg, events[0]);
      hide Blocked, Step, Harmless, AfterCreateDump;
      BlockedRuns(Step(s, cfg, events[0]), cfg, events[1..], request, spawn, entryOk);
    }
  }
}
