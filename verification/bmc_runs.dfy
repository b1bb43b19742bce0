/** What every run of the BMC dump manager keeps: the user dump flag and the persisted entries. */
module BmcRuns {
  import opened Wrappers
  import opened OrderedIds
  import opened DumpName
  import opened BmcManager
  import opened BmcRotation

  ghost predicate Along(s: State, cfg: Config, events: seq<Event>, ok: (State, Event) -> bool)
    decreases |events|
  {
    events == [] || (ok(s, events[0]) && Along(Step(s, cfg, events[0]), cfg, events[1..], ok))
  }

  /** fork returns a process that is not already a watched child. */
  predicate NewPid(s: State, e: Event) {
    e.CreateDump? && e.spawn.Watched? ==> e.spawn.pid !in s.children
  }

  // ----- the user dump flag ------------------------------------------------------------------

  ghost predicate UserWatched(s: State) {
    exists pid :: pid in s.children && s.children[pid].user
  }

  ghost predicate FlagGuarded(s: State) {
    s.userDump ==> UserWatched(s)
  }

  /** The flag is set exactly while a user child is watched, and there is at most one. */
  ghost predicate FlagExact(s: State) {
    && (s.userDump <==> UserWatched(s))
    && (forall p, q :: p in s.children && q in s.children && s.children[p].user && s.children[q].user ==> p == q)
  }

  /** Deleting entries and files does not touch the children or the flag, and a new process has neither. */
  lemma {:induction false} DeleteAllKeepsChildren(s: State)
    ensures var s' := AfterDeleteAll(s);
            (s'.children == s.children && s'.userDump == s.userDump) || (s'.children == map[] && !s'.userDump)
    decreases |s.entries|
  {
    if s.entries != map[] && s.entries[Oldest(s.entries.Keys)].Some? {
      DeleteAllKeepsChildren(AfterDelete(s, Oldest(s.entries.Keys)));
    }
  }

  /** Flag and children after the two events that change them; every other event keeps or drops both. */
  lemma {:induction false} OnlyTwoTouchChildren(s: State, cfg: Config, e: Event)
    requires !e.ChildExit? && !e.CreateDump?
    ensures var s' := Step(s, cfg, e);
            (s'.children == s.children && s'.userDump == s.userDump) || (s'.children == map[] && !s'.userDump)
  {
    DeleteAllKeepsChildren(s);
    hide RestoredEntries, RestoredDisk, LargestId, AfterDeleteAll, Lookup, Extract;
  }

  lemma {:induction false} FlagGuardedStep(s: State, cfg: Config, e: Event)
    requires FlagGuarded(s) && NewPid(s, e)
    ensures FlagGuarded(Step(s, cfg, e))
  {
    hide RestoredEntries, RestoredDisk, LargestId, AllowedSize;
    if !e.ChildExit? && !e.CreateDump? {
      OnlyTwoTouchChildren(s, cfg, e);
    } else if s.userDump {
      var pid :| pid in s.children && s.children[pid].user;
      assert Step(s, cfg, e).userDump ==> pid in Step(s, cfg, e).children;
    } else if e.CreateDump? && e.spawn.Watched? {
      assert Step(s, cfg, e).userDump ==> e.spawn.pid in Step(s, cfg, e).children;
    }
  }

  /** In every run, failed entry creations included, the flag is set only while a user child is watched. */
  lemma {:induction false} FlagImpliesUserChild(s: State, cfg: Config, events: seq<Event>)
    requires FlagGuarded(s) && Along(s, cfg, events, NewPid)
    ensures FlagGuarded(Run(s, cfg, events))
    decreases |events|
  {
    if events == [] {
    } else {
      FlagGuardedStep(s, cfg, events[0]);
      FlagImpliesUserChild(Step(s, cfg, events[0]), cfg, events[1..]);
    }
  }

  /** The request gets past the flag and the quota, and its child is watched. */
  ghost predicate Starts(s: State, cfg: Config, e: Event) {
    && e.CreateDump? && !(s.userDump && e.request.user) && e.spawn.Watched?
    && AllowedSize(s.entries, s.disk, cfg).allowance.Allowed?
  }

  /** A started user dump keeps the flag exact if and only if its entry was created. */
  lemma {:induction false} EntryFailureBreaksFlag(s: State, cfg: Config, e: Event)
    requires FlagExact(s) && NewPid(s, e) && Starts(s, cfg, e) && e.request.user
    ensures FlagExact(Step(s, cfg, e)) <==> e.entryOk
  {
    hide RestoredEntries, RestoredDisk, LargestId, AllowedSize;
    assert e.spawn.pid in Step(s, cfg, e).children;
    assert !UserWatched(s);
  }

  predicate EntriesSucceed(s: State, e: Event) {
    NewPid(s, e) && (e.CreateDump? ==> e.entryOk)
  }

  lemma {:induction false} FlagExactStep(s: State, cfg: Config, e: Event)
    requires FlagExact(s) && EntriesSucceed(s, e)
    ensures FlagExact(Step(s, cfg, e))
  {
    hide RestoredEntries, RestoredDisk, LargestId, AllowedSize;
    var s' := Step(s, cfg, e);
    if !e.ChildExit? && !e.CreateDump? {
      OnlyTwoTouchChildren(s, cfg, e);
    } else if UserWatched(s) {
      var pid :| pid in s.children && s.children[pid].user;
      assert pid in s'.children || !s'.userDump;
    } else if e.CreateDump? && e.spawn.Watched? && s'.userDump {
      assert e.spawn.pid in s'.children;
    }
  }

  /** Without failed entry creations there are never two user children, and the flag is exact. */
  lemma {:induction false} OneUserChild(s: State, cfg: Config, events: seq<Event>)
    requires FlagExact(s) && Along(s, cfg, events, EntriesSucceed)
    ensures FlagExact(Run(s, cfg, events))
    decreases |events|
  {
    if events == [] {
    } else {
      FlagExactStep(s, cfg, events[0]);
      OneUserChild(Step(s, cfg, events[0]), cfg, events[1..]);
    }
  }

  // ----- persistence -------------------------------------------------------------------------

  /** One file per directory, named after it. */
  predicate OneDump(id: nat, dir: Dir) {
    && |dir.files| == 1 && Extract(dir.files[0].name).Details? && Extract(dir.files[0].name).id == id
    && (dir.preserve.Some? ==> dir.preserve.value.version == VERSION && dir.preserve.value.dumpId == id)
  }

  predicate Origin(e: Entry, p: Option<Preserve>) {
    match p
    case None => e.originatorId == "" && e.originatorType == Internal && e.startTime == e.elapsed
    case Some(q) => e.originatorId == q.originatorId && e.originatorType == q.originatorType && e.startTime == q.startTime
  }

  /** What the disk says about an entry: its file lies in its directory and a completed one is all there. */
  predicate Recorded(id: nat, e: Entry, disk: map<nat, Dir>) {
    && (e.file.Some? ==> id in disk && e.file.value.dir == id)
    && (e.status.Completed? ==>
        && e.file.Some? && OneDump(id, disk[id])
        && disk[id].files == [File(e.file.value.name, e.size)]
        && Extract(e.file.value.name) == Details(id, e.elapsed)
        && e.completedTime == e.elapsed
        && Origin(e, disk[id].preserve))
  }

  ghost predicate OnDisk(s: State) {
    && (forall id :: id in s.disk ==> OneDump(id, s.disk[id]))
    && (forall id :: id in s.disk && s.disk[id].preserve.Some? ==>
          id in s.entries && s.entries[id].Some? && s.entries[id].value.file.Some?)
    && (forall id :: id in s.entries && s.entries[id].Some? ==> Recorded(id, s.entries[id].value, s.disk))
  }

  /** What restore makes of a well-kept directory. */
  function EntryOf(id: nat, dir: Dir): Entry
    requires OneDump(id, dir)
  {
    var f := dir.files[0];
    var t := Extract(f.name).timestamp;
    var e := Entry(Completed, Some(Path(id, f.name)), f.bytes, t, t, t, "", Internal);
    match dir.preserve
    case None => e
    case Some(p) => e.(originatorId := p.originatorId, originatorType := p.originatorType, startTime := p.startTime)
  }

  lemma {:induction false} RestoredOneDump(id: nat, dir: Dir)
    requires OneDump(id, dir)
    ensures RestoredDir(id, dir) == (Some(EntryOf(id, dir)), dir)
  {
    assert dir.files == [dir.files[0]];
    assert dir.files[1..] == [];
    assert RestoredFrom(id, dir.files[1..], dir.preserve) == (None, dir.preserve);
  }

  /** The state of a new process that has the entry of every directory and changed no file. */
  ghost predicate GivesBack(s: State, disk: map<nat, Dir>) {
    && s.disk == disk && s.entries.Keys == disk.Keys
    && forall id :: id in disk ==> OneDump(id, disk[id]) && s.entries[id] == Some(EntryOf(id, disk[id]))
  }

  /** Restoring tidy directories changes no file and completes every dump on the disk. */
  lemma {:induction false} RestoredFromTidy(disk: map<nat, Dir>)
    requires forall id :: id in disk ==> OneDump(id, disk[id])
    ensures GivesBack(Restored(disk), disk)
  {
    hide Extract;
    forall id | id in disk
      ensures RestoredDir(id, disk[id]) == (Some(EntryOf(id, disk[id])), disk[id])
    {
      RestoredOneDump(id, disk[id]);
    }
    hide RestoredDir, LargestId, EntryOf, OneDump, Extract;
    assert Restored(disk).disk == disk;
  }

  lemma {:induction false} EntryIsRecorded(id: nat, disk: map<nat, Dir>)
    requires id in disk && OneDump(id, disk[id])
    ensures EntryOf(id, disk[id]).file.Some? && Recorded(id, EntryOf(id, disk[id]), disk)
  {
    assert disk[id].files == [disk[id].files[0]];
  }

  lemma {:induction false} GivenBackIsOnDisk(s: State, disk: map<nat, Dir>)
    requires GivesBack(s, disk)
    ensures OnDisk(s)
  {
    forall id | id in disk
      ensures EntryOf(id, disk[id]).file.Some? && Recorded(id, EntryOf(id, disk[id]), disk)
    {
      EntryIsRecorded(id, disk);
    }
    hide EntryOf, OneDump, Recorded;
  }

  lemma {:induction false} RestoredKeepsDisk(disk: map<nat, Dir>)
    requires forall id :: id in disk ==> OneDump(id, disk[id])
    ensures GivesBack(Restored(disk), disk) && OnDisk(Restored(disk))
  {
    RestoredFromTidy(disk);
    hide Restored, OnDisk;
    GivenBackIsOnDisk(Restored(disk), disk);
  }

  /** A child writes its dump into a new directory under the name of its id. */
  predicate WritesOwnFile(s: State, e: Event) {
    e.Write? ==> e.dir !in s.disk && OneDump(e.dir, Dir([e.file], None))
  }

  /** A file named by dreport is one. */
  lemma {:induction false} DreportNamesItsFile(id: nat, epoch: nat, extension: string, bytes: nat)
    requires id < U32 && epoch * MICROSECONDS < U64
    requires extension != "" && IsAlphanumeric(extension[0])
    ensures OneDump(id, Dir([File(Name(id, epoch, extension), bytes)], None))
  {
    NameRoundTrip(id, epoch, extension);
    hide Name;
  }

  lemma {:induction false} OnDiskAfterDelete(s: State, id: nat)
    requires OnDisk(s)
    ensures OnDisk(AfterDelete(s, id))
  {
    hide Extract;
    var s' := AfterDelete(s, id);
    forall k | k in s'.entries && s'.entries[k].Some?
      ensures Recorded(k, s'.entries[k].value, s'.disk)
    {
      assert Recorded(k, s.entries[k].value, s.disk);
    }
    if id in s.entries && s.entries[id].Some? {
      assert Recorded(id, s.entries[id].value, s.disk);
    }
  }

  lemma {:induction false} OnDiskAfterDeleteAll(s: State)
    requires OnDisk(s)
    ensures OnDisk(AfterDeleteAll(s))
    decreases |s.entries|
  {
    if s.entries == map[] {
    } else {
      var id := Oldest(s.entries.Keys);
      if s.entries[id].None? {
        RestoredKeepsDisk(s.disk);
      } else {
        OnDiskAfterDelete(s, id);
        OnDiskAfterDeleteAll(AfterDelete(s, id));
      }
    }
  }

  lemma {:induction false} OnDiskAfterRotate(s: State, free: nat, cfg: Config)
    requires OnDisk(s)
    ensures var r := Rotate(s.entries, s.disk, free, cfg);
            OnDisk(s.(entries := r.entries, disk := r.disk))
    decreases |s.entries|
  {
    hide OnDisk, DirKb, Extract;
    if free >= cfg.minSpace || s.entries == map[] {
    } else {
      var id := Oldest(s.entries.Keys);
      if id in s.disk && s.entries[id].Some? {
        OnDiskAfterDelete(s, id);
        OnDiskAfterRotate(AfterDelete(s, id), free + DirKb(s.disk[id]), cfg);
      }
    }
  }

  lemma {:induction false} OnDiskAfterCreate(s: State, cfg: Config, request: Request, spawn: Spawn, entryOk: bool)
    requires OnDisk(s)
    ensures OnDisk(AfterCreateDump(s, cfg, request, spawn, entryOk).0)
  {
    OnDiskAfterRotate(s, FreeKb(s.disk, cfg), cfg);
    var r := AllowedSize(s.entries, s.disk, cfg);
    var s1 := s.(entries := r.entries, disk := r.disk);
    assert OnDisk(s1);
    RestoredKeepsDisk(r.disk);
    OnDiskAfterSpawn(s1, request, spawn, entryOk);
    hide OnDisk, Restored, AllowedSize, AfterSpawn;
  }

  lemma {:induction false} OnDiskAfterSpawn(s: State, request: Request, spawn: Spawn, entryOk: bool)
    requires OnDisk(s)
    ensures OnDisk(AfterSpawn(s, request, spawn, entryOk).0)
  {
    hide Extract;
    var s' := AfterSpawn(s, request, spawn, entryOk).0;
    forall k | k in s'.entries && s'.entries[k].Some?
      ensures Recorded(k, s'.entries[k].value, s'.disk)
    {
      assert k in s.entries && s.entries[k].Some? ==> Recorded(k, s.entries[k].value, s.disk);
    }
  }

  lemma {:induction false} OnDiskAfterExit(s: State, pid: int, status: int)
    requires OnDisk(s)
    ensures OnDisk(AfterChildExit(s, pid, status))
  {
    hide Extract;
    var s' := AfterChildExit(s, pid, status);
    forall k | k in s'.entries && s'.entries[k].Some?
      ensures Recorded(k, s'.entries[k].value, s'.disk)
    {
      assert Recorded(k, s.entries[k].value, s.disk);
    }
  }

  lemma {:induction false} OnDiskAfterWrite(s: State, dir: nat, file: File)
    requires OnDisk(s) && dir !in s.disk && OneDump(dir, Dir([file], None))
    ensures OnDisk(AfterWrite(s, dir, file))
  {
    hide Extract;
    var s' := AfterWrite(s, dir, file);
    assert s'.disk[dir] == Dir([file], None);
    forall k | k in s'.entries && s'.entries[k].Some?
      ensures Recorded(k, s'.entries[k].value, s'.disk)
    {
      assert Recorded(k, s.entries[k].value, s.disk);
    }
  }

  lemma {:induction false} OnDiskAfterFile(s: State, path: Path, jsonBytes: nat)
    requires OnDisk(s)
    ensures OnDisk(AfterFileEvent(s, path, jsonBytes))
  {
    RestoredKeepsDisk(s.disk);
    var found := Lookup(s.disk, path);
    if Extract(path.name).Details? && found.Some? {
      assert OneDump(path.dir, s.disk[path.dir]) && s.disk[path.dir].files == [found.value];
      OnDiskAfterUpdate(s, path, jsonBytes);
    }
    hide OnDisk, Restored, Extract, Lookup;
  }

  /** Replacing one entry and its directory together by a recorded pair. */
  lemma {:induction false} OnDiskReplacing(s: State, id: nat, e: Entry, dir: Dir)
    requires OnDisk(s) && id in s.disk && OneDump(id, dir)
    requires e.file.Some? && Recorded(id, e, s.disk[id := dir])
    ensures OnDisk(s.(entries := s.entries[id := Some(e)], disk := s.disk[id := dir]))
  {
    hide Extract;
    var disk := s.disk[id := dir];
    forall k | k in s.entries && s.entries[k].Some? && k != id
      ensures Recorded(k, s.entries[k].value, disk)
    {
      assert Recorded(k, s.entries[k].value, s.disk);
    }
  }

  lemma {:induction false} OnDiskAfterUpdate(s: State, path: Path, jsonBytes: nat)
    requires OnDisk(s) && path.dir in s.disk && Lookup(s.disk, path).Some?
    requires Extract(path.name).Details? && Extract(path.name).id == path.dir
    requires s.disk[path.dir].files == [Lookup(s.disk, path).value]
    ensures OnDisk(AfterFileEvent(s, path, jsonBytes))
  {
    var id, t, f := path.dir, Extract(path.name).timestamp, Lookup(s.disk, path).value;
    hide Extract, Restored, Lookup;
    if id !in s.entries {
      var e := Entry(Completed, Some(path), f.bytes, t, t, t, "", Internal);
      assert s.disk[id := s.disk[id]] == s.disk;
      OnDiskReplacing(s, id, e, s.disk[id]);
    } else if s.entries[id].Some? {
      var e := Updated(s.entries[id].value, t, f.bytes, path);
      var dir := s.disk[id].(preserve := Some(Serialized(e, id, jsonBytes)));
      OnDiskReplacing(s, id, e, dir);
    }
    hide OnDisk;
  }

  lemma {:induction false} OnDiskStep(s: State, cfg: Config, e: Event)
    requires OnDisk(s) && WritesOwnFile(s, e)
    ensures OnDisk(Step(s, cfg, e))
  {
    match e {
      case CreateDump(request, spawn, entryOk) => OnDiskAfterCreate(s, cfg, request, spawn, entryOk);
      case ChildExit(pid, status) => OnDiskAfterExit(s, pid, status);
      case Write(dir, file) => OnDiskAfterWrite(s, dir, file);
      case FileEvent(path, jsonBytes) => OnDiskAfterFile(s, path, jsonBytes);
      case Delete(id) => OnDiskAfterDelete(s, id);
      case DeleteAll => OnDiskAfterDeleteAll(s);
      case Restart => RestoredKeepsDisk(s.disk);
    }
    hide *;
  }

  lemma {:induction false} OnDiskRuns(s: State, cfg: Config, events: seq<Event>)
    requires OnDisk(s) && Along(s, cfg, events, WritesOwnFile)
    ensures OnDisk(Run(s, cfg, events))
    decreases |events|
  {
    if events == [] {
    } else {
      OnDiskStep(s, cfg, events[0]);
      hide OnDisk, Step;
      OnDiskRuns(Step(s, cfg, events[0]), cfg, events[1..]);
    }
  }

  /**
   After any run a new process restores every completed entry exactly as it was: id, originator,
   times, size and file; and the ids issued next start above every restored one.
   */
  lemma {:induction false} RestartGivesBackCompleted(s: State, cfg: Config, events: seq<Event>)
    requires OnDisk(s) && Along(s, cfg, events, WritesOwnFile)
    ensures var s1 := Run(s, cfg, events);
            var s2 := Restored(s1.disk);
            && (forall id :: id in s1.entries && s1.entries[id].Some? && s1.entries[id].value.status.Completed? ==>
                  id in s2.entries && s2.entries[id] == s1.entries[id])
            && (forall id :: id in s2.entries ==> id <= s2.last)
  {
    OnDiskRuns(s, cfg, events);
    var s1 := Run(s, cfg, events);
    RestoredKeepsDisk(s1.disk);
    var s2 := Restored(s1.disk);
    hide Extract, Restored, Run, Step, Along;
    forall id | id in s1.entries && s1.entries[id].Some? && s1.entries[id].value.status.Completed?
      ensures id in s2.entries && s2.entries[id] == s1.entries[id]
    {
      assert Recorded(id, s1.entries[id].value, s1.disk);
    }
    LastCovers(s1.disk);
  }

  lemma {:induction false} LastCovers(disk: map<nat, Dir>)
    ensures forall id :: id in Restored(disk).entries ==> id <= Restored(disk).last
  {
    hide RestoredDir;
  }

  /** Every entry is live and has its file: no dump in progress, and none failed before it wrote one. */
  ghost predicate AllFiled(s: State) {
    forall id :: id in s.entries ==> s.entries[id].Some? && s.entries[id].value.file.Some?
  }

  lemma {:induction false} FiledIsPlaced(s: State)
    requires OnDisk(s) && AllFiled(s)
    ensures Placed(s.entries, s.disk)
  {
    forall id | id in s.entries
      ensures id in s.disk && s.entries[id].value.file.value.dir == id
    {
      assert Recorded(id, s.entries[id].value, s.disk);
    }
  }

  /**
   Whenever every entry is live and has its file, after any run, rotation agrees with measuring the disk each time,
   and the allowance it grants fits.
   */
  lemma {:induction false} RunsGrantWhatFits(s: State, cfg: Config, events: seq<Event>)
    requires OnDisk(s) && Along(s, cfg, events, WritesOwnFile) && AllFiled(Run(s, cfg, events))
    requires cfg.rotation && cfg.minSpace <= cfg.maxSize && UsedKb(Run(s, cfg, events).disk) <= cfg.totalSize
    ensures var t := Run(s, cfg, events);
            var r := AllowedSize(t.entries, t.disk, cfg);
            && r == SimpleRotate(t.entries, t.disk, cfg)
            && (r.allowance.Allowed? ==>
                  && cfg.minSpace <= r.allowance.size <= cfg.maxSize
                  && Total(r.disk, DirBytes) + 1024 * r.allowance.size <= 1024 * cfg.totalSize)
  {
    OnDiskRuns(s, cfg, events);
    var t := Run(s, cfg, events);
    hide Run, Along, OnDisk, AllFiled;
    FiledIsPlaced(t);
    RotateAgrees(t.entries, t.disk, cfg);
    AllowanceFits(t.entries, t.disk, cfg);
    hide Placed, Rotate, SimpleRotate, Total;
  }
}
