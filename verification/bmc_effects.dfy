/** What single callbacks of the BMC dump manager achieve, the ids it issues, and the dumps a restart gives back. */
module BmcEffects {
  import opened Wrappers
  import opened OrderedIds
  import opened DumpName
  import opened BmcManager
  import opened BmcRotation
  import opened BmcRuns

  // ----- ids ---------------------------------------------------------------------------------

  /** Keys and the ids callbacks hold are at most the last one issued. */
  ghost predicate KeysBelow(s: State) {
    && s.last < U32
    && (forall id :: id in s.entries ==> id <= s.last)
    && (forall pid :: pid in s.children ==> s.children[pid].callbackId <= s.last)
    && (forall id :: id in s.disk ==> id < U32)
  }

  /** Files carry issued ids, directories are named by 32-bit numbers, and ids are not exhausted. */
  predicate Issued(s: State, e: Event) {
    match e
    case CreateDump(_, _, _) => s.last + 1 < U32
    case Write(dir, _) => dir < U32
    case FileEvent(path, _) => Extract(path.name).Details? ==> Extract(path.name).id <= s.last
    case _ => true
  }

  lemma {:induction false} RestoredKeysBelow(disk: map<nat, Dir>)
    requires forall id :: id in disk ==> id < U32
    ensures KeysBelow(Restored(disk))
  {
    LastCovers(disk);
    assert Restored(disk).disk.Keys == disk.Keys;
    hide RestoredDir;
  }

  lemma {:induction false} RotateShrinks(entries: map<nat, Option<Entry>>, disk: map<nat, Dir>, free: nat, cfg: Config)
    ensures var r := Rotate(entries, disk, free, cfg);
            && r.disk.Keys <= disk.Keys && r.entries.Keys <= entries.Keys
            && forall id :: id in r.entries ==> r.entries[id] == entries[id]
    decreases |entries|
  {
    if free >= cfg.minSpace || entries == map[] {
    } else {
      hide DirKb;
      var id := Oldest(entries.Keys);
      if id in disk && entries[id].Some? {
        RotateShrinks(entries - {id}, Removed(disk, entries[id].value), free + DirKb(disk[id]), cfg);
      }
    }
  }

  /** What rotation keeps it leaves as it was. */
  lemma {:induction false} AllowedSizeShrinks(entries: map<nat, Option<Entry>>, disk: map<nat, Dir>, cfg: Config)
    ensures var r := AllowedSize(entries, disk, cfg);
            && r.disk.Keys <= disk.Keys && r.entries.Keys <= entries.Keys
            && forall id :: id in r.entries ==> r.entries[id] == entries[id]
  {
    RotateShrinks(entries, disk, FreeKb(disk, cfg), cfg);
    hide Rotate, FreeKb;
  }

  lemma {:induction false} KeysBelowSpawn(s: State, request: Request, spawn: Spawn, entryOk: bool)
    requires KeysBelow(s) && s.last + 1 < U32
    ensures KeysBelow(AfterSpawn(s, request, spawn, entryOk).0) && s.last <= AfterSpawn(s, request, spawn, entryOk).0.last
  {
  }

  lemma {:induction false} KeysBelowCreate(s: State, cfg: Config, request: Request, spawn: Spawn, entryOk: bool)
    requires KeysBelow(s) && s.last + 1 < U32
    ensures KeysBelow(AfterCreateDump(s, cfg, request, spawn, entryOk).0)
  {
    AllowedSizeShrinks(s.entries, s.disk, cfg);
    var r := AllowedSize(s.entries, s.disk, cfg);
    var s1 := s.(entries := r.entries, disk := r.disk);
    KeysBelowSpawn(s1, request, spawn, entryOk);
    RestoredKeysBelow(r.disk);
    hide AllowedSize, AfterSpawn, Restored;
  }

  lemma {:induction false} KeysBelowDeleteAll(s: State)
    requires KeysBelow(s)
    ensures KeysBelow(AfterDeleteAll(s))
    decreases |s.entries|
  {
    if s.entries == map[] {
    } else {
      var id := Oldest(s.entries.Keys);
      if s.entries[id].None? {
        RestoredKeysBelow(s.disk);
      } else {
        hide Restored;
        KeysBelowDeleteAll(AfterDelete(s, id));
      }
    }
  }

  lemma {:induction false} KeysBelowFile(s: State, path: Path, jsonBytes: nat)
    requires KeysBelow(s) && Issued(s, FileEvent(path, jsonBytes))
    ensures KeysBelow(AfterFileEvent(s, path, jsonBytes))
  {
    RestoredKeysBelow(s.disk);
    hide Extract, Lookup, Restored;
  }

  lemma {:induction false} KeysBelowStep(s: State, cfg: Config, e: Event)
    requires KeysBelow(s) && Issued(s, e)
    ensures KeysBelow(Step(s, cfg, e))
  {
    match e {
      case CreateDump(request, spawn, entryOk) => KeysBelowCreate(s, cfg, request, spawn, entryOk);
      case ChildExit(pid, status) =>
      case Write(dir, file) =>
      case FileEvent(path, jsonBytes) => KeysBelowFile(s, path, jsonBytes);
      case Delete(id) =>
      case DeleteAll => KeysBelowDeleteAll(s);
      case Restart => RestoredKeysBelow(s.disk);
    }
    hide AfterCreateDump, AfterFileEvent, AfterDeleteAll, Restored, Issued;
  }

  /** In every run keys and callback ids stay at most the last issued id. */
  lemma {:induction false} KeysBelowRuns(s: State, cfg: Config, events: seq<Event>)
    requires KeysBelow(s) && Along(s, cfg, events, Issued)
    ensures KeysBelow(Run(s, cfg, events))
    decreases |events|
  {
    if events == [] {
    } else {
      KeysBelowStep(s, cfg, events[0]);
      hide Issued, Step, KeysBelow;
      KeysBelowRuns(Step(s, cfg, events[0]), cfg, events[1..]);
    }
  }

  // ----- requests ----------------------------------------------------------------------------

  /** Exactly when a request is accepted, and which error it meets otherwise. */
  lemma {:induction false} RequestOutcome(s: State, cfg: Config, e: Event)
    requires e.CreateDump?
    ensures var r := AfterCreateDump(s, cfg, e.request, e.spawn, e.entryOk).1;
            var allowance := AllowedSize(s.entries, s.disk, cfg).allowance;
            && (r.Unavailable? <==> s.userDump && e.request.user)
            && (r.Crashed? <==> !(s.userDump && e.request.user) && allowance.NullEntry?)
            && (r.FilesystemError? <==> !(s.userDump && e.request.user) && allowance.NoDirectory?)
            && (r.QuotaExceeded? <==> !(s.userDump && e.request.user) && allowance.OutOfSpace?)
            && (r.Created? <==> !(s.userDump && e.request.user) && allowance.Allowed? && e.spawn.Watched? && e.entryOk)
  {
    hide AllowedSize, Restored;
  }

  /**
   After any run an accepted request issues the id after the last one, which was no key. It leaves the
   entries that rotation kept and one more, in progress, with the originator and time of the request; and
   it adds a child that holds the id. The user flag is set for a user's request.
   */
  lemma {:induction false} CreateIssuesNext(s: State, cfg: Config, events: seq<Event>, e: Event)
    requires KeysBelow(s) && Along(s, cfg, events, Issued)
    requires e.CreateDump? && Run(s, cfg, events).last + 1 < U32 && NewPid(Run(s, cfg, events), e)
    requires AfterCreateDump(Run(s, cfg, events), cfg, e.request, e.spawn, e.entryOk).1.Created?
    ensures var t := Run(s, cfg, events);
            var (t', r) := AfterCreateDump(t, cfg, e.request, e.spawn, e.entryOk);
            var kept := AllowedSize(t.entries, t.disk, cfg);
            && r.id == t'.last == t.last + 1 && r.id !in t.entries && (forall k :: k in t.entries ==> k < r.id)
            && t'.entries == kept.entries[r.id := t'.entries[r.id]] && t'.disk == kept.disk
            && kept.entries.Keys <= t.entries.Keys
            && t'.entries[r.id] == Some(Entry(InProgress, None, 0, e.request.now, 0, 0,
                                              e.request.originatorId, e.request.originatorType))
            && e.spawn.Watched? && t'.children == t.children[e.spawn.pid := Child(r.id, e.request.user)]
            && t'.userDump == (t.userDump || e.request.user)
  {
    KeysBelowRuns(s, cfg, events);
    var t := Run(s, cfg, events);
    hide Run, Along;
    AllowedSizeShrinks(t.entries, t.disk, cfg);
    hide AllowedSize, Restored;
    RequestOutcome(t, cfg, e);
  }

  /** A failed fork or watch leaves only the rotation behind; a failed entry also leaves its child and uses its id up. */
  lemma {:induction false} FailedStart(s: State, cfg: Config, e: Event)
    requires e.CreateDump? && AfterCreateDump(s, cfg, e.request, e.spawn, e.entryOk).1.InternalFailure?
    ensures var t := AfterCreateDump(s, cfg, e.request, e.spawn, e.entryOk).0;
            var kept := AllowedSize(s.entries, s.disk, cfg);
            && t.entries == kept.entries && t.disk == kept.disk && t.userDump == s.userDump
            && if e.spawn.Watched? then
                 t.last == NextId(s.last) && t.children == Emplace(s.children, e.spawn.pid, Child(t.last, e.request.user))
               else t.last == s.last && t.children == s.children
  {
    hide AllowedSize, Restored;
  }

  // ----- exits and deletions -----------------------------------------------------------------

  /** As for the other managers: the live entry of the child's id is marked failed exactly if the status says so. */
  lemma {:induction false} ExitEffect(s: State, cfg: Config, pid: int, status: int)
    ensures var t := Step(s, cfg, ChildExit(pid, status));
            if pid !in s.children then t == s
            else
              var c := s.children[pid];
              && t.children == s.children - {pid} && t.userDump == (if c.user then false else s.userDump)
              && t.last == s.last && t.disk == s.disk
              && (forall id :: id in s.entries ==> id in t.entries)
              && (forall id :: id in s.entries && s.entries[id].Some? ==>
                    t.entries[id] == Some(if status != 0 && id == c.callbackId
                                          then s.entries[id].value.(status := Failed) else s.entries[id].value))
              && (forall id :: id in t.entries && id !in s.entries ==> status != 0 && id == c.callbackId)
  {
  }

  /** Deleting a live entry removes it and the directory of its file, and nothing else. */
  lemma {:induction false} DeleteEffect(s: State, cfg: Config, id: nat)
    ensures var t := Step(s, cfg, Delete(id));
            if id !in s.entries || s.entries[id].None? then t == s
            else
              var file := s.entries[id].value.file;
              && t.entries == s.entries - {id} && t.last == s.last && t.userDump == s.userDump && t.children == s.children
              && t.disk == if file.Some? then s.disk - {file.value.dir} else s.disk
  {
  }

  /** Deleting everything leaves no entry and no directory of an entry's file, unless it crashes. */
  lemma {:induction false} DeleteAllEmpties(s: State)
    requires forall id :: id in s.entries ==> s.entries[id].Some?
    ensures var t := AfterDeleteAll(s);
            && t.entries == map[] && t.last == s.last && t.userDump == s.userDump && t.children == s.children
            && t.disk.Keys <= s.disk.Keys
            && forall k :: k in s.disk ==>
                 (k in t.disk <==> forall id :: id in s.entries && s.entries[id].value.file.Some? ==>
                                     s.entries[id].value.file.value.dir != k)
    decreases |s.entries|
  {
    if s.entries == map[] {
    } else {
      var id := Oldest(s.entries.Keys);
      var s1 := AfterDelete(s, id);
      DeleteAllEmpties(s1);
      assert forall k :: k in s.entries <==> k == id || k in s1.entries;
      forall k | k in s.disk
        ensures k in AfterDeleteAll(s).disk <==>
                forall j :: j in s.entries && s.entries[j].value.file.Some? ==> s.entries[j].value.file.value.dir != k
      {
        assert k in s1.disk <==> s.entries[id].value.file.Some? ==> s.entries[id].value.file.value.dir != k;
      }
    }
  }

  // ----- written dumps -----------------------------------------------------------------------

  /**
   The event of a dump's file completes the live entry of its id, with the path, the size of the file and
   the time of its name, and persists the originator and start time, which it keeps; or it makes an entry.
   */
  lemma {:induction false} FileCompletes(s: State, cfg: Config, path: Path, jsonBytes: nat)
    requires Extract(path.name).Details? && Lookup(s.disk, path).Some?
    ensures var id, time, bytes := Extract(path.name).id, Extract(path.name).timestamp, Lookup(s.disk, path).value.bytes;
            var t := Step(s, cfg, FileEvent(path, jsonBytes));
            && t.last == s.last && t.userDump == s.userDump && t.children == s.children && id in t.entries
            && (forall k :: k != id ==> (k in t.entries <==> k in s.entries))
            && (forall k :: k != id && k in s.entries ==> t.entries[k] == s.entries[k])
            && (id in s.entries && s.entries[id].None? ==> t == s)
            && (id in s.entries && s.entries[id].Some? ==>
                  var was := s.entries[id].value;
                  && t.entries[id] == Some(Entry(Completed, Some(path), bytes, was.startTime, time, time,
                                                 was.originatorId, was.originatorType))
                  && path.dir in t.disk && t.disk == s.disk[path.dir := t.disk[path.dir]]
                  && t.disk[path.dir] == Dir(s.disk[path.dir].files,
                                             Some(Preserve(VERSION, id, was.originatorId, was.originatorType, was.startTime, jsonBytes))))
            && (id !in s.entries ==>
                  && t.entries[id] == Some(Entry(Completed, Some(path), bytes, time, time, time, "", Internal))
                  && t.disk == s.disk)
  {
    hide Extract, Lookup;
  }

  /** The dump of an id is given back by a restart as e, and its entry is e but for a failure noted since. */
  ghost predicate Given(s: State, id: nat, e: Entry) {
    && id in s.disk && OneDump(id, s.disk[id]) && EntryOf(id, s.disk[id]) == e
    && id in s.entries && s.entries[id].Some? && s.entries[id].value.(status := Completed) == e
  }

  lemma {:induction false} GivenBack(disk: map<nat, Dir>, id: nat, e: Entry)
    requires (forall k :: k in disk ==> OneDump(k, disk[k])) && id in disk && EntryOf(id, disk[id]) == e
    ensures Given(Restored(disk), id, e) && Restored(disk).entries[id] == Some(e)
  {
    RestoredFromTidy(disk);
    hide Restored;
  }

  /** Handling the file of a dump makes its entry one that a restart gives back. */
  lemma {:induction false} FileIsGiven(s: State, cfg: Config, path: Path, jsonBytes: nat)
    requires OnDisk(s) && Extract(path.name).Details? && Lookup(s.disk, path).Some?
    requires path.dir in s.entries ==> s.entries[path.dir].Some?
    ensures var t := Step(s, cfg, FileEvent(path, jsonBytes));
            && Extract(path.name).id == path.dir && path.dir in t.entries && t.entries[path.dir].Some?
            && t.entries[path.dir].value.status.Completed? && Given(t, path.dir, t.entries[path.dir].value)
  {
    var f := Lookup(s.disk, path).value;
    assert OneDump(path.dir, s.disk[path.dir]) && s.disk[path.dir].files == [f];
    FileCompletes(s, cfg, path, jsonBytes);
    hide Step, Lookup, Extract;
  }

  lemma {:induction false} GivenAfterDelete(s: State, k: nat, id: nat, e: Entry)
    requires OnDisk(s) && Given(s, id, e) && id in AfterDelete(s, k).disk
    ensures Given(AfterDelete(s, k), id, e)
  {
    hide Extract, EntryOf, OneDump;
    if k in s.entries && s.entries[k].Some? {
      assert Recorded(k, s.entries[k].value, s.disk);
      assert s.entries[id].value.file == e.file;
      GivenHasFile(s, id, e);
    }
  }

  lemma {:induction false} GivenHasFile(s: State, id: nat, e: Entry)
    requires Given(s, id, e)
    ensures e.file.Some? && e.file.value.dir == id
  {
  }

  lemma {:induction false} RotateKeepsGiven(s: State, free: nat, cfg: Config, id: nat, e: Entry)
    requires OnDisk(s) && Given(s, id, e)
    ensures var r := Rotate(s.entries, s.disk, free, cfg);
            id in r.disk ==> Given(s.(entries := r.entries, disk := r.disk), id, e)
    decreases |s.entries|
  {
    hide OnDisk, Given, DirKb;
    if free >= cfg.minSpace || s.entries == map[] {
    } else {
      var k := Oldest(s.entries.Keys);
      if k in s.disk && s.entries[k].Some? {
        var s1 := AfterDelete(s, k);
        OnDiskAfterDelete(s, k);
        RotateShrinks(s1.entries, s1.disk, free + DirKb(s.disk[k]), cfg);
        if id in s1.disk {
          GivenAfterDelete(s, k, id, e);
          RotateKeepsGiven(s1, free + DirKb(s.disk[k]), cfg, id, e);
        }
      }
    }
  }

  lemma {:induction false} DeleteAllKeepsGiven(s: State, id: nat, e: Entry)
    requires OnDisk(s) && Given(s, id, e) && id in AfterDeleteAll(s).disk
    ensures Given(AfterDeleteAll(s), id, e)
    decreases |s.entries|
  {
    if s.entries == map[] {
    } else {
      var k := Oldest(s.entries.Keys);
      if s.entries[k].None? {
        GivenBack(s.disk, id, e);
      } else {
        OnDiskAfterDelete(s, k);
        DeleteAllOnlyRemoves(AfterDelete(s, k));
        hide OnDisk, Given, Restored;
        GivenAfterDelete(s, k, id, e);
        DeleteAllKeepsGiven(AfterDelete(s, k), id, e);
      }
    }
  }

  lemma {:induction false} DeleteAllOnlyRemoves(s: State)
    ensures AfterDeleteAll(s).disk.Keys <= s.disk.Keys
    decreases |s.entries|
  {
    if s.entries == map[] {
    } else {
      var k := Oldest(s.entries.Keys);
      if s.entries[k].None? {
        assert Restored(s.disk).disk.Keys == s.disk.Keys;
      } else {
        hide Restored;
        DeleteAllOnlyRemoves(AfterDelete(s, k));
      }
    }
  }

  lemma {:induction false} SpawnKeepsGiven(s: State, request: Request, spawn: Spawn, entryOk: bool, id: nat, e: Entry)
    requires Given(s, id, e)
    ensures Given(AfterSpawn(s, request, spawn, entryOk).0, id, e)
  {
    hide Extract, EntryOf, OneDump;
  }

  lemma {:induction false} AllowedKeepsGiven(s: State, cfg: Config, id: nat, e: Entry)
    requires OnDisk(s) && Given(s, id, e)
    ensures var r := AllowedSize(s.entries, s.disk, cfg);
            var s1 := s.(entries := r.entries, disk := r.disk);
            OnDisk(s1) && (id in r.disk ==> Given(s1, id, e))
  {
    var free := FreeKb(s.disk, cfg);
    RotateKeepsGiven(s, free, cfg, id, e);
    OnDiskAfterRotate(s, free, cfg);
    hide OnDisk, Given, FreeKb, Rotate;
  }

  lemma {:induction false} CreateKeepsGiven(s: State, cfg: Config, request: Request, spawn: Spawn, entryOk: bool,
                                           id: nat, e: Entry)
    requires OnDisk(s) && Given(s, id, e) && id in AfterCreateDump(s, cfg, request, spawn, entryOk).0.disk
    ensures Given(AfterCreateDump(s, cfg, request, spawn, entryOk).0, id, e)
  {
    hide OnDisk, Given, Restored, AllowedSize, AfterSpawn;
    var r := AllowedSize(s.entries, s.disk, cfg);
    var s1 := s.(entries := r.entries, disk := r.disk);
    AllowedKeepsGiven(s, cfg, id, e);
    if s.userDump && request.user {
    } else {
      match r.allowance {
        case NullEntry =>
          RestoredKeepsNames(r.disk);
          OnDiskIsTidy(s1);
          GivenOnDisk(s1, id, e);
          GivenBack(r.disk, id, e);
        case Allowed(_) =>
          SpawnKeepsDisk(s1, request, spawn, entryOk);
          SpawnKeepsGiven(s1, request, spawn, entryOk, id, e);
        case _ =>
      }
    }
  }

  lemma {:induction false} GivenOnDisk(s: State, id: nat, e: Entry)
    requires Given(s, id, e)
    ensures id in s.disk && OneDump(id, s.disk[id]) && EntryOf(id, s.disk[id]) == e
  {
  }

  lemma {:induction false} RestoredKeepsNames(disk: map<nat, Dir>)
    ensures Restored(disk).disk.Keys == disk.Keys
  {
  }

  lemma {:induction false} SpawnKeepsDisk(s: State, request: Request, spawn: Spawn, entryOk: bool)
    ensures AfterSpawn(s, request, spawn, entryOk).0.disk == s.disk
  {
  }

  /** Another event of the dump's own file finds the same file and persists the same origin. */
  lemma {:induction false} OwnFileKeepsGiven(s: State, cfg: Config, path: Path, jsonBytes: nat, e: Entry)
    requires Given(s, path.dir, e) && Extract(path.name).Details? && Extract(path.name).id == path.dir
    requires Lookup(s.disk, path).Some? && s.disk[path.dir].files == [Lookup(s.disk, path).value]
    ensures Given(Step(s, cfg, FileEvent(path, jsonBytes)), path.dir, e)
  {
    FileCompletes(s, cfg, path, jsonBytes);
    hide Step, Lookup, Extract;
  }

  lemma {:induction false} OtherFileKeepsGiven(s: State, cfg: Config, path: Path, jsonBytes: nat, id: nat, e: Entry)
    requires Given(s, id, e) && path.dir != id && Lookup(s.disk, path).Some?
    requires Extract(path.name).Details? && Extract(path.name).id == path.dir
    ensures Given(Step(s, cfg, FileEvent(path, jsonBytes)), id, e)
  {
    FileCompletes(s, cfg, path, jsonBytes);
    hide Step, Lookup, Extract, EntryOf, OneDump;
  }

  /** An event that is ignored, or throws and restarts the process. */
  lemma {:induction false} NoFileKeepsGiven(s: State, cfg: Config, path: Path, jsonBytes: nat, id: nat, e: Entry)
    requires OnDisk(s) && Given(s, id, e) && !(Extract(path.name).Details? && Lookup(s.disk, path).Some?)
    ensures Given(Step(s, cfg, FileEvent(path, jsonBytes)), id, e)
  {
    EventWithoutFile(s, cfg, path, jsonBytes);
    hide OnDisk, Given, Extract, Lookup, Restored, Step, OneDump, EntryOf;
    OnDiskIsTidy(s);
    GivenOnDisk(s, id, e);
    GivenBack(s.disk, id, e);
  }

  lemma {:induction false} EventWithoutFile(s: State, cfg: Config, path: Path, jsonBytes: nat)
    requires !(Extract(path.name).Details? && Lookup(s.disk, path).Some?)
    ensures Step(s, cfg, FileEvent(path, jsonBytes)) ==
            if Extract(path.name).NoMatch? then s else Restored(s.disk)
  {
    hide Extract, Lookup, Restored;
  }

  lemma {:induction false} FileKeepsGiven(s: State, cfg: Config, path: Path, jsonBytes: nat, id: nat, e: Entry)
    requires OnDisk(s) && Given(s, id, e)
    ensures Given(Step(s, cfg, FileEvent(path, jsonBytes)), id, e)
  {
    hide Given, Step;
    if Extract(path.name).Details? && Lookup(s.disk, path).Some? {
      assert OneDump(path.dir, s.disk[path.dir]) && s.disk[path.dir].files == [Lookup(s.disk, path).value];
      if path.dir == id {
        OwnFileKeepsGiven(s, cfg, path, jsonBytes, e);
      } else {
        OtherFileKeepsGiven(s, cfg, path, jsonBytes, id, e);
      }
    } else {
      NoFileKeepsGiven(s, cfg, path, jsonBytes, id, e);
    }
  }

  lemma {:induction false} StepKeepsGiven(s: State, cfg: Config, e: Event, id: nat, entry: Entry)
    requires OnDisk(s) && Given(s, id, entry) && WritesOwnFile(s, e) && id in Step(s, cfg, e).disk
    ensures Given(Step(s, cfg, e), id, entry)
  {
    match e {
      case CreateDump(request, spawn, entryOk) => CreateKeepsGiven(s, cfg, request, spawn, entryOk, id, entry);
      case ChildExit(pid, status) => ExitKeepsGiven(s, pid, status, id, entry);
      case Write(dir, file) => WriteKeepsGiven(s, dir, file, id, entry);
      case FileEvent(path, jsonBytes) => FileKeepsGiven(s, cfg, path, jsonBytes, id, entry);
      case Delete(k) => GivenAfterDelete(s, k, id, entry);
      case DeleteAll => DeleteAllKeepsGiven(s, id, entry);
      case Restart => GivenBack(s.disk, id, entry);
    }
    hide OnDisk, Given, AfterCreateDump, AfterChildExit, AfterWrite, AfterFileEvent, AfterDelete, AfterDeleteAll, Restored;
  }

  lemma {:induction false} ExitKeepsGiven(s: State, pid: int, status: int, id: nat, e: Entry)
    requires Given(s, id, e)
    ensures Given(AfterChildExit(s, pid, status), id, e)
  {
    hide Extract, EntryOf, OneDump;
  }

  lemma {:induction false} WriteKeepsGiven(s: State, dir: nat, file: File, id: nat, e: Entry)
    requires Given(s, id, e) && dir !in s.disk
    ensures Given(AfterWrite(s, dir, file), id, e)
  {
    hide Extract, EntryOf, OneDump;
  }

  /** Every child writes into its own directory, and the directory of this id stays throughout. */
  ghost predicate StaysOnDisk(s: State, cfg: Config, events: seq<Event>, id: nat)
    decreases |events|
  {
    events == [] ||
    (WritesOwnFile(s, events[0]) && id in Step(s, cfg, events[0]).disk
     && StaysOnDisk(Step(s, cfg, events[0]), cfg, events[1..], id))
  }

  lemma {:induction false} RunKeepsGiven(s: State, cfg: Config, events: seq<Event>, id: nat, entry: Entry)
    requires OnDisk(s) && Given(s, id, entry)
    requires StaysOnDisk(s, cfg, events, id)
    ensures var t := Run(s, cfg, events);
            OnDisk(t) && Given(t, id, entry)
    decreases |events|
  {
    if events == [] {
    } else {
      StepKeepsGiven(s, cfg, events[0], id, entry);
      OnDiskStep(s, cfg, events[0]);
      hide OnDisk, Given, Step;
      RunKeepsGiven(Step(s, cfg, events[0]), cfg, events[1..], id, entry);
    }
  }

  /**
   Every dump whose file was handled, and whose directory was neither evicted nor deleted since, is given
   back by a restart exactly as the file event left it: completed, with its file, size, times and originator.
   */
  lemma {:induction false} HandledDumpIsGivenBack(s: State, cfg: Config, path: Path, jsonBytes: nat, events: seq<Event>)
    requires OnDisk(s) && Extract(path.name).Details? && Lookup(s.disk, path).Some?
    requires path.dir in s.entries ==> s.entries[path.dir].Some?
    requires StaysOnDisk(Step(s, cfg, FileEvent(path, jsonBytes)), cfg, events, path.dir)
    ensures var s1 := Step(s, cfg, FileEvent(path, jsonBytes));
            var t := Step(Run(s1, cfg, events), cfg, Restart);
            && path.dir in s1.entries && s1.entries[path.dir].Some? && s1.entries[path.dir].value.status.Completed?
            && path.dir in t.entries && t.entries[path.dir] == s1.entries[path.dir]
  {
    var s1 := Step(s, cfg, FileEvent(path, jsonBytes));
    FileIsGiven(s, cfg, path, jsonBytes);
    OnDiskStep(s, cfg, FileEvent(path, jsonBytes));
    hide Restored, Step, Run, StaysOnDisk, OnDisk, Given;
    GivenRunIsGivenBack(s1, cfg, events, path.dir, s1.entries[path.dir].value);
  }

  predicate Has(s: State, id: nat, entry: Entry) {
    id in s.entries && s.entries[id] == Some(entry)
  }

  lemma {:induction false} GivenStateIsGivenBack(s: State, cfg: Config, id: nat, entry: Entry)
    requires OnDisk(s) && Given(s, id, entry)
    ensures Has(Step(s, cfg, Restart), id, entry)
  {
    hide *;
    RestartRestores(s, cfg);
    OnDiskIsTidy(s);
    GivenOnDisk(s, id, entry);
    RestartHas(s.disk, id, entry);
  }

  lemma {:induction false} RestartRestores(s: State, cfg: Config)
    ensures Step(s, cfg, Restart) == Restored(s.disk)
  {
    hide Restored;
  }

  lemma {:induction false} RestartHas(disk: map<nat, Dir>, id: nat, e: Entry)
    requires (forall k :: k in disk ==> OneDump(k, disk[k])) && id in disk && EntryOf(id, disk[id]) == e
    ensures Has(Restored(disk), id, e)
  {
    GivenBack(disk, id, e);
    hide Restored, Given, OneDump, EntryOf;
  }

  lemma {:induction false} GivenRunIsGivenBack(s: State, cfg: Config, events: seq<Event>, id: nat, entry: Entry)
    requires OnDisk(s) && Given(s, id, entry) && StaysOnDisk(s, cfg, events, id)
    ensures Has(Step(Run(s, cfg, events), cfg, Restart), id, entry)
  {
    hide *;
    RunKeepsGiven(s, cfg, events, id, entry);
    GivenStateIsGivenBack(Run(s, cfg, events), cfg, id, entry);
  }

  lemma {:induction false} OnDiskIsTidy(s: State)
    requires OnDisk(s)
    ensures forall id :: id in s.disk ==> OneDump(id, s.disk[id])
  {
  }

  // ----- restoring any disk ------------------------------------------------------------------

  predicate Carries(file: File, id: nat) {
    Extract(file.name).Details? && Extract(file.name).id == id
  }

  /** The first file of a directory whose name carries the id. */
  ghost predicate FirstCarrier(files: seq<File>, i: nat, id: nat) {
    i < |files| && Carries(files[i], id) && forall j :: 0 <= j < i ==> !Carries(files[j], id)
  }

  ghost predicate SomeCarrier(files: seq<File>, id: nat) {
    exists i :: 0 <= i < |files| && Carries(files[i], id)
  }

  /** The entry of a file, with the persisted origin if that can be read. */
  ghost predicate EntryOfFile(e: Entry, id: nat, file: File, preserve: Option<Preserve>) {
    var time := if Extract(file.name).Details? then Extract(file.name).timestamp else 0;
    && e.status.Completed? && e.file == Some(Path(id, file.name)) && e.size == file.bytes
    && e.elapsed == e.completedTime == time
    && if preserve.Some? && preserve.value.version == VERSION && preserve.value.dumpId == id then
         && e.originatorId == preserve.value.originatorId && e.originatorType == preserve.value.originatorType
         && e.startTime == preserve.value.startTime
       else e.originatorId == "" && e.originatorType == Internal && e.startTime == time
  }

  lemma {:induction false} CarriersAfterFirst(files: seq<File>, i: nat, id: nat)
    requires files != []
    ensures SomeCarrier(files, id) <==> Carries(files[0], id) || SomeCarrier(files[1..], id)
    ensures FirstCarrier(files, i, id) <==>
            if Carries(files[0], id) then i == 0 else i > 0 && FirstCarrier(files[1..], i - 1, id)
  {
    hide Carries;
    var rest := files[1..];
    assert forall j :: 0 <= j < |rest| ==> rest[j] == files[j + 1];
    if j :| 0 <= j < |files| && Carries(files[j], id) {
      assert j > 0 ==> Carries(rest[j - 1], id);
    }
    if i > 0 {
      assert forall j :: 0 < j < |files| ==> files[j] == rest[j - 1];
    }
  }

  lemma {:induction false} CarrierDeserializes(id: nat, file: File, preserve: Option<Preserve>)
    ensures var e := Deserialized(id, file, preserve);
            (e.Some? <==> Carries(file, id)) && (e.Some? ==> EntryOfFile(e.value, id, file, preserve))
  {
    hide Extract;
  }

  /** The persisted origin once it is removed as stale, if it is. */
  function PreserveLeft(id: nat, read: bool, preserve: Option<Preserve>): Option<Preserve> {
    if read && preserve.Some? && preserve.value.version == VERSION && preserve.value.dumpId != id then None else preserve
  }

  lemma {:induction false} RestoresFirst(id: nat, files: seq<File>, preserve: Option<Preserve>, i: nat)
    ensures var (e, p) := RestoredFrom(id, files, preserve);
            && (e.Some? <==> SomeCarrier(files, id))
            && (FirstCarrier(files, i, id) && e.Some? ==> EntryOfFile(e.value, id, files[i], preserve))
            && p == PreserveLeft(id, SomeCarrier(files, id), preserve)
    decreases |files|
  {
    if files == [] {
    } else {
      CarriersAfterFirst(files, i, id);
      CarrierDeserializes(id, files[0], preserve);
      hide Deserialized, Carries, SomeCarrier, FirstCarrier, EntryOfFile;
      RestoresFirst(id, files[1..], PreserveAfterRead(id, files[0], preserve), if i > 0 then i - 1 else 0);
      assert Carries(files[0], id) || PreserveAfterRead(id, files[0], preserve) == preserve;
    }
  }

  /**
   A restart over any disk: a directory yields an entry if and only if a name in it carries its number; the
   first such file counts, with the persisted origin if version and id fit; an origin of another id is
   removed when an entry is read beside it, and nothing else on the disk changes.
   */
  lemma {:induction false} RestartReadsDisk(s: State, cfg: Config, id: nat, i: nat)
    ensures var t := Step(s, cfg, Restart);
            && (id in t.disk <==> id in s.disk)
            && (id in t.entries <==> id in s.disk && SomeCarrier(s.disk[id].files, id))
            && (id in t.entries && FirstCarrier(s.disk[id].files, i, id) ==>
                  t.entries[id].Some? && EntryOfFile(t.entries[id].value, id, s.disk[id].files[i], s.disk[id].preserve))
            && (id in s.disk ==>
                  t.disk[id] == Dir(s.disk[id].files,
                                    PreserveLeft(id, SomeCarrier(s.disk[id].files, id), s.disk[id].preserve)))
  {
    if id in s.disk {
      RestoresFirst(id, s.disk[id].files, s.disk[id].preserve, i);
    }
    hide RestoredFrom, SomeCarrier, FirstCarrier, EntryOfFile, PreserveLeft, LargestId;
  }
}
