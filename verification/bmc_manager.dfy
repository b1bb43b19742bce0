/**
 The BMC dump manager: rotation of the dump directory, the user dump flag, and the entries persisted
 beside the dumps. The specification functions say what each callback does to the state; the class
 updates its fields in place.
 */
module BmcManager {
  import opened Wrappers
  import opened OrderedIds
  import opened DumpName

  datatype Status = InProgress | Completed | Failed

  datatype OriginatorType = Client | Internal | SupportingService

  datatype Path = Path(dir: nat, name: string)

  datatype Entry = Entry(status: Status, file: Option<Path>, size: nat, startTime: nat, completedTime: nat,
                         elapsed: nat, originatorId: string, originatorType: OriginatorType)

  datatype File = File(name: string, bytes: nat)

  /** The JSON file in the .preserve directory, and its size in bytes. */
  datatype Preserve = Preserve(version: nat, dumpId: nat, originatorId: string, originatorType: OriginatorType,
                               startTime: nat, bytes: nat)

  /** A directory of the dump directory, named by an id; files in iteration order. */
  datatype Dir = Dir(files: seq<File>, preserve: Option<Preserve>)

  datatype Child = Child(callbackId: nat, user: bool)

  datatype State = State(entries: map<nat, Option<Entry>>, last: nat, userDump: bool, children: map<int, Child>,
                         disk: map<nat, Dir>)

  /** Sizes in kilobytes; rotation is BMC_DUMP_ROTATE_CONFIG. */
  datatype Config = Config(rotation: bool, minSpace: nat, maxSize: nat, totalSize: nat)

  datatype Request = Request(user: bool, originatorId: string, originatorType: OriginatorType, now: nat)

  datatype Spawn = ForkFails | WatchFails | Watched(pid: int)

  datatype Result = Created(id: nat) | Unavailable | QuotaExceeded | FilesystemError | InternalFailure | Crashed

  datatype Event =
    | CreateDump(request: Request, spawn: Spawn, entryOk: bool)
    | ChildExit(pid: int, status: int)
    | Write(dir: nat, file: File)
    | FileEvent(path: Path, jsonBytes: nat)
    | Delete(id: nat)
    | DeleteAll
    | Restart

  const VERSION := 1

  // ----- sizes -------------------------------------------------------------------------------

  /** Sizes are rounded up per file. */
  function Kb(bytes: nat): nat { (bytes + 1023) / 1024 }

  function FilesKb(files: seq<File>): nat {
    if files == [] then 0 else Kb(files[0].bytes) + FilesKb(files[1..])
  }

  function DirKb(dir: Dir): nat {
    FilesKb(dir.files) + if dir.preserve.Some? then Kb(dir.preserve.value.bytes) else 0
  }

  ghost function UsedKb(disk: map<nat, Dir>): nat {
    Total(disk, DirKb)
  }

  ghost function FreeKb(disk: map<nat, Dir>, cfg: Config): nat {
    if UsedKb(disk) > cfg.totalSize then 0 else cfg.totalSize - UsedKb(disk)
  }

  // ----- rotation ----------------------------------------------------------------------------

  datatype Allowance = Allowed(size: nat) | OutOfSpace | NoDirectory | NullEntry

  datatype Rotated = Rotated(entries: map<nat, Option<Entry>>, disk: map<nat, Dir>, allowance: Allowance)

  /** remove_all of the directory of the entry's file; an empty path removes nothing. */
  function Removed(disk: map<nat, Dir>, entry: Entry): map<nat, Dir> {
    if entry.file.Some? then disk - {entry.file.value.dir} else disk
  }

  /** Deletes the entry with the smallest id until the running total free reaches the minimum. */
  function Rotate(entries: map<nat, Option<Entry>>, disk: map<nat, Dir>, free: nat, cfg: Config): Rotated
    decreases |entries|
  {
    if free >= cfg.minSpace then Rotated(entries, disk, Allowed(Min(free, cfg.maxSize)))
    else if entries == map[] then Rotated(entries, disk, NullEntry)
    else
      var id := Oldest(entries.Keys);
      if id !in disk then Rotated(entries, disk, NoDirectory)
      else if entries[id].None? then Rotated(entries, disk, NullEntry)
      else Rotate(entries - {id}, Removed(disk, entries[id].value), free + DirKb(disk[id]), cfg)
  }

  ghost function AllowedSize(entries: map<nat, Option<Entry>>, disk: map<nat, Dir>, cfg: Config): Rotated {
    var free := FreeKb(disk, cfg);
    if cfg.rotation then Rotate(entries, disk, free, cfg)
    else if free < cfg.minSpace then Rotated(entries, disk, OutOfSpace)
    else Rotated(entries, disk, Allowed(Min(free, cfg.maxSize)))
  }

  // ----- restore -----------------------------------------------------------------------------

  predicate Readable(p: Option<Preserve>, id: nat) {
    p.Some? && p.value.version == VERSION && p.value.dumpId == id
  }

  /** Entry::deserializeEntry: nothing if the name does not parse or carries another id. */
  function Deserialized(id: nat, file: File, preserve: Option<Preserve>): Option<Entry> {
    match Extract(file.name)
    case Details(fileId, t) =>
      if fileId != id then None
      else
        var e := Entry(Completed, Some(Path(id, file.name)), file.bytes, t, t, t, "", Internal);
        Some(if !Readable(preserve, id) then e
             else e.(originatorId := preserve.value.originatorId, originatorType := preserve.value.originatorType,
                     startTime := preserve.value.startTime))
    case _ => None
  }

  /** A stale .preserve directory is removed when it is read. */
  function PreserveAfterRead(id: nat, file: File, preserve: Option<Preserve>): Option<Preserve> {
    if Deserialized(id, file, preserve).Some? && preserve.Some? && preserve.value.version == VERSION
       && preserve.value.dumpId != id
    then None else preserve
  }

  /** The entry of one directory, where the first file that deserializes wins, and its .preserve afterwards. */
  function RestoredFrom(id: nat, files: seq<File>, preserve: Option<Preserve>): (Option<Entry>, Option<Preserve>) {
    if files == [] then (None, preserve)
    else
      var (rest, p) := RestoredFrom(id, files[1..], PreserveAfterRead(id, files[0], preserve));
      var first := Deserialized(id, files[0], preserve);
      (if first.Some? then first else rest, p)
  }

  function RestoredDir(id: nat, dir: Dir): (Option<Entry>, Dir) {
    var (e, p) := RestoredFrom(id, dir.files, dir.preserve);
    (e, dir.(preserve := p))
  }

  ghost predicate IsLargest(m: nat, ids: set<nat>) {
    (forall id :: id in ids ==> id <= m) && if ids == {} then m == 0 else m in ids
  }

  ghost function LargestId(ids: set<nat>): (m: nat)
    ensures IsLargest(m, ids)
    decreases |ids|
  {
    if ids == {} then 0
    else
      var k := Oldest(ids);
      var rest := ids - {k};
      assert forall id :: id in ids ==> id == k || id in rest;
      if rest == {} then k else LargestId(rest)
  }

  lemma {:induction false} LargestOfNone()
    ensures IsLargest(0, {})
  {
  }

  lemma {:induction false} LargestOneMore(m: nat, ids: set<nat>, id: nat)
    requires IsLargest(m, ids)
    ensures IsLargest(Max(m, id), ids + {id})
  {
  }

  lemma {:induction false} LargestIsUnique(m: nat, n: nat, ids: set<nat>)
    requires IsLargest(m, ids) && IsLargest(n, ids)
    ensures m == n
  {
  }

  ghost function RestoredEntries(disk: map<nat, Dir>, dirs: set<nat>): map<nat, Option<Entry>> {
    map id | id in disk && id in dirs && RestoredDir(id, disk[id]).0.Some? :: RestoredDir(id, disk[id]).0
  }

  ghost function RestoredDisk(disk: map<nat, Dir>, dirs: set<nat>): map<nat, Dir> {
    map id | id in disk :: if id in dirs then RestoredDir(id, disk[id]).1 else disk[id]
  }

  /** A new process after restore(); the order in which directories are visited does not matter. */
  ghost function Restored(disk: map<nat, Dir>): State {
    State(RestoredEntries(disk, disk.Keys), LargestId(disk.Keys), false, map[], RestoredDisk(disk, disk.Keys))
  }

  lemma {:induction false} NothingRestored(disk: map<nat, Dir>)
    ensures RestoredEntries(disk, {}) == map[] && RestoredDisk(disk, {}) == disk
  {
  }

  lemma {:induction false} RestoredOneMore(disk: map<nat, Dir>, dirs: set<nat>, id: nat)
    requires id in disk && id !in dirs
    ensures var (e, dir) := RestoredDir(id, disk[id]);
            && RestoredEntries(disk, dirs + {id}) ==
               (if e.Some? then RestoredEntries(disk, dirs)[id := e] else RestoredEntries(disk, dirs))
            && RestoredDisk(disk, dirs + {id}) == RestoredDisk(disk, dirs)[id := dir]
            && RestoredDisk(disk, dirs).Keys == disk.Keys && RestoredDisk(disk, dirs)[id] == disk[id]
  {
    hide RestoredDir;
  }

  // ----- what each callback does -------------------------------------------------------------

  ghost function AfterCreateDump(s: State, cfg: Config, request: Request, spawn: Spawn, entryOk: bool): (State, Result) {
    if s.userDump && request.user then (s, Unavailable)
    else
      var r := AllowedSize(s.entries, s.disk, cfg);
      var s1 := s.(entries := r.entries, disk := r.disk);
      match r.allowance
      case NullEntry => (Restored(r.disk), Crashed)
      case NoDirectory => (s1, FilesystemError)
      case OutOfSpace => (s1, QuotaExceeded)
      case Allowed(_) => AfterSpawn(s1, request, spawn, entryOk)
  }

  function AfterSpawn(s: State, request: Request, spawn: Spawn, entryOk: bool): (State, Result) {
    if !spawn.Watched? then (s, InternalFailure)
    else
      var id := NextId(s.last);
      var s1 := s.(children := Emplace(s.children, spawn.pid, Child(id, request.user)), last := id);
      if !entryOk then (s1, InternalFailure)
      else (s1.(entries := Emplace(s.entries, id, Some(NewEntry(request))),
                userDump := s.userDump || request.user), Created(id))
  }

  function NewEntry(request: Request): Entry {
    Entry(InProgress, None, 0, request.now, 0, 0, request.originatorId, request.originatorType)
  }

  function MarkFailed(entries: map<nat, Option<Entry>>, id: nat): map<nat, Option<Entry>> {
    if id !in entries then entries[id := None]
    else if entries[id].None? then entries
    else entries[id := Some(entries[id].value.(status := Failed))]
  }

  function AfterChildExit(s: State, pid: int, status: int): State {
    if pid !in s.children then s
    else
      var c := s.children[pid];
      s.(entries := if status != 0 then MarkFailed(s.entries, c.callbackId) else s.entries,
         userDump := s.userDump && !c.user,
         children := s.children - {pid})
  }

  function AfterWrite(s: State, dir: nat, file: File): State {
    var d := if dir in s.disk then s.disk[dir] else Dir([], None);
    s.(disk := s.disk[dir := d.(files := d.files + [file])])
  }

  /** The file of that name in a directory. */
  function Lookup(disk: map<nat, Dir>, path: Path): (f: Option<File>)
    ensures f.Some? ==> path.dir in disk && f.value in disk[path.dir].files && f.value.name == path.name
  {
    if path.dir in disk then Named(disk[path.dir].files, path.name) else None
  }

  function Named(files: seq<File>, name: string): (f: Option<File>)
    ensures f.Some? ==> f.value in files && f.value.name == name
  {
    if files == [] then None
    else if files[0].name == name then Some(files[0])
    else Named(files[1..], name)
  }

  /** Entry::update. */
  function Updated(e: Entry, timestamp: nat, bytes: nat, path: Path): Entry {
    e.(elapsed := timestamp, size := bytes, status := Completed, file := Some(path), completedTime := timestamp)
  }

  /** Entry::serialize. */
  function Serialized(e: Entry, id: nat, jsonBytes: nat): Preserve {
    Preserve(VERSION, id, e.originatorId, e.originatorType, e.startTime, jsonBytes)
  }

  /** A file that is gone, or whose numbers are out of range, throws out of the event loop. */
  ghost function AfterFileEvent(s: State, path: Path, jsonBytes: nat): State {
    match Extract(path.name)
    case NoMatch => s
    case OutOfRange => Restored(s.disk)
    case Details(id, t) =>
      match Lookup(s.disk, path)
      case None => Restored(s.disk)
      case Some(f) =>
        if id !in s.entries then
          s.(entries := s.entries[id := Some(Entry(Completed, Some(path), f.bytes, t, t, t, "", Internal))])
        else if s.entries[id].None? then s
        else
          var e := Updated(s.entries[id].value, t, f.bytes, path);
          s.(entries := s.entries[id := Some(e)],
             disk := s.disk[path.dir := s.disk[path.dir].(preserve := Some(Serialized(e, id, jsonBytes)))])
  }

  function AfterDelete(s: State, id: nat): State {
    if id in s.entries && s.entries[id].Some? then
      s.(entries := s.entries - {id}, disk := Removed(s.disk, s.entries[id].value))
    else s
  }

  ghost function AfterDeleteAll(s: State): State
    decreases |s.entries|
  {
    if s.entries == map[] then s
    else
      var id := Oldest(s.entries.Keys);
      if s.entries[id].None? then Restored(s.disk) else AfterDeleteAll(AfterDelete(s, id))
  }

  ghost function Step(s: State, cfg: Config, e: Event): State {
    match e
    case CreateDump(request, spawn, entryOk) => AfterCreateDump(s, cfg, request, spawn, entryOk).0
    case ChildExit(pid, status) => AfterChildExit(s, pid, status)
    case Write(dir, file) => AfterWrite(s, dir, file)
    case FileEvent(path, jsonBytes) => AfterFileEvent(s, path, jsonBytes)
    case Delete(id) => AfterDelete(s, id)
    case DeleteAll => AfterDeleteAll(s)
    case Restart => Restored(s.disk)
  }

  ghost function Run(s: State, cfg: Config, events: seq<Event>): State
    decreases |events|
  {
    if events == [] then s else Run(Step(s, cfg, events[0]), cfg, events[1..])
  }

  // ----- the manager -------------------------------------------------------------------------

  class Manager {
    const cfg: Config
    var entries: map<nat, Option<Entry>>
    var lastEntryId: nat
    var userDumpInProgress: bool
    var childPtrMap: map<int, Child>
    var disk: map<nat, Dir>

    constructor (cfg: Config, disk: map<nat, Dir>)
      ensures this.cfg == cfg && View() == State(map[], 0, false, map[], disk)
    {
      this.cfg := cfg;
      entries, lastEntryId, userDumpInProgress, childPtrMap, this.disk := map[], 0, false, map[], disk;
    }

    ghost function View(): State
      reads this
    {
      State(entries, lastEntryId, userDumpInProgress, childPtrMap, disk)
    }

    /** Directories are visited in any order; each file is tried, an existing entry wins. */
    method RestoreAll()
      modifies this
      ensures View() == Restored(old(disk))
    {
      entries, lastEntryId, userDumpInProgress, childPtrMap := map[], 0, false, map[];
      var todo := disk.Keys;
      ghost var start, done: set<nat> := disk, {};
      hide RestoredEntries, RestoredDisk, RestoredDir, IsLargest;
      NothingRestored(start);
      LargestOfNone();
      while todo != {}
        invariant !userDumpInProgress && childPtrMap == map[] && disk.Keys == start.Keys
        invariant done !! todo && done + todo == start.Keys
        invariant entries == RestoredEntries(start, done) && entries.Keys <= done
        invariant disk == RestoredDisk(start, done)
        invariant IsLargest(lastEntryId, done)
        decreases |todo|
      {
        var id :| id in todo;
        RestoredOneMore(start, done, id);
        LargestOneMore(lastEntryId, done, id);
        RestoreDirectory(id);
        todo, done := todo - {id}, done + {id};
      }
      assert done == start.Keys;
      LargestIsUnique(lastEntryId, LargestId(done), done);
    }

    method RestoreDirectory(id: nat)
      requires id in disk && id !in entries
      modifies this`lastEntryId, this`entries, this`disk
      ensures lastEntryId == Max(old(lastEntryId), id)
      ensures var (e, dir) := RestoredDir(id, old(disk[id]));
              && entries == (if e.Some? then old(entries)[id := e] else old(entries))
              && disk == old(disk)[id := dir]
    {
      lastEntryId := Max(lastEntryId, id);
      var files := disk[id].files;
      var i := 0;
      ghost var found: Option<Entry> := None;
      while i < |files|
        invariant 0 <= i <= |files|
        invariant lastEntryId == Max(old(lastEntryId), id)
        invariant id in disk && disk[id].files == files && disk == old(disk)[id := disk[id]]
        invariant entries == if found.Some? then old(entries)[id := found] else old(entries)
        invariant var (rest, p) := RestoredFrom(id, files[i..], disk[id].preserve);
                  RestoredFrom(id, files, old(disk[id].preserve)) == (if found.Some? then found else rest, p)
      {
        assert files[i..][0] == files[i] && files[i..][1..] == files[i + 1..];
        var preserve := disk[id].preserve;
        var e := Deserialized(id, files[i], preserve);
        disk := disk[id := disk[id].(preserve := PreserveAfterRead(id, files[i], preserve))];
        if e.Some? {
          if found.None? {
            found := e;
          }
          entries := Emplace(entries, id, e);
        }
        i := i + 1;
      }
      assert files[i..] == [];
    }

    method GetDirectorySize(files: seq<File>, preserve: Option<Preserve>) returns (size: nat)
      ensures size == DirKb(Dir(files, preserve))
    {
      size := 0;
      for i := 0 to |files|
        invariant size + FilesKb(files[i..]) == FilesKb(files)
      {
        size := size + Kb(files[i].bytes);
      }
      if preserve.Some? {
        size := size + Kb(preserve.value.bytes);
      }
    }

    method GetFreeSize() returns (free: nat)
      ensures free == FreeKb(disk, cfg)
    {
      var size := 0;
      var rest := disk;
      while rest != map[]
        invariant size + Total(rest, DirKb) == UsedKb(disk)
        decreases |rest|
      {
        var k := Oldest(rest.Keys);
        var sub := GetDirectorySize(rest[k].files, rest[k].preserve);
        TotalRemove(rest, DirKb, k);
        size, rest := size + sub, rest - {k};
      }
      free := if size > cfg.totalSize then 0 else cfg.totalSize - size;
    }

    method GetAllowedSize() returns (r: Allowance)
      modifies this`entries, this`disk
      ensures Rotated(entries, disk, r) == AllowedSize(old(entries), old(disk), cfg)
    {
      hide DirKb, Total;
      var size: nat := GetFreeSize();
      if cfg.rotation {
        while size < cfg.minSpace
          invariant Rotate(entries, disk, size, cfg) == AllowedSize(old(entries), old(disk), cfg)
          decreases |entries|
        {
          if entries == map[] {
            return NullEntry;
          }
          var id := Oldest(entries.Keys);
          if id !in disk {
            return NoDirectory;
          }
          if entries[id].None? {
            return NullEntry;
          }
          var freed := GetDirectorySize(disk[id].files, disk[id].preserve);
          size := size + freed;
          disk := Removed(disk, entries[id].value);
          entries := entries - {id};
        }
      } else if size < cfg.minSpace {
        return OutOfSpace;
      }
      if size > cfg.maxSize {
        size := cfg.maxSize;
      }
      r := Allowed(size);
    }

    method CreateDump(request: Request, spawn: Spawn, entryOk: bool) returns (r: Result)
      modifies this
      ensures (View(), r) == AfterCreateDump(old(View()), cfg, request, spawn, entryOk)
    {
      if userDumpInProgress && request.user {
        return Unavailable;
      }
      var allowance := GetAllowedSize();
      match allowance {
        case NullEntry =>
          RestoreAll();
          return Crashed;
        case NoDirectory => return FilesystemError;
        case OutOfSpace => return QuotaExceeded;
        case Allowed(_) =>
      }
      if !spawn.Watched? {
        return InternalFailure;
      }
      var entryId := NextId(lastEntryId);
      childPtrMap := Emplace(childPtrMap, spawn.pid, Child(entryId, request.user));
      lastEntryId := NextId(lastEntryId);
      if !entryOk {
        return InternalFailure;
      }
      entries := Emplace(entries, lastEntryId, Some(NewEntry(request)));
      if request.user {
        userDumpInProgress := true;
      }
      r := Created(lastEntryId);
    }

    method OnChildExit(pid: int, status: int)
      modifies this
      ensures View() == AfterChildExit(old(View()), pid, status)
    {
      if pid !in childPtrMap {
        return;
      }
      var c := childPtrMap[pid];
      if status != 0 {
        if c.callbackId !in entries {
          entries := entries[c.callbackId := None];
        }
        var entry := entries[c.callbackId];
        if entry.Some? {
          entries := entries[c.callbackId := Some(entry.value.(status := Failed))];
        }
      }
      if c.user {
        userDumpInProgress := false;
      }
      childPtrMap := childPtrMap - {pid};
    }

    method CreateEntry(path: Path, jsonBytes: nat)
      modifies this
      ensures View() == AfterFileEvent(old(View()), path, jsonBytes)
    {
      match Extract(path.name) {
        case NoMatch =>
        case OutOfRange => RestoreAll();
        case Details(id, timestamp) =>
          var f := Lookup(disk, path);
          if f.None? {
            RestoreAll();
          } else if id in entries {
            if entries[id].Some? {
              var e := Updated(entries[id].value, timestamp, f.value.bytes, path);
              entries := entries[id := Some(e)];
              disk := disk[path.dir := disk[path.dir].(preserve := Some(Serialized(e, id, jsonBytes)))];
            }
          } else {
            entries := entries[id := Some(Entry(Completed, Some(path), f.value.bytes, timestamp, timestamp, timestamp,
                                                "", Internal))];
          }
      }
    }

    method DeleteEntry(id: nat)
      modifies this
      ensures View() == AfterDelete(old(View()), id)
    {
      if id in entries && entries[id].Some? {
        disk := Removed(disk, entries[id].value);
        entries := entries - {id};
      }
    }

    method OnDeleteAll()
      modifies this
      ensures View() == AfterDeleteAll(old(View()))
    {
      while entries != map[]
        invariant AfterDeleteAll(View()) == AfterDeleteAll(old(View()))
        decreases |entries|
      {
        var id := Oldest(entries.Keys);
        if entries[id].None? {
          RestoreAll();
          return;
        }
        DeleteEntry(id);
      }
    }

    /** The event loop; writes are made by the children. */
    method EventLoop(events: seq<Event>)
      modifies this
      ensures View() == Run(old(View()), cfg, events)
    {
      for i := 0 to |events|
        invariant Run(View(), cfg, events[i..]) == Run(old(View()), cfg, events)
      {
        assert events[i..][0] == events[i] && events[i..][1..] == events[i + 1..];
        match events[i] {
          case CreateDump(request, spawn, entryOk) =>
            var r := CreateDump(request, spawn, entryOk);
          case ChildExit(pid, status) => OnChildExit(pid, status);
          case Write(dir, file) =>
            var d := if dir in disk then disk[dir] else Dir([], None);
            disk := disk[dir := d.(files := d.files + [file])];
          case FileEvent(path, jsonBytes) => CreateEntry(path, jsonBytes);
          case Delete(id) => DeleteEntry(id);
          case DeleteAll => OnDeleteAll();
          case Restart => RestoreAll();
        }
      }
    }
  }
}
