/**
 The NVIDIA system dump manager: its state, what each of its callbacks does to that state, and the
 class whose methods update the fields in place.
 */
module NvidiaManager {
  import opened Wrappers
  import opened OrderedIds

  datatype Status = InProgress | Completed | Failed

  /** The DiagnosticType strings; Dreport stands for the empty one. */
  datatype DumpType =
    | Dreport | SelfTest | FPGA | EROT | ROT | MCU | NetNVSwitch | NetNVLinkManagementNIC | NetGpuSxm
    | RetLTSSM | RetRegister | FirmwareAttributes | HardwareCheckout | Unrecognized(name: string)

  /** dumpType is Dreport for entries created from a file; hasFile tells whether a file path is set. */
  datatype Entry = Entry(dumpType: DumpType, status: Status, hasFile: bool)

  /** A watched child: the id in its arguments, the id its exit callback captured, and its type. */
  datatype Child = Child(argId: nat, callbackId: nat, dumpType: DumpType)

  /**
   A slot None is a null pointer in the entries map. retimerEnabled is the ServiceReady state that
   setting the debug mode selects.
   */
  datatype State = State(entries: map<nat, Option<Entry>>, last: nat, inProgress: set<DumpType>,
                         children: map<int, Child>, retimerEnabled: bool)

  /** limit is SYSTEM_DUMP_MAX_LIMIT, 0 for none; selfTest tells whether self test dumps are supported. */
  datatype Config = Config(limit: nat, selfTest: bool)

  /** What the two space checks find, of the partition and of the dump directory; the first can fail. */
  datatype Space = Enough | TooLittle | Unreadable

  datatype Spawn = ForkFails | WatchFails | Watched(pid: int)

  datatype Result = Created(id: nat) | Unavailable | QuotaExceeded | InvalidArgument | InternalFailure | Crashed

  /** A directory named by an id, and the id in the name of the first file in it. */
  datatype Listing = Listing(dir: nat, file: Option<nat>)

  datatype Event =
    | CreateDump(dumpType: DumpType, space: Space, spawn: Spawn, entryOk: bool)
    | ChildExit(pid: int, status: int)
    | FileWritten(id: nat)
    | Delete(id: nat)
    | DeleteAll
    | Restore(found: seq<Listing>)
    | Restart(found: seq<Listing>)

  const FRESH := State(map[], 0, {}, map[], false)

  predicate Supported(dumpType: DumpType, cfg: Config) {
    !dumpType.Unrecognized? && (dumpType.SelfTest? ==> cfg.selfTest)
  }

  predicate Busy(inProgress: set<DumpType>, dumpType: DumpType) {
    || dumpType in inProgress
    || (RetLTSSM in inProgress && dumpType == RetRegister)
    || (RetRegister in inProgress && dumpType == RetLTSSM)
  }

  // ----- what each step does -----------------------------------------------------------------

  ghost function KeptIds(entries: map<nat, Option<Entry>>, limit: nat): set<nat> {
    Youngest(entries.Keys, |entries.Keys| - Excess(|entries.Keys|, limit))
  }

  ghost function Limited(entries: map<nat, Option<Entry>>, limit: nat): map<nat, Option<Entry>> {
    entries - (entries.Keys - KeptIds(entries, limit))
  }

  /** Evicting dereferences every slot it removes. */
  ghost predicate EvictsNull(entries: map<nat, Option<Entry>>, limit: nat) {
    exists id :: id in entries && id !in KeptIds(entries, limit) && entries[id].None?
  }

  /** captureDump; Created means that the child runs and its id was issued. */
  function AfterCapture(s: State, cfg: Config, dumpType: DumpType, space: Space, spawn: Spawn): (State, Result) {
    if space.Unreadable? then (s, InternalFailure)
    else if space.TooLittle? then (s, QuotaExceeded)
    else if !Supported(dumpType, cfg) then (s, InvalidArgument)
    else
      var s1 := s.(retimerEnabled := s.retimerEnabled || dumpType == RetLTSSM);
      match spawn
      case ForkFails => (s1.(inProgress := s.inProgress + {dumpType}), InternalFailure)
      case WatchFails => (s1.(inProgress := s.inProgress - {dumpType}), InternalFailure)
      case Watched(pid) =>
        var id := NextId(s.last);
        (s1.(inProgress := s.inProgress + {dumpType}, last := id,
             children := Emplace(s.children, pid, Child(id, id, dumpType))), Created(id))
  }

  /** createDump once the eviction is done. */
  function AfterRequest(s: State, cfg: Config, dumpType: DumpType, space: Space, spawn: Spawn, entryOk: bool): (State, Result) {
    if Busy(s.inProgress, dumpType) then (s, Unavailable)
    else
      var (s1, r) := AfterCapture(s, cfg, dumpType, space, spawn);
      if !r.Created? then (s1, r)
      else if !entryOk then (s1, InternalFailure)
      else (s1.(entries := Emplace(s1.entries, r.id, Some(Entry(dumpType, InProgress, false)))), r)
  }

  ghost function AfterCreateDump(s: State, cfg: Config, dumpType: DumpType, space: Space, spawn: Spawn,
                                 entryOk: bool): (State, Result)
  {
    if EvictsNull(s.entries, cfg.limit) then (FRESH, Crashed)
    else AfterRequest(s.(entries := Limited(s.entries, cfg.limit)), cfg, dumpType, space, spawn, entryOk)
  }

  /** Looking up a missing id with operator[] leaves a null slot behind. */
  function MarkFailed(entries: map<nat, Option<Entry>>, id: nat): map<nat, Option<Entry>> {
    if id !in entries then entries[id := None]
    else if entries[id].None? then entries
    else entries[id := Some(entries[id].value.(status := Failed))]
  }

  function AfterChildExit(s: State, pid: int, status: int): State {
    if pid !in s.children then s
    else
      var c := s.children[pid];
      s.(entries := if status != 0 then MarkFailed(s.entries, c.callbackId) else s.entries,
         children := s.children - {pid},
         inProgress := s.inProgress - {c.dumpType})
  }

  function AfterFile(s: State, id: nat): State {
    if id !in s.entries then
      s.(entries := s.entries[id := Some(Entry(Dreport, Completed, true))])
    else if s.entries[id].None? then s
    else
      var t := s.entries[id].value.dumpType;
      s.(entries := s.entries[id := Some(Entry(t, Completed, true))],
         retimerEnabled := s.retimerEnabled && t != RetLTSSM,
         inProgress := s.inProgress - {t})
  }

  function AfterDelete(s: State, id: nat): State {
    if id in s.entries && s.entries[id].Some? then s.(entries := s.entries - {id}) else s
  }

  ghost function AfterDeleteAll(s: State): State {
    if exists id :: id in s.entries && s.entries[id].None? then FRESH else s.(entries := map[])
  }

  function AfterRestore(s: State, found: seq<Listing>): State
    decreases |found|
  {
    if found == [] then s
    else
      var s1 := s.(last := Max(s.last, found[0].dir % U32));
      AfterRestore(if found[0].file.Some? then AfterFile(s1, found[0].file.value % U32) else s1, found[1..])
  }

  ghost function Step(s: State, cfg: Config, e: Event): State {
    match e
    case CreateDump(t, space, spawn, entryOk) => AfterCreateDump(s, cfg, t, space, spawn, entryOk).0
    case ChildExit(pid, status) => AfterChildExit(s, pid, status)
    case FileWritten(id) => AfterFile(s, id % U32)
    case Delete(id) => AfterDelete(s, id)
    case DeleteAll => AfterDeleteAll(s)
    case Restore(found) => AfterRestore(s, found)
    case Restart(found) => AfterRestore(FRESH, found)
  }

  ghost function Run(s: State, cfg: Config, events: seq<Event>): State
    decreases |events|
  {
    if events == [] then s else Run(Step(s, cfg, events[0]), cfg, events[1..])
  }

  // ----- the manager -------------------------------------------------------------------------

  class Manager {
    const cfg: Config
    var entries: map<nat, Option<Entry>>
    var lastEntryId: nat
    var dumpInProgress: set<DumpType>
    var childPtrMap: map<int, Child>
    var retimerEnabled: bool

    constructor (cfg: Config)
      ensures this.cfg == cfg && View() == FRESH
    {
      this.cfg := cfg;
      entries, lastEntryId, dumpInProgress, childPtrMap, retimerEnabled := map[], 0, {}, map[], false;
    }

    ghost function View(): State
      reads this
    {
      State(entries, lastEntryId, dumpInProgress, childPtrMap, retimerEnabled)
    }

    /** A new process: nothing in memory. */
    method Reset()
      modifies this
      ensures View() == FRESH
    {
      entries, lastEntryId, dumpInProgress, childPtrMap, retimerEnabled := map[], 0, {}, map[], false;
    }

    /** Walks from the oldest entry; crashed tells that the walk met a null slot. */
    method LimitDumpEntries() returns (crashed: bool)
      modifies this`entries
      ensures crashed <==> EvictsNull(old(entries), cfg.limit)
      ensures !crashed ==> entries == Limited(old(entries), cfg.limit)
    {
      ghost var ids := entries.Keys;
      assert |ids| == |entries|;
      ghost var kept := KeptIds(entries, cfg.limit);
      assert entries - {} == entries;
      if cfg.limit == 0 || |entries| < cfg.limit {
        SuffixesAreChain(ids, kept, ids);
        return false;
      }
      var excess := |entries| - (cfg.limit - 1);
      while entries != map[] && excess > 0
        invariant 0 <= excess && |entries.Keys| - excess == |kept|
        invariant IsSuffix(entries.Keys, ids) && kept <= entries.Keys
        invariant entries == old(entries) - (ids - entries.Keys)
        invariant forall id :: id in old(entries) && id !in entries ==> old(entries)[id].Some?
        decreases excess
      {
        var d := Oldest(entries.Keys);
        SuffixesAreChain(kept, entries.Keys - {d}, ids);
        if entries[d].None? {
          return true;
        }
        entries := entries - {d};
        excess := excess - 1;
      }
      CardinalityMonotone(kept, entries.Keys);
      crashed := false;
    }

    method CreateDump(dumpType: DumpType, space: Space, spawn: Spawn, entryOk: bool) returns (r: Result)
      modifies this
      ensures (View(), r) == AfterCreateDump(old(View()), cfg, dumpType, space, spawn, entryOk)
    {
      hide KeptIds, AfterRequest;
      var crashed := LimitDumpEntries();
      if crashed {
        Reset();
        r := Crashed;
      } else {
        r := StartDump(dumpType, space, spawn, entryOk);
      }
    }

    /** createDump once the eviction is done. */
    method StartDump(dumpType: DumpType, space: Space, spawn: Spawn, entryOk: bool) returns (r: Result)
      modifies this
      ensures (View(), r) == AfterRequest(old(View()), cfg, dumpType, space, spawn, entryOk)
    {
      if Busy(dumpInProgress, dumpType) {
        return Unavailable;
      }
      r := CaptureDump(dumpType, space, spawn);
      if r.Created? {
        if !entryOk {
          return InternalFailure;
        }
        entries := Emplace(entries, r.id, Some(Entry(dumpType, InProgress, false)));
      }
    }

    method CaptureDump(dumpType: DumpType, space: Space, spawn: Spawn) returns (r: Result)
      modifies this
      ensures (View(), r) == AfterCapture(old(View()), cfg, dumpType, space, spawn)
    {
      if space.Unreadable? {
        return InternalFailure;
      }
      if space.TooLittle? {
        return QuotaExceeded;
      }
      if !Supported(dumpType, cfg) {
        return InvalidArgument;
      }
      if dumpType == RetLTSSM {
        retimerEnabled := true;
      }
      dumpInProgress := dumpInProgress + {dumpType};
      var argId := NextId(lastEntryId);
      match spawn {
        case ForkFails =>
          return InternalFailure;
        case WatchFails =>
          dumpInProgress := dumpInProgress - {dumpType};
          assert old(dumpInProgress) + {dumpType} - {dumpType} == old(dumpInProgress) - {dumpType};
          return InternalFailure;
        case Watched(pid) =>
          var entryId := NextId(lastEntryId);
          childPtrMap := Emplace(childPtrMap, pid, Child(argId, entryId, dumpType));
          lastEntryId := NextId(lastEntryId);
          return Created(lastEntryId);
      }
    }

    method OnChildExit(pid: int, status: int)
      modifies this
      ensures View() == AfterChildExit(old(View()), pid, status)
    {
      if pid !in childPtrMap {
        return;
      }
      var c := childPtrMap[pid];
      if status != 0 {
        if c.callbackId !in entries {
          entries := entries[c.callbackId := None];
        }
        var entry := entries[c.callbackId];
        if entry.Some? {
          entries := entries[c.callbackId := Some(entry.value.(status := Failed))];
        }
      }
      childPtrMap := childPtrMap - {pid};
      dumpInProgress := dumpInProgress - {c.dumpType};
    }

    method CreateEntry(id: nat)
      modifies this
      ensures View() == AfterFile(old(View()), id)
    {
      if id in entries && entries[id].Some? {
        var dumpType := entries[id].value.dumpType;
        entries := entries[id := Some(Entry(dumpType, Completed, true))];
        if dumpType == RetLTSSM {
          retimerEnabled := false;
        }
        dumpInProgress := dumpInProgress - {dumpType};
        return;
      }
      entries := Emplace(entries, id, Some(Entry(Dreport, Completed, true)));
    }

    method DeleteEntry(id: nat)
      modifies this
      ensures View() == AfterDelete(old(View()), id)
    {
      if id in entries && entries[id].Some? {
        entries := entries - {id};
      }
    }

    method OnDeleteAll()
      modifies this
      ensures View() == AfterDeleteAll(old(View()))
    {
      ghost var ids := entries.Keys;
      while entries != map[]
        invariant entries == old(entries) - (ids - entries.Keys)
        invariant View() == old(View()).(entries := entries)
        invariant forall id :: id in old(entries) && id !in entries ==> old(entries)[id].Some?
        decreases |entries|
      {
        var id := Oldest(entries.Keys);
        if entries[id].None? {
          Reset();
          return;
        }
        entries := entries - {id};
      }
    }

    method OnRestore(found: seq<Listing>)
      modifies this
      ensures View() == AfterRestore(old(View()), found)
    {
      for i := 0 to |found|
        invariant AfterRestore(View(), found[i..]) == AfterRestore(old(View()), found)
      {
        assert found[i..][0] == found[i] && found[i..][1..] == found[i + 1..];
        lastEntryId := Max(lastEntryId, found[i].dir % U32);
        if found[i].file.Some? {
          CreateEntry(found[i].file.value % U32);
        }
      }
    }

    /** The event loop, one callback after the other. */
    method EventLoop(events: seq<Event>)
      modifies this
      ensures View() == Run(old(View()), cfg, events)
    {
      for i := 0 to |events|
        invariant Run(View(), cfg, events[i..]) == Run(old(View()), cfg, events)
      {
        assert events[i..][0] == events[i] && events[i..][1..] == events[i + 1..];
        match events[i] {
          case CreateDump(t, space, spawn, entryOk) =>
            var r := CreateDump(t, space, spawn, entryOk);
          case ChildExit(pid, status) => OnChildExit(pid, status);
          case FileWritten(id) => CreateEntry(id % U32);
          case Delete(id) => DeleteEntry(id);
          case DeleteAll => OnDeleteAll();
          case Restore(found) => OnRestore(found);
          case Restart(found) =>
            Reset();
            OnRestore(found);
        }
      }
    }
  }
}
