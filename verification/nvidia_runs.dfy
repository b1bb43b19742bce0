/** What every run of the NVIDIA system dump manager keeps. */
module NvidiaRuns {
  import opened Wrappers
  import opened OrderedIds
  import opened NvidiaManager

  /** A condition on the environment that each event of a run meets in the state it meets. */
  ghost predicate Along(s: State, cfg: Config, events: seq<Event>, ok: (State, Event) -> bool)
    decreases |events|
  {
    events == [] || (ok(s, events[0]) && Along(Step(s, cfg, events[0]), cfg, events[1..], ok))
  }

  /** fork returns a process that is not already a watched child. */
  predicate NewPid(s: State, e: Event) {
    e.CreateDump? && e.spawn.Watched? ==> e.spawn.pid !in s.children
  }

  ghost predicate Watching(s: State, dumpType: DumpType) {
    exists pid :: pid in s.children && s.children[pid].dumpType == dumpType
  }

  /** Keys and the ids callbacks hold are at most the last one issued. */
  ghost predicate KeysBelow(s: State) {
    && s.last < U32
    && (forall id :: id in s.entries ==> id <= s.last)
    && (forall pid :: pid in s.children ==> s.children[pid].callbackId <= s.last)
  }

  // ----- exclusion ---------------------------------------------------------------------------

  ghost predicate Guarded(s: State) {
    forall t :: t in s.inProgress ==> Watching(s, t)
  }

  predicate Exclusive(s: State) {
    && !(RetLTSSM in s.inProgress && RetRegister in s.inProgress)
    && (RetLTSSM in s.inProgress ==> s.retimerEnabled)
  }

  lemma {:induction false} RestoreOnlyClears(s: State, found: seq<Listing>)
    ensures var s' := AfterRestore(s, found);
            && s'.children == s.children && s'.inProgress <= s.inProgress
            && (RetLTSSM in s'.inProgress ==> s'.retimerEnabled == s.retimerEnabled)
    decreases |found|
  {
    if found == [] {
    } else {
      var s1 := s.(last := Max(s.last, found[0].dir % U32));
      RestoreOnlyClears(if found[0].file.Some? then AfterFile(s1, found[0].file.value % U32) else s1, found[1..]);
    }
  }

  /** The retimer dumps exclude each other and keep the retimer enabled, fork failures included. */
  lemma {:induction false} ExclusiveStep(s: State, cfg: Config, e: Event)
    requires Exclusive(s)
    ensures Exclusive(Step(s, cfg, e))
  {
    hide KeptIds;
    match e {
      case Restore(found) => RestoreOnlyClears(s, found);
      case Restart(found) => RestoreOnlyClears(FRESH, found);
      case _ =>
    }
  }

  predicate Forks(s: State, e: Event) {
    NewPid(s, e) && !(e.CreateDump? && e.spawn.ForkFails?)
  }

  lemma {:induction false} GuardedStep(s: State, cfg: Config, e: Event)
    requires Guarded(s) && Forks(s, e)
    ensures Guarded(Step(s, cfg, e))
  {
    hide KeptIds;
    var s' := Step(s, cfg, e);
    match e {
      case CreateDump(dumpType, space, spawn, entryOk) =>
        forall t | t in s'.inProgress
          ensures Watching(s', t)
        {
          if t in s.inProgress {
            var pid :| pid in s.children && s.children[pid].dumpType == t;
            assert pid in s'.children;
          } else {
            assert spawn.pid in s'.children;
          }
        }
      case ChildExit(gone, _) =>
        forall t | t in s'.inProgress
          ensures Watching(s', t)
        {
          var pid :| pid in s.children && s.children[pid].dumpType == t;
          assert pid in s'.children;
        }
      case Restore(found) => KeepsChildren(s, s', found);
      case Restart(found) => KeepsChildren(FRESH, s', found);
      case FileWritten(id) => Unblocks(s, s');
      case Delete(id) => Unblocks(s, s');
      case DeleteAll =>
        if s' != FRESH {
          Unblocks(s, s');
        }
    }
  }

  lemma {:induction false} Unblocks(s: State, s': State)
    requires Guarded(s) && s'.children == s.children && s'.inProgress <= s.inProgress
    ensures Guarded(s')
  {
    forall t | t in s'.inProgress
      ensures Watching(s', t)
    {
      var pid :| pid in s.children && s.children[pid].dumpType == t;
      assert pid in s'.children;
    }
  }

  lemma {:induction false} KeepsChildren(s: State, s': State, found: seq<Listing>)
    requires Guarded(s) && s' == AfterRestore(s, found)
    ensures Guarded(s')
  {
    RestoreOnlyClears(s, found);
    Unblocks(s, s');
  }

  /** In every run without fork failures all four exclusion properties hold at the end. */
  lemma {:induction false} RunsAreExclusive(s: State, cfg: Config, events: seq<Event>)
    requires Guarded(s) && Exclusive(s) && Along(s, cfg, events, Forks)
    ensures var s' := Run(s, cfg, events);
            && Guarded(s') && Exclusive(s')
            && (s'.children == map[] ==> s'.inProgress == {})
    decreases |events|
  {
    if events != [] {
      GuardedStep(s, cfg, events[0]);
      ExclusiveStep(s, cfg, events[0]);
      RunsAreExclusive(Step(s, cfg, events[0]), cfg, events[1..]);
    } else if s.children == map[] {
      assert forall t :: t in s.inProgress ==> Watching(s, t);
    }
  }

  lemma {:induction false} RetimerRuns(s: State, cfg: Config, events: seq<Event>)
    requires Exclusive(s)
    ensures Exclusive(Run(s, cfg, events))
    decreases |events|
  {
    if events == [] {
    } else {
      ExclusiveStep(s, cfg, events[0]);
      RetimerRuns(Step(s, cfg, events[0]), cfg, events[1..]);
    }
  }

  // ----- fork failures -----------------------------------------------------------------------

  ghost predicate ReachesFork(s: State, cfg: Config, e: Event) {
    e.CreateDump? && !EvictsNull(s.entries, cfg.limit) && !Busy(s.inProgress, e.dumpType) && e.space.Enough?
    && Supported(e.dumpType, cfg)
  }

  /** A failed fork keeps the types guarded exactly when an earlier child of its type still runs. */
  lemma {:induction false} ForkFailure(s: State, cfg: Config, e: Event)
    requires Guarded(s) && ReachesFork(s, cfg, e) && e.spawn.ForkFails?
    ensures Guarded(Step(s, cfg, e)) <==> Watching(s, e.dumpType)
  {
    hide KeptIds;
    var s' := Step(s, cfg, e);
    assert s'.children == s.children && e.dumpType in s'.inProgress;
    if Watching(s, e.dumpType) {
      forall t | t in s'.inProgress
        ensures Watching(s', t)
      {
        var pid :| pid in s.children && s.children[pid].dumpType == t;
        assert pid in s'.children;
      }
    } else {
      assert !Watching(s', e.dumpType);
    }
  }

  /** Neither a child nor the file of an entry could end the type. */
  ghost predicate Unreachable(s: State, dumpType: DumpType) {
    && !Watching(s, dumpType)
    && forall id :: id in s.entries && s.entries[id].Some? ==> s.entries[id].value.dumpType != dumpType
  }

  /** In progress for good. Any file that has no entry yet makes one of the empty type, so that type never is. */
  ghost predicate Locked(s: State, dumpType: DumpType) {
    dumpType in s.inProgress && dumpType != Dreport && Unreachable(s, dumpType)
  }

  /** The event does not end the process, by a restart or by following a null slot. */
  ghost predicate Survives(s: State, cfg: Config, e: Event) {
    && !e.Restart?
    && !(e.CreateDump? && EvictsNull(s.entries, cfg.limit))
    && !(e.DeleteAll? && exists id :: id in s.entries && s.entries[id].None?)
  }

  lemma {:induction false} LockedRestore(s: State, found: seq<Listing>, dumpType: DumpType)
    requires Locked(s, dumpType)
    ensures Locked(AfterRestore(s, found), dumpType)
    decreases |found|
  {
    if found == [] {
    } else {
      var s1 := s.(last := Max(s.last, found[0].dir % U32));
      LockedRestore(if found[0].file.Some? then AfterFile(s1, found[0].file.value % U32) else s1, found[1..], dumpType);
    }
  }

  lemma {:induction false} LockedRequest(s: State, cfg: Config, e: Event, dumpType: DumpType)
    requires Locked(s, dumpType) && e.CreateDump?
    ensures Locked(AfterRequest(s, cfg, e.dumpType, e.space, e.spawn, e.entryOk).0, dumpType)
  {
    hide Unreachable;
    var s' := AfterRequest(s, cfg, e.dumpType, e.space, e.spawn, e.entryOk).0;
    assert dumpType in s'.inProgress;
    RequestKeepsOthers(s, cfg, e, dumpType);
  }

  /** A request brings nothing that could end a type it is refused for. */
  lemma {:induction false} RequestKeepsOthers(s: State, cfg: Config, e: Event, dumpType: DumpType)
    requires Unreachable(s, dumpType) && dumpType in s.inProgress && e.CreateDump?
    ensures Unreachable(AfterRequest(s, cfg, e.dumpType, e.space, e.spawn, e.entryOk).0, dumpType)
  {
    if Busy(s.inProgress, e.dumpType) {
    } else {
      assert e.dumpType != dumpType;
      var (s1, r) := AfterCapture(s, cfg, e.dumpType, e.space, e.spawn);
      assert s1.entries == s.entries;
      forall pid | pid in s1.children
        ensures s1.children[pid].dumpType != dumpType
      {
        assert pid in s.children ==> s.children[pid].dumpType != dumpType;
      }
      assert Unreachable(s1, dumpType);
      hide AfterCapture, Busy;
    }
  }

  lemma {:induction false} LockedStep(s: State, cfg: Config, e: Event, dumpType: DumpType)
    requires Locked(s, dumpType) && Survives(s, cfg, e)
    ensures Locked(Step(s, cfg, e), dumpType)
  {
    hide KeptIds;
    var s' := Step(s, cfg, e);
    match e {
      case CreateDump(_, _, _, _) =>
        LockedRequest(s.(entries := Limited(s.entries, cfg.limit)), cfg, e, dumpType);
      case Restore(found) => LockedRestore(s, found, dumpType);
      case ChildExit(pid, _) =>
        assert pid in s.children ==> s.children[pid].dumpType != dumpType;
      case _ =>
    }
  }

  /** The process lives through all events. */
  ghost predicate Lives(s: State, cfg: Config, events: seq<Event>)
    decreases |events|
  {
    events == [] || (Survives(s, cfg, events[0]) && Lives(Step(s, cfg, events[0]), cfg, events[1..]))
  }

  lemma {:induction false} LockedThroughout(s: State, cfg: Config, events: seq<Event>, dumpType: DumpType)
    requires Locked(s, dumpType) && Lives(s, cfg, events)
    ensures Locked(Run(s, cfg, events), dumpType)
    decreases |events|
  {
    if events == [] {
    } else {
      LockedStep(s, cfg, events[0], dumpType);
      hide Locked, Step, Survives;
      LockedThroughout(Step(s, cfg, events[0]), cfg, events[1..], dumpType);
    }
  }

  /** A type that is not locked is released by the exit of its child, by the file of its entry, or by a new file twice. */
  lemma {:induction false} Release(s: State, cfg: Config, dumpType: DumpType) returns (events: seq<Event>)
    requires KeysBelow(s) && dumpType in s.inProgress && !Locked(s, dumpType)
    requires dumpType == Dreport ==> s.last + 1 < U32
    ensures Lives(s, cfg, events) && dumpType !in Run(s, cfg, events).inProgress
  {
    if Watching(s, dumpType) {
      var pid :| pid in s.children && s.children[pid].dumpType == dumpType;
      events := [ChildExit(pid, 0)];
    } else if id :| id in s.entries && s.entries[id].Some? && s.entries[id].value.dumpType == dumpType {
      events := [FileWritten(id)];
    } else {
      var file := FileWritten(s.last + 1);
      events := [file, file];
      assert events[1..] == [file] && [file][1..] == [];
      assert Run(s, cfg, events) == Run(Step(Step(s, cfg, file), cfg, file), cfg, []);
      return;
    }
    assert events[1..] == [];
    assert Run(s, cfg, events) == Run(Step(s, cfg, events[0]), cfg, []);
  }

  /** A type stays in progress in every run the process lives through if and only if it is locked. */
  lemma {:induction false} LockedIsForever(s: State, cfg: Config, dumpType: DumpType)
    requires KeysBelow(s) && dumpType in s.inProgress && (dumpType == Dreport ==> s.last + 1 < U32)
    ensures Locked(s, dumpType) <==>
            forall events :: Lives(s, cfg, events) ==> dumpType in Run(s, cfg, events).inProgress
  {
    if Locked(s, dumpType) {
      forall events | Lives(s, cfg, events)
        ensures dumpType in Run(s, cfg, events).inProgress
      {
        LockedThroughout(s, cfg, events, dumpType);
      }
    } else {
      var events := Release(s, cfg, dumpType);
    }
  }

  /**
   A failed fork locks the type exactly if it is not the empty one and no child or entry of the type is
   left after the eviction that came before the fork.
   */
  lemma {:induction false} ForkFailureLocks(s: State, cfg: Config, e: Event)
    requires ReachesFork(s, cfg, e) && e.spawn.ForkFails?
    ensures Locked(Step(s, cfg, e), e.dumpType) <==>
            e.dumpType != Dreport && Unreachable(s.(entries := Limited(s.entries, cfg.limit)), e.dumpType)
  {
    hide KeptIds, Limited;
    var s', limited := Step(s, cfg, e), s.(entries := Limited(s.entries, cfg.limit));
    assert s'.children == limited.children && s'.entries == limited.entries && e.dumpType in s'.inProgress;
    assert Watching(s', e.dumpType) <==> Watching(limited, e.dumpType);
  }

  /**
   Lockout: once a type is locked, every later request that it excludes, for the type itself or for the
   other retimer type, is refused for as long as the process lives.
   */
  lemma {:induction false} LockedRuns(s: State, cfg: Config, events: seq<Event>, dumpType: DumpType, e: Event)
    requires Locked(s, dumpType) && Lives(s, cfg, events)
    requires e.CreateDump? && Busy({dumpType}, e.dumpType) && Survives(Run(s, cfg, events), cfg, e)
    ensures AfterCreateDump(Run(s, cfg, events), cfg, e.dumpType, e.space, e.spawn, e.entryOk).1 == Unavailable
  {
    LockedThroughout(s, cfg, events, dumpType);
  }

  /** A new process after one failed fork. */
  function ForkFailed(dumpType: DumpType): State {
    FRESH.(inProgress := {dumpType}, retimerEnabled := dumpType == RetLTSSM)
  }

  /** It refuses that type ever after, if the type is supported and not the empty one. */
  lemma {:induction false} FailedForkFromStart(cfg: Config, dumpType: DumpType, ok: bool, events: seq<Event>, e: Event)
    requires Supported(dumpType, cfg) && dumpType != Dreport
    requires e.CreateDump? && e.dumpType == dumpType
    requires Lives(ForkFailed(dumpType), cfg, events) && Survives(Run(ForkFailed(dumpType), cfg, events), cfg, e)
    ensures Step(FRESH, cfg, CreateDump(dumpType, Enough, ForkFails, ok)) == ForkFailed(dumpType)
    ensures AfterCreateDump(Run(ForkFailed(dumpType), cfg, events), cfg, dumpType, e.space, e.spawn, e.entryOk).1 == Unavailable
  {
    NothingToEvict(cfg.limit);
    LockedRuns(ForkFailed(dumpType), cfg, events, dumpType, e);
    hide KeptIds, Limited, EvictsNull, Run;
    assert FRESH.inProgress + {dumpType} == {dumpType};
  }

  // ----- one watched child per type ----------------------------------------------------------

  /** Every watched child's type is in progress, and no two share a type. */
  ghost predicate Distinct(s: State) {
    && (forall pid :: pid in s.children ==> s.children[pid].dumpType in s.inProgress)
    && (forall p, q :: p in s.children && q in s.children && p != q ==>
          s.children[p].dumpType != s.children[q].dumpType)
  }

  /** A file event keeps this exactly when no child of the entry's type is still watched. */
  lemma {:induction false} FileKeepsDistinct(s: State, id: nat)
    requires Distinct(s)
    ensures Distinct(AfterFile(s, id)) <==>
            !(id in s.entries && s.entries[id].Some? && Watching(s, s.entries[id].value.dumpType))
  {
    var s' := AfterFile(s, id);
    if id in s.entries && s.entries[id].Some? && Watching(s, s.entries[id].value.dumpType) {
      var pid :| pid in s.children && s.children[pid].dumpType == s.entries[id].value.dumpType;
      assert s'.children[pid].dumpType !in s'.inProgress;
    }
  }

  /** Exits are handled before the file event of their entry, and nothing is restored while a child is watched. */
  ghost predicate ExitFirst(s: State, e: Event) {
    && NewPid(s, e) && (e.Restore? ==> s.children == map[])
    && (e.FileWritten? ==> var id := e.id % U32;
          !(id in s.entries && s.entries[id].Some? && Watching(s, s.entries[id].value.dumpType)))
  }

  lemma {:induction false} DistinctRequest(s: State, cfg: Config, e: Event)
    requires Distinct(s) && e.CreateDump? && NewPid(s, e)
    ensures Distinct(AfterRequest(s, cfg, e.dumpType, e.space, e.spawn, e.entryOk).0)
  {
  }

  lemma {:induction false} DistinctStep(s: State, cfg: Config, e: Event)
    requires Distinct(s) && ExitFirst(s, e)
    ensures Distinct(Step(s, cfg, e))
  {
    hide KeptIds;
    match e {
      case CreateDump(_, _, _, _) =>
        DistinctRequest(s.(entries := Limited(s.entries, cfg.limit)), cfg, e);
      case FileWritten(id) => FileKeepsDistinct(s, id % U32);
      case Restore(found) => RestoreOnlyClears(s, found);
      case Restart(found) => RestoreOnlyClears(FRESH, found);
      case _ =>
    }
  }

  /**
   If exits come first, failed forks or not, no two watched children share a type, nor are the two retimer
   types watched together.
   */
  lemma {:induction false} OneChildPerType(s: State, cfg: Config, events: seq<Event>)
    requires Distinct(s) && Exclusive(s) && Along(s, cfg, events, ExitFirst)
    ensures var s' := Run(s, cfg, events);
            && Distinct(s')
            && !(Watching(s', RetLTSSM) && Watching(s', RetRegister))
    decreases |events|
  {
    if events == [] {
    } else {
      DistinctStep(s, cfg, events[0]);
      ExclusiveStep(s, cfg, events[0]);
      OneChildPerType(Step(s, cfg, events[0]), cfg, events[1..]);
    }
  }

  /** Without that order a second child of the same type starts while the first still runs. */
  lemma {:induction false} FileBeforeExitAllowsTwo(cfg: Config)
    requires cfg.limit == 0
    ensures var create := (pid: int) => CreateDump(FPGA, Enough, Watched(pid), true);
            var s' := Run(FRESH, cfg, [create(1), FileWritten(1), create(2)]);
            s'.children == map[1 := Child(1, 1, FPGA), 2 := Child(2, 2, FPGA)]
  {
    var first, second := CreateDump(FPGA, Enough, Watched(1), true), CreateDump(FPGA, Enough, Watched(2), true);
    var s1 := FpgaStarted(FRESH, 1);
    FpgaStep(FRESH, cfg, 1);
    var s2 := AfterFile(s1, 1);
    assert s2 == State(map[1 := Some(Entry(FPGA, Completed, true))], 1, {}, map[1 := Child(1, 1, FPGA)], false);
    FpgaStep(s2, cfg, 2);
    RunThree(FRESH, cfg, first, FileWritten(1), second);
  }

  function FpgaStarted(s: State, pid: int): State {
    var id := s.last + 1;
    s.(entries := s.entries[id := Some(Entry(FPGA, InProgress, false))], last := id,
       inProgress := s.inProgress + {FPGA}, children := s.children[pid := Child(id, id, FPGA)])
  }

  lemma {:induction false} FpgaStep(s: State, cfg: Config, pid: int)
    requires cfg.limit == 0 && s.last + 1 < U32 && s.last + 1 !in s.entries && pid !in s.children
    requires s.inProgress == {}
    ensures Step(s, cfg, CreateDump(FPGA, Enough, Watched(pid), true)) == FpgaStarted(s, pid)
  {
    NothingEvicted(s.entries);
    hide KeptIds;
    assert s.(entries := Limited(s.entries, 0)) == s;
  }

  lemma {:induction false} NothingEvicted(entries: map<nat, Option<Entry>>)
    ensures Limited(entries, 0) == entries && !EvictsNull(entries, 0)
  {
    SuffixesAreChain(entries.Keys, KeptIds(entries, 0), entries.Keys);
    assert entries - {} == entries;
  }

  lemma {:induction false} RunThree(s: State, cfg: Config, a: Event, b: Event, c: Event)
    ensures Run(s, cfg, [a, b, c]) == Step(Step(Step(s, cfg, a), cfg, b), cfg, c)
  {
    hide Step;
    assert [a, b, c][1..] == [b, c] && [b, c][1..] == [c] && [c][1..] == [];
    var s2 := Step(Step(s, cfg, a), cfg, b);
    assert Run(s2, cfg, [c]) == Run(Step(s2, cfg, c), cfg, []);
  }

  // ----- ids ---------------------------------------------------------------------------------

  /** File events carry issued ids, files match their directories, and no watch setup fails. */
  ghost predicate Issued(s: State, e: Event) {
    match e
    case CreateDump(_, _, spawn, _) => !spawn.WatchFails? && s.last + 1 < U32
    case FileWritten(id) => id <= s.last
    case Restore(found) => WellNamed(found)
    case Restart(found) => WellNamed(found)
    case _ => true
  }

  predicate WellNamed(found: seq<Listing>) {
    forall i :: 0 <= i < |found| ==> found[i].dir < U32 && (found[i].file.Some? ==> found[i].file.value == found[i].dir)
  }

  lemma {:induction false} RestoreKeepsKeysBelow(s: State, found: seq<Listing>)
    requires KeysBelow(s) && WellNamed(found)
    ensures KeysBelow(AfterRestore(s, found)) && s.last <= AfterRestore(s, found).last
    decreases |found|
  {
    if found == [] {
    } else {
      var s1 := s.(last := Max(s.last, found[0].dir % U32));
      RestoreKeepsKeysBelow(if found[0].file.Some? then AfterFile(s1, found[0].file.value % U32) else s1, found[1..]);
    }
  }

  lemma {:induction false} KeysBelowRequest(s: State, cfg: Config, e: Event)
    requires KeysBelow(s) && e.CreateDump? && s.last + 1 < U32
    ensures var s' := AfterRequest(s, cfg, e.dumpType, e.space, e.spawn, e.entryOk).0;
            KeysBelow(s') && s.last <= s'.last
  {
  }

  lemma {:induction false} KeysBelowStep(s: State, cfg: Config, e: Event)
    requires KeysBelow(s) && Issued(s, e)
    ensures KeysBelow(Step(s, cfg, e))
    ensures Survives(s, cfg, e) ==> s.last <= Step(s, cfg, e).last
  {
    hide KeptIds;
    match e {
      case CreateDump(_, _, _, _) =>
        KeysBelowRequest(s.(entries := Limited(s.entries, cfg.limit)), cfg, e);
      case Restore(found) => RestoreKeepsKeysBelow(s, found);
      case Restart(found) => RestoreKeepsKeysBelow(FRESH, found);
      case _ =>
    }
  }

  /** A directory not older than the last issued id is left. */
  ghost predicate Covers(found: seq<Listing>, last: nat) {
    last == 0 || exists i :: 0 <= i < |found| && found[i].dir % U32 >= last
  }

  /** The last issued id is never forgotten: at every restart, after a crash or not, a directory covers it. */
  ghost predicate Recovers(s: State, cfg: Config, events: seq<Event>)
    decreases |events|
  {
    events == [] ||
    (var e, rest := events[0], events[1..];
     if Survives(s, cfg, e) then Recovers(Step(s, cfg, e), cfg, rest)
     else if e.Restart? then Covers(e.found, s.last) && Recovers(Step(s, cfg, e), cfg, rest)
     else
       && rest != [] && rest[0].Restart? && Covers(rest[0].found, s.last)
       && Recovers(Step(Step(s, cfg, e), cfg, rest[0]), cfg, rest[1..]))
  }

  lemma {:induction false} LastAfterRestore(s: State, found: seq<Listing>, m: nat)
    ensures AfterRestore(s, found).last >= m <==>
            s.last >= m || exists i :: 0 <= i < |found| && found[i].dir % U32 >= m
    decreases |found|
  {
    if found == [] {
    } else {
      var s1 := s.(last := Max(s.last, found[0].dir % U32));
      var rest := found[1..];
      LastAfterRestore(if found[0].file.Some? then AfterFile(s1, found[0].file.value % U32) else s1, rest, m);
      assert forall i :: 0 <= i < |rest| ==> rest[i] == found[i + 1];
      assert (exists i :: 0 <= i < |found| && found[i].dir % U32 >= m) ==>
          found[0].dir % U32 >= m || exists i :: 0 <= i < |rest| && rest[i].dir % U32 >= m by {
        if i :| 0 <= i < |found| && found[i].dir % U32 >= m {
          assert i > 0 ==> rest[i - 1] == found[i];
        }
      }
    }
  }

  /** A restart keeps the last issued id if and only if a directory at least as new is left. */
  lemma {:induction false} RestartRemembers(s: State, cfg: Config, found: seq<Listing>)
    ensures Step(s, cfg, Restart(found)).last >= s.last <==> Covers(found, s.last)
  {
    LastAfterRestore(FRESH, found, s.last);
  }

  /** After a restart the next accepted request issues an id above the old last one if and only if it was not forgotten. */
  lemma {:induction false} ForgettingReissues(s: State, cfg: Config, found: seq<Listing>, e: Event)
    requires e.CreateDump? && Step(s, cfg, Restart(found)).last + 1 < U32
    ensures var r := AfterCreateDump(Step(s, cfg, Restart(found)), cfg, e.dumpType, e.space, e.spawn, e.entryOk).1;
            r.Created? ==> (r.id > s.last <==> Covers(found, s.last))
  {
    RestartRemembers(s, cfg, found);
    var s1 := Step(s, cfg, Restart(found));
    hide Step, Covers, KeptIds, EvictsNull, Limited;
    var r := AfterCreateDump(s1, cfg, e.dumpType, e.space, e.spawn, e.entryOk).1;
    assert r.Created? ==> r.id == NextId(s1.last);
  }

  lemma {:induction false} KeysBelowRuns(s: State, cfg: Config, events: seq<Event>)
    requires KeysBelow(s) && Along(s, cfg, events, Issued)
    ensures KeysBelow(Run(s, cfg, events))
    decreases |events|
  {
    if events == [] {
    } else {
      KeysBelowStep(s, cfg, events[0]);
      hide Issued, Step, KeysBelow;
      KeysBelowRuns(Step(s, cfg, events[0]), cfg, events[1..]);
    }
  }

  lemma {:induction false} CrashIsFresh(s: State, cfg: Config, e: Event, found: seq<Listing>)
    requires !Survives(s, cfg, e) && !e.Restart?
    ensures Step(s, cfg, e) == FRESH && Step(Step(s, cfg, e), cfg, Restart(found)) == Step(s, cfg, Restart(found))
  {
  }

  /** If the last id is never forgotten, it ends above every key held at any point of the run. */
  lemma {:induction false} RecoveredRunsRemember(s: State, cfg: Config, events: seq<Event>, i: nat)
    requires KeysBelow(s) && Along(s, cfg, events, Issued) && Recovers(s, cfg, events) && i <= |events|
    ensures s.last <= Run(s, cfg, events).last
    ensures forall k :: k in Run(s, cfg, events[..i]).entries ==> k <= Run(s, cfg, events).last
    decreases |events|
  {
    if events == [] {
    } else {
      var e, rest := events[0], events[1..];
      var s1 := Step(s, cfg, e);
      KeysBelowStep(s, cfg, e);
      assert i > 0 ==> events[..i][1..] == rest[..i - 1];
      if Survives(s, cfg, e) || e.Restart? {
        if e.Restart? {
          RestartRemembers(s, cfg, e.found);
        }
        hide Issued, Step, Survives, Covers;
        RecoveredRunsRemember(s1, cfg, rest, if i == 0 then 0 else i - 1);
      } else {
        var found := rest[0].found;
        var s2 := Step(s1, cfg, rest[0]);
        CrashIsFresh(s, cfg, e, found);
        RestartRemembers(s, cfg, found);
        KeysBelowStep(s1, cfg, rest[0]);
        hide Issued, Step, Survives, Covers;
        RecoveredRunsRemember(s2, cfg, rest[1..], if i <= 1 then 0 else i - 2);
        assert Run(s1, cfg, rest) == Run(s2, cfg, rest[1..]);
        if i > 1 {
          assert rest[..i - 1][1..] == rest[1..][..i - 2];
          assert Run(s1, cfg, rest[..i - 1]) == Run(s2, cfg, rest[1..][..i - 2]);
        } else if i == 1 {
          assert Run(s, cfg, events[..1]) == Run(s1, cfg, []);
        }
      }
    }
  }

  /** What an accepted request leaves, seen from the state it met. */
  ghost predicate OneNewEntry(t: State, t': State, cfg: Config, e: Event, id: nat)
    requires e.CreateDump?
  {
    && e.spawn.Watched? && t'.children == t.children[e.spawn.pid := Child(id, id, e.dumpType)]
    && t'.last == id && id !in t.entries
    && id in t'.entries && t'.entries[id] == Some(Entry(e.dumpType, InProgress, false))
    && var others := t'.entries.Keys - {id};
    && IsSuffix(others, t.entries.Keys)
    && |others| == (if cfg.limit > 0 then Min(|t.entries.Keys|, cfg.limit - 1) else |t.entries.Keys|)
    && forall k :: k in others ==> t'.entries[k] == t.entries[k]
  }

  lemma {:induction false} RequestAddsOne(t: State, cfg: Config, e: Event)
    requires KeysBelow(t) && e.CreateDump? && Issued(t, e) && NewPid(t, e)
    requires AfterRequest(t, cfg, e.dumpType, e.space, e.spawn, e.entryOk).1.Created?
    ensures var (t', r) := AfterRequest(t, cfg, e.dumpType, e.space, e.spawn, e.entryOk);
            && e.spawn.Watched? && t'.children == t.children[e.spawn.pid := Child(r.id, r.id, e.dumpType)]
            && t'.last == r.id == t.last + 1
            && t'.entries == t.entries[r.id := Some(Entry(e.dumpType, InProgress, false))]
  {
  }

  lemma {:induction false} LimitedKeepsYoungest(entries: map<nat, Option<Entry>>, limit: nat)
    ensures var kept := Limited(entries, limit);
            && IsSuffix(kept.Keys, entries.Keys) && kept.Keys <= entries.Keys
            && |kept.Keys| == (if limit > 0 then Min(|entries.Keys|, limit - 1) else |entries.Keys|)
            && forall k :: k in kept ==> kept[k] == entries[k]
  {
    assert Limited(entries, limit).Keys == KeptIds(entries, limit);
  }

  lemma {:induction false} CreateAddsOne(t: State, cfg: Config, e: Event)
    requires KeysBelow(t) && e.CreateDump? && Issued(t, e) && NewPid(t, e)
    requires AfterCreateDump(t, cfg, e.dumpType, e.space, e.spawn, e.entryOk).1.Created?
    ensures var (t', r) := AfterCreateDump(t, cfg, e.dumpType, e.space, e.spawn, e.entryOk);
            r.id == t.last + 1 && OneNewEntry(t, t', cfg, e, r.id)
  {
    hide AfterRequest, KeptIds, Limited, IsSuffix;
    var limited := t.(entries := Limited(t.entries, cfg.limit));
    LimitedKeepsYoungest(t.entries, cfg.limit);
    RequestAddsOne(limited, cfg, e);
    var t' := AfterCreateDump(t, cfg, e.dumpType, e.space, e.spawn, e.entryOk).0;
    assert t'.entries.Keys - {t.last + 1} == limited.entries.Keys;
  }

  /**
   After any run, restarts and crashes included, an accepted request uses one id in the child's arguments,
   in the exit callback and for the new entry; the id is above every key the entries then hold; and
   beside the new entry exactly the youngest earlier ones remain, LIMIT - 1 of them at most. If the last
   id was never forgotten, the id is above every key held at any earlier point of the run.
   */
  lemma {:induction false} CreatedIdIsFresh(s: State, cfg: Config, events: seq<Event>, e: Event, i: nat)
    requires KeysBelow(s) && Along(s, cfg, events, Issued)
    requires i <= |events| && e.CreateDump?
    requires var t := Run(s, cfg, events); Issued(t, e) && NewPid(t, e)
    requires AfterCreateDump(Run(s, cfg, events), cfg, e.dumpType, e.space, e.spawn, e.entryOk).1.Created?
    ensures var t := Run(s, cfg, events);
            var (t', r) := AfterCreateDump(t, cfg, e.dumpType, e.space, e.spawn, e.entryOk);
            && OneNewEntry(t, t', cfg, e, r.id)
            && (forall k :: k in t.entries ==> k < r.id)
            && (Recovers(s, cfg, events) ==> forall k :: k in Run(s, cfg, events[..i]).entries ==> k < r.id)
  {
    hide AfterCreateDump, OneNewEntry, Recovers;
    KeysBelowRuns(s, cfg, events);
    CreateAddsOne(Run(s, cfg, events), cfg, e);
    if Recovers(s, cfg, events) {
      RecoveredRunsRemember(s, cfg, events, i);
    }
  }

  /** Without that an id recurs: the newest dump is deleted with its directory, and the process starts again. */
  lemma {:induction false} IdRecursAfterRestart(cfg: Config)
    requires cfg.limit == 0
    ensures var create := (pid: int) => CreateDump(FPGA, Enough, Watched(pid), true);
            var s1 := Step(FRESH, cfg, create(1));
            var s2 := Step(Step(Step(s1, cfg, Delete(1)), cfg, Restart([])), cfg, create(2));
            s1.last == 1 && 1 in s1.entries && s2.last == 1 && 1 in s2.entries
  {
    FpgaStep(FRESH, cfg, 1);
    FpgaStep(FRESH, cfg, 2);
    var s1 := FpgaStarted(FRESH, 1);
    assert Step(Step(s1, cfg, Delete(1)), cfg, Restart([])) == FRESH;
    hide Step, AfterCreateDump;
  }

  ghost predicate NullSlot(s: State, id: nat) {
    id in s.entries && s.entries[id].None?
  }

  /**
   As long as the process lives, a null slot appears exactly when a child fails after its entry was
   deleted, and never goes away: no eviction, deletion, file or restore can touch it without crashing.
   */
  lemma {:induction false} NullSlotOrigin(s: State, cfg: Config, e: Event, id: nat)
    requires Survives(s, cfg, e)
    ensures NullSlot(Step(s, cfg, e), id) <==>
            || NullSlot(s, id)
            || (e.ChildExit? && e.status != 0 && e.pid in s.children && s.children[e.pid].callbackId == id
                && id !in s.entries)
  {
    hide KeptIds;
    match e {
      case CreateDump(t, space, spawn, entryOk) =>
        var limited := s.(entries := Limited(s.entries, cfg.limit));
        assert NullSlot(limited, id) <==> NullSlot(s, id);
        RequestAddsNoNull(limited, cfg, e, id);
      case Restore(found) => RestoreKeepsNulls(s, found, id);
      case _ =>
    }
  }

  lemma {:induction false} RequestAddsNoNull(s: State, cfg: Config, e: Event, id: nat)
    requires e.CreateDump?
    ensures NullSlot(AfterRequest(s, cfg, e.dumpType, e.space, e.spawn, e.entryOk).0, id) <==> NullSlot(s, id)
  {
  }

  lemma {:induction false} RestoreKeepsNulls(s: State, found: seq<Listing>, id: nat)
    ensures NullSlot(AfterRestore(s, found), id) <==> NullSlot(s, id)
    decreases |found|
  {
    if found == [] {
    } else {
      var s1 := s.(last := Max(s.last, found[0].dir % U32));
      RestoreKeepsNulls(if found[0].file.Some? then AfterFile(s1, found[0].file.value % U32) else s1, found[1..], id);
    }
  }

  /** The crash: a dump is deleted, its child then fails, and the next request evicts the null slot. */
  lemma {:induction false} NullSlotCrashes(cfg: Config)
    requires cfg.limit == 1
    ensures var create := (pid: int) => CreateDump(FPGA, Enough, Watched(pid), true);
            var s := Run(FRESH, cfg, [create(1), Delete(1), ChildExit(1, 1)]);
            && NullSlot(s, 1) && !Survives(s, cfg, create(2))
            && AfterCreateDump(s, cfg, FPGA, Enough, Watched(2), true) == (FRESH, Crashed)
  {
    var create := CreateDump(FPGA, Enough, Watched(1), true);
    var s1 := State(map[1 := Some(Entry(FPGA, InProgress, false))], 1, {FPGA}, map[1 := Child(1, 1, FPGA)], false);
    NothingToEvict(1);
    assert Step(FRESH, cfg, create) == s1 by {
      hide Limited, EvictsNull;
    }
    var s3 := State(map[1 := None], 1, {}, map[], false);
    assert Step(Step(s1, cfg, Delete(1)), cfg, ChildExit(1, 1)) == s3;
    RunThree(FRESH, cfg, create, Delete(1), ChildExit(1, 1));
    LoneNullIsEvicted(1);
    hide Step, Run, Limited, EvictsNull;
  }

  lemma {:induction false} NothingToEvict(limit: nat)
    ensures Limited(map[], limit) == map[] && !EvictsNull(map[], limit)
  {
  }

  lemma {:induction false} LoneNullIsEvicted(id: nat)
    ensures EvictsNull(map[id := None], 1)
  {
    var entries: map<nat, Option<Entry>> := map[id := None];
    assert entries.Keys == {id};
    assert KeptIds(entries, 1) == {};
    assert entries[id].None?;
  }
}
