/** What single callbacks of the NVIDIA system dump manager achieve, said of the state before and after. */
module NvidiaEffects {
  import opened Wrappers
  import opened OrderedIds
  import opened NvidiaManager
  import opened NvidiaRuns

  // ----- requests ----------------------------------------------------------------------------

  /** The types that have a tool of their own, and the empty one. */
  predicate HasTool(dumpType: DumpType, cfg: Config) {
    match dumpType
    case SelfTest => cfg.selfTest
    case Unrecognized(_) => false
    case _ => true
  }

  /** A dump of the type, or of the other retimer type, is in progress. */
  ghost predicate Excluded(s: State, dumpType: DumpType) {
    exists t :: t in s.inProgress &&
      (t == dumpType || (t == RetLTSSM && dumpType == RetRegister) || (t == RetRegister && dumpType == RetLTSSM))
  }

  /** Exactly when a request is accepted, and which error it meets otherwise: the checks in their order. */
  lemma {:induction false} RequestOutcome(s: State, cfg: Config, e: Event)
    requires e.CreateDump? && Survives(s, cfg, e)
    ensures var r := AfterCreateDump(s, cfg, e.dumpType, e.space, e.spawn, e.entryOk).1;
            && (r.Unavailable? <==> Excluded(s, e.dumpType))
            && (r.QuotaExceeded? <==> !Excluded(s, e.dumpType) && e.space.TooLittle?)
            && (r.InvalidArgument? <==> !Excluded(s, e.dumpType) && e.space.Enough? && !HasTool(e.dumpType, cfg))
            && (r.Created? <==> !Excluded(s, e.dumpType) && e.space.Enough? && HasTool(e.dumpType, cfg)
                                && e.spawn.Watched? && e.entryOk)
            && !r.Crashed?
  {
    hide KeptIds, EvictsNull, Limited;
    assert Excluded(s, e.dumpType) <==> Busy(s.inProgress, e.dumpType) by {
      if Busy(s.inProgress, e.dumpType) {
        assert e.dumpType in s.inProgress || RetLTSSM in s.inProgress || RetRegister in s.inProgress;
      }
    }
  }

  /** What a request that is not accepted leaves beside the eviction. */
  lemma {:induction false} FailedRequest(s: State, cfg: Config, e: Event)
    requires e.CreateDump? && Survives(s, cfg, e)
    ensures var (t, r) := AfterCreateDump(s, cfg, e.dumpType, e.space, e.spawn, e.entryOk);
            !r.Created? ==>
              var started := !Excluded(s, e.dumpType) && e.space.Enough? && HasTool(e.dumpType, cfg);
              && t.entries == Limited(s.entries, cfg.limit)
              && t.retimerEnabled == (s.retimerEnabled || (started && e.dumpType == RetLTSSM))
              && t.inProgress == (if started && !e.spawn.WatchFails? then s.inProgress + {e.dumpType} else s.inProgress)
              && (started && e.spawn.Watched? ==>
                    && t.last == NextId(s.last)
                    && t.children == Emplace(s.children, e.spawn.pid, Child(t.last, t.last, e.dumpType)))
              && (!(started && e.spawn.Watched?) ==> t.last == s.last && t.children == s.children)
  {
    RequestOutcome(s, cfg, e);
    hide KeptIds, EvictsNull, Limited;
    if !Excluded(s, e.dumpType) {
      assert e.dumpType !in s.inProgress;
      assert s.inProgress - {e.dumpType} == s.inProgress;
    }
  }

  // ----- files and restore -------------------------------------------------------------------

  /** The file of an id completes its live entry, ends its type and, for a link dump, the debug mode; or makes an entry. */
  lemma {:induction false} FileCompletes(s: State, cfg: Config, id: nat)
    requires id < U32
    ensures var t := Step(s, cfg, FileWritten(id));
            && t.last == s.last && t.children == s.children && id in t.entries
            && (forall k :: k != id ==> (k in t.entries <==> k in s.entries))
            && (forall k :: k != id && k in s.entries ==> t.entries[k] == s.entries[k])
            && (id !in s.entries ==> t.entries[id] == Some(Entry(Dreport, Completed, true))
                                     && t.inProgress == s.inProgress && t.retimerEnabled == s.retimerEnabled)
            && (id in s.entries && s.entries[id].None? ==> t == s)
            && (id in s.entries && s.entries[id].Some? ==>
                  var dumpType := s.entries[id].value.dumpType;
                  && t.entries[id] == Some(Entry(dumpType, Completed, true))
                  && dumpType !in t.inProgress && t.inProgress + {dumpType} == s.inProgress + {dumpType}
                  && t.retimerEnabled == if dumpType == RetLTSSM then false else s.retimerEnabled)
  {
  }

  /** Some listed directory holds a file of that id. */
  ghost predicate Lists(found: seq<Listing>, id: nat) {
    exists i :: 0 <= i < |found| && found[i].file.Some? && found[i].file.value % U32 == id
  }

  lemma {:induction false} ListsFirst(found: seq<Listing>, id: nat)
    requires found != []
    ensures Lists(found, id) <==>
            (found[0].file.Some? && found[0].file.value % U32 == id) || Lists(found[1..], id)
  {
    var rest := found[1..];
    assert forall i :: 0 <= i < |rest| ==> rest[i] == found[i + 1];
    if i :| 0 <= i < |found| && found[i].file.Some? && found[i].file.value % U32 == id {
      assert i > 0 ==> rest[i - 1] == found[i];
    }
  }

  /** One slot after restoring. */
  ghost predicate RestoredSlot(s: State, t: State, found: seq<Listing>, id: nat) {
    && (id in t.entries <==> id in s.entries || Lists(found, id))
    && (id in t.entries ==>
          t.entries[id] ==
          if !Lists(found, id) || (id in s.entries && s.entries[id].None?) then s.entries[id]
          else if id in s.entries then Some(s.entries[id].value.(status := Completed, hasFile := true))
          else Some(Entry(Dreport, Completed, true)))
  }

  lemma {:induction false} RestoresSlot(s: State, found: seq<Listing>, id: nat)
    ensures RestoredSlot(s, AfterRestore(s, found), found, id)
    decreases |found|
  {
    if found == [] {
    } else {
      var s1 := s.(last := Max(s.last, found[0].dir % U32));
      var s2 := if found[0].file.Some? then AfterFile(s1, found[0].file.value % U32) else s1;
      RestoresSlot(s2, found[1..], id);
      ListsFirst(found, id);
      hide Lists;
    }
  }

  /**
   After restoring any listing an id is a key if and only if it was one or a listed file carries it; a new
   one is a completed dump; a live listed entry is completed with its type kept; all others are unchanged.
   */
  lemma {:induction false} RestoresExactlyListed(s: State, found: seq<Listing>)
    ensures forall id :: RestoredSlot(s, AfterRestore(s, found), found, id)
  {
    forall id
      ensures RestoredSlot(s, AfterRestore(s, found), found, id)
    {
      RestoresSlot(s, found, id);
    }
  }

  /** In particular a new process has exactly the listed dumps, all completed, and nothing in progress. */
  lemma {:induction false} RestartKnowsListed(s: State, cfg: Config, found: seq<Listing>)
    ensures var t := Step(s, cfg, Restart(found));
            && (forall id :: id in t.entries <==> Lists(found, id))
            && (forall id :: id in t.entries ==> t.entries[id] == Some(Entry(Dreport, Completed, true)))
            && t.inProgress == {} && t.children == map[]
  {
    RestoresExactlyListed(FRESH, found);
    RestoreOnlyClears(FRESH, found);
    var t := Step(s, cfg, Restart(found));
    forall id
      ensures id in t.entries <==> Lists(found, id)
      ensures id in t.entries ==> t.entries[id] == Some(Entry(Dreport, Completed, true))
    {
      assert RestoredSlot(FRESH, t, found, id);
    }
    hide Lists;
  }

  // ----- exits and deletions -----------------------------------------------------------------

  /**
   The exit of a watched child takes it and its type out of the watch, and marks the live entry of its id
   failed if and only if the status says so; nothing else changes but a null slot for a missing entry.
   */
  lemma {:induction false} ExitEffect(s: State, cfg: Config, pid: int, status: int)
    ensures var t := Step(s, cfg, ChildExit(pid, status));
            if pid !in s.children then t == s
            else
              var c := s.children[pid];
              && pid !in t.children && t.children == s.children - {pid}
              && c.dumpType !in t.inProgress && t.inProgress + {c.dumpType} == s.inProgress + {c.dumpType}
              && t.last == s.last && t.retimerEnabled == s.retimerEnabled
              && (forall id :: id in s.entries ==> id in t.entries)
              && (forall id :: id in s.entries && s.entries[id].Some? ==>
                    t.entries[id] == Some(if status != 0 && id == c.callbackId
                                          then s.entries[id].value.(status := Failed) else s.entries[id].value))
              && (forall id :: id in t.entries && id !in s.entries ==> status != 0 && id == c.callbackId)
  {
  }

  lemma {:induction false} DeleteEffect(s: State, cfg: Config, id: nat)
    ensures Step(s, cfg, Delete(id)) ==
            (if id in s.entries && s.entries[id].Some? then s.(entries := map k | k in s.entries && k != id :: s.entries[k])
             else s)
  {
    assert id in s.entries ==> s.entries - {id} == map k | k in s.entries && k != id :: s.entries[k];
  }

  /** Deleting everything empties the entries, and touches nothing else, unless it crashes. */
  lemma {:induction false} DeleteAllEmpties(s: State, cfg: Config)
    ensures Step(s, cfg, DeleteAll) ==
            (if exists id :: id in s.entries && s.entries[id].None? then FRESH
             else State(map[], s.last, s.inProgress, s.children, s.retimerEnabled))
  {
  }
}
