/** The OpenPOWER system dump manager: reconciling host notifications with requests. */
module OpenPowerSystem {
  import opened Wrappers
  import opened OrderedIds
  import opened OpenPower

  datatype Event =
    | CreateDump
    | Notify(source: nat, size: nat, host: Host)
    | Delete(id: nat, host: Host)
    | Offload(id: nat)

  /** Left is what the loop left to update: nothing, an entry, or one it has deleted itself. */
  datatype Scanned = Known | Failed | Left(up: Option<nat>)

  /** The loop over a snapshot of the ids: entries of the source with another size are deleted on the way. */
  function Scan(entries: map<nat, Entry>, todo: set<nat>, up: Option<nat>, source: nat, size: nat, host: Host)
    : (map<nat, Entry>, Scanned)
    requires todo <= entries.Keys
    decreases |todo|
  {
    if todo == {} then (entries, Left(up))
    else
      var id := Oldest(todo);
      var e := entries[id];
      var first := if e.source == INVALID_SOURCE_ID && up.None? then Some(id) else up;
      if e.source == source && e.size == size then (entries, if e.status.Completed? then Known else Left(Some(id)))
      else if e.source == source then
        if !CanDelete(id, e, host) then (entries, Failed)
        else Scan(entries - {id}, todo - {id}, first, source, size, host)
      else Scan(entries, todo - {id}, first, source, size, host)
  }

  function AfterNotify(s: State, source: nat, size: nat, host: Host): (State, Outcome) {
    var (entries, r) := Scan(s.entries, s.entries.Keys, None, source, size, host);
    var s1 := s.(entries := entries);
    match r
    case Known => (s1, Ignored)
    case Failed => (s1, Refused)
    case Left(None) =>
      var s2 := Insert(s1, Entry(source, size, Completed, false));
      (s2, Added(s2.last))
    case Left(Some(id)) =>
      if id !in entries then (s1, Dangling)
      else (s1.(entries := entries[id := Reported(entries[id], source, size)]), Updated(id))
  }

  function Step(s: State, e: Event): State {
    match e
    case CreateDump => AfterRequest(s)
    case Notify(source, size, host) => AfterNotify(s, source, size, host).0
    case Delete(id, host) => AfterDelete(s, id, host)
    case Offload(id) => AfterOffload(s, id)
  }

  function Run(s: State, events: seq<Event>): State
    decreases |events|
  {
    if events == [] then s else Run(Step(s, events[0]), events[1..])
  }

  // ----- what the loop means -----------------------------------------------------------------

  /** The entry that holds a real source, if any. */
  ghost predicate Holds(entries: map<nat, Entry>, id: nat, source: nat) {
    id in entries && entries[id].source == source
  }

  /** The first pending entry among todo, unless one was found before. */
  ghost predicate FirstOf(entries: map<nat, Entry>, todo: set<nat>, up: Option<nat>, r: Option<nat>) {
    if up.Some? then r == up
    else if r.None? then forall id :: id in todo && id in entries ==> entries[id].source != INVALID_SOURCE_ID
    else && r.value in todo && r.value in entries && entries[r.value].source == INVALID_SOURCE_ID
         && forall id :: id in todo && id in entries && entries[id].source == INVALID_SOURCE_ID ==> r.value <= id
  }

  /** If no entry left to visit holds the source, the loop only looks for a pending entry. */
  lemma {:induction false} ScanWithoutHolder(entries: map<nat, Entry>, todo: set<nat>, up: Option<nat>, source: nat,
                                            size: nat, host: Host)
    requires todo <= entries.Keys && forall id :: id in todo ==> entries[id].source != source
    ensures var (entries', r) := Scan(entries, todo, up, source, size, host);
            entries' == entries && r.Left? && FirstOf(entries, todo, up, r.up)
    decreases |todo|
  {
    if todo == {} {
    } else {
      var id := Oldest(todo);
      var first := if entries[id].source == INVALID_SOURCE_ID && up.None? then Some(id) else up;
      ScanWithoutHolder(entries, todo - {id}, first, source, size, host);
    }
  }

  /** If exactly one entry to visit holds the source, the loop ends there, fails there or deletes it. */
  lemma {:induction false} ScanWithHolder(entries: map<nat, Entry>, todo: set<nat>, up: Option<nat>, source: nat,
                                         size: nat, host: Host, holder: nat)
    requires source != INVALID_SOURCE_ID && todo <= entries.Keys && holder in todo
    requires forall id :: id in todo ==> (entries[id].source == source <==> id == holder)
    requires entries[holder].status.Completed?
    ensures var (entries', r) := Scan(entries, todo, up, source, size, host);
            if entries[holder].size == size then entries' == entries && r == Known
            else if !CanDelete(holder, entries[holder], host) then entries' == entries && r == Failed
            else entries' == entries - {holder} && r.Left? && FirstOf(entries, todo, up, r.up)
    decreases |todo|
  {
    var id := Oldest(todo);
    var first := if entries[id].source == INVALID_SOURCE_ID && up.None? then Some(id) else up;
    if id == holder {
      if entries[holder].size != size && CanDelete(holder, entries[holder], host) {
        ScanWithoutHolder(entries - {id}, todo - {id}, first, source, size, host);
        assert forall k :: k in todo && k in entries && k != id ==> k in entries - {id} && k in todo - {id};
      }
    } else {
      ScanWithHolder(entries, todo - {id}, first, source, size, host, holder);
    }
  }

  /**
   A notification for a real source, said without a loop. An entry that already holds the source with
   the same size makes it a repetition. One with another size is stale and must be deleted first;
   if that fails nothing changes. Then the oldest pending request is completed, or an entry is added.
   */
  ghost predicate Reconciled(s: State, source: nat, size: nat, host: Host, s': State, r: Outcome) {
    if exists id :: Holds(s.entries, id, source) && s.entries[id].size == size then s' == s && r == Ignored
    else if exists id :: Holds(s.entries, id, source) && !CanDelete(id, s.entries[id], host) then s' == s && r == Refused
    else
      var others := map id | id in s.entries && s.entries[id].source != source :: s.entries[id];
      if SomePending(others) then
        && r.Updated? && IsFirstPending(r.id, others)
        && s' == State(others[r.id := Reported(others[r.id], source, size)], s.last)
      else
        && r == Added(s.last + 1) && s.last + 1 !in others
        && s' == State(others[s.last + 1 := Entry(source, size, Completed, false)], s.last + 1)
  }

  lemma {:induction false} NotifyReconciles(s: State, source: nat, size: nat, host: Host)
    requires Consistent(s) && source != INVALID_SOURCE_ID && s.last + 1 < U32
    ensures var (s', r) := AfterNotify(s, source, size, host);
            Reconciled(s, source, size, host, s', r)
  {
    hide Scan, CanDelete;
    var others := map id | id in s.entries && s.entries[id].source != source :: s.entries[id];
    if holder :| Holds(s.entries, holder, source) {
      ScanWithHolder(s.entries, s.entries.Keys, None, source, size, host, holder);
      assert others == s.entries - {holder};
    } else {
      assert forall id :: id in s.entries ==> !Holds(s.entries, id, source);
      ScanWithoutHolder(s.entries, s.entries.Keys, None, source, size, host);
      assert others == s.entries;
    }
  }

  // ----- what every run keeps ----------------------------------------------------------------

  /** The caller's side: real source ids, and ids not exhausted. */
  predicate Regular(s: State, e: Event) {
    s.last + 1 < U32 && (e.Notify? ==> e.source != INVALID_SOURCE_ID)
  }

  ghost predicate Along(s: State, events: seq<Event>)
    decreases |events|
  {
    events == [] || (Regular(s, events[0]) && Along(Step(s, events[0]), events[1..]))
  }

  lemma {:induction false} ReconciledKeepsConsistent(s: State, source: nat, size: nat, host: Host, s': State, r: Outcome)
    requires Consistent(s) && source != INVALID_SOURCE_ID && s.last + 1 < U32
    requires Reconciled(s, source, size, host, s', r)
    ensures Consistent(s')
  {
  }

  lemma {:induction false} StepKeepsConsistent(s: State, e: Event)
    requires Consistent(s) && Regular(s, e)
    ensures Consistent(Step(s, e))
  {
    if e.Notify? {
      var (s', r) := AfterNotify(s, e.source, e.size, e.host);
      NotifyReconciles(s, e.source, e.size, e.host);
      ReconciledKeepsConsistent(s, e.source, e.size, e.host, s', r);
      hide AfterNotify, Reconciled;
    }
  }

  /** In every run an entry is pending exactly when it has no source, and no real source occurs twice. */
  lemma {:induction false} RunsAreConsistent(s: State, events: seq<Event>)
    requires Consistent(s) && Along(s, events)
    ensures Consistent(Run(s, events))
    decreases |events|
  {
    if events == [] {
    } else {
      StepKeepsConsistent(s, events[0]);
      RunsAreConsistent(Step(s, events[0]), events[1..]);
    }
  }

  /**
   After a notification that returns normally exactly one entry holds the source, completed with the
   reported size; repeating it changes nothing, whatever the host does; and one that throws changed
   nothing either.
   */
  lemma {:induction false} NotifyIsIdempotent(s: State, source: nat, size: nat, host: Host, host': Host)
    requires Consistent(s) && source != INVALID_SOURCE_ID && s.last + 2 < U32
    ensures var (s', r) := AfterNotify(s, source, size, host);
            && r != Dangling
            && (r == Refused ==> s' == s)
            && (r != Refused ==>
                && (exists id :: Holds(s'.entries, id, source))
                && (forall id :: Holds(s'.entries, id, source) ==>
                      s'.entries[id].status.Completed? && s'.entries[id].size == size)
                && (forall i, j :: Holds(s'.entries, i, source) && Holds(s'.entries, j, source) ==> i == j)
                && AfterNotify(s', source, size, host') == (s', Ignored))
  {
    var (s', r) := AfterNotify(s, source, size, host);
    NotifyReconciles(s, source, size, host);
    ReconciledKeepsConsistent(s, source, size, host, s', r);
    hide AfterNotify;
    if r != Refused {
      var id := HolderAfter(s, source, size, host, s', r);
      NotifyReconciles(s', source, size, host');
    }
  }

  lemma {:induction false} HolderAfter(s: State, source: nat, size: nat, host: Host, s': State, r: Outcome) returns (id: nat)
    requires Consistent(s) && source != INVALID_SOURCE_ID && s.last + 1 < U32
    requires Reconciled(s, source, size, host, s', r) && r != Refused
    ensures s'.last <= s.last + 1 && Holds(s'.entries, id, source)
    ensures s'.entries[id].size == size && s'.entries[id].status.Completed?
  {
    if k :| Holds(s.entries, k, source) && s.entries[k].size == size {
      id := k;
    } else {
      id := r.id;
    }
  }

  // ----- entries under offload ---------------------------------------------------------------

  /** The events that ask for an entry to go: its deletion, and a notification of another size for its source. */
  predicate AsksToGo(e: Event, id: nat, entry: Entry) {
    match e
    case Delete(k, _) => k == id
    case Notify(source, size, _) => entry.source == source && entry.size != size
    case _ => false
  }

  function HostOf(e: Event): Host {
    match e
    case Delete(_, host) => host
    case Notify(_, _, host) => host
    case _ => Host(true, {})
  }

  /** An entry goes exactly when an event asks for it and the offload and the host permit it. */
  lemma {:induction false} GoesExactly(s: State, e: Event, id: nat)
    requires Consistent(s) && Regular(s, e) && id in s.entries
    ensures id !in Step(s, e).entries <==> AsksToGo(e, id, s.entries[id]) && MayGo(id, s.entries[id], HostOf(e))
  {
    match e {
      case Delete(k, host) => DeleteEffect(s, k, host);
      case Notify(source, size, host) =>
        NotifyReconciles(s, source, size, host);
        assert Holds(s.entries, id, source) <==> s.entries[id].source == source;
        hide AfterNotify;
      case _ =>
    }
  }

  lemma {:induction false} StepKeepsOffloading(s: State, e: Event, id: nat)
    requires Consistent(s) && Regular(s, e) && HostOf(e).running
    requires id in s.entries && s.entries[id].offloading
    ensures id in Step(s, e).entries && KeptOffloading(s.entries[id], Step(s, e).entries[id])
  {
    GoesExactly(s, e, id);
    if e.Notify? {
      NotifyReconciles(s, e.source, e.size, e.host);
      hide AfterNotify;
    }
  }

  lemma {:induction false} RunKeepsOffloading(s: State, events: seq<Event>, id: nat)
    requires Consistent(s) && Along(s, events) && forall i :: 0 <= i < |events| ==> HostOf(events[i]).running
    requires id in s.entries && s.entries[id].offloading
    ensures id in Run(s, events).entries && KeptOffloading(s.entries[id], Run(s, events).entries[id])
    decreases |events|
  {
    if events == [] {
    } else {
      StepKeepsOffloading(s, events[0], id);
      StepKeepsConsistent(s, events[0]);
      hide Consistent, Step, Regular, HostOf;
      RunKeepsOffloading(Step(s, events[0]), events[1..], id);
    }
  }

  /**
   An entry whose offload was started outlives every run while the host is up, whatever deletions and
   notifications of other sizes come, and once completed it does not change.
   */
  lemma {:induction false} OffloadedIsKept(s: State, events: seq<Event>, id: nat)
    requires Consistent(s) && Along(s, [Offload(id)] + events) && id in s.entries
    requires forall i :: 0 <= i < |events| ==> HostOf(events[i]).running
    ensures var t := Run(s, [Offload(id)] + events);
            && id in t.entries && t.entries[id].offloading
            && (s.entries[id].status.Completed? ==> t.entries[id] == s.entries[id].(offloading := true))
  {
    var s1, all := Step(s, Offload(id)), [Offload(id)] + events;
    assert all[0] == Offload(id) && all[1..] == events;
    StepKeepsConsistent(s, Offload(id));
    assert s1.entries[id] == s.entries[id].(offloading := true);
    hide Consistent, Step;
    RunKeepsOffloading(s1, events, id);
  }

  // ----- the deleted entry -------------------------------------------------------------------

  /** The entry has a source, or a notification for the invalid source deletes it on the way. */
  ghost predicate Deletable(id: nat, e: Entry, size: nat, host: Host) {
    e.source == INVALID_SOURCE_ID ==> e.size != size && CanDelete(id, e, host)
  }

  /** For a real source the entry kept for the update is never deleted. */
  lemma {:induction false} ScanForReal(entries: map<nat, Entry>, todo: set<nat>, up: Option<nat>, source: nat, size: nat,
                                      host: Host)
    requires todo <= entries.Keys && source != INVALID_SOURCE_ID
    requires up.Some? ==> up.value in entries && entries[up.value].source == INVALID_SOURCE_ID
    ensures var (entries', r) := Scan(entries, todo, up, source, size, host);
            r.Left? && r.up.Some? ==> r.up.value in entries'
    decreases |todo|
  {
    if todo == {} {
    } else {
      var id := Oldest(todo);
      var e := entries[id];
      var first := if e.source == INVALID_SOURCE_ID && up.None? then Some(id) else up;
      if e.source != source {
        ScanForReal(entries, todo - {id}, first, source, size, host);
      } else if e.size != size && CanDelete(id, e, host) {
        ScanForReal(entries - {id}, todo - {id}, first, source, size, host);
      }
    }
  }

  /** The entries among todo without a source that come before an id. */
  ghost function InvalidBefore(entries: map<nat, Entry>, todo: set<nat>, id: nat): set<nat> {
    set k | k in todo && k < id && k in entries && entries[k].source == INVALID_SOURCE_ID
  }

  ghost function InvalidAmong(entries: map<nat, Entry>, todo: set<nat>): set<nat> {
    set k | k in todo && k in entries && entries[k].source == INVALID_SOURCE_ID
  }

  /** The first entry among todo at which a loop for the invalid source ends. */
  ghost predicate FirstStuck(entries: map<nat, Entry>, todo: set<nat>, id: nat, size: nat, host: Host) {
    && id in todo && id in entries && !Deletable(id, entries[id], size, host)
    && forall k :: k in todo && k < id && k in entries ==> Deletable(k, entries[k], size, host)
  }

  /** Looking for the invalid source itself, the loop deletes the entries without a source before the one it ends at. */
  lemma {:induction false} ScanStuck(entries: map<nat, Entry>, todo: set<nat>, up: Option<nat>, size: nat, host: Host, x: nat)
    requires todo <= entries.Keys && FirstStuck(entries, todo, x, size, host)
    ensures Scan(entries, todo, up, INVALID_SOURCE_ID, size, host) ==
            (entries - InvalidBefore(entries, todo, x),
             if entries[x].size != size then Failed else if entries[x].status.Completed? then Known else Left(Some(x)))
    decreases |todo|
  {
    var id := Oldest(todo);
    var e, rest := entries[id], todo - {id};
    if id == x {
      assert entries - InvalidBefore(entries, todo, x) == entries;
    } else if e.source != INVALID_SOURCE_ID {
      ScanStuck(entries, rest, up, size, host, x);
      assert InvalidBefore(entries, rest, x) == InvalidBefore(entries, todo, x);
    } else {
      assert Deletable(id, e, size, host);
      var left := entries - {id};
      ScanStuck(left, rest, if up.None? then Some(id) else up, size, host, x);
      assert entries - InvalidBefore(entries, todo, x) == left - InvalidBefore(left, rest, x);
    }
  }

  /** If it ends at none it deletes them all, and keeps the first one for the update. */
  lemma {:induction false} ScanUnstuck(entries: map<nat, Entry>, todo: set<nat>, up: Option<nat>, size: nat, host: Host)
    requires todo <= entries.Keys && forall id :: id in todo ==> Deletable(id, entries[id], size, host)
    ensures var invalid := InvalidAmong(entries, todo);
            Scan(entries, todo, up, INVALID_SOURCE_ID, size, host) ==
            (entries - invalid, Left(if up.Some? then up else if invalid == {} then None else Some(Oldest(invalid))))
    decreases |todo|
  {
    if todo == {} {
      assert entries - InvalidAmong(entries, todo) == entries;
    } else {
      var id := Oldest(todo);
      var rest := todo - {id};
      if entries[id].source != INVALID_SOURCE_ID {
        ScanUnstuck(entries, rest, up, size, host);
        assert InvalidAmong(entries, rest) == InvalidAmong(entries, todo);
      } else {
        var left := entries - {id};
        ScanUnstuck(left, rest, if up.None? then Some(id) else up, size, host);
        assert entries - InvalidAmong(entries, todo) == left - InvalidAmong(left, rest);
        assert id in InvalidAmong(entries, todo);
      }
    }
  }

  lemma {:induction false} SomeFirstStuck(entries: map<nat, Entry>, size: nat, host: Host)
    ensures (forall id :: id in entries ==> Deletable(id, entries[id], size, host)) ||
            exists x :: FirstStuck(entries, entries.Keys, x, size, host)
  {
    var stuck := set id | id in entries && !Deletable(id, entries[id], size, host);
    if stuck != {} {
      var x := Oldest(stuck);
      assert forall k :: k in entries && k < x ==> k !in stuck;
      assert FirstStuck(entries, entries.Keys, x, size, host);
    } else {
      assert forall id :: id in entries ==> id !in stuck;
    }
  }

  /**
   What a notification for the invalid source does in any state. If it ends at an entry without a source,
   those before it are gone, even when it then throws; if it ends at none they are all gone, and it adds
   an entry only if there was none.
   */
  lemma {:induction false} NotifyForInvalid(s: State, size: nat, host: Host)
    ensures var (s', r) := AfterNotify(s, INVALID_SOURCE_ID, size, host);
            && (forall x :: FirstStuck(s.entries, s.entries.Keys, x, size, host) ==>
                  var left := s.entries - InvalidBefore(s.entries, s.entries.Keys, x);
                  && x in left
                  && if left[x].size != size then s' == s.(entries := left) && r == Refused
                     else if left[x].status.Completed? then s' == s.(entries := left) && r == Ignored
                     else s' == s.(entries := left[x := left[x].(status := Completed)]) && r == Updated(x))
            && ((forall id :: id in s.entries ==> Deletable(id, s.entries[id], size, host)) ==>
                  var invalid := InvalidAmong(s.entries, s.entries.Keys);
                  if invalid == {} then
                    s' == Insert(s, Entry(INVALID_SOURCE_ID, size, Completed, false)) && r == Added(s'.last)
                  else s' == s.(entries := s.entries - invalid) && r == Dangling)
  {
    forall x | FirstStuck(s.entries, s.entries.Keys, x, size, host)
      ensures Scan(s.entries, s.entries.Keys, None, INVALID_SOURCE_ID, size, host) ==
              (s.entries - InvalidBefore(s.entries, s.entries.Keys, x),
               if s.entries[x].size != size then Failed
               else if s.entries[x].status.Completed? then Known else Left(Some(x)))
    {
      ScanStuck(s.entries, s.entries.Keys, None, size, host, x);
    }
    if forall id :: id in s.entries ==> Deletable(id, s.entries[id], size, host) {
      ScanUnstuck(s.entries, s.entries.Keys, None, size, host);
      assert s.entries - {} == s.entries;
    }
    hide Insert;
  }

  /**
   A notification follows a pointer to an entry it has just deleted if and only if it is for the invalid
   source, some entry has no source, and every such entry has another size and can be deleted.
   */
  lemma {:induction false} DanglesExactly(s: State, source: nat, size: nat, host: Host)
    ensures AfterNotify(s, source, size, host).1 == Dangling <==>
            && source == INVALID_SOURCE_ID
            && (exists id :: id in s.entries && s.entries[id].source == INVALID_SOURCE_ID)
            && forall id :: id in s.entries ==> Deletable(id, s.entries[id], size, host)
  {
    if source == INVALID_SOURCE_ID {
      NotifyForInvalid(s, size, host);
      SomeFirstStuck(s.entries, size, host);
      var invalid := InvalidAmong(s.entries, s.entries.Keys);
      assert invalid == {} <==> !exists id :: id in s.entries && s.entries[id].source == INVALID_SOURCE_ID by {
        if id :| id in s.entries && s.entries[id].source == INVALID_SOURCE_ID {
          assert id in invalid;
        }
      }
      hide Insert, InvalidBefore;
    } else {
      ScanForReal(s.entries, s.entries.Keys, None, source, size, host);
      var (entries, r) := Scan(s.entries, s.entries.Keys, None, source, size, host);
      assert AfterNotify(s, source, size, host).1 == Dangling <==> r.Left? && r.up.Some? && r.up.value !in entries;
    }
  }

  /** Two such notifications on a new manager are enough, with nothing ever requested. */
  lemma {:induction false} TwoInvalidNotificationsDangle(host: Host)
    ensures var s := Step(State(map[], 0), Notify(INVALID_SOURCE_ID, 5, host));
            && s == State(map[1 := Entry(INVALID_SOURCE_ID, 5, Completed, false)], 1)
            && !SomePending(s.entries)
            && AfterNotify(s, INVALID_SOURCE_ID, 7, host).1 == Dangling
  {
    var s := State(map[1 := Entry(INVALID_SOURCE_ID, 5, Completed, false)], 1);
    assert Scan(map[], {}, None, INVALID_SOURCE_ID, 5, host) == (map[], Left(None));
    assert s.entries[1].source == INVALID_SOURCE_ID;
    DanglesExactly(s, INVALID_SOURCE_ID, 7, host);
  }

  // ----- the manager -------------------------------------------------------------------------

  class Manager {
    var entries: map<nat, Entry>
    var lastEntryId: nat

    constructor ()
      ensures View() == State(map[], 0)
    {
      entries, lastEntryId := map[], 0;
    }

    function View(): State
      reads this
    {
      State(entries, lastEntryId)
    }

    method Notify(source: nat, size: nat, host: Host) returns (r: Outcome)
      modifies this
      ensures (View(), r) == AfterNotify(old(View()), source, size, host)
    {
      var upEntry: Option<nat> := None;
      var todo := entries.Keys;
      while todo != {}
        invariant todo <= entries.Keys && lastEntryId == old(lastEntryId)
        invariant Scan(entries, todo, upEntry, source, size, host)
                  == Scan(old(entries), old(entries).Keys, None, source, size, host)
        decreases |todo|
      {
        var id := Oldest(todo);
        var e := entries[id];
        if e.source == source && e.size == size {
          if e.status.Completed? {
            return Ignored;
          }
          upEntry, todo := Some(id), {};
          break;
        } else if e.source == source {
          if !CanDelete(id, e, host) {
            return Refused;
          }
          entries := entries - {id};
        }
        if e.source == INVALID_SOURCE_ID && upEntry.None? {
          upEntry := Some(id);
        }
        todo := todo - {id};
      }
      if upEntry.Some? {
        var id := upEntry.value;
        if id !in entries {
          return Dangling;
        }
        entries := entries[id := Reported(entries[id], source, size)];
        return Updated(id);
      }
      InsertEntry(Entry(source, size, Completed, false));
      r := Added(lastEntryId);
    }

    method InsertEntry(e: Entry)
      modifies this
      ensures View() == Insert(old(View()), e)
    {
      var id := NextId(lastEntryId);
      if id !in entries {
        entries := entries[id := e];
      }
      lastEntryId := NextId(lastEntryId);
    }

    method CreateDump()
      modifies this
      ensures View() == AfterRequest(old(View()))
    {
      InsertEntry(Entry(INVALID_SOURCE_ID, 0, InProgress, false));
    }

    method DeleteEntry(id: nat, host: Host)
      modifies this
      ensures View() == AfterDelete(old(View()), id, host)
    {
      if id in entries && CanDelete(id, entries[id], host) {
        entries := entries - {id};
      }
    }
  }
}
