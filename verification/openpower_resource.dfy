/** The OpenPOWER resource dump manager, and the FIFO queue of requests it refines. */
module OpenPowerResource {
  import opened Wrappers
  import opened OrderedIds
  import opened OpenPower

  datatype Event =
    | CreateDump
    | Notify(source: nat, size: nat)
    | Delete(id: nat, host: Host)
    | Offload(id: nat, host: Host)

  datatype Scanned = Known | Left(up: Option<nat>)

  function Scan(entries: map<nat, Entry>, todo: set<nat>, up: Option<nat>, source: nat): (r: Scanned)
    requires todo <= entries.Keys
    ensures r.Left? && r.up.Some? ==> r.up == up || r.up.value in todo
    decreases |todo|
  {
    if todo == {} then Left(up)
    else
      var id := Oldest(todo);
      var e := entries[id];
      if e.source == source && e.status.Completed? then Known
      else Scan(entries, todo - {id}, if IsPending(e) && up.None? then Some(id) else up, source)
  }

  function AfterNotify(s: State, source: nat, size: nat): (State, Outcome) {
    match Scan(s.entries, s.entries.Keys, None, source)
    case Known => (s, Ignored)
    case Left(None) =>
      var s1 := Insert(s, Entry(source, size, Completed, false));
      (s1, Added(s1.last))
    case Left(Some(id)) => (s.(entries := s.entries[id := Reported(s.entries[id], source, size)]), Updated(id))
  }

  function Step(s: State, e: Event): State {
    match e
    case CreateDump => AfterRequest(s)
    case Notify(source, size) => AfterNotify(s, source, size).0
    case Delete(id, host) => AfterDelete(s, id, host)
    case Offload(id, host) => if host.running then AfterOffload(s, id) else s
  }

  function Run(s: State, events: seq<Event>): State
    decreases |events|
  {
    if events == [] then s else Run(Step(s, events[0]), events[1..])
  }

  ghost predicate Along(s: State, events: seq<Event>)
    decreases |events|
  {
    events == [] || (s.last + 1 < U32 && Along(Step(s, events[0]), events[1..]))
  }

  // ----- the queue ---------------------------------------------------------------------------

  /** Pending requests in order of arrival, and the entry of every source reported so far. */
  datatype Fifo = Fifo(pending: seq<nat>, done: map<nat, nat>, last: nat)

  function FifoNotify(f: Fifo, source: nat): (Fifo, Outcome) {
    if source in f.done then (f, Ignored)
    else if f.pending != [] then
      (f.(pending := f.pending[1..], done := f.done[source := f.pending[0]]), Updated(f.pending[0]))
    else (f.(done := f.done[source := f.last + 1], last := f.last + 1), Added(f.last + 1))
  }

  function Without(ids: seq<nat>, id: nat): (r: seq<nat>)
    ensures forall k :: k in r <==> k in ids && k != id
  {
    if ids == [] then [] else (if ids[0] == id then [] else [ids[0]]) + Without(ids[1..], id)
  }

  function WithoutId(done: map<nat, nat>, id: nat): map<nat, nat> {
    map d | d in done && done[d] != id :: done[d]
  }

  /** deleted tells whether the manager deleted the entry. */
  function FifoStep(f: Fifo, e: Event, deleted: bool): Fifo {
    match e
    case CreateDump => f.(pending := f.pending + [f.last + 1], last := f.last + 1)
    case Notify(source, _) => FifoNotify(f, source).0
    case Delete(id, _) =>
      if !deleted then f
      else f.(pending := Without(f.pending, id), done := WithoutId(f.done, id))
    case Offload(_, _) => f
  }

  /** The step from s to s' deleted an entry. */
  predicate Shrunk(s: State, s': State) {
    s'.entries.Keys < s.entries.Keys
  }

  ghost function FifoRun(f: Fifo, s: State, events: seq<Event>): Fifo
    decreases |events|
  {
    if events == [] then f
    else
      var s1 := Step(s, events[0]);
      FifoRun(FifoStep(f, events[0], Shrunk(s, s1)), s1, events[1..])
  }

  ghost predicate Ascending(ids: seq<nat>) {
    forall i, j :: 0 <= i < j < |ids| ==> ids[i] < ids[j]
  }

  ghost predicate PendingMatches(entries: map<nat, Entry>, pending: seq<nat>) {
    && Ascending(pending)
    && forall id :: id in pending <==> id in entries && IsPending(entries[id])
  }

  ghost predicate DoneMatches(entries: map<nat, Entry>, done: map<nat, nat>) {
    && (forall id :: id in entries && !IsPending(entries[id]) ==>
          entries[id].status.Completed? && entries[id].source in done && done[entries[id].source] == id)
    && (forall d :: d in done ==>
          done[d] in entries && entries[done[d]].status.Completed? && entries[done[d]].source == d)
  }

  ghost predicate Refines(s: State, f: Fifo) {
    KeysBelow(s) && f.last == s.last && PendingMatches(s.entries, f.pending) && DoneMatches(s.entries, f.done)
  }

  // ----- the loop and the queue --------------------------------------------------------------

  /** r is the smallest pending id among todo, unless one was found before. */
  ghost predicate FirstOf(entries: map<nat, Entry>, todo: set<nat>, up: Option<nat>, r: Option<nat>)
    requires todo <= entries.Keys
  {
    if up.Some? then r == up
    else if r.None? then forall id :: id in todo ==> !IsPending(entries[id])
    else && r.value in todo && IsPending(entries[r.value])
         && forall id :: id in todo && IsPending(entries[id]) ==> r.value <= id
  }

  lemma {:induction false} ScanFinds(entries: map<nat, Entry>, todo: set<nat>, up: Option<nat>, source: nat)
    requires todo <= entries.Keys
    ensures var r := Scan(entries, todo, up, source);
            && (r.Known? <==> exists id :: id in todo && entries[id].source == source && entries[id].status.Completed?)
            && (r.Left? ==> FirstOf(entries, todo, up, r.up))
    decreases |todo|
  {
    if todo == {} {
    } else {
      var id := Oldest(todo);
      var e := entries[id];
      ScanFinds(entries, todo - {id}, if IsPending(e) && up.None? then Some(id) else up, source);
      assert forall k :: k in todo ==> k == id || k in todo - {id};
    }
  }

  lemma {:induction false} CompletingFirst(entries: map<nat, Entry>, pending: seq<nat>, source: nat, size: nat)
    requires PendingMatches(entries, pending) && pending != []
    ensures pending[0] in entries && IsPending(entries[pending[0]])
    ensures PendingMatches(entries[pending[0] := Reported(entries[pending[0]], source, size)], pending[1..])
  {
    var id := pending[0];
    assert id in pending;
    assert pending == [id] + pending[1..] && id !in pending[1..];
  }

  lemma {:induction false} CompletingOne(entries: map<nat, Entry>, done: map<nat, nat>, id: nat, source: nat, size: nat)
    requires DoneMatches(entries, done) && source !in done && id in entries && IsPending(entries[id])
    ensures DoneMatches(entries[id := Reported(entries[id], source, size)], done[source := id])
  {
  }

  lemma {:induction false} CompletingRefines(s: State, f: Fifo, source: nat, size: nat)
    requires Refines(s, f) && source !in f.done && f.pending != []
    ensures f.pending[0] in s.entries
    ensures var id := f.pending[0];
            Refines(s.(entries := s.entries[id := Reported(s.entries[id], source, size)]), FifoNotify(f, source).0)
  {
    CompletingFirst(s.entries, f.pending, source, size);
    CompletingOne(s.entries, f.done, f.pending[0], source, size);
    hide PendingMatches, DoneMatches;
  }

  lemma {:induction false} AddingRefines(s: State, f: Fifo, source: nat, size: nat)
    requires Refines(s, f) && source !in f.done && f.pending == [] && s.last + 1 < U32
    ensures Refines(Insert(s, Entry(source, size, Completed, false)), FifoNotify(f, source).0)
  {
  }

  lemma {:induction false} RequestRefines(s: State, f: Fifo)
    requires Refines(s, f) && s.last + 1 < U32
    ensures Refines(AfterRequest(s), f.(pending := f.pending + [f.last + 1], last := f.last + 1))
  {
    var id := s.last + 1;
    var pending := f.pending + [id];
    forall k | k in f.pending
      ensures k < id
    {
      assert k in s.entries;
    }
    assert forall i :: 0 <= i < |f.pending| ==> f.pending[i] in f.pending;
  }

  lemma {:induction false} DeletingPending(entries: map<nat, Entry>, pending: seq<nat>, id: nat)
    requires PendingMatches(entries, pending)
    ensures PendingMatches(entries - {id}, Without(pending, id))
  {
    WithoutAscends(pending, id);
    hide Without, Ascending;
  }

  lemma {:induction false} DeletingDone(entries: map<nat, Entry>, done: map<nat, nat>, id: nat)
    requires DoneMatches(entries, done)
    ensures DoneMatches(entries - {id}, WithoutId(done, id))
  {
  }

  lemma {:induction false} DeletingRefines(s: State, f: Fifo, id: nat)
    requires Refines(s, f) && id in s.entries
    ensures Refines(s.(entries := s.entries - {id}), f.(pending := Without(f.pending, id), done := WithoutId(f.done, id)))
  {
    DeletingPending(s.entries, f.pending, id);
    DeletingDone(s.entries, f.done, id);
    hide PendingMatches, DoneMatches, Without, WithoutId;
  }

  lemma {:induction false} NotifyRefines(s: State, f: Fifo, source: nat, size: nat)
    requires Refines(s, f) && s.last + 1 < U32
    ensures var (s', r) := AfterNotify(s, source, size);
            var (f', q) := FifoNotify(f, source);
            Refines(s', f') && r == q
  {
    ScanFinds(s.entries, s.entries.Keys, None, source);
    var r := Scan(s.entries, s.entries.Keys, None, source);
    if source in f.done {
      assert f.done[source] in s.entries.Keys;
      assert r.Known?;
    } else if f.pending != [] {
      CompletingRefines(s, f, source, size);
      assert f.pending[0] in f.pending && IsPending(s.entries[f.pending[0]]);
      assert r.Left? && r.up.Some? && r.up.value in f.pending;
      assert r.up == Some(f.pending[0]);
    } else {
      AddingRefines(s, f, source, size);
      assert forall k :: k in s.entries && IsPending(s.entries[k]) ==> k in f.pending;
      assert r == Left(None);
    }
    hide Refines, Scan, Insert;
  }

  lemma {:induction false} WithoutAscends(ids: seq<nat>, id: nat)
    requires Ascending(ids)
    ensures Ascending(Without(ids, id))
  {
    if ids == [] {
    } else {
      var rest := Without(ids[1..], id);
      WithoutAscends(ids[1..], id);
      forall j | 0 <= j < |rest|
        ensures ids[0] < rest[j]
      {
        assert rest[j] in rest;
        var i :| 0 <= i < |ids[1..]| && ids[1..][i] == rest[j];
        assert ids[i + 1] == rest[j];
      }
    }
  }

  lemma {:induction false} DeleteRefines(s: State, f: Fifo, id: nat, host: Host)
    requires Refines(s, f)
    ensures Refines(AfterDelete(s, id, host), FifoStep(f, Delete(id, host), Shrunk(s, AfterDelete(s, id, host))))
  {
    var s' := AfterDelete(s, id, host);
    if s' != s {
      DeletingRefines(s, f, id);
      assert id !in s'.entries && id in s.entries;
    }
    hide Refines, Without, WithoutId;
  }

  lemma {:induction false} OffloadRefines(s: State, f: Fifo, id: nat)
    requires Refines(s, f)
    ensures Refines(AfterOffload(s, id), f)
  {
    hide Ascending;
  }

  lemma {:induction false} StepRefines(s: State, f: Fifo, e: Event)
    requires Refines(s, f) && s.last + 1 < U32
    ensures Refines(Step(s, e), FifoStep(f, e, Shrunk(s, Step(s, e))))
  {
    match e {
      case Notify(source, size) => NotifyRefines(s, f, source, size);
      case Delete(id, host) => DeleteRefines(s, f, id, host);
      case CreateDump => RequestRefines(s, f);
      case Offload(id, host) => OffloadRefines(s, f, id);
    }
    hide Refines, AfterNotify, FifoNotify, AfterRequest, AfterDelete, AfterOffload;
  }

  /**
   The manager refines the queue in every run: requests are completed first in, first out, a source
   reported before changes nothing, and a report with nothing pending adds one completed entry.
   */
  lemma {:induction false} RunRefines(s: State, f: Fifo, events: seq<Event>)
    requires Refines(s, f) && Along(s, events)
    ensures Refines(Run(s, events), FifoRun(f, s, events))
    decreases |events|
  {
    if events == [] {
    } else {
      StepRefines(s, f, events[0]);
      var s1 := Step(s, events[0]);
      var f1 := FifoStep(f, events[0], Shrunk(s, s1));
      hide Refines, Step, FifoStep;
      RunRefines(s1, f1, events[1..]);
    }
  }

  // ----- counting ----------------------------------------------------------------------------

  predicate DeleteFree(events: seq<Event>) {
    forall i :: 0 <= i < |events| ==> !events[i].Delete?
  }

  function Requests(events: seq<Event>): nat {
    if events == [] then 0 else (if events[0].CreateDump? then 1 else 0) + Requests(events[1..])
  }

  /** The notifications of a run that found neither their source nor a pending request. */
  function Unmatched(s: State, events: seq<Event>): nat
    decreases |events|
  {
    if events == [] then 0
    else (if events[0].Notify? && AfterNotify(s, events[0].source, events[0].size).1.Added? then 1 else 0)
         + Unmatched(Step(s, events[0]), events[1..])
  }

  function Sources(events: seq<Event>): set<nat> {
    if events == [] then {} else (if events[0].Notify? then {events[0].source} else {}) + Sources(events[1..])
  }

  ghost function CompletedIds(s: State): set<nat> {
    set id | id in s.entries && s.entries[id].status.Completed?
  }

  ghost function Image(m: map<nat, nat>): set<nat> {
    set d | d in m :: m[d]
  }

  lemma {:induction false} InjectiveSize(m: map<nat, nat>)
    requires forall a, b :: a in m && b in m && a != b ==> m[a] != m[b]
    ensures |Image(m)| == |m|
    decreases |m|
  {
    if k :| k in m {
      var rest := m - {k};
      InjectiveSize(rest);
      forall d | d in rest
        ensures m[d] in Image(rest) && m[d] != m[k]
      {
        assert rest[d] == m[d];
      }
      assert Image(m) == {m[k]} + Image(rest);
      assert m[k] !in Image(rest);
      assert |m| == |rest| + 1 by {
        assert m.Keys == rest.Keys + {k};
        assert |m| == |m.Keys| && |rest| == |rest.Keys|;
      }
    } else {
      assert Image(m) == {};
    }
  }

  lemma {:induction false} CompletedCount(s: State, f: Fifo)
    requires Refines(s, f)
    ensures |CompletedIds(s)| == |f.done|
  {
    InjectiveSize(f.done);
    assert CompletedIds(s) == Image(f.done);
  }

  lemma {:induction false} InsertGrows(s: State, e: Entry)
    requires KeysBelow(s) && s.last + 1 < U32
    ensures var s' := Insert(s, e);
            |s'.entries| == |s.entries| + 1 && s.entries.Keys <= s'.entries.Keys
  {
    assert Insert(s, e).entries.Keys == s.entries.Keys + {s.last + 1};
    assert |s.entries| == |s.entries.Keys| && |Insert(s, e).entries| == |Insert(s, e).entries.Keys|;
  }

  lemma {:induction false} SameKeysSameSize(a: map<nat, Entry>, b: map<nat, Entry>)
    requires a.Keys == b.Keys
    ensures |a| == |b|
  {
    assert |a| == |a.Keys| && |b| == |b.Keys|;
  }

  lemma {:induction false} NotifyCounts(s: State, source: nat, size: nat)
    requires KeysBelow(s) && s.last + 1 < U32
    ensures var (s', r) := AfterNotify(s, source, size);
            s.entries.Keys <= s'.entries.Keys && |s'.entries| == |s.entries| + (if r.Added? then 1 else 0)
  {
    hide Scan, Insert, KeysBelow;
    var (s', r) := AfterNotify(s, source, size);
    if r.Added? {
      InsertGrows(s, Entry(source, size, Completed, false));
    } else {
      assert s'.entries.Keys == s.entries.Keys;
      SameKeysSameSize(s.entries, s'.entries);
    }
  }

  lemma {:induction false} StepCounts(s: State, e: Event)
    requires KeysBelow(s) && s.last + 1 < U32 && !e.Delete?
    ensures var s' := Step(s, e);
            && s.entries.Keys <= s'.entries.Keys
            && |s'.entries| == |s.entries| + (if e.CreateDump? then 1 else 0)
                               + (if e.Notify? && AfterNotify(s, e.source, e.size).1.Added? then 1 else 0)
  {
    match e {
      case CreateDump => InsertGrows(s, Entry(INVALID_SOURCE_ID, 0, InProgress, false));
      case Notify(source, size) => NotifyCounts(s, source, size);
      case Offload(id, host) => SameKeysSameSize(s.entries, Step(s, e).entries);
    }
    hide AfterNotify, Insert, KeysBelow;
  }

  lemma {:induction false} FifoStepSources(f: Fifo, e: Event)
    ensures !e.Delete? ==>
              FifoStep(f, e, false).done.Keys == f.done.Keys + (if e.Notify? then {e.source} else {})
  {
  }

  lemma {:induction false} DeleteFreeSources(s: State, f: Fifo, events: seq<Event>)
    requires Refines(s, f) && Along(s, events) && DeleteFree(events)
    ensures FifoRun(f, s, events).done.Keys == f.done.Keys + Sources(events)
    decreases |events|
  {
    if events == [] {
    } else {
      var e := events[0];
      StepRefines(s, f, e);
      StepCounts(s, e);
      var s1, f1 := Step(s, e), FifoStep(f, e, false);
      FifoStepSources(f, e);
      assert DeleteFree(events[1..]);
      hide Refines, Step, FifoStep, AfterNotify, DeleteFree;
      DeleteFreeSources(s1, f1, events[1..]);
      assert FifoRun(f, s, events) == FifoRun(f1, s1, events[1..]);
    }
  }

  lemma {:induction false} DeleteFreeEntries(s: State, f: Fifo, events: seq<Event>)
    requires Refines(s, f) && Along(s, events) && DeleteFree(events)
    ensures |Run(s, events).entries| == |s.entries| + Requests(events) + Unmatched(s, events)
    decreases |events|
  {
    if events == [] {
    } else {
      StepRefines(s, f, events[0]);
      StepCounts(s, events[0]);
      var s1 := Step(s, events[0]);
      var f1 := FifoStep(f, events[0], Shrunk(s, s1));
      hide Refines, Step, FifoStep, AfterNotify;
      DeleteFreeEntries(s1, f1, events[1..]);
    }
  }

  /**
   In a run without deletions from the empty manager there are as many completed entries as distinct
   sources reported, and as many entries as requests and unmatched notifications together.
   */
  lemma {:induction false} CountsFromEmpty(events: seq<Event>)
    requires Along(State(map[], 0), events) && DeleteFree(events)
    ensures var s := Run(State(map[], 0), events);
            && |CompletedIds(s)| == |Sources(events)|
            && |s.entries| == Requests(events) + Unmatched(State(map[], 0), events)
  {
    var s0, f0 := State(map[], 0), Fifo([], map[], 0);
    RunRefines(s0, f0, events);
    DeleteFreeSources(s0, f0, events);
    DeleteFreeEntries(s0, f0, events);
    CompletedCount(Run(s0, events), FifoRun(f0, s0, events));
    var done := FifoRun(f0, s0, events).done;
    assert |done| == |done.Keys|;
    assert done.Keys == Sources(events);
    hide Run, FifoRun, Sources;
  }

  // ----- what is reported --------------------------------------------------------------------

  ghost predicate HoldsCompleted(s: State, source: nat) {
    exists id :: id in s.entries && s.entries[id].source == source && s.entries[id].status.Completed?
  }

  /** All entries but one are as before. */
  ghost predicate OthersAsBefore(s: State, s': State, id: nat) {
    && s'.entries.Keys == s.entries.Keys + {id}
    && forall k :: k in s.entries && k != id ==> s'.entries[k] == s.entries[k]
  }

  /**
   A notification whose source no completed entry holds leaves one completed entry with this source and
   this size, a pending one or a new one; every other entry is as before. A replay changes nothing.
   */
  lemma {:induction false} NotifyEffect(s: State, source: nat, size: nat)
    requires KeysBelow(s) && s.last + 1 < U32
    ensures var (t, r) := AfterNotify(s, source, size);
            if HoldsCompleted(s, source) then t == s && r == Ignored
            else && (r.Updated? || r == Added(s.last + 1))
                 && r.id in t.entries && OthersAsBefore(s, t, r.id)
                 && t.entries[r.id].source == source && t.entries[r.id].size == size && t.entries[r.id].status.Completed?
                 && (r.Updated? ==> r.id in s.entries && IsPending(s.entries[r.id]) && t.last == s.last
                                    && t.entries[r.id].offloading == s.entries[r.id].offloading)
                 && (r.Added? ==> r.id !in s.entries && t.last == r.id && !t.entries[r.id].offloading)
  {
    ScanFinds(s.entries, s.entries.Keys, None, source);
    hide Scan;
  }

  /** The size that came with the first notification of a source. */
  function FirstSize(events: seq<Event>, source: nat): Option<nat> {
    if events == [] then None
    else if events[0].Notify? && events[0].source == source then Some(events[0].size)
    else FirstSize(events[1..], source)
  }

  /** Some completed entry holds the source, and it has this size. */
  ghost predicate HoldsSize(s: State, source: nat, size: nat) {
    exists id :: id in s.entries && s.entries[id] == Entry(source, size, Completed, s.entries[id].offloading)
  }

  /** A completed entry is added beside the others, or takes the place of a pending one. */
  lemma {:induction false} OneMoreCompleted(s: State, t: State, id: nat, source: nat, size: nat)
    requires id in t.entries && OthersAsBefore(s, t, id) && t.entries[id].status.Completed?
    requires id in s.entries ==> !s.entries[id].status.Completed?
    ensures HoldsCompleted(t, source) <==> HoldsCompleted(s, source) || t.entries[id].source == source
    ensures HoldsSize(t, source, size) <==>
            HoldsSize(s, source, size) || (t.entries[id].source == source && t.entries[id].size == size)
  {
    if k :| k in s.entries && s.entries[k].source == source && s.entries[k].status.Completed? {
      assert t.entries[k] == s.entries[k];
    }
    if k :| k in s.entries && s.entries[k] == Entry(source, size, Completed, s.entries[k].offloading) {
      assert t.entries[k] == s.entries[k];
    }
  }

  lemma {:induction false} NotifyHoldsSize(s: State, origin: nat, reported: nat, source: nat, size: nat)
    requires KeysBelow(s) && s.last + 1 < U32
    ensures var t := AfterNotify(s, origin, reported).0;
            && KeysBelow(t)
            && (HoldsCompleted(t, source) <==> HoldsCompleted(s, source) || origin == source)
            && (HoldsSize(t, source, size) <==>
                HoldsSize(s, source, size) || (origin == source && reported == size && !HoldsCompleted(s, source)))
  {
    var (t, r) := AfterNotify(s, origin, reported);
    NotifyEffect(s, origin, reported);
    hide AfterNotify;
    if !HoldsCompleted(s, origin) {
      OneMoreCompleted(s, t, r.id, source, size);
    }
    hide HoldsCompleted, HoldsSize;
  }

  /** Requests and offloads change neither the source nor the size nor the status of an entry. */
  lemma {:induction false} NotCompleting(s: State, e: Event, source: nat, size: nat)
    requires KeysBelow(s) && s.last + 1 < U32 && (e.CreateDump? || e.Offload?)
    ensures HoldsCompleted(Step(s, e), source) <==> HoldsCompleted(s, source)
    ensures HoldsSize(Step(s, e), source, size) <==> HoldsSize(s, source, size)
  {
    var t := Step(s, e);
    assert forall k :: k in t.entries && t.entries[k].status.Completed? ==>
        k in s.entries && t.entries[k].(offloading := false) == s.entries[k].(offloading := false);
    forall k | k in s.entries
      ensures k in t.entries && t.entries[k].(offloading := false) == s.entries[k].(offloading := false)
    {
    }
    if k :| k in s.entries && s.entries[k].source == source && s.entries[k].status.Completed? {
      assert k in t.entries;
    }
    if k :| k in s.entries && s.entries[k] == Entry(source, size, Completed, s.entries[k].offloading) {
      assert k in t.entries;
    }
  }

  lemma {:induction false} StepHoldsSize(s: State, e: Event, source: nat, size: nat)
    requires KeysBelow(s) && s.last + 1 < U32 && !e.Delete?
    ensures KeysBelow(Step(s, e))
    ensures HoldsCompleted(Step(s, e), source) <==> HoldsCompleted(s, source) || (e.Notify? && e.source == source)
    ensures HoldsSize(Step(s, e), source, size) <==>
            HoldsSize(s, source, size) || (e.Notify? && e.source == source && e.size == size && !HoldsCompleted(s, source))
  {
    match e {
      case Notify(origin, reported) =>
        NotifyHoldsSize(s, origin, reported, source, size);
        hide AfterNotify;
      case _ => NotCompleting(s, e, source, size);
    }
  }

  lemma {:induction false} DeleteFreeSizes(s: State, events: seq<Event>, source: nat, size: nat)
    requires KeysBelow(s) && Along(s, events) && DeleteFree(events)
    ensures HoldsSize(Run(s, events), source, size) <==>
            HoldsSize(s, source, size) || (!HoldsCompleted(s, source) && FirstSize(events, source) == Some(size))
    decreases |events|
  {
    if events == [] {
    } else {
      StepHoldsSize(s, events[0], source, size);
      assert DeleteFree(events[1..]);
      hide KeysBelow, Step, HoldsSize, HoldsCompleted, DeleteFree;
      DeleteFreeSizes(Step(s, events[0]), events[1..], source, size);
    }
  }

  /** In a run without deletions from the empty manager a source is held with a size exactly if it was first reported with it. */
  lemma {:induction false} SizesFromEmpty(events: seq<Event>, source: nat, size: nat)
    requires Along(State(map[], 0), events) && DeleteFree(events)
    ensures HoldsSize(Run(State(map[], 0), events), source, size) <==> FirstSize(events, source) == Some(size)
  {
    DeleteFreeSizes(State(map[], 0), events, source, size);
    hide Run, FirstSize;
  }

  // ----- entries under offload ---------------------------------------------------------------

  function HostOf(e: Event): Host {
    match e
    case Delete(_, host) => host
    case _ => Host(true, {})
  }

  lemma {:induction false} StepKeepsOffloading(s: State, e: Event, id: nat)
    requires KeysBelow(s) && s.last + 1 < U32 && HostOf(e).running
    requires id in s.entries && s.entries[id].offloading
    ensures KeysBelow(Step(s, e))
    ensures id in Step(s, e).entries && KeptOffloading(s.entries[id], Step(s, e).entries[id])
  {
    match e {
      case Delete(k, host) => DeleteEffect(s, k, host);
      case Notify(source, size) =>
        NotifyEffect(s, source, size);
        hide AfterNotify;
      case _ =>
    }
  }

  lemma {:induction false} RunKeepsOffloading(s: State, events: seq<Event>, id: nat)
    requires KeysBelow(s) && Along(s, events) && forall i :: 0 <= i < |events| ==> HostOf(events[i]).running
    requires id in s.entries && s.entries[id].offloading
    ensures id in Run(s, events).entries && KeptOffloading(s.entries[id], Run(s, events).entries[id])
    decreases |events|
  {
    if events == [] {
    } else {
      StepKeepsOffloading(s, events[0], id);
      hide KeysBelow, Step, HostOf;
      RunKeepsOffloading(Step(s, events[0]), events[1..], id);
    }
  }

  /**
   An entry whose offload was started with the host up outlives every run while the host stays up, and
   once completed it does not change.
   */
  lemma {:induction false} OffloadedIsKept(s: State, events: seq<Event>, id: nat, host: Host)
    requires KeysBelow(s) && Along(s, [Offload(id, host)] + events) && id in s.entries && host.running
    requires forall i :: 0 <= i < |events| ==> HostOf(events[i]).running
    ensures var t := Run(s, [Offload(id, host)] + events);
            && id in t.entries && t.entries[id].offloading
            && (s.entries[id].status.Completed? ==> t.entries[id] == s.entries[id].(offloading := true))
  {
    var s1, all := Step(s, Offload(id, host)), [Offload(id, host)] + events;
    assert all[0] == Offload(id, host) && all[1..] == events;
    assert KeysBelow(s1) && s1.entries[id] == s.entries[id].(offloading := true);
    hide KeysBelow, Step;
    RunKeepsOffloading(s1, events, id);
  }

  // ----- the manager -------------------------------------------------------------------------

  class Manager {
    var entries: map<nat, Entry>
    var lastEntryId: nat

    constructor ()
      ensures View() == State(map[], 0)
    {
      entries, lastEntryId := map[], 0;
    }

    function View(): State
      reads this
    {
      State(entries, lastEntryId)
    }

    method Notify(source: nat, size: nat) returns (r: Outcome)
      modifies this
      ensures (View(), r) == AfterNotify(old(View()), source, size)
    {
      var upEntry: Option<nat> := None;
      var todo := entries.Keys;
      while todo != {}
        invariant todo <= entries.Keys && (upEntry.Some? ==> upEntry.value in entries)
        invariant Scan(entries, todo, upEntry, source) == Scan(entries, entries.Keys, None, source)
        invariant View() == old(View())
        decreases |todo|
      {
        var id := Oldest(todo);
        var e := entries[id];
        if e.source == source && e.status.Completed? {
          return Ignored;
        }
        if e.status.InProgress? && e.source == INVALID_SOURCE_ID && upEntry.None? {
          upEntry := Some(id);
        }
        todo := todo - {id};
      }
      if upEntry.Some? {
        var id := upEntry.value;
        entries := entries[id := Reported(entries[id], source, size)];
        return Updated(id);
      }
      InsertEntry(Entry(source, size, Completed, false));
      r := Added(lastEntryId);
    }

    method InsertEntry(e: Entry)
      modifies this
      ensures View() == Insert(old(View()), e)
    {
      var id := NextId(lastEntryId);
      if id !in entries {
        entries := entries[id := e];
      }
      lastEntryId := NextId(lastEntryId);
    }

    method CreateDump()
      modifies this
      ensures View() == AfterRequest(old(View()))
    {
      InsertEntry(Entry(INVALID_SOURCE_ID, 0, InProgress, false));
    }
  }
}
