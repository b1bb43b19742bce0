/**
 The error log watch: it requests one dump per error log and remembers which, on disk, so that error
 logs announced again after a restart are skipped.
 */
module ElogWatch {
  import opened Wrappers

  /** What became visible outside: a dump request was attempted, or an error log was removed. */
  datatype Mark = Attempt(id: nat) | Removal(id: nat)

  /** saved is the persisted list, None before it was first written; history is what has happened. */
  datatype State = State(elogList: set<nat>, saved: Option<set<nat>>, history: seq<Mark>)

  /** Where a callback is interrupted by a crash; the process then starts again. */
  datatype Crash = Never | BeforeInsert | BeforePersist | BeforeCreate | AfterCreate

  /** relevant: the signal carries a message of a configured error type. */
  datatype Event =
    | Added(id: nat, relevant: bool, crash: Crash)
    | Removed(id: nat, crash: Crash)
    | Restart

  function Loaded(saved: Option<set<nat>>): set<nat> {
    if saved.Some? then saved.value else {}
  }

  function Restarted(s: State): State {
    s.(elogList := Loaded(s.saved))
  }

  /** The list is saved before the request, so that a crash can lose a dump but not repeat one. */
  function AfterAdded(s: State, id: nat, relevant: bool, crash: Crash): State {
    if id in s.elogList || !relevant then if crash == Never then s else Restarted(s)
    else
      var list := s.elogList + {id};
      var persisted := s.(elogList := list, saved := Some(list));
      var created := persisted.(history := s.history + [Attempt(id)]);
      match crash
      case Never => created
      case BeforeInsert => Restarted(s)
      case BeforePersist => Restarted(s.(elogList := list))
      case BeforeCreate => Restarted(persisted)
      case AfterCreate => Restarted(created)
  }

  function AfterRemoved(s: State, id: nat, crash: Crash): State {
    var s1 := s.(history := s.history + [Removal(id)]);
    var list := s.elogList - {id};
    if id !in s.elogList then if crash == Never then s1 else Restarted(s1)
    else
      match crash
      case Never => s1.(elogList := list, saved := Some(list))
      case BeforeInsert => Restarted(s1)
      case BeforePersist => Restarted(s1.(elogList := list))
      case _ => Restarted(s1.(elogList := list, saved := Some(list)))
  }

  function Step(s: State, e: Event): State {
    match e
    case Added(id, relevant, crash) => AfterAdded(s, id, relevant, crash)
    case Removed(id, crash) => AfterRemoved(s, id, crash)
    case Restart => Restarted(s)
  }

  function Run(s: State, events: seq<Event>): State
    decreases |events|
  {
    if events == [] then s else Run(Step(s, events[0]), events[1..])
  }

  // ----- at most once ------------------------------------------------------------------------

  /** Between two attempts for an error log it was removed. */
  ghost predicate AtMostOnce(history: seq<Mark>) {
    forall i, j :: 0 <= i < j < |history| && history[i] == history[j] && history[i].Attempt? ==>
      exists k :: i < k < j && history[k] == Removal(history[i].id)
  }

  /** Attempted, and not removed since. */
  ghost predicate Outstanding(history: seq<Mark>, id: nat) {
    exists i :: 0 <= i < |history| && history[i] == Attempt(id)
                && forall k :: i < k < |history| ==> history[k] != Removal(id)
  }

  /** What holds whenever a callback has returned, normally or by a crash and a restart. */
  ghost predicate Remembered(s: State) {
    && s.elogList == Loaded(s.saved)
    && (forall id :: Outstanding(s.history, id) ==> id in s.elogList)
    && AtMostOnce(s.history)
  }

  lemma {:induction false} AttemptAppended(history: seq<Mark>, id: nat)
    requires AtMostOnce(history) && !Outstanding(history, id)
    ensures AtMostOnce(history + [Attempt(id)])
    ensures forall k :: Outstanding(history + [Attempt(id)], k) ==> k == id || Outstanding(history, k)
  {
    var h := history + [Attempt(id)];
    forall i, j | 0 <= i < j < |h| && h[i] == h[j] && h[i].Attempt?
      ensures exists k :: i < k < j && h[k] == Removal(h[i].id)
    {
      if j == |history| {
        assert history[i] == Attempt(id);
        var k :| i < k < |history| && history[k] == Removal(id);
        assert h[k] == Removal(id);
      } else {
        var k :| i < k < j && history[k] == Removal(history[i].id);
        assert h[k] == history[k];
      }
    }
    forall k | k != id && Outstanding(h, k)
      ensures Outstanding(history, k)
    {
      OutstandingBefore(history, Attempt(id), k);
    }
  }

  /** An outstanding attempt was outstanding before, unless the last mark is that attempt. */
  lemma {:induction false} OutstandingBefore(history: seq<Mark>, mark: Mark, id: nat)
    requires Outstanding(history + [mark], id) && mark != Attempt(id)
    ensures Outstanding(history, id) && mark != Removal(id)
  {
    var h := history + [mark];
    var i :| 0 <= i < |h| && h[i] == Attempt(id) && forall k :: i < k < |h| ==> h[k] != Removal(id);
    assert h[|history|] == mark;
    assert history[i] == Attempt(id);
    forall k | i < k < |history|
      ensures history[k] != Removal(id)
    {
      assert h[k] == history[k];
    }
  }

  lemma {:induction false} RemovalAppended(history: seq<Mark>, id: nat)
    requires AtMostOnce(history)
    ensures AtMostOnce(history + [Removal(id)])
    ensures forall k :: Outstanding(history + [Removal(id)], k) ==> k != id && Outstanding(history, k)
  {
    var h := history + [Removal(id)];
    forall i, j | 0 <= i < j < |h| && h[i] == h[j] && h[i].Attempt?
      ensures exists k :: i < k < j && h[k] == Removal(h[i].id)
    {
      var k :| i < k < j && history[k] == Removal(history[i].id);
      assert h[k] == history[k];
    }
    forall k | Outstanding(h, k)
      ensures k != id && Outstanding(history, k)
    {
      OutstandingBefore(history, Removal(id), k);
    }
  }

  lemma {:induction false} StepRemembers(s: State, e: Event)
    requires Remembered(s)
    ensures Remembered(Step(s, e))
  {
    match e {
      case Added(id, relevant, crash) =>
        if id !in s.elogList {
          AttemptAppended(s.history, id);
        }
      case Removed(id, crash) => RemovalAppended(s.history, id);
      case Restart =>
    }
    hide AtMostOnce, Outstanding;
  }

  /**
   In every run, with crashes anywhere, a dump is attempted at most once between two removals of an
   error log, and the list in memory equals the persisted one whenever a callback has returned.
   */
  lemma {:induction false} RunsAttemptOnce(s: State, events: seq<Event>)
    requires Remembered(s)
    ensures Remembered(Run(s, events))
    decreases |events|
  {
    if events == [] {
    } else {
      StepRemembers(s, events[0]);
      hide Remembered, Step;
      RunsAttemptOnce(Step(s, events[0]), events[1..]);
    }
  }

  /** A first relevant signal that is not interrupted does request a dump. */
  lemma {:induction false} SignalRequestsDump(s: State, id: nat)
    requires Remembered(s)
    ensures AfterAdded(s, id, true, Never).history ==
            (if id in Loaded(s.saved) then s.history else s.history + [Attempt(id)])
    ensures id in Loaded(AfterAdded(s, id, true, Never).saved)
  {
  }

  /** The crash leaves the persisted list as it was. */
  predicate TooEarly(crash: Crash) {
    crash == BeforeInsert || crash == BeforePersist
  }

  /**
   A signal lists the log exactly if it is relevant and no crash comes before the list is saved, and
   attempts a dump exactly if moreover the log was not listed and no crash comes before the attempt.
   */
  lemma {:induction false} SignalEffect(s: State, id: nat, relevant: bool, crash: Crash)
    requires Remembered(s)
    ensures var t := AfterAdded(s, id, relevant, crash);
            && t.history == (if relevant && id !in s.elogList && (crash == Never || crash == AfterCreate)
                             then s.history + [Attempt(id)] else s.history)
            && t.elogList == Loaded(t.saved)
            && forall k :: k in t.elogList <==> k in s.elogList || (k == id && relevant && !TooEarly(crash))
  {
  }

  /** A removal takes the log off the list, in memory and on disk, exactly if no crash comes before the list is saved. */
  lemma {:induction false} RemovalEffect(s: State, id: nat, crash: Crash)
    requires Remembered(s)
    ensures var t := AfterRemoved(s, id, crash);
            && t.history == s.history + [Removal(id)]
            && t.elogList == Loaded(t.saved)
            && forall k :: k in t.elogList <==> k in s.elogList && (k != id || TooEarly(crash))
  {
  }

  /** A log announced again after its removal is dumped again. */
  lemma {:induction false} RemovedIsDumpedAgain(s: State, id: nat)
    requires Remembered(s)
    ensures AfterAdded(AfterRemoved(s, id, Never), id, true, Never).history == s.history + [Removal(id), Attempt(id)]
  {
    RemovalEffect(s, id, Never);
    StepRemembers(s, Removed(id, Never));
    SignalEffect(AfterRemoved(s, id, Never), id, true, Never);
    assert s.history + [Removal(id)] + [Attempt(id)] == s.history + [Removal(id), Attempt(id)];
  }

  predicate Uninterrupted(e: Event) {
    match e
    case Added(_, _, crash) => crash == Never
    case Removed(_, crash) => crash == Never
    case Restart => true
  }

  /** The list holds exactly the logs with an attempt since their last removal. */
  ghost predicate Listed(s: State) {
    s.elogList == Loaded(s.saved) && forall id :: id in s.elogList <==> Outstanding(s.history, id)
  }

  lemma {:induction false} MarkAppended(history: seq<Mark>, mark: Mark, id: nat)
    ensures Outstanding(history + [mark], id) <==> mark == Attempt(id) || (Outstanding(history, id) && mark != Removal(id))
  {
    var h := history + [mark];
    assert h[|history|] == mark;
    if Outstanding(h, id) && mark != Attempt(id) {
      OutstandingBefore(history, mark, id);
    }
    if Outstanding(history, id) && mark != Removal(id) {
      var i :| 0 <= i < |history| && history[i] == Attempt(id) && forall k :: i < k < |history| ==> history[k] != Removal(id);
      assert h[i] == Attempt(id);
    }
  }

  lemma {:induction false} StepLists(s: State, e: Event)
    requires Listed(s) && Uninterrupted(e)
    ensures Listed(Step(s, e))
  {
    var t := Step(s, e);
    if t.history != s.history {
      var mark := if e.Added? then Attempt(e.id) else Removal(e.id);
      forall id
        ensures id in t.elogList <==> Outstanding(t.history, id)
      {
        MarkAppended(s.history, mark, id);
      }
    }
    hide Outstanding;
  }

  /**
   In every run without crashes in between the list holds exactly the logs with an attempt since their
   last removal, so a relevant signal is skipped only for these.
   */
  lemma {:induction false} RunsListOutstanding(s: State, events: seq<Event>)
    requires Listed(s) && forall i :: 0 <= i < |events| ==> Uninterrupted(events[i])
    ensures Listed(Run(s, events))
    decreases |events|
  {
    if events == [] {
    } else {
      StepLists(s, events[0]);
      hide Listed, Step, Uninterrupted;
      RunsListOutstanding(Step(s, events[0]), events[1..]);
    }
  }

  // ----- the watch ---------------------------------------------------------------------------

  class Watch {
    var elogList: set<nat>
    var saved: Option<set<nat>>
    var history: seq<Mark>

    constructor (saved: Option<set<nat>>, history: seq<Mark>)
      ensures View() == Restarted(State({}, saved, history))
    {
      this.saved, this.history := saved, history;
      elogList := if saved.Some? then saved.value else {};
    }

    function View(): State
      reads this
    {
      State(elogList, saved, history)
    }

    method Load()
      modifies this`elogList
      ensures elogList == Loaded(saved)
    {
      elogList := {};
      if saved.Some? {
        elogList := saved.value;
      }
    }

    method AddCallback(id: nat, relevant: bool, crash: Crash)
      modifies this
      ensures View() == AfterAdded(old(View()), id, relevant, crash)
    {
      if id in elogList || !relevant || crash == BeforeInsert {
        if crash != Never {
          Load();
        }
        return;
      }
      elogList := elogList + {id};
      if crash == BeforePersist {
        Load();
        return;
      }
      saved := Some(elogList);
      if crash == BeforeCreate {
        Load();
        return;
      }
      history := history + [Attempt(id)];
      if crash == AfterCreate {
        Load();
      }
    }

    method DelCallback(id: nat, crash: Crash)
      modifies this
      ensures View() == AfterRemoved(old(View()), id, crash)
    {
      history := history + [Removal(id)];
      if id !in elogList || crash == BeforeInsert {
        if crash != Never {
          Load();
        }
        return;
      }
      elogList := elogList - {id};
      if crash != BeforePersist {
        saved := Some(elogList);
      }
      if crash != Never {
        Load();
      }
    }
  }
}
