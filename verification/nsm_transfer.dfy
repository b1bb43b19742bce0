/**
 The NSM network dump tool: it fetches a chain of records from a device that may answer anything, and
 for switches erases the device's copy at the end.
 */
module NsmTransfer {
  import opened Wrappers
  import opened OrderedIds

  const MAX_IN_PROGRESS_COUNT := 1000
  const MAX_ERROR_COUNT := 3
  const BUFFER_SIZE := 4096

  datatype Status = Success | InProgress | Error

  /** A record behind a file descriptor; limits(k) caps the k-th read, and a failing read is negative. */
  datatype Stream = Stream(record: seq<Byte>, limits: nat -> int)

  /** The record that a save was for, and the bytes of it that were appended. */
  datatype Copy = Copy(record: seq<Byte>, data: seq<Byte>)

  /** What was sent to the device and what it answered. */
  datatype Event =
    | Request(handle: nat, ok: bool)
    | Poll(status: Status)
    | Save(copy: Option<Copy>)
    | Next(reply: Option<nat>)
    | Erase(ok: bool)
    | ErasePoll(status: Status)

  type Trace = seq<Event>

  /** A device answers as it likes, depending on everything that happened before. */
  datatype Device = Device(
    request: (Trace, nat) -> bool,
    status: Trace -> Status,
    stream: Trace -> Option<Stream>,
    next: Trace -> Option<nat>,
    erase: Trace -> bool,
    eraseStatus: Trace -> Status)

  /** The bytes the k-th read returns, from a file that has some left; not positive ends the copy. */
  function Chunk(stream: Stream, k: nat, left: nat): int {
    Min(stream.limits(k), Min(BUFFER_SIZE, left))
  }

  /** How far the copy gets from a position on, the next read being the k-th. */
  function CopyEnd(stream: Stream, pos: nat, k: nat): (end: nat)
    requires pos <= |stream.record|
    ensures pos <= end <= |stream.record|
    decreases |stream.record| - pos
  {
    var bytesRead := Chunk(stream, k, |stream.record| - pos);
    if bytesRead <= 0 then pos else CopyEnd(stream, pos + bytesRead, k + 1)
  }

  function Copied(stream: Stream): (copy: Copy)
    ensures copy.data <= copy.record
  {
    Copy(stream.record, stream.record[..CopyEnd(stream, 0, 0)])
  }

  /** The event is the device's answer after the trace. */
  ghost predicate IsAnswer(device: Device, trace: Trace, e: Event) {
    match e
    case Request(handle, ok) => ok == device.request(trace, handle)
    case Poll(status) => status == device.status(trace)
    case Save(None) => device.stream(trace).None?
    case Save(Some(copy)) => device.stream(trace).Some? && copy == Copied(device.stream(trace).value)
    case Next(reply) => reply == device.next(trace)
    case Erase(ok) => ok == device.erase(trace)
    case ErasePoll(status) => status == device.eraseStatus(trace)
  }

  /** Everything in the trace was answered by the device. */
  ghost predicate Answered(device: Device, trace: Trace) {
    forall i :: 0 <= i < |trace| ==> IsAnswer(device, trace[..i], trace[i])
  }

  lemma {:induction false} AnsweredOneMore(device: Device, trace: Trace, e: Event)
    requires Answered(device, trace) && IsAnswer(device, trace, e)
    ensures Answered(device, trace + [e])
  {
    var t := trace + [e];
    forall i | 0 <= i < |t|
      ensures IsAnswer(device, t[..i], t[i])
    {
      assert t[..i] == if i < |trace| then trace[..i] else trace;
    }
  }

  // ----- traces ------------------------------------------------------------------------------

  /** One record that was requested after some failures, polled until Success, saved, and followed. */
  datatype Segment = Segment(handle: nat, failures: nat, polls: seq<Status>, record: seq<Byte>, data: seq<Byte>,
                             next: Option<nat>)

  function Count(polls: seq<Status>, st: Status): nat {
    if polls == [] then 0 else (if polls[|polls| - 1] == st then 1 else 0) + Count(polls[..|polls| - 1], st)
  }

  function Failures(handle: nat, n: nat): Trace {
    seq(n, i => Request(handle, false))
  }

  function Polls(polls: seq<Status>): Trace {
    seq(|polls|, i requires 0 <= i < |polls| => Poll(polls[i]))
  }

  function Events(g: Segment): Trace {
    Failures(g.handle, g.failures) + [Request(g.handle, true)] + Polls(g.polls) + [Save(Some(Copy(g.record, g.data))), Next(g.next)]
  }

  function Flatten(segments: seq<Segment>): Trace {
    if segments == [] then []
    else Flatten(segments[..|segments| - 1]) + Events(segments[|segments| - 1])
  }

  function Data(segments: seq<Segment>): seq<Byte> {
    if segments == [] then []
    else Data(segments[..|segments| - 1]) + segments[|segments| - 1].data
  }

  /** A poll sequence that went on only while neither cap was reached and no Success was seen. */
  ghost predicate Polled(polls: seq<Status>) {
    && (forall i :: 0 <= i < |polls| - 1 ==> polls[i] != Success)
    && Count(polls, Error) <= MAX_ERROR_COUNT && Count(polls, InProgress) <= MAX_IN_PROGRESS_COUNT
    && (forall i :: 0 <= i < |polls| ==>
          Count(polls[..i], Error) < MAX_ERROR_COUNT && Count(polls[..i], InProgress) < MAX_IN_PROGRESS_COUNT)
  }

  /** The guard of the poll loop no longer holds. */
  predicate Ended(polls: seq<Status>) {
    Succeeded(polls) || Count(polls, Error) >= MAX_ERROR_COUNT || Count(polls, InProgress) >= MAX_IN_PROGRESS_COUNT
  }

  predicate Succeeded(polls: seq<Status>) {
    polls != [] && polls[|polls| - 1] == Success
  }

  ghost predicate Fetched(g: Segment) {
    g.failures < MAX_ERROR_COUNT && Polled(g.polls) && Succeeded(g.polls)
  }

  /** A next-handle read that failed looks like the end of the chain. */
  function NextHandle(g: Segment): nat {
    if g.next.Some? then g.next.value else 0
  }

  /** The i-th record was requested, polled to Success and saved, under the handle read after the one before. */
  ghost predicate Linked(segments: seq<Segment>, i: nat)
    requires i < |segments|
  {
    && Fetched(segments[i])
    && segments[i].handle == (if i == 0 then 0 else NextHandle(segments[i - 1]))
    && (i > 0 ==> segments[i].handle != 0)
  }

  /** The chain 0, next(0), ... of records that were requested, polled to Success and saved. */
  ghost predicate Chain(segments: seq<Segment>) {
    forall i :: 0 <= i < |segments| ==> Linked(segments, i)
  }

  function Following(segments: seq<Segment>): nat {
    if segments == [] then 0 else NextHandle(segments[|segments| - 1])
  }

  /** Why the record loop ended; Cut if the observation ended first. */
  datatype Exit = Complete | RequestFailed | TooManyErrors | TimedOut | SaveFailed | Cut

  /** What follows the last complete record when the loop ends early. */
  ghost predicate Tail(exit: Exit, handle: nat, tail: Trace) {
    match exit
    case Complete => tail == []
    case Cut => tail == []
    case RequestFailed => tail == Failures(handle, MAX_ERROR_COUNT)
    case _ => exists failures: nat, polls :: Stopped(exit, handle, tail, failures, polls)
  }

  ghost predicate Stopped(exit: Exit, handle: nat, tail: Trace, failures: nat, polls: seq<Status>) {
    && failures < MAX_ERROR_COUNT && Polled(polls)
    && tail == Failures(handle, failures) + [Request(handle, true)] + Polls(polls)
               + (if exit.SaveFailed? then [Save(None)] else [])
    && match exit
       case TooManyErrors => Count(polls, Error) == MAX_ERROR_COUNT
       case TimedOut => Count(polls, InProgress) == MAX_IN_PROGRESS_COUNT
       case _ => Succeeded(polls)
  }

  /** Failed erase commands and Error statuses together. */
  function EraseErrors(erases: Trace): nat {
    if erases == [] then 0
    else
      var last := erases[|erases| - 1];
      (if last == Erase(false) || last == ErasePoll(Error) then 1 else 0) + EraseErrors(erases[..|erases| - 1])
  }

  function EraseBusy(erases: Trace): nat {
    if erases == [] then 0
    else (if erases[|erases| - 1] == ErasePoll(InProgress) then 1 else 0) + EraseBusy(erases[..|erases| - 1])
  }

  /** A command was sent while neither cap was reached; a status was read after a command that was sent; Success comes last. */
  ghost predicate EraseAt(erases: Trace, i: nat)
    requires i < |erases|
  {
    match erases[i]
    case Erase(sent) =>
      && EraseErrors(erases[..i]) < MAX_ERROR_COUNT && EraseBusy(erases[..i]) < MAX_IN_PROGRESS_COUNT
      && (sent ==> i + 1 < |erases| && erases[i + 1].ErasePoll?)
    case ErasePoll(status) => i > 0 && erases[i - 1] == Erase(true) && (status == Success ==> i == |erases| - 1)
    case _ => false
  }

  /** Rounds of an erase command and, if it was sent, a status read. */
  ghost predicate Erasing(erases: Trace) {
    forall i :: 0 <= i < |erases| ==> EraseAt(erases, i)
  }

  /** They ended in Success, or in neither before a cap was reached. */
  ghost predicate Erased(erases: Trace, res: Status) {
    && erases != [] && Erasing(erases)
    && (res == Success <==> erases[|erases| - 1] == ErasePoll(Success))
    && (res != Success ==> EraseErrors(erases) == MAX_ERROR_COUNT || EraseBusy(erases) == MAX_IN_PROGRESS_COUNT)
  }

  // ----- what the traces mean ----------------------------------------------------------------

  lemma {:induction false} CountsAddUp(polls: seq<Status>)
    ensures Count(polls, Error) + Count(polls, InProgress) + Count(polls, Success) == |polls|
  {
    if polls == [] {
    } else {
      CountsAddUp(polls[..|polls| - 1]);
    }
  }

  lemma {:induction false} NoSuccess(polls: seq<Status>)
    requires forall i :: 0 <= i < |polls| ==> polls[i] != Success
    ensures Count(polls, Success) == 0
  {
    if polls == [] {
    } else {
      NoSuccess(polls[..|polls| - 1]);
    }
  }

  /**
   A poll loop makes at most 1002 reads and reaches at most one cap; if it ended, neither cap is
   reached exactly when the last status was Success.
   */
  lemma {:induction false} PollLoopIsBounded(polls: seq<Status>)
    requires Polled(polls)
    ensures |polls| <= MAX_ERROR_COUNT + MAX_IN_PROGRESS_COUNT - 1
    ensures !(Count(polls, Error) == MAX_ERROR_COUNT && Count(polls, InProgress) == MAX_IN_PROGRESS_COUNT)
    ensures Ended(polls) ==>
              (Succeeded(polls) <==>
               Count(polls, Error) != MAX_ERROR_COUNT && Count(polls, InProgress) != MAX_IN_PROGRESS_COUNT)
  {
    if polls != [] {
      var before := polls[..|polls| - 1];
      NoSuccess(before);
      CountsAddUp(before);
      assert Count(before, Error) < MAX_ERROR_COUNT;
    }
  }

  lemma {:induction false} EventsAreFew(g: Segment)
    requires Fetched(g)
    ensures |Events(g)| <= 1007
  {
    PollLoopIsBounded(g.polls);
  }

  /** The calls made for complete records are linear in their number. */
  lemma {:induction false} FlattenIsLinear(segments: seq<Segment>)
    requires forall i :: 0 <= i < |segments| ==> Fetched(segments[i])
    ensures |Flatten(segments)| <= 1007 * |segments|
  {
    if segments == [] {
    } else {
      EventsAreFew(segments[|segments| - 1]);
      FlattenIsLinear(segments[..|segments| - 1]);
    }
  }

  lemma {:induction false} TailIsShort(exit: Exit, handle: nat, tail: Trace)
    requires Tail(exit, handle, tail)
    ensures |tail| <= 1006
    ensures forall i :: 0 <= i < |tail| ==> !tail[i].Erase?
  {
    if !exit.Complete? && !exit.Cut? && !exit.RequestFailed? {
      var failures: nat, polls :| Stopped(exit, handle, tail, failures, polls);
      PollLoopIsBounded(polls);
    }
  }

  lemma {:induction false} FlattenNeverErases(segments: seq<Segment>)
    ensures forall i :: 0 <= i < |Flatten(segments)| ==> !Flatten(segments)[i].Erase?
  {
    if segments == [] {
    } else {
      FlattenNeverErases(segments[..|segments| - 1]);
    }
  }

  /** Everything a switch dump may have done, by its result. */
  ghost predicate SwitchDump(trace: Trace, res: Status, exit: Exit, segments: seq<Segment>, tail: Trace, erases: Trace) {
    && trace == Flatten(segments) + tail + erases
    && Chain(segments) && Tail(exit, Following(segments), tail)
    && (exit.Complete? ==> segments != [] && Following(segments) == 0)
    && (!exit.Complete? ==> erases == [] && (res.Success? ==> exit.Cut?))
    && (exit.Complete? ==> Erased(erases, res) && |erases| <= 2004)
  }

  /**
   An erase command is sent only after a whole chain of records was requested, polled to Success and
   saved, the last of which read 0 as the next handle; and Success needs an erase that reported Success.
   */
  lemma {:induction false} EraseComesLast(trace: Trace, res: Status, exit: Exit, segments: seq<Segment>, tail: Trace, erases: Trace, i: nat)
    requires SwitchDump(trace, res, exit, segments, tail, erases)
    requires i < |trace| && trace[i].Erase?
    ensures Chain(segments) && segments != [] && Following(segments) == 0
    ensures Flatten(segments) <= trace[..i]
    ensures forall j :: i <= j < |trace| ==> trace[j].Erase? || trace[j].ErasePoll?
    ensures res.Success? ==> trace[|trace| - 1] == ErasePoll(Success)
    ensures !res.Success? ==> EraseErrors(erases) == MAX_ERROR_COUNT || EraseBusy(erases) == MAX_IN_PROGRESS_COUNT
  {
    FlattenNeverErases(segments);
    TailIsShort(exit, Following(segments), tail);
    var done := |Flatten(segments)|;
    assert i >= done + |tail|;
    assert tail == [];
    assert trace == Flatten(segments) + erases;
    forall j | i <= j < |trace|
      ensures trace[j].Erase? || trace[j].ErasePoll?
    {
      assert trace[j] == erases[j - done] && EraseAt(erases, j - done);
    }
  }

  lemma {:induction false} SwitchDumpIsLinear(trace: Trace, res: Status, exit: Exit, segments: seq<Segment>, tail: Trace, erases: Trace)
    requires SwitchDump(trace, res, exit, segments, tail, erases)
    ensures |trace| <= 1007 * (|segments| + 1) + 2004
  {
    assert forall i :: 0 <= i < |segments| && Linked(segments, i) ==> Fetched(segments[i]);
    FlattenIsLinear(segments);
    TailIsShort(exit, Following(segments), tail);
  }

  /** Another round may follow: the last status was not Success, and no cap is reached. */
  ghost predicate Unfinished(erases: Trace) {
    && Erasing(erases) && (erases != [] ==> erases[|erases| - 1] != ErasePoll(Success))
    && EraseErrors(erases) < MAX_ERROR_COUNT && EraseBusy(erases) < MAX_IN_PROGRESS_COUNT
  }

  /** What one round adds. */
  predicate IsRound(added: Trace, res: Status) {
    (added == [Erase(false)] && res == Error) || added == [Erase(true), ErasePoll(res)]
  }

  lemma {:induction false} RoundCounts(erases: Trace, added: Trace, res: Status)
    requires IsRound(added, res)
    ensures EraseErrors(erases + added) == EraseErrors(erases) + (if res == Error then 1 else 0)
    ensures EraseBusy(erases + added) == EraseBusy(erases) + (if res == InProgress then 1 else 0)
  {
    var first := erases + added[..1];
    assert first[..|erases|] == erases;
    if |added| == 1 {
      assert erases + added == first;
    } else {
      assert (erases + added)[..|first|] == first;
    }
  }

  lemma {:induction false} RoundGoesOn(erases: Trace, added: Trace, res: Status)
    requires Unfinished(erases) && IsRound(added, res)
    ensures Erasing(erases + added)
  {
    var more := erases + added;
    assert more[..|erases|] == erases;
    forall i | 0 <= i < |more|
      ensures EraseAt(more, i)
    {
      if i < |erases| {
        assert EraseAt(erases, i) && more[..i] == erases[..i] && more[i] == erases[i];
        assert i > 0 ==> more[i - 1] == erases[i - 1];
        assert i + 1 < |erases| ==> more[i + 1] == erases[i + 1];
      } else {
        assert more[i] == added[i - |erases|];
      }
    }
  }

  /** An erase that did not succeed saw 3 errors or 1000 busy statuses, never both. */
  lemma {:induction false} ErasesAreBounded(erases: Trace, res: Status)
    requires Erased(erases, res)
    ensures EraseErrors(erases) <= MAX_ERROR_COUNT && EraseBusy(erases) <= MAX_IN_PROGRESS_COUNT
    ensures res == Success ==> EraseErrors(erases) < MAX_ERROR_COUNT && EraseBusy(erases) < MAX_IN_PROGRESS_COUNT
    ensures res != Success ==> (EraseErrors(erases) == MAX_ERROR_COUNT) != (EraseBusy(erases) == MAX_IN_PROGRESS_COUNT)
  {
    var n := |erases| - 1;
    assert EraseAt(erases, n) && erases[..n][..n] == erases[..n];
    if erases[n].ErasePoll? {
      assert erases[n - 1] == Erase(true) && EraseAt(erases, n - 1);
      assert erases[..n][n - 1] == Erase(true) && erases[..n][..n - 1] == erases[..n - 1];
    }
  }

  lemma {:induction false} AppendSegment(segments: seq<Segment>, g: Segment)
    ensures Flatten(segments + [g]) == Flatten(segments) + Events(g)
    ensures Data(segments + [g]) == Data(segments) + g.data
    ensures Following(segments + [g]) == NextHandle(g)
  {
    assert (segments + [g])[..|segments|] == segments;
  }

  lemma {:induction false} ChainGrows(segments: seq<Segment>, g: Segment)
    requires Chain(segments) && Fetched(g) && g.handle == Following(segments) && (segments != [] ==> g.handle != 0)
    ensures Chain(segments + [g])
  {
    forall i | 0 <= i < |segments| + 1
      ensures Linked(segments + [g], i)
    {
      if i < |segments| {
        assert Linked(segments, i);
      }
    }
  }

  // ----- the device's chain ------------------------------------------------------------------

  /** The records a device holds: the handle that follows a handle, and the bytes behind it. */
  datatype Records = Records(next: nat -> nat, content: nat -> seq<Byte>)

  /** The handle the device was last asked for with success. */
  function LastHandle(trace: Trace): Option<nat> {
    if trace == [] then None
    else
      match trace[|trace| - 1]
      case Request(handle, true) => Some(handle)
      case _ => LastHandle(trace[..|trace| - 1])
  }

  /** What the device answers about records, when it answers, is about the record last asked for. */
  ghost predicate Follows(device: Device, c: Records) {
    forall t: Trace :: LastHandle(t).Some? ==>
      && (device.next(t).Some? ==> device.next(t).value == c.next(LastHandle(t).value))
      && (device.stream(t).Some? ==> device.stream(t).value.record == c.content(LastHandle(t).value))
  }

  function Iterate(c: Records, n: nat): nat {
    if n == 0 then 0 else c.next(Iterate(c, n - 1))
  }

  /** The chain of the device has n records. */
  ghost predicate IsLength(c: Records, n: nat) {
    n > 0 && Iterate(c, n) == 0 && forall i :: 0 < i < n ==> Iterate(c, i) != 0
  }

  /** The bytes of the first n records of the device. */
  function Contents(c: Records, n: nat): seq<Byte> {
    if n == 0 then [] else Contents(c, n - 1) + c.content(Iterate(c, n - 1))
  }

  /** Every segment is about the device's record of its handle. */
  ghost predicate Observes(segments: seq<Segment>, c: Records) {
    forall i :: 0 <= i < |segments| ==>
      && (segments[i].next.Some? ==> segments[i].next.value == c.next(segments[i].handle))
      && segments[i].record == c.content(segments[i].handle) && segments[i].data <= segments[i].record
  }

  lemma {:induction false} PollsKeepHandle(trace: Trace, polls: seq<Status>)
    ensures LastHandle(trace + Polls(polls)) == LastHandle(trace)
  {
    if polls == [] {
      assert trace + Polls(polls) == trace;
    } else {
      var before := polls[..|polls| - 1];
      PollsKeepHandle(trace, before);
      assert (trace + Polls(polls))[..|trace| + |before|] == trace + Polls(before);
    }
  }

  lemma {:induction false} FlattenContains(segments: seq<Segment>, i: nat)
    requires i < |segments|
    ensures Flatten(segments[..i]) + Events(segments[i]) <= Flatten(segments)
    decreases |segments|
  {
    var before := segments[..|segments| - 1];
    if i >= |before| {
    } else {
      FlattenContains(before, i);
      assert before[..i] == segments[..i];
    }
  }

  /** The point of a run where the i-th record is saved. */
  function SaveAt(t0: Trace, segments: seq<Segment>, i: nat): Trace
    requires i < |segments|
  {
    var g := segments[i];
    t0 + Flatten(segments[..i]) + Failures(g.handle, g.failures) + [Request(g.handle, true)] + Polls(g.polls)
  }

  /** The answers in a segment are those of the device at the point of the run where they were given. */
  lemma {:induction false} SegmentAnswered(device: Device, t0: Trace, trace: Trace, segments: seq<Segment>, i: nat)
    requires Answered(device, trace) && t0 + Flatten(segments) <= trace && i < |segments|
    ensures var g, at := segments[i], SaveAt(t0, segments, i);
            var save := Save(Some(Copy(g.record, g.data)));
            && IsAnswer(device, at, save) && IsAnswer(device, at + [save], Next(g.next))
            && LastHandle(at) == Some(g.handle) && LastHandle(at + [save]) == Some(g.handle)
  {
    var g := segments[i];
    FlattenContains(segments, i);
    var front := t0 + Flatten(segments[..i]) + Failures(g.handle, g.failures) + [Request(g.handle, true)];
    var at := front + Polls(g.polls);
    assert at == SaveAt(t0, segments, i);
    var save := Save(Some(Copy(g.record, g.data)));
    assert at + [save, Next(g.next)] == t0 + (Flatten(segments[..i]) + Events(g));
    var k := |at|;
    assert at + [save, Next(g.next)] <= trace;
    assert trace[..k] == at && trace[k] == save && trace[..k + 1] == at + [save] && trace[k + 1] == Next(g.next);
    PollsKeepHandle(front, g.polls);
    assert (at + [save])[..k] == at;
  }

  lemma {:induction false} ObservesDevice(device: Device, c: Records, t0: Trace, trace: Trace, segments: seq<Segment>)
    requires Answered(device, trace) && Follows(device, c) && t0 + Flatten(segments) <= trace
    ensures Observes(segments, c)
  {
    forall i | 0 <= i < |segments|
      ensures var g := segments[i];
              && (g.next.Some? ==> g.next.value == c.next(g.handle))
              && g.record == c.content(g.handle) && g.data <= g.record
    {
      SegmentAnswered(device, t0, trace, segments, i);
    }
  }

  lemma {:induction false} HandleIsIterate(segments: seq<Segment>, c: Records, i: nat)
    requires Chain(segments) && Observes(segments, c) && i < |segments|
    ensures segments[i].handle == Iterate(c, i)
    decreases i
  {
    assert Linked(segments, i);
    if i == 0 {
    } else {
      HandleIsIterate(segments, c, i - 1);
      assert segments[i].handle == NextHandle(segments[i - 1]) != 0;
    }
  }

  /** No more records are fetched than the device's chain has, and all of them only once it has ended. */
  lemma {:induction false} ChainIsNoLonger(segments: seq<Segment>, c: Records, n: nat)
    requires Chain(segments) && Observes(segments, c) && IsLength(c, n)
    ensures |segments| <= n
    ensures Following(segments) != 0 ==> |segments| < n
    ensures segments != [] ==> (|segments| == n <==> c.next(segments[|segments| - 1].handle) == 0)
  {
    if segments != [] {
      var m := |segments|;
      HandleIsIterate(segments, c, m - 1);
      assert c.next(segments[m - 1].handle) == Iterate(c, m);
      forall i | 0 < i < m
        ensures Iterate(c, i) != 0
      {
        HandleIsIterate(segments, c, i);
        assert Linked(segments, i);
      }
    }
  }

  /**
   In a chain that ended with handle 0 the handles are those of the device's chain from its start, and
   only the last next-handle read can have failed.
   */
  lemma {:induction false} HandlesOfChain(segments: seq<Segment>, c: Records)
    requires Chain(segments) && segments != [] && Following(segments) == 0 && Observes(segments, c)
    ensures forall i :: 0 <= i < |segments| ==> segments[i].handle == Iterate(c, i)
    ensures forall i :: 0 <= i < |segments| - 1 ==> segments[i].next.Some?
    ensures c.next(segments[|segments| - 1].handle) != 0 ==> segments[|segments| - 1].next.None?
  {
    forall i | 0 <= i < |segments|
      ensures segments[i].handle == Iterate(c, i)
    {
      HandleIsIterate(segments, c, i);
    }
    forall i | 0 <= i < |segments| - 1
      ensures segments[i].next.Some?
    {
      assert Linked(segments, i + 1);
    }
  }

  /** No copy was cut short by a failing read. */
  ghost predicate Whole(segments: seq<Segment>) {
    forall i :: 0 <= i < |segments| ==> segments[i].data == segments[i].record
  }

  /** The i-th segment is about the i-th record of the device's chain. */
  ghost predicate InOrder(segments: seq<Segment>, c: Records) {
    forall i :: 0 <= i < |segments| ==>
      segments[i].record == c.content(Iterate(c, i)) && segments[i].data <= segments[i].record
  }

  lemma {:induction false} SplitLast(segments: seq<Segment>, c: Records)
    requires segments != [] && InOrder(segments, c)
    ensures var before, g := segments[..|segments| - 1], segments[|segments| - 1];
            && InOrder(before, c) && g.data <= g.record == c.content(Iterate(c, |before|))
            && (Whole(segments) <==> Whole(before) && g.data == g.record)
  {
    hide Iterate;
    assert segments == segments[..|segments| - 1] + [segments[|segments| - 1]];
  }

  lemma {:induction false} PrefixesAppended(a: seq<Byte>, b: seq<Byte>, x: seq<Byte>, y: seq<Byte>)
    requires |a| <= |b| && x <= y
    ensures |a + x| <= |b + y|
    ensures |a + x| == |b + y| ==> |a| == |b| && x == y
  {
  }

  /** The bytes saved are at most those of the records, and all of them exactly if no copy was cut short. */
  lemma {:induction false} DataWithinContents(segments: seq<Segment>, c: Records)
    requires InOrder(segments, c)
    ensures |Data(segments)| <= |Contents(c, |segments|)|
    ensures Whole(segments) ==> Data(segments) == Contents(c, |segments|)
    ensures |Data(segments)| == |Contents(c, |segments|)| ==> Whole(segments)
  {
    if segments == [] {
    } else {
      var before, g := segments[..|segments| - 1], segments[|segments| - 1];
      SplitLast(segments, c);
      hide InOrder, Whole, Iterate;
      DataWithinContents(before, c);
      PrefixesAppended(Data(before), Contents(c, |before|), g.data, g.record);
    }
  }

  /** No record from the m-th up to the n-th holds a byte. */
  ghost predicate Nothing(c: Records, m: nat, n: nat) {
    forall i :: m <= i < n ==> c.content(Iterate(c, i)) == []
  }

  lemma {:induction false} ContentsGrow(c: Records, m: nat, n: nat)
    requires m <= n
    ensures Contents(c, m) <= Contents(c, n)
    ensures |Contents(c, m)| == |Contents(c, n)| <==> Nothing(c, m, n)
    decreases n
  {
    if m >= n {
    } else {
      ContentsGrow(c, m, n - 1);
      assert Contents(c, n) == Contents(c, n - 1) + c.content(Iterate(c, n - 1));
    }
  }

  /**
   The bytes saved before an erase are all the device's bytes if and only if no copy was cut short by a
   failing read and the records after the last one saved hold nothing.
   */
  lemma {:induction false} WholeChainSaved(segments: seq<Segment>, c: Records, n: nat)
    requires Chain(segments) && segments != [] && Following(segments) == 0 && Observes(segments, c) && IsLength(c, n)
    ensures |segments| <= n
    ensures Data(segments) == Contents(c, n) <==> Whole(segments) && Nothing(c, |segments|, n)
  {
    HandlesOfChain(segments, c);
    ChainIsNoLonger(segments, c, n);
    assert InOrder(segments, c);
    DataWithinContents(segments, c);
    ContentsGrow(c, |segments|, n);
    var saved, all := Contents(c, |segments|), Contents(c, n);
    if |saved| == |all| {
      assert saved == all;
    }
  }

  /** Where every record holds something: exactly if no copy was cut short and the chain really ended. */
  lemma {:induction false} WholeChainSavedUnlessEmpty(segments: seq<Segment>, c: Records, n: nat)
    requires Chain(segments) && segments != [] && Following(segments) == 0 && Observes(segments, c) && IsLength(c, n)
    requires forall i :: 0 <= i < n ==> c.content(Iterate(c, i)) != []
    ensures Data(segments) == Contents(c, n) <==>
            Whole(segments) && c.next(segments[|segments| - 1].handle) == 0
  {
    WholeChainSaved(segments, c, n);
    ChainIsNoLonger(segments, c, n);
    if |segments| < n {
      assert c.content(Iterate(c, |segments|)) != [];
    }
  }

  // ----- the two ways to erase too early -----------------------------------------------------

  /** A device whose requests succeed, with the same record behind every handle. */
  function Obliging(stream: Stream, next: Option<nat>): Device {
    Device((_, _) => true, _ => Success, _ => Some(stream), _ => next, _ => true, _ => Success)
  }

  function OneRecord(copy: Copy, next: Option<nat>): Segment {
    Segment(0, 0, [Success], copy.record, copy.data, next)
  }

  function OneRecordTrace(copy: Copy, next: Option<nat>): Trace {
    [Request(0, true), Poll(Success), Save(Some(copy)), Next(next), Erase(true), ErasePoll(Success)]
  }

  /** Such a device, saying after one record that there is no more, is erased after that record. */
  lemma {:induction false} ObligingIsErased(stream: Stream, next: Option<nat>)
    requires next.None? || next.value == 0
    ensures var copy := Copied(stream);
            var trace, g := OneRecordTrace(copy, next), OneRecord(copy, next);
            && Answered(Obliging(stream, next), trace)
            && SwitchDump(trace, Success, Complete, [g], [], [Erase(true), ErasePoll(Success)])
            && Data([g]) == copy.data
  {
    var copy := Copied(stream);
    var g := OneRecord(copy, next);
    hide CopyEnd;
    assert Fetched(g) by {
      assert [Success][..0] == [];
    }
    assert Failures(0, 0) == [] && Polls([Success]) == [Poll(Success)];
    assert [g][..0] == [];
    assert Flatten([g]) == Flatten([]) + Events(g);
    assert Data([g]) == Data([]) + g.data;
  }

  /** A failing read: no next-handle read failed, the erase succeeded, and nothing was saved. */
  lemma {:induction false} FailingReadErases()
    ensures var stream, c := Stream([1], _ => -1), Records(_ => 0, _ => [1]);
            var device, copy := Obliging(stream, Some(0)), Copied(stream);
            var segments := [OneRecord(copy, Some(0))];
            && Follows(device, c) && IsLength(c, 1) && Answered(device, OneRecordTrace(copy, Some(0)))
            && SwitchDump(OneRecordTrace(copy, Some(0)), Success, Complete, segments, [], [Erase(true), ErasePoll(Success)])
            && Data(segments) == [] && Contents(c, 1) == [1]
  {
    var stream, c := Stream([1], _ => -1), Records(_ => 0, _ => [1]);
    ObligingIsErased(stream, Some(0));
    assert CopyEnd(stream, 0, 0) == 0;
    assert Iterate(c, 1) == 0;
    assert Contents(c, 1) == Contents(c, 0) + [1];
  }

  /** A failing next-handle read: every copy is whole, the erase succeeded, and half was saved. */
  lemma {:induction false} FailingNextErases()
    ensures var stream, c := Stream([1], _ => 1), Records(h => if h == 0 then 7 else 0, _ => [1]);
            var device, copy := Obliging(stream, None), Copied(stream);
            var segments := [OneRecord(copy, None)];
            && Follows(device, c) && IsLength(c, 2) && Answered(device, OneRecordTrace(copy, None))
            && SwitchDump(OneRecordTrace(copy, None), Success, Complete, segments, [], [Erase(true), ErasePoll(Success)])
            && Whole(segments) && Data(segments) == [1] && Contents(c, 2) == [1, 1]
  {
    var stream, c := Stream([1], _ => 1), Records(h => if h == 0 then 7 else 0, _ => [1]);
    ObligingIsErased(stream, None);
    assert CopyEnd(stream, 0, 0) == CopyEnd(stream, 1, 1) == 1;
    assert Iterate(c, 1) == 7 && Iterate(c, 2) == 0;
    assert Contents(c, 1) == Contents(c, 0) + [1] && Contents(c, 2) == Contents(c, 1) + [1];
  }

  // ----- the tool ----------------------------------------------------------------------------

  // ----- which copies are whole --------------------------------------------------------------

  /** The n reads from the k-th on all return something, if there is anything left. */
  ghost predicate Healthy(stream: Stream, k: nat, n: nat) {
    forall j :: k <= j < k + n ==> stream.limits(j) > 0
  }

  /** The bytes these reads can take. */
  function Capacity(stream: Stream, k: nat, n: nat): int
    decreases n
  {
    if n == 0 then 0 else Min(stream.limits(k), BUFFER_SIZE) + Capacity(stream, k + 1, n - 1)
  }

  /** Some number of reads before the first failing one can take the whole record. */
  ghost predicate TakesAll(stream: Stream) {
    exists n: nat :: Healthy(stream, 0, n) && Capacity(stream, 0, n) >= |stream.record|
  }

  /** Reads that can take what is left copy all of it. */
  lemma {:induction false} HealthyCopiesAll(stream: Stream, pos: nat, k: nat, n: nat)
    requires pos <= |stream.record| && Healthy(stream, k, n) && pos + Capacity(stream, k, n) >= |stream.record|
    ensures CopyEnd(stream, pos, k) == |stream.record|
    decreases n
  {
    if pos == |stream.record| {
    } else {
      assert stream.limits(k) > 0;
      var bytesRead := Chunk(stream, k, |stream.record| - pos);
      if pos + bytesRead < |stream.record| {
        HealthyCopiesAll(stream, pos + bytesRead, k + 1, n - 1);
      }
    }
  }

  /** The reads of a whole copy can take it. */
  lemma {:induction false} WholeCopyIsHealthy(stream: Stream, pos: nat, k: nat) returns (n: nat)
    requires pos <= |stream.record| && CopyEnd(stream, pos, k) == |stream.record|
    ensures Healthy(stream, k, n) && pos + Capacity(stream, k, n) >= |stream.record|
    decreases |stream.record| - pos
  {
    if pos == |stream.record| {
      n := 0;
    } else {
      var m := WholeCopyIsHealthy(stream, pos + Chunk(stream, k, |stream.record| - pos), k + 1);
      n := m + 1;
      assert Healthy(stream, k, n);
    }
  }

  /** A copy is whole if and only if the reads before the first failing one can take the record. */
  lemma {:induction false} CopyIsWhole(stream: Stream)
    ensures Copied(stream).data == stream.record <==> TakesAll(stream)
  {
    if TakesAll(stream) {
      var n: nat :| Healthy(stream, 0, n) && Capacity(stream, 0, n) >= |stream.record|;
      HealthyCopiesAll(stream, 0, 0, n);
    } else if Copied(stream).data == stream.record {
      var n := WholeCopyIsHealthy(stream, 0, 0);
    }
  }

  /** Every stream the run saved from could be taken whole. */
  ghost predicate AllTaken(device: Device, t0: Trace, segments: seq<Segment>) {
    forall i :: 0 <= i < |segments| ==>
      var reply := device.stream(SaveAt(t0, segments, i));
      reply.Some? && TakesAll(reply.value)
  }

  /** No copy of a run was cut short if and only if the device let every stream be taken whole. */
  lemma {:induction false} WholeMeansTaken(device: Device, t0: Trace, trace: Trace, segments: seq<Segment>)
    requires Answered(device, trace) && t0 + Flatten(segments) <= trace
    ensures Whole(segments) <==> AllTaken(device, t0, segments)
  {
    forall i | 0 <= i < |segments|
      ensures var reply := device.stream(SaveAt(t0, segments, i));
              reply.Some? && (segments[i].data == segments[i].record <==> TakesAll(reply.value))
    {
      SegmentAnswered(device, t0, trace, segments, i);
      CopyIsWhole(device.stream(SaveAt(t0, segments, i)).value);
    }
    hide TakesAll, SaveAt;
  }

  /** A 32-bit counter wraps around. */
  function Wrap(n: nat): Word { n % U32 }

  lemma {:induction false} WrapAdds(a: nat, b: nat)
    ensures Wrap(Wrap(a) + b) == Wrap(a + b)
  {
  }

  /** What the tool has done so far: the trace, the bytes appended, and their count. */
  datatype Progress = Progress(trace: Trace, output: seq<Byte>, size: Word)

  /** From p0 to p exactly these records were fetched, and their bytes appended in order. */
  ghost predicate Collected(p0: Progress, p: Progress, segments: seq<Segment>) {
    && p.trace == p0.trace + Flatten(segments) && Chain(segments)
    && p.output == p0.output + Data(segments) && p.size == Wrap(|Data(segments)|)
  }

  /** One more record, Complete with its segment, or the reason for the break. */
  ghost predicate Round(p0: Progress, p: Progress, handle: nat, exit: Exit, next: nat, g: Segment, tail: Trace) {
    if exit.Complete? then
      && p == Progress(p0.trace + Events(g), p0.output + g.data, Wrap(p0.size + |g.data|)) && tail == []
      && Fetched(g) && g.handle == handle && next == NextHandle(g)
    else
      !exit.Cut? && p == p0.(trace := p0.trace + tail) && Tail(exit, handle, tail)
  }

  lemma {:induction false} NothingCollected(p: Progress)
    requires p.size == 0
    ensures Collected(p, p, []) && Following([]) == 0
  {
  }

  lemma {:induction false} CollectsOne(p0: Progress, p: Progress, p': Progress, segments: seq<Segment>,
                    next: nat, g: Segment, tail: Trace)
    requires Collected(p0, p, segments) && (segments != [] ==> Following(segments) != 0)
    requires Round(p, p', Following(segments), Complete, next, g, tail)
    ensures Collected(p0, p', segments + [g]) && Following(segments + [g]) == next && tail == []
  {
    hide Chain, Events, Fetched, Wrap, Flatten, Data;
    AppendSegment(segments, g);
    ChainGrows(segments, g);
    WrapAdds(|Data(segments)|, |g.data|);
  }

  /** The record loop from p0 to p, ended by exit. */
  ghost predicate Transferred(p0: Progress, p: Progress, exit: Exit, segments: seq<Segment>, tail: Trace) {
    && Collected(p0, p.(trace := p0.trace + Flatten(segments)), segments)
    && p.trace == p0.trace + Flatten(segments) + tail
    && Tail(exit, Following(segments), tail)
  }

  lemma {:induction false} EndsNormally(p0: Progress, p: Progress, exit: Exit, segments: seq<Segment>)
    requires Collected(p0, p, segments) && (exit.Complete? || exit.Cut?)
    ensures Transferred(p0, p, exit, segments, [])
  {
  }

  lemma {:induction false} EndsEarly(p0: Progress, p: Progress, p': Progress, exit: Exit, segments: seq<Segment>,
                  next: nat, g: Segment, tail: Trace)
    requires Collected(p0, p, segments) && !exit.Complete?
    requires Round(p, p', Following(segments), exit, next, g, tail)
    ensures Transferred(p0, p', exit, segments, tail) && !exit.Cut?
  {
    hide Tail, Chain, Flatten, Data;
  }

  class Tool {
    const device: Device
    var trace: Trace
    var output: seq<Byte>
    var outputFileSize: Word

    constructor (device: Device)
      ensures this.device == device && trace == [] && output == [] && outputFileSize == 0
    {
      this.device := device;
      trace, output, outputFileSize := [], [], 0;
    }

    /** Everything in the trace was answered by this device. */
    ghost predicate Valid()
      reads this
    {
      Answered(device, trace)
    }

    method Note(e: Event)
      requires Valid() && IsAnswer(device, trace, e)
      modifies this`trace
      ensures Valid() && trace == old(trace) + [e]
    {
      AnsweredOneMore(device, trace, e);
      trace := trace + [e];
    }

    /** Fails only if the descriptor cannot be fetched; a failing read ends the copy like the end of file. */
    method SaveRecord() returns (ok: bool, ghost copy: Copy)
      requires Valid()
      modifies this
      ensures Valid() && trace == old(trace) + [Save(if ok then Some(copy) else None)]
      ensures ok <==> device.stream(old(trace)).Some?
      ensures ok ==> copy == Copied(device.stream(old(trace)).value)
      ensures !ok ==> copy.data == []
      ensures output == old(output) + copy.data && outputFileSize == Wrap(old(outputFileSize) + |copy.data|)
    {
      var reply := device.stream(trace);
      copy := Copy([], []);
      if reply.None? {
        Note(Save(None));
        return false, copy;
      }
      hide Answered, Wrap;
      var stream := reply.value;
      var pos, k := 0, 0;
      var bytesRead := Chunk(stream, k, |stream.record| - pos);
      while bytesRead > 0
        invariant 0 <= pos <= |stream.record| && 0 <= k
        invariant bytesRead == Chunk(stream, k, |stream.record| - pos)
        invariant CopyEnd(stream, pos, k) == CopyEnd(stream, 0, 0)
        invariant output == old(output) + stream.record[..pos] && trace == old(trace)
        invariant outputFileSize == Wrap(old(outputFileSize) + pos)
        decreases |stream.record| - pos
      {
        WrapAdds(old(outputFileSize) + pos, bytesRead);
        outputFileSize := Wrap(outputFileSize + bytesRead);
        output := output + stream.record[pos..pos + bytesRead];
        assert stream.record[..pos] + stream.record[pos..pos + bytesRead] == stream.record[..pos + bytesRead];
        pos, k := pos + bytesRead, k + 1;
        bytesRead := Chunk(stream, k, |stream.record| - pos);
      }
      var copied := Copy(stream.record, stream.record[..pos]);
      copy := copied;
      Note(Save(Some(copied)));
      ok := true;
    }

    /** The request loop. */
    method RequestRecord(handle: nat) returns (ok: bool, ghost failures: nat)
      requires Valid()
      modifies this`trace
      ensures Valid()
      ensures trace == old(trace) + Failures(handle, failures) + (if ok then [Request(handle, true)] else [])
      ensures if ok then failures < MAX_ERROR_COUNT else failures == MAX_ERROR_COUNT
    {
      var errorCounter := 0;
      failures := 0;
      while errorCounter < MAX_ERROR_COUNT
        invariant errorCounter == failures <= MAX_ERROR_COUNT
        invariant Valid() && trace == old(trace) + Failures(handle, failures)
        decreases MAX_ERROR_COUNT - errorCounter
      {
        ok := device.request(trace, handle);
        Note(Request(handle, ok));
        if ok {
          return;
        }
        assert Failures(handle, failures + 1) == Failures(handle, failures) + [Request(handle, false)];
        errorCounter, failures := errorCounter + 1, failures + 1;
      }
      ok := false;
    }

    /** The status loop and the equality tests after it. */
    method PollStatus() returns (errorCounter: nat, busyCounter: nat, ghost polls: seq<Status>)
      requires Valid()
      modifies this`trace
      ensures Valid() && trace == old(trace) + Polls(polls) && Polled(polls)
      ensures errorCounter == Count(polls, Error) && busyCounter == Count(polls, InProgress)
      ensures errorCounter != MAX_ERROR_COUNT && busyCounter != MAX_IN_PROGRESS_COUNT <==> Succeeded(polls)
    {
      var res := InProgress;
      errorCounter, busyCounter, polls := 0, 0, [];
      while errorCounter < MAX_ERROR_COUNT && busyCounter < MAX_IN_PROGRESS_COUNT && res != Success
        invariant Valid() && trace == old(trace) + Polls(polls) && Polled(polls)
        invariant errorCounter == Count(polls, Error) && busyCounter == Count(polls, InProgress)
        invariant res == Success <==> Succeeded(polls)
        invariant res != Success ==> forall i :: 0 <= i < |polls| ==> polls[i] != Success
        decreases MAX_ERROR_COUNT + MAX_IN_PROGRESS_COUNT - errorCounter - busyCounter, res != Success
      {
        res := device.status(trace);
        ghost var before := polls;
        polls := polls + [res];
        assert polls[..|polls| - 1] == before;
        assert forall i :: 0 <= i < |before| ==> polls[..i] == before[..i];
        assert Polls(polls) == Polls(before) + [Poll(res)];
        Note(Poll(res));
        errorCounter := errorCounter + if res == Error then 1 else 0;
        busyCounter := busyCounter + if res == InProgress then 1 else 0;
      }
      if res == Success {
        PollLoopIsBounded(polls);
      }
    }

    ghost function View(): Progress
      reads this
    {
      Progress(trace, output, outputFileSize)
    }

    /** One round of the record loop. */
    method FetchRecord(handle: nat) returns (exit: Exit, next: nat, ghost g: Segment, ghost tail: Trace)
      requires Valid()
      modifies this
      ensures Valid() && Round(old(View()), View(), handle, exit, next, g, tail)
    {
      g, tail, next := Segment(handle, 0, [], [], [], None), [], 0;
      ghost var before := trace;
      var requested, failures := RequestRecord(handle);
      if !requested {
        tail := Failures(handle, MAX_ERROR_COUNT);
        return RequestFailed, next, g, tail;
      }
      var errorCounter, busyCounter, polls := PollStatus();
      tail := Failures(handle, failures) + [Request(handle, true)] + Polls(polls);
      assert trace == before + tail;
      if errorCounter == MAX_ERROR_COUNT {
        assert Stopped(TooManyErrors, handle, tail, failures, polls);
        return TooManyErrors, next, g, tail;
      }
      if busyCounter == MAX_IN_PROGRESS_COUNT {
        assert Stopped(TimedOut, handle, tail, failures, polls);
        return TimedOut, next, g, tail;
      }
      var saved, copy := SaveRecord();
      if !saved {
        tail := tail + [Save(None)];
        assert Stopped(SaveFailed, handle, tail, failures, polls);
        return SaveFailed, next, g, tail;
      }
      var reply := device.next(trace);
      Note(Next(reply));
      g, tail := Segment(handle, failures, polls, copy.record, copy.data, reply), [];
      assert trace == before + Events(g);
      next := if reply.Some? then reply.value else 0;
      exit := Complete;
    }

    /**
     The record loop of all four transfer functions, watched for at most limit records. The bytes
     appended are those of exactly the records counted, in chain order.
     */
    method GetRecords(limit: nat) returns (res: Status, exit: Exit, segmentsCounter: nat,
                                           ghost segments: seq<Segment>, ghost tail: Trace)
      requires Valid()
      modifies this
      ensures Valid() && Transferred(old(View()), View(), exit, segments, tail)
      ensures exit.Complete? ==> segments != [] && Following(segments) == 0
      ensures exit.Cut? ==> |segments| == limit && (limit > 0 ==> Following(segments) != 0)
      ensures segmentsCounter == |segments| <= limit
      ensures res == (match exit case Complete => Success case Cut => Success case RequestFailed => Error case _ => InProgress)
    {
      var currentRecord := 0;
      outputFileSize, segmentsCounter := 0, 0;
      segments := [];
      ghost var start := View();
      NothingCollected(start);
      hide Collected, Round, Transferred, Following, Answered;
      while segmentsCounter < limit
        invariant segmentsCounter == |segments| <= limit
        invariant Valid() && Collected(start, View(), segments)
        invariant currentRecord == Following(segments) && (segments != [] ==> currentRecord != 0)
        decreases limit - segmentsCounter
      {
        var next;
        ghost var g;
        ghost var before := View();
        exit, next, g, tail := FetchRecord(currentRecord);
        if !exit.Complete? {
          EndsEarly(start, before, View(), exit, segments, next, g, tail);
          res := if exit.RequestFailed? then Error else InProgress;
          return;
        }
        CollectsOne(start, before, View(), segments, next, g, tail);
        segmentsCounter, segments := segmentsCounter + 1, segments + [g];
        currentRecord := next;
        if currentRecord == 0 {
          EndsNormally(start, View(), exit, segments);
          return Success, exit, segmentsCounter, segments, [];
        }
      }
      EndsNormally(start, View(), Cut, segments);
      return Success, Cut, segmentsCounter, segments, [];
    }

    /** The body of the erase loop but for its counters. */
    method EraseRound() returns (res: Status, ghost added: Trace)
      requires Valid()
      modifies this`trace
      ensures Valid() && trace == old(trace) + added && IsRound(added, res)
    {
      var sent := device.erase(trace);
      Note(Erase(sent));
      if !sent {
        return Error, [Erase(false)];
      }
      res := device.eraseStatus(trace);
      Note(ErasePoll(res));
      added := [Erase(true), ErasePoll(res)];
    }

    /** The erase loop: it goes on until Success or a cap. */
    method EraseDump() returns (res: Status, ghost erases: Trace, ghost rounds: nat)
      requires Valid()
      modifies this`trace
      ensures Valid() && trace == old(trace) + erases && Erased(erases, res)
      ensures 0 < |erases| <= 2 * rounds && rounds <= MAX_ERROR_COUNT + MAX_IN_PROGRESS_COUNT - 1
    {
      var errorCounter, busyCounter := 0, 0;
      rounds := 0;
      res, erases := InProgress, [];
      assert Erasing(erases) && EraseErrors(erases) == 0 && EraseBusy(erases) == 0;
      hide Answered, Erasing, EraseErrors, EraseBusy;
      while errorCounter < MAX_ERROR_COUNT && busyCounter < MAX_IN_PROGRESS_COUNT && res != Success
        invariant Valid() && trace == old(trace) + erases && Erasing(erases)
        invariant errorCounter == EraseErrors(erases) <= MAX_ERROR_COUNT
        invariant busyCounter == EraseBusy(erases) <= MAX_IN_PROGRESS_COUNT
        invariant !(errorCounter == MAX_ERROR_COUNT && busyCounter == MAX_IN_PROGRESS_COUNT)
        invariant rounds == errorCounter + busyCounter + (if res == Success then 1 else 0)
        invariant |erases| <= 2 * rounds && (erases == [] <==> rounds == 0)
        invariant res == Success ==> errorCounter < MAX_ERROR_COUNT && busyCounter < MAX_IN_PROGRESS_COUNT
        invariant res == Success <==> erases != [] && erases[|erases| - 1] == ErasePoll(Success)
        decreases MAX_ERROR_COUNT + MAX_IN_PROGRESS_COUNT - errorCounter - busyCounter, res != Success
      {
        ghost var added;
        res, added := EraseRound();
        RoundCounts(erases, added, res);
        RoundGoesOn(erases, added, res);
        erases, rounds := erases + added, rounds + 1;
        errorCounter := errorCounter + if res == Error then 1 else 0;
        busyCounter := busyCounter + if res == InProgress then 1 else 0;
      }
    }

    /**
     For a device with a chain of n records, watched for at least that many, the tool ends, in a number of
     calls linear in n; and if it erases, it has saved everything exactly on the condition above.
     */
    method GetSwitchDump(limit: nat) returns (res: Status, exit: Exit, ghost segments: seq<Segment>,
                                              ghost tail: Trace, ghost erases: Trace)
      requires trace == []
      modifies this
      ensures Valid() && SwitchDump(trace, res, exit, segments, tail, erases)
      ensures exit.Cut? ==> |segments| == limit && (limit > 0 ==> Following(segments) != 0)
      ensures output == old(output) + Data(segments) && outputFileSize == Wrap(|Data(segments)|)
      ensures Whole(segments) <==> AllTaken(device, [], segments)
      ensures forall c: Records, n: nat :: Follows(device, c) && IsLength(c, n) ==> Dumps(trace, exit, segments, c, n, limit)
    {
      assert Valid();
      hide Chain, Tail, Flatten, Data, Following, Answered, Follows, IsLength, Dumps, AllTaken, Whole, Erased, Erasing, EraseErrors, EraseBusy;
      var segmentsCounter;
      res, exit, segmentsCounter, segments, tail := GetRecords(limit);
      erases := [];
      if exit.Complete? {
        ghost var rounds;
        res, erases, rounds := EraseDump();
      }
      assert SwitchDump(trace, res, exit, segments, tail, erases);
      SwitchDumpOfDevice(device, trace, res, exit, segments, tail, erases, limit);
    }
  }

  /** What a switch dump of a device with a chain of n records comes to. */
  ghost predicate Dumps(trace: Trace, exit: Exit, segments: seq<Segment>, c: Records, n: nat, limit: nat) {
    && |segments| <= n
    && (limit >= n ==> !exit.Cut? && |trace| <= 1007 * (n + 1) + 2004)
    && (exit.Complete? ==> (Data(segments) == Contents(c, n) <==> Whole(segments) && Nothing(c, |segments|, n)))
  }

  lemma {:induction false} SwitchDumpOfDevice(device: Device, trace: Trace, res: Status, exit: Exit, segments: seq<Segment>, tail: Trace,
                           erases: Trace, limit: nat)
    requires Answered(device, trace) && SwitchDump(trace, res, exit, segments, tail, erases)
    requires exit.Cut? ==> |segments| == limit && (limit > 0 ==> Following(segments) != 0)
    ensures Whole(segments) <==> AllTaken(device, [], segments)
    ensures forall c: Records, n: nat :: Follows(device, c) && IsLength(c, n) ==> Dumps(trace, exit, segments, c, n, limit)
  {
    assert [] + Flatten(segments) <= trace;
    WholeMeansTaken(device, [], trace, segments);
    forall c: Records, n: nat | Follows(device, c) && IsLength(c, n)
      ensures Dumps(trace, exit, segments, c, n, limit)
    {
      ObservesDevice(device, c, [], trace, segments);
      DumpsOfChain(trace, res, exit, segments, tail, erases, c, n, limit);
    }
  }

  lemma {:induction false} DumpsOfChain(trace: Trace, res: Status, exit: Exit, segments: seq<Segment>, tail: Trace, erases: Trace,
                     c: Records, n: nat, limit: nat)
    requires SwitchDump(trace, res, exit, segments, tail, erases) && Observes(segments, c) && IsLength(c, n)
    requires exit.Cut? ==> |segments| == limit && (limit > 0 ==> Following(segments) != 0)
    ensures Dumps(trace, exit, segments, c, n, limit)
  {
    ChainIsNoLonger(segments, c, n);
    SwitchDumpIsLinear(trace, res, exit, segments, tail, erases);
    if exit.Complete? {
      WholeChainSaved(segments, c, n);
    }
  }
}
