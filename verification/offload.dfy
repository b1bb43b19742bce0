/** Offloading a dump file over a unix socket: the partial-write loop and the offloaded flag of the entry. */
module Offload {
  import opened Wrappers

  /**
   What one round of select and write does: select fails or times out, the socket is not in the ready
   set, write takes some of the bytes it is offered, or write fails with or without a retryable errno.
   */
  datatype Turn = SelectFails | NotSet | Wrote(count: nat) | WriteFails(retryable: bool)

  /** Waiting: every turn so far was used and the loop is still running. */
  datatype End = Returned | Threw | Waiting

  predicate Fatal(turn: Turn) { turn.SelectFails? || (turn.WriteFails? && !turn.retryable) }

  /** Bytes one turn takes; write never takes more than it is offered. */
  function Accepted(turn: Turn, left: nat): nat {
    if turn.Wrote? then Min(turn.count, left) else 0
  }

  /** The loop from the point where done of size bytes are written: how it ends and how many bytes are written then. */
  function Loop(size: nat, done: nat, turns: seq<Turn>): (r: (End, nat))
    requires done <= size
    ensures done <= r.1 <= size && (r.0.Returned? <==> r.1 == size)
    decreases |turns|
  {
    if done == size then (Returned, done)
    else if turns == [] then (Waiting, done)
    else if Fatal(turns[0]) then (Threw, done)
    else Loop(size, done + Accepted(turns[0], size - done), turns[1..])
  }

  /** The turns before the first fatal one. */
  function Healthy(turns: seq<Turn>): seq<Turn> {
    if turns == [] || Fatal(turns[0]) then [] else [turns[0]] + Healthy(turns[1..])
  }

  /** Everything the socket would take in these turns. */
  function Capacity(turns: seq<Turn>): nat {
    if turns == [] then 0 else (if turns[0].Wrote? then turns[0].count else 0) + Capacity(turns[1..])
  }

  /** How the loop ends is decided by the capacity before the first fatal turn alone. */
  lemma {:induction false} LoopEnds(size: nat, done: nat, turns: seq<Turn>)
    requires done <= size
    ensures var (end, written) := Loop(size, done, turns);
            var enough := size <= done + Capacity(Healthy(turns));
            && written == Min(size, done + Capacity(Healthy(turns)))
            && (end.Returned? <==> enough)
            && (end.Threw? <==> !enough && Healthy(turns) != turns)
            && (end.Waiting? <==> !enough && Healthy(turns) == turns)
    decreases |turns|
  {
    if turns == [] {
    } else {
      if done < size && !Fatal(turns[0]) {
        LoopEnds(size, done + Accepted(turns[0], size - done), turns[1..]);
      }
      if !Fatal(turns[0]) {
        assert Healthy(turns)[1..] == Healthy(turns[1..]);
        assert turns == [turns[0]] + turns[1..];
      }
    }
  }

  /** The peer's end of a stream socket: the bytes it has received. */
  class Socket {
    var delivered: seq<Byte>

    constructor ()
      ensures delivered == []
    {
      delivered := [];
    }

    /** writeOnUnixSocket. */
    method Write(buffer: seq<Byte>, turns: seq<Turn>) returns (end: End)
      modifies this
      ensures end == Loop(|buffer|, 0, turns).0
      ensures delivered == old(delivered) + buffer[..Loop(|buffer|, 0, turns).1]
      ensures end.Returned? ==> delivered == old(delivered) + buffer
    {
      var i := 0;
      var t := 0;
      while i < |buffer|
        invariant 0 <= i <= |buffer| && 0 <= t <= |turns|
        invariant Loop(|buffer|, 0, turns) == Loop(|buffer|, i, turns[t..])
        invariant delivered == old(delivered) + buffer[..i]
        decreases |turns| - t
      {
        if t == |turns| {
          return Waiting;
        }
        var turn := turns[t];
        assert turns[t..][1..] == turns[t + 1..];
        t := t + 1;
        if turn.SelectFails? {
          return Threw;
        }
        var wrote := 0;
        if turn.Wrote? {
          wrote := Min(turn.count, |buffer| - i);
          delivered := delivered + buffer[i..i + wrote];
          assert buffer[..i] + buffer[i..i + wrote] == buffer[..i + wrote];
        } else if turn.WriteFails? && !turn.retryable {
          return Threw;
        }
        i := i + wrote;
      }
      assert buffer[..i] == buffer;
      return Returned;
    }
  }

  /** The wait for a client: select fails or times out, it reports readiness without the socket in the set, or a client connects. */
  datatype Poll = PollFails | NotInSet | Connected

  /** The environment of one offload request. */
  datatype Request = Request(listens: bool, poll: Poll, accepts: bool, opens: bool, closes: bool, turns: seq<Turn>)

  datatype Outcome = Done | OpenError | WriteError | Hanging

  /** How requestOffload ends for a file of the given size. A file that does not open is reported as a write error. */
  function RequestEnds(size: nat, r: Request): Outcome {
    if !r.listens || r.poll.PollFails? then WriteError
    else if r.poll.NotInSet? then Done
    else if !r.accepts || !r.opens then WriteError
    else if !r.closes then OpenError
    else match Loop(size, 0, r.turns).0
      case Returned => Done
      case Threw => WriteError
      case Waiting => Hanging
  }

  /** The client received every byte of the file. */
  ghost predicate FullyDelivered(size: nat, r: Request) {
    r.listens && r.poll.Connected? && r.accepts && r.opens && r.closes && size <= Capacity(Healthy(r.turns))
  }

  lemma {:induction false} RequestDoneMeansDelivered(size: nat, r: Request)
    requires !r.poll.NotInSet?
    ensures RequestEnds(size, r).Done? <==> FullyDelivered(size, r)
  {
    LoopEnds(size, 0, r.turns);
  }

  /** The flag after a sequence of requests; a request that hangs blocks the service, so nothing follows it. */
  function OffloadedAfter(size: nat, flag: bool, requests: seq<Request>): bool
    decreases |requests|
  {
    if requests == [] || RequestEnds(size, requests[0]).Hanging? then flag
    else OffloadedAfter(size, flag || RequestEnds(size, requests[0]).Done?, requests[1..])
  }

  /** Requests that were really made: those up to and including the first that hangs. */
  function Made(size: nat, requests: seq<Request>): nat
    decreases |requests|
  {
    if requests == [] then 0
    else if RequestEnds(size, requests[0]).Hanging? then 1
    else 1 + Made(size, requests[1..])
  }

  /** An entry is marked offloaded exactly when some request delivered the whole file. */
  lemma {:induction false} OffloadedMeansDelivered(size: nat, flag: bool, requests: seq<Request>)
    requires forall r :: r in requests ==> !r.poll.NotInSet?
    ensures Made(size, requests) <= |requests|
    ensures OffloadedAfter(size, flag, requests) <==>
            flag || exists i :: 0 <= i < Made(size, requests) && FullyDelivered(size, requests[i])
    decreases |requests|
  {
    if requests == [] {
    } else {
      var first, rest := requests[0], requests[1..];
      RequestDoneMeansDelivered(size, first);
      if !RequestEnds(size, first).Hanging? {
        OffloadedMeansDelivered(size, flag || RequestEnds(size, first).Done?, rest);
        assert forall i :: 0 <= i < |rest| ==> rest[i] == requests[i + 1];
        if i :| 0 <= i < Made(size, requests) && FullyDelivered(size, requests[i]) {
          assert i > 0 ==> FullyDelivered(size, rest[i - 1]);
        }
      }
    }
  }

  /**
   The branch the condition on the poll leaves out, where a request ends normally before anything is sent.
   It is hypothetical: a select on a single descriptor that reports readiness has it in its set.
   */
  lemma {:induction false} NotInSetOffloadsNothing(size: nat, r: Request)
    requires r.listens && r.poll.NotInSet?
    ensures OffloadedAfter(size, false, [r]) && !FullyDelivered(size, r)
  {
    assert OffloadedAfter(size, true, []);
    assert [r][1..] == [];
  }

  /** A BMC dump entry as far as offloading is concerned. */
  class Entry {
    var contents: seq<Byte>
    var offloaded: bool

    constructor (contents: seq<Byte>)
      ensures this.contents == contents && !offloaded
    {
      this.contents := contents;
      offloaded := false;
    }

    /** requestOffload: returns or throws; the path of the socket is removed on every exit. */
    method RequestOffload(r: Request, client: Socket) returns (outcome: Outcome)
      modifies client
      ensures outcome == RequestEnds(|contents|, r)
      ensures outcome.Done? && !r.poll.NotInSet? ==> client.delivered == old(client.delivered) + contents
      ensures exists n :: 0 <= n <= |contents| && client.delivered == old(client.delivered) + contents[..n]
    {
      assert client.delivered == old(client.delivered) + contents[..0];
      if !r.listens || r.poll.PollFails? {
        return WriteError;
      }
      if r.poll.Connected? {
        if !r.accepts || !r.opens {
          return WriteError;
        }
        if !r.closes {
          return OpenError;
        }
        LoopEnds(|contents|, 0, r.turns);
        var end := client.Write(contents, r.turns);
        match end
        case Returned => return Done;
        case Threw => return WriteError;
        case Waiting => return Hanging;
      }
      return Done;
    }

    /** initiateOffload. */
    method InitiateOffload(r: Request, client: Socket) returns (outcome: Outcome)
      modifies this`offloaded, client
      ensures outcome == RequestEnds(|contents|, r)
      ensures offloaded == (old(offloaded) || outcome.Done?)
      ensures !old(offloaded) && offloaded && !r.poll.NotInSet? ==> client.delivered == old(client.delivered) + contents
      ensures exists n :: 0 <= n <= |contents| && client.delivered == old(client.delivered) + contents[..n]
    {
      outcome := RequestOffload(r, client);
      if outcome.Done? {
        offloaded := true;
      }
    }
  }
}
