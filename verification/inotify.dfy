/** The inotify callback: a buffer of variable-length event records is parsed into a map from path to event mask. */
module Inotify {
  import opened Wrappers

  /** struct inotify_event up to its name field. */
  const HEADER := 16

  /** One event as the kernel writes it: the name is followed by pad zero bytes, at least one when there is a name. */
  datatype Event = Event(wd: Word, mask: Word, cookie: Word, name: seq<Byte>, pad: nat) {
    predicate Valid() {
      && 0 !in name
      && (name != [] ==> pad > 0)
      && |name| + pad < 0x1_0000_0000
    }
  }

  /** A 32-bit word in the byte order of the machine, taken to be little-endian. */
  function Bytes(n: Word): (b: seq<Byte>)
    ensures |b| == 4
  {
    [n % 256, n / 256 % 256, n / 65536 % 256, n / 16777216]
  }

  function WordAt(b: seq<Byte>, i: nat): Word
    requires i + 4 <= |b|
  {
    var b0: int, b1: int, b2: int, b3: int := b[i], b[i + 1], b[i + 2], b[i + 3];
    b0 + 256 * b1 + 65536 * b2 + 16777216 * b3
  }

  lemma {:induction false} WordRoundTrip(before: seq<Byte>, n: Word, after: seq<Byte>)
    ensures WordAt(before + Bytes(n) + after, |before|) == n
  {
    var b, i := before + Bytes(n) + after, |before|;
    assert b[i] == Bytes(n)[0] && b[i + 1] == Bytes(n)[1] && b[i + 2] == Bytes(n)[2] && b[i + 3] == Bytes(n)[3];
    BytesOfWord(n);
  }

  lemma {:induction false} BytesOfWord(n: Word)
    ensures WordAt(Bytes(n), 0) == n
  {
    assert n / 65536 == n / 256 / 256 && n / 16777216 == n / 256 / 256 / 256;
  }

  function Zeros(n: nat): (z: seq<Byte>)
    ensures |z| == n
  {
    seq(n, _ => 0)
  }

  function Encode(e: Event): (b: seq<Byte>)
    requires e.Valid()
    ensures |b| == HEADER + |e.name| + e.pad
  {
    Bytes(e.wd) + Bytes(e.mask) + Bytes(e.cookie) + Bytes(|e.name| + e.pad) + e.name + Zeros(e.pad)
  }

  function EncodeAll(events: seq<Event>): seq<Byte>
    requires forall e :: e in events ==> e.Valid()
  {
    if events == [] then [] else Encode(events[0]) + EncodeAll(events[1..])
  }

  /** Bitwise and. */
  function And(a: nat, b: nat): nat {
    if a == 0 || b == 0 then 0 else 2 * And(a / 2, b / 2) + (a % 2) * (b % 2)
  }

  predicate Bit(a: nat, i: nat)
    decreases i
  {
    if i == 0 then a % 2 == 1 else Bit(a / 2, i - 1)
  }

  lemma {:induction false} AndIsBitwise(a: nat, b: nat, i: nat)
    ensures Bit(And(a, b), i) <==> Bit(a, i) && Bit(b, i)
    decreases i
  {
    if a == 0 || b == 0 {
      ZeroHasNoBits(i);
    } else {
      assert (a % 2) * (b % 2) == if a % 2 == 1 && b % 2 == 1 then 1 else 0;
      assert And(a, b) / 2 == And(a / 2, b / 2);
      if i > 0 {
        AndIsBitwise(a / 2, b / 2, i - 1);
      }
    }
  }

  lemma {:induction false} ZeroHasNoBits(i: nat)
    ensures !Bit(0, i)
  {
    if i == 0 {
    } else {
      ZeroHasNoBits(i - 1);
    }
  }

  const SLASH: Byte := 47

  /** std::filesystem::path::operator/ for a relative right-hand side. */
  function Join(dir: seq<Byte>, name: seq<Byte>): seq<Byte> {
    if dir == [] || dir[|dir| - 1] == SLASH then dir + name else dir + [SLASH] + name
  }

  /** Where the C string that starts at position i ends. */
  function StringEnd(b: seq<Byte>, i: nat): (end: nat)
    requires i <= |b|
    ensures i <= end <= |b|
    ensures 0 !in b[i..end]
    ensures end < |b| ==> b[end] == 0
    decreases |b| - i
  {
    if i < |b| && b[i] != 0 then
      var end := StringEnd(b, i + 1);
      assert b[i..end] == [b[i]] + b[i + 1..end];
      end
    else i
  }

  /** What the kernel wrote is what the parser reads back at the position of a record. */
  lemma {:induction false} RecordRoundTrip(before: seq<Byte>, e: Event, after: seq<Byte>)
    requires e.Valid()
    ensures var b, at := before + Encode(e) + after, |before|;
            && WordAt(b, at + 4) == e.mask
            && WordAt(b, at + 12) == |e.name| + e.pad
            && (e.name != [] ==> b[at + HEADER..StringEnd(b, at + HEADER)] == e.name)
  {
    hide Bytes, WordAt, StringEnd;
    var b, at := before + Encode(e) + after, |before|;
    var head, tail := before + Bytes(e.wd), e.name + Zeros(e.pad) + after;
    var size := Bytes(|e.name| + e.pad);
    WordRoundTrip(head, e.mask, Bytes(e.cookie) + size + tail);
    assert b == head + Bytes(e.mask) + (Bytes(e.cookie) + size + tail);
    var long := head + Bytes(e.mask) + Bytes(e.cookie);
    WordRoundTrip(long, |e.name| + e.pad, tail);
    assert b == long + size + tail;
    if e.name != [] {
      var zeros := Zeros(e.pad) + after;
      NameRoundTrip(long + size, e.name, zeros);
      assert b == long + size + e.name + zeros;
    }
  }

  lemma {:induction false} NameRoundTrip(before: seq<Byte>, name: seq<Byte>, after: seq<Byte>)
    requires 0 !in name && |after| > 0 && after[0] == 0
    ensures var b := before + name + after;
            StringEnd(b, |before|) == |before| + |name| && b[|before|..|before| + |name|] == name
  {
    var b, end := before + name + after, |before| + |name|;
    assert b[end] == 0 && b[|before|..end] == name;
    StringEndsAt(b, |before|, end);
  }

  lemma {:induction false} StringEndsAt(b: seq<Byte>, i: nat, end: nat)
    requires i <= end < |b| && b[end] == 0 && 0 !in b[i..end]
    ensures StringEnd(b, i) == end
    decreases end - i
  {
    if i >= end {
    } else {
      assert b[i..end][0] == b[i] && b[i..end][1..] == b[i + 1..end];
      StringEndsAt(b, i + 1, end);
    }
  }

  /** A nameless record's name is read from whatever follows it, so it is empty only if a zero byte does. */
  lemma {:induction false} NamelessReadsOn(before: seq<Byte>, e: Event, after: seq<Byte>)
    requires e.Valid() && e.name == [] && e.pad == 0
    ensures var b, at := before + Encode(e) + after, |before| + HEADER;
            StringEnd(b, at) == at <==> after == [] || after[0] == 0
  {
    var b, at := before + Encode(e) + after, |before| + HEADER;
    assert |b| == at + |after|;
    if after != [] {
      assert b[at] == after[0];
    }
  }

  /** The mask bits of the event that are watched for; the event is selected if there are any. */
  function Selected(e: Event, mask: Word): nat { And(e.mask, mask) }

  /** The event at position i is the first selected one for its path, and these are its bits. */
  ghost predicate FirstFor(events: seq<Event>, mask: Word, dir: seq<Byte>, i: nat, path: seq<Byte>, bits: nat) {
    && i < |events| && Selected(events[i], mask) == bits != 0 && Join(dir, events[i].name) == path
    && forall j: nat :: j < i && Selected(events[j], mask) != 0 ==> Join(dir, events[j].name) != path
  }

  /** The map takes exactly the paths of selected events to the bits of the first of them. */
  ghost predicate FirstSelected(m: map<seq<Byte>, nat>, events: seq<Event>, mask: Word, dir: seq<Byte>) {
    && (forall i: nat :: i < |events| && Selected(events[i], mask) != 0 ==> Join(dir, events[i].name) in m)
    && (forall path :: path in m ==> exists i: nat :: FirstFor(events, mask, dir, i, path, m[path]))
  }

  /** One more record: emplace keeps the value a key already has. */
  lemma {:induction false} FirstSelectedExtends(m: map<seq<Byte>, nat>, m': map<seq<Byte>, nat>,
                             events: seq<Event>, e: Event, mask: Word, dir: seq<Byte>)
    requires FirstSelected(m, events, mask, dir)
    requires var path, bits := Join(dir, e.name), Selected(e, mask);
             m' == if bits == 0 || path in m then m else m[path := bits]
    ensures FirstSelected(m', events + [e], mask, dir)
  {
    hide Join, Selected;
    var all := events + [e];
    forall path | path in m'
      ensures exists i: nat :: FirstFor(all, mask, dir, i, path, m'[path])
    {
      if path in m {
        var i: nat :| FirstFor(events, mask, dir, i, path, m[path]);
        assert FirstFor(all, mask, dir, i, path, m[path]);
      } else {
        assert FirstFor(all, mask, dir, |events|, path, m'[path]);
      }
    }
  }

  /** The map is determined by the events, so the bytes behind the records play no part. */
  lemma {:induction false} FirstSelectedIsUnique(m: map<seq<Byte>, nat>, n: map<seq<Byte>, nat>, events: seq<Event>, mask: Word, dir: seq<Byte>)
    requires FirstSelected(m, events, mask, dir) && FirstSelected(n, events, mask, dir)
    ensures m == n
  {
    hide Join, Selected;
    forall path | path in m
      ensures path in n && m[path] == n[path]
    {
      var i: nat :| FirstFor(events, mask, dir, i, path, m[path]);
      var j: nat :| FirstFor(events, mask, dir, j, path, n[path]);
    }
    forall path | path in n
      ensures path in m
    {
      var i: nat :| FirstFor(events, mask, dir, i, path, n[path]);
    }
  }

  lemma {:induction false} EncodeSplits(events: seq<Event>, k: nat)
    requires forall e :: e in events ==> e.Valid()
    requires k <= |events|
    ensures EncodeAll(events) == EncodeAll(events[..k]) + EncodeAll(events[k..])
    decreases k
  {
    hide Encode;
    if k == 0 {
      assert events[..0] == [] && events[0..] == events;
    } else {
      EncodeSplits(events[1..], k - 1);
      assert events[1..][..k - 1] == events[..k][1..];
      assert events[1..][k - 1..] == events[k..];
    }
  }

  /** The parser stands at the record of event k. */
  ghost predicate At(buffer: seq<Byte>, offset: nat, events: seq<Event>, k: nat) {
    && (forall e :: e in events ==> e.Valid())
    && k <= |events|
    && EncodeAll(events) <= buffer
    && offset == |EncodeAll(events[..k])|
  }

  lemma {:induction false} Encloses(buffer: seq<Byte>, offset: nat, events: seq<Event>, k: nat) returns (before: seq<Byte>, after: seq<Byte>)
    requires At(buffer, offset, events, k) && k < |events|
    ensures buffer == before + Encode(events[k]) + after && |before| == offset
    ensures |EncodeAll(events[..k + 1])| == offset + |Encode(events[k])| <= |EncodeAll(events)|
  {
    hide Encode;
    var e := events[k];
    before := EncodeAll(events[..k]);
    EncodeSplits(events, k);
    assert events[k..][1..] == events[k + 1..];
    after := EncodeAll(events[k + 1..]) + buffer[|EncodeAll(events)|..];
    EncodeSplits(events[..k + 1], k);
    assert events[..k + 1][..k] == events[..k];
    assert events[..k + 1][k..] == [e];
    assert EncodeAll([e]) == Encode(e) + EncodeAll([]);
  }

  /** Reading one record: the fields read are the event's, and the parser then stands at the next record. */
  lemma {:induction false} ReadsRecord(buffer: seq<Byte>, offset: nat, events: seq<Event>, k: nat)
    requires At(buffer, offset, events, k) && k < |events|
    ensures var e, start := events[k], offset + HEADER;
            && start + |e.name| + e.pad <= |EncodeAll(events)| <= |buffer|
            && WordAt(buffer, offset + 4) == e.mask
            && WordAt(buffer, offset + 12) == |e.name| + e.pad
            && At(buffer, start + |e.name| + e.pad, events, k + 1)
            && (e.name != [] ==> buffer[start..StringEnd(buffer, start)] == e.name)
  {
    var before, after := Encloses(buffer, offset, events, k);
    hide EncodeAll;
    RecordRoundTrip(before, events[k], after);
  }

  /** The end of the records is reached with the last event and not earlier. */
  lemma {:induction false} AtEnd(buffer: seq<Byte>, offset: nat, events: seq<Event>, k: nat)
    requires At(buffer, offset, events, k)
    ensures offset <= |EncodeAll(events)|
    ensures offset == |EncodeAll(events)| <==> k == |events|
  {
    if k < |events| {
      ReadsRecord(buffer, offset, events, k);
    } else {
      assert events[..k] == events;
    }
  }

  /** The map after one record has been read. */
  function Emplaced(m: map<seq<Byte>, nat>, buffer: seq<Byte>, offset: nat, mask: Word, dir: seq<Byte>): map<seq<Byte>, nat>
    requires offset + HEADER <= |buffer|
  {
    var bits := And(WordAt(buffer, offset + 4), mask);
    var key := Join(dir, buffer[offset + HEADER..StringEnd(buffer, offset + HEADER)]);
    if bits == 0 || key in m then m else m[key := bits]
  }

  lemma {:induction false} EmplaceKeepsFirst(m: map<seq<Byte>, nat>, buffer: seq<Byte>, offset: nat, events: seq<Event>, k: nat,
                          mask: Word, dir: seq<Byte>)
    requires At(buffer, offset, events, k) && k < |events| && offset + HEADER <= |buffer|
    requires Selected(events[k], mask) != 0 ==> events[k].name != []
    requires FirstSelected(m, events[..k], mask, dir)
    ensures FirstSelected(Emplaced(m, buffer, offset, mask, dir), events[..k + 1], mask, dir)
  {
    ReadsRecord(buffer, offset, events, k);
    hide At, WordAt, And, FirstSelected;
    FirstSelectedExtends(m, Emplaced(m, buffer, offset, mask, dir), events[..k], events[k], mask, dir);
    assert events[..k] + [events[k]] == events[..k + 1];
  }

  class Watch {
    const path: seq<Byte>
    const mask: Word

    constructor (path: seq<Byte>, mask: Word)
      ensures this.path == path && this.mask == mask
    {
      this.path, this.mask := path, mask;
    }

    /** The name of the record at a position: a C string. */
    static method ReadName(buffer: seq<Byte>, start: nat) returns (name: seq<Byte>)
      requires start <= |buffer|
      ensures name == buffer[start..StringEnd(buffer, start)]
    {
      var i := start;
      while i < |buffer| && buffer[i] != 0
        invariant start <= i <= |buffer| && StringEnd(buffer, i) == StringEnd(buffer, start)
      {
        i := i + 1;
      }
      name := buffer[start..i];
    }

    /** The body of the parse loop up to the advance of the offset. */
    method Emplace(m: map<seq<Byte>, nat>, buffer: seq<Byte>, offset: nat) returns (userMap: map<seq<Byte>, nat>)
      requires offset + HEADER <= |buffer|
      ensures userMap == Emplaced(m, buffer, offset, mask, path)
    {
      userMap := m;
      var bits := And(WordAt(buffer, offset + 4), mask);
      if bits != 0 {
        var name := ReadName(buffer, offset + HEADER);
        var key := Join(path, name);
        if key !in userMap {
          userMap := userMap[key := bits];
        }
      }
    }

    /**
     The parse loop of callback: the first bytes of the buffer are the records the kernel returned, the
     rest may hold anything. Selected events have names.
     */
    method Parse(buffer: seq<Byte>, bytes: nat, ghost events: seq<Event>) returns (userMap: map<seq<Byte>, nat>, offset: nat)
      requires forall e :: e in events ==> e.Valid()
      requires bytes <= |buffer| && buffer[..bytes] == EncodeAll(events)
      requires forall e :: e in events && Selected(e, mask) != 0 ==> e.name != []
      ensures offset == bytes
      ensures FirstSelected(userMap, events, mask, path)
    {
      offset := 0;
      userMap := map[];
      ghost var k := 0;
      assert events[..0] == [];
      assert At(buffer, offset, events, k) && FirstSelected(userMap, events[..k], mask, path);
      hide *;
      AtEnd(buffer, offset, events, k);
      while offset < bytes
        invariant At(buffer, offset, events, k)
        invariant offset <= bytes
        invariant k <= |events| && FirstSelected(userMap, events[..k], mask, path)
      {
        AtEnd(buffer, offset, events, k);
        ReadsRecord(buffer, offset, events, k);
        EmplaceKeepsFirst(userMap, buffer, offset, events, k, mask, path);
        userMap := Emplace(userMap, buffer, offset);
        offset := offset + HEADER + WordAt(buffer, offset + 12);
        k := k + 1;
      }
      AtEnd(buffer, offset, events, k);
      assert events[..k] == events;
    }
  }
}
