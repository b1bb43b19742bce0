/** Dump file names: obmcdump_<id>_<epoch seconds>.<extension>, written by dreport, parsed by the managers. */
module DumpName {
  import opened Wrappers

  const PREFIX := "obmcdump_"
  const U64 := 0x1_0000_0000_0000_0000
  const MICROSECONDS := 1000000

  /** Exceptions of the number conversion are told apart from a name that does not match. */
  datatype Details = NoMatch | OutOfRange | Details(id: nat, timestamp: nat)

  predicate IsDigit(c: char) { '0' <= c <= '9' }

  predicate IsAlphanumeric(c: char) { IsDigit(c) || 'a' <= c <= 'z' || 'A' <= c <= 'Z' }

  function DigitOf(d: nat): char
    requires d < 10
  {
    '0' + d as char
  }

  /** std::to_string. */
  function Decimal(n: nat): string {
    if n < 10 then [DigitOf(n)] else Decimal(n / 10) + [DigitOf(n % 10)]
  }

  /** std::stoul and std::stoull before their range check. */
  function Value(digits: string): nat
    requires forall c :: c in digits ==> IsDigit(c)
  {
    if digits == "" then 0
    else
      var last := digits[|digits| - 1];
      assert IsDigit(last);
      10 * Value(digits[..|digits| - 1]) + (last - '0') as nat
  }

  lemma {:induction false} DecimalRoundTrip(n: nat)
    ensures var s := Decimal(n);
            s != "" && (forall c :: c in s ==> IsDigit(c)) && Value(s) == n
  {
    if n < 10 {
    } else {
      DecimalRoundTrip(n / 10);
      assert Decimal(n)[..|Decimal(n)| - 1] == Decimal(n / 10);
    }
  }

  /** Where the run of digits from position i ends; a greedy [0-9]+ stops there and cannot stop earlier. */
  function DigitsEnd(s: string, i: nat): (end: nat)
    requires i <= |s|
    ensures i <= end <= |s|
    ensures forall k :: i <= k < end ==> IsDigit(s[k])
    ensures end < |s| ==> !IsDigit(s[end])
    decreases |s| - i
  {
    if i < |s| && IsDigit(s[i]) then DigitsEnd(s, i + 1) else i
  }

  /** The two captured digit strings if the pattern matches at position i. */
  function MatchAt(s: string, i: nat): (m: Option<(string, string)>)
    requires i <= |s|
    ensures m.Some? ==> (forall c :: c in m.value.0 || c in m.value.1 ==> IsDigit(c))
  {
    if !(PREFIX <= s[i..]) then None
    else
      var a := i + |PREFIX|;
      var b := DigitsEnd(s, a);
      if b == a || b == |s| || s[b] != '_' then None
      else
        var c := DigitsEnd(s, b + 1);
        if c == b + 1 || c + 1 >= |s| || s[c] != '.' || !IsAlphanumeric(s[c + 1]) then None
        else Some((s[a..b], s[b + 1..c]))
  }

  /** std::regex_search: the first position that matches. */
  function Search(s: string, i: nat): (m: Option<(string, string)>)
    requires i <= |s|
    ensures m.Some? ==> (forall c :: c in m.value.0 || c in m.value.1 ==> IsDigit(c))
    decreases |s| - i
  {
    if MatchAt(s, i).Some? || i == |s| then MatchAt(s, i) else Search(s, i + 1)
  }

  function Extract(name: string): Details {
    match Search(name, 0)
    case None => NoMatch
    case Some((id, time)) =>
      if Value(id) >= U64 || Value(time) >= U64 then OutOfRange
      else Details(Value(id) % 0x1_0000_0000, Value(time) * MICROSECONDS % U64)
  }

  function Name(id: nat, epoch: nat, extension: string): string {
    PREFIX + Decimal(id) + "_" + Decimal(epoch) + "." + extension
  }

  lemma {:induction false} DigitsEndAt(s: string, i: nat, end: nat)
    requires i <= end < |s|
    requires (forall k :: i <= k < end ==> IsDigit(s[k])) && !IsDigit(s[end])
    ensures DigitsEnd(s, i) == end
  {
    assert !(DigitsEnd(s, i) < end);
  }

  lemma {:induction false} DigitsRun(s: string, i: nat, digits: string)
    requires i + |digits| < |s| && s[i..i + |digits|] == digits
    requires (forall c :: c in digits ==> IsDigit(c)) && !IsDigit(s[i + |digits|])
    ensures DigitsEnd(s, i) == i + |digits|
  {
    hide IsDigit;
    forall k | i <= k < i + |digits|
      ensures IsDigit(s[k])
    {
      assert s[k] == s[i..i + |digits|][k - i];
    }
    DigitsEndAt(s, i, i + |digits|);
  }

  /** What a dump name begins with. */
  function Head(id: string, time: string): string {
    PREFIX + id + "_" + time + "."
  }

  lemma {:induction false} HeadParts(id: string, time: string)
    ensures var head, b, c := Head(id, time), |PREFIX| + |id|, |PREFIX| + |id| + 1 + |time|;
            && |head| == c + 1 && head[..|PREFIX|] == PREFIX
            && head[|PREFIX|..b] == id && head[b] == '_' && head[b + 1..c] == time && head[c] == '.'
  {
  }

  lemma {:induction false} Part(s: string, i: nat, head: string, from: nat, to: nat)
    requires i <= |s| && head <= s[i..] && from <= to <= |head|
    ensures i + to <= |s| && s[i + from..i + to] == head[from..to]
  {
    assert s[i..][from..to] == s[i + from..i + to];
    assert s[i..][..|head|][from..to] == head[from..to];
  }

  /** The pattern, said without a scan: what s begins with if the two groups capture id and time. */
  ghost predicate Shape(s: string, id: string, time: string) {
    && id != "" && (forall c :: c in id ==> IsDigit(c))
    && time != "" && (forall c :: c in time ==> IsDigit(c))
    && Head(id, time) <= s && |Head(id, time)| < |s| && IsAlphanumeric(s[|Head(id, time)|])
  }

  /** The fields of such a name, by position. */
  lemma {:induction false} ShapeParts(s: string, i: nat, id: string, time: string)
    requires i <= |s| && Shape(s[i..], id, time)
    ensures var a := i + |PREFIX|;
            var b, c := a + |id|, a + |id| + 1 + |time|;
            && c + 1 < |s| && s[a..b] == id && s[b] == '_' && s[b + 1..c] == time && s[c] == '.' && IsAlphanumeric(s[c + 1])
  {
    hide IsAlphanumeric;
    var head, a := Head(id, time), |PREFIX|;
    var b, c := a + |id|, a + |id| + 1 + |time|;
    HeadParts(id, time);
    hide Head;
    Part(s, i, head, a, b);
    Part(s, i, head, b + 1, c);
    assert s[i + b] == s[i..][b] == head[b] && s[i + c] == s[i..][c] == head[c] && s[i + c + 1] == s[i..][|head|];
  }

  lemma {:induction false} ShapeBegins(s: string, id: string, time: string)
    requires Shape(s, id, time)
    ensures PREFIX <= s
  {
    HeadParts(id, time);
    hide Head;
    var head := Head(id, time);
    assert s[..|head|] == head && s[..|PREFIX|] == s[..|head|][..|PREFIX|];
  }

  lemma {:induction false} ShapeDigits(s: string, id: string, time: string)
    requires Shape(s, id, time)
    ensures id != "" && (forall c :: c in id ==> IsDigit(c)) && time != "" && forall c :: c in time ==> IsDigit(c)
  {
    hide IsDigit, Head;
  }

  lemma {:induction false} ShapeMatches(s: string, i: nat, id: string, time: string)
    requires i <= |s| && Shape(s[i..], id, time)
    ensures MatchAt(s, i) == Some((id, time))
  {
    hide IsAlphanumeric, DigitsEnd, Shape;
    ShapeParts(s, i, id, time);
    ShapeBegins(s[i..], id, time);
    ShapeDigits(s[i..], id, time);
    DigitsRun(s, i + |PREFIX|, id);
    DigitsRun(s, i + |PREFIX| + |id| + 1, time);
  }

  lemma {:induction false} MatchAtStart(id: string, time: string, extension: string)
    requires id != "" && (forall c :: c in id ==> IsDigit(c))
    requires time != "" && (forall c :: c in time ==> IsDigit(c))
    requires extension != "" && IsAlphanumeric(extension[0])
    ensures MatchAt(PREFIX + id + "_" + time + "." + extension, 0) == Some((id, time))
  {
    var s := PREFIX + id + "_" + time + "." + extension;
    var head := Head(id, time);
    assert s[0..] == s && s == head + extension;
    assert s[|head|] == extension[0] && s[..|head|] == head;
    ShapeMatches(s, 0, id, time);
  }

  lemma {:induction false} MatchHasShape(s: string, i: nat)
    requires i <= |s| && MatchAt(s, i).Some?
    ensures Shape(s[i..], MatchAt(s, i).value.0, MatchAt(s, i).value.1)
  {
    hide IsAlphanumeric, IsDigit;
    var (id, time) := MatchAt(s, i).value;
    var a := i + |PREFIX|;
    var b := DigitsEnd(s, a);
    var c := DigitsEnd(s, b + 1);
    HeadBefore(s, i, b, c);
    assert id == s[a..b] && time == s[b + 1..c];
    hide MatchAt, Head;
    assert s[i..][c + 1 - i] == s[c + 1];
  }

  lemma {:induction false} HeadBefore(s: string, i: nat, b: nat, c: nat)
    requires i + |PREFIX| <= b < c < |s| && PREFIX <= s[i..] && s[b] == '_' && s[c] == '.'
    ensures Head(s[i + |PREFIX|..b], s[b + 1..c]) == s[i..][..c + 1 - i]
    ensures |Head(s[i + |PREFIX|..b], s[b + 1..c])| == c + 1 - i
  {
    var a := i + |PREFIX|;
    assert s[i..a] == s[i..][..|PREFIX|] == PREFIX;
    assert s[i..][..c + 1 - i] == s[i..a] + s[a..b] + [s[b]] + s[b + 1..c] + [s[c]];
  }

  /** The scan captures exactly what the pattern describes; there is never a choice. */
  lemma {:induction false} MatchesExactly(s: string, i: nat, id: string, time: string)
    requires i <= |s|
    ensures MatchAt(s, i) == Some((id, time)) <==> Shape(s[i..], id, time)
  {
    if MatchAt(s, i).Some? {
      MatchHasShape(s, i);
    }
    if Shape(s[i..], id, time) {
      ShapeMatches(s, i, id, time);
    }
    hide MatchAt, Shape;
  }

  lemma {:induction false} SearchFirst(s: string, from: nat, i: nat)
    requires from <= i <= |s| && MatchAt(s, i).Some? && forall j :: from <= j < i ==> MatchAt(s, j).None?
    ensures Search(s, from) == MatchAt(s, i)
    decreases i - from
  {
    hide MatchAt;
    if from == i {
    } else {
      SearchFirst(s, from + 1, i);
    }
  }

  lemma {:induction false} SearchNone(s: string, from: nat)
    requires from <= |s|
    ensures Search(s, from).None? <==> forall j :: from <= j <= |s| ==> MatchAt(s, j).None?
    decreases |s| - from
  {
    hide MatchAt;
    if from < |s| {
      SearchNone(s, from + 1);
    }
  }

  /** A name is refused if and only if it has the shape of a dump name at no position. */
  lemma {:induction false} RefusedExactly(name: string)
    ensures Extract(name) == NoMatch <==> forall i, id, time :: 0 <= i <= |name| ==> !Shape(name[i..], id, time)
  {
    SearchNone(name, 0);
    if Search(name, 0).None? {
      forall i, id, time | 0 <= i <= |name|
        ensures !Shape(name[i..], id, time)
      {
        MatchesExactly(name, i, id, time);
      }
    } else {
      var i :| 0 <= i <= |name| && MatchAt(name, i).Some?;
      MatchHasShape(name, i);
    }
    hide MatchAt, Shape, Search;
  }

  /** Otherwise the first such position counts, and the numbers must fit 64 bits; the id is then cut to 32. */
  lemma {:induction false} FirstShapeCounts(name: string, i: nat, id: string, time: string)
    requires i <= |name| && Shape(name[i..], id, time)
    requires forall j, a, b :: 0 <= j < i ==> !Shape(name[j..], a, b)
    ensures Extract(name) ==
            if Value(id) < U64 && Value(time) < U64 then Details(Value(id) % 0x1_0000_0000, Value(time) * MICROSECONDS % U64)
            else OutOfRange
  {
    ShapeMatches(name, i, id, time);
    forall j | 0 <= j < i
      ensures MatchAt(name, j).None?
    {
      if MatchAt(name, j).Some? {
        MatchHasShape(name, j);
      }
    }
    SearchFirst(name, 0, i);
    hide MatchAt, Shape, Search;
  }

  /** The parser reads back the id and the time from every name dreport writes. */
  lemma {:induction false} NameRoundTrip(id: nat, epoch: nat, extension: string)
    requires id < 0x1_0000_0000 && epoch * MICROSECONDS < U64
    requires extension != "" && IsAlphanumeric(extension[0])
    ensures Extract(Name(id, epoch, extension)) == Details(id, epoch * MICROSECONDS)
  {
    DecimalRoundTrip(id);
    DecimalRoundTrip(epoch);
    MatchAtStart(Decimal(id), Decimal(epoch), extension);
    hide MatchAt, Decimal, Value;
  }
}
