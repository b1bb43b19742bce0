/** The header that IBM systems put in front of a dump archive. A byte is a character below 256. */
module IbmHeader {
  import DumpName

  const NUL: char := 0 as char
  const HEADER_ENTRY_SIZE := 516

  /** Size of the archive as the file system reports it. */
  type FileSize = n: int | 0 <= n < 0x8000_0000_0000_0000

  function Repeat(c: char, n: nat): (s: string)
    ensures |s| == n && forall i :: 0 <= i < n ==> s[i] == c
  {
    seq(n, _ => c)
  }

  /** The number of blanks printf pads an empty string with: a negative width asks for left justification. */
  function Width(n: int): nat {
    if n < 0 then -n else n
  }

  predicate IsHexDigit(c: char) { '0' <= c <= '9' || 'a' <= c <= 'f' }

  function HexDigit(d: nat): (c: char)
    requires d < 16
    ensures IsHexDigit(c) && HexValue(c) == d
  {
    if d < 10 then '0' + d as char else 'a' + (d - 10) as char
  }

  function HexValue(c: char): nat
    requires IsHexDigit(c)
  {
    if c <= '9' then (c - '0') as nat else 10 + (c - 'a') as nat
  }

  /** printf "%x". */
  function Hex(n: nat): string {
    if n < 16 then [HexDigit(n)] else Hex(n / 16) + [HexDigit(n % 16)]
  }

  /** The number a string of hexadecimal digits denotes. */
  function Number(hex: string): nat
    requires forall c :: c in hex ==> IsHexDigit(c)
  {
    if hex == "" then 0
    else
      var last := hex[|hex| - 1];
      assert last in hex;
      16 * Number(hex[..|hex| - 1]) + HexValue(last)
  }

  lemma {:induction false} HexRoundTrip(n: nat)
    ensures var hex := Hex(n);
            hex != "" && (forall c :: c in hex ==> IsHexDigit(c)) && Number(hex) == n
  {
    if n < 16 {
    } else {
      HexRoundTrip(n / 16);
      assert Hex(n)[..|Hex(n)| - 1] == Hex(n / 16);
    }
  }

  function Power16(k: nat): nat {
    if k == 0 then 1 else 16 * Power16(k - 1)
  }

  lemma {:induction false} SixteenDigits()
    ensures Power16(16) == 0x1_0000_0000_0000_0000
  {
    assert Power16(4) == 0x1_0000;
    assert Power16(8) == 0x1_0000_0000;
    assert Power16(12) == 0x1_0000_0000_0000;
  }

  lemma {:induction false} HexLength(n: nat, k: nat)
    requires k > 0 && n < Power16(k)
    ensures |Hex(n)| <= k
  {
    if n < 16 {
    } else {
      assert k > 1;
      HexLength(n / 16, k - 1);
    }
  }

  lemma {:induction false} LeadingZero(hex: string)
    requires forall c :: c in hex ==> IsHexDigit(c)
    ensures Number("0" + hex) == Number(hex)
  {
    if hex == "" {
      assert ("0" + hex)[..0] == "";
    } else {
      LeadingZero(hex[..|hex| - 1]);
      assert ("0" + hex)[..|hex|] == "0" + hex[..|hex| - 1];
    }
  }

  /** The number the bytes of a field denote, most significant byte first. */
  function BigEndian(bytes: string): nat {
    if bytes == "" then 0 else 256 * BigEndian(bytes[..|bytes| - 1]) + bytes[|bytes| - 1] as nat
  }

  lemma {:induction false} LeadingNulls(n: nat, bytes: string)
    ensures BigEndian(Repeat(NUL, n) + bytes) == BigEndian(bytes)
    decreases |bytes|, n
  {
    var all := Repeat(NUL, n) + bytes;
    if bytes != "" {
      LeadingNulls(n, bytes[..|bytes| - 1]);
      assert all[..|all| - 1] == Repeat(NUL, n) + bytes[..|bytes| - 1];
    } else if n > 0 {
      LeadingNulls(n - 1, "");
      assert all[..n - 1] == Repeat(NUL, n - 1) + "";
    }
  }

  /** The byte that two digits escape. */
  function HexByte(high: char, low: char): char
    requires IsHexDigit(high) && IsHexDigit(low)
  {
    (16 * HexValue(high) + HexValue(low)) as char
  }

  function Pack(hex: string): (bytes: string)
    requires |hex| % 2 == 0 && forall c :: c in hex ==> IsHexDigit(c)
    ensures |bytes| == |hex| / 2
  {
    if hex == "" then ""
    else
      var n := |hex|;
      assert hex[n - 2] in hex && hex[n - 1] in hex;
      Pack(hex[..n - 2]) + [HexByte(hex[n - 2], hex[n - 1])]
  }

  lemma {:induction false} PackNext(hex: string, i: nat)
    requires i % 2 == 0 && i + 2 <= |hex| && forall c :: c in hex ==> IsHexDigit(c)
    ensures IsHexDigit(hex[i]) && IsHexDigit(hex[i + 1])
    ensures Pack(hex[..i + 2]) == Pack(hex[..i]) + [HexByte(hex[i], hex[i + 1])]
  {
    assert hex[i] in hex && hex[i + 1] in hex;
    assert hex[..i + 2][..i] == hex[..i];
  }

  lemma {:induction false} BigEndianAppends(bytes: string, byte: char)
    ensures BigEndian(bytes + [byte]) == 256 * BigEndian(bytes) + byte as nat
  {
    assert (bytes + [byte])[..|bytes|] == bytes;
  }

  lemma {:induction false} NumberAppends(hex: string, digit: char)
    requires IsHexDigit(digit) && forall c :: c in hex ==> IsHexDigit(c)
    ensures Number(hex + [digit]) == 16 * Number(hex) + HexValue(digit)
  {
    assert (hex + [digit])[..|hex|] == hex;
  }

  lemma {:induction false} HexByteValue(high: char, low: char)
    requires IsHexDigit(high) && IsHexDigit(low)
    ensures HexByte(high, low) as nat == 16 * HexValue(high) + HexValue(low)
  {
  }

  /** One more pair of digits shifts both numbers by a byte. */
  lemma {:induction false} PairAppends(rest: string, high: char, low: char)
    requires |rest| % 2 == 0 && IsHexDigit(high) && IsHexDigit(low) && forall c :: c in rest ==> IsHexDigit(c)
    ensures Number(rest + [high] + [low]) == 256 * Number(rest) + HexByte(high, low) as nat
    ensures Pack(rest + [high] + [low]) == Pack(rest) + [HexByte(high, low)]
  {
    hide HexByte, HexValue;
    HexByteValue(high, low);
    NumberAppends(rest, high);
    NumberAppends(rest + [high], low);
    assert (rest + [high] + [low])[..|rest|] == rest;
  }

  lemma {:induction false} PackReadsBack(hex: string)
    requires |hex| % 2 == 0 && forall c :: c in hex ==> IsHexDigit(c)
    ensures BigEndian(Pack(hex)) == Number(hex)
  {
    if hex == "" {
    } else {
      hide HexByte, HexValue, IsHexDigit;
      var rest := hex[..|hex| - 2];
      var high, low := hex[|hex| - 2], hex[|hex| - 1];
      assert high in hex && low in hex;
      PackReadsBack(rest);
      PairAppends(rest, high, low);
      BigEndianAppends(Pack(rest), HexByte(high, low));
      assert hex == rest + [high] + [low];
    }
  }

  /** Eight bytes denote one number at most, so a size field is determined by the number it denotes. */
  lemma {:induction false} FieldIsDetermined(a: string, b: string)
    requires |a| == |b| && BigEndian(a) == BigEndian(b)
    requires forall i :: 0 <= i < |a| ==> a[i] as int < 256 && b[i] as int < 256
    ensures a == b
  {
    if a == "" {
    } else {
      var n := |a| - 1;
      var high, low := BigEndian(a[..n]), BigEndian(b[..n]);
      assert 256 * high + a[n] as nat == 256 * low + b[n] as nat;
      assert high == low;
      FieldIsDetermined(a[..n], b[..n]);
      assert a == a[..n] + [a[n]] && b == b[..n] + [b[n]];
    }
  }

  /** The dump id padded with zeros in front. */
  function IdField(id: string): string {
    Repeat('0', Width(8 - |id|)) + id
  }

  /** An id of more than eight digits is padded as well, beyond the size of the field. */
  lemma {:induction false} IdFieldFits(id: string)
    ensures |IdField(id)| == 8 <==> |id| <= 8
  {}

  lemma {:induction false} ZerosInFront(n: nat, digits: string)
    requires forall c :: c in digits ==> DumpName.IsDigit(c)
    ensures (forall c :: c in Repeat('0', n) + digits ==> DumpName.IsDigit(c)) &&
            DumpName.Value(Repeat('0', n) + digits) == DumpName.Value(digits)
    decreases |digits|, n
  {
    var all := Repeat('0', n) + digits;
    if digits != "" {
      ZerosInFront(n, digits[..|digits| - 1]);
      assert all[..|all| - 1] == Repeat('0', n) + digits[..|digits| - 1];
    } else if n > 0 {
      ZerosInFront(n - 1, "");
      assert all[..n - 1] == Repeat('0', n - 1) + "";
    }
  }

  /** The id can be read back from its field. */
  lemma {:induction false} IdRoundTrip(id: nat)
    ensures var field := IdField(DumpName.Decimal(id));
            (forall c :: c in field ==> DumpName.IsDigit(c)) && DumpName.Value(field) == id
  {
    DumpName.DecimalRoundTrip(id);
    var digits := DumpName.Decimal(id);
    ZerosInFront(Width(8 - |digits|), digits);
  }

  /** The eight bytes of the field that holds the size of the archive with its header and entry. */
  function SizeField(archive: FileSize): (field: string)
    ensures |field| == 8 && BigEndian(field) == archive + HEADER_ENTRY_SIZE
  {
    var hex := SizeDigits(archive);
    PackReadsBack(hex);
    LeadingNulls(8 - |hex| / 2, Pack(hex));
    Repeat(NUL, 8 - |hex| / 2) + Pack(hex)
  }

  /** The digits of the size, made even in number. */
  function SizeDigits(archive: FileSize): (hex: string)
    ensures |hex| % 2 == 0 && |hex| <= 16
    ensures forall c :: c in hex ==> IsHexDigit(c)
    ensures Number(hex) == archive + HEADER_ENTRY_SIZE
  {
    FitsSixteenDigits(archive + HEADER_ENTRY_SIZE);
    EvenHex(archive + HEADER_ENTRY_SIZE)
  }

  function EvenHex(n: nat): (hex: string)
    ensures |hex| == |Hex(n)| + |Hex(n)| % 2
    ensures forall c :: c in hex ==> IsHexDigit(c)
    ensures Number(hex) == n
  {
    HexRoundTrip(n);
    LeadingZero(Hex(n));
    if |Hex(n)| % 2 == 1 then "0" + Hex(n) else Hex(n)
  }

  lemma {:induction false} FitsSixteenDigits(n: nat)
    requires n < 0x1_0000_0000_0000_0000
    ensures |Hex(n)| <= 16
  {
    SixteenDigits();
    hide Power16, Hex;
    HexLength(n, 16);
  }

  /** What the system knows about itself and about one dump. */
  datatype Facts = Facts(model: string, serial: string, id: string, date: string, archive: FileSize) {
    /** The widths the header format is made for. */
    predicate Regular() {
      |model| == 8 && |serial| == 7 && |id| <= 8 && |date| == 14
    }
  }

  function FileEntryFront(): (front: string)
    ensures |front| == 24 && front[8] == NUL && front[9] == 0x40 as char
  {
    "FILE    " + [NUL, 0x40 as char] + Repeat(NUL, 11) + [1 as char, NUL, 0x0F as char]
  }

  function FileEntry(f: Facts): string {
    FileEntryFront() + ("BMPDUMP." + f.serial + ".") + IdField(f.id) + "." + f.date + [NUL]
  }

  function SectionEntryFront(): (front: string)
    ensures |front| == 24 && front[8] == NUL && front[9] == 0x30 as char
  {
    "SECTION " + [NUL, 0x30 as char] + Repeat(NUL, 9) + [1 as char, NUL, 2 as char] + Repeat(NUL, 2)
  }

  function SectionEntry(f: Facts): string {
    SectionEntryFront() + SizeField(f.archive) + "BMCDUMP" + Repeat(NUL, 9)
  }

  function DumpHeaderFront(): (front: string)
    ensures |front| == 24 && front[22] == 2 as char && front[23] == NUL
  {
    "BMC DUMP" + Repeat(NUL, 12) + [2 as char, 0x10 as char, 2 as char, NUL]
  }

  function SystemNames(f: Facts): string {
    f.model + Repeat(NUL, 24) + ("Server-" + f.model + "-SN-" + f.serial) + Repeat(NUL, 7) + f.serial
  }

  function DumpHeaderBack(): (back: string)
    ensures |back| == 408 && back[4] == NUL && back[5] == 0x70 as char
  {
    Repeat(NUL, 5) + [0x70 as char] + Repeat(NUL, 402)
  }

  function DumpHeader(f: Facts): string {
    DumpHeaderFront() + SizeField(f.archive) + SystemNames(f) + DumpHeaderBack()
  }

  function DumpEntry(): string {
    [1 as char, 1 as char] + Repeat(NUL, 2)
  }

  /**
   The file entry is as long as its size bytes say exactly when serial number, id field and time stamp
   have 29 characters together; for a regular serial number and time stamp, when the id has at most
   eight digits.
   */
  lemma {:induction false} FileEntrySize(f: Facts)
    ensures BigEndian(FileEntry(f)[8..10]) == 0x40
    ensures |FileEntry(f)| == BigEndian(FileEntry(f)[8..10]) <==> |f.serial| + |IdField(f.id)| + |f.date| == 29
    ensures |f.serial| == 7 && |f.date| == 14 ==>
              (|FileEntry(f)| == BigEndian(FileEntry(f)[8..10]) <==> |f.id| <= 8)
  {
    hide FileEntryFront;
    TwoBytes(FileEntry(f), 8);
  }

  lemma {:induction false} TwoBytes(bytes: string, i: nat)
    requires i + 2 <= |bytes|
    ensures BigEndian(bytes[i..i + 2]) == 256 * bytes[i] as nat + bytes[i + 1] as nat
  {
    assert bytes[i..i + 2][..1] == [bytes[i]] && [bytes[i]][..0] == "";
    assert BigEndian([bytes[i]]) == bytes[i] as nat;
  }

  /** A field of the beginning of an entry. */
  lemma {:induction false} FieldInFront(front: string, rest: string, i: nat, j: nat)
    requires i <= j <= |front|
    ensures (front + rest)[i..j] == front[i..j]
  {
  }

  lemma {:induction false} FileEntryFrontLayout()
    ensures var e := FileEntryFront();
            && e[..8] == "FILE    " && BigEndian(e[8..10]) == 0x40 && e[10..20] == Repeat(NUL, 10)
            && BigEndian(e[20..22]) == 1 && BigEndian(e[22..24]) == 0xF
  {
    var e := FileEntryFront();
    TwoBytes(e, 8);
    TwoBytes(e, 20);
    TwoBytes(e, 22);
  }

  lemma {:induction false} FileEntryLayout(f: Facts)
    requires f.Regular()
    ensures var e := FileEntry(f);
            && |e| == 0x40
            && e[..8] == "FILE    " && BigEndian(e[8..10]) == 0x40 && e[10..20] == Repeat(NUL, 10)
            && BigEndian(e[20..22]) == 1 && BigEndian(e[22..24]) == 0xF && e[24..32] == "BMPDUMP."
            && e[39] == '.' && e[48] == '.' && e[63] == NUL
            && e[32..39] == f.serial && e[40..48] == IdField(f.id) && e[49..63] == f.date
  {
    FileEntryFrontLayout();
    IdFieldFits(f.id);
    hide FileEntryFront, IdField, BigEndian;
    var front := FileEntryFront();
    var names := "BMPDUMP." + f.serial + "." + IdField(f.id) + "." + f.date + [NUL];
    assert FileEntry(f) == front + names;
    FieldInFront(front, names, 0, 8);
    FieldInFront(front, names, 8, 10);
    FieldInFront(front, names, 10, 20);
    FieldInFront(front, names, 20, 22);
    FieldInFront(front, names, 22, 24);
    assert FileEntry(f) == front + "BMPDUMP." + (f.serial + "." + IdField(f.id) + "." + f.date + [NUL]);
  }

  lemma {:induction false} SectionEntryFrontLayout()
    ensures var e := SectionEntryFront();
            && e[..8] == "SECTION " && BigEndian(e[8..10]) == 0x30 && e[10..16] == Repeat(NUL, 6)
            && BigEndian(e[16..20]) == 1 && BigEndian(e[20..22]) == 2 && e[22..24] == Repeat(NUL, 2)
  {
    var e := SectionEntryFront();
    TwoBytes(e, 8);
    TwoBytes(e, 20);
    LeadingNulls(3, e[19..20]);
    assert e[16..20] == Repeat(NUL, 3) + e[19..20];
    assert e[19..20][..0] == "";
  }

  /** The section entry holds its own size, flags and type, and the size of the whole dump. */
  lemma {:induction false} SectionEntryLayout(f: Facts)
    ensures var e := SectionEntry(f);
            && |e| == 0x30
            && e[..8] == "SECTION " && BigEndian(e[8..10]) == |e| && e[10..16] == Repeat(NUL, 6)
            && BigEndian(e[16..20]) == 1 && BigEndian(e[20..22]) == 2 && e[22..24] == Repeat(NUL, 2)
            && e[32..39] == "BMCDUMP" && e[39..] == Repeat(NUL, 9)
            && e[24..32] == SizeField(f.archive)
            && (f.Regular() ==> BigEndian(e[24..32]) == f.archive + |DumpHeader(f)| + |DumpEntry()|)
  {
    SectionEntryFrontLayout();
    hide SectionEntryFront, BigEndian;
    var front := SectionEntryFront();
    var rest := SizeField(f.archive) + "BMCDUMP" + Repeat(NUL, 9);
    assert SectionEntry(f) == front + rest;
    FieldInFront(front, rest, 0, 8);
    FieldInFront(front, rest, 8, 10);
    FieldInFront(front, rest, 10, 16);
    FieldInFront(front, rest, 16, 20);
    FieldInFront(front, rest, 20, 22);
    FieldInFront(front, rest, 22, 24);
  }

  /** The header is as long as its size bytes say exactly when model and serial number have 15 characters together. */
  lemma {:induction false} DumpHeaderSize(f: Facts)
    ensures BigEndian(DumpHeader(f)[22..24]) == 0x200
    ensures |DumpHeader(f)| == BigEndian(DumpHeader(f)[22..24]) <==> |f.model| + |f.serial| == 15
  {
    TwoBytes(DumpHeader(f), 22);
  }

  lemma {:induction false} DumpHeaderFrontLayout()
    ensures var h := DumpHeaderFront();
            h[..8] == "BMC DUMP" && h[8..20] == Repeat(NUL, 12) && BigEndian(h[20..22]) == 0x210
  {
    TwoBytes(DumpHeaderFront(), 20);
  }

  lemma {:induction false} NamesLayout(f: Facts)
    requires f.Regular()
    ensures var names := SystemNames(f);
            && |names| == 72 && names[..8] == f.model && names[8..32] == Repeat(NUL, 24)
            && names[32..58] == "Server-" + f.model + "-SN-" + f.serial
            && names[58..65] == Repeat(NUL, 7) && names[65..72] == f.serial
  {
  }

  /**
   Where the fields of a regular header are. The format puts the serial number at offset 96, but the
   system name before it takes 33 bytes instead of 32: the serial number starts one byte late.
   */
  lemma {:induction false} DumpHeaderLayout(f: Facts)
    requires f.Regular()
    ensures var h := DumpHeader(f);
            && |h| == 0x200
            && h[..8] == "BMC DUMP" && h[8..20] == Repeat(NUL, 12) && BigEndian(h[20..22]) == 0x210
            && h[40..64] == Repeat(NUL, 24) && h[64..90] == "Server-" + f.model + "-SN-" + f.serial
            && h[90..97] == Repeat(NUL, 7) && h[104..108] == Repeat(NUL, 4) && h[110..] == Repeat(NUL, 402)
            && h[24..32] == SizeField(f.archive)
            && h[32..40] == f.model
            && h[97..104] == f.serial && h[96] == NUL
            && BigEndian(h[108..110]) == 0x70
  {
    DumpHeaderFrontLayout();
    assert DumpHeaderBack()[..4] == Repeat(NUL, 4) && DumpHeaderBack()[6..] == Repeat(NUL, 402);
    hide DumpHeaderFront, DumpHeaderBack, BigEndian;
    var h, front, names, back := DumpHeader(f), DumpHeaderFront(), SystemNames(f), DumpHeaderBack();
    var rest := SizeField(f.archive) + names + back;
    assert h == front + rest;
    FieldInFront(front, rest, 0, 8);
    FieldInFront(front, rest, 8, 20);
    FieldInFront(front, rest, 20, 22);
    NamesLayout(f);
    hide SystemNames;
    assert h[32..104] == names;
    assert names[8..32] == h[40..64] && names[32..58] == h[64..90] && names[58..65] == h[90..97];
    assert names[65..72] == h[97..104] && names[..8] == h[32..40];
    assert h[104..] == back && h[104..108] == back[..4] && h[110..] == back[6..];
    assert h[96] == h[90..97][6];
    assert h[108] == back[4] && h[109] == back[5];
    TwoBytes(h, 108);
  }

  /** The file the header is written to. */
  class HeaderFile {
    var file: string

    constructor ()
      ensures file == ""
    {
      file := "";
    }

    method Print(s: string)
      modifies this
      ensures file == old(file) + s
    {
      file := file + s;
    }

    /** add_null. */
    method AddNull(n: int)
      modifies this
      ensures file == old(file) + Repeat(NUL, Width(n))
    {
      Print(Repeat(NUL, Width(n)));
    }

    /** dump_size. */
    method WriteDumpSize(archive: FileSize)
      modifies this
      ensures file == old(file) + SizeField(archive)
    {
      var sizeDump := archive + HEADER_ENTRY_SIZE;
      ghost var digits := SizeDigits(archive);
      var hex := Hex(sizeDump);
      if |hex| % 2 == 1 {
        hex := "0" + hex;
      }
      assert hex == digits;
      AddNull(8 - |hex| / 2);
      WriteEscapes(hex);
    }

    /** The loop of dump_size over pairs of digits. */
    method WriteEscapes(hex: string)
      requires |hex| % 2 == 0 && forall c :: c in hex ==> IsHexDigit(c)
      modifies this
      ensures file == old(file) + Pack(hex)
    {
      var i := 0;
      assert hex[..0] == "";
      while i < |hex|
        invariant i % 2 == 0 && 0 <= i <= |hex|
        invariant file == old(file) + Pack(hex[..i])
      {
        PackNext(hex, i);
        Print([HexByte(hex[i], hex[i + 1])]);
        i := i + 2;
      }
      assert hex[..i] == hex;
    }

    /** get_dump_id. */
    method WriteDumpId(id: string)
      modifies this
      ensures file == old(file) + IdField(id)
    {
      Print(Repeat('0', Width(8 - |id|)));
      Print(id);
    }

    method PrintByte(b: nat)
      requires b < 256
      modifies this
      ensures file == old(file) + [b as char]
    {
      Print([b as char]);
    }

    /** The constant beginning of dump_file_entry. */
    method WriteFileEntryFront()
      modifies this
      ensures file == old(file) + FileEntryFront()
    {
      Print("FILE    ");
      AddNull(1);
      PrintByte(0x40);
      AddNull(11);
      PrintByte(1);
      AddNull(1);
      PrintByte(0x0F);
    }

    /** dump_file_entry. */
    method WriteFileEntry(f: Facts)
      modifies this
      ensures file == old(file) + FileEntry(f)
    {
      hide FileEntryFront, IdField, Repeat;
      WriteFileEntryFront();
      Print("BMPDUMP." + f.serial + ".");
      WriteDumpId(f.id);
      Print(".");
      Print(f.date);
      AddNull(1);
    }

    /** The constant beginning of dump_section_entry. */
    method WriteSectionEntryFront()
      modifies this
      ensures file == old(file) + SectionEntryFront()
    {
      Print("SECTION ");
      AddNull(1);
      PrintByte(0x30);
      AddNull(9);
      PrintByte(1);
      AddNull(1);
      PrintByte(2);
      AddNull(2);
    }

    /** dump_section_entry. */
    method WriteSectionEntry(f: Facts)
      modifies this
      ensures file == old(file) + SectionEntry(f)
    {
      hide SectionEntryFront, SizeField, Repeat;
      WriteSectionEntryFront();
      WriteDumpSize(f.archive);
      Print("BMCDUMP");
      AddNull(9);
    }

    /** The constant beginning of dump_header. */
    method WriteDumpHeaderFront()
      modifies this
      ensures file == old(file) + DumpHeaderFront()
    {
      Print("BMC DUMP");
      AddNull(8);
      AddNull(4);
      PrintByte(2);
      PrintByte(0x10);
      PrintByte(2);
      AddNull(1);
    }

    /** dump_header. */
    method WriteDumpHeader(f: Facts)
      modifies this
      ensures file == old(file) + DumpHeader(f)
    {
      hide DumpHeaderFront, DumpHeaderBack, SystemNames, SizeField, Repeat;
      WriteDumpHeaderFront();
      WriteDumpSize(f.archive);
      WriteSystemNames(f);
      WriteRest();
    }

    /** The middle part of dump_header. */
    method WriteSystemNames(f: Facts)
      modifies this
      ensures file == old(file) + SystemNames(f)
    {
      Print(f.model);
      AddNull(24);
      Print("Server-" + f.model + "-SN-" + f.serial);
      AddNull(7);
      Print(f.serial);
    }

    /** The last part of dump_header. */
    method WriteRest()
      modifies this
      ensures file == old(file) + DumpHeaderBack()
    {
      AddNull(1);
      AddNull(4);
      PrintByte(0x70);
      AddNull(2);
      AddNull(356);
      AddNull(4);
      AddNull(32);
      AddNull(8);
    }

    /** dump_entry. */
    method WriteDumpEntry()
      modifies this
      ensures file == old(file) + DumpEntry()
    {
      Print([1 as char]);
      Print([1 as char]);
      AddNull(2);
    }

    /** gen_header_package. */
    method WritePackage(f: Facts)
      modifies this
      ensures file == old(file) + FileEntry(f) + SectionEntry(f) + DumpHeader(f) + DumpEntry()
      ensures f.Regular() ==> |file| == |old(file)| + 0x40 + 0x30 + HEADER_ENTRY_SIZE
    {
      WriteFileEntry(f);
      WriteSectionEntry(f);
      WriteDumpHeader(f);
      WriteDumpEntry();
    }
  }
}
