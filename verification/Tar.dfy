/**
  The ustar archives that `tar` writes and reads (POSIX pax utility, "ustar Interchange Format").
  Names and link targets are byte strings.
 */
module Tar {
  import opened Bits
  import opened Division
  import opened Numerals
  import opened Wrappers

  const BLOCK: nat := 512
  const BLOCKING: nat := 20 * BLOCK
  const SLASH: Byte := 47
  const SPACE: Byte := 32
  const U64_MAX: nat := 0xFFFF_FFFF_FFFF_FFFF

  type Bytes = seq<Byte>

  function Zeros(n: nat): (r: Bytes)
    ensures |r| == n
  {
    seq(n, _ => 0)
  }

  function Ascii(s: string): (r: Bytes)
    ensures |r| == |s|
  {
    seq(|s|, k requires 0 <= k < |s| => (s[k] as int) % 256)
  }

  /** The lossy decoding of a numeric field: a byte outside ASCII becomes a character that is no digit. */
  function Decoded(b: Bytes): (r: string)
    ensures |r| == |b|
  {
    seq(|b|, k requires 0 <= k < |b| => if b[k] < 128 then b[k] as char else '\U{FFFD}')
  }

  function NextMultiple(n: nat, m: nat): nat
    requires m > 0
  {
    if n % m == 0 then n else n + (m - n % m)
  }

  // ---- Fields --------------------------------------------------------------------------------------

  /** The byte at `k` of a NUL-padded field. */
  function Padded(bytes: Bytes, k: nat): Byte {
    if k < |bytes| then bytes[k] else 0
  }

  function Field(bytes: Bytes, width: nat): (r: Bytes)
    ensures |r| == width
  {
    seq(width, k requires 0 <= k < width => Padded(bytes, k))
  }

  /** Copy `bytes` into a header field, cut to the width. */
  method Put(header: array<Byte>, at: nat, width: nat, bytes: Bytes)
    requires header.Length == BLOCK && at + width <= BLOCK
    modifies header
    ensures forall k :: 0 <= k < BLOCK ==>
      header[k] == if at <= k < at + width && k - at < |bytes| then bytes[k - at] else old(header[k])
  {
    var n := if |bytes| <= width then |bytes| else width;
    forall k | 0 <= k < n {
      header[at + k] := bytes[k];
    }
  }

  /** Zero-padded octal digits, at least `width` of them. */
  function OctalDigits(value: nat, width: nat): string {
    var s := Printed(value, 8);
    seq(if |s| < width then width - |s| else 0, _ => '0') + s
  }

  /** A numeric field: digits cut to the width, then a NUL. */
  function Octal(value: nat, width: nat): (r: Bytes)
    requires width > 0
    ensures |r| <= width - 1
  {
    var digits := Ascii(OctalDigits(value, width - 1));
    if |digits| <= width - 1 then digits else digits[..width - 1]
  }

  predicate Trimmed(c: char) {
    c == '\0' || c == ' '
  }

  function TrimStart(s: string): string {
    if s != "" && Trimmed(s[0]) then TrimStart(s[1..]) else s
  }

  function TrimEnd(s: string): string {
    if s != "" && Trimmed(s[|s| - 1]) then TrimEnd(s[..|s| - 1]) else s
  }

  function ReadOctal(field: Bytes): nat {
    ParseUnsigned(TrimEnd(TrimStart(Decoded(field))), 8, U64_MAX).GetOr(0)
  }

  function ReadStr(field: Bytes): Bytes {
    if field == [] || field[0] == 0 then [] else [field[0]] + ReadStr(field[1..])
  }

  lemma {:induction false} ReadStrOf(bytes: Bytes, width: nat)
    requires |bytes| <= width && 0 !in bytes
    ensures ReadStr(Field(bytes, width)) == bytes
  {
    if width > 0 {
      assert Field(bytes, width)[1..] == Field(if bytes == [] then [] else bytes[1..], width - 1);
      if bytes != [] {
        ReadStrOf(bytes[1..], width - 1);
        assert bytes == [bytes[0]] + bytes[1..];
      }
    }
  }

  lemma {:induction false} ReadStrIsClean(field: Bytes)
    ensures |ReadStr(field)| <= |field| && 0 !in ReadStr(field)
  {
    if field != [] && field[0] != 0 {
      ReadStrIsClean(field[1..]);
    }
  }

  function Pow8(w: nat): nat {
    if w == 0 then 1 else 8 * Pow8(w - 1)
  }

  lemma {:induction false} PrintedFits(v: nat, w: nat)
    requires w > 0 && v < Pow8(w)
    ensures |Printed(v, 8)| <= w
  {
    if v >= 8 {
      assert Pow8(w) == 8 * Pow8(w - 1);
      PrintedFits(v / 8, w - 1);
    }
  }

  lemma {:induction false} LeadingZeros(n: nat, s: string)
    requires AllDigits(s, 8)
    ensures AllDigits(seq(n, _ => '0') + s, 8) && ValueOf(seq(n, _ => '0') + s, 8) == ValueOf(s, 8)
  {
    hide IsDigit, DigitValue, Shifted;
    var z := seq(n, _ => '0');
    if s == "" {
      assert z + s == z;
      OnlyZeros(n);
    } else {
      var last := |s| - 1;
      assert AllDigits(s[..last], 8);
      LeadingZeros(n, s[..last]);
      assert s == s[..last] + [s[last]];
      assert z + s == (z + s[..last]) + [s[last]];
      PushDigit(z + s[..last], s[last], 8);
      PushDigit(s[..last], s[last], 8);
    }
  }

  lemma {:induction false} OnlyZeros(n: nat)
    ensures AllDigits(seq(n, _ => '0'), 8) && ValueOf(seq(n, _ => '0'), 8) == 0
  {
    hide Shifted;
    if n > 0 {
      ShiftNothing(8, 0);
      OnlyZeros(n - 1);
      assert seq(n, _ => '0') == seq(n - 1, _ => '0') + ['0'];
      PushDigit(seq(n - 1, _ => '0'), '0', 8);
    }
  }

  lemma OctalDigitsRead(v: nat, w: nat)
    requires w > 0 && v < Pow8(w)
    ensures |OctalDigits(v, w)| == w && AllDigits(OctalDigits(v, w), 8) && ValueOf(OctalDigits(v, w), 8) == v
  {
    PrintedFits(v, w);
    PrintedReads(v, 8);
    hide Printed;
    LeadingZeros(w - |Printed(v, 8)|, Printed(v, 8));
  }

  /** A number that fits a field is read back from it. */
  lemma ReadOctalOf(v: nat, w: nat)
    requires w > 1 && v < Pow8(w - 1) && v <= U64_MAX
    ensures |Octal(v, w)| == w - 1 && ReadOctal(Field(Octal(v, w), w)) == v
  {
    var digits := OctalDigits(v, w - 1);
    OctalDigitsRead(v, w - 1);
    hide OctalDigits, ValueOf, Pow8;
    DigitsSurviveDecoding(digits, w);
    DigitsSurviveTrimming(digits);
    assert digits[0] != '+' by {
      assert IsDigit(digits[0], 8);
    }
  }

  lemma DigitsSurviveDecoding(digits: string, w: nat)
    requires |digits| + 1 == w && AllDigits(digits, 8)
    ensures Decoded(Field(Ascii(digits), w)) == digits + ['\0']
  {
    forall k | 0 <= k < |digits| ensures Decoded(Field(Ascii(digits), w))[k] == digits[k] {
      assert IsDigit(digits[k], 8);
    }
  }

  lemma DigitsSurviveTrimming(digits: string)
    requires digits != "" && AllDigits(digits, 8)
    ensures TrimEnd(TrimStart(digits + ['\0'])) == digits
  {
    assert IsDigit(digits[0], 8) && IsDigit(digits[|digits| - 1], 8);
    assert (digits + ['\0'])[..|digits|] == digits;
    assert TrimEnd(digits) == digits;
  }

  // ---- Member names ----------------------------------------------------------------------------------

  /** The first slash at or after `i` that leaves at most 155 bytes before it and 100 after. */
  function SplitPoint(name: Bytes, i: nat): Option<nat>
    requires i <= |name|
    decreases |name| - i
  {
    if i == |name| then None
    else if name[i] == SLASH && i <= 155 && |name| - i - 1 <= 100 then Some(i)
    else SplitPoint(name, i + 1)
  }

  datatype NameFields = NameFields(prefix: Bytes, stem: Bytes)

  /** `tar_split_name`. */
  function SplitName(name: Bytes): NameFields {
    if |name| <= 100 then NameFields([], name)
    else
      match SplitPoint(name, 0)
      case Some(i) => (SplitPointIs(name, 0); NameFields(name[..i], name[i + 1..]))
      case None => NameFields([], name)
  }

  lemma {:induction false} SplitPointIs(name: Bytes, i: nat)
    requires i <= |name|
    ensures SplitPoint(name, i).Some? ==>
      var j := SplitPoint(name, i).value; i <= j < |name| && name[j] == SLASH && j <= 155 && |name| - j - 1 <= 100
    decreases |name| - i
  {
    if i < |name| {
      SplitPointIs(name, i + 1);
    }
  }

  /** The name as `tar_parse` puts it together. */
  function JoinName(f: NameFields): Bytes {
    if f.prefix == [] then f.stem else f.prefix + [SLASH] + f.stem
  }

  function StoredName(name: Bytes): NameFields {
    var f := SplitName(name);
    NameFields(ReadStr(Field(f.prefix, 155)), ReadStr(Field(f.stem, 100)))
  }

  /** No NUL, and at most 100 bytes or a slash to split at that is not the first byte. */
  predicate NameFits(name: Bytes) {
    && 0 !in name
    && (|name| > 100 ==> SplitPoint(name, 0).Some? && SplitPoint(name, 0).value > 0)
  }

  /** A name comes back from an archive exactly when it fits: a NUL ends a field, a name that cannot be split is
      cut, and one of 101 bytes that starts with a slash loses it, since an empty prefix reads as none. */
  lemma NameComesBackIff(name: Bytes)
    ensures JoinName(StoredName(name)) == name <==> NameFits(name)
  {
    hide SplitPoint;
    SplitPointIs(name, 0);
    var f := SplitName(name);
    ReadStrIsClean(Field(f.prefix, 155));
    ReadStrIsClean(Field(f.stem, 100));
    if 0 !in name {
      if |f.prefix| <= 155 {
        ReadStrOf(f.prefix, 155);
      }
      if |f.stem| <= 100 {
        ReadStrOf(f.stem, 100);
      }
      if f.prefix != [] {
        assert f.prefix + [SLASH] + f.stem == name;
      }
    } else {
      assert 0 !in JoinName(StoredName(name));
    }
  }

  /** A leading slash and a hundred bytes: only the hundred bytes come back. */
  lemma SlashIsLost()
    ensures var stem := seq(100, _ => 97 as Byte); JoinName(StoredName([SLASH] + stem)) != [SLASH] + stem
  {
    var name := [SLASH] + seq(100, _ => 97 as Byte);
    assert SplitPoint(name, 0) == Some(0);
    NameComesBackIff(name);
  }

  // ---- Headers -----------------------------------------------------------------------------------------

  datatype Member = Member(name: Bytes, link: Bytes, mode: nat, uid: nat, gid: nat, mtime: int, typeflag: Byte,
                           uname: Bytes, gname: Bytes, body: Bytes)

  function MtimeField(m: Member): nat {
    if m.mtime > 0 then m.mtime else 0
  }

  const MAGIC: Bytes := [117, 115, 116, 97, 114, 0, 48, 48]  // "ustar\0" "00"

  /** The header with its checksum field read as spaces, byte by byte. */
  function BlankByte(m: Member, k: nat): Byte
    requires k < BLOCK
  {
    if k < 100 then Padded(SplitName(m.name).stem, k)
    else if k < 108 then Padded(Octal(m.mode % 4096, 8), k - 100)
    else if k < 116 then Padded(Octal(m.uid, 8), k - 108)
    else if k < 124 then Padded(Octal(m.gid, 8), k - 116)
    else if k < 136 then Padded(Octal(|m.body|, 12), k - 124)
    else if k < 148 then Padded(Octal(MtimeField(m), 12), k - 136)
    else if k < 156 then SPACE
    else if k == 156 then m.typeflag
    else if k < 257 then Padded(m.link, k - 157)
    else if k < 265 then MAGIC[k - 257]
    else if k < 297 then Padded(m.uname, k - 265)
    else if k < 329 then Padded(m.gname, k - 297)
    else if 345 <= k < 500 then Padded(SplitName(m.name).prefix, k - 345)
    else 0
  }

  function BlankHeader(m: Member): (h: Bytes)
    ensures |h| == BLOCK
  {
    seq(BLOCK, k requires 0 <= k < BLOCK => BlankByte(m, k))
  }

  function Sum(b: Bytes): nat {
    if b == [] then 0 else Sum(b[..|b| - 1]) + b[|b| - 1]
  }

  /** Six octal digits, a NUL and a space. */
  function Checksum(sum: nat): Bytes {
    Ascii(OctalDigits(sum, 6)) + [0, SPACE]
  }

  lemma {:induction false} SumFits(b: Bytes)
    ensures Sum(b) <= 255 * |b|
  {
    if b != [] {
      SumFits(b[..|b| - 1]);
    }
  }

  /** The sum of a header always fits its six digits. */
  lemma ChecksumFits(m: Member)
    ensures Sum(BlankHeader(m)) < Pow8(6)
    ensures |Checksum(Sum(BlankHeader(m)))| == 8
    ensures AllDigits(OctalDigits(Sum(BlankHeader(m)), 6), 8)
    ensures ValueOf(OctalDigits(Sum(BlankHeader(m)), 6), 8) == Sum(BlankHeader(m))
  {
    SumFits(BlankHeader(m));
    assert Pow8(3) == 512;
    assert Pow8(6) == 0x4_0000;
    hide BlankHeader, OctalDigits;
    OctalDigitsRead(Sum(BlankHeader(m)), 6);
  }

  function Header(m: Member): (h: Bytes)
    ensures |h| == BLOCK
  {
    ChecksumFits(m);
    var blank := BlankHeader(m);
    blank[..148] + Checksum(Sum(blank)) + blank[156..]
  }

  /** The buffer holds the header up to `upTo`, and zeros from there on. */
  ghost predicate FilledTo(h: array<Byte>, m: Member, upTo: nat)
    reads h
  {
    h.Length == BLOCK && forall k :: 0 <= k < BLOCK ==> h[k] == if k < upTo then BlankByte(m, k) else 0
  }

  method PutField(h: array<Byte>, m: Member, at: nat, width: nat, bytes: Bytes, ghost next: nat)
    requires at + width <= next <= BLOCK && FilledTo(h, m, at)
    requires forall k :: at <= k < next ==> BlankByte(m, k) == if k < at + width then Padded(bytes, k - at) else 0
    modifies h
    ensures FilledTo(h, m, next)
  {
    hide BlankByte;
    Put(h, at, width, bytes);
  }

  /** The fields of a zeroed record, the checksum as spaces. */
  method PutFields(m: Member) returns (h: array<Byte>)
    ensures fresh(h) && h.Length == BLOCK && h[..] == BlankHeader(m)
  {
    hide Octal, SplitName;
    h := new Byte[BLOCK](_ => 0);
    var f := SplitName(m.name);
    PutField(h, m, 0, 100, f.stem, 100);
    PutField(h, m, 100, 8, Octal(m.mode % 4096, 8), 108);
    PutField(h, m, 108, 8, Octal(m.uid, 8), 116);
    PutField(h, m, 116, 8, Octal(m.gid, 8), 124);
    PutField(h, m, 124, 12, Octal(|m.body|, 12), 136);
    PutField(h, m, 136, 12, Octal(MtimeField(m), 12), 148);
    PutField(h, m, 148, 8, [SPACE, SPACE, SPACE, SPACE, SPACE, SPACE, SPACE, SPACE], 156);
    PutField(h, m, 156, 1, [m.typeflag], 157);
    PutField(h, m, 157, 100, m.link, 257);
    PutField(h, m, 257, 8, MAGIC, 265);
    PutField(h, m, 265, 32, m.uname, 297);
    PutField(h, m, 297, 32, m.gname, 345);
    PutField(h, m, 345, 155, f.prefix, BLOCK);
    hide BlankByte;
    assert h[..] == BlankHeader(m);
  }

  /** `tar_write_header`: fill the fields, sum the record with the checksum read as spaces, and write the sum
      in. */
  method WriteHeader(m: Member, out: Bytes) returns (r: Bytes)
    ensures r == out + Header(m)
  {
    hide BlankHeader, OctalDigits, Sum;
    var h := PutFields(m);
    var sum := Sum(h[..]);
    ChecksumFits(m);
    Put(h, 148, 8, Checksum(sum));
    ghost var blank := BlankHeader(m);
    assert h[..] == blank[..148] + Checksum(Sum(blank)) + blank[156..];
    r := out + h[..];
  }

  // ---- Archives ------------------------------------------------------------------------------------------

  /** The record or records of one member: header, contents, and zeros up to a whole record. */
  function Record(m: Member): Bytes {
    Header(m) + m.body + Zeros(NextMultiple(|m.body|, BLOCK) - |m.body|)
  }

  function Records(ms: seq<Member>): Bytes {
    if ms == [] then [] else Records(ms[..|ms| - 1]) + Record(ms[|ms| - 1])
  }

  /** The records, the end marker, and zeros up to the blocking factor. */
  function Archive(ms: seq<Member>): Bytes {
    var bytes := Records(ms) + Zeros(2 * BLOCK);
    bytes + Zeros(NextMultiple(|bytes|, BLOCKING) - |bytes|)
  }

  /** `Vec::resize` with zeros, to a length not below the current one. */
  method Resize(bytes: Bytes, len: nat) returns (r: Bytes)
    requires len >= |bytes|
    ensures r == bytes + Zeros(len - |bytes|)
  {
    r := bytes + seq(len - |bytes|, _ => 0);
  }

  method Write(ms: seq<Member>) returns (bytes: Bytes)
    ensures bytes == Archive(ms)
  {
    hide Header;
    bytes := [];
    for k := 0 to |ms|
      invariant bytes == Records(ms[..k])
    {
      bytes := WriteHeader(ms[k], bytes);
      bytes := bytes + ms[k].body;
      bytes := Resize(bytes, |bytes| + (NextMultiple(|ms[k].body|, BLOCK) - |ms[k].body|));
      assert ms[..k + 1][..k] == ms[..k];
      ConcatAssoc(Records(ms[..k]), Header(ms[k]), ms[k].body);
      ConcatAssoc(Records(ms[..k]), Header(ms[k]) + ms[k].body, Zeros(NextMultiple(|ms[k].body|, BLOCK) - |ms[k].body|));
    }
    assert ms[..|ms|] == ms;
    bytes := Resize(bytes, |bytes| + 2 * BLOCK);
    bytes := Resize(bytes, NextMultiple(|bytes|, BLOCKING));
  }

  /** A written archive is a whole number of blocking units. */
  lemma ArchiveIsBlocked(ms: seq<Member>)
    ensures |Archive(ms)| % BLOCKING == 0
  {
    hide Records;
    MultipleIsMultiple(|Records(ms)| + 2 * BLOCK, BLOCKING);
  }

  lemma MultipleIsMultiple(n: nat, m: nat)
    requires m > 0
    ensures n <= NextMultiple(n, m) < n + m && NextMultiple(n, m) % m == 0
  {
    QuotientAndRemainder(n, m);
    if n % m != 0 {
      assert n + (m - n % m) == m * (n / m + 1);
      QuotientIsUnique(n + (m - n % m), m, n / m + 1, 0);
    }
  }

  // ---- Reading ---------------------------------------------------------------------------------------------

  datatype Entry = Entry(name: Bytes, mode: nat, uid: nat, gid: nat, size: nat, mtime: nat, typeflag: Byte, link: Bytes, offset: nat)

  predicate IsUstar(h: Bytes)
    requires |h| >= 262
  {
    h[257..262] == MAGIC[..5]
  }

  predicate AllZero(h: Bytes) {
    forall k :: 0 <= k < |h| ==> h[k] == 0
  }

  function ReadEntry(h: Bytes, offset: nat): Entry
    requires |h| == BLOCK
  {
    Entry(JoinName(NameFields(ReadStr(h[345..500]), ReadStr(h[0..100]))),
          ReadOctal(h[100..108]) % 4096, ReadOctal(h[108..116]) % 0x1_0000_0000, ReadOctal(h[116..124]) % 0x1_0000_0000,
          ReadOctal(h[124..136]), ReadOctal(h[136..148]), h[156], ReadStr(h[157..257]), offset)
  }

  function ParsedFrom(data: Bytes, at: nat): seq<Entry>
    decreases if at <= |data| then |data| - at else 0
  {
    if at + BLOCK > |data| then []
    else
      var h := data[at..at + BLOCK];
      if AllZero(h) || !IsUstar(h) then []
      else
        var e := ReadEntry(h, at + BLOCK);
        [e] + ParsedFrom(data, at + BLOCK + NextMultiple(e.size, BLOCK))
  }

  function Parsed(data: Bytes): Option<seq<Entry>> {
    if |data| < BLOCK || !IsUstar(data) then None else Some(ParsedFrom(data, 0))
  }

  method Parse(data: Bytes) returns (r: Option<seq<Entry>>)
    ensures r == Parsed(data)
  {
    hide ReadEntry, IsUstar, AllZero, NextMultiple;
    if |data| < BLOCK || !IsUstar(data) {
      return None;
    }
    var entries: seq<Entry> := [];
    var at := 0;
    assert [] + ParsedFrom(data, 0) == ParsedFrom(data, 0);
    while at + BLOCK <= |data|
      invariant entries + ParsedFrom(data, at) == ParsedFrom(data, 0)
      decreases |data| - at
    {
      var h := data[at..at + BLOCK];
      if AllZero(h) || !IsUstar(h) {
        break;
      }
      var e := ReadEntry(h, at + BLOCK);
      var next := at + BLOCK + NextMultiple(e.size, BLOCK);
      ConcatAssoc(entries, [e], ParsedFrom(data, next));
      entries := entries + [e];
      at := next;
    }
    assert entries + [] == entries;
    return Some(entries);
  }

  // ---- The round trip ----------------------------------------------------------------------------------------

  /** Everything about the member fits the format. */
  ghost predicate Fits(m: Member) {
    && NameFits(m.name)
    && |m.link| <= 100 && 0 !in m.link
    && m.uid < Pow8(7) && m.gid < Pow8(7)
    && |m.body| < Pow8(11) && MtimeField(m) < Pow8(11)
  }

  /** What reading gives for a member whose contents start at `offset`. */
  function EntryOf(m: Member, offset: nat): Entry {
    Entry(m.name, m.mode % 4096, m.uid, m.gid, |m.body|, MtimeField(m), m.typeflag, m.link, offset)
  }

  lemma FieldOf(m: Member, at: nat, width: nat, bytes: Bytes)
    requires at + width <= BLOCK && (at + width <= 148 || at >= 156)
    requires forall k :: 0 <= k < width ==> BlankByte(m, at + k) == Padded(bytes, k)
    ensures Header(m)[at..at + width] == Field(bytes, width)
  {
    hide BlankByte, Checksum, Sum;
    ChecksumFits(m);
    forall k | 0 <= k < width ensures Header(m)[at + k] == Padded(bytes, k) {
      assert Header(m)[at + k] == BlankHeader(m)[at + k];
    }
  }

  lemma NumberOf(m: Member, at: nat, width: nat, v: nat)
    requires 1 < width && at + width <= 148 && v < Pow8(width - 1) && v <= U64_MAX
    requires forall k :: 0 <= k < width ==> BlankByte(m, at + k) == Padded(Octal(v, width), k)
    ensures ReadOctal(Header(m)[at..at + width]) == v
  {
    hide Header, Octal, ReadOctal, BlankByte, Pow8;
    FieldOf(m, at, width, Octal(v, width));
    ReadOctalOf(v, width);
  }

  lemma NumbersRead(m: Member)
    requires Fits(m)
    ensures var h := Header(m);
      && ReadOctal(h[100..108]) == m.mode % 4096 && ReadOctal(h[108..116]) == m.uid && ReadOctal(h[116..124]) == m.gid
      && ReadOctal(h[124..136]) == |m.body| && ReadOctal(h[136..148]) == MtimeField(m)
  {
    hide Header, Octal, ReadOctal, SplitName, NameFits;
    Widths();
    NumberOf(m, 100, 8, m.mode % 4096);
    NumberOf(m, 108, 8, m.uid);
    NumberOf(m, 116, 8, m.gid);
    NumberOf(m, 124, 12, |m.body|);
    NumberOf(m, 136, 12, MtimeField(m));
  }

  lemma FlagAndMagicRead(m: Member)
    ensures Header(m)[156] == m.typeflag && Header(m)[257..262] == MAGIC[..5]
  {
    hide Header, SplitName, Octal;
    FieldOf(m, 156, 1, [m.typeflag]);
    assert Header(m)[156..157][0] == m.typeflag;
    FieldOf(m, 257, 5, MAGIC[..5]);
    assert Field(MAGIC[..5], 5) == MAGIC[..5];
  }

  /** Where everything is in a header of 512 bytes (the ustar format of the POSIX pax utility). */
  lemma HeaderLayout(m: Member)
    ensures var h := Header(m);
      && |h| == 512
      && h[0..100] == Field(SplitName(m.name).stem, 100)
      && h[100..108] == Field(Octal(m.mode % 4096, 8), 8)
      && h[108..116] == Field(Octal(m.uid, 8), 8) && h[116..124] == Field(Octal(m.gid, 8), 8)
      && h[124..136] == Field(Octal(|m.body|, 12), 12)
      && h[136..148] == Field(Octal(MtimeField(m), 12), 12)
  {
    hide Header, Octal, SplitName, Field;
    FieldOf(m, 0, 100, SplitName(m.name).stem);
    FieldOf(m, 100, 8, Octal(m.mode % 4096, 8));
    FieldOf(m, 108, 8, Octal(m.uid, 8));
    FieldOf(m, 116, 8, Octal(m.gid, 8));
    FieldOf(m, 124, 12, Octal(|m.body|, 12));
    FieldOf(m, 136, 12, Octal(MtimeField(m), 12));
  }

  lemma HeaderLayoutBehind(m: Member)
    ensures var h := Header(m);
      && h[156] == m.typeflag
      && h[157..257] == Field(m.link, 100)
      && h[257..265] == [0x75, 0x73, 0x74, 0x61, 0x72, 0, 0x30, 0x30]
      && h[265..297] == Field(m.uname, 32) && h[297..329] == Field(m.gname, 32)
      && h[345..500] == Field(SplitName(m.name).prefix, 155)
  {
    hide Header, Octal, SplitName;
    FlagAndMagicRead(m);
    FieldOf(m, 157, 100, m.link);
    FieldOf(m, 257, 8, MAGIC);
    FieldOf(m, 265, 32, m.uname);
    FieldOf(m, 297, 32, m.gname);
    FieldOf(m, 345, 155, SplitName(m.name).prefix);
    assert Field(MAGIC, 8) == MAGIC;
  }

  /** The checksum is six octal digits, a NUL and a space, and they spell the sum of all other bytes with eight
      spaces for itself. */
  lemma ChecksumIs(m: Member)
    ensures var h := Header(m);
      && h[154] == 0 && h[155] == 32
      && exists digits :: |digits| == 6 && AllDigits(digits, 8) && h[148..154] == Ascii(digits)
           && ValueOf(digits, 8) == Sum(h[..148]) + 8 * 32 + Sum(h[156..])
  {
    hide BlankByte, OctalDigits, Sum;
    ChecksumFits(m);
    var blank := BlankHeader(m);
    var digits := OctalDigits(Sum(blank), 6);
    SpacesInBlank(m);
    assert blank == blank[..148] + [32, 32, 32, 32, 32, 32, 32, 32] + blank[156..];
    SumConcat(blank[..148], [32, 32, 32, 32, 32, 32, 32, 32]);
    SumConcat(blank[..148] + [32, 32, 32, 32, 32, 32, 32, 32], blank[156..]);
    SumOfSpaces();
    var h := Header(m);
    assert h[..148] == blank[..148] && h[156..] == blank[156..];
    assert h[148..156] == Checksum(Sum(blank));
    assert h[148..154] == h[148..156][..6] == Ascii(digits) && h[154] == h[148..156][6] && h[155] == h[148..156][7];
  }

  lemma SpacesInBlank(m: Member)
    ensures BlankHeader(m)[148..156] == [32, 32, 32, 32, 32, 32, 32, 32]
  {
    hide Octal, SplitName, Padded;
  }

  lemma SumOfSpaces()
    ensures Sum([32, 32, 32, 32, 32, 32, 32, 32]) == 256
  {
    hide Sum;
    SumOne(32);
    SumConcat([32], [32]);
    SumConcat([32, 32], [32, 32]);
    SumConcat([32, 32, 32, 32], [32, 32, 32, 32]);
    assert [32, 32, 32, 32] + [32, 32, 32, 32] == [32, 32, 32, 32, 32, 32, 32, 32];
    assert [32, 32] + [32, 32] == [32, 32, 32, 32] && [32] + [32] == [32, 32];
  }

  lemma SumOne(b: Byte)
    ensures Sum([b]) == b
  {
    assert [b][..0] == [];
  }

  lemma {:induction false} SumConcat(a: Bytes, b: Bytes)
    ensures Sum(a + b) == Sum(a) + Sum(b)
  {
    if b == [] {
      assert a + b == a;
    } else {
      var last := |b| - 1;
      SumConcat(a, b[..last]);
      assert (a + b)[..|a + b| - 1] == a + b[..last];
    }
  }

  /** A member takes its header and its body, filled up to a multiple of 512 bytes with zeros. */
  lemma RecordIs(m: Member)
    ensures var r := Record(m);
      && |r| % 512 == 0 && 512 + |m.body| <= |r| < 512 + |m.body| + 512
      && r[..512] == Header(m) && r[512..512 + |m.body|] == m.body
      && forall k :: 512 + |m.body| <= k < |r| ==> r[k] == 0
  {
    hide Header;
    QuotientAndRemainder(|m.body|, 512);
  }

  lemma HeaderReads(m: Member, offset: nat)
    requires Fits(m)
    ensures ReadEntry(Header(m), offset) == EntryOf(m, offset)
    ensures IsUstar(Header(m)) && !AllZero(Header(m))
  {
    hide Header, Octal, SplitName, ReadOctal, ReadStr, JoinName, NameFits, Pow8, Field;
    Widths();
    NumbersRead(m);
    FlagAndMagicRead(m);
    var f := SplitName(m.name);
    FieldOf(m, 345, 155, f.prefix);
    FieldOf(m, 0, 100, f.stem);
    FieldOf(m, 157, 100, m.link);
    NameComesBackIff(m.name);
    ReadStrOf(m.link, 100);
    assert Header(m)[257] == Header(m)[257..262][0] == 117;
  }

  lemma Widths()
    ensures Pow8(7) == 0x20_0000 && Pow8(11) == 0x2_0000_0000
  {
    assert Pow8(4) == 4096;
    assert Pow8(8) == 0x100_0000;
  }

  lemma {:induction false} RecordsConcat(a: seq<Member>, b: seq<Member>)
    ensures Records(a + b) == Records(a) + Records(b)
  {
    hide Record;
    if b == [] {
      assert a + b == a;
    } else {
      var last := |b| - 1;
      RecordsConcat(a, b[..last]);
      assert (a + b)[..|a + b| - 1] == a + b[..last];
      ConcatAssoc(Records(a), Records(b[..last]), Record(b[last]));
    }
  }

  function Start(ms: seq<Member>, k: nat): nat
    requires k <= |ms|
  {
    |Records(ms[..k])|
  }

  lemma RecordAt(ms: seq<Member>, k: nat, tail: Bytes)
    requires k < |ms|
    ensures var data := Records(ms) + tail;
      && Start(ms, k + 1) == Start(ms, k) + |Record(ms[k])| <= |Records(ms)|
      && data[Start(ms, k)..Start(ms, k + 1)] == Record(ms[k])
  {
    hide Record, Records;
    RecordsOneMore(ms, k);
    RecordsConcat(ms[..k + 1], ms[k + 1..]);
    assert ms == ms[..k + 1] + ms[k + 1..];
    InTheMiddle(Records(ms[..k]), Record(ms[k]), Records(ms[k + 1..]) + tail);
    ConcatAssoc(Records(ms[..k + 1]), Records(ms[k + 1..]), tail);
  }

  lemma RecordsOneMore(ms: seq<Member>, k: nat)
    requires k < |ms|
    ensures Records(ms[..k + 1]) == Records(ms[..k]) + Record(ms[k])
  {
    hide Record;
    assert ms[..k + 1][..k] == ms[..k];
  }

  lemma InTheMiddle(a: Bytes, b: Bytes, c: Bytes)
    ensures (a + b + c)[|a|..|a| + |b|] == b
  {
  }

  lemma RecordParts(m: Member)
    ensures |Record(m)| == BLOCK + NextMultiple(|m.body|, BLOCK) >= BLOCK + |m.body|
    ensures Record(m)[..BLOCK] == Header(m) && Record(m)[BLOCK..BLOCK + |m.body|] == m.body
  {
    hide Header;
  }

  function Entries(ms: seq<Member>, k: nat): seq<Entry>
    requires k <= |ms|
  {
    seq(|ms| - k, j requires 0 <= j < |ms| - k => EntryOf(ms[k + j], Start(ms, k + j) + BLOCK))
  }

  lemma {:induction false} ParsesFrom(ms: seq<Member>, k: nat, z: nat)
    requires k <= |ms| && z >= 2 * BLOCK && forall m :: m in ms ==> Fits(m)
    ensures ParsedFrom(Records(ms) + Zeros(z), Start(ms, k)) == Entries(ms, k)
    decreases |ms| - k
  {
    hide Records, ReadEntry, Record, Header, IsUstar, Fits;
    var data, at := Records(ms) + Zeros(z), Start(ms, k);
    if k == |ms| {
      assert ms[..k] == ms;
      assert data[at..at + BLOCK] == Zeros(BLOCK);
    } else {
      RecordAt(ms, k, Zeros(z));
      RecordParts(ms[k]);
      assert data[at..at + BLOCK] == data[Start(ms, k)..Start(ms, k + 1)][..BLOCK];
      HeaderReads(ms[k], at + BLOCK);
      ParsesFrom(ms, k + 1, z);
      EntriesStep(ms, k);
    }
  }

  lemma EntriesStep(ms: seq<Member>, k: nat)
    requires k < |ms|
    ensures Entries(ms, k) == [EntryOf(ms[k], Start(ms, k) + BLOCK)] + Entries(ms, k + 1)
  {
    hide Start;
  }

  lemma ArchiveEnds(ms: seq<Member>) returns (z: nat)
    ensures z >= 2 * BLOCK && Archive(ms) == Records(ms) + Zeros(z)
  {
    hide Records;
    var n := |Records(ms)| + 2 * BLOCK;
    MultipleIsMultiple(n, BLOCKING);
    z := 2 * BLOCK + (NextMultiple(n, BLOCKING) - n);
    assert Zeros(2 * BLOCK) + Zeros(NextMultiple(n, BLOCKING) - n) == Zeros(z);
    ConcatAssoc(Records(ms), Zeros(2 * BLOCK), Zeros(NextMultiple(n, BLOCKING) - n));
  }

  /** Reading a written archive gives back its members, each with its fields and, at the offset given for it,
      its contents. An archive of no members is not recognised as one. */
  lemma ArchiveRoundTrip(ms: seq<Member>)
    requires forall m :: m in ms ==> Fits(m)
    ensures Parsed(Archive(ms)) == if ms == [] then None else Some(Entries(ms, 0))
    ensures forall k :: 0 <= k < |ms| ==>
      var at := Start(ms, k) + BLOCK;
      at + |ms[k].body| <= |Archive(ms)| && Archive(ms)[at..at + |ms[k].body|] == ms[k].body
  {
    hide Archive, ParsedFrom, Fits, Header;
    var z := ArchiveEnds(ms);
    ParsesFrom(ms, 0, z);
    assert ms[..0] == [];
    if ms != [] {
      RecordAt(ms, 0, Zeros(z));
      RecordParts(ms[0]);
      assert Archive(ms)[257..262] == Header(ms[0])[257..262] by {
        assert Archive(ms)[Start(ms, 0)..Start(ms, 1)][257..262] == Archive(ms)[257..262];
      }
      HeaderReads(ms[0], BLOCK);
    } else {
      assert Archive(ms)[257..262][0] == 0;
    }
    forall k | 0 <= k < |ms|
      ensures var at := Start(ms, k) + BLOCK;
        at + |ms[k].body| <= |Archive(ms)| && Archive(ms)[at..at + |ms[k].body|] == ms[k].body
    {
      BodyAt(ms, k, z);
    }
  }

  lemma BodyAt(ms: seq<Member>, k: nat, z: nat)
    requires k < |ms|
    ensures var at := Start(ms, k) + BLOCK;
      var data := Records(ms) + Zeros(z);
      at + |ms[k].body| <= |data| && data[at..at + |ms[k].body|] == ms[k].body
  {
    hide Records, Record;
    var data, at := Records(ms) + Zeros(z), Start(ms, k) + BLOCK;
    hide NextMultiple, Start;
    RecordAt(ms, k, Zeros(z));
    RecordParts(ms[k]);
    SliceOfSlice(data, Start(ms, k), Start(ms, k + 1), BLOCK, BLOCK + |ms[k].body|);
  }

  lemma SliceOfSlice<T>(s: seq<T>, a: nat, b: nat, c: nat, d: nat)
    requires a <= b <= |s| && c <= d <= b - a
    ensures s[a..b][c..d] == s[a + c..a + d]
  {
    var left, right := s[a..b][c..d], s[a + c..a + d];
    assert |left| == |right|;
    forall k | 0 <= k < d - c ensures left[k] == right[k] {
      assert left[k] == s[a..b][c + k] == s[a + (c + k)];
    }
  }
}
