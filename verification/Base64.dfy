/**
  The `base64` command's encoder and decoder, against the bit strings they stand for (section 4 of
  RFC 4648).
 */
module Base64 {
  import opened Text
  import opened Wrappers
  import opened Bits
  import opened Division

  /** The 64 entries of the alphabet table: capitals, small letters, digits, `+` and `/`. */
  function Symbol(v: nat): char
    requires v < 64
  {
    if v < 26 then 'A' + v as char
    else if v < 52 then 'a' + (v - 26) as char
    else if v < 62 then '0' + (v - 52) as char
    else if v == 62 then '+'
    else '/'
  }

  const UPPER: string := "ABCDEFGHIJKLMNOPQRSTUVWXYZ"
  const LOWER: string := "abcdefghijklmnopqrstuvwxyz"
  const DECIMAL: string := "0123456789"

  lemma UpperIs(v: nat)
    requires v < 26
    ensures |UPPER| == 26 && Symbol(v) == UPPER[v]
  {
    assert UPPER[v] == 'A' + v as char;
  }

  lemma LowerIs(v: nat)
    requires v < 26
    ensures |LOWER| == 26 && Symbol(26 + v) == LOWER[v]
  {
    assert LOWER[v] == 'a' + v as char;
  }

  lemma DecimalIs(v: nat)
    requires v < 10
    ensures |DECIMAL| == 10 && Symbol(52 + v) == DECIMAL[v]
  {
    assert DECIMAL[v] == '0' + v as char;
  }

  /** The digits in order (section 4 of RFC 4648). */
  lemma AlphabetIs(v: nat)
    requires v < 64
    ensures |UPPER| == 26 == |LOWER| && |DECIMAL| == 10
    ensures Symbol(v) == (UPPER + LOWER + DECIMAL + "+/")[v]
  {
    hide Symbol;
    UpperIs(if v < 26 then v else 0);
    LowerIs(if 26 <= v < 52 then v - 26 else 0);
    DecimalIs(if 52 <= v < 62 then v - 52 else 0);
    LastTwo();
    Joined(UPPER, LOWER, DECIMAL, "+/", v);
  }

  lemma LastTwo()
    ensures Symbol(62) == '+' && Symbol(63) == '/'
  {
  }

  lemma Joined(a: string, b: string, c: string, d: string, v: nat)
    requires |a| == 26 == |b| && |c| == 10 && |d| == 2 && v < 64
    ensures (a + b + c + d)[v] == if v < 26 then a[v] else if v < 52 then b[v - 26] else if v < 62 then c[v - 52] else d[v - 62]
  {
  }

  function Value(c: char): (r: Option<nat>)
    ensures r.Some? ==> r.value < 64
  {
    if 'A' <= c <= 'Z' then Some(c as int - 'A' as int)
    else if 'a' <= c <= 'z' then Some(c as int - 'a' as int + 26)
    else if '0' <= c <= '9' then Some(c as int - '0' as int + 52)
    else if c == '+' then Some(62)
    else if c == '/' then Some(63)
    else None
  }

  lemma SymbolHasValue(v: nat)
    requires v < 64
    ensures Value(Symbol(v)) == Some(v) && !IsAsciiWhitespace(Symbol(v)) && Symbol(v) != '='
  {
  }

  // ---- Encoding --------------------------------------------------------------------------------

  /** The 24 bits of a chunk of one to three bytes, missing bytes read as zero. */
  function Packed(chunk: seq<Byte>): nat
    requires 1 <= |chunk| <= 3
  {
    var b0: nat := chunk[0];
    var b1: nat := if |chunk| > 1 then chunk[1] else 0;
    var b2: nat := if |chunk| > 2 then chunk[2] else 0;
    b0 * 0x1_0000 + b1 * 0x100 + b2
  }

  function FourDigits(n: nat): (r: seq<nat>)
    ensures |r| == 4 && forall k :: 0 <= k < 4 ==> r[k] < 64
  {
    [n / 0x4_0000 % 64, n / 0x1000 % 64, n / 64 % 64, n % 64]
  }

  /** The digits written for one chunk: one more than it has bytes. */
  function ChunkDigits(chunk: seq<Byte>): (r: seq<nat>)
    requires 1 <= |chunk| <= 3
    ensures |r| == |chunk| + 1 && forall k :: 0 <= k < |r| ==> r[k] < 64
  {
    FourDigits(Packed(chunk))[..|chunk| + 1]
  }

  function Symbols(digits: seq<nat>): (r: string)
    requires forall k :: 0 <= k < |digits| ==> digits[k] < 64
    ensures |r| == |digits|
  {
    if digits == [] then "" else [Symbol(digits[0])] + Symbols(digits[1..])
  }

  /** The four characters of one chunk. */
  function EncodeChunk(chunk: seq<Byte>): string
    requires 1 <= |chunk| <= 3
  {
    Symbols(ChunkDigits(chunk)) + Padding(|chunk|)
  }

  function Padding(n: nat): string {
    if n < 2 then "==" else if n == 2 then "=" else ""
  }

  function Encoded(data: seq<Byte>): string {
    if data == [] then ""
    else if |data| <= 3 then EncodeChunk(data)
    else EncodeChunk(data[..3]) + Encoded(data[3..])
  }

  method Encode(data: seq<Byte>) returns (out: string)
    ensures out == Encoded(data)
  {
    hide EncodeChunk;
    out := "";
    var i := 0;
    while i < |data|
      invariant 0 <= i <= |data|
      invariant out + Encoded(data[i..]) == Encoded(data)
    {
      var end := if i + 3 <= |data| then i + 3 else |data|;
      EncodedStep(data[i..], end - i);
      assert data[i..][..end - i] == data[i..end] && data[i..][end - i..] == data[end..];
      var four := PushChunk(data[i..end]);
      ghost var rest := Encoded(data[end..]);
      assert (out + four) + rest == out + (four + rest);
      out := out + four;
      i := end;
    }
  }

  /** The four pushes for one chunk. */
  method PushChunk(chunk: seq<Byte>) returns (out: string)
    requires 1 <= |chunk| <= 3
    ensures out == EncodeChunk(chunk)
  {
    var n := Packed(chunk);
    var symbols := [Symbol(n / 0x4_0000 % 64), Symbol(n / 0x1000 % 64)];
    out := symbols;
    out := out + [if |chunk| > 1 then Symbol(n / 64 % 64) else '='];
    out := out + [if |chunk| > 2 then Symbol(n % 64) else '='];
    hide Symbol;
    var digits := ChunkDigits(chunk);
    assert Symbols(digits[2..]) ==
      (if |chunk| > 1 then [Symbol(n / 64 % 64)] else []) + (if |chunk| > 2 then [Symbol(n % 64)] else []);
    assert digits[1..][1..] == digits[2..];
    assert Symbols(digits) == [Symbol(digits[0])] + ([Symbol(digits[1])] + Symbols(digits[2..]));
  }

  lemma EncodedStep(data: seq<Byte>, n: nat)
    requires data != [] && n == if |data| < 3 then |data| else 3
    ensures Encoded(data) == EncodeChunk(data[..n]) + Encoded(data[n..])
  {
    hide EncodeChunk;
    if |data| <= 3 {
      assert data[..n] == data && data[n..] == [];
      assert EncodeChunk(data) + "" == EncodeChunk(data);
    }
  }

  // ---- Decoding ------------------------------------------------------------------------------------

  /** The digits of a text: white space is skipped, `=` ends it, anything else unknown is an error. */
  function Digits(text: string): (r: Option<seq<nat>>)
    ensures r.Some? ==> forall k :: 0 <= k < |r.value| ==> r.value[k] < 64
  {
    if text == "" then Some([])
    else if IsAsciiWhitespace(text[0]) then Digits(text[1..])
    else if text[0] == '=' then Some([])
    else
      match (Value(text[0]), Digits(text[1..]))
      case (Some(v), Some(rest)) => Some([v] + rest)
      case _ => None
  }

  /** What the accumulator holds: the whole bytes so far, and fewer than eight bits that are not yet one. */
  ghost predicate Holds(out: seq<Byte>, acc: nat, bits: nat, digits: seq<nat>) {
    && bits < 8
    && Spread(out, 8) + Low(acc, bits) == Spread(digits, 6)
  }

  /** One digit through the 32-bit accumulator. */
  function Shifted(acc: nat, v: nat): (r: nat)
    ensures r < 0x1_0000_0000
  {
    (acc * 64 + v) % 0x1_0000_0000  // (acc << 6) | v
  }

  /** `None` exactly on an unknown character before any `=`; otherwise the longest run of whole bytes that the
      digits' bits spell. */
  method Decode(text: string) returns (r: Option<seq<Byte>>)
    ensures r.None? <==> Digits(text).None?
    ensures r.Some? ==>
      var bits := Spread(Digits(text).value, 6);
      |r.value| == |bits| / 8 && Spread(r.value, 8) == bits[..8 * |r.value|]
  {
    hide Low, Spread, Shr, Shifted, Value;
    EmptyHolds();
    var acc: nat, bits: nat := 0, 0;
    var out: seq<Byte> := [];
    ghost var seen: seq<nat> := [];
    for k := 0 to |text|
      invariant acc < 0x1_0000_0000 && Holds(out, acc, bits, seen)
      invariant Digits(text).None? <==> Digits(text[k..]).None?
      invariant Digits(text).Some? ==> Digits(text).value == seen + Digits(text[k..]).value
    {
      var c := text[k];
      assert text[k..][0] == c && text[k..][1..] == text[k + 1..];
      if IsAsciiWhitespace(c) {
        continue;
      }
      if c == '=' {
        WholeBytes(out, acc, bits, seen);
        assert Digits(text).value == seen;
        return Some(out);
      }
      var v := Value(c);
      if v.None? {
        return None;
      }
      ghost var rest := Digits(text[k + 1..]);
      assert rest.Some? ==> (seen + [v.value]) + rest.value == seen + ([v.value] + rest.value);
      ShiftKeeps(out, acc, bits, seen, v.value);
      seen := seen + [v.value];
      acc := Shifted(acc, v.value);
      bits := bits + 6;
      if bits >= 8 {
        bits := bits - 8;
        ByteKeeps(out, acc, bits);
        out := out + [Shr(acc, bits) % 256];
      }
    }
    WholeBytes(out, acc, bits, seen);
    assert Digits(text).Some? ==> Digits(text).value == seen;
    return Some(out);
  }

  lemma EmptyHolds()
    ensures Holds([], 0, 0, [])
  {
  }

  lemma ShiftKeeps(out: seq<Byte>, acc: nat, bits: nat, seen: seq<nat>, v: nat)
    requires Holds(out, acc, bits, seen) && v < 64
    ensures Spread(out, 8) + Low(Shifted(acc, v), bits + 6) == Spread(seen + [v], 6)
  {
    Powers();
    hide Pow2, Low, Spread;
    LowAppend(acc, bits, v, 6);
    LowOfRemainder(acc * 64 + v, 0x1_0000_0000, 32, bits + 6);
    SpreadPush(seen, v, 6);
    assert Spread(out, 8) + (Low(acc, bits) + Low(v, 6)) == (Spread(out, 8) + Low(acc, bits)) + Low(v, 6);
  }

  lemma Powers()
    ensures Pow2(6) == 64 && Pow2(8) == 256 && Pow2(32) == 0x1_0000_0000
  {
    assert Pow2(8) == 256;
    assert Pow2(16) == 0x1_0000;
    assert Pow2(24) == 0x100_0000;
  }

  lemma ByteKeeps(out: seq<Byte>, acc: nat, bits: nat)
    ensures Spread(out, 8) + Low(acc, 8 + bits) == Spread(out + [Shr(acc, bits) % 256], 8) + Low(acc, bits)
  {
    Powers();
    hide Pow2, Shr, Low, Spread;
    var b: Byte := Shr(acc, bits) % 256;
    LowSplit(acc, 8, bits);
    LowOfRemainder(Shr(acc, bits), 256, 8, 8);
    SpreadPush(out, b, 8);
    assert Spread(out, 8) + (Low(b, 8) + Low(acc, bits)) == (Spread(out, 8) + Low(b, 8)) + Low(acc, bits);
  }

  lemma WholeBytes(out: seq<Byte>, acc: nat, bits: nat, digits: seq<nat>)
    requires Holds(out, acc, bits, digits)
    ensures var all := Spread(digits, 6); |out| == |all| / 8 && Spread(out, 8) == all[..8 * |out|]
  {
    assert |Spread(digits, 6)| == 8 * |out| + bits;
  }

  // ---- The round trip ----------------------------------------------------------------------------------

  function Zeros(n: nat): seq<nat> {
    seq(n, _ => 0)
  }

  /** Padding bits after a last chunk of `n` bytes. */
  function PadBits(n: nat): nat {
    if n % 3 == 0 then 0 else if n % 3 == 1 then 4 else 2
  }

  lemma {:induction false} LowZero(n: nat)
    ensures Low(0, n) == Zeros(n)
  {
    if n > 0 {
      LowZero(n - 1);
    }
  }

  /** The 24 bits of a chunk, byte by byte and digit by digit. */
  lemma TwentyFour(b0: Byte, b1: Byte, b2: Byte)
    ensures var n := (b0 as nat) * 0x1_0000 + (b1 as nat) * 0x100 + b2;
      Low(n, 24) == Spread([b0, b1, b2], 8) == Spread(FourDigits(n), 6)
  {
    Powers();
    hide Pow2, Low;
    var n := (b0 as nat) * 0x1_0000 + (b1 as nat) * 0x100 + b2;
    LowAppend((b0 as nat) * 0x100 + b1, 16, b2, 8);
    LowAppend(b0, 8, b1, 8);
    SpreadThree(b0, b1, b2, 8);
    SixBits(n / 64 / 64 / 64, 0);
    SixBits(n / 64 / 64, 6);
    SixBits(n / 64, 12);
    SixBits(n, 18);
    LowNothing(n / 64 / 64 / 64 / 64);
    assert n / 64 / 64 == n / 0x1000 && n / 64 / 64 / 64 == n / 0x4_0000;
    SpreadFour(n / 0x4_0000 % 64, n / 0x1000 % 64, n / 64 % 64, n % 64, 6);
  }

  lemma LowNothing(x: nat)
    ensures Low(x, 0) == []
  {
  }

  lemma SixBits(x: nat, n: nat)
    ensures Low(x, n + 6) == Low(x / 64, n) + Low(x % 64, 6)
  {
    Powers();
    hide Pow2, Low;
    LowAppend(x / 64, n, x % 64, 6);
  }

  lemma SpreadThree(a: nat, b: nat, c: nat, n: nat)
    ensures Spread([a, b, c], n) == Low(a, n) + Low(b, n) + Low(c, n)
  {
    hide Low;
    SpreadOne(a, n);
    SpreadPush([a], b, n);
    SpreadPush([a, b], c, n);
    assert [a] + [b] == [a, b] && [a, b] + [c] == [a, b, c];
  }

  lemma SpreadFour(a: nat, b: nat, c: nat, d: nat, n: nat)
    ensures Spread([a, b, c, d], n) == Low(a, n) + Low(b, n) + Low(c, n) + Low(d, n)
  {
    hide Low;
    SpreadThree(a, b, c, n);
    SpreadPush([a, b, c], d, n);
    assert [a, b, c] + [d] == [a, b, c, d];
  }

  function PaddedChunk(chunk: seq<Byte>): seq<Byte>
    requires 1 <= |chunk| <= 3
  {
    [chunk[0], if |chunk| > 1 then chunk[1] else 0, if |chunk| > 2 then chunk[2] else 0]
  }

  lemma PaddedBits(chunk: seq<Byte>)
    requires 1 <= |chunk| <= 3
    ensures Spread(PaddedChunk(chunk), 8) == Spread(chunk, 8) + Zeros(8 * (3 - |chunk|))
  {
    hide Spread, Low;
    var tail := PaddedChunk(chunk)[|chunk|..];
    SpreadConcat(chunk, tail, 8);
    assert PaddedChunk(chunk) == chunk + tail;
    ZeroTail(chunk, tail);
  }

  /** A chunk's digits spell its bytes and nothing but zeros after them. */
  lemma ChunkBits(chunk: seq<Byte>)
    requires 1 <= |chunk| <= 3
    ensures Spread(ChunkDigits(chunk), 6) == Spread(chunk, 8) + Zeros(PadBits(|chunk|))
  {
    hide Spread, FourDigits, Low, Zeros;
    var all, k := FourDigits(Packed(chunk)), |chunk|;
    TwentyFour(PaddedChunk(chunk)[0], PaddedChunk(chunk)[1], PaddedChunk(chunk)[2]);
    PaddedBits(chunk);
    SpreadConcat(all[..k + 1], all[k + 1..], 6);
    assert all == all[..k + 1] + all[k + 1..];
    CutZeros(Spread(all[..k + 1], 6), Spread(all[k + 1..], 6), Spread(chunk, 8), 8 * (3 - k), PadBits(k));
  }

  lemma CutZeros(a: seq<nat>, b: seq<nat>, c: seq<nat>, z: nat, y: nat)
    requires a + b == c + Zeros(z) && |a| == |c| + y && y <= z
    ensures a == c + Zeros(y)
  {
    assert a == (a + b)[..|a|];
  }

  lemma ZeroTail(chunk: seq<Byte>, tail: seq<nat>)
    requires 1 <= |chunk| <= 3 && |tail| == 3 - |chunk| && forall k :: 0 <= k < |tail| ==> tail[k] == 0
    ensures Spread(tail, 8) == Zeros(8 * |tail|)
  {
    LowZero(8);
    if |tail| == 1 {
      assert tail == [0];
      SpreadOne(0, 8);
    } else if |tail| == 2 {
      assert tail == [0] + [0];
      SpreadConcat([0], [0], 8);
      SpreadOne(0, 8);
    }
  }

  lemma PadAfterThree(n: nat)
    requires n >= 3
    ensures PadBits(3) == 0 && PadBits(n) == PadBits(n - 3)
  {
  }

  function AllDigits(data: seq<Byte>): seq<nat> {
    if data == [] then []
    else if |data| <= 3 then ChunkDigits(data)
    else ChunkDigits(data[..3]) + AllDigits(data[3..])
  }

  /** The encoding spells the data's bits, padded with zeros to whole digits. */
  lemma {:induction false} EncodedBits(data: seq<Byte>)
    ensures Spread(AllDigits(data), 6) == Spread(data, 8) + Zeros(PadBits(|data|))
  {
    hide Low, ChunkDigits;
    if data == [] {
    } else if |data| <= 3 {
      ChunkBits(data);
    } else {
      hide Spread, PadBits;
      ChunkBits(data[..3]);
      EncodedBits(data[3..]);
      SpreadConcat(ChunkDigits(data[..3]), AllDigits(data[3..]), 6);
      SpreadConcat(data[..3], data[3..], 8);
      assert data == data[..3] + data[3..];
      PadAfterThree(|data|);
      assert Spread(data[..3], 8) + Zeros(0) == Spread(data[..3], 8);
      ConcatAssoc(Spread(data[..3], 8), Spread(data[3..], 8), Zeros(PadBits(|data|)));
    }
  }

  /** `b` is `a` with line breaks put in. */
  ghost predicate Broken(a: string, b: string) {
    if b == "" then a == ""
    else if b[0] == '\n' then Broken(a, b[1..])
    else a != "" && a[0] == b[0] && Broken(a[1..], b[1..])
  }

  lemma {:induction false} BreaksAreSkipped(a: string, b: string)
    requires Broken(a, b) && '\n' !in a
    ensures Digits(b) == Digits(a)
    decreases |b|
  {
    if b != "" {
      if b[0] == '\n' {
        BreaksAreSkipped(a, b[1..]);
      } else {
        BreaksAreSkipped(a[1..], b[1..]);
      }
    }
  }

  lemma {:induction false} EncodedDigits(data: seq<Byte>)
    ensures Digits(Encoded(data)) == Some(AllDigits(data))
    ensures '\n' !in Encoded(data)
  {
    if data == [] {
    } else if |data| <= 3 {
      ChunkReads(data, "");
      assert EncodeChunk(data) + "" == EncodeChunk(data);
      assert ChunkDigits(data) + [] == ChunkDigits(data);
    } else {
      EncodedDigits(data[3..]);
      ChunkReads(data[..3], Encoded(data[3..]));
    }
  }

  lemma ChunkReads(chunk: seq<Byte>, rest: string)
    requires 1 <= |chunk| <= 3 && (|chunk| < 3 ==> rest == "") && Digits(rest).Some?
    ensures Digits(EncodeChunk(chunk) + rest) == Some(ChunkDigits(chunk) + Digits(rest).value)
    ensures '\n' !in EncodeChunk(chunk)
  {
    hide ChunkDigits, Symbols;
    var digits := ChunkDigits(chunk);
    PadEnds(|chunk|, rest);
    SymbolsRead(digits, Padding(|chunk|) + rest);
    assert EncodeChunk(chunk) + rest == Symbols(digits) + (Padding(|chunk|) + rest);
  }

  lemma PadEnds(n: nat, rest: string)
    requires n < 3 ==> rest == ""
    ensures Digits(Padding(n) + rest) == Digits(rest)
  {
    assert n >= 3 ==> Padding(n) + rest == rest;
  }

  lemma {:induction false} SymbolsRead(digits: seq<nat>, rest: string)
    requires Digits(rest).Some? && forall k :: 0 <= k < |digits| ==> digits[k] < 64
    ensures Digits(Symbols(digits) + rest) == Some(digits + Digits(rest).value)
    ensures '\n' !in Symbols(digits)
  {
    hide Symbol, Symbols, Digits, Value;
    SymbolsUnfold(digits);
    if digits == [] {
      assert "" + rest == rest && [] + Digits(rest).value == Digits(rest).value;
    } else {
      SymbolsRead(digits[1..], rest);
      SymbolReads(digits[0], Symbols(digits[1..]) + rest);
      ConcatAssoc([Symbol(digits[0])], Symbols(digits[1..]), rest);
      ConcatAssoc([digits[0]], digits[1..], Digits(rest).value);
      assert [digits[0]] + digits[1..] == digits;
    }
  }

  lemma SymbolsUnfold(digits: seq<nat>)
    requires forall k :: 0 <= k < |digits| ==> digits[k] < 64
    ensures Symbols(digits) == if digits == [] then "" else [Symbol(digits[0])] + Symbols(digits[1..])
  {
  }

  lemma SymbolReads(v: nat, rest: string)
    requires v < 64 && Digits(rest).Some?
    ensures Digits([Symbol(v)] + rest) == Some([v] + Digits(rest).value) && Symbol(v) != '\n'
  {
    hide Symbol, Value;
    SymbolHasValue(v);
    assert ([Symbol(v)] + rest)[1..] == rest;
  }

  /** The command's output: lines of 76 characters, each ended by a newline. */
  method Wrap(encoded: string) returns (out: string)
    requires '\n' !in encoded
    ensures Broken(encoded, out)
  {
    out := "";
    var i := 0;
    while i < |encoded|
      invariant 0 <= i <= |encoded|
      invariant Broken(encoded[..i], out)
    {
      var end := if i + 76 <= |encoded| then i + 76 else |encoded|;
      BrokenAppend(encoded[..i], out, encoded[i..end]);
      assert encoded[..i] + encoded[i..end] == encoded[..end];
      out := out + encoded[i..end] + "\n";
      i := end;
    }
    assert encoded[..|encoded|] == encoded;
  }

  lemma {:induction false} BrokenAppend(a: string, b: string, line: string)
    requires Broken(a, b) && '\n' !in line
    ensures Broken(a + line, b + line + "\n")
    decreases |b|
  {
    var b' := b + line + "\n";
    if b == "" {
      LineBroken(line);
      assert a + line == line && b' == line + "\n";
    } else if b[0] == '\n' {
      BrokenAppend(a, b[1..], line);
      assert b'[1..] == b[1..] + line + "\n";
    } else {
      BrokenAppend(a[1..], b[1..], line);
      assert b'[1..] == b[1..] + line + "\n" && (a + line)[1..] == a[1..] + line;
    }
  }

  lemma {:induction false} LineBroken(line: string)
    requires '\n' !in line
    ensures Broken(line, line + "\n")
  {
    if line == "" {
      assert ("" + "\n")[1..] == "";
    } else {
      LineBroken(line[1..]);
      assert (line + "\n")[1..] == line[1..] + "\n";
    }
  }

  /** Decoding what was encoded gives the data back, with line breaks in it or without. */
  lemma DecodeInvertsEncode(data: seq<Byte>, text: string, out: seq<Byte>)
    requires Broken(Encoded(data), text)
    requires Digits(text).Some?
    requires var bits := Spread(Digits(text).value, 6); |out| == |bits| / 8 && Spread(out, 8) == bits[..8 * |out|]
    ensures out == data
  {
    hide Digits, Encoded, Spread, Broken;
    EncodedDigits(data);
    BreaksAreSkipped(Encoded(data), text);
    EncodedBits(data);
    Powers();
    var bits := Spread(AllDigits(data), 6);
    assert |bits| == 8 * |data| + PadBits(|data|);
    assert bits[..8 * |data|] == Spread(data, 8);
    SpreadInjective(out, data, 8);
  }

  method RoundTrip(data: seq<Byte>, wrap: bool) returns (r: Option<seq<Byte>>)
    ensures r == Some(data)
  {
    var text := Encode(data);
    EncodedDigits(data);
    if wrap {
      text := Wrap(text);
    } else {
      UnbrokenIsBroken(text);
    }
    BreaksAreSkipped(Encoded(data), text);
    r := Decode(text);
    DecodeInvertsEncode(data, text, r.value);
  }

  lemma {:induction false} UnbrokenIsBroken(a: string)
    requires '\n' !in a
    ensures Broken(a, a)
  {
    if a != "" {
      UnbrokenIsBroken(a[1..]);
    }
  }
}
