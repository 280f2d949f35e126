/**
  The SFTP wire format: big-endian fields, length-prefixed strings, packets in frames (sections 3 and 6
  of draft-ietf-secsh-filexfer-02).
 */
module SftpWire {
  import opened Bits
  import opened Division
  import opened Wrappers

  const U32: nat := 0x1_0000_0000
  const U64: nat := 0x1_0000_0000_0000_0000
  const MAX_SFTP_PACKET_LEN: nat := 256 * 1024

  const FXP_INIT: Byte := 1
  const FXP_OPEN: Byte := 3
  const FXP_CLOSE: Byte := 4
  const FXP_READ: Byte := 5
  const FXP_WRITE: Byte := 6
  const FXP_OPENDIR: Byte := 11

  // ---- Fields ------------------------------------------------------------------------------------

  function Be32(v: nat): (r: seq<Byte>)
    requires v < U32
    ensures |r| == 4
  {
    [v / 0x100_0000, v / 0x1_0000 % 256, v / 0x100 % 256, v % 256]
  }

  function Be64(v: nat): (r: seq<Byte>)
    requires v < U64
    ensures |r| == 8
  {
    Be32(v / U32) + Be32(v % U32)
  }

  /** The most significant byte comes first (section 4 of RFC 4251). */
  lemma BigEndian(v: nat)
    requires v < U32
    ensures var b0: nat, b1: nat, b2: nat, b3: nat := Be32(v)[0], Be32(v)[1], Be32(v)[2], Be32(v)[3];
      b0 * 0x100_0000 + b1 * 0x1_0000 + b2 * 0x100 + b3 == v
  {
    hide Be32;
    Be32RoundTrip(v);
  }

  lemma BigEndian64(high: nat, low: nat)
    requires high < U32 && low < U32
    ensures high * U32 + low < U64 && Be64(high * U32 + low) == Be32(high) + Be32(low)
  {
    hide Be32;
    QuotientIsUnique(high * U32 + low, U32, high, low);
  }

  function PutBytes(data: seq<Byte>): seq<Byte>
    requires |data| < U32
  {
    Be32(|data|) + data
  }

  /** A decoded field and the cursor after it, or too few bytes. */
  datatype Taken<+T> = Taken(value: T, rest: seq<Byte>) | Short

  function FromBe32(b: seq<Byte>): (v: nat)
    requires |b| == 4
    ensures v < U32
  {
    var b0: nat, b1: nat, b2: nat, b3: nat := b[0], b[1], b[2], b[3];
    b0 * 0x100_0000 + b1 * 0x1_0000 + b2 * 0x100 + b3
  }

  function GetU32(cursor: seq<Byte>): Taken<nat> {
    if |cursor| < 4 then Short else Taken(FromBe32(cursor[..4]), cursor[4..])
  }

  function GetU64(cursor: seq<Byte>): Taken<nat> {
    if |cursor| < 8 then Short else Taken(FromBe32(cursor[..4]) * U32 + FromBe32(cursor[4..8]), cursor[8..])
  }

  function GetBytes(cursor: seq<Byte>): Taken<seq<Byte>> {
    match GetU32(cursor)
    case Short => Short
    case Taken(len, rest) => if |rest| < len then Short else Taken(rest[..len], rest[len..])
  }

  lemma Be32RoundTrip(v: nat)
    requires v < U32
    ensures FromBe32(Be32(v)) == v
  {
    assert v / 0x1_0000 / 0x100 == v / 0x100_0000 && v / 0x100 / 0x100 == v / 0x1_0000;
    assert v == v / 0x100 * 0x100 + v % 0x100;
    assert v / 0x100 == v / 0x1_0000 * 0x100 + v / 0x100 % 0x100;
    assert v / 0x1_0000 == v / 0x100_0000 * 0x100 + v / 0x1_0000 % 0x100;
  }

  lemma FromBe32RoundTrip(b: seq<Byte>)
    requires |b| == 4
    ensures Be32(FromBe32(b)) == b
  {
    var b0: nat, b1: nat, b2: nat, b3: nat := b[0], b[1], b[2], b[3];
    var v := FromBe32(b);
    QuotientIsUnique(v, 0x100_0000, b0, b1 * 0x1_0000 + b2 * 0x100 + b3);
    QuotientIsUnique(v, 0x1_0000, b0 * 0x100 + b1, b2 * 0x100 + b3);
    QuotientIsUnique(v, 0x100, b0 * 0x1_0000 + b1 * 0x100 + b2, b3);
    QuotientIsUnique(b0 * 0x100 + b1, 0x100, b0, b1);
    QuotientIsUnique(b0 * 0x1_0000 + b1 * 0x100 + b2, 0x100, b0 * 0x100 + b1, b2);
  }

  lemma GetPutU32(v: nat, rest: seq<Byte>)
    requires v < U32
    ensures GetU32(Be32(v) + rest) == Taken(v, rest)
  {
    hide Be32, FromBe32;
    Be32RoundTrip(v);
    assert (Be32(v) + rest)[..4] == Be32(v) && (Be32(v) + rest)[4..] == rest;
  }

  lemma GetPutU64(v: nat, rest: seq<Byte>)
    requires v < U64
    ensures GetU64(Be64(v) + rest) == Taken(v, rest)
  {
    hide Be32, FromBe32;
    Be32RoundTrip(v / U32);
    Be32RoundTrip(v % U32);
    var c := Be64(v) + rest;
    assert c[..4] == Be32(v / U32) && c[4..8] == Be32(v % U32) && c[8..] == rest;
  }

  lemma GetPutBytes(data: seq<Byte>, rest: seq<Byte>)
    requires |data| < U32
    ensures GetBytes(PutBytes(data) + rest) == Taken(data, rest)
  {
    hide GetU32, Be32;
    assert PutBytes(data) + rest == Be32(|data|) + (data + rest);
    GetPutU32(|data|, data + rest);
    assert (data + rest)[..|data|] == data && (data + rest)[|data|..] == rest;
  }

  // ---- Frames --------------------------------------------------------------------------------------

  function Framed(frame: seq<Byte>): seq<Byte>
    requires |frame| < U32
  {
    Be32(|frame|) + frame
  }

  ghost predicate FramesOk(frames: seq<seq<Byte>>) {
    forall k :: 0 <= k < |frames| ==> |frames[k]| <= MAX_SFTP_PACKET_LEN
  }

  /** The frames as they stand in the stream. */
  ghost function Stream(frames: seq<seq<Byte>>): seq<Byte>
    requires FramesOk(frames)
  {
    if frames == [] then [] else Stream(frames[..|frames| - 1]) + Framed(frames[|frames| - 1])
  }

  /** No whole frame is left in the buffer. */
  predicate Incomplete(buf: seq<Byte>) {
    |buf| < 4 || |buf| - 4 < FromBe32(buf[..4])
  }

  /** The buffer starts with a length prefix over the limit. */
  predicate Oversized(buf: seq<Byte>) {
    |buf| >= 4 && FromBe32(buf[..4]) > MAX_SFTP_PACKET_LEN
  }

  lemma StreamPush(frames: seq<seq<Byte>>, frame: seq<Byte>)
    requires FramesOk(frames) && |frame| <= MAX_SFTP_PACKET_LEN
    ensures FramesOk(frames + [frame])
    ensures Stream(frames + [frame]) == Stream(frames) + Framed(frame)
  {
    assert (frames + [frame])[..|frames|] == frames;
  }

  lemma {:induction false} StreamConcat(a: seq<seq<Byte>>, b: seq<seq<Byte>>)
    requires FramesOk(a) && FramesOk(b)
    ensures FramesOk(a + b) && Stream(a + b) == Stream(a) + Stream(b)
  {
    hide Framed;
    if b == [] {
      assert a + b == a;
    } else {
      var last := |b| - 1;
      StreamConcat(a, b[..last]);
      assert (a + b)[..|a + b| - 1] == a + b[..last];
      ConcatAssoc(Stream(a), Stream(b[..last]), Framed(b[last]));
    }
  }

  lemma StreamFirst(frames: seq<seq<Byte>>)
    requires FramesOk(frames) && frames != []
    ensures FramesOk(frames[1..]) && Stream(frames) == Framed(frames[0]) + Stream(frames[1..])
  {
    StreamConcat([frames[0]], frames[1..]);
    assert frames == [frames[0]] + frames[1..];
    StreamPush([], frames[0]);
    assert [] + [frames[0]] == [frames[0]];
    assert [] + Framed(frames[0]) == Framed(frames[0]);
  }

  /** The first frame of a stream is the one its length prefix says. */
  lemma FirstFrame(frames: seq<seq<Byte>>, rest: seq<Byte>)
    requires FramesOk(frames) && frames != []
    ensures var bytes := Stream(frames) + rest;
      var len := |frames[0]|;
      && |bytes| >= 4 + len && FromBe32(bytes[..4]) == len && bytes[4..4 + len] == frames[0]
      && FramesOk(frames[1..]) && bytes[4 + len..] == Stream(frames[1..]) + rest
  {
    hide Framed, Stream, FromBe32;
    StreamFirst(frames);
    ConcatAssoc(Framed(frames[0]), Stream(frames[1..]), rest);
    FrontFrame(frames[0], Stream(frames[1..]) + rest);
  }

  lemma FrontFrame(frame: seq<Byte>, tail: seq<Byte>)
    requires |frame| < U32
    ensures var bytes := Framed(frame) + tail;
      && |bytes| >= 4 + |frame| && FromBe32(bytes[..4]) == |frame|
      && bytes[4..4 + |frame|] == frame && bytes[4 + |frame|..] == tail
  {
    hide Be32, FromBe32;
    Be32RoundTrip(|frame|);
    assert (Framed(frame) + tail)[..4] == Be32(|frame|);
  }

  /** One byte stream has one sequence of frames: of two ways to take frames off it, one is a prefix of the
      other, and they are the same if neither leaves a whole frame. */
  lemma {:induction false} FramesUnique(a: seq<seq<Byte>>, r: seq<Byte>, b: seq<seq<Byte>>, q: seq<Byte>)
    requires FramesOk(a) && FramesOk(b) && Stream(a) + r == Stream(b) + q
    ensures a <= b || b <= a
    ensures Incomplete(r) && Incomplete(q) ==> a == b && r == q
    decreases |a|
  {
    hide Framed, FromBe32;
    if a == [] {
      assert Stream(a) + r == r;
      if b == [] {
        assert Stream(b) + q == q;
      } else {
        FirstFrame(b, q);
      }
    } else if b == [] {
      assert Stream(b) + q == q;
      FirstFrame(a, r);
    } else {
      FirstFrame(a, r);
      FirstFrame(b, q);
      FramesUnique(a[1..], r, b[1..], q);
      SameFirst(a, b);
      SameFirst(b, a);
    }
  }

  lemma SameFirst<T>(a: seq<T>, b: seq<T>)
    requires a != [] && b != [] && a[0] == b[0]
    ensures a[1..] <= b[1..] ==> a <= b
    ensures a[1..] == b[1..] ==> a == b
  {
    assert a == [a[0]] + a[1..] && b == [b[0]] + b[1..];
  }

  // ---- Packets ---------------------------------------------------------------------------------------

  /** `send_packet`: the type and payload in a frame. */
  function Packet(kind: Byte, payload: seq<Byte>): seq<Byte>
    requires |payload| + 1 < U32
  {
    Framed([kind] + payload)
  }

  /** The length is patched in after the payload has been written. */
  method SendPacket(out: seq<Byte>, kind: Byte, payload: seq<Byte>) returns (r: seq<Byte>)
    requires |payload| + 1 < U32
    ensures r == out + Packet(kind, payload)
  {
    var start := |out|;
    r := out + [0, 0, 0, 0, kind];
    r := r + payload;
    var len := Be32(|r| - start - 4);
    hide Be32;
    r := r[start := len[0]];
    r := r[start + 1 := len[1]];
    r := r[start + 2 := len[2]];
    r := r[start + 3 := len[3]];
    assert r[start..start + 4] == len;
    assert r == out + len + ([kind] + payload);
  }

  datatype Request =
    | Ignored
    | Init
    | Malformed(id: nat)
    | Open(id: nat, path: seq<Byte>, flags: nat)
    | Close(id: nat, handle: seq<Byte>)
    | Read(id: nat, handle: seq<Byte>, offset: nat, len: nat)
    | Write(id: nat, handle: seq<Byte>, offset: nat, chunk: seq<Byte>)
    | OpenDir(id: nat, path: seq<Byte>)
    | Other(id: nat, kind: Byte, body: seq<Byte>)

  /** The decoding at the head of `handle_packet` and of its arms. `utf8` is the validity test of path text. */
  function Decoded(pkt: seq<Byte>, utf8: seq<Byte> -> bool): Request {
    if pkt == [] then Ignored
    else if pkt[0] == FXP_INIT then Init
    else
      match GetU32(pkt[1..])
      case Short => Ignored
      case Taken(id, body) =>
        if pkt[0] == FXP_OPEN then
          (match GetBytes(body)
           case Short => Malformed(id)
           case Taken(path, rest) =>
             if !utf8(path) then Malformed(id)
             else
               match GetU32(rest)
               case Short => Malformed(id)
               case Taken(flags, _) => Open(id, path, flags))
        else if pkt[0] == FXP_CLOSE then
          (match GetBytes(body)
           case Short => Malformed(id)
           case Taken(handle, _) => Close(id, handle))
        else if pkt[0] == FXP_READ then
          (match GetBytes(body)
           case Short => Malformed(id)
           case Taken(handle, rest) =>
             match GetU64(rest)
             case Short => Malformed(id)
             case Taken(offset, rest2) =>
               match GetU32(rest2)
               case Short => Malformed(id)
               case Taken(len, _) => Read(id, handle, offset, len))
        else if pkt[0] == FXP_WRITE then
          (match GetBytes(body)
           case Short => Malformed(id)
           case Taken(handle, rest) =>
             match GetU64(rest)
             case Short => Malformed(id)
             case Taken(offset, rest2) =>
               match GetBytes(rest2)
               case Short => Malformed(id)
               case Taken(chunk, _) => Write(id, handle, offset, chunk))
        else if pkt[0] == FXP_OPENDIR then
          (match GetBytes(body)
           case Short => Malformed(id)
           case Taken(path, _) => if utf8(path) then OpenDir(id, path) else Malformed(id))
        else Other(id, pkt[0], body)
  }

  ghost predicate Sendable(r: Request, utf8: seq<Byte> -> bool) {
    match r
    case Open(id, path, flags) => id < U32 && |path| < U32 && flags < U32 && utf8(path)
    case Close(id, handle) => id < U32 && |handle| < U32
    case Read(id, handle, offset, len) => id < U32 && |handle| < U32 && offset < U64 && len < U32
    case Write(id, handle, offset, chunk) => id < U32 && |handle| < U32 && offset < U64 && |chunk| < U32
    case OpenDir(id, path) => id < U32 && |path| < U32 && utf8(path)
    case _ => false
  }

  /** The packet a client sends for a request; `tail` is what may follow (attributes, padding). */
  function Encoded(r: Request, tail: seq<Byte>, utf8: seq<Byte> -> bool): seq<Byte>
    requires Sendable(r, utf8)
  {
    match r
    case Open(id, path, flags) => [FXP_OPEN] + (Be32(id) + (PutBytes(path) + (Be32(flags) + tail)))
    case Close(id, handle) => [FXP_CLOSE] + (Be32(id) + (PutBytes(handle) + tail))
    case Read(id, handle, offset, len) =>
      [FXP_READ] + (Be32(id) + (PutBytes(handle) + (Be64(offset) + (Be32(len) + tail))))
    case Write(id, handle, offset, chunk) =>
      [FXP_WRITE] + (Be32(id) + (PutBytes(handle) + (Be64(offset) + (PutBytes(chunk) + tail))))
    case OpenDir(id, path) => [FXP_OPENDIR] + (Be32(id) + (PutBytes(path) + tail))
  }

  /** The packet types, by number (section 3 of draft-ietf-secsh-filexfer-02). */
  lemma RequestsAreNumbered(r: Request, tail: seq<Byte>, utf8: seq<Byte> -> bool)
    requires Sendable(r, utf8)
    ensures Encoded(r, tail, utf8) != []
    ensures Encoded(r, tail, utf8)[0] ==
      if r.Open? then 3 else if r.Close? then 4 else if r.Read? then 5 else if r.Write? then 6 else 11
    ensures Decoded([1] + tail, utf8) == Init
  {
    hide Be32, Be64, PutBytes;
  }

  /** Every request a client can put together is decoded as what it is. */
  lemma DecodeInvertsEncode(r: Request, tail: seq<Byte>, utf8: seq<Byte> -> bool)
    requires Sendable(r, utf8)
    ensures Decoded(Encoded(r, tail, utf8), utf8) == r
  {
    hide Be32, Be64, PutBytes, GetU32, GetU64, GetBytes;
    var pkt := Encoded(r, tail, utf8);
    match r
    case Open(id, path, flags) =>
      Head(FXP_OPEN, id, PutBytes(path) + (Be32(flags) + tail));
      GetPutBytes(path, Be32(flags) + tail);
      GetPutU32(flags, tail);
    case Close(id, handle) =>
      Head(FXP_CLOSE, id, PutBytes(handle) + tail);
      GetPutBytes(handle, tail);
    case Read(id, handle, offset, len) =>
      Head(FXP_READ, id, PutBytes(handle) + (Be64(offset) + (Be32(len) + tail)));
      GetPutBytes(handle, Be64(offset) + (Be32(len) + tail));
      GetPutU64(offset, Be32(len) + tail);
      GetPutU32(len, tail);
    case Write(id, handle, offset, chunk) =>
      Head(FXP_WRITE, id, PutBytes(handle) + (Be64(offset) + (PutBytes(chunk) + tail)));
      GetPutBytes(handle, Be64(offset) + (PutBytes(chunk) + tail));
      GetPutU64(offset, PutBytes(chunk) + tail);
      GetPutBytes(chunk, tail);
    case OpenDir(id, path) =>
      Head(FXP_OPENDIR, id, PutBytes(path) + tail);
      GetPutBytes(path, tail);
  }

  lemma Head(kind: Byte, id: nat, body: seq<Byte>)
    requires id < U32
    ensures ([kind] + (Be32(id) + body))[0] == kind
    ensures GetU32(([kind] + (Be32(id) + body))[1..]) == Taken(id, body)
  {
    GetPutU32(id, body);
    assert ([kind] + (Be32(id) + body))[1..] == Be32(id) + body;
  }
}
