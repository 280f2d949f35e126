/**
  The open handles of one SFTP session: what each request does to them, what they may hold, and what a
  finished upload contains. The emulated filesystem answers through a parameter.
 */
module SftpHandles {
  import opened Bits
  import opened SftpWire
  import opened Wrappers

  type Id = seq<Byte>

  const MAX_SFTP_HANDLES: nat := 64
  const MAX_READ_CHUNK: nat := 32 * 1024
  const SESSION_BUFFER_MULTIPLIER: nat := 2
  const MAX_CONFIGURED_UPLOAD: nat := 1024 * 1024 * 1024  // config.rs, validate

  const FXF_READ: nat := 1
  const FXF_WRITE: nat := 2

  type Cap = n: nat | n <= MAX_CONFIGURED_UPLOAD

  datatype Handle =
    | Dir
    | ReadFile(contents: seq<Byte>)
    | WriteFile(dest: seq<Byte>, data: seq<Byte>, size: nat, hashed: seq<Byte>, truncated: bool)

  function Buffered(h: Handle): nat {
    match h
    case Dir => 0
    case ReadFile(contents) => |contents|
    case WriteFile(_, data, _, _, _) => |data|
  }

  datatype Handles = Handles(open: map<Id, Handle>, next: nat, bufferedBytes: nat)

  /** What the filesystem says about a path: it has no final name, or the node it resolves to. */
  datatype Answer = Nameless | NoSuchFile | Directory | Regular(contents: seq<Byte>)

  datatype Status = Ok | Eof | NoFile | Failure | BadMessage

  datatype Reply = NoReply | StatusReply(status: Status) | HandleReply(handle: Id) | DataReply(data: seq<Byte>) | OtherReply

  datatype Effect = Effect(after: Handles, reply: Reply, completed: Option<Handle>)

  function BufferCap(cap: Cap): nat {
    cap * SESSION_BUFFER_MULTIPLIER
  }

  // ---- Writing -----------------------------------------------------------------------------------

  /** Zero-fill up to `end`. */
  function Grown(data: seq<Byte>, end: nat): (r: seq<Byte>)
    ensures |r| == if end <= |data| then |data| else end
  {
    if end <= |data| then data else data + seq(end - |data|, _ => 0)
  }

  function Patched(data: seq<Byte>, offset: nat, chunk: seq<Byte>): (r: seq<Byte>)
    requires offset + |chunk| <= |data|
    ensures |r| == |data|
  {
    data[..offset] + chunk + data[offset + |chunk|..]
  }

  /** The part of a chunk that lies below the per-file cap. */
  function Kept(cap: Cap, offset: nat, chunk: seq<Byte>): seq<Byte> {
    if offset + |chunk| <= cap then chunk
    else if offset < cap then chunk[..cap - offset]
    else []
  }

  /** One write to a buffer with `budget` bytes left for growth: the new buffer, and whether all of the chunk
      was stored. */
  function Stored(cap: Cap, budget: nat, data: seq<Byte>, offset: nat, chunk: seq<Byte>): (seq<Byte>, bool) {
    var kept := Kept(cap, offset, chunk);
    var end := offset + |kept|;
    if offset + |chunk| > cap && offset >= cap then (data, false)
    else if end > |data| && end - |data| > budget then (data, false)
    else (Patched(Grown(data, end), offset, kept), offset + |chunk| <= cap)
  }

  // ---- Requests ------------------------------------------------------------------------------------

  function Fail(s: Handles): Effect {
    Effect(s, StatusReply(Failure), None)
  }

  function Allocated(s: Handles, h: Handle): Effect
    requires s.next < U32
  {
    var id := Be32(s.next);
    Effect(Handles(s.open[id := h], (s.next + 1) % U32, s.bufferedBytes), HandleReply(id), None)
  }

  function HasFlag(flags: nat, flag: nat): bool
    requires flag > 0
  {
    flags / flag % 2 == 1
  }

  function Opened(cap: Cap, s: Handles, path: seq<Byte>, flags: nat, answer: Answer): Effect
    requires s.next < U32
  {
    if answer.Nameless? || |s.open| >= MAX_SFTP_HANDLES then Fail(s)
    else if HasFlag(flags, FXF_WRITE) then Allocated(s, WriteFile(path, [], 0, [], false))
    else if !HasFlag(flags, FXF_READ) then Fail(s)
    else
      match answer
      case Regular(contents) =>
        if s.bufferedBytes + |contents| > BufferCap(cap) then Fail(s)
        else
          var e := Allocated(s, ReadFile(contents));
          e.(after := e.after.(bufferedBytes := s.bufferedBytes + |contents|))
      case Directory => Fail(s)
      case _ => Effect(s, StatusReply(NoFile), None)
  }

  function OpenedDir(s: Handles, answer: Answer): Effect
    requires s.next < U32
  {
    match answer
    case Directory => if |s.open| >= MAX_SFTP_HANDLES then Fail(s) else Allocated(s, Dir)
    case Regular(_) => Fail(s)
    case _ => Effect(s, StatusReply(NoFile), None)
  }

  function WasRead(s: Handles, id: Id, offset: nat, len: nat): Effect {
    if id !in s.open || !s.open[id].ReadFile? then Fail(s)
    else
      var data := s.open[id].contents;
      if offset >= |data| then Effect(s, StatusReply(Eof), None)
      else
        var end := offset + Min(len, Min(MAX_READ_CHUNK, |data| - offset));
        Effect(s, DataReply(data[offset..end]), None)
  }

  function Min(a: nat, b: nat): nat {
    if a <= b then a else b
  }

  function Written(cap: Cap, s: Handles, id: Id, offset: nat, chunk: seq<Byte>): Effect {
    if id !in s.open || !s.open[id].WriteFile? then Fail(s)
    else
      var h := s.open[id];
      var budget := if s.bufferedBytes >= BufferCap(cap) then 0 else BufferCap(cap) - s.bufferedBytes;
      var (data, whole) := Stored(cap, budget, h.data, offset, chunk);
      var h' := h.(data := data, size := h.size + |chunk|, hashed := h.hashed + chunk, truncated := h.truncated || !whole);
      var grew := if |data| >= |h.data| then |data| - |h.data| else 0;
      Effect(Handles(s.open[id := h'], s.next, s.bufferedBytes + grew), StatusReply(Ok), None)
  }

  function Closed(s: Handles, id: Id): Effect {
    if id !in s.open then Fail(s)
    else
      var freed := Buffered(s.open[id]);
      Effect(Handles(s.open - {id}, s.next, if freed <= s.bufferedBytes then s.bufferedBytes - freed else 0),
             StatusReply(Ok), if s.open[id].WriteFile? then Some(s.open[id]) else None)
  }

  function Handled(cap: Cap, s: Handles, r: Request, answer: Answer): (effect: Effect)
    requires s.next < U32
    ensures effect.after.next < U32
  {
    match r
    case Open(_, path, flags) => Opened(cap, s, path, flags, answer)
    case OpenDir(_, _) => OpenedDir(s, answer)
    case Read(_, id, offset, len) => WasRead(s, id, offset, len)
    case Write(_, id, offset, chunk) => Written(cap, s, id, offset, chunk)
    case Close(_, id) => Closed(s, id)
    case Malformed(_) => Effect(s, StatusReply(BadMessage), None)
    case Ignored => Effect(s, NoReply, None)
    case _ => Effect(s, OtherReply, None)
  }

  // ---- What a write means ----------------------------------------------------------------------------

  datatype WriteOp = WriteOp(offset: nat, chunk: seq<Byte>)

  /** The length of the file that a sequence of writes makes. */
  ghost function Extent(ops: seq<WriteOp>): nat {
    if ops == [] then 0
    else
      var before, end := Extent(ops[..|ops| - 1]), ops[|ops| - 1].offset + |ops[|ops| - 1].chunk|;
      if before >= end then before else end
  }

  /** The byte at `k`: from the last write that covers it, or zero. */
  ghost function ByteAt(ops: seq<WriteOp>, k: nat): Byte {
    if ops == [] then 0
    else
      var op := ops[|ops| - 1];
      if op.offset <= k < op.offset + |op.chunk| then op.chunk[k - op.offset] else ByteAt(ops[..|ops| - 1], k)
  }

  ghost predicate Replays(data: seq<Byte>, ops: seq<WriteOp>) {
    |data| == Extent(ops) && forall k :: 0 <= k < |data| ==> data[k] == ByteAt(ops, k)
  }

  ghost function AllBytes(ops: seq<WriteOp>): seq<Byte> {
    if ops == [] then [] else AllBytes(ops[..|ops| - 1]) + ops[|ops| - 1].chunk
  }

  lemma {:induction false} BeyondExtent(ops: seq<WriteOp>, k: nat)
    requires k >= Extent(ops)
    ensures ByteAt(ops, k) == 0
  {
    if ops != [] {
      BeyondExtent(ops[..|ops| - 1], k);
    }
  }

  lemma StoredReplays(cap: Cap, budget: nat, data: seq<Byte>, ops: seq<WriteOp>, offset: nat, chunk: seq<Byte>)
    requires Replays(data, ops) && Stored(cap, budget, data, offset, chunk).1
    ensures Replays(Stored(cap, budget, data, offset, chunk).0, ops + [WriteOp(offset, chunk)])
  {
    var ops' := ops + [WriteOp(offset, chunk)];
    var data' := Stored(cap, budget, data, offset, chunk).0;
    assert ops'[..|ops|] == ops;
    assert data' == Patched(Grown(data, offset + |chunk|), offset, chunk);
    assert |data'| == Extent(ops');
    forall k | 0 <= k < |data'| ensures data'[k] == ByteAt(ops', k) {
      PatchedAt(data, ops, offset, chunk, k);
    }
  }

  lemma PatchedByte(data: seq<Byte>, offset: nat, chunk: seq<Byte>, k: nat)
    requires k < |Grown(data, offset + |chunk|)|
    ensures Patched(Grown(data, offset + |chunk|), offset, chunk)[k]
         == if offset <= k < offset + |chunk| then chunk[k - offset] else if k < |data| then data[k] else 0
  {
  }

  lemma PatchedAt(data: seq<Byte>, ops: seq<WriteOp>, offset: nat, chunk: seq<Byte>, k: nat)
    requires Replays(data, ops) && k < |Grown(data, offset + |chunk|)|
    ensures Patched(Grown(data, offset + |chunk|), offset, chunk)[k] == ByteAt(ops + [WriteOp(offset, chunk)], k)
  {
    hide Extent, Patched, Grown;
    assert (ops + [WriteOp(offset, chunk)])[..|ops|] == ops;
    PatchedByte(data, offset, chunk, k);
    if k >= |data| {
      BeyondExtent(ops, k);
    }
  }

  lemma StoredIsBounded(cap: Cap, budget: nat, data: seq<Byte>, offset: nat, chunk: seq<Byte>)
    requires |data| <= cap
    ensures var data' := Stored(cap, budget, data, offset, chunk).0;
      |data| <= |data'| <= cap && |data'| - |data| <= budget
  {
  }

  // ---- Accounting -------------------------------------------------------------------------------------

  ghost function Held(open: map<Id, Handle>, ids: set<Id>): nat
    requires ids <= open.Keys
  {
    if ids == {} then 0
    else
      var id :| id in ids;
      Buffered(open[id]) + Held(open, ids - {id})
  }

  lemma {:induction false} TakeOut(open: map<Id, Handle>, ids: set<Id>, id: Id)
    requires ids <= open.Keys && id in ids
    ensures Held(open, ids) == Buffered(open[id]) + Held(open, ids - {id})
    decreases |ids|
  {
    var first :| first in ids && Held(open, ids) == Buffered(open[first]) + Held(open, ids - {first});
    if first != id {
      TakeOut(open, ids - {first}, id);
      TakeOut(open, ids - {id}, first);
      assert ids - {first} - {id} == ids - {id} - {first};
    }
  }

  lemma {:induction false} HeldAgrees(a: map<Id, Handle>, b: map<Id, Handle>, ids: set<Id>)
    requires ids <= a.Keys && ids <= b.Keys && forall id :: id in ids ==> a[id] == b[id]
    ensures Held(a, ids) == Held(b, ids)
    decreases |ids|
  {
    if ids != {} {
      var id :| id in ids;
      TakeOut(a, ids, id);
      TakeOut(b, ids, id);
      HeldAgrees(a, b, ids - {id});
    }
  }

  ghost function Total(open: map<Id, Handle>): nat {
    Held(open, open.Keys)
  }

  lemma TotalRemove(open: map<Id, Handle>, id: Id)
    requires id in open
    ensures Total(open - {id}) == Total(open) - Buffered(open[id])
  {
    TakeOut(open, open.Keys, id);
    assert (open - {id}).Keys == open.Keys - {id};
    HeldAgrees(open, open - {id}, open.Keys - {id});
  }

  lemma TotalPut(open: map<Id, Handle>, id: Id, h: Handle)
    ensures Total(open[id := h]) == Total(open) + Buffered(h) - (if id in open then Buffered(open[id]) else 0)
  {
    var rest := open - {id};
    if id in open {
      TotalRemove(open, id);
    } else {
      assert rest == open;
    }
    TotalRemove(open[id := h], id);
    assert open[id := h] - {id} == rest;
  }

  // ---- Runs ------------------------------------------------------------------------------------------

  datatype Event = Event(request: Request, answer: Answer)

  /** The handles after a run, with the writes made through each handle since it was opened. */
  datatype Tracked = Tracked(handles: Handles, log: map<Id, seq<WriteOp>>, opens: nat)

  function Start(): Tracked {
    Tracked(Handles(map[], 1, 0), map[], 0)
  }

  function Tracking(cap: Cap, t: Tracked, e: Event): (t': Tracked)
    requires t.handles.next < U32
    ensures t'.handles.next < U32
  {
    var effect := Handled(cap, t.handles, e.request, e.answer);
    match effect.reply
    case HandleReply(id) => Tracked(effect.after, t.log[id := []], t.opens + 1)
    case _ =>
      var r := e.request;
      if r.Write? && r.handle in t.log then
        t.(handles := effect.after, log := t.log[r.handle := t.log[r.handle] + [WriteOp(r.offset, r.chunk)]])
      else t.(handles := effect.after)
  }

  function Run(cap: Cap, events: seq<Event>): (t: Tracked)
    ensures t.handles.next < U32
  {
    if events == [] then Start() else Tracking(cap, Run(cap, events[..|events| - 1]), events[|events| - 1])
  }

  /** One write handle: bounded, and faithful to the writes made through it. */
  ghost predicate UploadOk(cap: Cap, h: Handle, ops: seq<WriteOp>)
    requires h.WriteFile?
  {
    && |h.data| <= cap
    && h.hashed == AllBytes(ops) && h.size == |AllBytes(ops)|
    && (!h.truncated ==> Replays(h.data, ops))
  }

  ghost predicate Inv(cap: Cap, t: Tracked) {
    var s := t.handles;
    && s.next < U32
    && |s.open| <= MAX_SFTP_HANDLES
    && Total(s.open) <= s.bufferedBytes <= BufferCap(cap)
    && s.open.Keys <= t.log.Keys
    && (forall id :: id in s.open && s.open[id].WriteFile? ==> UploadOk(cap, s.open[id], t.log[id]))
  }

  /** While handle numbers have not wrapped around, every open handle has a number already given out. */
  ghost predicate Fresh(t: Tracked) {
    && t.handles.next == (1 + t.opens) % U32
    && (forall id :: id in t.handles.open ==> exists k :: 1 <= k <= t.opens && k < U32 && id == Be32(k))
    && Total(t.handles.open) == t.handles.bufferedBytes
  }

  lemma SizeOfPut(open: map<Id, Handle>, id: Id, h: Handle)
    ensures |open[id := h]| <= |open| + 1
    ensures id in open ==> |open[id := h]| == |open|
    ensures |open - {id}| <= |open|
  {
    assert open[id := h].Keys == open.Keys + {id};
    assert (open - {id}).Keys == open.Keys - {id};
  }

  /** Giving out a handle: a number still in use is taken away from its old handle. */
  lemma OpenKeeps(cap: Cap, t: Tracked, h: Handle, charged: nat)
    requires Inv(cap, t) && |t.handles.open| < MAX_SFTP_HANDLES
    requires charged == Buffered(h) && t.handles.bufferedBytes + charged <= BufferCap(cap)
    requires h.WriteFile? ==> h.data == [] && h.hashed == [] && h.size == 0
    ensures var e := Allocated(t.handles, h);
      Inv(cap, Tracked(e.after.(bufferedBytes := t.handles.bufferedBytes + charged), t.log[Be32(t.handles.next) := []], t.opens + 1))
  {
    hide Be32;
    var id := Be32(t.handles.next);
    TotalPut(t.handles.open, id, h);
    SizeOfPut(t.handles.open, id, h);
  }

  lemma WriteKeeps(cap: Cap, t: Tracked, id: Id, offset: nat, chunk: seq<Byte>)
    requires Inv(cap, t) && id in t.handles.open && t.handles.open[id].WriteFile?
    ensures Inv(cap, Tracked(Written(cap, t.handles, id, offset, chunk).after,
                             t.log[id := t.log[id] + [WriteOp(offset, chunk)]], t.opens))
  {
    hide Stored, Replays;
    var s, h, ops := t.handles, t.handles.open[id], t.log[id];
    var budget := if s.bufferedBytes >= BufferCap(cap) then 0 else BufferCap(cap) - s.bufferedBytes;
    var ops' := ops + [WriteOp(offset, chunk)];
    assert UploadOk(cap, h, ops);
    StoredIsBounded(cap, budget, h.data, offset, chunk);
    if !h.truncated && Stored(cap, budget, h.data, offset, chunk).1 {
      StoredReplays(cap, budget, h.data, ops, offset, chunk);
    }
    assert ops'[..|ops|] == ops;
    var h' := Written(cap, s, id, offset, chunk).after.open[id];
    assert UploadOk(cap, h', ops');
    TotalPut(s.open, id, h');
    SizeOfPut(s.open, id, h');
  }

  lemma CloseKeeps(cap: Cap, t: Tracked, id: Id)
    requires Inv(cap, t) && id in t.handles.open
    ensures Inv(cap, t.(handles := Closed(t.handles, id).after))
    ensures Closed(t.handles, id).after.bufferedBytes == t.handles.bufferedBytes - Buffered(t.handles.open[id])
  {
    TotalRemove(t.handles.open, id);
    SizeOfPut(t.handles.open, id, t.handles.open[id]);
  }

  lemma StepKeepsInv(cap: Cap, t: Tracked, e: Event)
    requires Inv(cap, t)
    ensures Inv(cap, Tracking(cap, t, e))
  {
    hide Inv, Be32, Stored;
    InvFacts(cap, t);
    match e.request
    case Open(_, path, flags) =>
      if |t.handles.open| < MAX_SFTP_HANDLES {
        OpenKeeps(cap, t, WriteFile(path, [], 0, [], false), 0);
        if e.answer.Regular? && t.handles.bufferedBytes + |e.answer.contents| <= BufferCap(cap) {
          OpenKeeps(cap, t, ReadFile(e.answer.contents), |e.answer.contents|);
        }
      }
    case OpenDir(_, _) =>
      if |t.handles.open| < MAX_SFTP_HANDLES {
        OpenKeeps(cap, t, Dir, 0);
      }
    case Write(_, id, offset, chunk) =>
      if id in t.handles.open && t.handles.open[id].WriteFile? {
        WriteKeeps(cap, t, id, offset, chunk);
      } else if id in t.log {
        LogElsewhere(cap, t, id, offset, chunk);
      }
    case Close(_, id) =>
      if id in t.handles.open {
        CloseKeeps(cap, t, id);
      }
    case _ =>
  }

  lemma InvFacts(cap: Cap, t: Tracked)
    requires Inv(cap, t)
    ensures t.handles.next < U32 && t.handles.open.Keys <= t.log.Keys && t.handles.bufferedBytes <= BufferCap(cap)
  {
  }

  lemma LogElsewhere(cap: Cap, t: Tracked, id: Id, offset: nat, chunk: seq<Byte>)
    requires Inv(cap, t) && id in t.log && !(id in t.handles.open && t.handles.open[id].WriteFile?)
    ensures Inv(cap, t.(log := t.log[id := t.log[id] + [WriteOp(offset, chunk)]]))
  {
    hide UploadOk, Total, BufferCap;
  }

  lemma {:induction false} RunKeepsInv(cap: Cap, events: seq<Event>)
    ensures Inv(cap, Run(cap, events))
  {
    hide Inv, Tracking;
    if events == [] {
      StartHolds(cap);
    } else {
      RunKeepsInv(cap, events[..|events| - 1]);
      StepKeepsInv(cap, Run(cap, events[..|events| - 1]), events[|events| - 1]);
    }
  }

  lemma StartHolds(cap: Cap)
    ensures Inv(cap, Start()) && Fresh(Start())
  {
  }

  /** Over every run of requests: what the open handles hold never exceeds the counter, nor the counter twice
      the per-file cap; there are at most 64 handles; and every upload is bounded, counts and hashes every
      byte that came in, and, unless it is marked truncated, holds exactly what its writes say. */
  lemma RunIsBounded(cap: Cap, events: seq<Event>, id: Id)
    ensures var t := Run(cap, events);
      && Total(t.handles.open) <= t.handles.bufferedBytes <= 2 * cap
      && |t.handles.open| <= MAX_SFTP_HANDLES
      && (id in t.handles.open && t.handles.open[id].WriteFile? ==>
            && id in t.log
            && UploadOk(cap, t.handles.open[id], t.log[id]))
  {
    hide UploadOk, Total, Run;
    RunKeepsInv(cap, events);
  }

  // ---- The counter is exact until handle numbers wrap --------------------------------------------------

  lemma FreshId(t: Tracked)
    requires Fresh(t) && t.opens < U32 - 1
    ensures t.handles.next < U32 && Be32(t.handles.next) !in t.handles.open
  {
    hide Be32, FromBe32, Total;
    var id := Be32(t.handles.next);
    if id in t.handles.open {
      var k :| 1 <= k <= t.opens && k < U32 && id == Be32(k);
      Be32RoundTrip(k);
      Be32RoundTrip(t.handles.next);
    }
  }

  lemma OpenKeepsFresh(t: Tracked, h: Handle)
    requires Fresh(t) && t.opens < U32 - 1
    ensures t.handles.next < U32
    ensures var e := Allocated(t.handles, h);
      Fresh(Tracked(e.after.(bufferedBytes := t.handles.bufferedBytes + Buffered(h)), t.log[Be32(t.handles.next) := []], t.opens + 1))
  {
    hide Be32, Total, Buffered;
    FreshId(t);
    var id := Be32(t.handles.next);
    TotalPut(t.handles.open, id, h);
    var open' := t.handles.open[id := h];
    forall i | i in open' ensures exists k :: 1 <= k <= t.opens + 1 && k < U32 && i == Be32(k) {
      if i == id {
        assert 1 <= t.opens + 1 <= t.opens + 1 && id == Be32(t.opens + 1);
      } else {
        var k :| 1 <= k <= t.opens && k < U32 && i == Be32(k);
      }
    }
  }

  lemma StepKeepsFresh(cap: Cap, t: Tracked, e: Event)
    requires Inv(cap, t) && Fresh(t) && t.opens < U32 - 1
    ensures Fresh(Tracking(cap, t, e))
    ensures Tracking(cap, t, e).opens <= t.opens + 1
  {
    hide Inv, Be32, Stored, Total, Fresh;
    match e.request
    case Open(_, path, flags) =>
      OpenKeepsFresh(t, WriteFile(path, [], 0, [], false));
      if e.answer.Regular? {
        OpenKeepsFresh(t, ReadFile(e.answer.contents));
      }
      if !Handled(cap, t.handles, e.request, e.answer).reply.HandleReply? {
        QuietKeepsFresh(cap, t, e);
      }
    case OpenDir(_, _) =>
      OpenKeepsFresh(t, Dir);
      if !e.answer.Directory? {
        QuietKeepsFresh(cap, t, e);
      }
    case _ => QuietKeepsFresh(cap, t, e);
  }

  lemma WriteGrows(cap: Cap, t: Tracked, id: Id, offset: nat, chunk: seq<Byte>)
    requires Inv(cap, t) && id in t.handles.open && t.handles.open[id].WriteFile?
    ensures var s' := Written(cap, t.handles, id, offset, chunk).after;
      && s'.open.Keys == t.handles.open.Keys && s'.next == t.handles.next
      && Total(s'.open) - Total(t.handles.open) == s'.bufferedBytes - t.handles.bufferedBytes
  {
    var s, h := t.handles, t.handles.open[id];
    var budget := if s.bufferedBytes >= BufferCap(cap) then 0 else BufferCap(cap) - s.bufferedBytes;
    assert UploadOk(cap, h, t.log[id]);
    StoredIsBounded(cap, budget, h.data, offset, chunk);
    TotalPut(s.open, id, Written(cap, s, id, offset, chunk).after.open[id]);
  }

  lemma {:induction false} FewOpensIsFresh(cap: Cap, events: seq<Event>)
    ensures Run(cap, events).opens <= |events|
    ensures Run(cap, events).opens < U32 ==> Fresh(Run(cap, events))
  {
    hide Inv, Fresh, Be32;
    if events == [] {
      StartHolds(cap);
    } else {
      var before := events[..|events| - 1];
      FewOpensIsFresh(cap, before);
      RunKeepsInv(cap, before);
      var e := Handled(cap, Run(cap, before).handles, events[|events| - 1].request, events[|events| - 1].answer);
      if Run(cap, before).opens < U32 - 1 {
        StepKeepsFresh(cap, Run(cap, before), events[|events| - 1]);
      } else if !e.reply.HandleReply? && Run(cap, before).opens < U32 {
        QuietKeepsFresh(cap, Run(cap, before), events[|events| - 1]);
      }
    }
  }

  /** A step that gives out no handle keeps the counter exact however many there have been. */
  lemma QuietKeepsFresh(cap: Cap, t: Tracked, e: Event)
    requires Inv(cap, t) && Fresh(t) && !Handled(cap, t.handles, e.request, e.answer).reply.HandleReply?
    ensures Fresh(Tracking(cap, t, e))
  {
    hide Inv, Be32, Stored, Total, Fresh;
    InvFacts(cap, t);
    FreshIsExact(t);
    match e.request {
    case Write(_, id, offset, chunk) =>
      if id in t.handles.open && t.handles.open[id].WriteFile? {
        WriteGrows(cap, t, id, offset, chunk);
      }
    case Close(_, id) =>
      if id in t.handles.open {
        CloseKeeps(cap, t, id);
        TotalRemove(t.handles.open, id);
      }
    case _ =>
    }
    FreshStays(t, Tracking(cap, t, e));
  }

  lemma FreshIsExact(t: Tracked)
    requires Fresh(t)
    ensures Total(t.handles.open) == t.handles.bufferedBytes
  {
  }

  lemma FreshStays(t: Tracked, t': Tracked)
    requires Fresh(t) && t'.opens == t.opens && t'.handles.next == t.handles.next
    requires t'.handles.open.Keys <= t.handles.open.Keys && Total(t'.handles.open) == t'.handles.bufferedBytes
    ensures Fresh(t')
  {
    hide Total, Be32;
    forall id | id in t'.handles.open ensures exists k :: 1 <= k <= t'.opens && k < U32 && id == Be32(k) {
      assert id in t.handles.open;
    }
  }

  /** Over every run with fewer than 2^32 opens the counter is exactly what the open handles hold. */
  lemma CounterIsExact(cap: Cap, events: seq<Event>)
    requires Run(cap, events).opens < U32
    ensures Total(Run(cap, events).handles.open) == Run(cap, events).handles.bufferedBytes
  {
    FewOpensIsFresh(cap, events);
  }

  /** Giving out a number that is still in use loses count of what that handle held, so the counter stays
      exact over an open exactly when the number is free or its handle holds nothing. */
  lemma ReuseLosesCount(s: Handles, h: Handle)
    requires s.next < U32 && Total(s.open) == s.bufferedBytes
    ensures var id := Be32(s.next);
      Total(Allocated(s, h).after.open) == s.bufferedBytes + Buffered(h) <==> !(id in s.open && Buffered(s.open[id]) > 0)
  {
    TotalPut(s.open, Be32(s.next), h);
  }

  /** The bytes held by the handle whose number the event's open takes over. */
  function Displaced(cap: Cap, t: Tracked, e: Event): nat
    requires t.handles.next < U32
  {
    match Handled(cap, t.handles, e.request, e.answer).reply
    case HandleReply(id) => if id in t.handles.open then Buffered(t.handles.open[id]) else 0
    case _ => 0
  }

  /** The bytes that the opens of a run have displaced. */
  function AllDisplaced(cap: Cap, events: seq<Event>): nat {
    if events == [] then 0
    else
      var before := events[..|events| - 1];
      AllDisplaced(cap, before) + Displaced(cap, Run(cap, before), events[|events| - 1])
  }

  /** One event moves the counter away from the bytes held by exactly what it displaces. */
  lemma StepDisplaces(cap: Cap, t: Tracked, e: Event)
    requires Inv(cap, t)
    ensures t.handles.next < U32
    ensures var u := Tracking(cap, t, e);
      u.handles.bufferedBytes - Total(u.handles.open) == t.handles.bufferedBytes - Total(t.handles.open) + Displaced(cap, t, e)
  {
    hide Inv, Be32, Stored, Total;
    InvFacts(cap, t);
    if e.request.Open? || e.request.OpenDir? {
      OpenDisplaces(cap, t, e);
    } else {
      OthersDisplaceNothing(cap, t, e);
    }
  }

  lemma OpenDisplaces(cap: Cap, t: Tracked, e: Event)
    requires t.handles.next < U32 && (e.request.Open? || e.request.OpenDir?)
    ensures var u := Tracking(cap, t, e);
      u.handles.bufferedBytes - Total(u.handles.open) == t.handles.bufferedBytes - Total(t.handles.open) + Displaced(cap, t, e)
  {
    hide Be32, Stored, Total;
    match e.request
    case Open(_, path, flags) =>
      TotalPut(t.handles.open, Be32(t.handles.next), WriteFile(path, [], 0, [], false));
      if e.answer.Regular? {
        TotalPut(t.handles.open, Be32(t.handles.next), ReadFile(e.answer.contents));
      }
    case OpenDir(_, _) => TotalPut(t.handles.open, Be32(t.handles.next), Dir);
  }

  lemma OthersDisplaceNothing(cap: Cap, t: Tracked, e: Event)
    requires Inv(cap, t) && t.handles.next < U32 && !e.request.Open? && !e.request.OpenDir?
    ensures var u := Tracking(cap, t, e);
      u.handles.bufferedBytes - Total(u.handles.open) == t.handles.bufferedBytes - Total(t.handles.open) + Displaced(cap, t, e)
  {
    hide Inv, Be32, Stored, Total;
    match e.request
    case Write(_, id, offset, chunk) =>
      if id in t.handles.open && t.handles.open[id].WriteFile? {
        WriteGrows(cap, t, id, offset, chunk);
      }
    case Close(_, id) =>
      if id in t.handles.open {
        CloseKeeps(cap, t, id);
        TotalRemove(t.handles.open, id);
      }
    case _ =>
  }

  /** Over every run, however long: the counter is what the open handles hold and what its opens have displaced. */
  lemma {:induction false} CounterBalances(cap: Cap, events: seq<Event>)
    ensures Run(cap, events).handles.bufferedBytes == Total(Run(cap, events).handles.open) + AllDisplaced(cap, events)
  {
    hide Total, Tracking, Displaced, Inv;
    if events == [] {
      NothingHeld();
    } else {
      var before := events[..|events| - 1];
      CounterBalances(cap, before);
      RunKeepsInv(cap, before);
      StepDisplaces(cap, Run(cap, before), events[|events| - 1]);
    }
  }

  /** No open of the run takes over the number of a handle that holds bytes. */
  ghost predicate NothingDisplaced(cap: Cap, events: seq<Event>) {
    forall k :: 0 <= k < |events| ==> Displaced(cap, Run(cap, events[..k]), events[k]) == 0
  }

  lemma {:induction false} NoneDisplacedIff(cap: Cap, events: seq<Event>)
    ensures AllDisplaced(cap, events) == 0 <==> NothingDisplaced(cap, events)
  {
    hide Displaced, Run;
    if events != [] {
      var last := |events| - 1;
      NoneDisplacedIff(cap, events[..last]);
      assert forall k :: 0 <= k <= last ==> events[..last][..k] == events[..k];
      if NothingDisplaced(cap, events[..last]) && Displaced(cap, Run(cap, events[..last]), events[last]) == 0 {
        forall k | 0 <= k < |events| ensures Displaced(cap, Run(cap, events[..k]), events[k]) == 0 {
          assert k < last ==> events[..last][k] == events[k];
        }
      }
      if NothingDisplaced(cap, events) {
        forall k | 0 <= k < last ensures Displaced(cap, Run(cap, events[..last][..k]), events[..last][k]) == 0 {
          assert events[..last][k] == events[k];
        }
      }
    }
  }

  /** So at the end of a run the counter is exactly what the open handles hold exactly when no open took over the
      number of a handle that held bytes. */
  lemma CounterIsExactIff(cap: Cap, events: seq<Event>)
    ensures Run(cap, events).handles.bufferedBytes == Total(Run(cap, events).handles.open) <==> NothingDisplaced(cap, events)
  {
    hide Run, Total, NothingDisplaced, AllDisplaced;
    CounterBalances(cap, events);
    NoneDisplacedIff(cap, events);
  }

  // ---- A run that gives a live number out again ---------------------------------------------------------

  const ONE_BYTE: Handle := ReadFile([0])
  const OPEN_FILE: Event := Event(Open(0, [], FXF_READ), Regular([0]))
  const OPEN_DIR: Event := Event(OpenDir(0, []), Directory)

  function CloseOf(number: nat): Event
    requires number < U32
  {
    Event(Close(0, Be32(number)), Nameless)
  }

  /** `k` directories are opened and closed while a file stays open. */
  function Churn(k: nat): seq<Event> {
    if k == 0 then [OPEN_FILE] else Churn(k - 1) + [OPEN_DIR] + [CloseOf((1 + k) % U32)]
  }

  lemma RunSnoc(cap: Cap, es: seq<Event>, e: Event)
    ensures Run(cap, es + [e]).handles == Handled(cap, Run(cap, es).handles, e.request, e.answer).after
  {
    assert (es + [e])[..|es|] == es;
  }

  lemma OpenThenClose(cap: Cap, s: Handles, number: nat)
    requires s == Handles(map[Be32(1) := ONE_BYTE], number, 1) && number < U32 && number != 1
    ensures var after := Handled(cap, s, OPEN_DIR.request, OPEN_DIR.answer).after;
      Handled(cap, after, CloseOf(number).request, CloseOf(number).answer).after
        == Handles(map[Be32(1) := ONE_BYTE], (number + 1) % U32, 1)
  {
    Be32RoundTrip(1);
    Be32RoundTrip(number);
    hide Be32, FromBe32;
    var id := Be32(number);
    assert map[Be32(1) := ONE_BYTE][id := Dir] - {id} == map[Be32(1) := ONE_BYTE];
  }

  lemma OpenOnly(cap: Cap)
    requires cap >= 1
    ensures Run(cap, [OPEN_FILE]).handles == Handles(map[Be32(1) := ONE_BYTE], 2, 1)
  {
    hide Be32;
    RunSnoc(cap, [], OPEN_FILE);
    assert [] + [OPEN_FILE] == [OPEN_FILE];
    assert HasFlag(FXF_READ, FXF_READ) && !HasFlag(FXF_READ, FXF_WRITE);
  }

  lemma ChurnOnce(cap: Cap, es: seq<Event>, number: nat)
    requires number < U32 && number != 1 && Run(cap, es).handles == Handles(map[Be32(1) := ONE_BYTE], number, 1)
    ensures Run(cap, es + [OPEN_DIR] + [CloseOf(number)]).handles == Handles(map[Be32(1) := ONE_BYTE], (number + 1) % U32, 1)
  {
    hide Run, Handled, Be32, CloseOf;
    RunSnoc(cap, es, OPEN_DIR);
    RunSnoc(cap, es + [OPEN_DIR], CloseOf(number));
    OpenThenClose(cap, Run(cap, es).handles, number);
  }

  lemma {:induction false} ChurnKeepsFile(cap: Cap, k: nat)
    requires cap >= 1 && k < U32
    ensures Run(cap, Churn(k)).handles == Handles(map[Be32(1) := ONE_BYTE], (2 + k) % U32, 1)
  {
    hide Run, Be32, CloseOf;
    if k == 0 {
      OpenOnly(cap);
    } else {
      ChurnKeepsFile(cap, k - 1);
      ChurnOnce(cap, Churn(k - 1), (1 + k) % U32);
    }
  }

  lemma NothingHeld()
    ensures Total(map[]) == 0
  {
  }

  /** After 2^32 - 1 directories the file's own number comes up again, and the next open takes it: the file's byte
      stays on the counter, and no handle holds it. */
  lemma LiveNumberIsReused(cap: Cap)
    requires cap >= 1
    ensures var t := Run(cap, Churn(U32 - 1)).handles;
      Be32(t.next) in t.open && Buffered(t.open[Be32(t.next)]) == 1 && Total(t.open) == t.bufferedBytes == 1
    ensures var t := Run(cap, Churn(U32 - 1) + [OPEN_DIR]).handles;
      Total(t.open) == 0 && t.bufferedBytes == 1
  {
    hide Run, Churn, Be32, Total;
    ChurnKeepsFile(cap, U32 - 1);
    RunSnoc(cap, Churn(U32 - 1), OPEN_DIR);
    var none: map<Id, Handle> := map[];
    NothingHeld();
    TotalPut(none, Be32(1), ONE_BYTE);
    TotalPut(none, Be32(1), Dir);
    assert none[Be32(1) := ONE_BYTE] == map[Be32(1) := ONE_BYTE];
    assert map[Be32(1) := ONE_BYTE][Be32(1) := Dir] == none[Be32(1) := Dir];
  }

  /** A finished upload is the handle as it was: bounded, hashed in full, and the replay of its writes unless
      it is marked truncated. */
  lemma ClosedUploadIsFaithful(cap: Cap, events: seq<Event>, id: Id)
    ensures var t := Run(cap, events);
      match Closed(t.handles, id).completed
      case Some(h) => h.WriteFile? && id in t.log && UploadOk(cap, h, t.log[id])
      case None => true
  {
    hide UploadOk, Run;
    RunIsBounded(cap, events, id);
  }
}
