/**
  The SFTP session object: a byte buffer that frames are taken from, and the handles the packets in
  them act on.
 */
module Sftp {
  import opened Bits
  import opened Division
  import opened SftpHandles
  import opened SftpWire
  import opened Wrappers

  const MAX_SFTP_FEED_RESPONSE: nat := 1024 * 1024

  /** What lies outside the session: the validity test of path text, the filesystem's answer for the `k`-th
      packet of a call, and the length of the `k`-th response. */
  datatype World = World(utf8: seq<Byte> -> bool, answers: nat -> Answer, lengths: nat -> nat)

  ghost function Events(frames: seq<seq<Byte>>, w: World): (es: seq<Event>)
    ensures |es| == |frames|
  {
    seq(|frames|, k requires 0 <= k < |frames| => Event(Decoded(frames[k], w.utf8), w.answers(k)))
  }

  /** What handling `es` after `start` makes of each event, in order. */
  ghost function Effects(cap: Cap, start: seq<Event>, es: seq<Event>): (fs: seq<Effect>)
    ensures |fs| == |es|
  {
    if es == [] then []
    else
      var before, e := es[..|es| - 1], es[|es| - 1];
      Effects(cap, start, before) + [Handled(cap, Run(cap, start + before).handles, e.request, e.answer)]
  }

  ghost function RepliesOf(fs: seq<Effect>): seq<Reply> {
    seq(|fs|, k requires 0 <= k < |fs| => fs[k].reply)
  }

  /** The uploads that were finished, in order. */
  ghost function UploadsOf(fs: seq<Effect>): seq<Handle> {
    if fs == [] then []
    else UploadsOf(fs[..|fs| - 1]) + (match fs[|fs| - 1].completed case Some(h) => [h] case None => [])
  }

  class SftpSession {
    const cap: Cap
    var buf: seq<Byte>
    var handles: map<Id, Handle>
    var nextHandle: nat
    var bufferedBytes: nat
    ghost var history: seq<Event>

    function Value(): Handles
      reads this
    {
      Handles(handles, nextHandle, bufferedBytes)
    }

    /** The handles are what the requests so far have made of them. */
    ghost predicate Valid()
      reads this
    {
      Value() == Run(cap, history).handles
    }

    constructor (cap: Cap)
      ensures Valid() && this.cap == cap && buf == [] && history == []
    {
      this.cap := cap;
      buf, handles, nextHandle, bufferedBytes, history := [], map[], 1, 0, [];
    }

    /** Take every whole frame off the buffer and handle it, stopping early once the responses of this call
        reach their cap. What was in the buffer and what came in is the handled frames, each once and in
        order, followed by what is left; only a length prefix over the limit loses bytes. */
    method Feed(data: seq<Byte>, w: World) returns (replies: seq<Reply>, completed: seq<Handle>, ghost frames: seq<seq<Byte>>)
      requires Valid()
      modifies this
      ensures Valid()
      ensures FramesOk(frames) && |replies| == |frames| && history == old(history) + Events(frames, w)
      ensures
        || old(buf) + data == Stream(frames) + buf
        || (buf == [] && exists rest :: old(buf) + data == Stream(frames) + rest && Oversized(rest))
      ensures var effects := Effects(cap, old(history), Events(frames, w));
        replies == RepliesOf(effects) && completed == UploadsOf(effects)
      ensures Incomplete(buf) || TotalLength(w, |frames|) >= MAX_SFTP_FEED_RESPONSE
      ensures forall h :: h in completed ==> h.WriteFile? && |h.data| <= cap
    {
      hide Be32, FromBe32, Run, Decoded, Handled, FramesOk, Stream, Events, Effects, RepliesOf, UploadsOf;
      replies, completed, frames := [], [], [];
      buf := buf + data;
      ghost var stream, start := buf, history;
      var readPos := 0;
      var outLen := 0;
      NothingTaken(stream, start, w);
      NoEffects(cap, start, w);
      while |buf| - readPos >= 4
        invariant Valid() && buf == stream && 0 <= readPos <= |buf|
        invariant FramesOk(frames) && |replies| == |frames| && history == start + Events(frames, w)
        invariant stream == Stream(frames) + buf[readPos..]
        invariant outLen == TotalLength(w, |frames|) < MAX_SFTP_FEED_RESPONSE
        invariant forall h :: h in completed ==> h.WriteFile? && |h.data| <= cap
        invariant replies == RepliesOf(Effects(cap, start, Events(frames, w)))
        invariant completed == UploadsOf(Effects(cap, start, Events(frames, w)))
      {
        ghost var rest := buf[readPos..];
        var prefix := buf[readPos..readPos + 4];
        assert prefix == rest[..4];
        var pktLen := FromBe32(prefix);
        if pktLen > MAX_SFTP_PACKET_LEN {
          assert Oversized(rest);
          buf := [];
          return;
        }
        if |buf| - readPos < 4 + pktLen {
          break;
        }
        var pktEnd := readPos + 4 + pktLen;
        var pkt := buf[readPos + 4..pktEnd];
        var reply, done := HandlePacket(pkt, w.utf8, w.answers(|replies|));
        FrameTaken(frames, stream, readPos, pkt);
        EffectsPush(cap, start, frames, pkt, w);
        EventsPush(start, frames, pkt, w);
        outLen := outLen + w.lengths(|replies|);
        frames := frames + [pkt];
        replies := replies + [reply];
        if done.Some? {
          completed := completed + [done.value];
        }
        readPos := pktEnd;
        if outLen >= MAX_SFTP_FEED_RESPONSE {
          break;
        }
      }
      buf := buf[readPos..];
    }

    /** Decode one packet and act on it. */
    method HandlePacket(pkt: seq<Byte>, utf8: seq<Byte> -> bool, answer: Answer) returns (reply: Reply, completed: Option<Handle>)
      requires Valid()
      modifies this
      ensures Valid() && buf == old(buf)
      ensures history == old(history) + [Event(Decoded(pkt, utf8), answer)]
      ensures var e := Handled(cap, Run(cap, old(history)).handles, Decoded(pkt, utf8), answer);
        Value() == e.after && reply == e.reply && completed == e.completed
      ensures completed.Some? ==> completed.value.WriteFile? && |completed.value.data| <= cap
    {
      hide Be32, FromBe32, Stored, Decoded;
      ghost var event := Event(Decoded(pkt, utf8), answer);
      RunStep(cap, history, event);
      CompletedFits(cap, history, event);
      hide Run;
      reply, completed := NoReply, None;
      match Decoded(pkt, utf8) {
      case Ignored =>
      case Init => reply := OtherReply;
      case Other(_, _, _) => reply := OtherReply;
      case Malformed(_) => reply := StatusReply(BadMessage);
      case Open(_, path, flags) => reply := OpenArm(path, flags, answer);
      case OpenDir(_, _) => reply := OpenDirArm(answer);
      case Read(_, id, offset, len) => reply := ReadArm(id, offset, len);
      case Write(_, id, offset, chunk) => reply := WriteArm(id, offset, chunk);
      case Close(_, id) => reply, completed := CloseArm(id);
      }
      history := history + [event];
    }

    method AllocHandle(h: Handle) returns (id: Id)
      requires nextHandle < U32
      modifies this`handles, this`nextHandle
      ensures id == Be32(old(nextHandle)) && handles == old(handles)[id := h] && nextHandle == (old(nextHandle) + 1) % U32
    {
      id := Be32(nextHandle);
      nextHandle := if nextHandle + 1 == U32 then 0 else nextHandle + 1;  // wrapping_add
      handles := handles[id := h];
    }

    method OpenArm(path: seq<Byte>, flags: nat, answer: Answer) returns (reply: Reply)
      requires nextHandle < U32
      modifies this`handles, this`nextHandle, this`bufferedBytes
      ensures Effect(Value(), reply, None) == Opened(cap, old(Value()), path, flags, answer)
    {
      if answer.Nameless? {
        return StatusReply(Failure);
      }
      if |handles| >= MAX_SFTP_HANDLES {
        return StatusReply(Failure);
      }
      if HasFlag(flags, FXF_WRITE) {
        var id := AllocHandle(WriteFile(path, [], 0, [], false));
        return HandleReply(id);
      } else if HasFlag(flags, FXF_READ) {
        match answer
        case Regular(contents) =>
          if bufferedBytes + |contents| > BufferCap(cap) {
            return StatusReply(Failure);
          }
          bufferedBytes := bufferedBytes + |contents|;
          var id := AllocHandle(ReadFile(contents));
          return HandleReply(id);
        case Directory => return StatusReply(Failure);
        case _ => return StatusReply(NoFile);
      } else {
        return StatusReply(Failure);
      }
    }

    method OpenDirArm(answer: Answer) returns (reply: Reply)
      requires nextHandle < U32
      modifies this`handles, this`nextHandle
      ensures Effect(Value(), reply, None) == OpenedDir(old(Value()), answer)
    {
      match answer
      case Directory =>
        if |handles| >= MAX_SFTP_HANDLES {
          return StatusReply(Failure);
        }
        var id := AllocHandle(Dir);
        return HandleReply(id);
      case Regular(_) => return StatusReply(Failure);
      case _ => return StatusReply(NoFile);
    }

    method ReadArm(id: Id, offset: nat, len: nat) returns (reply: Reply)
      ensures Effect(Value(), reply, None) == WasRead(Value(), id, offset, len)
    {
      if id !in handles || !handles[id].ReadFile? {
        return StatusReply(Failure);
      }
      var data := handles[id].contents;
      if offset >= |data| {
        return StatusReply(Eof);
      }
      var readLen := if len <= MAX_READ_CHUNK then len else MAX_READ_CHUNK;
      if readLen > |data| - offset {
        readLen := |data| - offset;
      }
      return DataReply(data[offset..offset + readLen]);
    }

    /** The buffer grows only as far as the per-file cap and the session budget allow; what is not stored is
        still counted and hashed. */
    method WriteArm(id: Id, offset: nat, chunk: seq<Byte>) returns (reply: Reply)
      modifies this`handles, this`bufferedBytes
      ensures Effect(Value(), reply, None) == Written(cap, old(Value()), id, offset, chunk)
    {
      hide Grown;
      var budgetLeft := if bufferedBytes >= BufferCap(cap) then 0 else BufferCap(cap) - bufferedBytes;
      if id !in handles || !handles[id].WriteFile? {
        return StatusReply(Failure);
      }
      var h := handles[id];
      h := h.(hashed := h.hashed + chunk);
      h := h.(size := h.size + |chunk|);
      var data, grew := h.data, 0;
      var fits;
      var rawEnd := offset + |chunk|;
      if rawEnd <= cap {
        fits, data, grew := GrowTo(data, rawEnd, budgetLeft);
        if fits {
          data := data[..offset] + chunk + data[rawEnd..];
        } else {
          h := h.(truncated := true);
        }
      } else {
        h := h.(truncated := true);
        if offset < cap {
          var take := cap - offset;
          fits, data, grew := GrowTo(data, offset + take, budgetLeft);
          if fits {
            data := data[..offset] + chunk[..take] + data[offset + take..];
          }
        }
      }
      handles := handles[id := h.(data := data)];
      bufferedBytes := bufferedBytes + grew;
      return StatusReply(Ok);
    }

    /** The closure `grow_to`. */
    method GrowTo(data: seq<Byte>, end: nat, budget: nat) returns (ok: bool, r: seq<Byte>, grew: nat)
      ensures ok <==> end <= |data| || end - |data| <= budget
      ensures r == if ok then Grown(data, end) else data
      ensures grew == |r| - |data|
    {
      if end <= |data| {
        return true, data, 0;
      }
      var extra := end - |data|;
      if extra > budget {
        return false, data, 0;
      }
      return true, data + seq(extra, _ => 0), extra;
    }

    /** The channel closes: every write handle still open that has received anything is handed on as an upload,
        once, and the others are dropped. The order is that of a hash map. */
    method IntoPendingUploads() returns (completed: seq<Handle>, ghost ids: seq<Id>)
      requires Valid()
      ensures Collected(handles, {}, completed, ids) && |completed| == |ids|
      ensures forall k :: 0 <= k < |ids| ==>
        var t := Run(cap, history); ids[k] in t.log && completed[k].WriteFile? && UploadOk(cap, completed[k], t.log[ids[k]])
    {
      hide Run, UploadOk, Collected;
      completed, ids := [], [];
      var left := handles.Keys;
      NothingCollected(handles);
      while left != {}
        invariant left <= handles.Keys && Collected(handles, left, completed, ids)
        decreases |left|
      {
        var id :| id in left;
        CollectsOneMore(handles, left, completed, ids, id);
        if handles[id].WriteFile? && (handles[id].size > 0 || handles[id].data != []) {
          completed, ids := completed + [handles[id]], ids + [id];
        }
        left := left - {id};
      }
      PendingAreFaithful(cap, history, completed, ids);
    }

    method CloseArm(id: Id) returns (reply: Reply, completed: Option<Handle>)
      modifies this`handles, this`bufferedBytes
      ensures Effect(Value(), reply, completed) == Closed(old(Value()), id)
    {
      if id !in handles {
        return StatusReply(Failure), None;
      }
      var h := handles[id];
      handles := handles - {id};
      bufferedBytes := if Buffered(h) <= bufferedBytes then bufferedBytes - Buffered(h) else 0;
      return StatusReply(Ok), if h.WriteFile? then Some(h) else None;
    }
  }

  /** A write handle that has received anything. */
  predicate Pending(h: Handle) {
    h.WriteFile? && (h.size > 0 || h.data != [])
  }

  /** `completed` are the pending handles whose ids are not in `left`, each once, in the order of `ids`. */
  ghost predicate Collected(open: map<Id, Handle>, left: set<Id>, completed: seq<Handle>, ids: seq<Id>) {
    && |completed| == |ids|
    && (forall k :: 0 <= k < |ids| ==> ids[k] in open && ids[k] !in left && Pending(open[ids[k]]) && completed[k] == open[ids[k]])
    && (forall j, k :: 0 <= j < k < |ids| ==> ids[j] != ids[k])
    && (forall id :: id in open && id !in left && Pending(open[id]) ==> id in ids)
  }

  lemma NothingCollected(open: map<Id, Handle>)
    ensures Collected(open, open.Keys, [], [])
  {
  }

  lemma CollectsOneMore(open: map<Id, Handle>, left: set<Id>, completed: seq<Handle>, ids: seq<Id>, id: Id)
    requires Collected(open, left, completed, ids) && id in left && id in open
    ensures Pending(open[id]) ==> Collected(open, left - {id}, completed + [open[id]], ids + [id])
    ensures !Pending(open[id]) ==> Collected(open, left - {id}, completed, ids)
  {
    hide Pending;
  }

  /** What is pending at the end of a run is, like what was closed, bounded, hashed in full, and the replay of its
      writes unless it is marked truncated. */
  lemma PendingIsFaithful(cap: Cap, history: seq<Event>, id: Id)
    ensures var t := Run(cap, history);
      id in t.handles.open && Pending(t.handles.open[id]) ==> id in t.log && UploadOk(cap, t.handles.open[id], t.log[id])
  {
    hide UploadOk, Run;
    RunIsBounded(cap, history, id);
  }

  lemma PendingAreFaithful(cap: Cap, history: seq<Event>, completed: seq<Handle>, ids: seq<Id>)
    requires Collected(Run(cap, history).handles.open, {}, completed, ids)
    ensures |completed| == |ids|
    ensures var t := Run(cap, history);
      forall k :: 0 <= k < |ids| ==> ids[k] in t.log && completed[k].WriteFile? && UploadOk(cap, completed[k], t.log[ids[k]])
  {
    hide Run, UploadOk;
    var t := Run(cap, history);
    forall k | 0 <= k < |ids| ensures ids[k] in t.log && completed[k].WriteFile? && UploadOk(cap, completed[k], t.log[ids[k]]) {
      PendingIsFaithful(cap, history, ids[k]);
    }
  }

  /** A handle that is not pending has lost nothing: nothing was ever written to it. */
  lemma IdleIsEmpty(cap: Cap, history: seq<Event>, id: Id)
    ensures var t := Run(cap, history);
      id in t.handles.open && t.handles.open[id].WriteFile? && !Pending(t.handles.open[id]) ==>
        id in t.log && AllBytes(t.log[id]) == []
  {
    hide Run;
    RunIsBounded(cap, history, id);
  }

  lemma RunStep(cap: Cap, history: seq<Event>, e: Event)
    ensures Run(cap, history + [e]).handles == Handled(cap, Run(cap, history).handles, e.request, e.answer).after
  {
    assert (history + [e])[..|history|] == history;
    hide Handled;
  }

  lemma CompletedFits(cap: Cap, history: seq<Event>, e: Event)
    ensures var done := Handled(cap, Run(cap, history).handles, e.request, e.answer).completed;
      done.Some? ==> done.value.WriteFile? && |done.value.data| <= cap
  {
    if e.request.Close? {
      ClosedUploadIsFaithful(cap, history, e.request.handle);
    }
    hide Run, Replays, AllBytes;
  }

  /** The length of the first `n` responses. */
  ghost function TotalLength(w: World, n: nat): nat {
    if n == 0 then 0 else TotalLength(w, n - 1) + w.lengths(n - 1)
  }

  lemma NothingTaken(stream: seq<Byte>, start: seq<Event>, w: World)
    ensures FramesOk([]) && stream == Stream([]) + stream[0..] && start + Events([], w) == start
  {
  }

  lemma NoEffects(cap: Cap, start: seq<Event>, w: World)
    ensures RepliesOf(Effects(cap, start, Events([], w))) == [] && UploadsOf(Effects(cap, start, Events([], w))) == []
  {
    assert Events([], w) == [];
  }

  lemma EffectsPush(cap: Cap, start: seq<Event>, frames: seq<seq<Byte>>, pkt: seq<Byte>, w: World)
    ensures var e := Handled(cap, Run(cap, start + Events(frames, w)).handles, Decoded(pkt, w.utf8), w.answers(|frames|));
      var effects, effects' := Effects(cap, start, Events(frames, w)), Effects(cap, start, Events(frames + [pkt], w));
      && RepliesOf(effects') == RepliesOf(effects) + [e.reply]
      && UploadsOf(effects') == UploadsOf(effects) + (match e.completed case Some(h) => [h] case None => [])
  {
    hide Handled, Run, Decoded;
    var es := Events(frames, w);
    assert Events(frames + [pkt], w) == es + [Event(Decoded(pkt, w.utf8), w.answers(|frames|))];
    var es' := Events(frames + [pkt], w);
    assert es'[..|es|] == es;
    var effects' := Effects(cap, start, es');
    assert effects'[..|es|] == Effects(cap, start, es);
  }

  lemma TakeFrame(buf: seq<Byte>, at: nat, pkt: seq<Byte>)
    requires at + 4 + |pkt| <= |buf| && |pkt| < U32
    requires FromBe32(buf[at..at + 4]) == |pkt| && pkt == buf[at + 4..at + 4 + |pkt|]
    ensures buf[at..] == Framed(pkt) + buf[at + 4 + |pkt|..]
  {
    FromBe32RoundTrip(buf[at..at + 4]);
  }

  lemma FrameTaken(frames: seq<seq<Byte>>, stream: seq<Byte>, at: nat, pkt: seq<Byte>)
    requires FramesOk(frames) && at + 4 + |pkt| <= |stream| && |pkt| <= MAX_SFTP_PACKET_LEN
    requires stream == Stream(frames) + stream[at..]
    requires FromBe32(stream[at..at + 4]) == |pkt| && pkt == stream[at + 4..at + 4 + |pkt|]
    ensures FramesOk(frames + [pkt]) && stream == Stream(frames + [pkt]) + stream[at + 4 + |pkt|..]
  {
    hide Stream, Framed, FromBe32;
    TakeFrame(stream, at, pkt);
    ConcatAssoc(Stream(frames), Framed(pkt), stream[at + 4 + |pkt|..]);
    StreamPush(frames, pkt);
  }

  lemma EventsPush(start: seq<Event>, frames: seq<seq<Byte>>, pkt: seq<Byte>, w: World)
    ensures start + Events(frames + [pkt], w) == start + Events(frames, w) + [Event(Decoded(pkt, w.utf8), w.answers(|frames|))]
  {
    hide Decoded;
    assert Events(frames + [pkt], w) == Events(frames, w) + [Event(Decoded(pkt, w.utf8), w.answers(|frames|))];
  }

  // ---- Whole conversations ---------------------------------------------------------------------------

  /** One call of `Feed`: what came in, what was handled, what was left in the buffer. */
  datatype Call = Call(data: seq<Byte>, frames: seq<seq<Byte>>, left: seq<Byte>)

  /** Calls on one session, none of which met a length prefix over the limit. */
  ghost predicate Conversation(before: seq<Byte>, calls: seq<Call>)
    decreases |calls|
  {
    calls != [] ==>
      && FramesOk(calls[0].frames)
      && before + calls[0].data == Stream(calls[0].frames) + calls[0].left
      && Conversation(calls[0].left, calls[1..])
  }

  ghost function AllData(calls: seq<Call>): seq<Byte> {
    if calls == [] then [] else calls[0].data + AllData(calls[1..])
  }

  ghost function AllFrames(calls: seq<Call>): seq<seq<Byte>> {
    if calls == [] then [] else calls[0].frames + AllFrames(calls[1..])
  }

  ghost function Left(before: seq<Byte>, calls: seq<Call>): seq<Byte> {
    if calls == [] then before else calls[|calls| - 1].left
  }

  /** Over a conversation, the frames handled, re-prefixed, and the bytes still buffered are all the bytes
      received, in order. */
  lemma {:induction false} ConversationConserves(before: seq<Byte>, calls: seq<Call>)
    requires Conversation(before, calls)
    ensures FramesOk(AllFrames(calls))
    ensures before + AllData(calls) == Stream(AllFrames(calls)) + Left(before, calls)
    decreases |calls|
  {
    hide Stream;
    if calls == [] {
      hide *;
      EmptyConversation(before);
    } else {
      ConversationConserves(calls[0].left, calls[1..]);
      StreamConcat(calls[0].frames, AllFrames(calls[1..]));
      ConcatAssoc(before, calls[0].data, AllData(calls[1..]));
      ConcatAssoc(Stream(calls[0].frames), calls[0].left, AllData(calls[1..]));
      ConcatAssoc(Stream(calls[0].frames), Stream(AllFrames(calls[1..])), Left(before, calls));
    }
  }

  lemma EmptyConversation(before: seq<Byte>)
    ensures FramesOk(AllFrames([])) && before + AllData([]) == Stream(AllFrames([])) + Left(before, [])
  {
    assert Stream([]) == [];
  }

  /** How the bytes were cut into calls does not matter: two conversations over the same bytes handle the
      same frames, up to how far each has got, and exactly the same once neither has a whole frame left. */
  lemma ChunkingIsIrrelevant(a: seq<Call>, b: seq<Call>)
    requires Conversation([], a) && Conversation([], b) && AllData(a) == AllData(b)
    ensures AllFrames(a) <= AllFrames(b) || AllFrames(b) <= AllFrames(a)
    ensures Incomplete(Left([], a)) && Incomplete(Left([], b)) ==> AllFrames(a) == AllFrames(b) && Left([], a) == Left([], b)
  {
    hide Stream, Incomplete, Conversation;
    ConversationConserves([], a);
    ConversationConserves([], b);
    FramesUnique(AllFrames(a), Left([], a), AllFrames(b), Left([], b));
  }
}
