/**
  What a client gets back: an upload is what was written unless a write ran into a cap, exactly; and a download read
  to its end is the file.
 */
module SftpUploads {
  import opened Bits
  import opened SftpHandles
  import opened SftpWire
  import opened Wrappers

  // ---- Which write an upload loses ------------------------------------------------------------------

  /** The event gives out the number `id`. */
  predicate Opens(cap: Cap, t: Tracked, e: Event, id: Id)
    requires t.handles.next < U32
  {
    Handled(cap, t.handles, e.request, e.answer).reply == HandleReply(id)
  }

  /** The event writes to the upload `id`, past the cap or by more than the session has left. */
  predicate Loses(cap: Cap, t: Tracked, e: Event, id: Id) {
    && e.request.Write? && e.request.handle == id
    && id in t.handles.open && t.handles.open[id].WriteFile?
    && var end := e.request.offset + |e.request.chunk|;
       end > cap || end - |t.handles.open[id].data| > 2 * cap - t.handles.bufferedBytes
  }

  /** The `k`-th event of the run loses a write to `id`, and the number is not given out again after it. */
  ghost predicate LosesAt(cap: Cap, events: seq<Event>, id: Id, k: nat)
    requires k < |events|
  {
    Loses(cap, Run(cap, events[..k]), events[k], id) && !OpensAfter(cap, events, id, k)
  }

  ghost predicate OpensAfter(cap: Cap, events: seq<Event>, id: Id, k: nat) {
    exists j :: k < j < |events| && Opens(cap, Run(cap, events[..j]), events[j], id)
  }

  ghost predicate LosesSome(cap: Cap, events: seq<Event>, id: Id) {
    exists k :: 0 <= k < |events| && LosesAt(cap, events, id, k)
  }

  /** A run one event longer. */
  lemma LosesStep(cap: Cap, events: seq<Event>, e: Event, id: Id)
    ensures LosesSome(cap, events + [e], id) <==>
      (!Opens(cap, Run(cap, events), e, id) && LosesSome(cap, events, id)) || Loses(cap, Run(cap, events), e, id)
  {
    hide Run, Opens, Loses;
    var all, n := events + [e], |events|;
    assert all[..n] == events && all[n] == e;
    assert forall k :: 0 <= k <= n ==> all[..k] == events[..k];
    assert forall k :: 0 <= k < n ==> all[k] == events[k];
    forall k | 0 <= k < n
      ensures OpensAfter(cap, all, id, k) <==> OpensAfter(cap, events, id, k) || Opens(cap, Run(cap, events), e, id)
    {
      if OpensAfter(cap, events, id, k) {
        var j :| k < j < n && Opens(cap, Run(cap, events[..j]), events[j], id);
        assert Opens(cap, Run(cap, all[..j]), all[j], id);
      }
      if Opens(cap, Run(cap, events), e, id) {
        assert Opens(cap, Run(cap, all[..n]), all[n], id);
      }
    }
    if LosesSome(cap, events, id) && !Opens(cap, Run(cap, events), e, id) {
      var k :| 0 <= k < n && LosesAt(cap, events, id, k);
      assert LosesAt(cap, all, id, k);
    }
    if Loses(cap, Run(cap, events), e, id) {
      assert LosesAt(cap, all, id, n);
    }
    if LosesSome(cap, all, id) {
      var k :| 0 <= k < |all| && LosesAt(cap, all, id, k);
      if k < n {
        assert LosesAt(cap, events, id, k);
      }
    }
  }

  /** One event: a new upload has lost nothing, and an old one has once it loses a write. */
  lemma StepTruncates(cap: Cap, t: Tracked, e: Event, id: Id)
    requires Inv(cap, t) && t.handles.next < U32
    ensures var u := Tracking(cap, t, e).handles.open;
      id in u && u[id].WriteFile? ==>
        if Opens(cap, t, e, id) then !u[id].truncated
        else id in t.handles.open && t.handles.open[id].WriteFile?
             && (u[id].truncated <==> t.handles.open[id].truncated || Loses(cap, t, e, id))
  {
    hide Inv, Be32, Stored;
    InvFacts(cap, t);
    match e.request
    case Write(_, x, offset, chunk) =>
      if x in t.handles.open && t.handles.open[x].WriteFile? {
        StoredIff(cap, t, t.handles.open[x].data, offset, chunk);
      }
    case _ =>
  }

  lemma StoredIff(cap: Cap, t: Tracked, data: seq<Byte>, offset: nat, chunk: seq<Byte>)
    requires t.handles.bufferedBytes <= BufferCap(cap)
    ensures var budget := if t.handles.bufferedBytes >= BufferCap(cap) then 0 else BufferCap(cap) - t.handles.bufferedBytes;
      Stored(cap, budget, data, offset, chunk).1 <==>
        offset + |chunk| <= cap && offset + |chunk| - |data| <= 2 * cap - t.handles.bufferedBytes
  {
    hide Patched, Grown;
  }

  /** Over every run: an upload is marked truncated exactly when one of its writes ended past the cap, or needed more
      growth than twice the cap less the counter at that time. */
  lemma {:induction false} TruncatedIff(cap: Cap, events: seq<Event>, id: Id)
    ensures var open := Run(cap, events).handles.open;
      id in open && open[id].WriteFile? ==> (open[id].truncated <==> LosesSome(cap, events, id))
  {
    hide LosesSome, Opens, Loses, Tracking, Inv;
    if events != [] {
      var before, e := events[..|events| - 1], events[|events| - 1];
      TruncatedIff(cap, before, id);
      RunKeepsInv(cap, before);
      StepTruncates(cap, Run(cap, before), e, id);
      LosesStep(cap, before, e, id);
      assert before + [e] == events;
      OpensLosesNothing(cap, Run(cap, before), e, id);
    }
  }

  lemma OpensLosesNothing(cap: Cap, t: Tracked, e: Event, id: Id)
    requires t.handles.next < U32
    ensures Opens(cap, t, e, id) ==> !Loses(cap, t, e, id)
  {
  }

  /** So a finished upload that has lost no write is exactly what was written to it. */
  lemma FinishedIffWhole(cap: Cap, events: seq<Event>, id: Id)
    ensures var t := Run(cap, events);
      match Closed(t.handles, id).completed
      case None => true
      case Some(h) => id in t.log && (h.truncated <==> LosesSome(cap, events, id)) && (!LosesSome(cap, events, id) ==> Replays(h.data, t.log[id]))
  {
    hide LosesSome, Run, Replays, AllBytes;
    TruncatedIff(cap, events, id);
    ClosedUploadIsFaithful(cap, events, id);
  }

  // ---- Uploads that fit -----------------------------------------------------------------------------

  /** The handles as they would be had nothing been lost. */
  ghost function Ideal(open: map<Id, Handle>, log: map<Id, seq<WriteOp>>): map<Id, Handle> {
    map id | id in open :: IdealHandle(open[id], if id in log then log[id] else [])
  }

  ghost function IdealHandle(h: Handle, ops: seq<WriteOp>): Handle {
    if h.WriteFile? then h.(data := seq(Extent(ops), k => 0)) else h
  }

  /** The bytes the session's open files would take, with those that opens have displaced. */
  ghost function Demand(cap: Cap, events: seq<Event>): nat {
    Total(Ideal(Run(cap, events).handles.open, Run(cap, events).log)) + AllDisplaced(cap, events)
  }

  lemma {:induction false} HeldLess(a: map<Id, Handle>, b: map<Id, Handle>, ids: set<Id>)
    requires ids <= a.Keys && ids <= b.Keys && forall id :: id in ids ==> Buffered(a[id]) <= Buffered(b[id])
    ensures Held(a, ids) <= Held(b, ids)
    decreases |ids|
  {
    if ids != {} {
      var id :| id in ids;
      TakeOut(a, ids, id);
      TakeOut(b, ids, id);
      HeldLess(a, b, ids - {id});
    }
  }

  /** No upload holds more than its writes reach. */
  ghost predicate WithinExtent(t: Tracked) {
    forall id :: id in t.handles.open && t.handles.open[id].WriteFile? ==>
      id in t.log && |t.handles.open[id].data| <= Extent(t.log[id])
  }

  lemma StepKeepsExtent(cap: Cap, t: Tracked, e: Event)
    requires Inv(cap, t) && t.handles.next < U32 && WithinExtent(t)
    ensures WithinExtent(Tracking(cap, t, e))
  {
    hide Inv, Tracking;
    forall id | id in Tracking(cap, t, e).handles.open && Tracking(cap, t, e).handles.open[id].WriteFile?
      ensures var u := Tracking(cap, t, e); id in u.log && |u.handles.open[id].data| <= Extent(u.log[id])
    {
      StepKeepsExtentOf(cap, t, e, id);
    }
  }

  lemma StepKeepsExtentOf(cap: Cap, t: Tracked, e: Event, id: Id)
    requires Inv(cap, t) && t.handles.next < U32
    requires id in t.handles.open && t.handles.open[id].WriteFile? ==> id in t.log && |t.handles.open[id].data| <= Extent(t.log[id])
    ensures var u := Tracking(cap, t, e);
      id in u.handles.open && u.handles.open[id].WriteFile? ==> id in u.log && |u.handles.open[id].data| <= Extent(u.log[id])
  {
    hide Inv, Be32, Stored, Extent, BufferCap;
    InvFacts(cap, t);
    match e.request
    case Write(_, x, offset, chunk) =>
      if x == id && id in t.log {
        ExtentPush(t.log[id], WriteOp(offset, chunk));
        if id in t.handles.open && t.handles.open[id].WriteFile? {
          var budget := if t.handles.bufferedBytes >= BufferCap(cap) then 0 else BufferCap(cap) - t.handles.bufferedBytes;
          StoredReaches(cap, budget, t.handles.open[id].data, offset, chunk);
        }
      }
    case _ =>
  }

  lemma ExtentPush(ops: seq<WriteOp>, op: WriteOp)
    ensures Extent(ops + [op]) == if Extent(ops) >= op.offset + |op.chunk| then Extent(ops) else op.offset + |op.chunk|
  {
    assert (ops + [op])[..|ops|] == ops;
  }

  lemma StoredReaches(cap: Cap, budget: nat, data: seq<Byte>, offset: nat, chunk: seq<Byte>)
    ensures var d := Stored(cap, budget, data, offset, chunk).0; |d| == |data| || |d| <= offset + |chunk|
  {
  }

  lemma {:induction false} RunKeepsExtent(cap: Cap, events: seq<Event>)
    ensures WithinExtent(Run(cap, events))
  {
    hide WithinExtent, Tracking, Inv;
    if events != [] {
      var before := events[..|events| - 1];
      RunKeepsExtent(cap, before);
      RunKeepsInv(cap, before);
      StepKeepsExtent(cap, Run(cap, before), events[|events| - 1]);
    } else {
      NothingExtends();
    }
  }

  lemma NothingExtends()
    ensures WithinExtent(Start())
  {
  }

  /** The writes to `id` end within the cap, and the session's files within twice the cap, all along. */
  ghost predicate AllFits(cap: Cap, events: seq<Event>, id: Id) {
    && (forall k :: 0 <= k < |events| && events[k].request.Write? && events[k].request.handle == id ==>
          events[k].request.offset + |events[k].request.chunk| <= cap)
    && (forall k :: 0 <= k <= |events| ==> Demand(cap, events[..k]) <= 2 * cap)
  }

  /** A write changes no other handle, and logs itself. */
  lemma WriteKeepsOthers(cap: Cap, t: Tracked, e: Event, id: Id)
    requires Inv(cap, t) && t.handles.next < U32 && Loses(cap, t, e, id)
    ensures var u := Tracking(cap, t, e);
      && id in t.log && u.log == t.log[id := t.log[id] + [WriteOp(e.request.offset, e.request.chunk)]]
      && u.handles.open.Keys == t.handles.open.Keys && u.handles.open[id].WriteFile?
      && (forall x :: x in t.handles.open && x != id ==> u.handles.open[x] == t.handles.open[x])
      && Displaced(cap, t, e) == 0
  {
    hide Inv, Be32, Stored;
    InvFacts(cap, t);
  }

  /** The counter's share of the other handles, with the file as far as the write reaches, is within the demand after
      it. */
  lemma DemandOfWrite(t: Tracked, u: Tracked, id: Id, end: nat)
    requires WithinExtent(t) && id in t.handles.open && id in t.log && id in u.log
    requires u.handles.open.Keys == t.handles.open.Keys && u.handles.open[id].WriteFile? && Extent(u.log[id]) >= end
    requires forall x :: x in t.handles.open && x != id ==> u.handles.open[x] == t.handles.open[x]
    requires forall x :: x in t.log && x != id ==> x in u.log && u.log[x] == t.log[x]
    ensures Total(t.handles.open) - Buffered(t.handles.open[id]) + end <= Total(Ideal(u.handles.open, u.log))
  {
    hide Extent;
    var open, ideal := t.handles.open, Ideal(u.handles.open, u.log);
    TakeOut(open, open.Keys, id);
    TakeOut(ideal, open.Keys, id);
    forall x | x in open.Keys - {id} ensures Buffered(open[x]) <= Buffered(ideal[x]) {
    }
    HeldLess(open, ideal, open.Keys - {id});
    assert ideal.Keys == open.Keys;
  }

  /** A write loses nothing where the files with that write would fit. */
  lemma FittingWriteIsStored(cap: Cap, events: seq<Event>, e: Event, id: Id)
    requires Demand(cap, events + [e]) <= 2 * cap
    requires e.request.Write? && e.request.handle == id ==> e.request.offset + |e.request.chunk| <= cap
    ensures !Loses(cap, Run(cap, events), e, id)
  {
    hide Inv, Total, Tracking, WithinExtent, Ideal, Displaced;
    var t := Run(cap, events);
    if Loses(cap, t, e, id) {
      CounterBalances(cap, events);
      RunKeepsExtent(cap, events);
      RunKeepsInv(cap, events);
      assert (events + [e])[..|events|] == events;
      WriteKeepsOthers(cap, t, e, id);
      ExtentPush(t.log[id], WriteOp(e.request.offset, e.request.chunk));
      DemandOfWrite(t, Tracking(cap, t, e), id, e.request.offset + |e.request.chunk|);
    }
  }

  /** An upload whose writes end within the cap, in a session whose files all fit, is never truncated, and is exactly
      what was written to it. */
  lemma FittingUploadIsWhole(cap: Cap, events: seq<Event>, id: Id)
    requires AllFits(cap, events, id)
    ensures var t := Run(cap, events);
      id in t.handles.open && t.handles.open[id].WriteFile? ==>
        !t.handles.open[id].truncated && id in t.log && Replays(t.handles.open[id].data, t.log[id])
  {
    hide Run, Demand, Loses, Replays, AllBytes;
    forall k | 0 <= k < |events| ensures !LosesAt(cap, events, id, k) {
      assert events[..k] + [events[k]] == events[..k + 1];
      FittingWriteIsStored(cap, events[..k], events[k], id);
    }
    TruncatedIff(cap, events, id);
    RunIsBounded(cap, events, id);
  }

  // ---- Whose path an upload has -----------------------------------------------------------------------

  /** The `k`-th event opened `path` for writing as `id`, and the number has not been given out again. */
  ghost predicate OpenedAs(cap: Cap, events: seq<Event>, id: Id, path: seq<Byte>, k: nat)
    requires k < |events|
  {
    && Opens(cap, Run(cap, events[..k]), events[k], id) && !OpensAfter(cap, events, id, k)
    && events[k].request.Open? && events[k].request.path == path && HasFlag(events[k].request.flags, FXF_WRITE)
  }

  lemma StepKeepsPath(cap: Cap, t: Tracked, e: Event, id: Id)
    requires t.handles.next < U32
    ensures var u := Tracking(cap, t, e).handles.open;
      id in u && u[id].WriteFile? ==>
        if Opens(cap, t, e, id) then e.request.Open? && e.request.path == u[id].dest && HasFlag(e.request.flags, FXF_WRITE)
        else id in t.handles.open && t.handles.open[id].WriteFile? && u[id].dest == t.handles.open[id].dest
  {
    hide Be32, Opened, OpenedDir, WasRead, Written, Closed, HasFlag;
    match e.request
    case Open(_, path, flags) => OpenedPath(cap, t.handles, path, flags, e.answer, id);
    case OpenDir(_, _) => OpenedDirPath(t.handles, e.answer, id);
    case Read(_, handle, offset, len) => ReadPath(t.handles, handle, offset, len);
    case Write(_, handle, offset, chunk) => WrittenPath(cap, t.handles, handle, offset, chunk, id);
    case Close(_, handle) => ClosedPath(t.handles, handle, id);
    case _ =>
  }

  lemma OpenedPath(cap: Cap, s: Handles, path: seq<Byte>, flags: nat, answer: Answer, id: Id)
    requires s.next < U32
    ensures var e := Opened(cap, s, path, flags, answer);
      id in e.after.open && e.after.open[id].WriteFile? ==>
        if e.reply == HandleReply(id) then path == e.after.open[id].dest && HasFlag(flags, FXF_WRITE)
        else id in s.open && e.after.open[id] == s.open[id]
  {
    hide Be32, HasFlag;
  }

  lemma OpenedDirPath(s: Handles, answer: Answer, id: Id)
    requires s.next < U32
    ensures var e := OpenedDir(s, answer);
      id in e.after.open && e.after.open[id].WriteFile? ==>
        e.reply != HandleReply(id) && id in s.open && e.after.open[id] == s.open[id]
  {
    hide Be32;
  }

  lemma ReadPath(s: Handles, handle: Id, offset: nat, len: nat)
    ensures var e := WasRead(s, handle, offset, len); e.after == s && !e.reply.HandleReply?
  {
  }

  lemma WrittenPath(cap: Cap, s: Handles, handle: Id, offset: nat, chunk: seq<Byte>, id: Id)
    ensures var e := Written(cap, s, handle, offset, chunk);
      && !e.reply.HandleReply?
      && (id in e.after.open && e.after.open[id].WriteFile? ==>
            id in s.open && s.open[id].WriteFile? && e.after.open[id].dest == s.open[id].dest)
  {
    hide Stored;
  }

  lemma ClosedPath(s: Handles, handle: Id, id: Id)
    ensures var e := Closed(s, handle);
      !e.reply.HandleReply? && (id in e.after.open ==> id in s.open && e.after.open[id] == s.open[id])
  {
  }

  /** Every upload goes to the path it was opened for writing with. */
  lemma {:induction false} UploadKeepsPath(cap: Cap, events: seq<Event>, id: Id)
    ensures var open := Run(cap, events).handles.open;
      id in open && open[id].WriteFile? ==> exists k :: 0 <= k < |events| && OpenedAs(cap, events, id, open[id].dest, k)
  {
    hide Opens, Tracking;
    if events != [] {
      var before, last := events[..|events| - 1], |events| - 1;
      var open := Run(cap, events).handles.open;
      UploadKeepsPath(cap, before, id);
      StepKeepsPath(cap, Run(cap, before), events[last], id);
      if id in open && open[id].WriteFile? {
        if Opens(cap, Run(cap, before), events[last], id) {
          assert OpenedAs(cap, events, id, open[id].dest, last);
        } else {
          var k :| 0 <= k < last && OpenedAs(cap, before, id, open[id].dest, k);
          StillOpenedAs(cap, events, id, open[id].dest, k);
        }
      }
    }
  }

  lemma StillOpenedAs(cap: Cap, events: seq<Event>, id: Id, path: seq<Byte>, k: nat)
    requires events != [] && k < |events| - 1 && OpenedAs(cap, events[..|events| - 1], id, path, k)
    requires !Opens(cap, Run(cap, events[..|events| - 1]), events[|events| - 1], id)
    ensures OpenedAs(cap, events, id, path, k)
  {
    hide Opens, Run;
    var before := events[..|events| - 1];
    assert forall j :: 0 <= j <= |before| ==> before[..j] == events[..j];
    assert forall j :: 0 <= j < |before| ==> before[j] == events[j];
    forall j | k < j < |events| ensures !Opens(cap, Run(cap, events[..j]), events[j], id) {
      if j < |before| {
        assert events[..j] == before[..j] && events[j] == before[j];
      }
    }
  }

  // ---- Downloads ----------------------------------------------------------------------------------------

  /** What a client gets that reads on from `offset`, `len` bytes at a time, until there is no more. */
  function ReadOn(s: Handles, id: Id, offset: nat, len: nat): seq<Byte>
    requires len > 0
    decreases if id in s.open && s.open[id].ReadFile? && offset <= |s.open[id].contents| then |s.open[id].contents| - offset else 0
  {
    match WasRead(s, id, offset, len).reply
    case DataReply(data) => if data == [] then [] else data + ReadOn(s, id, offset + |data|, len)
    case _ => []
  }

  /** Reading a file to its end gives the rest of it, however much is asked for at a time; reading changes nothing, and
      at the end the answer says so. */
  lemma {:induction false} ReadToTheEnd(s: Handles, id: Id, offset: nat, len: nat)
    requires len > 0 && id in s.open && s.open[id].ReadFile? && offset <= |s.open[id].contents|
    ensures ReadOn(s, id, offset, len) == s.open[id].contents[offset..]
    ensures WasRead(s, id, |s.open[id].contents|, len).reply == StatusReply(Eof)
    ensures WasRead(s, id, offset, len).after == s
    decreases |s.open[id].contents| - offset
  {
    hide ReadOn, WasRead;
    var contents := s.open[id].contents;
    ReadOnce(s, id, offset, len);
    ReadOnce(s, id, |contents|, len);
    ReadOnStep(s, id, offset, len);
    if offset < |contents| {
      var n := Min(Min(len, MAX_READ_CHUNK), |contents| - offset);
      ReadToTheEnd(s, id, offset + n, len);
      assert contents[offset..] == contents[offset..offset + n] + contents[offset + n..];
    }
  }

  lemma ReadOnStep(s: Handles, id: Id, offset: nat, len: nat)
    requires len > 0 && id in s.open && s.open[id].ReadFile? && offset <= |s.open[id].contents|
    ensures var contents := s.open[id].contents;
      ReadOn(s, id, offset, len) ==
        if offset == |contents| then []
        else
          var n := Min(Min(len, MAX_READ_CHUNK), |contents| - offset);
          contents[offset..offset + n] + ReadOn(s, id, offset + n, len)
  {
    hide WasRead;
    ReadOnce(s, id, offset, len);
  }

  /** One read: as much as was asked for and there is, up to the chunk limit; nothing exactly at the end. */
  lemma ReadOnce(s: Handles, id: Id, offset: nat, len: nat)
    requires len > 0 && id in s.open && s.open[id].ReadFile?
    ensures var contents := s.open[id].contents;
      WasRead(s, id, offset, len) ==
        if offset >= |contents| then Effect(s, StatusReply(Eof), None)
        else
          var n := Min(Min(len, MAX_READ_CHUNK), |contents| - offset);
          Effect(s, DataReply(contents[offset..offset + n]), None)
    ensures WasRead(s, id, offset, len).reply.DataReply? ==> WasRead(s, id, offset, len).reply.data != []
  {
  }

  lemma DownloadIsTheFile(s: Handles, id: Id, len: nat)
    requires len > 0 && id in s.open && s.open[id].ReadFile?
    ensures ReadOn(s, id, 0, len) == s.open[id].contents
  {
    ReadToTheEnd(s, id, 0, len);
  }

  /** A file that is opened for reading is there to be read, under the number it was given, as long as it fits. */
  lemma OpenedIsReadable(cap: Cap, s: Handles, path: seq<Byte>, contents: seq<Byte>, len: nat)
    requires s.next < U32 && len > 0 && |s.open| < MAX_SFTP_HANDLES && s.bufferedBytes + |contents| <= 2 * cap
    ensures var e := Opened(cap, s, path, FXF_READ, Regular(contents));
      e.reply.HandleReply? && ReadOn(e.after, e.reply.handle, 0, len) == contents
  {
    hide Be32;
    var e := Opened(cap, s, path, FXF_READ, Regular(contents));
    assert HasFlag(FXF_READ, FXF_READ) && !HasFlag(FXF_READ, FXF_WRITE);
    DownloadIsTheFile(e.after, e.reply.handle, len);
  }

  // ---- An upload from beginning to end ------------------------------------------------------------------

  function Flattened(chunks: seq<seq<Byte>>): seq<Byte> {
    if chunks == [] then [] else Flattened(chunks[..|chunks| - 1]) + chunks[|chunks| - 1]
  }

  /** The handles after the chunks have been written one behind the other. */
  function WrittenAll(cap: Cap, s: Handles, id: Id, chunks: seq<seq<Byte>>): Handles {
    if chunks == [] then s
    else
      var before := chunks[..|chunks| - 1];
      Written(cap, WrittenAll(cap, s, id, before), id, |Flattened(before)|, chunks[|chunks| - 1]).after
  }

  lemma AppendIsStored(cap: Cap, budget: nat, data: seq<Byte>, chunk: seq<Byte>)
    requires |data| + |chunk| <= cap && |chunk| <= budget
    ensures Stored(cap, budget, data, |data|, chunk) == (data + chunk, true)
  {
    var end := |data| + |chunk|;
    assert Patched(Grown(data, end), |data|, chunk) == data + chunk;
  }

  lemma {:induction false} ChunksAppend(cap: Cap, s: Handles, id: Id, path: seq<Byte>, chunks: seq<seq<Byte>>)
    requires id in s.open && s.open[id] == WriteFile(path, [], 0, [], false)
    requires |Flattened(chunks)| <= cap && s.bufferedBytes + |Flattened(chunks)| <= 2 * cap
    ensures var t := WrittenAll(cap, s, id, chunks);
      && id in t.open && t.open[id] == WriteFile(path, Flattened(chunks), |Flattened(chunks)|, Flattened(chunks), false)
      && t.bufferedBytes == s.bufferedBytes + |Flattened(chunks)|
      && t.open.Keys == s.open.Keys && forall x :: x in s.open && x != id ==> t.open[x] == s.open[x]
    decreases |chunks|
  {
    hide Stored;
    if chunks != [] {
      var before, chunk := chunks[..|chunks| - 1], chunks[|chunks| - 1];
      ChunksAppend(cap, s, id, path, before);
      var t := WrittenAll(cap, s, id, before);
      var budget := if t.bufferedBytes >= BufferCap(cap) then 0 else BufferCap(cap) - t.bufferedBytes;
      AppendIsStored(cap, budget, Flattened(before), chunk);
    }
  }

  /** A file is opened for writing, written in any pieces one behind the other, and closed: where the file and the
      session fit, what is handed on has the path, and all the bytes, and nothing is left of it. */
  lemma UploadRoundTrip(cap: Cap, s: Handles, path: seq<Byte>, flags: nat, answer: Answer, chunks: seq<seq<Byte>>)
    requires s.next < U32 && |s.open| < MAX_SFTP_HANDLES && !answer.Nameless? && HasFlag(flags, FXF_WRITE)
    requires |Flattened(chunks)| <= cap && s.bufferedBytes + |Flattened(chunks)| <= 2 * cap
    ensures var start := Opened(cap, s, path, flags, answer);
      && start.reply == HandleReply(Be32(s.next))
      && var id := Be32(s.next);
         var closed := Closed(WrittenAll(cap, start.after, id, chunks), id);
         && closed.completed == Some(WriteFile(path, Flattened(chunks), |Flattened(chunks)|, Flattened(chunks), false))
         && closed.reply == StatusReply(Ok) && id !in closed.after.open && closed.after.bufferedBytes == s.bufferedBytes
  {
    hide Be32, WrittenAll;
    var id := Be32(s.next);
    ChunksAppend(cap, Opened(cap, s, path, flags, answer).after, id, path, chunks);
  }

  /** A file gets a handle exactly when there is a name and a free place, and it is to be written, or to be read and there
      and small enough; a refusal says which and changes nothing. */
  lemma OpenSucceedsIff(cap: Cap, s: Handles, path: seq<Byte>, flags: nat, answer: Answer)
    requires s.next < U32
    ensures var e := Opened(cap, s, path, flags, answer);
      var free := !answer.Nameless? && |s.open| < 64;
      var write, read := flags / 2 % 2 == 1, flags % 2 == 1;
      && (e.reply.HandleReply? <==>
            free && (write || (read && answer.Regular? && s.bufferedBytes + |answer.contents| <= 2 * cap)))
      && (!e.reply.HandleReply? ==> e.after == s && e.completed == None)
      && (e.reply == StatusReply(NoFile) <==> free && !write && read && !answer.Regular? && !answer.Directory?)
      && (!e.reply.HandleReply? && e.reply != StatusReply(NoFile) ==> e.reply == StatusReply(Failure))
  {
  }

  /** A number that is not open, or not for that, gets a failure and changes nothing. */
  lemma WrongHandleFails(cap: Cap, s: Handles, id: Id, offset: nat, len: nat, chunk: seq<Byte>)
    ensures !(id in s.open && s.open[id].ReadFile?) ==> WasRead(s, id, offset, len) == Effect(s, StatusReply(Failure), None)
    ensures !(id in s.open && s.open[id].WriteFile?) ==> Written(cap, s, id, offset, chunk) == Effect(s, StatusReply(Failure), None)
    ensures id !in s.open ==> Closed(s, id) == Effect(s, StatusReply(Failure), None)
  {
  }

  /** A request leaves the handles it does not name as they are, unless it is given their number. */
  lemma OthersStay(cap: Cap, s: Handles, r: Request, answer: Answer, id: Id)
    requires s.next < U32 && id in s.open && id != Be32(s.next)
    requires !(r.Write? && r.handle == id) && !(r.Close? && r.handle == id)
    ensures var after := Handled(cap, s, r, answer).after; id in after.open && after.open[id] == s.open[id]
  {
    hide Be32, Stored, HasFlag;
  }

  /** A directory opened for listing gets a handle that holds nothing and hands nothing on. */
  lemma DirectoryOpens(s: Handles)
    requires s.next < U32 && |s.open| < MAX_SFTP_HANDLES
    ensures var e := OpenedDir(s, Directory);
      && e.reply == HandleReply(Be32(s.next)) && e.after.bufferedBytes == s.bufferedBytes
      && Closed(e.after, Be32(s.next)).completed == None && Closed(e.after, Be32(s.next)).after.bufferedBytes == s.bufferedBytes
  {
    hide Be32;
  }
}
