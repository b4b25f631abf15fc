/**
 * One client over every run: the request scan, the keep-alive counters, the chunk plan and the
 * bytes written, kept by every step a client can take.
 */
module ClientProofs {
  import opened Text
  import opened HttpFormat
  import opened EngineSpec

  // ----- chunk plans

  /** The data chunks that a size breaks into: full ones, then the remainder. */
  function Chunks(n: nat, size: nat): (r: seq<nat>)
    requires n > 0 ==> size > 0
    ensures AllPositive(r) && Sum(r) == n
    ensures forall i :: 0 <= i < |r| ==> r[i] <= size
  {
    if n == 0 then []
    else
      var d := Min(size, n);
      [d] + Chunks(n - d, size)
  }

  /** The plan made for a chunked response of size n. */
  function PlanFor(cfg: Config, n: nat): seq<nat> {
    Chunks(n, ChunkSizeFor(cfg, n))
  }

  /** A response the configuration allows, in the chunks planned for it. */
  ghost predicate Allowed(cfg: Config, r: Response) {
    match r
    case ContentOf(n) => SendsContent(cfg) && cfg.minSize <= n <= cfg.maxSize
    case ChunksOf(sizes) =>
      SendsChunks(cfg) && cfg.minChunkSize <= Sum(sizes) <= cfg.maxChunkSize && sizes == PlanFor(cfg, Sum(sizes))
  }

  // ----- the invariant of a client between events

  function ScanStart(marks: seq<nat>): nat {
    if marks == [] then 0 else marks[|marks| - 1] + 2
  }

  /** Each request is the first one that ends at or after the point where the previous one was popped. */
  ghost predicate Recognised(recv: string, marks: seq<nat>) {
    forall i :: 0 <= i < |marks| ==> FirstEnd(recv, ScanStart(marks[..i])) == Some(marks[i])
  }

  /** No request ends below the saved offset, now or after any later arrival. */
  ghost predicate ScanOk(c: Client) {
    && (c.offset == 0 || c.offset + 2 <= |c.inbuf|)
    && (forall q :: 0 <= q < c.offset ==> !EndsRequest(c.inbuf, q))
    && |c.log.marks| == c.reqs
    && ScanStart(c.log.marks) + |c.inbuf| == |c.log.recv|
    && c.inbuf == c.log.recv[ScanStart(c.log.marks)..]
    && Recognised(c.log.recv, c.log.marks)
  }

  /** At most one response is owed, of a configured kind; chunk state exists only while a chunked one is. */
  ghost predicate ProtocolOk(cfg: Config, c: Client) {
    && c.resps <= c.reqs <= c.resps + 1
    && c.blockNum == |c.log.blocks|
    && (c.reqs == c.resps || !c.chunked ==> c.blockNum == 0 && c.lastData == 0)
    && (c.resps < c.reqs ==> if c.chunked then SendsChunks(cfg) && PlanOk(cfg, c) else SendsContent(cfg))
  }

  /** What is written and what is left of a chunked response are the two parts of its plan. */
  ghost predicate PlanOk(cfg: Config, c: Client) {
    && cfg.minChunkSize <= c.log.plan <= cfg.maxChunkSize
    && c.chunkSize == ChunkSizeFor(cfg, c.log.plan)
    && c.lastData <= c.log.plan
    && c.log.blocks + Chunks(c.lastData, c.chunkSize) == PlanFor(cfg, c.log.plan)
  }

  /** The bytes written are the completed responses and the open part of the one in progress. */
  ghost predicate StreamOk(cfg: Config, c: Client) {
    && c.log.out == Wires(c.log.done) + Unfinished(c.log.blocks)
    && |c.log.done| == c.resps
    && AllPositive(c.log.blocks)
    && forall i :: 0 <= i < |c.log.done| ==> Allowed(cfg, c.log.done[i])
  }

  ghost predicate ClientOk(cfg: Config, c: Client) {
    ScanOk(c) && ProtocolOk(cfg, c) && StreamOk(cfg, c) && (c.timer.Some? <==> c.reqs > 0)
  }

  // ----- sending

  lemma {:induction false} SendContentKeeps(cfg: Config, c: Client, draw: nat)
    requires c.resps < c.reqs && !c.chunked
    requires ProtocolOk(cfg, c) && StreamOk(cfg, c)
    ensures ProtocolOk(cfg, SendContent(cfg, c, draw)) && StreamOk(cfg, SendContent(cfg, c, draw))
  {
    hide ContentWire, Wires, Unfinished, Head, ChunkLines;
    var r := ContentOf(ContentSize(cfg, draw));
    var c' := SendContent(cfg, c, draw);
    WiresSnoc(c.log.done, r);
    assert c.log.blocks == [];
    UnfinishedEnd([]);
    assert c'.log.out == Wires(c'.log.done) + Unfinished([]);
  }

  lemma {:induction false} NextBlockOfPlan(c: Client)
    requires c.lastData > 0 && c.chunkSize > 0
    ensures var d := NextBlock(c);
            d > 0 && Chunks(c.lastData, c.chunkSize) == [d] + Chunks(c.lastData - d, c.chunkSize)
  {
  }

  lemma SendBlockKeepsPlan(cfg: Config, c: Client)
    requires c.resps < c.reqs && c.chunked && c.lastData > 0 && ProtocolOk(cfg, c)
    ensures ProtocolOk(cfg, SendChunk(c))
  {
    hide ChunkWire, Head, ChunkLines, Chunks;
    var d := NextBlock(c);
    NextBlockOfPlan(c);
    var left := Chunks(c.lastData - d, c.chunkSize);
    assert c.log.blocks + ([d] + left) == c.log.blocks + [d] + left;
  }

  lemma SendBlockKeepsStream(cfg: Config, c: Client)
    requires c.lastData > 0 && c.chunkSize > 0 && c.blockNum == |c.log.blocks| && StreamOk(cfg, c)
    ensures StreamOk(cfg, SendChunk(c))
  {
    hide ChunkWire, Wires, Unfinished, Head, ChunkLines, Allowed;
    var d := NextBlock(c);
    UnfinishedSnoc(c.log.blocks, d);
    var piece := HeadOnce(c.log.blocks == []) + ChunkWire(d);
    assert SendChunk(c).log.out == c.log.out + piece;
    assert Wires(c.log.done) + Unfinished(c.log.blocks) + piece
        == Wires(c.log.done) + (Unfinished(c.log.blocks) + piece);
  }

  lemma SendLastKeeps(cfg: Config, c: Client)
    requires c.resps < c.reqs && c.chunked && c.lastData == 0
    requires ProtocolOk(cfg, c) && StreamOk(cfg, c)
    ensures ProtocolOk(cfg, SendChunk(c)) && StreamOk(cfg, SendChunk(c))
  {
    hide Wires, Unfinished, Head, ChunkLines, ChunksWire;
    var r := ChunksOf(c.log.blocks);
    var c' := SendChunk(c);
    assert c.log.blocks == PlanFor(cfg, c.log.plan) by {
      assert c.log.blocks + [] == c.log.blocks;
    }
    WiresSnoc(c.log.done, r);
    UnfinishedEnd(c.log.blocks);
    assert (c.blockNum == 0) == (c.log.blocks == []);
    var piece := HeadOnce(c.log.blocks == []) + LAST_CHUNK;
    assert c'.log.out == c.log.out + piece;
    assert c'.log.out == Wires(c.log.done) + (Unfinished(c.log.blocks) + piece);
  }

  /** A pending response with bytes left has a chunk size to cut them by. */
  lemma PendingChunkSize(cfg: Config, c: Client)
    requires ProtocolOk(cfg, c) && c.resps < c.reqs && c.chunked
    ensures c.lastData > 0 ==> c.chunkSize > 0
  {
  }

  lemma PendingPlan(cfg: Config, c: Client)
    requires c.resps < c.reqs && c.chunked && ProtocolOk(cfg, c)
    ensures c.blockNum == |c.log.blocks| && PlanOk(cfg, c)
  {
  }

  lemma SendKeeps(cfg: Config, c: Client, draw: nat)
    requires c.resps < c.reqs
    requires ProtocolOk(cfg, c) && StreamOk(cfg, c)
    ensures var c' := Send(cfg, c, draw); ProtocolOk(cfg, c') && StreamOk(cfg, c')
  {
    hide ProtocolOk, StreamOk, SendChunk, SendContent;
    if !c.chunked {
      SendContentKeeps(cfg, c, draw);
    } else if c.lastData > 0 {
      assert c.blockNum == |c.log.blocks| && PlanOk(cfg, c) by { PendingPlan(cfg, c); }
      SendBlockKeepsPlan(cfg, c);
      SendBlockKeepsStream(cfg, c);
    } else {
      SendLastKeeps(cfg, c);
    }
  }

  /** Sending touches nothing that the scan or the timer uses. */
  lemma SendKeepsScan(cfg: Config, c: Client, draw: nat)
    ensures var c' := Send(cfg, c, draw);
            c'.(resps := c.resps, blockNum := c.blockNum, lastData := c.lastData, log := c.log) == c
            && c'.log.recv == c.log.recv && c'.log.marks == c.log.marks && c'.log.plan == c.log.plan
  {
    hide ContentWire, Head, ChunkLines, ChunkWire;
  }

  lemma TimerKeeps(cfg: Config, c: Client, now: int, inp: TimerInput)
    requires ClientOk(cfg, c)
    ensures var r := OnTimer(cfg, c, now, inp); r.Some? ==> ClientOk(cfg, r.value)
  {
    hide Send, StreamOk;
    if c.resps < c.reqs {
      SendKeeps(cfg, c, inp.size);
      SendKeepsScan(cfg, c, inp.size);
    }
  }

  // ----- receiving

  lemma {:induction false} FirstEndStable(s: string, more: string, from: nat)
    requires FirstEnd(s, from).Some?
    ensures FirstEnd(s + more, from) == FirstEnd(s, from)
    decreases |s| - from
  {
    if !EndsRequest(s, from) {
      FirstEndStable(s, more, from + 1);
    }
  }

  /** Scanning on from a point that has no request end below it finds what a scan from 0 finds. */
  lemma {:induction false} ResumedScan(s: string, from: nat)
    requires forall q :: 0 <= q < from ==> !EndsRequest(s, q)
    ensures FirstEnd(s, from) == FirstEnd(s, 0)
  {
    if from > 0 {
      ResumedScan(s, from - 1);
    }
  }

  /** A scan of a suffix finds what a scan of the whole finds from there. */
  lemma {:induction false} SuffixScan(s: string, base: nat, from: nat)
    requires base <= |s|
    ensures FirstEnd(s, base + from)
         == (match FirstEnd(s[base..], from) case None => None case Some(p) => Some(base + p))
    decreases |s| - from
  {
    if from + 2 < |s[base..]| && !EndsRequest(s[base..], from) {
      SuffixScan(s, base, from + 1);
    }
  }

  lemma RecognisedStable(recv: string, more: string, marks: seq<nat>)
    requires Recognised(recv, marks)
    ensures Recognised(recv + more, marks)
  {
    forall i | 0 <= i < |marks| ensures FirstEnd(recv + more, ScanStart(marks[..i])) == Some(marks[i]) {
      FirstEndStable(recv, more, ScanStart(marks[..i]));
    }
  }

  lemma ReceiveKeeps(c: Client, data: string)
    requires ScanOk(c)
    ensures ScanOk(Receive(c, data))
  {
    RecognisedStable(c.log.recv, data, c.log.marks);
    var c' := Receive(c, data);
    forall q | 0 <= q < c'.offset ensures !EndsRequest(c'.inbuf, q) {
      assert !EndsRequest(c.inbuf, q);
    }
  }

  /** With no request end from the offset on, the new offset has none below it. */
  lemma ScanOnKeeps(c: Client)
    requires ScanOk(c) && FirstEnd(c.inbuf, c.offset).None?
    ensures ScanOk(c.(offset := Max(c.offset, |c.inbuf| - 2)))
  {
  }

  lemma RecognisedSnoc(recv: string, marks: seq<nat>, mark: nat)
    requires Recognised(recv, marks) && FirstEnd(recv, ScanStart(marks)) == Some(mark)
    ensures Recognised(recv, marks + [mark])
  {
    var all := marks + [mark];
    forall i | 0 <= i < |all| ensures FirstEnd(recv, ScanStart(all[..i])) == Some(all[i]) {
      if i < |marks| {
        assert all[..i] == marks[..i];
      } else {
        assert all[..i] == marks;
      }
    }
  }

  /** Popping a recognised request re-establishes the scan invariant on what stays buffered. */
  lemma TakeKeeps(c: Client, p: nat, interval: int)
    requires ScanOk(c) && FirstEnd(c.inbuf, c.offset) == Some(p)
    ensures ScanOk(TakeRequest(c, p, interval).(reqs := c.reqs + 1))
  {
    hide Recognised, FirstEnd;
    var base := ScanStart(c.log.marks);
    assert FirstEnd(c.log.recv, base) == Some(base + p) by { MarkInStream(c, p); }
    RecognisedSnoc(c.log.recv, c.log.marks, base + p);
    assert c.log.recv[base..][p + 2..] == c.log.recv[base + p + 2..];
  }

  /** What the resumed scan of the buffer finds is what a scan of all that arrived finds. */
  lemma MarkInStream(c: Client, p: nat)
    requires ScanOk(c) && FirstEnd(c.inbuf, c.offset) == Some(p)
    ensures FirstEnd(c.log.recv, ScanStart(c.log.marks)) == Some(ScanStart(c.log.marks) + p)
    ensures p + 2 < |c.inbuf|
  {
    hide Recognised;
    ResumedScan(c.inbuf, c.offset);
    SuffixScan(c.log.recv, ScanStart(c.log.marks), 0);
  }

  // ----- http_read

  /** A chunked response is planned in full before any of it is written. */
  lemma PlanKeeps(cfg: Config, c: Client, draw: nat)
    requires c.resps < c.reqs && c.chunked && c.blockNum == 0 && c.log.blocks == []
    requires c.reqs == c.resps + 1 && SendsChunks(cfg) && StreamOk(cfg, c)
    ensures var c' := PlanChunks(cfg, c, draw); ProtocolOk(cfg, c') && StreamOk(cfg, c')
  {
    hide Wires, Unfinished, Allowed;
    var c' := PlanChunks(cfg, c, draw);
    ChunkSizeAtMost(cfg, c'.log.plan);
    assert c'.log.blocks + PlanFor(cfg, c'.log.plan) == PlanFor(cfg, c'.log.plan);
  }

  lemma ChunkSizeAtMost(cfg: Config, n: nat)
    ensures ChunkSizeFor(cfg, n) <= n
  {
    QuotientAtMost(n, cfg.chunkBlocks);
  }

  lemma ChooseKeeps(cfg: Config, c: Client, inp: ReadInput)
    requires c.reqs == c.resps && ProtocolOk(cfg, c) && StreamOk(cfg, c)
    ensures var c' := Choose(cfg, c, inp);
            ProtocolOk(cfg, c') && StreamOk(cfg, c') && c'.reqs == c.reqs + 1 && c'.resps == c.resps
  {
    hide PlanChunks;
    var c1 := c.(reqs := c.reqs + 1, lastActive := inp.now, chunked := IsChunked(cfg, inp.draws.kind));
    assert StreamOk(cfg, c1) && c1.log.blocks == [];
    if c1.chunked {
      PlanKeeps(cfg, c1, inp.draws.size);
      PlanFrame(cfg, c1, inp.draws.size);
    }
  }

  lemma AnswerKeeps(cfg: Config, c: Client, inp: ReadInput)
    requires c.reqs == c.resps && ProtocolOk(cfg, c) && StreamOk(cfg, c)
    ensures var r := Answer(cfg, c, inp).0;
            r.Some? ==> ProtocolOk(cfg, r.value) && StreamOk(cfg, r.value)
  {
    hide Send, Choose, ProtocolOk, StreamOk;
    ChooseKeeps(cfg, c, inp);
    SendKeeps(cfg, Choose(cfg, c, inp), inp.draws.size);
  }

  lemma PlanFrame(cfg: Config, c: Client, draw: nat)
    ensures var c' := PlanChunks(cfg, c, draw);
            c'.(chunkSize := c.chunkSize, lastData := c.lastData, log := c'.log.(plan := c.log.plan)) == c
  {
  }

  lemma AnswerFrame(cfg: Config, c: Client, inp: ReadInput)
    ensures var r := Answer(cfg, c, inp).0;
            r.Some? ==> r.value.reqs == c.reqs + 1 && r.value.offset == c.offset && r.value.inbuf == c.inbuf
                        && r.value.log.recv == c.log.recv && r.value.log.marks == c.log.marks
                        && r.value.lastActive == inp.now
  {
    hide Send, PlanChunks;
    PlanFrame(cfg, c.(reqs := c.reqs + 1, lastActive := inp.now, chunked := true), inp.draws.size);
    SendKeepsScan(cfg, Choose(cfg, c, inp), inp.draws.size);
  }

  /** Answering a request that the scan has found, and popping it. */
  lemma RequestKeeps(cfg: Config, c: Client, p: nat, inp: ReadInput)
    requires ScanOk(c) && ProtocolOk(cfg, c) && StreamOk(cfg, c) && FirstEnd(c.inbuf, c.offset) == Some(p)
    ensures var r := OnRequest(cfg, c, p, inp); r.Some? ==> ClientOk(cfg, r.value)
  {
    hide Answer, StreamOk, ProtocolOk, ScanOk, FirstEnd;
    var (sent, interval) := Answer(cfg, c, inp);
    if c.reqs == c.resps && sent.Some? {
      AnswerKeeps(cfg, c, inp);
      AnswerFrame(cfg, c, inp);
      TakeKeeps(c, p, interval);
      var c' := TakeRequest(sent.value, p, interval);
      LedgerFrame(cfg, sent.value, c');
      ScanFrame(TakeRequest(c, p, interval).(reqs := c.reqs + 1), c');
    }
  }

  lemma ReadKeeps(cfg: Config, c: Client, inp: ReadInput)
    requires ClientOk(cfg, c)
    ensures var r := OnRead(cfg, c, inp); r.Some? ==> ClientOk(cfg, r.value)
  {
    hide OnRequest, StreamOk, ProtocolOk, ScanOk;
    var c0 := Receive(c, inp.data);
    ReceiveKeeps(c, inp.data);
    assert ProtocolOk(cfg, c0) && StreamOk(cfg, c0) by { LedgerFrame(cfg, c, c0); }
    var p := FirstEnd(c0.inbuf, c0.offset);
    if p.None? {
      ScanOnKeeps(c0);
      LedgerFrame(cfg, c0, c0.(offset := Max(c0.offset, |c0.inbuf| - 2)));
    } else {
      RequestKeeps(cfg, c0, p.value, inp);
    }
  }

  lemma LedgerFrame(cfg: Config, c: Client, c': Client)
    requires c' == c.(offset := c'.offset, inbuf := c'.inbuf, timer := c'.timer,
                      log := c.log.(recv := c'.log.recv, marks := c'.log.marks))
    ensures ProtocolOk(cfg, c) ==> ProtocolOk(cfg, c')
    ensures StreamOk(cfg, c) ==> StreamOk(cfg, c')
  {
    hide Wires, Unfinished, Allowed, PlanFor, Chunks;
  }

  lemma ScanFrame(c: Client, c': Client)
    requires c'.offset == c.offset && c'.inbuf == c.inbuf && c'.reqs == c.reqs
    requires c'.log.recv == c.log.recv && c'.log.marks == c.log.marks && ScanOk(c)
    ensures ScanOk(c')
  {
  }

  lemma FreshOk(cfg: Config, now: int)
    ensures ClientOk(cfg, FreshClient(now))
  {
    hide Head, ChunkLines;
    UnfinishedEnd([]);
    assert Wires([]) + Unfinished([]) == "";
  }
}
