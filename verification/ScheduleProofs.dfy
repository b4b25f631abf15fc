/**
 * How long a response takes: the number of chunks planned, the number of expired ticks until the
 * response is complete, and what stays fixed while it is pending. And when a connection is given up.
 */
module ScheduleProofs {
  import opened Text
  import opened HttpFormat
  import opened EngineSpec
  import opened ClientProofs
  import opened RunProofs
  import opened ArrivalProofs
  import opened DecisionProofs

  // ----- how many chunks

  /** The number of chunks is the size divided by the chunk size, rounded up. */
  lemma {:induction false} ChunkCount(n: nat, size: nat, m: nat)
    requires size > 0
    ensures |Chunks(n, size)| <= m <==> n <= size * m
    decreases n
  {
    if n > 0 {
      var d := if size < n then size else n;
      if m == 0 {
        assert size * m == 0;
      } else {
        ChunkCount(n - d, size, m - 1);
        assert size * m == size * (m - 1) + size;
        MulNonNegative(size, m - 1);
      }
    } else {
      MulNonNegative(size, m);
    }
  }

  lemma MulNonNegative(a: nat, b: nat)
    ensures a * b >= 0
  {
  }

  lemma {:induction false} UnitChunks(n: nat)
    ensures |Chunks(n, 1)| == n
  {
    if n > 0 {
      UnitChunks(n - 1);
    }
  }

  /** With b blocks configured: as many chunks as bytes below b bytes, otherwise between b and 2b - 1. */
  lemma PlanLength(cfg: Config, n: nat)
    ensures n < cfg.chunkBlocks ==> |PlanFor(cfg, n)| == n
    ensures n >= cfg.chunkBlocks ==> cfg.chunkBlocks <= |PlanFor(cfg, n)| <= 2 * cfg.chunkBlocks - 1
  {
    hide Chunks;
    var b: nat := cfg.chunkBlocks;
    if n < b {
      UnitChunks(n);
      assert n > 0 ==> ChunkSizeFor(cfg, n) == 1;
      assert n == 0 ==> ChunkSizeFor(cfg, n) == 0;
      NoBytesNoChunks();
    } else {
      var q, r := Divide(n, b);
      PlanBounds(n, b, q, r);
      ChunkCount(n, q, 2 * b - 1);
      ChunkCount(n, q, b - 1);
    }
  }

  lemma NoBytesNoChunks()
    ensures Chunks(0, 0) == []
  {
  }

  lemma Divide(n: nat, b: nat) returns (q: nat, r: nat)
    requires 0 < b <= n
    ensures q == n / b && q > 0 && r < b && n == q * b + r
  {
    q, r := n / b, n % b;
  }

  lemma PlanBounds(n: nat, b: nat, q: nat, r: nat)
    requires n == q * b + r && r < b && q > 0
    ensures q * (b - 1) < n <= q * (2 * b - 1)
  {
    assert q * (b - 1) == q * b - q;
    assert q * (2 * b - 1) == q * b + q * (b - 1);
    assert q * (b - 1) >= b - 1 by { MulAtLeast(b - 1, q); }
  }

  // ----- when it is sent

  /** Nothing but ticks with successful writes reaches this client. */
  ghost predicate OnlyTicks(fd: int, events: seq<Event>) {
    forall i :: 0 <= i < |events| ==>
      match events[i]
      case Accept(_, _, _) => true
      case Read(f, _) => f != fd
      case Tick(_, env) => env(fd).writeOk
      case Fault(f) => f != fd
  }

  /** The number of ticks at which the latency has passed since the request. */
  function Expired(last: int, latency: int, events: seq<Event>): nat
    decreases |events|
  {
    if events == [] then 0
    else
      var more := Expired(last, latency, events[1..]);
      match events[0]
      case Tick(now, _) => if Elapsed(last, now) >= latency then more + 1 else more
      case _ => more
  }

  /** The count grows from 0 with each tick that comes 1000 * ms microseconds or more behind the request. */
  lemma {:induction false} ExpiredGrows(last: int, ms: int, events: seq<Event>, e: Event)
    requires ms > 0
    ensures Expired(last, ms, []) == 0
    ensures Expired(last, ms, events + [e])
         == Expired(last, ms, events) + (if e.Tick? && e.now - last >= 1000 * ms then 1 else 0)
    decreases |events|
  {
    hide Elapsed;
    if events == [] {
      assert ([] + [e])[1..] == [];
      if e.Tick? {
        ElapsedReaches(last, e.now, ms);
      }
    } else {
      assert (events + [e])[1..] == events[1..] + [e];
      ExpiredGrows(last, ms, events[1..], e);
    }
  }

  /** No tick has expired exactly if all come less than 1000 * ms microseconds behind the request. */
  lemma {:induction false} NoneExpired(last: int, ms: int, events: seq<Event>)
    requires ms > 0
    ensures Expired(last, ms, events) == 0
        <==> forall i :: 0 <= i < |events| && events[i].Tick? ==> events[i].now - last < 1000 * ms
    decreases |events|
  {
    hide Elapsed;
    if events != [] {
      var rest := events[1..];
      NoneExpired(last, ms, rest);
      if events[0].Tick? {
        ElapsedReaches(last, events[0].now, ms);
      }
      assert forall i :: 1 <= i < |events| ==> events[i] == rest[i - 1];
      assert forall i :: 0 <= i < |rest| ==> rest[i] == events[i + 1];
    }
  }

  /** k calls of the chunk emitter. */
  function SendChunks(c: Client, k: nat): Client {
    if k == 0 then c else SendChunk(SendChunks(c, k - 1))
  }

  /** A chunked response is owed, and the timer is set to a latency. */
  ghost predicate Owing(cfg: Config, c: Client, latency: int) {
    ClientOk(cfg, c) && c.resps < c.reqs && c.chunked && c.timer == Some(latency)
  }

  /** The chunks still to be sent. */
  function Left(c: Client): seq<nat>
    requires c.lastData > 0 ==> c.chunkSize > 0
  {
    Chunks(c.lastData, c.chunkSize)
  }

  lemma EmitsOne(cfg: Config, c: Client)
    requires ProtocolOk(cfg, c) && StreamOk(cfg, c) && c.resps < c.reqs && c.chunked && c.lastData > 0
    ensures var c' := SendChunk(c);
            && ProtocolOk(cfg, c') && StreamOk(cfg, c') && c'.chunked
            && c'.resps == c.resps && c'.reqs == c.reqs && c'.log.done == c.log.done
            && (c'.lastData > 0 ==> c'.chunkSize > 0)
            && Left(c) == [NextBlock(c)] + Left(c') && c'.log.blocks == c.log.blocks + [NextBlock(c)]
  {
    hide StreamOk, ChunkWire, Head, ChunkLines, Chunks;
    PendingChunkSize(cfg, c);
    NextBlockOfPlan(c);
    SendKeeps(cfg, c, 0);
  }

  /** k emitter calls, up to the number of chunks left: exactly the next k planned chunks go out. */
  lemma {:induction false} EmitsThePlan(cfg: Config, c: Client, k: nat)
    requires ProtocolOk(cfg, c) && StreamOk(cfg, c) && c.resps < c.reqs && c.chunked
    requires c.lastData > 0 ==> c.chunkSize > 0
    requires k <= |Left(c)|
    ensures var c' := SendChunks(c, k);
            && ProtocolOk(cfg, c') && StreamOk(cfg, c') && c'.chunked
            && c'.resps == c.resps && c'.reqs == c.reqs && c'.log.done == c.log.done
            && (c'.lastData > 0 ==> c'.chunkSize > 0)
            && c'.log.blocks == c.log.blocks + Left(c)[..k] && Left(c') == Left(c)[k..]
  {
    hide StreamOk, ProtocolOk, SendChunk, Chunks;
    if k > 0 {
      EmitsThePlan(cfg, c, k - 1);
      var c1 := SendChunks(c, k - 1);
      assert c1.lastData > 0 by { NothingLeft(c1); }
      EmitsOne(cfg, c1);
      assert Left(c)[..k] == Left(c)[..k - 1] + [Left(c)[k - 1]];
      assert Left(c)[k - 1..] == [Left(c)[k - 1]] + Left(c)[k..];
    }
  }

  lemma NothingLeft(c: Client)
    requires c.lastData > 0 ==> c.chunkSize > 0
    ensures Left(c) == [] <==> c.lastData == 0
  {
  }

  /** One call more completes the response. */
  lemma EmitsTheEnd(cfg: Config, c: Client)
    requires ProtocolOk(cfg, c) && StreamOk(cfg, c) && c.resps < c.reqs && c.chunked
    requires c.lastData > 0 ==> c.chunkSize > 0
    ensures var c' := SendChunks(c, |Left(c)| + 1);
            && c'.resps == c.resps + 1 == c'.reqs && c'.blockNum == 0 && c'.log.blocks == []
            && c'.log.done == c.log.done + [ChunksOf(c.log.blocks + Left(c))]
            && StreamOk(cfg, c')
  {
    hide StreamOk, ChunkWire, Head, ChunkLines, Chunks;
    EmitsThePlan(cfg, c, |Left(c)|);
    var last := SendChunks(c, |Left(c)|);
    NothingLeft(last);
    SendKeeps(cfg, last, 0);
    assert Left(c)[..|Left(c)|] == Left(c);
  }

  /**
   * For every size and every number of blocks: the calls of the emitter write one message, complete
   * after one call more than there are chunks and not before, and its body is `size` bytes 'F' with
   * nothing left over.
   */
  lemma EmitterWritesOneMessage(cfg: Config, draw: nat, k: nat)
    requires k <= |PlanFor(cfg, InRange(cfg.minChunkSize, cfg.maxChunkSize, draw))| + 1
    ensures var n: nat := InRange(cfg.minChunkSize, cfg.maxChunkSize, draw);
            var out := SendChunks(PlanChunks(cfg, AskedForChunks(), draw), k).log.out;
            ReadStream(out) == if k == |PlanFor(cfg, n)| + 1 then ([Fill(n)], "") else ([], out)
  {
    hide StreamOk, ProtocolOk, Chunks, SendChunks, ReadStream, ChunkLines, Head, ChunksWire, Unfinished, Response.Wire;
    var n: nat := InRange(cfg.minChunkSize, cfg.maxChunkSize, draw);
    var c := PlanChunks(cfg, AskedForChunks(), draw);
    var only: Config := cfg.(responseType := ChunkedOnly);
    assert PlanChunks(only, AskedForChunks(), draw) == c && PlanFor(only, n) == PlanFor(cfg, n);
    AskedIsOk(only, draw);
    PendingChunkSize(only, c);
    assert [] + Left(c) == Left(c) == PlanFor(cfg, n);
    if k <= |Left(c)| {
      EmitsThePlan(only, c, k);
      StreamIs(only, SendChunks(c, k));
    } else {
      EmitsTheEnd(only, c);
      StreamIs(only, SendChunks(c, k));
      assert Fill(Sum(PlanFor(cfg, n))) == Fill(n);
    }
  }

  /** A client whose first request is to get a chunked response. */
  function AskedForChunks(): Client {
    FreshClient(0).(reqs := 1, chunked := true)
  }

  lemma AskedIsOk(cfg: Config, draw: nat)
    requires SendsChunks(cfg)
    ensures var c := PlanChunks(cfg, AskedForChunks(), draw);
            ProtocolOk(cfg, c) && StreamOk(cfg, c) && c.log.done == [] && c.log.blocks == []
  {
    hide ProtocolOk, StreamOk;
    assert StreamOk(cfg, AskedForChunks()) by { FreshStream(cfg); }
    PlanKeeps(cfg, AskedForChunks(), draw);
  }

  lemma FreshStream(cfg: Config)
    ensures StreamOk(cfg, AskedForChunks())
  {
    hide Head, ChunkLines;
    UnfinishedEnd([]);
    assert Wires([]) + Unfinished([]) == "";
  }

  /** A stream with no response, or one chunked response, and an open one. */
  lemma StreamIs(cfg: Config, c: Client)
    requires StreamOk(cfg, c)
    ensures c.log.done == [] ==> ReadStream(c.log.out) == ([], c.log.out)
    ensures |c.log.done| == 1 && c.log.done[0].ChunksOf? && c.log.blocks == [] ==>
              ReadStream(c.log.out) == ([c.log.done[0].Body()], "")
  {
    hide ReadStream, Unfinished, ChunksWire;
    if c.log.done == [] || (|c.log.done| == 1 && c.log.done[0].ChunksOf?) {
      assert forall i :: 0 <= i < |c.log.done| ==> Allowed(cfg, c.log.done[i]);
      StreamReadBack(c.log.done, c.log.blocks);
      UnfinishedEnd([]);
      if c.log.done == [] {
        assert Wires([]) + Unfinished(c.log.blocks) == Unfinished(c.log.blocks);
      } else {
        OneBody(c.log.done[0]);
        assert c.log.done == [c.log.done[0]];
      }
    }
  }

  lemma OneBody(r: Response)
    ensures Bodies([r]) == [r.Body()]
  {
    hide Response.Body;
    assert Bodies([]) == [];
  }

  /** The emitter leaves the timer and the clock of the request alone. */
  lemma {:induction false} SendChunksFrame(c: Client, k: nat)
    ensures var c' := SendChunks(c, k);
            c'.timer == c.timer && c'.lastActive == c.lastActive && c'.chunked == c.chunked
  {
    hide ChunkWire, Head, ChunkLines;
    if k > 0 {
      SendChunksFrame(c, k - 1);
    }
  }

  /** Until the response is complete, the client's state is fixed by the number of expired ticks. */
  lemma {:induction false} TicksAreEmitterCalls(cfg: Config, fd: int, c: Client, latency: int, j: nat,
                                                events: seq<Event>)
    requires Owing(cfg, c, latency) && OnlyTicks(fd, events)
    requires c.lastData > 0 ==> c.chunkSize > 0
    requires j + Expired(c.lastActive, latency, events) <= |Left(c)| + 1
    ensures ClientRun(cfg, fd, Some(SendChunks(c, j)), events)
         == Some(SendChunks(c, j + Expired(c.lastActive, latency, events)))
    decreases |events|
  {
    hide StreamOk, ProtocolOk, SendChunk, Chunks, ScanOk;
    if events != [] {
      assert OnlyTicks(fd, events[1..]);
      var e := events[0];
      SendChunksFrame(c, j);
      if e.Tick? && Elapsed(c.lastActive, e.now) >= latency {
        EmitsThePlan(cfg, c, j);
        assert ClientStep(cfg, fd, Some(SendChunks(c, j)), e) == Some(SendChunks(c, j + 1));
        TicksAreEmitterCalls(cfg, fd, c, latency, j + 1, events[1..]);
      } else {
        assert ClientStep(cfg, fd, Some(SendChunks(c, j)), e) == Some(SendChunks(c, j));
        TicksAreEmitterCalls(cfg, fd, c, latency, j, events[1..]);
      }
    }
  }

  /** Ticks needed for a chunked response of size n: one for each planned chunk, one for the last chunk. */
  function TicksNeeded(cfg: Config, n: nat): nat {
    |PlanFor(cfg, n)| + 1
  }

  /** The planned chunks are the size over the chunk size, rounded up; with the last chunk at most 2b ticks. */
  lemma TicksNeededIs(cfg: Config, n: nat)
    ensures n == 0 ==> TicksNeeded(cfg, n) == 1
    ensures n > 0 ==> var t, size := TicksNeeded(cfg, n), ChunkSizeFor(cfg, n);
                      t >= 2 && size * (t - 2) < n <= size * (t - 1)
    ensures TicksNeeded(cfg, n) <= 2 * cfg.chunkBlocks
  {
    hide Chunks, ChunkSizeFor;
    PlanLength(cfg, n);
    if n > 0 {
      var size, m := ChunkSizeFor(cfg, n), |PlanFor(cfg, n)|;
      ChunkCount(n, size, m);
      assert m > 0;
      ChunkCount(n, size, m - 1);
    }
  }

  lemma NothingSentYet(cfg: Config, c: Client)
    requires ProtocolOk(cfg, c) && c.resps < c.reqs && c.chunked && c.blockNum == 0
    requires c.lastData > 0 ==> c.chunkSize > 0
    ensures c.log.blocks == [] && Left(c) == PlanFor(cfg, c.log.plan)
  {
    assert [] + Left(c) == Left(c);
  }

  /** From a planned response of which `early` emitter calls have been made at once. */
  lemma ClientSchedule(cfg: Config, fd: int, c: Client, wait: int, early: nat, events: seq<Event>)
    requires Owing(cfg, c, wait) && c.blockNum == 0 && OnlyTicks(fd, events)
    ensures var calls, need := early + Expired(c.lastActive, wait, events), TicksNeeded(cfg, c.log.plan);
            var after := ClientRun(cfg, fd, Some(SendChunks(c, early)), events);
            && (calls == 0 ==> after == Some(c))
            && (calls < need ==> after.Some? && after.value.resps == c.resps && after.value.log.done == c.log.done
                                 && after.value.log.blocks == PlanFor(cfg, c.log.plan)[..calls])
            && (calls == need ==> after.Some? && after.value.resps == c.resps + 1 && after.value.log.blocks == []
                                  && after.value.log.done == c.log.done + [ChunksOf(PlanFor(cfg, c.log.plan))]
                                  && after.value.reqs == after.value.resps && after.value.timer == c.timer
                                  && after.value.lastActive == c.lastActive)
  {
    hide ClientRun, Chunks, PlanFor, Left, StreamOk, ScanOk, PlanOk, SendChunks, OnlyTicks, Expired;
    var calls := early + Expired(c.lastActive, wait, events);
    PendingChunkSize(cfg, c);
    NothingSentYet(cfg, c);
    assert c.log.blocks + Left(c) == Left(c);
    if calls <= |Left(c)| + 1 {
      NoCalls(c);
      TicksAreEmitterCalls(cfg, fd, c, wait, early, events);
      if calls <= |Left(c)| {
        EmitsThePlan(cfg, c, calls);
      } else {
        EmitsTheEnd(cfg, c);
        SendChunksFrame(c, calls);
      }
    }
  }

  lemma NoCalls(c: Client)
    ensures SendChunks(c, 0) == c
  {
  }

  // ----- from the request on

  /** This read completes a request, none before it is unanswered, and a response without latency can be written. */
  predicate Accepts(cfg: Config, c: Client, inp: ReadInput) {
    && inp.readOk && c.reqs == c.resps && FirstEnd(c.inbuf + inp.data, 0).Some?
    && (Latency(cfg, inp) == 0 ==> inp.writeOk)
  }

  function Latency(cfg: Config, inp: ReadInput): int {
    LatencyFor(cfg, IsChunked(cfg, inp.draws.kind), inp.draws.latency)
  }

  /** The interval that the read sets: the latency, or the idle timeout behind a response started at once. */
  function Wait(cfg: Config, inp: ReadInput): int {
    if Latency(cfg, inp) != 0 then Latency(cfg, inp) else cfg.timeout
  }

  /** How often the response has been sent on: once at once without a latency, and at every expired tick. */
  function Calls(cfg: Config, inp: ReadInput, events: seq<Event>): nat {
    (if Latency(cfg, inp) == 0 then 1 else 0) + Expired(inp.now, Wait(cfg, inp), events)
  }

  /** The client once its response is chosen, its timer set and its request popped, with nothing sent yet. */
  function Asked(cfg: Config, c: Client, inp: ReadInput): Client
    requires FirstEnd(c.inbuf + inp.data, 0).Some?
  {
    TakeRequest(Choose(cfg, Receive(c, inp.data), inp), FirstEnd(c.inbuf + inp.data, 0).value, Wait(cfg, inp))
  }

  /** Popping the request and sending do not interfere. */
  lemma SendCommutes(cfg: Config, c: Client, p: nat, interval: int, draw: nat)
    ensures TakeRequest(Send(cfg, c, draw), p, interval) == Send(cfg, TakeRequest(c, p, interval), draw)
  {
    hide ContentWire, ChunkWire, HeadOnce;
  }

  /** An accepted read leaves that client, with the response started if there is no latency. */
  lemma ReadStarts(cfg: Config, c: Client, inp: ReadInput)
    requires ClientOk(cfg, c) && Accepts(cfg, c, inp)
    ensures var c0 := Asked(cfg, c, inp);
            OnRead(cfg, c, inp) == Some(if Latency(cfg, inp) == 0 then Send(cfg, c0, inp.draws.size) else c0)
  {
    hide FirstEnd, Send, Choose, ProtocolOk, StreamOk, ScanOk, TakeRequest;
    ReceiveKeeps(c, inp.data);
    ScanFacts(Receive(c, inp.data));
    ChooseKind(cfg, Receive(c, inp.data), inp);
    SendCommutes(cfg, Choose(cfg, Receive(c, inp.data), inp), FirstEnd(c.inbuf + inp.data, 0).value, cfg.timeout,
                 inp.draws.size);
  }

  lemma ChooseKind(cfg: Config, c: Client, inp: ReadInput)
    ensures Choose(cfg, c, inp).chunked == IsChunked(cfg, inp.draws.kind)
  {
  }

  lemma AskedKeeps(cfg: Config, c: Client, inp: ReadInput)
    requires ClientOk(cfg, c) && Accepts(cfg, c, inp)
    ensures var c0 := Asked(cfg, c, inp);
            && ClientOk(cfg, c0) && c0.resps == c.resps < c0.reqs && c0.timer == Some(Wait(cfg, inp))
            && c0.chunked == IsChunked(cfg, inp.draws.kind) && c0.lastActive == inp.now && c0.blockNum == 0
            && c0.log.done == c.log.done && c0.log.out == c.log.out
            && (c0.chunked ==> c0.log.plan == InRange(cfg.minChunkSize, cfg.maxChunkSize, inp.draws.size))
  {
    hide FirstEnd, ProtocolOk, StreamOk, ScanOk;
    var r := Receive(c, inp.data);
    var p := FirstEnd(r.inbuf, 0).value;
    ReceiveKeeps(c, inp.data);
    ScanFacts(r);
    LedgerFrame(cfg, c, r);
    ChooseKeeps(cfg, r, inp);
    NothingOpen(cfg, r);
    TakeKeeps(r, p, Wait(cfg, inp));
    var chosen, c0 := Choose(cfg, r, inp), Asked(cfg, c, inp);
    LedgerFrame(cfg, chosen, c0);
    ScanFrame(TakeRequest(r, p, Wait(cfg, inp)).(reqs := r.reqs + 1), c0);
  }

  /**
   * It owes one response: of the kind that the draw chooses by the configured ratio, with the plan drawn,
   * and waiting as long as was drawn for its kind, or for the idle timeout behind one started at once.
   */
  lemma AskedOwes(cfg: Config, c: Client, inp: ReadInput)
    requires ClientOk(cfg, c) && Accepts(cfg, c, inp)
    ensures var c0 := Asked(cfg, c, inp);
            && ClientOk(cfg, c0) && c0.resps == c.resps < c0.reqs && c0.timer == Some(Wait(cfg, inp))
            && c0.chunked == IsChunked(cfg, inp.draws.kind) && c0.lastActive == inp.now && c0.blockNum == 0
            && c0.log.done == c.log.done && c0.log.out == c.log.out
            && (c0.chunked ==> c0.log.plan == InRange(cfg.minChunkSize, cfg.maxChunkSize, inp.draws.size))
            && (cfg.responseType.ContentOnly? ==> !c0.chunked) && (cfg.responseType.ChunkedOnly? ==> c0.chunked)
            && (cfg.responseType.Mix? ==> (c0.chunked <==> inp.draws.kind % 100 < cfg.chunkRatio))
            && (Latency(cfg, inp) == 0 ==> c0.timer == Some(cfg.timeout))
            && (Latency(cfg, inp) != 0 && c0.chunked ==> cfg.minChunkLatency <= c0.timer.value <= cfg.maxChunkLatency)
            && (Latency(cfg, inp) != 0 && !c0.chunked ==> cfg.minLatency <= c0.timer.value <= cfg.maxLatency)
  {
    hide Asked, Accepts, ClientOk, IsChunked, LatencyFor, FirstEnd;
    AskedKeeps(cfg, c, inp);
    KindIs(cfg, inp.draws.kind);
    LatencyIsDrawn(cfg, inp.draws.latency, 0);
  }

  lemma NothingOpen(cfg: Config, c: Client)
    requires ProtocolOk(cfg, c) && c.reqs == c.resps
    ensures c.blockNum == 0
  {
  }

  lemma ChunkedCalls(cfg: Config, b: Board, fd: int, inp: ReadInput, events: seq<Event>)
    requires BoardOk(cfg, b) && fd in b.clients && Accepts(cfg, b.clients[fd], inp)
    requires IsChunked(cfg, inp.draws.kind) && OnlyTicks(fd, events)
    ensures var c := b.clients[fd];
            var n: nat := InRange(cfg.minChunkSize, cfg.maxChunkSize, inp.draws.size);
            var calls, need := Calls(cfg, inp, events), TicksNeeded(cfg, n);
            var after := Look(Run(cfg, b, [Read(fd, inp)] + events).clients, fd);
            && (calls == 0 ==> after.Some? && after.value.resps == c.resps && after.value.log.out == c.log.out)
            && (calls < need ==> after.Some? && after.value.resps == c.resps && after.value.log.done == c.log.done
                                 && after.value.log.blocks == PlanFor(cfg, n)[..calls])
            && (calls == need ==> after.Some? && after.value.resps == c.resps + 1 && after.value.log.blocks == []
                                  && after.value.log.done == c.log.done + [ChunksOf(PlanFor(cfg, n))]
                                  && after.value.reqs == after.value.resps
                                  && after.value.timer == Some(Wait(cfg, inp)) && after.value.lastActive == inp.now)
  {
    hide Run, OnRead, StreamOk, ScanOk, ProtocolOk, SendChunk, Chunks, Expired, OnlyTicks, FirstEnd;
    hide Asked, Wait, Latency;
    var c := b.clients[fd];
    var c0 := Asked(cfg, c, inp);
    var early := if Latency(cfg, inp) == 0 then 1 else 0;
    AskedOwes(cfg, c, inp);
    ReadStarts(cfg, c, inp);
    NoCalls(c0);
    assert SendChunks(c0, 1) == SendChunk(c0);
    RunFromRead(cfg, b, fd, inp, events);
    ClientSchedule(cfg, fd, c0, Wait(cfg, inp), early, events);
  }

  /** There is a wait unless it is 0, and no call before it is over. */
  lemma NoCallBefore(cfg: Config, inp: ReadInput, events: seq<Event>)
    ensures var ms := Latency(cfg, inp);
            && ms >= 0
            && (ms != 0 ==> (Calls(cfg, inp, events) == 0 <==>
                               forall i :: 0 <= i < |events| && events[i].Tick? ==>
                                             events[i].now - inp.now < 1000 * ms))
  {
    hide Expired;
    LatencyIsDrawn(cfg, inp.draws.latency, 0);
    if Latency(cfg, inp) != 0 {
      NoneExpired(inp.now, Latency(cfg, inp), events);
    }
  }

  /**
   * A response is sent on at each tick that comes 1000 microseconds for each millisecond of its latency,
   * or more, behind the request; one started at once, in the same way for the idle timeout.
   */
  lemma CallsGrow(cfg: Config, inp: ReadInput, events: seq<Event>, e: Event)
    ensures var ms := Latency(cfg, inp);
            && Calls(cfg, inp, []) == (if ms == 0 then 1 else 0)
            && (ms != 0 ==> Calls(cfg, inp, events + [e])
                            == Calls(cfg, inp, events) + (if e.Tick? && e.now - inp.now >= 1000 * ms then 1 else 0))
            && (ms == 0 && cfg.timeout > 0 ==>
                  Calls(cfg, inp, events + [e])
                  == Calls(cfg, inp, events) + (if e.Tick? && e.now - inp.now >= 1000 * cfg.timeout then 1 else 0))
  {
    LatencyIsDrawn(cfg, inp.draws.latency, 0);
    if Wait(cfg, inp) > 0 {
      ExpiredGrows(inp.now, Wait(cfg, inp), events, e);
    }
  }

  /**
   * A chunked response from its request on, among any other traffic: no block before the latency has
   * elapsed, or the first one at once if there is none; then one planned chunk for each expired tick;
   * and complete at exactly the call that TicksNeeded says, with nothing but its planned chunks.
   */
  lemma ChunkedSchedule(cfg: Config, b: Board, fd: int, inp: ReadInput, events: seq<Event>)
    requires BoardOk(cfg, b) && fd in b.clients && Accepts(cfg, b.clients[fd], inp)
    requires IsChunked(cfg, inp.draws.kind) && OnlyTicks(fd, events)
    ensures var c := b.clients[fd];
            var n: nat := InRange(cfg.minChunkSize, cfg.maxChunkSize, inp.draws.size);
            var calls, need := Calls(cfg, inp, events), TicksNeeded(cfg, n);
            var after := Look(Run(cfg, b, [Read(fd, inp)] + events).clients, fd);
            && (calls == 0 ==> after.Some? && after.value.log.out == c.log.out)
            && (var ms := Latency(cfg, inp);
                ms != 0 && (forall i :: 0 <= i < |events| && events[i].Tick? ==>
                              events[i].now - inp.now < 1000 * ms) ==>
                  after.Some? && after.value.resps == c.resps && after.value.log.out == c.log.out)
            && (calls < need ==> after.Some? && after.value.resps == c.resps && after.value.log.done == c.log.done
                                 && after.value.log.blocks == PlanFor(cfg, n)[..calls])
            && (calls == need ==> after.Some? && after.value.resps == c.resps + 1 && after.value.log.blocks == []
                                  && after.value.log.done == c.log.done + [ChunksOf(PlanFor(cfg, n))]
                                  && after.value.reqs == after.value.resps
                                  && after.value.timer == Some(Wait(cfg, inp)) && after.value.lastActive == inp.now)
  {
    hide Run, Calls, Accepts, IsChunked, OnlyTicks, BoardOk, TicksNeeded, PlanFor, Latency, Wait;
    ChunkedCalls(cfg, b, fd, inp, events);
    NoCallBefore(cfg, inp, events);
  }

  /** A read and what follows, seen from its client. */
  lemma RunFromRead(cfg: Config, b: Board, fd: int, inp: ReadInput, events: seq<Event>)
    requires BoardOk(cfg, b) && fd in b.clients
    ensures Look(Run(cfg, b, [Read(fd, inp)] + events).clients, fd)
         == ClientRun(cfg, fd, OnRead(cfg, b.clients[fd], inp), events)
  {
    hide Run, OnRead, ClientOk;
    var all := [Read(fd, inp)] + events;
    RunKeepsAndProjects(cfg, b, all, fd);
    assert all[1..] == events;
  }

  /**
   * A content response from its request on: nothing before the latency has elapsed, then one response
   * of an allowed size at the first expired tick; at once if there is no latency.
   */
  lemma ContentSchedule(cfg: Config, b: Board, fd: int, inp: ReadInput, events: seq<Event>)
    requires BoardOk(cfg, b) && fd in b.clients && Accepts(cfg, b.clients[fd], inp)
    requires !IsChunked(cfg, inp.draws.kind) && OnlyTicks(fd, events)
    ensures var c, calls := b.clients[fd], Calls(cfg, inp, events);
            var after := Look(Run(cfg, b, [Read(fd, inp)] + events).clients, fd);
            && (calls == 0 ==> after.Some? && after.value.resps == c.resps && after.value.log.out == c.log.out)
            && (var ms := Latency(cfg, inp);
                ms != 0 && (forall i :: 0 <= i < |events| && events[i].Tick? ==>
                              events[i].now - inp.now < 1000 * ms) ==>
                  after.Some? && after.value.resps == c.resps && after.value.log.out == c.log.out)
            && (calls == 1 ==> after.Some? && after.value.resps == c.resps + 1
                               && exists n: nat :: cfg.minSize <= n <= cfg.maxSize
                                                   && after.value.log.done == c.log.done + [ContentOf(n)])
  {
    hide Run, OnRead, StreamOk, ScanOk, ProtocolOk, ContentWire, Expired, OnlyTicks, FirstEnd, Asked, Wait, Latency;
    var c := b.clients[fd];
    var c0 := Asked(cfg, c, inp);
    AskedOwes(cfg, c, inp);
    ReadStarts(cfg, c, inp);
    RunFromRead(cfg, b, fd, inp, events);
    if Latency(cfg, inp) == 0 {
      if Expired(inp.now, Wait(cfg, inp), events) == 0 {
        NoMoreTicks(cfg, fd, SendContent(cfg, c0, inp.draws.size), Wait(cfg, inp), events);
        assert cfg.minSize <= ContentSize(cfg, inp.draws.size) <= cfg.maxSize;
      }
    } else {
      ContentTicks(cfg, fd, c0, Wait(cfg, inp), events);
    }
    NoCallBefore(cfg, inp, events);
  }

  lemma {:induction false} ContentTicks(cfg: Config, fd: int, c: Client, latency: int, events: seq<Event>)
    requires ClientOk(cfg, c) && c.resps < c.reqs && !c.chunked && c.timer == Some(latency) && OnlyTicks(fd, events)
    ensures var k, after := Expired(c.lastActive, latency, events), ClientRun(cfg, fd, Some(c), events);
            && (k == 0 ==> after == Some(c))
            && (k == 1 ==> after.Some? && after.value.resps == c.resps + 1
                           && exists n: nat :: cfg.minSize <= n <= cfg.maxSize
                                               && after.value.log.done == c.log.done + [ContentOf(n)])
    decreases |events|
  {
    hide StreamOk, ProtocolOk, ScanOk, ContentWire;
    if events != [] {
      assert OnlyTicks(fd, events[1..]);
      var e := events[0];
      if e.Tick? && Elapsed(c.lastActive, e.now) >= latency {
        var c1 := SendContent(cfg, c, e.env(fd).size);
        assert ClientStep(cfg, fd, Some(c), e) == Some(c1);
        if Expired(c.lastActive, latency, events) == 1 {
          NoMoreTicks(cfg, fd, c1, latency, events[1..]);
          assert c1.log.done == c.log.done + [ContentOf(ContentSize(cfg, e.env(fd).size))];
        }
      } else {
        assert ClientStep(cfg, fd, Some(c), e) == Some(c);
        ContentTicks(cfg, fd, c, latency, events[1..]);
      }
    }
  }

  /** Ticks before the timer's interval leave a client alone. */
  lemma {:induction false} NoMoreTicks(cfg: Config, fd: int, c: Client, latency: int, events: seq<Event>)
    requires c.timer == Some(latency) && OnlyTicks(fd, events) && Expired(c.lastActive, latency, events) == 0
    ensures ClientRun(cfg, fd, Some(c), events) == Some(c)
    decreases |events|
  {
    hide Send;
    if events != [] {
      assert OnlyTicks(fd, events[1..]);
      assert ClientStep(cfg, fd, Some(c), events[0]) == Some(c);
      NoMoreTicks(cfg, fd, c, latency, events[1..]);
    }
  }

  /** While a response is owed, no event changes which response it is or how it was planned. */
  lemma PendingIsFrozen(cfg: Config, fd: int, c: Client, e: Event)
    requires ClientOk(cfg, c) && c.resps < c.reqs
    ensures var r := ClientStep(cfg, fd, Some(c), e);
            r.Some? ==> var c' := r.value;
                        && c'.reqs == c.reqs && c'.chunked == c.chunked && c'.chunkSize == c.chunkSize
                        && c'.log.plan == c.log.plan && c'.timer == c.timer && c'.lastActive == c.lastActive
                        && c.log.done <= c'.log.done && c.log.out <= c'.log.out
  {
    hide ContentWire, Head, ChunkLines, ChunkWire, FirstEnd, StreamOk, ScanOk, Answer;
  }

  // ----- when a connection is given up

  /**
   * A client that is owed nothing, left alone: it loses its connection exactly if some tick comes so
   * many microseconds after its last request that both the timer's interval and the idle timeout have passed.
   */
  lemma IdleCostsTheConnection(cfg: Config, fd: int, c: Client, events: seq<Event>)
    requires ClientOk(cfg, c) && c.reqs == c.resps && c.timer.Some? && OnlyTicks(fd, events) && NoAccept(fd, events)
    ensures var after, limit := ClientRun(cfg, fd, Some(c), events), Max(c.timer.value, cfg.timeout);
            && (after == None || after == Some(c))
            && (limit > 0 ==>
                  (after == None <==> exists i :: 0 <= i < |events| && events[i].Tick?
                                                  && events[i].now - c.lastActive >= 1000 * limit))
  {
    hide ClientRun, Expired, ClientOk;
    IdleTicks(cfg, fd, c, events);
    if Max(c.timer.value, cfg.timeout) > 0 {
      NoneExpired(c.lastActive, Max(c.timer.value, cfg.timeout), events);
    }
  }

  lemma {:induction false} IdleTicks(cfg: Config, fd: int, c: Client, events: seq<Event>)
    requires ClientOk(cfg, c) && c.reqs == c.resps && c.timer.Some? && OnlyTicks(fd, events) && NoAccept(fd, events)
    ensures ClientRun(cfg, fd, Some(c), events)
         == if Expired(c.lastActive, Max(c.timer.value, cfg.timeout), events) > 0 then None else Some(c)
    decreases |events|
  {
    hide ClientOk, Send;
    if events != [] {
      assert OnlyTicks(fd, events[1..]) && NoAccept(fd, events[1..]);
      var next := ClientStep(cfg, fd, Some(c), events[0]);
      if next.None? {
        GoneStaysGone(cfg, fd, events[1..]);
      } else {
        IdleTicks(cfg, fd, c, events[1..]);
      }
    }
  }

  /**
   * The idle time counts from the request and not from the end of the response: a chunked response that
   * is complete only when the timeout since its request has passed costs the connection at the next tick.
   */
  lemma SlowResponseCostsTheConnection(cfg: Config, b: Board, fd: int, inp: ReadInput, events: seq<Event>,
                                       now: int, env: int -> TimerInput)
    requires BoardOk(cfg, b) && fd in b.clients && Accepts(cfg, b.clients[fd], inp)
    requires IsChunked(cfg, inp.draws.kind) && OnlyTicks(fd, events)
    requires Calls(cfg, inp, events) == TicksNeeded(cfg, InRange(cfg.minChunkSize, cfg.maxChunkSize, inp.draws.size))
    requires var limit := Max(Wait(cfg, inp), cfg.timeout);
             if limit > 0 then now - inp.now >= 1000 * limit else now - inp.now > 1000 * (limit - 1)
    ensures var e := Tick(now, env);
            && Look(Run(cfg, b, [Read(fd, inp)] + events).clients, fd).Some?
            && Look(Run(cfg, b, [Read(fd, inp)] + events + [e]).clients, fd) == None
  {
    hide Run, OnRead, ClientOk, Expired, Accepts, IsChunked, BoardOk, ClientRun, OnlyTicks;
    ChunkedSchedule(cfg, b, fd, inp, events);
    var all, e := [Read(fd, inp)] + events, Tick(now, env);
    RunSnoc(cfg, b, all, e);
    RunKeepsAndProjects(cfg, b, all, fd);
    StepProjects(cfg, Run(cfg, b, all), e, fd);
    TickDropsWhenIdle(cfg, Look(Run(cfg, b, all).clients, fd).value, Wait(cfg, inp), now, env(fd));
  }

  /** Nothing but ticks and arrivals reaches this client. */
  ghost predicate NoFault(fd: int, events: seq<Event>) {
    forall i :: 0 <= i < |events| ==> !(events[i].Fault? && events[i].fd == fd)
  }

  /** A client that never completes a request has no timer, and no tick, however late, ends its connection. */
  lemma {:induction false} SilentClientsStay(cfg: Config, fd: int, c: Client, events: seq<Event>)
    requires ClientOk(cfg, c) && c.reqs == 0 && NoFault(fd, events)
    requires Ends(c.log.recv + ArrivedAt(fd, events), 0) == []
    ensures var r := ClientRun(cfg, fd, Some(c), events);
            r.Some? && ClientOk(cfg, r.value) && r.value.timer == None && r.value.log.out == c.log.out
    decreases |events|
  {
    hide Ends, Send, ClientOk, ArrivedAt;
    SilentClient(cfg, c);
    if events != [] {
      var e, rest := events[0], events[1..];
      assert NoFault(fd, rest);
      ArrivedFirst(fd, events);
      if e.Read? && e.fd == fd && e.inp.readOk {
        var recv := c.log.recv + e.inp.data;
        assert recv + ArrivedAt(fd, rest) == c.log.recv + ArrivedAt(fd, events);
        EndsGrow(recv, ArrivedAt(fd, rest), 0);
        SilentRead(cfg, c, e.inp);
        ReadIsStep(cfg, fd, c, e.inp);
        SilentClientsStay(cfg, fd, OnRead(cfg, c, e.inp).value, rest);
      } else {
        assert "" + ArrivedAt(fd, rest) == ArrivedAt(fd, rest);
        assert ClientStep(cfg, fd, Some(c), e) == Some(c);
        SilentClientsStay(cfg, fd, c, rest);
      }
    } else {
      assert ClientRun(cfg, fd, Some(c), events) == Some(c);
    }
  }

  lemma SilentClient(cfg: Config, c: Client)
    requires ClientOk(cfg, c) && c.reqs == 0
    ensures c.timer == None
  {
  }

  lemma ArrivedFirst(fd: int, events: seq<Event>)
    requires events != []
    ensures ArrivedAt(fd, events)
         == (if events[0].Read? && events[0].fd == fd && events[0].inp.readOk then events[0].inp.data else "")
            + ArrivedAt(fd, events[1..])
  {
    assert "" + ArrivedAt(fd, events[1..]) == ArrivedAt(fd, events[1..]);
  }

  /** An arrival without a request is only buffered. */
  lemma SilentRead(cfg: Config, c: Client, inp: ReadInput)
    requires ClientOk(cfg, c) && c.reqs == 0 && inp.readOk && Ends(c.log.recv + inp.data, 0) == []
    ensures var r := OnRead(cfg, c, inp);
            r.Some? && ClientOk(cfg, r.value) && r.value.reqs == 0 && r.value.log.recv == c.log.recv + inp.data
            && r.value.log.out == c.log.out
  {
    hide OnRequest, ProtocolOk, StreamOk, FirstEnd, Recognised;
    OneAtATime(cfg, c, inp);
    RecognisesAtOnce(cfg, c, inp);
    ReadKeeps(cfg, c, inp);
    ScanFacts(Receive(c, inp.data));
    ReceiveKeeps(c, inp.data);
    RecognisedAndWaiting(cfg, c);
  }
}
