/**
 * What the engine decides, in the units of its configuration: when a tick acts, in microseconds of the
 * clock; which draws are chunked, how long a response waits, how large it is and how it is cut.
 */
module DecisionProofs {
  import opened Text
  import opened HttpFormat
  import opened EngineSpec
  import opened ClientProofs

  // ----- time

  /** The whole milliseconds elapsed reach a positive number when the microseconds do; any other just before. */
  lemma ElapsedReaches(from: int, to: int, ms: int)
    ensures ms > 0 ==> (Elapsed(from, to) >= ms <==> to - from >= 1000 * ms)
    ensures ms <= 0 ==> (Elapsed(from, to) >= ms <==> to - from > 1000 * (ms - 1))
  {
  }

  /** An owed response is sent on at a tick exactly if its interval has passed since the request. */
  lemma TickSendsWhenDue(cfg: Config, c: Client, ms: int, now: int, inp: TimerInput)
    requires c.resps < c.reqs && c.timer == Some(ms) && ms > 0
    ensures var r := OnTimer(cfg, c, now, inp);
            if now - c.lastActive < 1000 * ms then r == Some(c)
            else if !inp.writeOk then r == None
            else r.Some? && c.log.out <= r.value.log.out && |c.log.out| < |r.value.log.out|
  {
    hide Send;
    ElapsedReaches(c.lastActive, now, ms);
    SendWrites(cfg, c, inp.size);
  }

  /** A client that is owed nothing loses its connection exactly if both interval and idle timeout have passed. */
  lemma TickDropsWhenIdle(cfg: Config, c: Client, ms: int, now: int, inp: TimerInput)
    requires c.resps >= c.reqs && c.timer == Some(ms)
    ensures var r, limit := OnTimer(cfg, c, now, inp), Max(ms, cfg.timeout);
            && (r == None || r == Some(c))
            && (limit > 0 ==> (r == None <==> now - c.lastActive >= 1000 * limit))
            && (limit <= 0 ==> (r == None <==> now - c.lastActive > 1000 * (limit - 1)))
  {
    hide Send;
    ElapsedReaches(c.lastActive, now, ms);
    ElapsedReaches(c.lastActive, now, cfg.timeout);
  }

  /** Whatever is sent, at least one byte goes out behind what was sent before. */
  lemma SendWrites(cfg: Config, c: Client, draw: nat)
    ensures var c' := Send(cfg, c, draw); c.log.out <= c'.log.out && |c.log.out| < |c'.log.out|
  {
    hide Head, ContentLines, ChunkLines, Print;
    assert forall n: nat :: |ContentWire(n)| >= 2;
  }

  // ----- the kind of a response

  /** The kind by the configuration: in mixed mode, exactly the draws whose last two digits are below the ratio. */
  lemma KindIs(cfg: Config, draw: nat)
    ensures cfg.responseType.ContentOnly? ==> !IsChunked(cfg, draw)
    ensures cfg.responseType.ChunkedOnly? ==> IsChunked(cfg, draw)
    ensures cfg.responseType.Mix? ==> (IsChunked(cfg, draw) <==> draw % 100 < cfg.chunkRatio)
  {
  }

  /** The response to a request that this read accepts is chunked, with this draw for its kind. */
  ghost predicate ChunkedAfter(cfg: Config, c: Client, inp: ReadInput, kind: nat) {
    var r := OnRead(cfg, c, inp.(draws := inp.draws.(kind := kind)));
    r.Some? && r.value.chunked
  }

  /**
   * In mixed mode the ratio is the number of draws in a hundred that make a response chunked; the draw
   * counts modulo 100; and a draw that is chunked is so under every larger ratio.
   */
  lemma MixedByRatio(cfg: Config, c: Client, inp: ReadInput, kind: nat, larger: int)
    requires cfg.responseType.Mix? && cfg.chunkRatio <= larger <= 100
    requires inp.readOk && inp.writeOk && c.reqs == c.resps && FirstEnd(c.inbuf + inp.data, c.offset).Some?
    ensures |set k: nat | k < 100 && ChunkedAfter(cfg, c, inp, k)| == cfg.chunkRatio
    ensures ChunkedAfter(cfg, c, inp, kind) <==> ChunkedAfter(cfg, c, inp, kind % 100)
    ensures ChunkedAfter(cfg, c, inp, kind) ==> ChunkedAfter(cfg.(chunkRatio := larger), c, inp, kind)
  {
    hide OnRead, ChunkedAfter, FirstEnd;
    var more: Config := cfg.(chunkRatio := larger);
    forall k: nat ensures ChunkedAfter(cfg, c, inp, k) <==> k % 100 < cfg.chunkRatio {
      MixedChooses(cfg, c, inp, k);
    }
    MixedChooses(more, c, inp, kind);
    assert (set k: nat | k < 100 && ChunkedAfter(cfg, c, inp, k)) == Below(cfg.chunkRatio);
  }

  lemma MixedChooses(cfg: Config, c: Client, inp: ReadInput, kind: nat)
    requires cfg.responseType.Mix?
    requires inp.readOk && inp.writeOk && c.reqs == c.resps && FirstEnd(c.inbuf + inp.data, c.offset).Some?
    ensures ChunkedAfter(cfg, c, inp, kind) <==> kind % 100 < cfg.chunkRatio
  {
    hide OnRead, FirstEnd;
    ReadChooses(cfg, c, inp.(draws := inp.draws.(kind := kind)));
  }

  /** The numbers below n; there are n. */
  ghost function Below(n: nat): (r: set<nat>)
    ensures |r| == n && forall k: nat :: k in r <==> k < n
  {
    if n == 0 then {} else Below(n - 1) + {n - 1}
  }

  /** The client after an accepted read has the kind that was drawn. */
  lemma ReadChooses(cfg: Config, c: Client, inp: ReadInput)
    requires inp.readOk && inp.writeOk && c.reqs == c.resps && FirstEnd(c.inbuf + inp.data, c.offset).Some?
    ensures var r, kind := OnRead(cfg, c, inp), inp.draws.kind;
            && r.Some?
            && (cfg.responseType.ContentOnly? ==> !r.value.chunked)
            && (cfg.responseType.ChunkedOnly? ==> r.value.chunked)
            && (cfg.responseType.Mix? ==> (r.value.chunked <==> kind % 100 < cfg.chunkRatio))
  {
    hide FirstEnd, Send, IsChunked;
    KindIs(cfg, inp.draws.kind);
    SendKeepsScan(cfg, Choose(cfg, Receive(c, inp.data), inp), inp.draws.size);
  }

  /** A configuration sends a kind exactly if some draw chooses it. */
  lemma KindsAreSent(cfg: Config)
    ensures SendsChunks(cfg) <==> exists draw: nat :: IsChunked(cfg, draw)
    ensures SendsContent(cfg) <==> exists draw: nat :: !IsChunked(cfg, draw)
  {
    assert SendsChunks(cfg) ==> IsChunked(cfg, 0);
    assert SendsContent(cfg) ==> !IsChunked(cfg, 99);
  }

  // ----- how long and how large

  /** A response waits within the bounds for its own kind, and every wait within them is drawn. */
  lemma LatencyIsDrawn(cfg: Config, draw: nat, ms: int)
    ensures cfg.minChunkLatency <= LatencyFor(cfg, true, draw) <= cfg.maxChunkLatency
    ensures cfg.minLatency <= LatencyFor(cfg, false, draw) <= cfg.maxLatency
    ensures cfg.minChunkLatency <= ms <= cfg.maxChunkLatency ==> exists d: nat :: LatencyFor(cfg, true, d) == ms
    ensures cfg.minLatency <= ms <= cfg.maxLatency ==> exists d: nat :: LatencyFor(cfg, false, d) == ms
  {
    if cfg.minChunkLatency <= ms <= cfg.maxChunkLatency {
      var d := DrawOf(cfg.minChunkLatency, cfg.maxChunkLatency, ms);
      assert LatencyFor(cfg, true, d) == ms;
    }
    if cfg.minLatency <= ms <= cfg.maxLatency {
      var d := DrawOf(cfg.minLatency, cfg.maxLatency, ms);
      assert LatencyFor(cfg, false, d) == ms;
    }
  }

  /** What is drawn is the draw modulo the size of the range, counted from its lower end. */
  lemma InRangeIs(lo: int, hi: int, draw: nat) returns (q: nat)
    requires lo <= hi
    ensures lo <= InRange(lo, hi, draw) <= hi && draw == (InRange(lo, hi, draw) - lo) + q * (hi - lo + 1)
  {
    q := draw / (hi - lo + 1);
  }

  /** Every value of a range is drawn. */
  lemma DrawOf(lo: nat, hi: nat, n: nat) returns (draw: nat)
    requires lo <= n <= hi
    ensures InRange(lo, hi, draw) == n
  {
    draw := n - lo;
  }

  /** A content response has a size of the range, and every size of the range is sent. */
  lemma EverySizeIsSent(cfg: Config, c: Client, draw: nat, n: nat)
    requires cfg.minSize <= n <= cfg.maxSize
    ensures exists k: nat :: cfg.minSize <= k <= cfg.maxSize
                             && SendContent(cfg, c, draw).log.done == c.log.done + [ContentOf(k)]
    ensures exists d: nat :: SendContent(cfg, c, d).log.done == c.log.done + [ContentOf(n)]
  {
    hide ContentWire;
    assert SendContent(cfg, c, draw).log.done == c.log.done + [ContentOf(ContentSize(cfg, draw))];
    var d := DrawOf(cfg.minSize, cfg.maxSize, n);
    assert SendContent(cfg, c, d).log.done == c.log.done + [ContentOf(n)];
  }

  /** A chunked response is planned at a size of its range, all of it left to send; and every size is planned. */
  lemma EverySizeIsPlanned(cfg: Config, c: Client, draw: nat, n: nat)
    requires cfg.minChunkSize <= n <= cfg.maxChunkSize
    ensures var c' := PlanChunks(cfg, c, draw); cfg.minChunkSize <= c'.lastData == c'.log.plan <= cfg.maxChunkSize
    ensures exists d: nat :: PlanChunks(cfg, c, d).log.plan == n
  {
    var d := DrawOf(cfg.minChunkSize, cfg.maxChunkSize, n);
    assert PlanChunks(cfg, c, d).log.plan == n;
  }

  /** The chunk size is the largest one that b blocks of it do not exceed, but at least 1 if there are bytes. */
  lemma ChunkSizeIs(cfg: Config, n: nat)
    ensures var b, size := cfg.chunkBlocks, ChunkSizeFor(cfg, n);
            && (n >= b ==> b * size <= n < b * size + b)
            && (0 < n < b ==> size == 1) && (n == 0 ==> size == 0)
  {
    var b: nat := cfg.chunkBlocks;
    if n >= b {
      assert n == b * (n / b) + n % b;
      if n / b == 0 {
        assert false;
      }
    } else {
      QuotientIsZero(n, b);
    }
  }

  lemma QuotientIsZero(n: nat, b: nat)
    requires n < b
    ensures n / b == 0
  {
  }
}
