/** The response buffers: their sizes, the calls that fill them, and when what is written fits. */
module HttpBuffers {
  import opened Text
  import opened HttpFormat
  import opened EngineSpec
  import opened ClientProofs
  import opened DecisionProofs

  /** The header lines of the content response as the format string has them. */
  function TemplateLines(): seq<string> {
    [STATUS_LINE, DATE_LINE, SERVER_LINE, MODIFIED_LINE, LENGTH_NAME + "%d", CONNECTION_LINE, TYPE_LINE]
  }

  /** sizeof the content header template, its NUL included, and ten more. */
  function HeaderSize(): nat {
    |Head(TemplateLines())| + 1 + 10
  }

  function BuffSize(maxSize: nat): nat {
    HeaderSize() + maxSize + 2 + 1
  }

  /** The buffer is 204 bytes larger than the largest response. */
  lemma BuffSizeIs(maxSize: nat)
    ensures BuffSize(maxSize) == maxSize + 204
  {
    hide Head;
    HeadLength(LENGTH_NAME + "%d");
    HeadLines();
  }

  /** A content response of any allowed size fits, so snprintf never truncates it. */
  lemma ContentNeverTruncated(n: nat, maxSize: nat)
    requires n <= maxSize <= INT_MAX
    ensures |ContentWire(n)| < BuffSize(maxSize)
  {
    hide Head, PrintInt;
    IntDigits(Wrap32(n + 4));
    HeadLength(LENGTH_NAME + PrintInt(Wrap32(n + 4)));
    HeadLength(LENGTH_NAME + "%d");
  }

  // ----- what one emitter call writes

  /** The bytes that one emitter call hands to the event library. */
  function Piece(first: bool, d: nat): string {
    HeadOnce(first) + (if d == 0 then LAST_CHUNK else ChunkWire(d))
  }

  /** How far it writes into the response buffer: behind a data chunk comes a NUL. */
  function Extent(first: bool, d: nat): nat {
    |Piece(first, d)| + (if d == 0 then 0 else 1)
  }

  /** It stays within the buffer, and the offsets that the emitter computes are ints. */
  predicate PieceFits(cfg: Config, first: bool, d: nat) {
    Extent(first, d) <= BuffSize(cfg.maxSize) && |Piece(first, d)| <= INT_MAX
  }

  /** d bytes and the digits of d are within the response size, and within an int behind the header. */
  predicate ChunkFits(cfg: Config, d: nat) {
    |Print(d, 16)| + d <= Min(cfg.maxSize + 1, INT_MAX - 202)
  }

  lemma PieceFitsIff(cfg: Config, first: bool, d: nat)
    ensures first && d > 0 ==> (PieceFits(cfg, first, d) <==> ChunkFits(cfg, d))
    ensures !first && ChunkFits(cfg, d) ==> PieceFits(cfg, first, d)
    ensures d == 0 ==> PieceFits(cfg, first, d)
  {
    hide Head, Print;
    HeadLength(LENGTH_NAME + "%d");
    HeadLength(CODING_LINE);
    HeadLines();
  }

  // ----- the configurations for which everything that is sent fits

  /** The largest chunk that a configuration plans fits. */
  predicate ChunksFit(cfg: Config) {
    cfg.maxChunkSize == 0 || ChunkFits(cfg, ChunkSizeFor(cfg, cfg.maxChunkSize))
  }

  /** Every content response has an int length, and every chunk fits, as far as the configuration sends any. */
  predicate ResponsesFit(cfg: Config) {
    (SendsContent(cfg) ==> cfg.maxSize <= MAX_CONTENT) && (SendsChunks(cfg) ==> ChunksFit(cfg))
  }

  lemma ChunkSizeGrows(cfg: Config, m: nat, n: nat)
    requires m <= n
    ensures ChunkSizeFor(cfg, m) <= ChunkSizeFor(cfg, n)
  {
    DivMonotone(m, n, cfg.chunkBlocks);
  }

  lemma SmallerChunkFits(cfg: Config, d: nat, d': nat)
    requires d <= d' && ChunkFits(cfg, d')
    ensures ChunkFits(cfg, d)
  {
    PrintMonotone(d, d', 16);
  }

  /** Every emitter call of a pending response stays within the buffer and within an int. */
  lemma EmitterStaysInBuffer(cfg: Config, c: Client)
    requires ResponsesFit(cfg) && ProtocolOk(cfg, c) && c.resps < c.reqs && c.chunked
    ensures PieceFits(cfg, c.blockNum == 0, NextBlock(c))
  {
    hide PieceFits, ChunkFits, Chunks;
    var d := NextBlock(c);
    if d > 0 {
      ChunkSizeGrows(cfg, c.log.plan, cfg.maxChunkSize);
      SmallerChunkFits(cfg, d, ChunkSizeFor(cfg, cfg.maxChunkSize));
    }
    PieceFitsIff(cfg, c.blockNum == 0, d);
  }

  /** The first data block of a chunked response of size n. */
  function FirstBlock(cfg: Config, n: nat): nat {
    Min(ChunkSizeFor(cfg, n), n)
  }

  /** The chunk condition is exact: it holds iff the first block of every size the configuration allows fits. */
  lemma ChunksFitExactly(cfg: Config)
    ensures ChunksFit(cfg) <==>
            forall n: nat :: cfg.minChunkSize <= n <= cfg.maxChunkSize ==> PieceFits(cfg, true, FirstBlock(cfg, n))
  {
    hide PieceFits, ChunkFits;
    var most: nat := cfg.maxChunkSize;
    forall n: nat | cfg.minChunkSize <= n <= cfg.maxChunkSize && ChunksFit(cfg)
      ensures PieceFits(cfg, true, FirstBlock(cfg, n))
    {
      if FirstBlock(cfg, n) > 0 {
        ChunkSizeGrows(cfg, n, most);
        SmallerChunkFits(cfg, FirstBlock(cfg, n), ChunkSizeFor(cfg, most));
      }
      PieceFitsIff(cfg, true, FirstBlock(cfg, n));
    }
    ChunkSizeAtMost(cfg, most);
    PieceFitsIff(cfg, true, FirstBlock(cfg, most));
  }

  /** What the first write of the response to a request needs, as the draws choose the response. */
  predicate FirstWriteFits(cfg: Config, draws: Draws) {
    if IsChunked(cfg, draws.kind) then
      PieceFits(cfg, true, FirstBlock(cfg, InRange(cfg.minChunkSize, cfg.maxChunkSize, draws.size)))
    else
      var text := ContentWire(ContentSize(cfg, draws.size));
      |text| < BuffSize(cfg.maxSize) && Printed(text) == |text|
  }

  /**
   * The condition on the configuration is exact: it holds iff whatever is drawn, the response can be
   * written; and it is then written in full, by EmitterStaysInBuffer.
   */
  lemma ResponsesFitExactly(cfg: Config)
    ensures ResponsesFit(cfg) <==> forall draws: Draws :: FirstWriteFits(cfg, draws)
  {
    hide PieceFits, ContentWire, Printed, BuffSize, ChunksFit, FirstBlock;
    ChunksFitExactly(cfg);
    if ResponsesFit(cfg) {
      forall draws: Draws ensures FirstWriteFits(cfg, draws) {
        var n := ContentSize(cfg, draws.size);
        ContentNeverTruncated(n, cfg.maxSize);
        ContentLengthIsInt(n);
      }
    } else if SendsContent(cfg) && cfg.maxSize > MAX_CONTENT {
      var draw := DrawOf(cfg.minSize, cfg.maxSize, cfg.maxSize);
      ContentLengthIsInt(cfg.maxSize);
      assert !FirstWriteFits(cfg, Draws(99, 0, draw));
    } else {
      var n: nat :| cfg.minChunkSize <= n <= cfg.maxChunkSize && !PieceFits(cfg, true, FirstBlock(cfg, n));
      var draw := DrawOf(cfg.minChunkSize, cfg.maxChunkSize, n);
      assert !FirstWriteFits(cfg, Draws(0, 0, draw));
    }
  }

  /** A checked configuration that sends chunked responses of one size in one block. */
  function OneBlock(maxSize: nat, size: nat): Config
    requires maxSize <= INT_MAX && size <= INT_MAX
  {
    Settings(ChunkedOnly, 0, 0, 0, 0, maxSize, 0, 0, size, size, 1, 10000, 1024)
  }

  /** How far such a block reaches, and how long it is. */
  lemma OneBlockReaches(maxSize: nat, size: nat)
    requires 0 < size <= INT_MAX && maxSize <= INT_MAX
    ensures SendsChunks(OneBlock(maxSize, size)) && FirstBlock(OneBlock(maxSize, size), size) == size
    ensures Extent(true, size) <= BuffSize(maxSize) <==> |Print(size, 16)| + size <= maxSize + 1
    ensures |Piece(true, size)| <= INT_MAX <==> |Print(size, 16)| + size <= INT_MAX - 202
  {
    hide Head, Print;
    HeadLength(LENGTH_NAME + "%d");
    HeadLength(CODING_LINE);
    HeadLines();
  }

  /**
   * The range check establishes none of it: a content response can be too long for an int, a chunk too
   * long for the buffer, and a chunk that the buffer holds too long for an int.
   */
  lemma RangeCheckIsNotEnough()
    ensures exists cfg: Config :: SendsContent(cfg) && cfg.maxSize > MAX_CONTENT
    ensures exists cfg: Config :: SendsChunks(cfg)
                                  && Extent(true, FirstBlock(cfg, cfg.maxChunkSize)) > BuffSize(cfg.maxSize)
    ensures exists cfg: Config :: SendsChunks(cfg)
                                  && Extent(true, FirstBlock(cfg, cfg.maxChunkSize)) <= BuffSize(cfg.maxSize)
                                  && |Piece(true, FirstBlock(cfg, cfg.maxChunkSize))| > INT_MAX
  {
    hide Extent, Piece, BuffSize, Print, FirstBlock;
    var long: Config := Settings(ContentOnly, 0, 0, 0, 0, INT_MAX, 0, 0, 0, 0, 1, 10000, 1024);
    assert SendsContent(long);
    OneBlockReaches(10, 64);
    OneBlockReaches(INT_MAX - 4, INT_MAX - 20);
    assert Pow(16, 8) == 0x1_0000_0000;
    PrintLength(INT_MAX - 20, 16, 8);
  }
}
