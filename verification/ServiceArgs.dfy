/** The service arguments and the check that turns them into a configuration the engine can rely on. */
module ServiceArgs {
  import opened Text
  import opened HttpFormat
  import opened EngineSpec
  import opened HttpBuffers

  predicate IsInt(i: int) {
    -0x8000_0000 <= i <= INT_MAX
  }

  /** service_arg_t, without the log file name and the descriptors. */
  class Args {
    var maxQueueLen: int
    var port: int
    var workers: int
    var settings: Settings     // the other fields that the engine reads
    var logLevel: int
    const traceLevel: int      // the bounds that the log library names
    const fatalLevel: int

    constructor (traceLevel: int, fatalLevel: int, infoLevel: int)
      ensures port == 80 && workers == 1 && maxQueueLen == 1024 && logLevel == infoLevel
      ensures settings == Settings(Mix, 20, 100, 200, 100, 200, 100, 200, 100, 200, 2, 10000, 1024)
      ensures this.traceLevel == traceLevel && this.fatalLevel == fatalLevel
    {
      this.traceLevel, this.fatalLevel := traceLevel, fatalLevel;
      maxQueueLen, port, workers := 1024, 80, 1;
      settings := Settings(Mix, 20, 100, 200, 100, 200, 100, 200, 100, 200, 2, 10000, 1024);
      logLevel := infoLevel;
    }

    /** Every field of the C struct is an int. */
    ghost predicate FieldsAreInts()
      reads this
    {
      var s := settings;
      && IsInt(maxQueueLen) && IsInt(port) && IsInt(workers) && IsInt(logLevel) && IsInt(s.chunkRatio)
      && IsInt(s.minLatency) && IsInt(s.maxLatency) && IsInt(s.minSize) && IsInt(s.maxSize)
      && IsInt(s.minChunkLatency) && IsInt(s.maxChunkLatency) && IsInt(s.minChunkSize) && IsInt(s.maxChunkSize)
      && IsInt(s.chunkBlocks) && IsInt(s.timeout)
    }

    /**
     * Clamps the descriptor limit and the number of workers, and refuses everything out of range.
     * `limits` is what getrlimit answers, if it does. False is the exit of the process.
     */
    method CheckServiceArgs(limits: Option<int>) returns (ok: bool)
      requires FieldsAreInts()
      modifies this`maxQueueLen, this`workers
      ensures var s := settings;
              ok <==> && limits.Some? && 1 <= port <= 65535 && traceLevel <= logLevel <= fatalLevel
                      && (s.responseType.Mix? ==> 0 <= s.chunkRatio <= 100)
                      && 0 <= s.minLatency <= s.maxLatency && 0 <= s.minSize <= s.maxSize
                      && 0 <= s.minChunkLatency <= s.maxChunkLatency && 0 <= s.minChunkSize <= s.maxChunkSize
                      && 0 < s.chunkBlocks
      ensures ok <==> limits.Some? && 1 <= port <= 65535 && settings.Checked() && traceLevel <= logLevel <= fatalLevel
      ensures limits.Some? ==> maxQueueLen == Min(old(maxQueueLen), limits.value)
                               && workers == Max(1, old(workers))
    {
      if limits.None? { return false; }
      var maxOpenFiles := limits.value;
      if maxQueueLen > maxOpenFiles {
        maxQueueLen := maxOpenFiles;
      }
      if workers <= 0 {
        workers := 1;
      }
      var s := settings;
      if port <= 0 || port > 65535 { return false; }
      if s.responseType == Mix && (s.chunkRatio < 0 || s.chunkRatio > 100) { return false; }
      if s.minLatency < 0 || s.maxLatency < 0 { return false; }
      if s.minLatency > s.maxLatency { return false; }
      if s.minSize < 0 || s.maxSize < 0 { return false; }
      if s.minSize > s.maxSize { return false; }
      if s.minChunkLatency < 0 || s.maxChunkLatency < 0 { return false; }
      if s.minChunkLatency > s.maxChunkLatency { return false; }
      if s.minChunkSize < 0 || s.maxChunkSize < 0 { return false; }
      if s.minChunkSize > s.maxChunkSize { return false; }
      if s.chunkBlocks <= 0 { return false; }
      if logLevel < traceLevel || logLevel > fatalLevel { return false; }
      return true;
    }

    /** The configuration of a checked service. */
    function Config(): (cfg: Settings)
      reads this
      ensures settings.Checked() ==> cfg.Checked()
      ensures cfg.maxQueueLen == maxQueueLen && cfg.(maxQueueLen := settings.maxQueueLen) == settings
    {
      settings.(maxQueueLen := maxQueueLen)
    }
  }

  /** With the built-in defaults everything that is sent fits. */
  lemma DefaultsFit(cfg: EngineSpec.Config)
    requires cfg.maxSize == 200 && cfg.maxChunkSize == 200 && cfg.chunkBlocks == 2
    ensures ResponsesFit(cfg)
  {
    assert ChunkSizeFor(cfg, 200) == 100;
    assert Pow(16, 2) == 256;
    PrintLength(100, 16, 2);
  }
}
