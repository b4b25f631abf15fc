/**
 * The keep-alive engine as a state machine on values: what each event of the loop (accept, read,
 * 50 ms tick, error) makes of the clients, the timer queue and the connection count.
 * Clients are named by their descriptor. Every `rand()` is a number handed in with the event, and
 * so is the outcome of every write.
 */
module EngineSpec {
  import opened Text
  import opened HttpFormat

  // ----- configuration

  datatype ResponseType = ContentOnly | ChunkedOnly | Mix

  /** The fields of service_arg_t that the engine reads. Sizes in bytes, latencies and timeout in ms. */
  datatype Settings = Settings(
    responseType: ResponseType, chunkRatio: int,
    minLatency: int, maxLatency: int, minSize: int, maxSize: int,
    minChunkLatency: int, maxChunkLatency: int, minChunkSize: int, maxChunkSize: int,
    chunkBlocks: int, timeout: int, maxQueueLen: int)
  {
    /** The ranges that checkServiceArgs enforces, on C ints. */
    predicate Checked() {
      && (responseType.Mix? ==> 0 <= chunkRatio <= 100)
      && 0 <= minLatency <= maxLatency <= INT_MAX
      && 0 <= minSize <= maxSize <= INT_MAX
      && 0 <= minChunkLatency <= maxChunkLatency <= INT_MAX
      && 0 <= minChunkSize <= maxChunkSize <= INT_MAX
      && 0 < chunkBlocks <= INT_MAX
    }
  }

  type Config = s: Settings | s.Checked()
    witness Settings(Mix, 20, 100, 200, 100, 200, 100, 200, 100, 200, 2, 10000, 1024)

  // ----- one client

  /** What has happened on a connection since it was accepted. The program keeps none of this. */
  datatype Ledger = Ledger(
    recv: string,         // all bytes that arrived
    marks: seq<nat>,      // where in recv each request was recognised
    out: string,          // all bytes written
    done: seq<Response>,  // the responses completed
    plan: nat,            // the size chosen for the current or last chunked response
    blocks: seq<nat>)     // the data chunks written of a chunked response not yet completed

  datatype Client = Client(
    offset: nat, reqs: nat, resps: nat, lastActive: int, timer: Option<int>,
    chunked: bool, blockNum: nat, chunkSize: nat, lastData: nat, inbuf: string, log: Ledger)

  /** What rand() yields in one http_read: for the kind of response, its latency and its size. */
  datatype Draws = Draws(kind: nat, latency: nat, size: nat)

  datatype TimerInput = TimerInput(size: nat, writeOk: bool)

  datatype ReadInput = ReadInput(readOk: bool, data: string, now: int, draws: Draws, writeOk: bool)

  function FreshClient(now: int): Client {
    Client(0, 0, 0, now, None, false, 0, 0, 0, "", Ledger("", [], "", [], 0, []))
  }

  /** gen_number_in_range with the value of rand(). */
  function InRange(lo: int, hi: int, draw: nat): (r: int)
    requires lo <= hi
    ensures lo <= r <= hi
  {
    if lo == hi then lo else lo + draw % (hi - lo + 1)
  }

  function IsChunked(cfg: Config, draw: nat): bool {
    match cfg.responseType
    case ContentOnly => false
    case ChunkedOnly => true
    case Mix =>
      if cfg.chunkRatio == 0 then false
      else if cfg.chunkRatio == 100 then true
      else draw % 100 < cfg.chunkRatio
  }

  /** Some response can have a Content-Length. */
  predicate SendsContent(cfg: Config) {
    cfg.responseType.ContentOnly? || (cfg.responseType.Mix? && cfg.chunkRatio < 100)
  }

  /** Some response can be chunked. */
  predicate SendsChunks(cfg: Config) {
    cfg.responseType.ChunkedOnly? || (cfg.responseType.Mix? && cfg.chunkRatio > 0)
  }

  /** C division truncates toward zero. */
  function TruncDiv(a: int, b: int): int
    requires b > 0
  {
    if a >= 0 then a / b else -(-a / b)
  }

  /** Milliseconds between two clock values in microseconds. */
  function Elapsed(from: int, to: int): int {
    TruncDiv(to - from, 1000)
  }

  function ChunkSizeFor(cfg: Config, size: nat): (r: nat)
    ensures size > 0 ==> r > 0
  {
    var q := size / cfg.chunkBlocks;
    if size != 0 && q == 0 then 1 else q
  }

  function ContentSize(cfg: Config, draw: nat): (n: nat)
    ensures cfg.minSize <= n <= cfg.maxSize
  {
    InRange(cfg.minSize, cfg.maxSize, draw)
  }

  function SendContent(cfg: Config, c: Client, draw: nat): Client {
    var n := ContentSize(cfg, draw);
    c.(resps := c.resps + 1,
       log := c.log.(out := c.log.out + ContentWire(n), done := c.log.done + [ContentOf(n)]))
  }

  function PlanChunks(cfg: Config, c: Client, draw: nat): Client {
    var n: nat := InRange(cfg.minChunkSize, cfg.maxChunkSize, draw);
    c.(lastData := n, chunkSize := ChunkSizeFor(cfg, n), log := c.log.(plan := n))
  }

  function NextBlock(c: Client): nat {
    Min(c.chunkSize, c.lastData)
  }

  /** One call of the chunk emitter. */
  function SendChunk(c: Client): Client {
    var head := HeadOnce(c.blockNum == 0);
    if c.lastData == 0 then
      c.(resps := c.resps + 1, blockNum := 0,
         log := c.log.(out := c.log.out + (head + LAST_CHUNK),
                       done := c.log.done + [ChunksOf(c.log.blocks)], blocks := []))
    else
      var d := NextBlock(c);
      c.(lastData := c.lastData - d, blockNum := c.blockNum + 1,
         log := c.log.(out := c.log.out + (head + ChunkWire(d)), blocks := c.log.blocks + [d]))
  }

  function Send(cfg: Config, c: Client, draw: nat): Client {
    if c.chunked then SendChunk(c) else SendContent(cfg, c, draw)
  }

  /** What a tick makes of one client; None when the client is destroyed. */
  function OnTimer(cfg: Config, c: Client, now: int, inp: TimerInput): Option<Client> {
    if c.timer.None? then Some(c)
    else
      var diff := Elapsed(c.lastActive, now);
      if diff < c.timer.value then Some(c)
      else if c.resps < c.reqs then
        if inp.writeOk then Some(Send(cfg, c, inp.size)) else None
      else if diff >= cfg.timeout then None
      else Some(c)
  }

  // ----- requests

  /** An empty line with a byte between its two newlines, as in CRLF CRLF. */
  predicate EndsRequest(s: string, p: int) {
    0 <= p && p + 2 < |s| && s[p] == s[p + 2] == '\n'
  }

  /** The first request end at or after `from`. */
  function FirstEnd(s: string, from: nat): (r: Option<nat>)
    ensures r.Some? ==> from <= r.value && EndsRequest(s, r.value)
    ensures r.Some? ==> forall q :: from <= q < r.value ==> !EndsRequest(s, q)
    ensures r.None? ==> forall q :: from <= q ==> !EndsRequest(s, q)
    decreases |s| - from
  {
    if |s| <= from + 2 then None
    else if EndsRequest(s, from) then Some(from)
    else FirstEnd(s, from + 1)
  }

  /** The request counts, and the response to it is chosen; a chunked one is planned. */
  function Choose(cfg: Config, c: Client, inp: ReadInput): Client {
    var c1 := c.(reqs := c.reqs + 1, lastActive := inp.now, chunked := IsChunked(cfg, inp.draws.kind));
    if c1.chunked then PlanChunks(cfg, c1, inp.draws.size) else c1
  }

  function LatencyFor(cfg: Config, chunked: bool, draw: nat): int {
    if chunked then InRange(cfg.minChunkLatency, cfg.maxChunkLatency, draw)
    else InRange(cfg.minLatency, cfg.maxLatency, draw)
  }

  /** The chosen response is left to the timer, or started at once when its latency is 0; and the timer's interval. */
  function Answer(cfg: Config, c: Client, inp: ReadInput): (Option<Client>, int) {
    var chosen := Choose(cfg, c, inp);
    var latency := LatencyFor(cfg, chosen.chunked, inp.draws.latency);
    if latency != 0 then (Some(chosen), latency)
    else if inp.writeOk then (Some(Send(cfg, chosen, inp.draws.size)), cfg.timeout)
    else (None, cfg.timeout)
  }

  /** The bytes that arrived are buffered. */
  function Receive(c: Client, data: string): Client {
    c.(inbuf := c.inbuf + data, log := c.log.(recv := c.log.recv + data))
  }

  /** http_read: resumes the scan at the saved offset. None when the client is destroyed. */
  function OnRead(cfg: Config, c: Client, inp: ReadInput): Option<Client> {
    var c0 := Receive(c, inp.data);
    if !inp.readOk then Some(c)
    else if |c0.inbuf| == 0 then Some(c0)
    else
      match FirstEnd(c0.inbuf, c0.offset)
      case None => Some(c0.(offset := Max(c0.offset, |c0.inbuf| - 2)))
      case Some(p) => OnRequest(cfg, c0, p, inp)
  }

  /** A request has been recognised at p: a second one is no keep-alive, any other is answered and popped. */
  function OnRequest(cfg: Config, c: Client, p: nat, inp: ReadInput): Option<Client> {
    if c.reqs != c.resps then None
    else
      var (sent, interval) := Answer(cfg, c, inp);
      if sent.None? then None
      else Some(TakeRequest(sent.value, p, interval))
  }

  /** The request's bytes are popped up to its closing newline, which stays buffered. */
  function TakeRequest(c: Client, p: nat, interval: int): Client {
    c.(timer := Some(interval), inbuf := if p + 2 <= |c.inbuf| then c.inbuf[p + 2..] else "", offset := 0,
       log := c.log.(marks := c.log.marks + [Max(|c.log.recv| - |c.inbuf|, 0) + p]))
  }

  // ----- the whole service

  /** All clients, the timer queue from head to tail, and the connection count. */
  datatype Board = Board(clients: map<int, Client>, queue: seq<int>, conn: int)

  datatype Event =
    | Accept(fd: int, now: int, buffered: bool)
    | Read(fd: int, inp: ReadInput)
    | Tick(now: int, env: int -> TimerInput)
    | Fault(fd: int)

  const EMPTY_BOARD := Board(map[], [], 0)

  function Without(q: seq<int>, fd: int): (r: seq<int>)
    ensures forall x :: x in r <==> x in q && x != fd
    ensures fd !in q ==> r == q
  {
    if q == [] then [] else if q[0] == fd then Without(q[1..], fd) else [q[0]] + Without(q[1..], fd)
  }

  function Remove(b: Board, fd: int): Board {
    Board(b.clients - {fd}, Without(b.queue, fd), b.conn - 1)
  }

  /** The timer pass: take nodes from the front of `todo`, keep survivors at the back of `kept`. */
  function Drain(cfg: Config, clients: map<int, Client>, conn: int, todo: seq<int>, kept: seq<int>,
                 now: int, env: int -> TimerInput): Board
    decreases |todo|
  {
    if todo == [] then Board(clients, kept, conn)
    else
      var fd, rest := todo[0], todo[1..];
      if fd !in clients then Drain(cfg, clients, conn, rest, kept, now, env)
      else
        match OnTimer(cfg, clients[fd], now, env(fd))
        case None => Drain(cfg, clients - {fd}, conn - 1, rest, kept, now, env)
        case Some(c) => Drain(cfg, clients[fd := c], conn, rest, kept + [fd], now, env)
  }

  function Step(cfg: Config, b: Board, e: Event): Board {
    match e
    case Accept(fd, now, buffered) =>
      if fd in b.clients || fd >= cfg.maxQueueLen || !buffered then b
      else b.(clients := b.clients[fd := FreshClient(now)], conn := b.conn + 1)
    case Read(fd, inp) =>
      if fd !in b.clients then b
      else
        var c := b.clients[fd];
        (match OnRead(cfg, c, inp)
         case None => Remove(b, fd)
         case Some(c') =>
           b.(clients := b.clients[fd := c'],
              queue := if c.timer.None? && c'.timer.Some? then b.queue + [fd] else b.queue))
    case Tick(now, env) => Drain(cfg, b.clients, b.conn, b.queue, [], now, env)
    case Fault(fd) => if fd in b.clients then Remove(b, fd) else b
  }

  /** The event makes a new client. */
  predicate Registers(cfg: Config, b: Board, e: Event) {
    e.Accept? && e.fd !in b.clients && e.fd < cfg.maxQueueLen && e.buffered
  }

  /** How many clients a run makes. */
  function Registrations(cfg: Config, b: Board, events: seq<Event>): nat
    decreases |events|
  {
    if events == [] then 0
    else (if Registers(cfg, b, events[0]) then 1 else 0) + Registrations(cfg, Step(cfg, b, events[0]), events[1..])
  }

  function Run(cfg: Config, b: Board, events: seq<Event>): Board
    decreases |events|
  {
    if events == [] then b else Run(cfg, Step(cfg, b, events[0]), events[1..])
  }
}
