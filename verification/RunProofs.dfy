/**
 * The whole service over every run of events: the tick as an ordered filter of the timer queue,
 * the independence of clients, the invariants between events, and the theorems about what a client
 * receives and when.
 */
module RunProofs {
  import opened Text
  import opened HttpFormat
  import opened EngineSpec
  import opened ClientProofs
  import opened HttpBuffers

  // ----- the timer pass

  predicate Distinct(q: seq<int>) {
    forall i, j :: 0 <= i < j < |q| ==> q[i] != q[j]
  }

  function Look(clients: map<int, Client>, fd: int): Option<Client> {
    if fd in clients then Some(clients[fd]) else None
  }

  /** The queued clients that a tick leaves alive, in queue order. */
  function Survivors(cfg: Config, clients: map<int, Client>, q: seq<int>, now: int, env: int -> TimerInput): seq<int> {
    if q == [] then []
    else if q[0] in clients && OnTimer(cfg, clients[q[0]], now, env(q[0])).Some? then
      [q[0]] + Survivors(cfg, clients, q[1..], now, env)
    else Survivors(cfg, clients, q[1..], now, env)
  }

  /** Survivors only depends on the clients in the queue. */
  lemma {:induction false} SurvivorsFrame(cfg: Config, m: map<int, Client>, m': map<int, Client>, q: seq<int>,
                                          now: int, env: int -> TimerInput)
    requires forall fd :: fd in q ==> Look(m, fd) == Look(m', fd)
    ensures Survivors(cfg, m, q, now, env) == Survivors(cfg, m', q, now, env)
  {
    hide OnTimer;
    if q != [] {
      assert Look(m, q[0]) == Look(m', q[0]);
      SurvivorsFrame(cfg, m, m', q[1..], now, env);
    }
  }

  /** What one handled client becomes. */
  function AfterTick(cfg: Config, clients: map<int, Client>, q: seq<int>, now: int, env: int -> TimerInput,
                     fd: int): Option<Client> {
    if fd in q && fd in clients then OnTimer(cfg, clients[fd], now, env(fd)) else Look(clients, fd)
  }

  /** What the pass has done to the client at the front before it looks at the rest. */
  function Handled(cfg: Config, m: map<int, Client>, fd: int, now: int, env: int -> TimerInput): map<int, Client>
    requires fd in m
  {
    match OnTimer(cfg, m[fd], now, env(fd))
    case None => m - {fd}
    case Some(c) => m[fd := c]
  }

  lemma HandledOnlyIt(cfg: Config, m: map<int, Client>, fd: int, now: int, env: int -> TimerInput)
    requires fd in m
    ensures var m' := Handled(cfg, m, fd, now, env);
            && (forall x :: x != fd ==> Look(m', x) == Look(m, x))
            && Look(m', fd) == OnTimer(cfg, m[fd], now, env(fd))
            && |m'| == (if OnTimer(cfg, m[fd], now, env(fd)).Some? then |m| else |m| - 1)
  {
    hide OnTimer;
    if OnTimer(cfg, m[fd], now, env(fd)).None? {
      assert (m - {fd}).Keys == m.Keys - {fd};
    } else {
      assert Handled(cfg, m, fd, now, env).Keys == m.Keys;
    }
  }

  /**
   * Draining into the backup list is an ordered filter-map: every queued client is handled exactly
   * once, survivors keep their order, and clients not queued are untouched.
   */
  lemma {:induction false} DrainIsFilterMap(cfg: Config, m: map<int, Client>, conn: int, todo: seq<int>, kept: seq<int>,
                                            now: int, env: int -> TimerInput)
    requires Distinct(todo) && forall fd :: fd in todo ==> fd in m
    ensures var b := Drain(cfg, m, conn, todo, kept, now, env);
            && b.queue == kept + Survivors(cfg, m, todo, now, env)
            && (forall fd :: Look(b.clients, fd) == AfterTick(cfg, m, todo, now, env, fd))
            && b.conn - |b.clients| == conn - |m|
    decreases |todo|
  {
    hide OnTimer;
    if todo != [] {
      var fd, rest := todo[0], todo[1..];
      var m' := Handled(cfg, m, fd, now, env);
      var alive := OnTimer(cfg, m[fd], now, env(fd)).Some?;
      var conn' := if alive then conn else conn - 1;
      var kept' := if alive then kept + [fd] else kept;
      HandledOnlyIt(cfg, m, fd, now, env);
      forall x | x in rest ensures x in m' && Look(m, x) == Look(m', x) {
        assert x != fd;
        assert Look(m', x) == Look(m, x);
      }
      DrainIsFilterMap(cfg, m', conn', rest, kept', now, env);
      SurvivorsFrame(cfg, m, m', rest, now, env);
      forall x ensures AfterTick(cfg, m', rest, now, env, x) == AfterTick(cfg, m, todo, now, env, x) {
        assert Look(m', x) == if x == fd then OnTimer(cfg, m[fd], now, env(fd)) else Look(m, x);
      }
      assert Drain(cfg, m, conn, todo, kept, now, env) == Drain(cfg, m', conn', rest, kept', now, env);
    }
  }

  lemma {:induction false} SurvivorsAre(cfg: Config, m: map<int, Client>, q: seq<int>, now: int, env: int -> TimerInput)
    requires Distinct(q)
    ensures var r := Survivors(cfg, m, q, now, env);
            Distinct(r) && forall fd :: fd in r <==> fd in q && fd in m && OnTimer(cfg, m[fd], now, env(fd)).Some?
  {
    hide OnTimer;
    if q != [] {
      SurvivorsAre(cfg, m, q[1..], now, env);
    }
  }

  /**
   * The tick, on a board in order: each queued client is handled exactly once, survivors keep their
   * relative order, a destroyed client leaves the table, the queue and the count, and clients without
   * a timer are untouched.
   */
  lemma TickIsFilterMap(cfg: Config, b: Board, now: int, env: int -> TimerInput)
    requires BoardOk(cfg, b)
    ensures var b' := Step(cfg, b, Tick(now, env));
            && b'.queue == Survivors(cfg, b.clients, b.queue, now, env)
            && (forall fd :: fd in b'.queue <==> fd in b.queue && OnTimer(cfg, b.clients[fd], now, env(fd)).Some?)
            && (forall fd :: fd in b.queue ==> Look(b'.clients, fd) == OnTimer(cfg, b.clients[fd], now, env(fd)))
            && (forall fd :: fd !in b.queue ==> Look(b'.clients, fd) == Look(b.clients, fd))
            && b'.conn == |b'.clients|
  {
    hide OnTimer, ClientOk;
    var b' := Step(cfg, b, Tick(now, env));
    DrainIsFilterMap(cfg, b.clients, b.conn, b.queue, [], now, env);
    SurvivorsAre(cfg, b.clients, b.queue, now, env);
    assert b'.queue == Survivors(cfg, b.clients, b.queue, now, env);
    assert forall fd :: Look(b'.clients, fd) == AfterTick(cfg, b.clients, b.queue, now, env, fd);
  }

  lemma {:induction false} WithoutIsDistinct(q: seq<int>, fd: int)
    requires Distinct(q)
    ensures Distinct(Without(q, fd))
  {
    if q != [] {
      var rest := Without(q[1..], fd);
      WithoutIsDistinct(q[1..], fd);
      forall j | 0 <= j < |rest| ensures rest[j] != q[0] {
        assert rest[j] in q[1..];
      }
    }
  }

  // ----- clients do not affect each other

  /** What an event makes of the client with a given descriptor, whatever the other clients are. */
  function ClientStep(cfg: Config, fd: int, o: Option<Client>, e: Event): Option<Client> {
    match e
    case Accept(f, now, buffered) =>
      if f == fd && o.None? && fd < cfg.maxQueueLen && buffered then Some(FreshClient(now)) else o
    case Read(f, inp) => if f == fd && o.Some? then OnRead(cfg, o.value, inp) else o
    case Tick(now, env) => if o.Some? then OnTimer(cfg, o.value, now, env(fd)) else o
    case Fault(f) => if f == fd then None else o
  }

  function ClientRun(cfg: Config, fd: int, o: Option<Client>, events: seq<Event>): Option<Client>
    decreases |events|
  {
    if events == [] then o else ClientRun(cfg, fd, ClientStep(cfg, fd, o, events[0]), events[1..])
  }

  /**
   * Between events: the connection count is the number of live clients, and the timer queue holds
   * each client that has had a request exactly once and nobody else.
   */
  ghost predicate BoardOk(cfg: Config, b: Board) {
    && b.conn == |b.clients|
    && Distinct(b.queue)
    && (forall fd :: fd in b.queue <==> fd in b.clients && b.clients[fd].timer.Some?)
    && (forall fd :: fd in b.clients ==> ClientOk(cfg, b.clients[fd]))
  }

  /** An event changes each client as if that client were alone. */
  lemma StepProjects(cfg: Config, b: Board, e: Event, fd: int)
    requires BoardOk(cfg, b)
    ensures Look(Step(cfg, b, e).clients, fd) == ClientStep(cfg, fd, Look(b.clients, fd), e)
  {
    hide OnRead, ClientOk, FreshClient;
    match e {
      case Tick(now, env) =>
        DrainIsFilterMap(cfg, b.clients, b.conn, b.queue, [], now, env);
        assert Look(Step(cfg, b, e).clients, fd) == AfterTick(cfg, b.clients, b.queue, now, env, fd);
      case _ =>
    }
  }

  lemma ClientStepKeeps(cfg: Config, fd: int, o: Option<Client>, e: Event)
    requires o.Some? ==> ClientOk(cfg, o.value)
    ensures var r := ClientStep(cfg, fd, o, e); r.Some? ==> ClientOk(cfg, r.value)
  {
    hide OnRead, OnTimer, ClientOk, FreshClient;
    match e
    case Accept(_, now, _) => FreshOk(cfg, now);
    case Read(_, inp) => if o.Some? { ReadKeeps(cfg, o.value, inp); }
    case Tick(now, env) => if o.Some? { TimerKeeps(cfg, o.value, now, env(fd)); }
    case Fault(_) =>
  }

  /** A timer, once there, stays; only an accepted request creates one. */
  lemma TimersStay(cfg: Config, c: Client, now: int, inp: TimerInput, r: ReadInput)
    ensures OnTimer(cfg, c, now, inp).Some? ==> (OnTimer(cfg, c, now, inp).value.timer.Some? <==> c.timer.Some?)
    ensures OnRead(cfg, c, r).Some? && c.timer.Some? ==> OnRead(cfg, c, r).value.timer.Some?
  {
    hide Send, Answer;
    SendKeepsScan(cfg, c, inp.size);
  }

  lemma StepKeepsQueue(cfg: Config, b: Board, e: Event)
    requires BoardOk(cfg, b)
    ensures var b' := Step(cfg, b, e);
            Distinct(b'.queue) && forall fd :: fd in b'.queue <==> fd in b'.clients && b'.clients[fd].timer.Some?
  {
    hide OnRead, OnTimer, ClientOk;
    var b' := Step(cfg, b, e);
    match e {
      case Accept(_, _, _) =>
      case Read(f, inp) =>
        if f in b.clients {
          WithoutIsDistinct(b.queue, f);
          TimersStay(cfg, b.clients[f], 0, TimerInput(0, true), inp);
        }
      case Tick(now, env) =>
        TickKeepsQueue(cfg, b, now, env);
      case Fault(f) => WithoutIsDistinct(b.queue, f);
    }
  }

  lemma TickKeepsQueue(cfg: Config, b: Board, now: int, env: int -> TimerInput)
    requires BoardOk(cfg, b)
    ensures var b' := Step(cfg, b, Tick(now, env));
            Distinct(b'.queue) && forall fd :: fd in b'.queue <==> fd in b'.clients && b'.clients[fd].timer.Some?
  {
    hide OnTimer, ClientOk;
    var b' := Step(cfg, b, Tick(now, env));
    DrainIsFilterMap(cfg, b.clients, b.conn, b.queue, [], now, env);
    SurvivorsAre(cfg, b.clients, b.queue, now, env);
    assert b'.queue == Survivors(cfg, b.clients, b.queue, now, env);
    forall fd ensures fd in b'.queue <==> fd in b'.clients && b'.clients[fd].timer.Some? {
      assert Look(b'.clients, fd) == AfterTick(cfg, b.clients, b.queue, now, env, fd);
      if fd in b.queue {
        TimersStay(cfg, b.clients[fd], now, env(fd), ReadInput(false, "", 0, Draws(0, 0, 0), true));
      }
    }
  }

  lemma RemoveCounts(b: Board, fd: int)
    requires fd in b.clients
    ensures |Remove(b, fd).clients| == |b.clients| - 1
  {
    assert (b.clients - {fd}).Keys == b.clients.Keys - {fd};
  }

  lemma UpdateCounts(m: map<int, Client>, fd: int, c: Client)
    ensures |m[fd := c]| == if fd in m then |m| else |m| + 1
  {
    assert m[fd := c].Keys == m.Keys + {fd};
    if fd in m {
      assert m.Keys + {fd} == m.Keys;
    }
  }

  lemma StepKeepsCount(cfg: Config, b: Board, e: Event)
    requires BoardOk(cfg, b)
    ensures Step(cfg, b, e).conn == |Step(cfg, b, e).clients|
  {
    hide OnRead, OnTimer, ClientOk, FreshClient, Drain;
    match e {
      case Accept(fd, now, _) => UpdateCounts(b.clients, fd, FreshClient(now));
      case Read(fd, inp) =>
        if fd in b.clients {
          RemoveCounts(b, fd);
          if OnRead(cfg, b.clients[fd], inp).Some? {
            UpdateCounts(b.clients, fd, OnRead(cfg, b.clients[fd], inp).value);
          }
        }
      case Tick(now, env) => DrainIsFilterMap(cfg, b.clients, b.conn, b.queue, [], now, env);
      case Fault(fd) => if fd in b.clients { RemoveCounts(b, fd); }
    }
  }

  lemma StepKeeps(cfg: Config, b: Board, e: Event)
    requires BoardOk(cfg, b)
    ensures BoardOk(cfg, Step(cfg, b, e))
  {
    hide Step, ClientStep, ClientOk;
    var b' := Step(cfg, b, e);
    StepKeepsQueue(cfg, b, e);
    StepKeepsCount(cfg, b, e);
    forall fd | fd in b'.clients ensures ClientOk(cfg, b'.clients[fd]) {
      StepProjects(cfg, b, e, fd);
      ClientStepKeeps(cfg, fd, Look(b.clients, fd), e);
      assert Look(b'.clients, fd) == Some(b'.clients[fd]);
    }
  }

  /** Whatever the events, the invariant holds between them and each client lives its own history. */
  lemma {:induction false} RunKeepsAndProjects(cfg: Config, b: Board, events: seq<Event>, fd: int)
    requires BoardOk(cfg, b)
    ensures BoardOk(cfg, Run(cfg, b, events))
    ensures Look(Run(cfg, b, events).clients, fd) == ClientRun(cfg, fd, Look(b.clients, fd), events)
    decreases |events|
  {
    hide Step, ClientStep, BoardOk;
    if events != [] {
      StepKeeps(cfg, b, events[0]);
      StepProjects(cfg, b, events[0], fd);
      RunKeepsAndProjects(cfg, Step(cfg, b, events[0]), events[1..], fd);
    }
  }

  /** A run takes its events one after the other. */
  lemma {:induction false} RunSnoc(cfg: Config, b: Board, events: seq<Event>, e: Event)
    ensures Run(cfg, b, []) == b && Run(cfg, b, events + [e]) == Step(cfg, Run(cfg, b, events), e)
    decreases |events|
  {
    hide Step;
    if events == [] {
      assert events + [e] == [e];
    } else {
      RunSnoc(cfg, Step(cfg, b, events[0]), events[1..], e);
      assert (events + [e])[1..] == events[1..] + [e];
    }
  }

  /** An event of one client leaves all others as they are. */
  lemma EventsStayApart(cfg: Config, b: Board, e: Event, fd: int)
    requires !e.Tick? && e.fd != fd
    ensures Look(Step(cfg, b, e).clients, fd) == Look(b.clients, fd)
    ensures fd in Step(cfg, b, e).queue <==> fd in b.queue
  {
    hide OnRead, FreshClient;
  }

  /** A connection is a new client exactly if its descriptor is free and below the limit and it got a buffer. */
  lemma AcceptMakesClients(cfg: Config, b: Board, fd: int, now: int, buffered: bool)
    requires BoardOk(cfg, b)
    ensures var b' := Step(cfg, b, Accept(fd, now, buffered));
            && (fd in b'.clients <==> fd in b.clients || (fd < cfg.maxQueueLen && buffered))
            && (fd !in b.clients && fd in b'.clients ==>
                  var c := b'.clients[fd];
                  c.reqs == 0 && c.inbuf == "" && c.timer == None && c.lastActive == now && c.log.out == ""
                  && b'.conn == b.conn + 1)
            && b'.clients - {fd} == b.clients - {fd} && b'.queue == b.queue
            && (fd in b.clients || fd !in b'.clients ==> b' == b)
  {
    hide ClientOk;
  }

  /** An error takes its client out of the table, the queue and the count, and nothing else. */
  lemma ErrorsTakeClients(cfg: Config, b: Board, fd: int)
    requires BoardOk(cfg, b) && fd in b.clients
    ensures var b' := Step(cfg, b, Fault(fd));
            && b'.clients == b.clients - {fd} && b'.conn == b.conn - 1
            && fd !in b'.queue && (forall x :: x != fd ==> (x in b'.queue <==> x in b.queue))
  {
  }

  /** No client ever has a descriptor at or above the limit. */
  lemma {:induction false} DescriptorsStayBelow(cfg: Config, b: Board, events: seq<Event>, fd: int)
    requires BoardOk(cfg, b) && (fd in b.clients ==> fd < cfg.maxQueueLen) && fd in Run(cfg, b, events).clients
    ensures fd < cfg.maxQueueLen
    decreases |events|
  {
    hide Step, ClientOk, BoardOk;
    if events != [] {
      var e := events[0];
      StepKeeps(cfg, b, e);
      StepProjects(cfg, b, e, fd);
      OnlyAcceptsMake(cfg, fd, Look(b.clients, fd), e);
      DescriptorsStayBelow(cfg, Step(cfg, b, e), events[1..], fd);
    }
  }

  lemma OnlyAcceptsMake(cfg: Config, fd: int, o: Option<Client>, e: Event)
    ensures o.None? && ClientStep(cfg, fd, o, e).Some? ==> e.Accept? && e.fd == fd < cfg.maxQueueLen && e.buffered
  {
  }

  lemma StartOk(cfg: Config)
    ensures BoardOk(cfg, EMPTY_BOARD)
  {
  }

  // ----- what a client receives

  /** As many bytes 'F' as a size of the range for the kind; a content response ends with two line ends. */
  ghost predicate BodyAllowed(cfg: Config, body: string) {
    || (SendsChunks(cfg) && cfg.minChunkSize <= |body| <= cfg.maxChunkSize && body == Fill(|body|))
    || (SendsContent(cfg) && 4 <= |body| && cfg.minSize <= |body| - 4 <= cfg.maxSize
        && body == Fill(|body| - 4) + "\r\n\r\n")
  }

  lemma BodyIsAllowed(cfg: Config, r: Response)
    requires Allowed(cfg, r)
    ensures BodyAllowed(cfg, r.Body())
  {
    if r.ContentOf? {
      ContentBodyIs(r.size);
    }
  }

  /**
   * In every reachable state, what a client has been sent reads back as its completed responses,
   * with the configured body sizes, followed by an open chunked response exactly if one is in progress.
   */
  lemma EveryStreamReadsBack(cfg: Config, events: seq<Event>, fd: int)
    requires ResponsesFit(cfg)
    requires fd in Run(cfg, EMPTY_BOARD, events).clients
    ensures var c := Run(cfg, EMPTY_BOARD, events).clients[fd];
            var (bodies, tail) := ReadStream(c.log.out);
            && |bodies| == |c.log.done| == c.resps
            && (forall i :: 0 <= i < |bodies| ==> bodies[i] == c.log.done[i].Body() && Allowed(cfg, c.log.done[i]))
            && (forall i :: 0 <= i < |bodies| ==> BodyAllowed(cfg, bodies[i]))
            && (tail != "" <==> c.blockNum > 0)
            && tail == Unfinished(c.log.blocks)
  {
    hide Run, Allowed, Unfinished, Wires, Response.Body, BodyAllowed;
    StartOk(cfg);
    RunKeepsAndProjects(cfg, EMPTY_BOARD, events, fd);
    var c := Run(cfg, EMPTY_BOARD, events).clients[fd];
    assert StreamOk(cfg, c) && c.blockNum == |c.log.blocks| by { assert ClientOk(cfg, c); }
    forall i | 0 <= i < |c.log.done| ensures c.log.done[i].WellFormed() {
      AllowedIsWellFormed(cfg, c.log.done[i]);
    }
    forall i | 0 <= i < |c.log.done| ensures BodyAllowed(cfg, c.log.done[i].Body()) {
      BodyIsAllowed(cfg, c.log.done[i]);
    }
    StreamReadBack(c.log.done, c.log.blocks);
    BodiesAt(c.log.done);
    OpenIsVisible(c.log.blocks);
  }

  lemma AllowedIsWellFormed(cfg: Config, r: Response)
    requires ResponsesFit(cfg) && Allowed(cfg, r)
    ensures r.WellFormed()
  {
  }

  lemma {:induction false} BodiesAt(done: seq<Response>)
    ensures |Bodies(done)| == |done| && forall i :: 0 <= i < |done| ==> Bodies(done)[i] == done[i].Body()
  {
    hide Response.Body;
    if done != [] {
      BodiesAt(done[1..]);
    }
  }

  lemma OpenIsVisible(sizes: seq<nat>)
    ensures Unfinished(sizes) != "" <==> sizes != []
  {
    hide ChunksWire;
  }
}
