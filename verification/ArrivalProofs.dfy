/**
 * Which requests are recognised, and at which arrival: a function of the bytes that have arrived and of
 * where the arrivals end, whatever else happens in between.
 */
module ArrivalProofs {
  import opened Text
  import opened HttpFormat
  import opened EngineSpec
  import opened ClientProofs
  import opened RunProofs

  // ----- the way a request is split into arrivals

  function Arrived(inputs: seq<ReadInput>): string {
    if inputs == [] then "" else inputs[0].data + Arrived(inputs[1..])
  }

  function AsEvents(fd: int, inputs: seq<ReadInput>): seq<Event> {
    seq(|inputs|, i requires 0 <= i < |inputs| => Read(fd, inputs[i]))
  }

  lemma {:induction false} NoEndInPrefix(s: string, more: string)
    requires FirstEnd(s + more, 0).None?
    ensures FirstEnd(s, 0).None?
  {
    if FirstEnd(s, 0).Some? {
      FirstEndStable(s, more, 0);
    }
  }

  /** Arrivals that complete no request only fill the buffer. */
  lemma {:induction false} WaitsForTheRest(cfg: Config, fd: int, c: Client, inputs: seq<ReadInput>)
    requires ClientOk(cfg, c) && forall i :: 0 <= i < |inputs| ==> inputs[i].readOk
    requires FirstEnd(c.inbuf + Arrived(inputs), 0).None?
    ensures var r := ClientRun(cfg, fd, Some(c), AsEvents(fd, inputs));
            && r.Some? && ClientOk(cfg, r.value)
            && r.value == c.(inbuf := c.inbuf + Arrived(inputs), offset := r.value.offset,
                             log := c.log.(recv := c.log.recv + Arrived(inputs)))
    decreases |inputs|
  {
    hide FirstEnd, ProtocolOk, StreamOk, Answer;
    if inputs != [] {
      var inp := inputs[0];
      var buf := c.inbuf + inp.data;
      assert c.inbuf + Arrived(inputs) == buf + Arrived(inputs[1..]);
      assert c.log.recv + Arrived(inputs) == c.log.recv + inp.data + Arrived(inputs[1..]);
      NoEndInPrefix(buf, Arrived(inputs[1..]));
      ReceiveKeeps(c, inp.data);
      ResumedScan(buf, c.offset);
      ReadKeeps(cfg, c, inp);
      var c1 := OnRead(cfg, c, inp);
      WaitsForTheRest(cfg, fd, c1.value, inputs[1..]);
      assert AsEvents(fd, inputs)[1..] == AsEvents(fd, inputs[1..]);
      assert ClientStep(cfg, fd, Some(c), AsEvents(fd, inputs)[0]) == c1;
    } else {
      assert c.inbuf + "" == c.inbuf && c.log.recv + "" == c.log.recv;
    }
  }

  /** One arrival, seen from a scan of the whole buffer. */
  lemma RecognisesAtOnce(cfg: Config, c: Client, inp: ReadInput)
    requires ClientOk(cfg, c) && inp.readOk
    ensures var whole, after := c.inbuf + inp.data, OnRead(cfg, c, inp);
            match FirstEnd(whole, 0)
            case None => after.Some? && after.value.reqs == c.reqs && after.value.inbuf == whole
            case Some(p) =>
              && (c.resps < c.reqs ==> after.None?)
              && (after.Some? ==> after.value.reqs == c.reqs + 1 && after.value.inbuf == whole[p + 2..]
                                  && after.value.log.marks == c.log.marks + [ScanStart(c.log.marks) + p])
  {
    hide FirstEnd, Answer, ProtocolOk, StreamOk, ScanOk;
    Counters(cfg, c);
    ReceiveKeeps(c, inp.data);
    ScanFacts(Receive(c, inp.data));
    AnswerFrame(cfg, Receive(c, inp.data), inp);
  }

  /** The resumed scan is the scan from 0, and the buffer is what arrived since the last pop. */
  lemma ScanFacts(c: Client)
    requires ScanOk(c)
    ensures FirstEnd(c.inbuf, c.offset) == FirstEnd(c.inbuf, 0)
    ensures |c.log.recv| - |c.inbuf| == ScanStart(c.log.marks)
  {
    ResumedScan(c.inbuf, c.offset);
  }

  lemma Counters(cfg: Config, c: Client)
    requires ProtocolOk(cfg, c)
    ensures c.resps <= c.reqs <= c.resps + 1
  {
  }

  // ----- the end of a request as HTTP has it

  /** A request without a body (RFC 9112 section 3): lines that are not empty, each ended by CRLF, then an empty one. */
  predicate IsRequest(lines: seq<string>) {
    lines != [] && forall i :: 0 <= i < |lines| ==> lines[i] != "" && '\n' !in lines[i]
  }

  /** Among its bytes only the empty line ends a request, and it is recognised at the byte that completes it. */
  lemma {:induction false} OnlyTheEmptyLineEnds(lines: seq<string>)
    requires IsRequest(lines)
    ensures var s := Head(lines); |s| > 3 && forall q :: EndsRequest(s, q) <==> q == |s| - 3
  {
    var line, rest := lines[0], lines[1..];
    var s, tail := Head(lines), Head(rest);
    var n := |line| + 2;
    assert s == line + CRLF + tail;
    assert forall q :: 0 <= q < |line| ==> s[q] == line[q];
    assert s[n - 2] == '\r' && s[n - 1] == '\n';
    assert forall q :: n <= q < |s| ==> s[q] == tail[q - n];
    if rest == [] {
      assert tail == CRLF;
    } else {
      assert rest[0] == lines[1] && forall i :: 0 <= i < |rest| ==> rest[i] == lines[i + 1];
      OnlyTheEmptyLineEnds(rest);
      assert tail[0] == rest[0][0] && tail[0] != '\n';
      assert tail[1] == (if |rest[0]| > 1 then rest[0][1] else '\r') && tail[1] != '\n';
      forall q ensures EndsRequest(s, q) <==> q == |s| - 3 {
        if q >= n {
          assert EndsRequest(s, q) <==> EndsRequest(tail, q - n);
        }
      }
    }
  }

  /** So a request is recognised exactly when its empty line is there, whatever follows. */
  lemma RequestEndsAtEmptyLine(lines: seq<string>, more: string, k: nat)
    requires IsRequest(lines) && k < |Head(lines)|
    ensures FirstEnd(Head(lines) + more, 0) == Some(|Head(lines)| - 3)
    ensures FirstEnd(Head(lines)[..k], 0) == None
  {
    hide Head;
    var s := Head(lines);
    OnlyTheEmptyLineEnds(lines);
    assert EndsRequest(s, |s| - 3);
    FirstEndStable(s, more, 0);
    assert forall q :: EndsRequest(s[..k], q) ==> EndsRequest(s, q);
  }

  // ----- the newline that stays buffered

  /** Behind a request the buffer starts with its closing newline. */
  lemma NewlineStays(c: Client)
    requires ScanOk(c) && c.reqs > 0
    ensures c.inbuf != "" && c.inbuf[0] == '\n'
  {
    hide FirstEnd;
    var i := |c.log.marks| - 1;
    assert FirstEnd(c.log.recv, ScanStart(c.log.marks[..i])) == Some(c.log.marks[i]);
  }

  /**
   * A scan from that newline over the bytes d behind it stops at the newline itself exactly if the
   * second byte of d is a newline too, and otherwise finds what a scan of d alone finds.
   */
  lemma ScanBehindNewline(d: string)
    ensures FirstEnd("\n" + d, 0)
         == if |d| >= 2 && d[1] == '\n' then Some(0)
            else match FirstEnd(d, 0) case None => None case Some(p) => Some(1 + p)
  {
    var s := "\n" + d;
    assert s[1..] == d;
    assert EndsRequest(s, 0) <==> |d| >= 2 && d[1] == '\n';
    SuffixScan(s, 1, 0);
  }

  /**
   * The next request behind an answered one, or behind a stray newline, whose bytes so far are d: this
   * read recognises it if and only if its end has arrived or its second byte is a newline, and at its
   * own end if and only if its second byte is no newline.
   */
  lemma NextRequest(cfg: Config, c: Client, inp: ReadInput)
    requires ClientOk(cfg, c) && c.reqs == c.resps && inp.readOk && inp.writeOk
    requires c.reqs > 0 || (c.inbuf != "" && c.inbuf[0] == '\n')
    ensures c.inbuf != ""
    ensures var d, after := (c.inbuf + inp.data)[1..], OnRead(cfg, c, inp);
            var own, tooEarly := FirstEnd(d, 0), |d| >= 2 && d[1] == '\n';
            && after.Some? && after.value.reqs == c.reqs + (if own.Some? || tooEarly then 1 else 0)
            && (own.Some? ==>
                  (after.value.log.marks == c.log.marks + [ScanStart(c.log.marks) + 1 + own.value] <==> !tooEarly))
  {
    hide FirstEnd, OnRead, ProtocolOk, StreamOk, ScanOk;
    if c.reqs > 0 {
      NewlineStays(c);
    }
    var whole := c.inbuf + inp.data;
    assert whole == "\n" + whole[1..];
    ScanBehindNewline(whole[1..]);
    RecognisesAtOnce(cfg, c, inp);
    AcceptedWhenWritable(cfg, c, inp);
    assert forall x: nat, y: nat :: c.log.marks + [x] == c.log.marks + [y] ==>
      x == (c.log.marks + [x])[|c.log.marks|] == (c.log.marks + [y])[|c.log.marks|] == y;
  }

  /** So any one byte and a newline behind an answered request already end another one. */
  lemma ClosingNewlineCanOpenAMatch(cfg: Config, c: Client, inp: ReadInput, x: char, more: string)
    requires ClientOk(cfg, c) && c.inbuf == "\n" && c.reqs == c.resps
    requires inp.readOk && inp.data == [x, '\n'] + more && inp.writeOk
    ensures OnRead(cfg, c, inp).Some? && OnRead(cfg, c, inp).value.reqs == c.reqs + 1
  {
    hide FirstEnd, OnRead, ClientOk;
    assert (c.inbuf + inp.data)[1..] == inp.data;
    NextRequest(cfg, c, inp);
  }

  lemma AcceptedWhenWritable(cfg: Config, c: Client, inp: ReadInput)
    requires c.reqs == c.resps && inp.writeOk
    ensures OnRead(cfg, c, inp).Some?
  {
    hide FirstEnd, Send, Choose;
  }

  // ----- all requests in a stream

  /** The ends of successive requests: each is looked for from the closing newline of the one before. */
  function Ends(s: string, from: nat): seq<nat>
    decreases |s| - from
  {
    match FirstEnd(s, from)
    case None => []
    case Some(p) => [p] + Ends(s, p + 2)
  }

  /** More bytes only add requests at the end. */
  lemma {:induction false} EndsGrow(s: string, more: string, from: nat)
    ensures Ends(s, from) <= Ends(s + more, from)
    decreases |s| - from
  {
    hide FirstEnd;
    var r := FirstEnd(s, from);
    if r.Some? {
      FirstEndStable(s, more, from);
      EndsGrow(s, more, r.value + 2);
    }
  }

  /** A suffix has as many requests as the whole has from there. */
  lemma {:induction false} EndsOfSuffix(s: string, base: nat, from: nat)
    requires base <= |s|
    ensures |Ends(s, base + from)| == |Ends(s[base..], from)|
    decreases |s| - from
  {
    hide FirstEnd;
    SuffixScan(s, base, from);
    var r := FirstEnd(s[base..], from);
    if r.Some? {
      assert EndsRequest(s[base..], r.value);
      EndsOfSuffix(s, base, r.value + 2);
      assert base + (r.value + 2) == base + r.value + 2;
    }
  }

  lemma LastRecognised(recv: string, marks: seq<nat>)
    requires Recognised(recv, marks) && marks != []
    ensures var n := |marks| - 1;
            Recognised(recv, marks[..n]) && FirstEnd(recv, ScanStart(marks[..n])) == Some(marks[n])
  {
    hide FirstEnd, ScanStart;
    var front := marks[..|marks| - 1];
    forall i | 0 <= i < |front| ensures FirstEnd(recv, ScanStart(front[..i])) == Some(front[i]) {
      assert front[..i] == marks[..i];
    }
  }

  /** The marks are the first requests of the stream, however it was split. */
  lemma {:induction false} MarksComeFirst(recv: string, marks: seq<nat>)
    requires Recognised(recv, marks)
    ensures Ends(recv, 0) == marks + Ends(recv, ScanStart(marks))
  {
    hide FirstEnd, Recognised;
    if marks != [] {
      var front, last := marks[..|marks| - 1], marks[|marks| - 1];
      LastRecognised(recv, marks);
      MarksComeFirst(recv, front);
      assert marks == front + [last];
      assert front + ([last] + Ends(recv, last + 2)) == front + [last] + Ends(recv, last + 2);
    } else {
      assert marks + Ends(recv, 0) == Ends(recv, 0);
    }
  }

  /**
   * In every reachable state of a client: the requests recognised are the first ones of all in the bytes
   * received, and the others are those still complete in the buffer.
   */
  lemma RecognisedAndWaiting(cfg: Config, c: Client)
    requires ClientOk(cfg, c)
    ensures var all := Ends(c.log.recv, 0);
            c.log.marks <= all && |c.log.marks| == c.reqs && |all| == c.reqs + |Ends(c.inbuf, 0)|
  {
    hide FirstEnd, Recognised, ProtocolOk, StreamOk, Ends;
    MarksComeFirst(c.log.recv, c.log.marks);
    EndsOfSuffix(c.log.recv, ScanStart(c.log.marks), 0);
  }

  /** One arrival recognises one request if any is there: the first not recognised yet. */
  lemma OneAtATime(cfg: Config, c: Client, inp: ReadInput)
    requires ClientOk(cfg, c) && inp.readOk
    ensures var all, after := Ends(c.log.recv + inp.data, 0), OnRead(cfg, c, inp);
            && c.reqs <= |Ends(c.log.recv, 0)| <= |all|
            && (c.resps < c.reqs < |all| ==> after.None?)
            && (after.Some? ==>
                  && after.value.log.recv == c.log.recv + inp.data
                  && after.value.reqs == c.reqs + (if c.reqs < |all| then 1 else 0)
                  && after.value.log.marks <= all && |after.value.log.marks| == after.value.reqs)
  {
    hide FirstEnd, OnRead, Recognised, ProtocolOk, StreamOk, ScanOk;
    var r := Receive(c, inp.data);
    EndsGrow(c.log.recv, inp.data, 0);
    RecognisedAndWaiting(cfg, c);
    ReceiveKeeps(c, inp.data);
    LedgerFrame(cfg, c, r);
    RecognisedAndWaiting(cfg, r);
    RecognisesAtOnce(cfg, c, inp);
    if OnRead(cfg, c, inp).Some? {
      ReadKeeps(cfg, c, inp);
      ReadReceives(cfg, c, inp);
      RecognisedAndWaiting(cfg, OnRead(cfg, c, inp).value);
    }
  }

  /** How many requests stay behind in the buffer: all but the one recognised. */
  lemma OthersWait(cfg: Config, c: Client, inp: ReadInput)
    requires ClientOk(cfg, c) && inp.readOk && OnRead(cfg, c, inp).Some?
    ensures |Ends(OnRead(cfg, c, inp).value.inbuf, 0)| == Max(|Ends(c.inbuf + inp.data, 0)| - 1, 0)
  {
    hide FirstEnd, OnRead, Recognised, ProtocolOk, StreamOk;
    var whole, after := c.inbuf + inp.data, OnRead(cfg, c, inp).value;
    RecognisesAtOnce(cfg, c, inp);
    var r := FirstEnd(whole, 0);
    if r.Some? {
      assert EndsRequest(whole, r.value);
      EndsOfSuffix(whole, r.value + 2, 0);
    }
  }

  lemma ReadReceives(cfg: Config, c: Client, inp: ReadInput)
    requires inp.readOk
    ensures var r := OnRead(cfg, c, inp); r.Some? ==> r.value.log.recv == c.log.recv + inp.data
  {
    hide FirstEnd, Answer;
    AnswerFrame(cfg, Receive(c, inp.data), inp);
  }

  // ----- over whole runs

  /** The client is not replaced by another one with its descriptor. */
  ghost predicate NoAccept(fd: int, events: seq<Event>) {
    forall i :: 0 <= i < |events| ==> !(events[i].Accept? && events[i].fd == fd)
  }

  /** The bytes that reach a client. */
  function ArrivedAt(fd: int, events: seq<Event>): string
    decreases |events|
  {
    if events == [] then ""
    else
      match events[0]
      case Read(f, inp) => (if f == fd && inp.readOk then inp.data else "") + ArrivedAt(fd, events[1..])
      case _ => ArrivedAt(fd, events[1..])
  }

  /** The number of requests recognised behind an event: n before it, one more if an arrival leaves any. */
  function Counted(fd: int, recv: string, n: nat, events: seq<Event>): nat
    decreases |events|
  {
    if events == [] then n
    else
      match events[0]
      case Read(f, inp) =>
        if f == fd && inp.readOk then
          Counted(fd, recv + inp.data, if n < |Ends(recv + inp.data, 0)| then n + 1 else n, events[1..])
        else Counted(fd, recv, n, events[1..])
      case _ => Counted(fd, recv, n, events[1..])
  }

  /** Events other than an arrival leave the bytes, the requests and the buffer of a client that survives. */
  lemma OthersKeep(cfg: Config, fd: int, c: Client, e: Event)
    requires !(e.Read? && e.fd == fd && e.inp.readOk)
    ensures var r := ClientStep(cfg, fd, Some(c), e);
            r.Some? ==> r.value.reqs == c.reqs && r.value.inbuf == c.inbuf && r.value.offset == c.offset
                        && r.value.log.recv == c.log.recv && r.value.log.marks == c.log.marks
  {
    hide Send, Answer, FirstEnd;
    if e.Tick? {
      SendKeepsScan(cfg, c, e.env(fd).size);
    }
  }

  lemma {:induction false} GoneStaysGone(cfg: Config, fd: int, events: seq<Event>)
    requires NoAccept(fd, events)
    ensures ClientRun(cfg, fd, None, events) == None
    decreases |events|
  {
    hide OnRead, OnTimer;
    if events != [] {
      assert NoAccept(fd, events[1..]);
      GoneStaysGone(cfg, fd, events[1..]);
    }
  }

  /**
   * Over any run that the client survives, whatever the ticks, latencies and other clients: the requests
   * recognised are the first ones of the bytes that arrived, and their number depends only on the bytes
   * and on where the arrivals end.
   */
  lemma {:induction false} RunRecognises(cfg: Config, fd: int, c: Client, events: seq<Event>)
    requires ClientOk(cfg, c) && NoAccept(fd, events) && ClientRun(cfg, fd, Some(c), events).Some?
    ensures var after := ClientRun(cfg, fd, Some(c), events).value;
            && ClientOk(cfg, after) && after.log.recv == c.log.recv + ArrivedAt(fd, events)
            && after.reqs == Counted(fd, c.log.recv, c.reqs, events)
            && after.log.marks <= Ends(after.log.recv, 0) && |after.log.marks| == after.reqs
    decreases |events|
  {
    hide ClientOk, ClientStep, Ends;
    if events == [] {
      RecognisedAndWaiting(cfg, c);
      assert c.log.recv + "" == c.log.recv;
    } else {
      var e := events[0];
      assert NoAccept(fd, events[1..]);
      var next := ClientStep(cfg, fd, Some(c), e);
      if next.None? {
        GoneStaysGone(cfg, fd, events[1..]);
      } else {
        ClientStepKeeps(cfg, fd, Some(c), e);
        RunRecognises(cfg, fd, next.value, events[1..]);
        if e.Read? && e.fd == fd && e.inp.readOk {
          OneAtATime(cfg, c, e.inp);
          ReadIsStep(cfg, fd, c, e.inp);
          assert c.log.recv + e.inp.data + ArrivedAt(fd, events[1..]) == c.log.recv + ArrivedAt(fd, events);
        } else {
          OthersKeep(cfg, fd, c, e);
          assert "" + ArrivedAt(fd, events[1..]) == ArrivedAt(fd, events[1..]);
        }
      }
    }
  }

  lemma ReadIsStep(cfg: Config, fd: int, c: Client, inp: ReadInput)
    ensures ClientStep(cfg, fd, Some(c), Read(fd, inp)) == OnRead(cfg, c, inp)
  {
    hide OnRead;
  }

  /** This read recognises request k of the stream. */
  predicate Recognises(before: Client, after: Client, k: nat) {
    before.reqs <= k < after.reqs
  }

  /**
   * However the bytes are split into arrivals, and whatever happens in between: the arrival after it
   * recognises the first request not recognised yet, at the position a scan of all bytes gives, and what
   * stays buffered starts with its closing newline. So a request is recognised at the arrival that
   * completes it exactly if no earlier one is recognised by that same arrival. A request that comes
   * before the response to the last one costs the connection.
   */
  lemma SplitDoesNotMatter(cfg: Config, fd: int, c: Client, events: seq<Event>, last: ReadInput)
    requires ClientOk(cfg, c) && NoAccept(fd, events) && ClientRun(cfg, fd, Some(c), events).Some? && last.readOk
    ensures var before := ClientRun(cfg, fd, Some(c), events).value;
            var recv := c.log.recv + ArrivedAt(fd, events);
            var all, known, after := Ends(recv + last.data, 0), |Ends(recv, 0)|, OnRead(cfg, before, last);
            && before.reqs == Counted(fd, c.log.recv, c.reqs, events) <= known <= |all|
            && (before.resps < before.reqs < |all| ==> after.None?)
            && (after.Some? ==>
                  && after.value.reqs == before.reqs + (if before.reqs < |all| then 1 else 0)
                  && after.value.log.marks <= all && |after.value.log.marks| == after.value.reqs
                  && (before.reqs < |all| ==> all[before.reqs] + 2 < |recv + last.data|
                                              && after.value.inbuf == (recv + last.data)[all[before.reqs] + 2..]
                                              && after.value.inbuf[0] == '\n')
                  && forall k :: known <= k < |all| ==>
                       (Recognises(before, after.value, k)
                        <==> forall j: nat :: j < k ==> !Recognises(before, after.value, j)))
  {
    hide ClientOk, OnRead, ClientRun, FirstEnd, Ends, Counted, ArrivedAt;
    RunRecognises(cfg, fd, c, events);
    var before := ClientRun(cfg, fd, Some(c), events).value;
    OneAtATime(cfg, before, last);
    var all, after := Ends(c.log.recv + ArrivedAt(fd, events) + last.data, 0), OnRead(cfg, before, last);
    if after.Some? && before.reqs < |all| {
      ReadKeeps(cfg, before, last);
      BufferBehindLastMark(cfg, after.value);
      NewlineStays(after.value);
      assert after.value.log.marks[before.reqs] == all[before.reqs];
    }
    if after.Some? {
      OnlyTheFirst(before, after.value, |Ends(c.log.recv + ArrivedAt(fd, events), 0)|, |all|);
    }
  }

  lemma OnlyTheFirst(before: Client, after: Client, known: nat, all: nat)
    requires before.reqs <= known && after.reqs == before.reqs + (if before.reqs < all then 1 else 0)
    ensures forall k :: known <= k < all ==>
              (Recognises(before, after, k) <==> forall j: nat :: j < k ==> !Recognises(before, after, j))
  {
    forall k | known <= k < all
      ensures Recognises(before, after, k) <==> forall j: nat :: j < k ==> !Recognises(before, after, j)
    {
      if k != before.reqs {
        assert Recognises(before, after, before.reqs);
      }
    }
  }

  lemma BufferBehindLastMark(cfg: Config, c: Client)
    requires ClientOk(cfg, c) && c.reqs > 0
    ensures |c.log.marks| == c.reqs && ScanOk(c)
    ensures var last := c.log.marks[c.reqs - 1]; last + 2 <= |c.log.recv| && c.inbuf == c.log.recv[last + 2..]
  {
  }

  // ----- requests that arrive together

  /** Every arrival completes at most one request. */
  predicate OneEach(fd: int, recv: string, events: seq<Event>)
    decreases |events|
  {
    if events == [] then true
    else
      match events[0]
      case Read(f, inp) =>
        if f == fd && inp.readOk then
          |Ends(recv + inp.data, 0)| <= |Ends(recv, 0)| + 1 && OneEach(fd, recv + inp.data, events[1..])
        else OneEach(fd, recv, events[1..])
      case _ => OneEach(fd, recv, events[1..])
  }

  /** After every event all complete requests have been recognised. */
  predicate NoneWaits(fd: int, recv: string, n: nat, events: seq<Event>)
    decreases |events|
  {
    n == |Ends(recv, 0)| &&
    if events == [] then true
    else
      match events[0]
      case Read(f, inp) =>
        if f == fd && inp.readOk then
          NoneWaits(fd, recv + inp.data, if n < |Ends(recv + inp.data, 0)| then n + 1 else n, events[1..])
        else NoneWaits(fd, recv, n, events[1..])
      case _ => NoneWaits(fd, recv, n, events[1..])
  }

  /** Every request is recognised at the arrival that completes it exactly if no arrival completes two. */
  lemma {:induction false} NoneWaitsIff(fd: int, recv: string, n: nat, events: seq<Event>)
    requires n == |Ends(recv, 0)|
    ensures NoneWaits(fd, recv, n, events) <==> OneEach(fd, recv, events)
    ensures OneEach(fd, recv, events) ==>
              Counted(fd, recv, n, events) == |Ends(recv + ArrivedAt(fd, events), 0)|
    decreases |events|
  {
    hide Ends;
    if events == [] {
      assert recv + "" == recv;
    } else if events[0].Read? && events[0].fd == fd && events[0].inp.readOk {
      var data := events[0].inp.data;
      EndsGrow(recv, data, 0);
      assert recv + ArrivedAt(fd, events) == recv + data + ArrivedAt(fd, events[1..]);
      if |Ends(recv + data, 0)| <= n + 1 {
        NoneWaitsIff(fd, recv + data, |Ends(recv + data, 0)|, events[1..]);
      } else {
        WaitsAtOnce(fd, recv + data, n + 1, events[1..]);
      }
    } else {
      assert "" + ArrivedAt(fd, events[1..]) == ArrivedAt(fd, events[1..]);
      NoneWaitsIff(fd, recv, n, events[1..]);
    }
  }

  lemma WaitsAtOnce(fd: int, recv: string, n: nat, events: seq<Event>)
    requires n != |Ends(recv, 0)|
    ensures !NoneWaits(fd, recv, n, events)
  {
  }

  /** Pipelined requests: of four lines in one arrival only the first request is recognised. */
  lemma PipelinedRequestsWait(cfg: Config, now: int, inp: ReadInput)
    requires cfg.responseType.ContentOnly? && cfg.maxLatency == 0 && inp.readOk && inp.writeOk
    requires inp.data == "a\nb\nc\nd\n"
    ensures var r := OnRead(cfg, FreshClient(now), inp); r.Some? && r.value.reqs == 1
  {
    hide OnRead, Ends, FirstEnd, ClientOk;
    var c := FreshClient(now);
    FreshOk(cfg, now);
    FourLines();
    OneAtATime(cfg, c, inp);
    AnsweredAtOnce(cfg, c, inp);
    assert c.log.recv + inp.data == inp.data;
  }

  /** In two arrivals a second one is. */
  lemma SeparateRequestsDoNot(cfg: Config, now: int, first: ReadInput, second: ReadInput)
    requires cfg.responseType.ContentOnly? && cfg.maxLatency == 0
    requires first.readOk && first.writeOk && first.data == "a\nb\n"
    requires second.readOk && second.writeOk && second.data == "c\nd\n"
    ensures var r := OnRead(cfg, FreshClient(now), first);
            r.Some? && var r2 := OnRead(cfg, r.value, second); r2.Some? && r2.value.reqs == 2
  {
    hide OnRead, Ends, FirstEnd, ClientOk;
    var c := FreshClient(now);
    FreshOk(cfg, now);
    FourLines();
    OneAtATime(cfg, c, first);
    AnsweredAtOnce(cfg, c, first);
    assert c.log.recv + first.data == first.data;
    var c1 := OnRead(cfg, c, first).value;
    ReadKeeps(cfg, c, first);
    OneAtATime(cfg, c1, second);
    AnsweredAtOnce(cfg, c1, second);
    assert "a\nb\n" + "c\nd\n" == "a\nb\nc\nd\n";
  }

  lemma FourLines()
    ensures |Ends("a\nb\nc\nd\n", 0)| == 3 && |Ends("a\nb\n", 0)| == 1
  {
    var s := "a\nb\nc\nd\n";
    assert FirstEnd(s, 7) == None && FirstEnd(s, 5) == Some(5) && FirstEnd(s, 3) == Some(3);
    assert FirstEnd(s, 0) == FirstEnd(s, 1) == Some(1);
    var t := "a\nb\n";
    assert FirstEnd(t, 3) == None && FirstEnd(t, 0) == FirstEnd(t, 1) == Some(1);
  }

  /** Without a latency a content response is complete when the read returns. */
  lemma AnsweredAtOnce(cfg: Config, c: Client, inp: ReadInput)
    requires cfg.responseType.ContentOnly? && cfg.maxLatency == 0 && inp.writeOk && c.reqs == c.resps
    ensures var r := OnRead(cfg, c, inp); r.Some? && r.value.reqs == r.value.resps
  {
    hide FirstEnd, ContentWire;
  }
}
