/**
 * The bytes the mock server writes, and a reader of HTTP/1.1 messages written from RFC 9112
 * (sections 5, 6.3 and 7.1) that knows nothing about the server. The theorems say that the
 * reader recovers every body from a stream of responses and stops exactly at an unfinished one.
 */
module HttpFormat {
  import opened Text

  const CRLF := "\r\n"
  const STATUS_LINE := "HTTP/1.1 200 OK"
  const DATE_LINE := "Date: Tue, 13 Nov 2012 13:21:30 GMT"
  const SERVER_LINE := "Server: Http Mock"
  const MODIFIED_LINE := "Last-Modified: Tue, 12 Jan 2010 13:48:00 GMT"
  const LENGTH_NAME := "Content-Length: "
  const CODING_LINE := "Transfer-Encoding: chunked"
  const CONNECTION_LINE := "Connection: Keep-Alive"
  const TYPE_LINE := "Content-Type: text/html"
  const LAST_CHUNK := "0\r\n\r\n"

  /** The largest content response whose whole length is an int: 198 bytes go with the ten digits of its length. */
  const MAX_CONTENT := INT_MAX - 202

  // ----- writer side

  function ContentLines(n: nat): seq<string> {
    [STATUS_LINE, DATE_LINE, SERVER_LINE, MODIFIED_LINE,
     LENGTH_NAME + PrintInt(Wrap32(n + 4)), CONNECTION_LINE, TYPE_LINE]
  }

  function ChunkLines(): seq<string> {
    [STATUS_LINE, DATE_LINE, SERVER_LINE, MODIFIED_LINE, CODING_LINE, CONNECTION_LINE, TYPE_LINE]
  }

  /** A header section: each line ended by CRLF, then an empty line. */
  function Head(lines: seq<string>): string {
    if lines == [] then CRLF else lines[0] + CRLF + Head(lines[1..])
  }

  /** What create_response leaves in the body buffer, in front of its NUL. */
  function ContentBuffer(n: nat): string {
    Fill(n) + CRLF
  }

  /** A whole Content-Length response, for a chosen size n. */
  function ContentWire(n: nat): string {
    Head(ContentLines(n)) + ContentBuffer(n) + CRLF
  }

  /** One data chunk: size in hexadecimal, data, each closed by CRLF. */
  function ChunkWire(d: nat): string {
    Print(d, 16) + CRLF + Fill(d) + CRLF
  }

  /** The header section goes out with the first piece of a chunked response. */
  function HeadOnce(first: bool): string {
    if first then Head(ChunkLines()) else ""
  }

  function ChunksWire(sizes: seq<nat>): string {
    if sizes == [] then "" else ChunkWire(sizes[0]) + ChunksWire(sizes[1..])
  }

  function Sum(sizes: seq<nat>): nat {
    if sizes == [] then 0 else sizes[0] + Sum(sizes[1..])
  }

  /** One finished response: a content response of the chosen size, or the data chunks of a chunked one. */
  datatype Response = ContentOf(size: nat) | ChunksOf(sizes: seq<nat>)
  {
    function Wire(): string {
      match this
      case ContentOf(n) => ContentWire(n)
      case ChunksOf(sizes) => Head(ChunkLines()) + ChunksWire(sizes) + LAST_CHUNK
    }

    /** The body a client must read back. */
    function Body(): string {
      match this
      case ContentOf(n) => ContentBuffer(n) + CRLF
      case ChunksOf(sizes) => Fill(Sum(sizes))
    }

    /** No empty data chunk, and a content response whose whole length an int can hold. */
    predicate WellFormed() {
      match this
      case ContentOf(n) => n <= MAX_CONTENT
      case ChunksOf(sizes) => AllPositive(sizes)
    }
  }

  predicate AllPositive(sizes: seq<nat>) {
    forall i :: 0 <= i < |sizes| ==> sizes[i] > 0
  }

  function Wires(done: seq<Response>): string {
    if done == [] then "" else done[0].Wire() + Wires(done[1..])
  }

  function Bodies(done: seq<Response>): seq<string> {
    if done == [] then [] else [done[0].Body()] + Bodies(done[1..])
  }

  /** What has been written of a chunked response whose last chunk is still to come. */
  function Unfinished(sizes: seq<nat>): string {
    if sizes == [] then "" else Head(ChunkLines()) + ChunksWire(sizes)
  }

  // ----- reader side

  /** Splits off the first line, without its CRLF. */
  function SplitLine(s: string): (r: Option<(string, string)>)
    ensures r.Some? ==> |r.value.1| + 2 <= |s|
  {
    if |s| < 2 then None
    else if s[0] == '\r' && s[1] == '\n' then Some(("", s[2..]))
    else
      match SplitLine(s[1..])
      case None => None
      case Some((line, rest)) => Some(([s[0]] + line, rest))
  }

  /** Reads lines up to and including the empty one. */
  function ReadHead(s: string): (r: Option<(seq<string>, string)>)
    ensures r.Some? ==> |r.value.1| < |s|
    decreases |s|
  {
    match SplitLine(s)
    case None => None
    case Some((line, rest)) =>
      if line == "" then Some(([], rest))
      else
        match ReadHead(rest)
        case None => None
        case Some((lines, rest')) => Some(([line] + lines, rest'))
  }

  function LowerChar(c: char): char {
    if 'A' <= c <= 'Z' then (c as int + 32) as char else c
  }

  /** RFC 9112 section 5: field names are case-insensitive and end at the colon. */
  predicate HasName(line: string, name: string) {
    && |name| + 2 <= |line|
    && line[|name|] == ':' && line[|name| + 1] == ' '
    && forall i :: 0 <= i < |name| ==> LowerChar(line[i]) == name[i]
  }

  datatype Framing = ByChunks | ByLength(n: nat) | Unframed

  /** RFC 9112 section 6.3: a Transfer-Encoding overrides a Content-Length; an unreadable length frames nothing. */
  function FramingOf(fields: seq<string>): Framing {
    if fields == [] then Unframed
    else if HasName(fields[0], "transfer-encoding") then
      (if fields[0][19..] == "chunked" then ByChunks else Unframed)
    else
      var others := FramingOf(fields[1..]);
      if HasName(fields[0], "content-length") && !others.ByChunks? then
        match ReadNumber(fields[0][16..], 10)
        case None => Unframed
        case Some(n) => ByLength(n)
      else others
  }

  /** RFC 9112 section 7.1: data chunks up to the zero-size chunk and its trailer section. */
  function ReadChunks(s: string): (r: Option<(string, string)>)
    ensures r.Some? ==> |r.value.1| < |s|
    decreases |s|
  {
    match SplitLine(s)
    case None => None
    case Some((line, rest)) =>
      match ReadNumber(line, 16)
      case None => None
      case Some(n) =>
        if n == 0 then
          match ReadHead(rest)
          case None => None
          case Some((_, rest')) => Some(("", rest'))
        else if |rest| < n + 2 || rest[n..n + 2] != CRLF then None
        else
          match ReadChunks(rest[n + 2..])
          case None => None
          case Some((body, rest')) => Some((rest[..n] + body, rest'))
  }

  /** RFC 9112 section 4: the version, a status of three digits, and a reason that means nothing. */
  function StatusOf(line: string): Option<nat> {
    if |line| >= 13 && line[..9] == "HTTP/1.1 " && line[12] == ' ' then ReadNumber(line[9..12], 10) else None
  }

  /** One successful message: its body and the bytes behind it; None when it is not complete. */
  function ReadMessage(s: string): (r: Option<(string, string)>)
    ensures r.Some? ==> |r.value.1| < |s|
  {
    match ReadHead(s)
    case None => None
    case Some((lines, rest)) =>
      if lines == [] || StatusOf(lines[0]) != Some(200) then None
      else
        match FramingOf(lines[1..])
        case ByChunks => ReadChunks(rest)
        case ByLength(n) => if |rest| < n then None else Some((rest[..n], rest[n..]))
        case Unframed => None
  }

  /** All complete messages of a stream, and the bytes of the one that is not complete. */
  function ReadStream(s: string): (seq<string>, string)
    decreases |s|
  {
    match ReadMessage(s)
    case None => ([], s)
    case Some((body, rest)) =>
      var (bodies, tail) := ReadStream(rest);
      ([body] + bodies, tail)
  }

  // ----- header sections

  predicate IsLine(s: string) {
    s != "" && '\r' !in s
  }

  predicate AreLines(lines: seq<string>) {
    forall i :: 0 <= i < |lines| ==> IsLine(lines[i])
  }

  lemma {:induction false} SplitLineOf(line: string, rest: string)
    requires '\r' !in line
    ensures SplitLine(line + CRLF + rest) == Some((line, rest))
  {
    var s := line + CRLF + rest;
    if line == "" {
      assert s[2..] == rest;
    } else {
      SplitLineOf(line[1..], rest);
      assert s[1..] == line[1..] + CRLF + rest;
      assert [line[0]] + line[1..] == line;
      assert s[0] == line[0];
    }
  }

  lemma {:induction false} ReadHeadOf(lines: seq<string>, rest: string)
    requires AreLines(lines)
    ensures ReadHead(Head(lines) + rest) == Some((lines, rest))
  {
    if lines == [] {
      SplitLineOf("", rest);
      assert Head(lines) + rest == "" + CRLF + rest;
    } else {
      ReadHeadOf(lines[1..], rest);
      assert Head(lines) + rest == lines[0] + CRLF + (Head(lines[1..]) + rest);
      SplitLineOf(lines[0], Head(lines[1..]) + rest);
      assert IsLine(lines[0]);
      assert [lines[0]] + lines[1..] == lines;
    }
  }

  lemma StatusIsLine()
    ensures IsLine(STATUS_LINE) && StatusOf(STATUS_LINE) == Some(200)
  {
    assert STATUS_LINE[9..12] == "200" && STATUS_LINE[..9] == "HTTP/1.1 ";
    assert "200"[..2] == "20" && "20"[..1] == "2";
    assert ReadNumber("2", 10) == Some(2) && ReadNumber("20", 10) == Some(20);
  }

  lemma DateIsLine()
    ensures IsLine(DATE_LINE) && !HasName(DATE_LINE, "transfer-encoding") && !HasName(DATE_LINE, "content-length")
  {
  }

  lemma ServerIsLine()
    ensures IsLine(SERVER_LINE) && !HasName(SERVER_LINE, "transfer-encoding") && !HasName(SERVER_LINE, "content-length")
  {
  }

  lemma ModifiedIsLine()
    ensures IsLine(MODIFIED_LINE)
    ensures !HasName(MODIFIED_LINE, "transfer-encoding") && !HasName(MODIFIED_LINE, "content-length")
  {
  }

  lemma CodingIsLine()
    ensures IsLine(CODING_LINE) && CODING_LINE[19..] == "chunked"
  {
  }

  lemma CodingHasName()
    ensures HasName(CODING_LINE, "transfer-encoding")
  {
  }

  lemma ConnectionAndTypeAreLines()
    ensures IsLine(CONNECTION_LINE) && IsLine(TYPE_LINE)
    ensures !HasName(CONNECTION_LINE, "transfer-encoding") && !HasName(CONNECTION_LINE, "content-length")
    ensures !HasName(TYPE_LINE, "transfer-encoding") && !HasName(TYPE_LINE, "content-length")
  {
  }

  lemma LengthIsLine(i: int)
    ensures var line := LENGTH_NAME + PrintInt(i);
            IsLine(line) && HasName(line, "content-length") && !HasName(line, "transfer-encoding")
            && line[16..] == PrintInt(i)
  {
    PrintIsPlain(if i < 0 then -i else i, 10);
  }

  lemma FramingSkips(line: string, rest: seq<string>)
    requires !HasName(line, "transfer-encoding") && !HasName(line, "content-length")
    ensures FramingOf([line] + rest) == FramingOf(rest)
  {
    assert ([line] + rest)[1..] == rest;
  }

  lemma TrailingLinesFrameNothing()
    ensures FramingOf([CONNECTION_LINE, TYPE_LINE]) == Unframed
  {
    ConnectionAndTypeAreLines();
    FramingSkips(TYPE_LINE, []);
    FramingSkips(CONNECTION_LINE, [TYPE_LINE]);
    assert [TYPE_LINE] + [] == [TYPE_LINE];
    assert [CONNECTION_LINE] + [TYPE_LINE] == [CONNECTION_LINE, TYPE_LINE];
  }

  /** Both header sections start with the same four lines, of which the last three frame nothing. */
  lemma LeadingLinesFrameNothing(lines: seq<string>)
    ensures FramingOf([DATE_LINE, SERVER_LINE, MODIFIED_LINE] + lines) == FramingOf(lines)
  {
    DateIsLine();
    ServerIsLine();
    ModifiedIsLine();
    FramingSkips(MODIFIED_LINE, lines);
    FramingSkips(SERVER_LINE, [MODIFIED_LINE] + lines);
    FramingSkips(DATE_LINE, [SERVER_LINE] + ([MODIFIED_LINE] + lines));
    assert [DATE_LINE, SERVER_LINE, MODIFIED_LINE] + lines
        == [DATE_LINE] + ([SERVER_LINE] + ([MODIFIED_LINE] + lines));
  }

  lemma AllAreLines(coding: string)
    requires IsLine(coding)
    ensures AreLines([STATUS_LINE, DATE_LINE, SERVER_LINE, MODIFIED_LINE, coding, CONNECTION_LINE, TYPE_LINE])
  {
    StatusIsLine();
    DateIsLine();
    ServerIsLine();
    ModifiedIsLine();
    ConnectionAndTypeAreLines();
  }

  lemma ChunkHead(rest: string)
    ensures ReadMessage(Head(ChunkLines()) + rest) == ReadChunks(rest)
  {
    var framed := [CODING_LINE, CONNECTION_LINE, TYPE_LINE];
    StatusIsLine();
    CodingIsLine();
    CodingHasName();
    AllAreLines(CODING_LINE);
    ReadHeadOf(ChunkLines(), rest);
    LeadingLinesFrameNothing(framed);
    assert ChunkLines()[1..] == [DATE_LINE, SERVER_LINE, MODIFIED_LINE] + framed;
    assert framed[0] == CODING_LINE;
  }

  lemma ContentHead(n: nat, rest: string)
    ensures ReadMessage(Head(ContentLines(n)) + rest)
         == match ReadNumber(PrintInt(Wrap32(n + 4)), 10)
            case None => None
            case Some(k) => if |rest| < k then None else Some((rest[..k], rest[k..]))
  {
    var line := LENGTH_NAME + PrintInt(Wrap32(n + 4));
    var framed := [line, CONNECTION_LINE, TYPE_LINE];
    StatusIsLine();
    LengthIsLine(Wrap32(n + 4));
    AllAreLines(line);
    ReadHeadOf(ContentLines(n), rest);
    LeadingLinesFrameNothing(framed);
    TrailingLinesFrameNothing();
    assert ContentLines(n)[1..] == [DATE_LINE, SERVER_LINE, MODIFIED_LINE] + framed;
    assert framed[0] == line && framed[1..] == [CONNECTION_LINE, TYPE_LINE];
  }

  // ----- bodies

  lemma ContentFramed(n: nat, rest: string)
    requires n + 4 <= INT_MAX
    ensures ReadMessage(ContentWire(n) + rest) == Some((ContentOf(n).Body(), rest))
  {
    hide ReadMessage, Head, ContentLines, ReadNumber, PrintInt;
    var body := ContentBuffer(n) + CRLF;
    assert ContentWire(n) + rest == Head(ContentLines(n)) + (body + rest);
    ContentHead(n, body + rest);
    assert ReadNumber(PrintInt(Wrap32(n + 4)), 10) == Some(n + 4) by { PrintedLength(n); }
    assert (body + rest)[..n + 4] == body && (body + rest)[n + 4..] == rest;
  }

  lemma ContentUnframed(n: nat, rest: string)
    requires INT_MAX < n + 4 && n <= INT_MAX
    ensures ReadMessage(ContentWire(n) + rest) == None
  {
    hide ReadMessage, Head, ContentLines, ReadNumber, PrintInt;
    var body := ContentBuffer(n) + CRLF;
    assert ContentWire(n) + rest == Head(ContentLines(n)) + (body + rest);
    ContentHead(n, body + rest);
    assert ReadNumber(PrintInt(Wrap32(n + 4)), 10) == None by { PrintedLength(n); }
  }

  lemma PrintedLength(n: nat)
    requires n <= INT_MAX
    ensures ReadNumber(PrintInt(Wrap32(n + 4)), 10) == if n + 4 <= INT_MAX then Some(n + 4) else None
  {
    hide ReadNumber, Print;
    if n + 4 <= INT_MAX {
      ParsePrint(n + 4, 10);
    } else {
      var i: int := Wrap32(n + 4);
      SignIsNoDigit(Print(-i, 10), 10);
    }
  }

  /**
   * A content response of any int size reads back as its body, with nothing left over, exactly when
   * size + 4 is an int; past that the printed length has a sign and the response frames nothing.
   */
  lemma ContentTextReadBack(n: nat, rest: string)
    requires n <= INT_MAX
    ensures ReadMessage(ContentWire(n) + rest) == Some((ContentOf(n).Body(), rest)) <==> n + 4 <= INT_MAX
    ensures n + 4 > INT_MAX ==> ReadMessage(ContentWire(n) + rest) == None
  {
    hide ReadMessage, ContentWire;
    if n + 4 <= INT_MAX {
      ContentFramed(n, rest);
    } else {
      ContentUnframed(n, rest);
    }
  }

  lemma ReadOneChunk(d: nat, tail: string)
    requires d > 0
    ensures ReadChunks(ChunkWire(d) + tail)
         == match ReadChunks(tail)
            case None => None
            case Some((body, rest)) => Some((Fill(d) + body, rest))
  {
    var rest := Fill(d) + CRLF + tail;
    assert ChunkWire(d) + tail == Print(d, 16) + CRLF + rest;
    PrintIsPlain(d, 16);
    SplitLineOf(Print(d, 16), rest);
    ParsePrint(d, 16);
    assert rest[..d] == Fill(d) && rest[d..d + 2] == CRLF && rest[d + 2..] == tail;
  }

  lemma ReadLastChunk(tail: string)
    ensures ReadChunks(LAST_CHUNK + tail) == Some(("", tail))
  {
    assert LAST_CHUNK + tail == "0" + CRLF + (CRLF + tail);
    SplitLineOf("0", CRLF + tail);
    assert "" + CRLF + tail == CRLF + tail;
    SplitLineOf("", tail);
    assert ReadNumber("0", 16) == Some(0);
  }

  /** Every chunk sequence decodes to its number of data bytes, with nothing left over. */
  lemma {:induction false} ChunksReadBack(sizes: seq<nat>, tail: string)
    requires AllPositive(sizes)
    ensures ReadChunks(ChunksWire(sizes) + LAST_CHUNK + tail) == Some((Fill(Sum(sizes)), tail))
  {
    hide ReadChunks, ChunkWire;
    if sizes == [] {
      ReadLastChunk(tail);
      assert ChunksWire(sizes) + LAST_CHUNK + tail == LAST_CHUNK + tail;
    } else {
      var more := ChunksWire(sizes[1..]) + LAST_CHUNK + tail;
      ChunksReadBack(sizes[1..], tail);
      ReadOneChunk(sizes[0], more);
      assert ChunksWire(sizes) + LAST_CHUNK + tail == ChunkWire(sizes[0]) + more;
      assert Fill(sizes[0]) + Fill(Sum(sizes[1..])) == Fill(Sum(sizes));
    }
  }

  /** Without its last chunk the sequence is not a complete body. */
  lemma {:induction false} OpenChunksAreIncomplete(sizes: seq<nat>)
    requires AllPositive(sizes)
    ensures ReadChunks(ChunksWire(sizes)) == None
  {
    if sizes != [] {
      OpenChunksAreIncomplete(sizes[1..]);
      ReadOneChunk(sizes[0], ChunksWire(sizes[1..]));
    }
  }

  lemma ChunkedReadBack(sizes: seq<nat>, rest: string)
    requires AllPositive(sizes)
    ensures ReadMessage(Head(ChunkLines()) + ChunksWire(sizes) + LAST_CHUNK + rest) == Some((Fill(Sum(sizes)), rest))
  {
    hide ReadMessage, ReadChunks, Head, ChunkLines, ChunksWire;
    var body := ChunksWire(sizes) + LAST_CHUNK + rest;
    ChunksReadBack(sizes, rest);
    ChunkHead(body);
    assert Head(ChunkLines()) + ChunksWire(sizes) + LAST_CHUNK + rest == Head(ChunkLines()) + body;
  }

  lemma ResponseReadBack(r: Response, rest: string)
    requires r.WellFormed()
    ensures ReadMessage(r.Wire() + rest) == Some((r.Body(), rest))
  {
    hide ReadMessage, Head, ContentWire, ChunksWire;
    match r
    case ContentOf(n) => ContentFramed(n, rest);
    case ChunksOf(sizes) => ChunkedReadBack(sizes, rest);
  }

  lemma UnfinishedIsIncomplete(sizes: seq<nat>)
    requires AllPositive(sizes)
    ensures ReadMessage(Unfinished(sizes)) == None
  {
    if sizes != [] {
      OpenChunksAreIncomplete(sizes);
      ChunkHead(ChunksWire(sizes));
    }
  }

  predicate AllWellFormed(done: seq<Response>) {
    forall i :: 0 <= i < |done| ==> done[i].WellFormed()
  }

  /** The reader recovers every body, in order, and stops exactly at the unfinished response. */
  lemma {:induction false} StreamReadBack(done: seq<Response>, sizes: seq<nat>)
    requires AllWellFormed(done) && AllPositive(sizes)
    ensures ReadStream(Wires(done) + Unfinished(sizes)) == (Bodies(done), Unfinished(sizes))
  {
    hide ReadMessage, Response.Wire, Response.Body, Unfinished;
    if done == [] {
      UnfinishedIsIncomplete(sizes);
      assert Wires(done) + Unfinished(sizes) == Unfinished(sizes);
    } else {
      var more := Wires(done[1..]) + Unfinished(sizes);
      assert done[0].WellFormed();
      assert forall i :: 0 <= i < |done[1..]| ==> done[1..][i] == done[i + 1];
      StreamReadBack(done[1..], sizes);
      ResponseReadBack(done[0], more);
      assert Wires(done) + Unfinished(sizes) == done[0].Wire() + more;
    }
  }

  // ----- how the writer extends a stream

  lemma {:induction false} WiresSnoc(done: seq<Response>, r: Response)
    ensures Wires(done + [r]) == Wires(done) + r.Wire()
    ensures Bodies(done + [r]) == Bodies(done) + [r.Body()]
  {
    hide Response.Wire, Response.Body;
    if done == [] {
      assert done + [r] == [r];
    } else {
      WiresSnoc(done[1..], r);
      assert (done + [r])[1..] == done[1..] + [r];
    }
  }

  lemma {:induction false} ChunksSnoc(sizes: seq<nat>, d: nat)
    ensures ChunksWire(sizes + [d]) == ChunksWire(sizes) + ChunkWire(d)
    ensures Sum(sizes + [d]) == Sum(sizes) + d
  {
    if sizes == [] {
      assert sizes + [d] == [d];
    } else {
      ChunksSnoc(sizes[1..], d);
      assert (sizes + [d])[1..] == sizes[1..] + [d];
    }
  }

  lemma UnfinishedSnoc(sizes: seq<nat>, d: nat)
    ensures Unfinished(sizes + [d]) == Unfinished(sizes) + (HeadOnce(sizes == []) + ChunkWire(d))
  {
    hide Head, ChunkLines, ChunkWire, ChunksWire;
    ChunksSnoc(sizes, d);
    NoChunks();
  }

  lemma UnfinishedEnd(sizes: seq<nat>)
    ensures Unfinished([]) == ""
    ensures ChunksOf(sizes).Wire() == Unfinished(sizes) + (HeadOnce(sizes == []) + LAST_CHUNK)
  {
    hide Head, ChunkLines, ChunksWire;
    NoChunks();
  }

  lemma NoChunks()
    ensures ChunksWire([]) == ""
  {
  }

  // ----- lengths

  lemma HeadLength(coding: string)
    ensures |Head([STATUS_LINE, DATE_LINE, SERVER_LINE, MODIFIED_LINE, coding, CONNECTION_LINE, TYPE_LINE])|
         == |Head([STATUS_LINE, DATE_LINE, SERVER_LINE, MODIFIED_LINE, "", CONNECTION_LINE, TYPE_LINE])| + |coding|
  {
    HeadLine(coding, [CONNECTION_LINE, TYPE_LINE]);
    HeadLine("", [CONNECTION_LINE, TYPE_LINE]);
    assert [coding] + [CONNECTION_LINE, TYPE_LINE] == [coding, CONNECTION_LINE, TYPE_LINE];
    assert [""] + [CONNECTION_LINE, TYPE_LINE] == ["", CONNECTION_LINE, TYPE_LINE];
    assert forall c: string :: [STATUS_LINE, DATE_LINE, SERVER_LINE, MODIFIED_LINE] + [c, CONNECTION_LINE, TYPE_LINE]
                               == [STATUS_LINE, DATE_LINE, SERVER_LINE, MODIFIED_LINE, c, CONNECTION_LINE, TYPE_LINE];
    FourLines([coding, CONNECTION_LINE, TYPE_LINE]);
    FourLines(["", CONNECTION_LINE, TYPE_LINE]);
  }

  lemma HeadLine(line: string, lines: seq<string>)
    ensures |Head([line] + lines)| == |line| + 2 + |Head(lines)|
  {
    assert ([line] + lines)[1..] == lines;
  }

  lemma FourLines(lines: seq<string>)
    ensures |Head([STATUS_LINE, DATE_LINE, SERVER_LINE, MODIFIED_LINE] + lines)|
         == |STATUS_LINE| + |DATE_LINE| + |SERVER_LINE| + |MODIFIED_LINE| + 8 + |Head(lines)|
  {
    HeadLine(MODIFIED_LINE, lines);
    HeadLine(SERVER_LINE, [MODIFIED_LINE] + lines);
    HeadLine(DATE_LINE, [SERVER_LINE] + ([MODIFIED_LINE] + lines));
    HeadLine(STATUS_LINE, [DATE_LINE] + ([SERVER_LINE] + ([MODIFIED_LINE] + lines)));
    assert [STATUS_LINE, DATE_LINE, SERVER_LINE, MODIFIED_LINE] + lines
        == [STATUS_LINE] + ([DATE_LINE] + ([SERVER_LINE] + ([MODIFIED_LINE] + lines)));
  }

  /** Ten digits and a sign hold any C int, and the largest ones need them. */
  lemma IntDigits(i: Int32)
    ensures |PrintInt(i)| <= if i < 0 then 11 else 10
    ensures i <= -1000000000 || 1000000000 <= i ==> |PrintInt(i)| >= 10
  {
    assert Pow(10, 9) == 1000000000 && Pow(10, 10) == 10000000000;
    var n: int := if i < 0 then -(i as int) else i;
    PrintLength(n, 10, 9);
    PrintLength(n, 10, 10);
  }

  /** Around the digits of its length and its n + 4 body bytes a content response has 188 bytes. */
  lemma ContentLength(n: nat)
    ensures |ContentWire(n)| == 188 + |PrintInt(Wrap32(n + 4))| + n + 4
  {
    hide Head, PrintInt;
    var digits := PrintInt(Wrap32(n + 4));
    HeadLength(LENGTH_NAME + digits);
    HeadLines();
  }

  lemma HeadLines()
    ensures |Head([STATUS_LINE, DATE_LINE, SERVER_LINE, MODIFIED_LINE, "", CONNECTION_LINE, TYPE_LINE])| == 172
  {
    FourLines(["", CONNECTION_LINE, TYPE_LINE]);
    HeadLine("", [CONNECTION_LINE, TYPE_LINE]);
    HeadLine(CONNECTION_LINE, [TYPE_LINE]);
    HeadLine(TYPE_LINE, []);
    assert [STATUS_LINE, DATE_LINE, SERVER_LINE, MODIFIED_LINE] + ["", CONNECTION_LINE, TYPE_LINE]
        == [STATUS_LINE, DATE_LINE, SERVER_LINE, MODIFIED_LINE, "", CONNECTION_LINE, TYPE_LINE];
    assert [""] + [CONNECTION_LINE, TYPE_LINE] == ["", CONNECTION_LINE, TYPE_LINE];
    assert [CONNECTION_LINE] + [TYPE_LINE] == [CONNECTION_LINE, TYPE_LINE];
    assert [TYPE_LINE] + [] == [TYPE_LINE];
  }

  /** The whole length is an int exactly for sizes up to MAX_CONTENT; past them snprintf fails. */
  lemma ContentLengthIsInt(n: nat)
    requires n <= INT_MAX
    ensures Printed(ContentWire(n)) == (if n <= MAX_CONTENT then |ContentWire(n)| else -1)
  {
    hide PrintInt, ContentWire;
    ContentLength(n);
    IntDigits(Wrap32(n + 4));
  }

  /**
   * A content response is sent whole and reads back as its body, with the Content-Length that is the
   * number of body bytes, exactly when its size is at most MAX_CONTENT; past that snprintf fails.
   */
  lemma ContentReadBack(n: nat, rest: string)
    requires n <= INT_MAX
    ensures n <= MAX_CONTENT <==>
            Printed(ContentWire(n)) == |ContentWire(n)|
            && ReadMessage(ContentWire(n) + rest) == Some((Fill(n) + "\r\n\r\n", rest))
    ensures n > MAX_CONTENT ==> Printed(ContentWire(n)) == -1
  {
    hide ReadMessage, ContentWire;
    ContentLengthIsInt(n);
    ContentTextReadBack(n, rest);
    ContentBodyIs(n);
  }

  /** The body of a content response: as many bytes 'F' as its size, then two line ends. */
  lemma ContentBodyIs(n: nat)
    ensures ContentOf(n).Body() == Fill(n) + "\r\n\r\n"
  {
  }

  /** The header sections, line by line as they are read, and the end of a chunked response. */
  lemma HeadersAre(n: nat, sizes: seq<nat>, rest: string)
    ensures var r := ReadHead(ChunksOf(sizes).Wire() + rest);
            r.Some? && r.value.0 == [
              "HTTP/1.1 200 OK", "Date: Tue, 13 Nov 2012 13:21:30 GMT", "Server: Http Mock",
              "Last-Modified: Tue, 12 Jan 2010 13:48:00 GMT", "Transfer-Encoding: chunked",
              "Connection: Keep-Alive", "Content-Type: text/html"]
    ensures var r := ReadHead(ContentOf(n).Wire() + rest);
            r.Some? && r.value.0 == [
              "HTTP/1.1 200 OK", "Date: Tue, 13 Nov 2012 13:21:30 GMT", "Server: Http Mock",
              "Last-Modified: Tue, 12 Jan 2010 13:48:00 GMT", "Content-Length: " + PrintInt(Wrap32(n + 4)),
              "Connection: Keep-Alive", "Content-Type: text/html"]
    ensures var wire := ChunksOf(sizes).Wire(); |wire| >= 5 && wire[|wire| - 5..] == "0\r\n\r\n"
  {
    hide Head, ReadHead, ChunksWire, PrintInt;
    CodingIsLine();
    AllAreLines(CODING_LINE);
    var tail := ChunksWire(sizes) + LAST_CHUNK + rest;
    ReadHeadOf(ChunkLines(), tail);
    assert ChunksOf(sizes).Wire() + rest == Head(ChunkLines()) + tail;
    LengthIsLine(Wrap32(n + 4));
    AllAreLines(LENGTH_NAME + PrintInt(Wrap32(n + 4)));
    var body := ContentBuffer(n) + CRLF + rest;
    ReadHeadOf(ContentLines(n), body);
    assert ContentOf(n).Wire() + rest == Head(ContentLines(n)) + body;
  }

  /** The size line of a chunk is in lower case and has no leading zero. */
  lemma SizeLineIsLowerCase(d: nat)
    ensures SplitLine(ChunkWire(d)).Some?
    ensures var (line, rest) := SplitLine(ChunkWire(d)).value;
            && ReadNumber(line, 16) == Some(d)
            && (forall i :: 0 <= i < |line| ==> '0' <= line[i] <= '9' || 'a' <= line[i] <= 'f')
            && (d > 0 ==> line[0] != '0')
  {
    PrintIsPlain(d, 16);
    PrintIsLowerCase(d, 16);
    ParsePrint(d, 16);
    SplitLineOf(Print(d, 16), Fill(d) + CRLF);
    assert ChunkWire(d) == Print(d, 16) + CRLF + (Fill(d) + CRLF);
  }
}
