/** The HTTP/1.1 response parser (`ResponseParse`): an eight-state machine
    fed one character at a time that accumulates the status line and the
    header fields and, once the header block has ended, hands every further
    character to a chunked-body decoder it creates on demand. */
module ResponseParser {
  import opened Results
  import opened StatusLine
  import ChunkedBody

  datatype State =
    | WaitingStatusLine
    | WaitingStatusLineEnd
    | WaitingHeadersName
    | WaitingHeadersSpace
    | WaitingHeadersValue
    | WaitingHeadersLineEnd
    | WaitingHeadersBlockEnd
    | WaitingBody

  /** The parser record. `header` is a JavaScript object in the source, so a
      later field with the same name overwrites an earlier one. */
  datatype Parser = Parser(
    state: State,
    statusLine: string,
    header: map<string, string>,
    headerName: string,
    headerValue: string,
    bodyParser: Option<ChunkedBody.Decoder>)

  /** Why the parser cannot go on. In the source the first is a property
      read on a null body parser, and the second leaves the size NaN. */
  datatype ParseError =
    | BodyParserMissing
    | ChunkSizeNotHex(c: char)
    | StatusLineMismatch

  /** The assembled response; the code and reason are the regex captures,
      kept as text as in the source. */
  datatype Response = Response(
    statusCode: string,
    statusText: string,
    header: map<string, string>,
    body: string)

  /** The parser as its constructor leaves it. */
  function Initial(): (p: Parser)
    ensures p.state == WaitingStatusLine && p.statusLine == ""
    ensures p.header == map[] && p.headerName == "" && p.headerValue == ""
    ensures Wf(p) && !Finished(p)
  {
    Parser(WaitingStatusLine, "", map[], "", "", None)
  }

  /** The header field that selects the chunked body decoder. A missing field
      reads as `undefined` in the source, which is not "chunked". */
  predicate ChunkedDeclared(header: map<string, string>)
    ensures "Transfer-Encoding" !in header ==> !ChunkedDeclared(header)
  {
    "Transfer-Encoding" in header && header["Transfer-Encoding"] == "chunked"
  }

  /** Committing a field decides the declaration only when the field is
      `Transfer-Encoding`, and then its latest value decides it; any other
      field leaves the declaration as it was. */
  lemma ChunkedDeclaredAfterCommit(header: map<string, string>, name: string, value: string)
    ensures ChunkedDeclared(header[name := value]) <==>
      if name == "Transfer-Encoding" then value == "chunked" else ChunkedDeclared(header)
  {
  }

  /** The `finished` getter: false until a body parser exists, then the body
      parser's own flag. */
  predicate Finished(p: Parser)
    ensures Finished(p) ==> p.bodyParser.Some?
    ensures p.bodyParser.Some? ==> (Finished(p) <==> p.bodyParser.value.finished)
  {
    p.bodyParser.Some? && p.bodyParser.value.finished
  }

  /** Invariants of every reachable parser: a body parser exists only in the
      body state and only for a chunked response; nothing of a header has
      been collected while the status line is read; the value accumulator is
      empty outside `WaitingHeadersValue`; and both accumulators are empty
      right after a field is committed. */
  predicate Wf(p: Parser) {
    && (p.bodyParser.Some? ==>
          p.state == WaitingBody && ChunkedDeclared(p.header) && ChunkedBody.Wf(p.bodyParser.value))
    && (p.state == WaitingStatusLine || p.state == WaitingStatusLineEnd ==>
          p.header == map[] && p.headerName == "")
    && (p.state != WaitingHeadersValue ==> p.headerValue == "")
    && (p.state == WaitingHeadersLineEnd ==> p.headerName == "")
  }

  /** Hands a body decoder's outcome back to the parser. */
  function LiftBody(p: Parser, r: Result<ChunkedBody.Decoder, ChunkedBody.ChunkError>): Result<Parser, ParseError> {
    match r
    case Success(d) => Success(p.(bodyParser := Some(d)))
    case Failure(e) => Failure(ChunkSizeNotHex(e.c))
  }

  /** One character of the response (`receiveChar`). Failure is only
      possible once the header block has ended; the invariant is kept; the
      status line is frozen once its carriage return has been read; a body
      parser, once created, stays, is only ever created in the body state
      of a response declaring chunked coding, and `finished` never drops. */
  function ReceiveChar(p: Parser, c: char): (r: Result<Parser, ParseError>)
    ensures r.Failure? ==> p.state == WaitingBody
    ensures r.Success? && Wf(p) ==> Wf(r.value)
    ensures r.Success? && p.state != WaitingStatusLine ==>
      r.value.statusLine == p.statusLine && r.value.state != WaitingStatusLine
    ensures r.Success? && p.bodyParser.Some? ==> r.value.bodyParser.Some?
    ensures r.Success? && p.bodyParser.None? && r.value.bodyParser.Some? ==>
      p.state == WaitingBody && ChunkedDeclared(p.header)
    ensures r.Success? && Finished(p) ==> Finished(r.value)
  {
    match p.state
    case WaitingStatusLine =>
      Success(if c == '\r' then p.(state := WaitingStatusLineEnd) else p.(statusLine := p.statusLine + [c]))
    case WaitingStatusLineEnd =>
      Success(if c == '\n' then p.(state := WaitingHeadersName) else p)
    case WaitingHeadersName =>
      // a carriage return ends the block but still falls through to the append
      var p' := if c == '\r' then p.(state := WaitingHeadersBlockEnd) else p;
      Success(if c == ':' then p'.(state := WaitingHeadersSpace) else p'.(headerName := p'.headerName + [c]))
    case WaitingHeadersSpace =>
      Success(if c == ' ' then p.(state := WaitingHeadersValue) else p)
    case WaitingHeadersValue =>
      if c == '\r' then
        Success(p.(state := WaitingHeadersLineEnd,
                   header := p.header[p.headerName := p.headerValue],
                   headerName := "",
                   headerValue := ""))
      else Success(p.(headerValue := p.headerValue + [c]))
    case WaitingHeadersLineEnd =>
      Success(if c == '\n' then p.(state := WaitingHeadersName) else p)
    case WaitingHeadersBlockEnd =>
      Success(if c == '\n' then p.(state := WaitingBody) else p)
    case WaitingBody =>
      var bodyParser :=
        if p.bodyParser.None? && ChunkedDeclared(p.header) then Some(ChunkedBody.Initial()) else p.bodyParser;
      match bodyParser
      case None => Failure(BodyParserMissing)
      case Some(d) => LiftBody(p, ChunkedBody.ReceiveChar(d, c))
  }

  /** A fragment fed in order (`receive`); the first failure ends the feed.
      The one-step guarantees carry over to whole fragments. */
  function Receive(p: Parser, s: string): (r: Result<Parser, ParseError>)
    ensures r.Success? && Wf(p) ==> Wf(r.value)
    ensures r.Success? && p.state != WaitingStatusLine ==>
      r.value.statusLine == p.statusLine && r.value.state != WaitingStatusLine
    ensures r.Success? && p.bodyParser.Some? ==> r.value.bodyParser.Some?
    ensures r.Success? && Finished(p) ==> Finished(r.value)
    decreases |s|
  {
    if s == [] then Success(p)
    else
      match ReceiveChar(p, s[0])
      case Failure(e) => Failure(e)
      case Success(p') => Receive(p', s[1..])
  }

  /** Feeds more input to a parser that has not failed. */
  function Continue(r: Result<Parser, ParseError>, s: string): Result<Parser, ParseError> {
    match r
    case Success(p) => Receive(p, s)
    case Failure(e) => Failure(e)
  }

  /** Several `receive` calls in a row, one per arriving fragment. */
  function ReceiveFragments(p: Parser, fragments: seq<string>): Result<Parser, ParseError>
    decreases |fragments|
  {
    if fragments == [] then Success(p)
    else Continue(ReceiveFragments(p, fragments[..|fragments| - 1]), fragments[|fragments| - 1])
  }

  /** The fragments joined into one string. */
  function Concat(fragments: seq<string>): string
    decreases |fragments|
  {
    if fragments == [] then "" else Concat(fragments[..|fragments| - 1]) + fragments[|fragments| - 1]
  }

  /** The response as the `response` getter assembles it. */
  function GetResponse(p: Parser): (r: Result<Response, ParseError>)
    ensures r.Success? <==> p.bodyParser.Some? && SplitStatusLine(p.statusLine).Some?
    ensures r.Failure? && p.bodyParser.None? ==> r.error == BodyParserMissing
    ensures r.Success? ==>
      && p.statusLine == Version + r.value.statusCode + " " + r.value.statusText
      && |r.value.statusCode| > 0 && AllDigits(r.value.statusCode)
      && r.value.header == p.header
      && r.value.body == p.bodyParser.value.content
  {
    if p.bodyParser.None? then Failure(BodyParserMissing)
    else
      match SplitStatusLine(p.statusLine)
      case None => Failure(StatusLineMismatch)
      case Some((code, text)) => Success(Response(code, text, p.header, p.bodyParser.value.content))
  }

  /** Fragmentation invariance: feeding a + b is feeding a, then b. */
  lemma {:induction false} ReceiveConcat(p: Parser, a: string, b: string)
    ensures Receive(p, a + b) == Continue(Receive(p, a), b)
    decreases |a|
  {
    if a == [] {
      assert a + b == b;
    } else {
      assert (a + b)[0] == a[0];
      assert (a + b)[1..] == a[1..] + b;
      match ReceiveChar(p, a[0])
      case Failure(_) =>
      case Success(p') => ReceiveConcat(p', a[1..], b);
    }
  }

  /** However the input is cut into fragments, the parser ends as if it had
      received all of it in one piece. */
  lemma {:induction false} ReceiveFragmentsIsConcat(p: Parser, fragments: seq<string>)
    ensures ReceiveFragments(p, fragments) == Receive(p, Concat(fragments))
    decreases |fragments|
  {
    if fragments != [] {
      var front := fragments[..|fragments| - 1];
      ReceiveFragmentsIsConcat(p, front);
      ReceiveConcat(p, Concat(front), fragments[|fragments| - 1]);
    }
  }

  /** A string cut into one-character fragments. */
  function Singletons(s: string): (fragments: seq<string>)
    ensures |fragments| == |s|
    ensures forall i :: 0 <= i < |s| ==> fragments[i] == [s[i]]
  {
    seq(|s|, i requires 0 <= i < |s| => [s[i]])
  }

  lemma {:induction false} ConcatSingletons(s: string)
    ensures Concat(Singletons(s)) == s
    decreases |s|
  {
    if s != [] {
      var front := s[..|s| - 1];
      assert Singletons(s)[..|s| - 1] == Singletons(front);
      ConcatSingletons(front);
      assert front + [s[|s| - 1]] == s;
    }
  }

  /** Feeding one character is one step. */
  lemma ReceiveOne(p: Parser, c: char)
    ensures Receive(p, [c]) == ReceiveChar(p, c)
  {
  }

  /** Before the first carriage return every character is appended to the
      status line, in order, and nothing else changes. */
  lemma {:induction false} StatusLineAccumulates(p: Parser, s: string)
    requires p.state == WaitingStatusLine
    requires forall i :: 0 <= i < |s| ==> s[i] != '\r'
    ensures Receive(p, s) == Success(p.(statusLine := p.statusLine + s))
    decreases |s|
  {
    if s == [] {
      assert p.statusLine + s == p.statusLine;
    } else {
      var p1 := p.(statusLine := p.statusLine + [s[0]]);
      StatusLineAccumulates(p1, s[1..]);
      assert p1.statusLine + s[1..] == p.statusLine + s;
    }
  }

  /** A status line and its CRLF, from the start, leave the parser at the
      start of the first header line holding exactly that line. */
  lemma StatusLineComplete(s: string)
    requires forall i :: 0 <= i < |s| ==> s[i] != '\r'
    ensures Receive(Initial(), s + "\r\n")
      == Success(Initial().(state := WaitingHeadersName, statusLine := s))
  {
    StatusLineAccumulates(Initial(), s);
    assert "" + s == s;
    var p1 := Initial().(statusLine := s);
    ReceiveConcat(p1, "\r", "\n");
    ReceiveOne(p1, '\r');
    ReceiveOne(p1.(state := WaitingStatusLineEnd), '\n');
    assert "\r" + "\n" == "\r\n";
    ReceiveConcat(Initial(), s, "\r\n");
  }

  /** The status line is exactly the text before the first carriage return:
      nothing read after it, in any state, is ever added. */
  lemma StatusLineIsFirstLine(s: string, t: string)
    requires forall i :: 0 <= i < |s| ==> s[i] != '\r'
    ensures Receive(Initial(), s + "\r" + t).Success? ==>
      Receive(Initial(), s + "\r" + t).value.statusLine == s
  {
    StatusLineAccumulates(Initial(), s);
    ReceiveConcat(Initial(), s, "\r");
    var p1 := Initial().(statusLine := s);
    ReceiveOne(p1, '\r');
    ReceiveConcat(Initial(), s + "\r", t);
  }

  /** The character a tolerant state waits for, and the state it moves to. */
  function Awaited(st: State): char {
    if st == WaitingHeadersSpace then ' ' else '\n'
  }

  function AfterAwaited(st: State): State {
    match st
    case WaitingStatusLineEnd => WaitingHeadersName
    case WaitingHeadersSpace => WaitingHeadersValue
    case WaitingHeadersLineEnd => WaitingHeadersName
    case _ => WaitingBody
  }

  /** The tolerant states (after the status line, after a colon, after a
      field line, after the header block's carriage return) change only the
      state, and only on the character they wait for; any other character
      leaves the parser exactly as it was. */
  lemma TolerantStates(p: Parser, c: char)
    requires p.state in {WaitingStatusLineEnd, WaitingHeadersSpace, WaitingHeadersLineEnd, WaitingHeadersBlockEnd}
    ensures c == Awaited(p.state) ==> ReceiveChar(p, c) == Success(p.(state := AfterAwaited(p.state)))
    ensures c != Awaited(p.state) ==> ReceiveChar(p, c) == Success(p)
  {
  }

  /** In `WaitingHeadersValue` a carriage return commits the field: the
      collected name maps to the collected value, every other entry keeps
      its value, both accumulators are cleared. Any other character is
      appended to the value. */
  lemma HeaderCommit(p: Parser, c: char)
    requires p.state == WaitingHeadersValue
    ensures c == '\r' ==>
      && ReceiveChar(p, c).Success?
      && var q := ReceiveChar(p, c).value;
      && q.state == WaitingHeadersLineEnd
      && p.headerName in q.header && q.header[p.headerName] == p.headerValue
      && q.header.Keys == p.header.Keys + {p.headerName}
      && (forall k :: k in p.header && k != p.headerName ==> q.header[k] == p.header[k])
      && q.headerName == "" && q.headerValue == ""
      && q.statusLine == p.statusLine && q.bodyParser == p.bodyParser
    ensures c != '\r' ==> ReceiveChar(p, c) == Success(p.(headerValue := p.headerValue + [c]))
  {
  }

  /** In `WaitingHeadersName` every character other than a colon or a
      carriage return is appended to the name. */
  lemma {:induction false} ReceiveHeaderName(p: Parser, s: string)
    requires p.state == WaitingHeadersName
    requires forall i :: 0 <= i < |s| ==> s[i] != ':' && s[i] != '\r'
    ensures Receive(p, s) == Success(p.(headerName := p.headerName + s))
    decreases |s|
  {
    if s == [] {
      assert p.headerName + s == p.headerName;
    } else {
      var p1 := p.(headerName := p.headerName + [s[0]]);
      ReceiveHeaderName(p1, s[1..]);
      assert p1.headerName + s[1..] == p.headerName + s;
    }
  }

  /** In `WaitingHeadersValue` every character other than a carriage return
      is appended to the value. */
  lemma {:induction false} ReceiveHeaderValue(p: Parser, s: string)
    requires p.state == WaitingHeadersValue
    requires forall i :: 0 <= i < |s| ==> s[i] != '\r'
    ensures Receive(p, s) == Success(p.(headerValue := p.headerValue + s))
    decreases |s|
  {
    if s == [] {
      assert p.headerValue + s == p.headerValue;
    } else {
      var p1 := p.(headerValue := p.headerValue + [s[0]]);
      ReceiveHeaderValue(p1, s[1..]);
      assert p1.headerValue + s[1..] == p.headerValue + s;
    }
  }

  /** The colon and the single space after a field name. */
  lemma ColonSpace(p: Parser)
    requires p.state == WaitingHeadersName
    ensures Receive(p, ": ") == Success(p.(state := WaitingHeadersValue))
  {
  }

  /** The CRLF that ends a field line commits the field. */
  lemma FieldLineEnd(p: Parser)
    requires p.state == WaitingHeadersValue
    ensures Receive(p, "\r\n") == Success(p.(state := WaitingHeadersName,
      header := p.header[p.headerName := p.headerValue], headerName := "", headerValue := ""))
  {
  }

  /** A field line `name: value` CRLF, read at the start of a line with
      nothing collected, adds the entry name -> value (overwriting an earlier
      one of the same name), without the separating space, and returns to
      the start of the next line with everything else as it was. */
  lemma HeaderLineRoundTrip(p: Parser, name: string, value: string)
    requires p.state == WaitingHeadersName && p.headerName == "" && p.headerValue == ""
    requires forall i :: 0 <= i < |name| ==> name[i] != ':' && name[i] != '\r'
    requires forall i :: 0 <= i < |value| ==> value[i] != '\r'
    ensures Receive(p, name + ": " + value + "\r\n") == Success(p.(header := p.header[name := value]))
  {
    ReceiveHeaderName(p, name);
    assert p.headerName + name == name;
    var p1 := p.(headerName := name);
    ColonSpace(p1);
    ReceiveConcat(p, name, ": ");
    var p2 := p1.(state := WaitingHeadersValue);
    ReceiveHeaderValue(p2, value);
    assert p2.headerValue + value == value;
    ReceiveConcat(p, name + ": ", value);
    var p3 := p2.(headerValue := value);
    FieldLineEnd(p3);
    ReceiveConcat(p, name + ": " + value, "\r\n");
  }

  /** The empty line that closes the header block moves to the body state.
      As written, its carriage return is also appended to the name
      accumulator, where it stays. */
  lemma HeaderBlockEnd(p: Parser)
    requires p.state == WaitingHeadersName
    ensures Receive(p, "\r\n") == Success(p.(state := WaitingBody, headerName := p.headerName + "\r"))
  {
  }

  /** Once a body parser exists, the response parser only forwards: the
      outcome is the body decoder's outcome on the same characters, and the
      status line, header fields and accumulators never change again. */
  lemma {:induction false} BodyForwarding(p: Parser, t: string)
    requires p.state == WaitingBody && p.bodyParser.Some?
    ensures Receive(p, t) == LiftBody(p, ChunkedBody.Receive(p.bodyParser.value, t))
    decreases |t|
  {
    if t != [] {
      var d := p.bodyParser.value;
      match ChunkedBody.ReceiveChar(d, t[0])
      case Failure(_) =>
      case Success(d') =>
        BodyForwarding(p.(bodyParser := Some(d')), t[1..]);
    }
  }

  /** The first body character creates the decoder when, and only when, the
      committed header fields declare chunked coding; without that
      declaration the parser fails on it. */
  lemma BodyStart(p: Parser, t: string)
    requires p.state == WaitingBody && p.bodyParser.None? && t != []
    ensures ChunkedDeclared(p.header) ==>
      Receive(p, t) == LiftBody(p, ChunkedBody.Receive(ChunkedBody.Initial(), t))
    ensures !ChunkedDeclared(p.header) ==> Receive(p, t) == Failure(BodyParserMissing)
  {
    if ChunkedDeclared(p.header) {
      var p1 := p.(bodyParser := Some(ChunkedBody.Initial()));
      BodyForwarding(p1, t);
      match ChunkedBody.ReceiveChar(ChunkedBody.Initial(), t[0])
      case Failure(_) =>
      case Success(d') =>
        BodyForwarding(p.(bodyParser := Some(d')), t[1..]);
    }
  }

  /** Whatever is received from the start, the parser keeps its
      invariants, and it reports `finished` only in the body state of a
      response whose header fields declare chunked coding. */
  lemma FinishedNeedsChunkedBody(s: string)
    ensures Receive(Initial(), s).Success? ==> Wf(Receive(Initial(), s).value)
    ensures Receive(Initial(), s).Success? && Finished(Receive(Initial(), s).value) ==>
      Receive(Initial(), s).value.state == WaitingBody && ChunkedDeclared(Receive(Initial(), s).value.header)
  {
  }
}
