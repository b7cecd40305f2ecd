/** Whole responses fed to a fresh parser: a one-chunk response, the same
    response cut into fragments, a two-chunk response, and a first line that
    is not a status line. */
module Scenarios {
  import opened Results
  import opened Hex
  import opened StatusLine
  import ChunkedBody
  import opened ResponseParser

  const StatusLineA: string := "HTTP/1.1 200 OK\r\n"
  const ContentTypeLine: string := "Content-Type: text/plain\r\n"
  const TransferEncodingLine: string := "Transfer-Encoding: chunked\r\n"
  const BlankLine: string := "\r\n"
  const Head: string := StatusLineA + ContentTypeLine + TransferEncodingLine + BlankLine

  /** A response whose body is the chunk "test" and the last chunk. */
  const ResponseA: string := Head + "4\r\ntest\r\n0\r\n\r\n"

  /** The same head, with a body of the chunks "foo" and "bar". */
  const ResponseC: string := Head + "3\r\nfoo\r\n3\r\nbar\r\n0\r\n\r\n"

  const Fields: map<string, string> :=
    map["Content-Type" := "text/plain", "Transfer-Encoding" := "chunked"]

  function AfterStatus(): Parser {
    Parser(WaitingHeadersName, "HTTP/1.1 200 OK", map[], "", "", None)
  }

  function AfterContentType(): Parser {
    Parser(WaitingHeadersName, "HTTP/1.1 200 OK", map["Content-Type" := "text/plain"], "", "", None)
  }

  function AfterFields(): Parser {
    Parser(WaitingHeadersName, "HTTP/1.1 200 OK", Fields, "", "", None)
  }

  /** The parser once the head is read: the carriage return of the empty
      line is left in the name accumulator. */
  function AtBody(): Parser {
    Parser(WaitingBody, "HTTP/1.1 200 OK", Fields, "\r", "", None)
  }

  function DoneWith(content: string): Parser {
    AtBody().(bodyParser := Some(ChunkedBody.Decoder(ChunkedBody.WaitingNewLineEnd, 0, content, true)))
  }

  lemma Chain(p: Parser, a: string, q: Parser, b: string, r: Result<Parser, ParseError>)
    requires Receive(p, a) == Success(q) && Receive(q, b) == r
    ensures Receive(p, a + b) == r
  {
    ReceiveConcat(p, a, b);
  }

  // Each line is spelled as a concatenation of short pieces, so that the
  // solver never has to take a long literal apart.
  lemma HeadLines()
    ensures Receive(Initial(), "HTTP/1.1 200 OK" + "\r\n") == Success(AfterStatus())
    ensures Receive(AfterStatus(), "Content-Type" + ": " + "text/plain" + "\r\n") == Success(AfterContentType())
    ensures Receive(AfterContentType(), "Transfer-Encoding" + ": " + "chunked" + "\r\n") == Success(AfterFields())
    ensures Receive(AfterFields(), "\r\n") == Success(AtBody())
  {
    StatusLineComplete("HTTP/1.1 200 OK");
    HeaderLineRoundTrip(AfterStatus(), "Content-Type", "text/plain");
    HeaderLineRoundTrip(AfterContentType(), "Transfer-Encoding", "chunked");
    HeaderBlockEnd(AfterFields());
    assert "" + "\r" == "\r";
  }

  // The lines arrive as parameters pinned by `requires`, so that the solver
  // never has to take the whole head literal apart.
  lemma ReceiveHeadFrom(a: string, b: string, c: string, d: string)
    requires a == "HTTP/1.1 200 OK" + "\r\n"
    requires b == "Content-Type" + ": " + "text/plain" + "\r\n"
    requires c == "Transfer-Encoding" + ": " + "chunked" + "\r\n"
    requires d == "\r\n"
    ensures Receive(Initial(), a + b + c + d) == Success(AtBody())
  {
    HeadLines();
    Chain(Initial(), a, AfterStatus(), b, Success(AfterContentType()));
    Chain(Initial(), a + b, AfterContentType(), c, Success(AfterFields()));
    Chain(Initial(), a + b + c, AfterFields(), d, Success(AtBody()));
  }

  /** The head of both responses: status line, two field lines, empty line. */
  lemma ReceiveHead()
    ensures Receive(Initial(), Head) == Success(AtBody())
  {
    assert StatusLineA == "HTTP/1.1 200 OK" + "\r\n";
    assert ContentTypeLine == "Content-Type" + ": " + "text/plain" + "\r\n";
    assert TransferEncodingLine == "Transfer-Encoding" + ": " + "chunked" + "\r\n";
    ReceiveHeadFrom(StatusLineA, ContentTypeLine, TransferEncodingLine, BlankLine);
  }

  /** After the head, the body of ResponseA decodes to "test" and finishes. */
  lemma ReceiveBodyA(e: string)
    requires e == "4\r\ntest\r\n0\r\n\r\n"
    ensures Receive(AtBody(), e) == Success(DoneWith("test"))
  {
    assert e == "4" + "\r\n" + "test" + "\r\n" + "0\r\n\r\n";
    assert AllHex("4") && HexValue("4") == |"test"|;
    BodyStart(AtBody(), e);
    ChunkedBody.SingleChunkBody("4", "test");
  }

  lemma SizesC()
    ensures AllHex("3") && HexValue("3") == |"foo"|
    ensures IsHexDigit('3') && DigitValue('3') == |"bar"|
  {
  }

  /** After the head, the body of ResponseC keeps only "foo". */
  lemma ReceiveBodyC(e: string)
    requires e == "3\r\nfoo\r\n3\r\nbar\r\n0\r\n\r\n"
    ensures Receive(AtBody(), e) == Success(DoneWith("foo"))
  {
    var body := "3" + "\r\n" + "foo" + "\r\n" + ['3'] + "\r\n" + "bar" + "\r\n" + "0\r\n\r\n";
    assert e == body;
    SizesC();
    ChunkedBody.TwoChunksKeepOnlyFirst("3", "foo", '3', "bar");
    BodyStart(AtBody(), body);
  }

  /** As written, a second size spelled with a leading zero loses only that
      zero: the body of chunks "foo" and "bar", the second size written "03",
      decodes to "foobar". */
  lemma LeadingZeroBody(e: string)
    requires e == "3" + "\r\n" + "foo" + "\r\n" + ['0'] + "3" + "\r\n" + "bar" + "\r\n" + "0\r\n\r\n"
    ensures ChunkedBody.Receive(ChunkedBody.Initial(), e)
      == Success(ChunkedBody.Decoder(ChunkedBody.WaitingNewLineEnd, 0, "foobar", true))
  {
    var first := "3" + "\r\n" + "foo" + "\r\n";
    var second := ['0'] + "3" + "\r\n" + "bar" + "\r\n";
    assert e == first + second + "0\r\n\r\n";
    SizesC();
    ChunkedBody.FirstChunk("3", "foo");
    ChunkedBody.LaterChunk("foo", false, '0', "3", "bar");
    ChunkedBody.ReceiveConcat(ChunkedBody.Initial(), first, second);
    assert "foo" + "bar" == "foobar";
    ChunkedBody.ReceiveConcat(ChunkedBody.Initial(), first + second, "0\r\n\r\n");
    ChunkedBody.LastChunk("foobar", false);
  }

  /** As written, a line feed inside skipped chunk data ends the skip: the
      second chunk (size "b", data "a\nx5\r\nhello") is not lost whole,
      because after "a\n" the swallowing state eats 'x' and "5\r\nhello"
      is read as a chunk of its own. The body decodes to "foohello". */
  lemma LineFeedInSkippedData(e: string)
    requires e == "3" + "\r\n" + "foo" + "\r\n" + "b\r\na\n" + ['x'] + "5" + "\r\n" + "hello" + "\r\n" + "0\r\n\r\n"
    ensures ChunkedBody.Receive(ChunkedBody.Initial(), e)
      == Success(ChunkedBody.Decoder(ChunkedBody.WaitingNewLineEnd, 0, "foohello", true))
  {
    var first := "3" + "\r\n" + "foo" + "\r\n";
    var skipped := "b\r\na\n";
    var third := ['x'] + "5" + "\r\n" + "hello" + "\r\n";
    assert e == first + skipped + third + "0\r\n\r\n";
    assert AllHex("3") && HexValue("3") == |"foo"|;
    assert AllHex("5") && HexValue("5") == |"hello"|;
    ChunkedBody.FirstChunk("3", "foo");
    ChunkedBody.ReceiveConcat(ChunkedBody.Initial(), first, skipped);
    assert ChunkedBody.Receive(ChunkedBody.Decoder(ChunkedBody.WaitingNewLineEnd, 0, "foo", false), skipped)
      == Success(ChunkedBody.Decoder(ChunkedBody.WaitingNewLineEnd, 0, "foo", true));
    ChunkedBody.LaterChunk("foo", true, 'x', "5", "hello");
    ChunkedBody.ReceiveConcat(ChunkedBody.Initial(), first + skipped, third);
    assert "foo" + "hello" == "foohello";
    ChunkedBody.ReceiveConcat(ChunkedBody.Initial(), first + skipped + third, "0\r\n\r\n");
    ChunkedBody.LastChunk("foohello", true);
  }

  lemma SplitOk()
    ensures SplitStatusLine("HTTP/1.1 200 OK") == Some(("200", "OK"))
  {
    assert "HTTP/1.1 200 OK" == Version + "200" + " " + "OK";
    SplitStatusLineRoundTrip("200", "OK");
  }

  /** The one-chunk response, received in one piece: the parser finishes
      and the response is code "200", reason "OK", both fields, body "test". */
  lemma OneChunkResponse()
    ensures Receive(Initial(), ResponseA) == Success(DoneWith("test"))
    ensures Finished(DoneWith("test"))
    ensures GetResponse(DoneWith("test")) == Success(Response("200", "OK", Fields, "test"))
  {
    ReceiveHead();
    ReceiveBodyA("4\r\ntest\r\n0\r\n\r\n");
    Chain(Initial(), Head, AtBody(), "4\r\ntest\r\n0\r\n\r\n", Success(DoneWith("test")));
    SplitOk();
  }

  /** The same response delivered one character per `receive` call, or cut
      in any other way, ends in the same parser and so the same response. */
  lemma OneChunkResponseAnyFragments(fragments: seq<string>)
    requires Concat(fragments) == ResponseA
    ensures ReceiveFragments(Initial(), Singletons(ResponseA)) == Success(DoneWith("test"))
    ensures ReceiveFragments(Initial(), fragments) == Success(DoneWith("test"))
  {
    OneChunkResponse();
    ConcatSingletons(ResponseA);
    ReceiveFragmentsIsConcat(Initial(), Singletons(ResponseA));
    ReceiveFragmentsIsConcat(Initial(), fragments);
  }

  /** As written, the body of chunks "foo" and "bar" decodes to "foo" alone:
      the second chunk is lost, though the parser still reports finished. */
  lemma TwoChunkResponse()
    ensures Receive(Initial(), ResponseC) == Success(DoneWith("foo"))
    ensures GetResponse(DoneWith("foo")) == Success(Response("200", "OK", Fields, "foo"))
  {
    ReceiveHead();
    ReceiveBodyC("3\r\nfoo\r\n3\r\nbar\r\n0\r\n\r\n");
    Chain(Initial(), Head, AtBody(), "3\r\nfoo\r\n3\r\nbar\r\n0\r\n\r\n", Success(DoneWith("foo")));
    SplitOk();
  }

  lemma ReceiveGarbage(a: string, b: string)
    requires a == "GARBAGE" + "\r\n" && b == "\r\n"
    ensures Receive(Initial(), a + b) == Success(Parser(WaitingBody, "GARBAGE", map[], "\r", "", None))
  {
    StatusLineComplete("GARBAGE");
    var p1 := Initial().(state := WaitingHeadersName, statusLine := "GARBAGE");
    HeaderBlockEnd(p1);
    assert p1.headerName + "\r" == "\r";
    ReceiveConcat(Initial(), a, b);
  }

  /** A first line that is not a status line, then an empty line: the parser
      reaches the body state with no header fields and no body parser, so it
      never finishes; the line does not split, and the response cannot be
      assembled. */
  lemma GarbageFirstLineNoBody()
    ensures Receive(Initial(), "GARBAGE\r\n\r\n") == Success(Parser(WaitingBody, "GARBAGE", map[], "\r", "", None))
    ensures !Finished(Parser(WaitingBody, "GARBAGE", map[], "\r", "", None))
    ensures forall t :: t != [] ==>
      Receive(Parser(WaitingBody, "GARBAGE", map[], "\r", "", None), t) == Failure(BodyParserMissing)
    ensures SplitStatusLine("GARBAGE") == None
    ensures GetResponse(Parser(WaitingBody, "GARBAGE", map[], "\r", "", None)) == Failure(BodyParserMissing)
  {
    ReceiveGarbage("GARBAGE" + "\r\n", "\r\n");
    assert "GARBAGE" + "\r\n" + "\r\n" == "GARBAGE\r\n\r\n";
    forall t | t != []
      ensures Receive(Parser(WaitingBody, "GARBAGE", map[], "\r", "", None), t) == Failure(BodyParserMissing)
    {
      BodyStart(Parser(WaitingBody, "GARBAGE", map[], "\r", "", None), t);
    }
  }

  /** A first line that is not a status line, a chunked declaration and the
      last chunk. */
  const GarbageChunked: string := "GARBAGE\r\n" + TransferEncodingLine + BlankLine + "0\r\n\r\n"

  function GarbageAtBody(): Parser {
    Parser(WaitingBody, "GARBAGE", map["Transfer-Encoding" := "chunked"], "\r", "", None)
  }

  function GarbageDone(): Parser {
    GarbageAtBody().(bodyParser := Some(ChunkedBody.Decoder(ChunkedBody.WaitingNewLineEnd, 0, [], true)))
  }

  function GarbageAfterStatus(): Parser {
    Parser(WaitingHeadersName, "GARBAGE", map[], "", "", None)
  }

  function GarbageAfterField(): Parser {
    Parser(WaitingHeadersName, "GARBAGE", map["Transfer-Encoding" := "chunked"], "", "", None)
  }

  // Each line is spelled as a concatenation of short pieces, so that the
  // solver never has to take a long literal apart.
  lemma GarbageLines()
    ensures Receive(Initial(), "GARBAGE" + "\r\n") == Success(GarbageAfterStatus())
    ensures Receive(GarbageAfterStatus(), "Transfer-Encoding" + ": " + "chunked" + "\r\n")
      == Success(GarbageAfterField())
    ensures Receive(GarbageAfterField(), "\r\n") == Success(GarbageAtBody())
  {
    StatusLineComplete("GARBAGE");
    HeaderLineRoundTrip(GarbageAfterStatus(), "Transfer-Encoding", "chunked");
    HeaderBlockEnd(GarbageAfterField());
    assert "" + "\r" == "\r";
  }

  /** The last chunk alone, read by the decoder the body state creates. */
  lemma GarbageBody(e: string)
    requires e == "0\r\n\r\n"
    ensures Receive(GarbageAtBody(), e) == Success(GarbageDone())
  {
    var d0 := ChunkedBody.Initial();
    var d1 := d0.(state := ChunkedBody.WaitingLengthEnd);
    ChunkedBody.ChunkSizeLine(d0, "0");
    ChunkedBody.ReceiveConcat(d0, "0" + "\r", "\n\r\n");
    assert "0" + "\r" + "\n\r\n" == e;
    assert ChunkedBody.Receive(d1, "\n\r\n")
      == Success(ChunkedBody.Decoder(ChunkedBody.WaitingNewLineEnd, 0, [], true));
    BodyStart(GarbageAtBody(), e);
  }

  // The lines arrive as parameters pinned by `requires`, so that the solver
  // never has to take the whole input literal apart.
  lemma ReceiveGarbageChunked(a: string, b: string, c: string, e: string)
    requires a == "GARBAGE" + "\r\n"
    requires b == "Transfer-Encoding" + ": " + "chunked" + "\r\n"
    requires c == "\r\n" && e == "0\r\n\r\n"
    ensures Receive(Initial(), a + b + c + e) == Success(GarbageDone())
  {
    GarbageLines();
    GarbageBody(e);
    Chain(Initial(), a, GarbageAfterStatus(), b, Success(GarbageAfterField()));
    Chain(Initial(), a + b, GarbageAfterField(), c, Success(GarbageAtBody()));
    Chain(Initial(), a + b + c, GarbageAtBody(), e, Success(GarbageDone()));
  }

  /** A first line that is not a status line is never rejected by `receive`:
      with chunked coding declared, the body decodes and the parser reports
      finished. Only the `response` getter fails, because the line does not
      split. */
  lemma GarbageFirstLineChunked()
    ensures Receive(Initial(), GarbageChunked) == Success(GarbageDone())
    ensures Finished(GarbageDone())
    ensures GetResponse(GarbageDone()) == Failure(StatusLineMismatch)
  {
    assert "GARBAGE\r\n" == "GARBAGE" + "\r\n";
    assert TransferEncodingLine == "Transfer-Encoding" + ": " + "chunked" + "\r\n";
    ReceiveGarbageChunked("GARBAGE\r\n", TransferEncodingLine, BlankLine, "0\r\n\r\n");
    GarbageFirstLineNoBody();
  }
}
