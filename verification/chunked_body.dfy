/** The chunked transfer-coding decoder (`TrunckedBodyParse`): a five-state
    machine fed one character at a time, with a hexadecimal size accumulator
    that is counted down while chunk data is copied to `content`. */
module ChunkedBody {
  import opened Results
  import opened Hex

  datatype State =
    | WaitingLength
    | WaitingLengthEnd
    | ReadingTrunk
    | WaitingNewLine
    | WaitingNewLineEnd

  /** `length` is both the size being read and the count of data characters
      still expected; `content` is the decoded body so far. */
  datatype Decoder = Decoder(state: State, length: nat, content: string, finished: bool)

  /** A size character `parseInt(c, 16)` cannot read (NaN in the source). */
  datatype ChunkError = NotHexDigit(c: char)

  /** The decoder as its constructor leaves it. */
  function Initial(): (d: Decoder)
    ensures d.state == WaitingLength && d.length == 0
    ensures d.content == [] && !d.finished
    ensures Wf(d)
  {
    Decoder(WaitingLength, 0, [], false)
  }

  /** Between a chunk's data and the next size line the count is spent, so
      every size line starts accumulating from zero. */
  predicate Wf(d: Decoder) {
    d.state == WaitingNewLine || d.state == WaitingNewLineEnd ==> d.length == 0
  }

  /** One character of the body. Only a size character that is neither a hex
      digit nor a carriage return fails; `finished` is raised by any character
      read after a zero size; only data characters are kept. */
  function ReceiveChar(d: Decoder, c: char): (r: Result<Decoder, ChunkError>)
    ensures r.Failure? <==> d.state == WaitingLength && c != '\r' && !IsHexDigit(c)
    ensures r.Success? ==>
      (r.value.finished <==> d.finished || (d.state == WaitingLengthEnd && d.length == 0))
    ensures r.Success? ==>
      r.value.content == d.content + (if d.state == ReadingTrunk && d.length > 0 then [c] else [])
    ensures r.Success? && Wf(d) ==> Wf(r.value)
    ensures r.Success? && Wf(d) && d.state != WaitingLength && r.value.state == WaitingLength
      ==> r.value.length == 0
  {
    match d.state
    case WaitingLength =>
      if c == '\r' then Success(d.(state := WaitingLengthEnd))
      else if IsHexDigit(c) then Success(d.(length := d.length * 16 + DigitValue(c)))
      else Failure(NotHexDigit(c))
    case WaitingLengthEnd =>
      var d' := if d.length == 0 then d.(finished := true) else d;
      Success(if c == '\n' then d'.(state := ReadingTrunk) else d')
    case ReadingTrunk =>
      if d.length == 0 then Success(d.(state := WaitingNewLine))
      else Success(d.(content := d.content + [c], length := d.length - 1))
    case WaitingNewLine =>
      Success(if c == '\n' then d.(state := WaitingNewLineEnd) else d)
    case WaitingNewLineEnd =>
      Success(d.(state := WaitingLength))
  }

  /** Characters fed in order; the first failure ends the feed. Content only
      grows, `finished` is never lowered and the invariant is kept. */
  function Receive(d: Decoder, s: string): (r: Result<Decoder, ChunkError>)
    ensures r.Success? ==> d.content <= r.value.content
    ensures r.Success? && d.finished ==> r.value.finished
    ensures r.Success? && Wf(d) ==> Wf(r.value)
    decreases |s|
  {
    if s == [] then Success(d)
    else
      match ReceiveChar(d, s[0])
      case Failure(e) => Failure(e)
      case Success(d') => Receive(d', s[1..])
  }

  /** Feeds more input to a decoder that has not failed. */
  function Continue(r: Result<Decoder, ChunkError>, s: string): Result<Decoder, ChunkError> {
    match r
    case Success(d) => Receive(d, s)
    case Failure(e) => Failure(e)
  }

  /** Where the input is cut makes no difference. */
  lemma {:induction false} ReceiveConcat(d: Decoder, a: string, b: string)
    ensures Receive(d, a + b) == Continue(Receive(d, a), b)
    decreases |a|
  {
    if a == [] {
      assert a + b == b;
    } else {
      assert (a + b)[0] == a[0];
      assert (a + b)[1..] == a[1..] + b;
      match ReceiveChar(d, a[0])
      case Failure(_) =>
      case Success(d') => ReceiveConcat(d', a[1..], b);
    }
  }

  /** Hex digits in `WaitingLength` shift into the size: from any starting
      count L, digits ds leave L * 16^|ds| + value(ds) and change nothing else. */
  lemma {:induction false} ReceiveSizeDigits(d: Decoder, ds: string)
    requires d.state == WaitingLength && AllHex(ds)
    ensures Receive(d, ds) == Success(d.(length := d.length * Pow16(|ds|) + HexValue(ds)))
    decreases |ds|
  {
    if ds != [] {
      var n := |ds|;
      var front, last := ds[..n - 1], ds[n - 1];
      assert ds == front + [last];
      assert AllHex(front) by {
        forall i | 0 <= i < |front| ensures IsHexDigit(front[i]) {
          assert front[i] == ds[i];
        }
      }
      ReceiveConcat(d, front, [last]);
      ReceiveSizeDigits(d, front);
      var d1 := d.(length := d.length * Pow16(n - 1) + HexValue(front));
      ReceiveOne(d1, last);
      assert Receive(d1, [last]) == Success(d1.(length := d1.length * 16 + DigitValue(last)));
      assert HexValue(ds) == HexValue(front) * 16 + DigitValue(last);
      assert Pow16(n) == 16 * Pow16(n - 1);
      ShiftDigit(d.length, Pow16(n - 1), HexValue(front), DigitValue(last));
    }
  }

  /** Feeding one character is one step. */
  lemma ReceiveOne(d: Decoder, c: char)
    ensures Receive(d, [c]) == ReceiveChar(d, c)
  {
  }

  lemma ShiftDigit(a: nat, p: nat, h: nat, v: nat)
    ensures (a * p + h) * 16 + v == a * (16 * p) + (h * 16 + v)
  {
  }

  /** A size line d1..dn followed by a carriage return, read from the start
      of a line, leaves `length` equal to the hex value of d1..dn and the
      decoder waiting for the line feed. */
  lemma ChunkSizeLine(d: Decoder, ds: string)
    requires d.state == WaitingLength && d.length == 0 && AllHex(ds)
    ensures Receive(d, ds + "\r") == Success(d.(state := WaitingLengthEnd, length := HexValue(ds)))
  {
    ReceiveSizeDigits(d, ds);
    ReceiveConcat(d, ds, "\r");
  }

  /** In `ReadingTrunk`, while the count lasts, every character is appended
      to `content` in order and the count drops by one per character. */
  lemma {:induction false} ReceiveChunkData(d: Decoder, data: string)
    requires d.state == ReadingTrunk && |data| <= d.length
    ensures Receive(d, data) == Success(d.(content := d.content + data, length := d.length - |data|))
    decreases |data|
  {
    if data == [] {
      assert d.content + data == d.content;
    } else {
      var d1 := d.(content := d.content + [data[0]], length := d.length - 1);
      assert ReceiveChar(d, data[0]) == Success(d1);
      ReceiveChunkData(d1, data[1..]);
      assert d1.content + data[1..] == d.content + data;
    }
  }

  /** `WaitingNewLine` ignores everything up to the next line feed. */
  lemma {:induction false} WaitingNewLineSkips(d: Decoder, s: string)
    requires d.state == WaitingNewLine
    requires forall i :: 0 <= i < |s| ==> s[i] != '\n'
    ensures Receive(d, s) == Success(d)
    decreases |s|
  {
    if s != [] {
      assert ReceiveChar(d, s[0]) == Success(d);
      WaitingNewLineSkips(d, s[1..]);
    }
  }

  /** A chunk read from the start of a size line with a count of 0: its size
      spelled by any hex digits ds whose value is |data| > 0, then its data and
      trailing CRLF. The data is appended to `content`, the count is back to
      0, and the decoder sits in `WaitingNewLineEnd`, which will swallow the
      next character. */
  lemma ChunkAt(d: Decoder, ds: string, data: string)
    requires d.state == WaitingLength && d.length == 0
    requires AllHex(ds) && |data| > 0 && HexValue(ds) == |data|
    ensures Receive(d, ds + "\r\n" + data + "\r\n")
      == Success(d.(state := WaitingNewLineEnd, content := d.content + data))
  {
    var n := |data|;
    ChunkSizeLine(d, ds);
    var d1 := d.(state := WaitingLengthEnd, length := n);
    ReceiveConcat(d, ds + "\r", "\n");
    ReceiveOne(d1, '\n');
    assert ds + "\r" + "\n" == ds + "\r\n";
    var d2 := d1.(state := ReadingTrunk);
    ReceiveChunkData(d2, data);
    ReceiveConcat(d, ds + "\r\n", data);
    var d3 := d2.(content := d.content + data, length := 0);
    ReceiveConcat(d, ds + "\r\n" + data, "\r\n");
    assert Receive(d3, "\r\n") == Success(d3.(state := WaitingNewLineEnd)) by {
      assert "\r\n"[1..] == "\n";
      ReceiveOne(d3.(state := WaitingNewLine), '\n');
    }
  }

  /** The first chunk, its size in any hex spelling (either case, leading
      zeros allowed) whose value is |data| > 0: the decoder holds exactly
      data and sits in `WaitingNewLineEnd`. */
  lemma FirstChunk(ds: string, data: string)
    requires AllHex(ds) && |data| > 0 && HexValue(ds) == |data|
    ensures Receive(Initial(), ds + "\r\n" + data + "\r\n")
      == Success(Decoder(WaitingNewLineEnd, 0, data, false))
  {
    ChunkAt(Initial(), ds, data);
    assert [] + data == data;
  }

  /** As written, every later size line loses its first character h to
      `WaitingNewLineEnd`: the size read is the value of the digits after
      it, and nothing else changes. */
  lemma LaterSizeLine(content: string, finished: bool, h: char, ds: string)
    requires AllHex(ds)
    ensures Receive(Decoder(WaitingNewLineEnd, 0, content, finished), [h] + ds + "\r")
      == Success(Decoder(WaitingLengthEnd, HexValue(ds), content, finished))
  {
    var d := Decoder(WaitingNewLineEnd, 0, content, finished);
    var d0 := Decoder(WaitingLength, 0, content, finished);
    ReceiveConcat(d, [h], ds + "\r");
    ReceiveOne(d, h);
    ChunkSizeLine(d0, ds);
    assert [h] + ds + "\r" == [h] + (ds + "\r");
  }

  /** A later chunk whose size is h followed by digits ds is decoded as a
      chunk of size value(ds): when that is the data's length, for example
      when h is a leading zero, the data is kept whole. */
  lemma LaterChunk(content: string, finished: bool, h: char, ds: string, data: string)
    requires AllHex(ds) && |data| > 0 && HexValue(ds) == |data|
    ensures Receive(Decoder(WaitingNewLineEnd, 0, content, finished), [h] + ds + "\r\n" + data + "\r\n")
      == Success(Decoder(WaitingNewLineEnd, 0, content + data, finished))
  {
    var d := Decoder(WaitingNewLineEnd, 0, content, finished);
    var d0 := Decoder(WaitingLength, 0, content, finished);
    var rest := ds + "\r\n" + data + "\r\n";
    ReceiveConcat(d, [h], rest);
    ReceiveOne(d, h);
    ChunkAt(d0, ds, data);
    assert [h] + ds + "\r\n" + data + "\r\n" == [h] + rest;
  }

  /** The last-chunk line, its CRLF and the final CRLF, read where the
      source leaves the decoder after a chunk, raise `finished` and keep the
      content. The first character ('0') is the one `WaitingNewLineEnd`
      swallows; the zero size is seen only because the count is already 0. */
  lemma LastChunk(content: string, finished: bool)
    ensures Receive(Decoder(WaitingNewLineEnd, 0, content, finished), "0\r\n\r\n")
      == Success(Decoder(WaitingNewLineEnd, 0, content, true))
  {
  }

  /** A body made of one chunk, its size spelled by any hex digits ds whose
      value is |data| > 0, and the last chunk decodes to exactly data and
      finishes: the declared size is what is kept. */
  lemma SingleChunkBody(ds: string, data: string)
    requires AllHex(ds) && |data| > 0 && HexValue(ds) == |data|
    ensures Receive(Initial(), ds + "\r\n" + data + "\r\n" + "0\r\n\r\n")
      == Success(Decoder(WaitingNewLineEnd, 0, data, true))
  {
    FirstChunk(ds, data);
    ReceiveConcat(Initial(), ds + "\r\n" + data + "\r\n", "0\r\n\r\n");
    LastChunk(data, false);
  }

  /** The same body with the size in its shortest lower-case spelling, as a
      server writes it. */
  lemma SingleChunkBodyShortest(data: string)
    requires |data| > 0
    ensures Receive(Initial(), ToHex(|data|) + "\r\n" + data + "\r\n" + "0\r\n\r\n")
      == Success(Decoder(WaitingNewLineEnd, 0, data, true))
  {
    HexRoundTrip(|data|);
    SingleChunkBody(ToHex(|data|), data);
  }

  /** As written, a second chunk with a one-digit size is lost: after the first chunk's CRLF,
      `WaitingNewLineEnd` swallows the one-digit size h of the second chunk,
      the decoder reads an empty size, finishes, and then skips the second
      chunk's data up to its line feed. Only the first chunk is kept. */
  lemma TwoChunksKeepOnlyFirst(ds1: string, data1: string, h: char, data2: string)
    requires AllHex(ds1) && |data1| > 0 && HexValue(ds1) == |data1|
    requires IsHexDigit(h) && 0 < |data2| == DigitValue(h)
    requires forall i :: 0 <= i < |data2| ==> data2[i] != '\n'
    ensures Receive(Initial(),
        ds1 + "\r\n" + data1 + "\r\n" + [h] + "\r\n" + data2 + "\r\n" + "0\r\n\r\n")
      == Success(Decoder(WaitingNewLineEnd, 0, data1, true))
  {
    var first := ds1 + "\r\n" + data1 + "\r\n";
    FirstChunk(ds1, data1);
    var size2 := [h];
    // the size digit is swallowed
    ReceiveConcat(Initial(), first, size2);
    ReceiveOne(Decoder(WaitingNewLineEnd, 0, data1, false), h);
    // an empty size line: finished, then reading a chunk of size 0
    ReceiveConcat(Initial(), first + size2, "\r\n");
    var e := Decoder(ReadingTrunk, 0, data1, true);
    assert Receive(Decoder(WaitingLength, 0, data1, false), "\r\n") == Success(e) by {
      assert "\r\n"[1..] == "\n";
      ReceiveOne(Decoder(WaitingLengthEnd, 0, data1, false), '\n');
    }
    // the second chunk's data is dropped
    ReceiveConcat(Initial(), first + size2 + "\r\n", data2);
    var w := Decoder(WaitingNewLine, 0, data1, true);
    assert Receive(e, data2) == Success(w) by {
      WaitingNewLineSkips(w, data2[1..]);
    }
    ReceiveConcat(Initial(), first + size2 + "\r\n" + data2, "\r\n");
    assert Receive(w, "\r\n") == Success(w.(state := WaitingNewLineEnd)) by {
      assert "\r\n"[1..] == "\n";
      ReceiveOne(w, '\n');
    }
    ReceiveConcat(Initial(), first + size2 + "\r\n" + data2 + "\r\n", "0\r\n\r\n");
    LastChunk(data1, true);
  }
}
