# HTTP/1.1 response parser of toy-browser, in Dafny

This project models the HTTP client's response parser in `html/client.js`. The parser has two parts, and both read their input one character at a time:

- **`ResponseParse`** has eight states. It collects the status line (section 4 of RFC 9112) and the header fields (section 5 of RFC 9112). Each field goes into a JavaScript object used as a map, so a later field with the same name overwrites an earlier one. When the empty line that ends the header block has been read, the parser hands every further character to a body decoder. It creates that decoder on the first body character, and only if the field `Transfer-Encoding` is `chunked`.
- **`TrunckedBodyParse`** has five states and decodes the chunked transfer coding (section 7.1 of RFC 9112). It builds the chunk size from hexadecimal digits, counts that size down while it copies data characters into `content`, and raises `finished` when it reads a chunk size of zero.

Each machine is written as a pure step function, `ReceiveChar`, over an immutable record. `Receive` is a left fold of that step over a string. A step returns a `Result`: the new parser, or the reason the model stops.

Modules:

- `Results` holds `Option` and `Result`.
- `Hex` holds the digit value that `parseInt(c, 16)` gives, the positional value of a digit string, and the shortest hexadecimal spelling of a number.
- `ChunkedBody` is the body decoder.
- `StatusLine` is the split that the `response` getter makes of the status line.
- `ResponseParser` is the response parser, its `finished` getter and its `response` getter.
- `Scenarios` feeds whole responses to a fresh parser.

## Behaviour as written

The model follows the code, including these places where it departs from RFC 9112:

- **The first digit of every later chunk size is swallowed.** After a chunk's trailing CRLF, state `WAITING_NEW_LINE_END` swallows the next character, which is the first digit of the next chunk size. The size is then read from the remaining digits (`ChunkedBody.LaterSizeLine`).
  - A chunk whose size has one digit is lost whole when its data holds no line feed. A body `3\r\nfoo\r\n3\r\nbar\r\n0\r\n\r\n` therefore decodes to `foo`, not `foobar`, and the parser still reports `finished` (`ChunkedBody.TwoChunksKeepOnlyFirst`, `Scenarios.TwoChunkResponse`).
  - When such a chunk's data holds a line feed, the skip ends there, one more character is swallowed, and the rest of the data is read as a size line. Part of the chunk can then be kept: the data `a\nx5\r\nhello` of a chunk of size `b` yields `hello` (`Scenarios.LineFeedInSkippedData`). When the rest is not a hex size, the source's count turns NaN, and the model stops with `ChunkSizeNotHex`.
  - A longer size is read without its first digit. With a leading zero, as in `03`, the chunk is kept whole (`ChunkedBody.LaterChunk`, `Scenarios.LeadingZeroBody`).
  - The last chunk's `0` is swallowed too. A body of one chunk plus the last chunk still decodes correctly. This works only because the count is already zero when the swallowed `0` goes by (`ChunkedBody.LastChunk`).
- **A carriage return is stored in the field name.** In `WAITING_HEADERS_NAME`, any carriage return moves to the end of the header block. It is also appended to the name accumulator, even when the name is not empty (`ResponseParser.HeaderBlockEnd`).
- **Malformed lines are skipped, not rejected.** After a colon, every character up to the next space is dropped. After the status line, a field line or the header block, every character up to the next line feed is dropped. No error is raised in either case (`ResponseParser.TolerantStates`).
- **The status code stays text.** It is the regex capture `RegExp.$1`, a string, and is never converted to a number.
- **`receive` never rejects a bad first line.** A first line that is not a status line is stored like any other. When chunked coding is declared, the body still decodes and the parser reports `finished`; only the `response` getter fails, because the line does not split (`Scenarios.GarbageFirstLineChunked`). In the source that getter returns the stale captures of an earlier regex match instead (html/client.js:111-115). When no `Transfer-Encoding: chunked` field was declared, as in `Scenarios.GarbageFirstLineNoBody`, the first body character fails. The cause is the missing field, which leaves no body parser, not the bad first line.

## Model

| member | source | states |
|---|---|---|
| `Hex.HexDigitsListed` | html/client.js:208 | the characters `parseInt(c, 16)` accepts are exactly the 22 of `0123456789abcdefABCDEF` |
| `Hex.DigitValue` | html/client.js:206-208 | a size character is worth 0..15, and a decimal digit is worth less than 10 |
| `Hex.DigitValueSpelling` | html/client.js:208 | case does not matter: an upper-case digit is worth what its lower-case form is worth, and every other digit is the one `HexDigit` writes for its value, so each of the 22 characters has the value `parseInt` gives it |
| `ChunkedBody.Initial` | html/client.js:186-197 | a new decoder waits for a size line, with a count of 0, no content and `finished` false, and satisfies the decoder invariant |
| `ChunkedBody.ReceiveChar` | html/client.js:199-235 | a step fails exactly when a size character is neither a hex digit nor CR; `finished` becomes true exactly when the decoder is in `WAITING_LENGTH_END` with a count of 0, and is never lowered; `content` grows by the character exactly when a chunk is being read and the count is positive; every size line starts from a count of 0 |
| `ChunkedBody.Receive` | html/client.js:170-180 | over any input the content only grows (the old content is a prefix), `finished` stays true once set, and the zero-count invariant holds |
| `ChunkedBody.ReceiveConcat` | html/client.js:170-180 | feeding `a + b` equals feeding `a` and then `b` |
| `ChunkedBody.ReceiveSizeDigits` | html/client.js:201-209 | hex digits read in `WAITING_LENGTH` turn a count L into L·16^n + value(digits) and change nothing else |
| `ChunkedBody.ChunkSizeLine` | html/client.js:201-209 | a size line d1..dn followed by CR leaves the count equal to the hex value of d1..dn, with the decoder waiting for the LF |
| `ChunkedBody.ReceiveChunkData` | html/client.js:219-226 | while the count lasts, each data character is appended to `content` in order and the count drops by exactly one per character |
| `ChunkedBody.WaitingNewLineSkips` | html/client.js:228-231 | `WAITING_NEW_LINE` leaves the decoder unchanged until a line feed arrives |
| `ChunkedBody.FirstChunk` | html/client.js:199-234 | one chunk whose size, in any hexadecimal spelling (either case, leading zeros allowed), is the length of `data`, with its CRLF, leaves exactly `data` in `content` and the count at 0; the decoder ends in `WAITING_NEW_LINE_END`, which swallows the next character |
| `ChunkedBody.ChunkAt` | html/client.js:199-234 | from the start of a size line with a count of 0, a chunk whose hex size is the data's length, with its CRLF, appends exactly the data to `content`, leaves the count at 0 and the decoder in `WAITING_NEW_LINE_END` |
| `ChunkedBody.LaterSizeLine` | html/client.js:199-234 | after a chunk, the first character of the next size line is swallowed, and the size read is the value of the digits after it |
| `ChunkedBody.LaterChunk` | html/client.js:199-234 | after a chunk, a size line h + ds whose digits ds have the data's length as value appends exactly that data, so a leading-zero size keeps its chunk |
| `ChunkedBody.LastChunk` | html/client.js:211-234 | the last-chunk line and the final CRLF raise `finished` and leave the content as it was |
| `ChunkedBody.SingleChunkBody` | html/client.js:199-235 | a body of one chunk, its size in any hexadecimal spelling whose value is the data's length, followed by the last chunk, decodes to exactly the chunk's data and finishes |
| `ChunkedBody.SingleChunkBodyShortest` | html/client.js:199-235 | the same for the shortest spelling of the size, as a server writes it |
| `ChunkedBody.TwoChunksKeepOnlyFirst` | html/client.js:228-234 | as written, when the first chunk's size has any hexadecimal spelling, the second chunk's size has one digit and its data has no line feed, only the first chunk's data is kept, and the decoder still finishes |
| `StatusLine.DigitRun` | html/client.js:111 | the greedy `[0-9]+` takes the longest run of digits at the front: all of it digits, followed by the end of the string or by a non-digit |
| `StatusLine.SplitStatusLine` | html/client.js:110-115 | a successful split gives a non-empty digit code and a non-empty reason, and the line is exactly `HTTP/1.1 ` + code + space + reason |
| `StatusLine.SplitStatusLineRoundTrip` | html/client.js:110-115 | every line `HTTP/1.1 ` + digits + space + non-empty reason splits back into those digits and that reason |
| `ResponseParser.Initial` | html/client.js:81-100 | a new parser waits for the status line, with empty text, no fields and no body parser; it satisfies the parser invariants and is not finished |
| `ResponseParser.Finished` | html/client.js:106-108 | `finished` is false while there is no body parser, and once there is one it is that parser's own flag |
| `ResponseParser.ChunkedDeclared` | html/client.js:171 | a header with no `Transfer-Encoding` field never declares chunked coding |
| `ResponseParser.ChunkedDeclaredAfterCommit` | html/client.js:156-171 | committing a field changes the declaration only when the field is `Transfer-Encoding`, and then its latest value decides it |
| `ResponseParser.ReceiveChar` | html/client.js:127-182 | a step fails only in the body state; it keeps the parser invariants; once the status line's CR is read, the status line never changes and that state never comes back; a body parser, once created, is never removed, and it is created only in the body state and only when `Transfer-Encoding` is `chunked`; `finished` is never lowered |
| `ResponseParser.Receive` | html/client.js:121-125 | over a whole fragment the parser invariants are kept, a completed status line never changes, a body parser once created is never removed, and `finished` is never lowered |
| `ResponseParser.ReceiveConcat` | html/client.js:121-125 | fragmentation invariance: `receive(a + b)` ends where `receive(a)` followed by `receive(b)` ends |
| `ResponseParser.ReceiveFragmentsIsConcat` | html/client.js:121-125 | any sequence of `receive` calls ends where one call on the joined fragments ends |
| `ResponseParser.StatusLineAccumulates` | html/client.js:128-133 | before the first CR, every character is appended to the status line in order and nothing else changes |
| `ResponseParser.StatusLineComplete` | html/client.js:128-137 | a status line and its CRLF leave the parser at the first field line, holding exactly that line |
| `ResponseParser.StatusLineIsFirstLine` | html/client.js:127-137 | whatever follows the first CR, the status line is exactly the text before it |
| `ResponseParser.TolerantStates` | html/client.js:134-169 | `WAITING_STATUS_LINE_END`, `WAITING_HEADERS_SPACE`, `WAITING_HEADERS_LINE_END` and `WAITING_HEADERS_BLOCK_END` change only the state, and only on the character they wait for (a space for `WAITING_HEADERS_SPACE`, LF for the others); any other character changes nothing |
| `ResponseParser.HeaderCommit` | html/client.js:152-161 | CR commits the name/value pair and leaves every other entry unchanged; the key set gains only the committed name; both accumulators are cleared; any other character is appended to the value |
| `ResponseParser.ReceiveHeaderName` | html/client.js:138-147 | characters other than `:` and CR are appended to the field name in order |
| `ResponseParser.ReceiveHeaderValue` | html/client.js:152-161 | characters other than CR are appended to the field value in order |
| `ResponseParser.ColonSpace` | html/client.js:143-151 | the colon and one space move the parser from the field name to the field value |
| `ResponseParser.FieldLineEnd` | html/client.js:152-165 | the CRLF after a value commits the field and returns the parser to the start of a field line |
| `ResponseParser.HeaderLineRoundTrip` | html/client.js:138-165 | the line `name: value` CRLF adds the entry name → value, with no surrounding space, overwriting any earlier entry of that name, and changes nothing else |
| `ResponseParser.HeaderBlockEnd` | html/client.js:138-169 | an empty line moves the parser to the body state, and its CR is left in the name accumulator |
| `ResponseParser.BodyForwarding` | html/client.js:170-180 | once a body parser exists, receiving is exactly the body decoder's receiving, and the status line, the fields and the accumulators are frozen |
| `ResponseParser.BodyStart` | html/client.js:170-180 | the first body character creates the decoder exactly when `Transfer-Encoding` is `chunked`; without that field the parser fails |
| `ResponseParser.FinishedNeedsChunkedBody` | html/client.js:106-108 | from the start, the invariants always hold, and `finished` is reported only in the body state of a response that declares chunked coding |
| `ResponseParser.GetResponse` | html/client.js:110-119 | the response exists exactly when a body parser exists and the status line splits; it then carries the split code and reason, the header map, and the decoded content |
| `Scenarios.OneChunkResponse` | html/client.js:79-235 | the one-chunk sample response ends finished with code "200", reason "OK", both fields and body "test" |
| `Scenarios.OneChunkResponseAnyFragments` | html/client.js:121-125 | the same response cut into one-character fragments, or into any other fragments, ends in the same parser |
| `Scenarios.TwoChunkResponse` | html/client.js:228-234 | as written, a body with the chunks "foo" and "bar" yields the body "foo" |
| `Scenarios.LeadingZeroBody` | html/client.js:199-234 | as written, the chunks "foo" and "bar" with the second size written `03` decode to "foobar" and finish |
| `Scenarios.LineFeedInSkippedData` | html/client.js:199-234 | as written, a line feed inside the data of a one-digit-size chunk ends the skip: the body `3`, `foo`, size `b` with data `a\nx5\r\nhello`, then the last chunk, decodes to "foohello" and finishes |
| `Scenarios.GarbageFirstLineNoBody` | html/client.js:79-183 | `GARBAGE` followed by CRLF CRLF reaches the body state with no body parser, is not finished, fails on any further non-empty input, does not split, and yields no response |
| `Scenarios.GarbageFirstLineChunked` | html/client.js:110-183 | `GARBAGE`, a `Transfer-Encoding: chunked` field, the empty line and the last chunk are all received without failure and the parser finishes, but the response fails with `StatusLineMismatch` |

## Left out

- `Request` (html/client.js:5-75) is left out. It is socket I/O, event callbacks and a Promise, plus request formatting that relies on `JSON.stringify` and `encodeURIComponent`.
- `connectEnd` (html/client.js:102-104, 175-177) is left out. Closing the connection is a transport side effect, and the model keeps no "end requested" flag.
- The logging and the unused `body` accumulation in both classes are left out, because nothing reads them.
- `ChunkedBody.ReceiveChar`: when `parseInt` meets a size character that is not a hex digit, the source carries on with a NaN count. The model stops with `NotHexDigit` instead.
- `ChunkedBody.ReceiveChar`: the count is an unbounded `nat`. The source's count is a JavaScript number, which is exact only below 2^53. Past that bound `length--` can leave the count unchanged, and a long enough size line drives it to `Infinity`; the model does not show either effect.
- `ResponseParser.ReceiveChar`: in the body state without a body parser, the source throws on a null reference. The model fails with `BodyParserMissing`.
- `StatusLine.SplitStatusLine` matches only at the start of the line, and it reads the `.` of `HTTP/1.1` literally. The source's regex is unanchored, and its `.` matches any character other than a line terminator. When the match fails, the source returns stale captures from an earlier regex. The model returns `None`, and `GetResponse` fails with `StatusLineMismatch`.
- `ResponseParser.GetResponse` does not require `finished`, and neither does the source.
- Characters are Dafny `char`s, which are Unicode scalar values. A `char` stands for one of the source's UTF-16 code units only for text without surrogate pairs, and the source itself states that it does not support UTF (html/client.js:4). A JavaScript object's inherited keys (such as `__proto__`) are not modelled; the header object is a plain map.
- html/parserHTML.js (a tokenizer skeleton with no output), server.js (a static file server) and the demo at html/client.js:238-251 are left out.
