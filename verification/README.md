# libreactor, modelled and verified in Dafny

This project models the core of libreactor and proves properties of it: the incremental HTTP parser
and the chunked decoder it bundles, the open-addressing hash map, the pipelining HTTP server
connection, the event batch of the reactor, the HTTP writers with their buffers and streams, the
intrusive lists, and string replacement. `dafny verify dfyconfig.toml` checks everything.

Code that works in place is modelled by classes and methods with loops. Each of them is proved equal to
a short reference definition on values, and the laws are proved about that definition for all inputs:

* `Bytes`, `Bits`: bytes, and the bit tricks on 64-bit words.
* `Chunked`, `ChunkedLaws`: the in-place decoder for chunked bodies (section 4.1 of RFC 7230), its
  indifference to fragmentation, and that it inverts encoding.
* `HttpSyntax`, `Scanners`, `Parser`: the grammar the parser accepts (sections 3.1, 3.2 and 3.2.6 of
  RFC 7230, with the parser's leniencies), and the parser itself with both of its fast paths.
* `ParserLaws`, `ShortcutLaws`: stability of the verdicts, and when the `last_len` shortcut changes them.
* `HeadLanguage`, `Incomplete`: the language of the heads that are accepted, written down without the
  parser, and exactly when the parser still asks for more; together they decide every verdict.
* `Wording`: the numbers of the model as characters: character classes, fixed texts, whole messages.
* `HashTable`, `HashMap`, `MapRuns`: probing and backward-shift deletion, the map, and whole runs of it.
* `Decimals`, `Buffers`, `Streams`: decimal printing, growable buffers, plain-socket streams.
* `HttpMessages`, `HttpWriter`, `RoundTrip`, `FieldLookup`: messages, their writers, and reading them back.
* `Carving`, `Server`: cutting a stream into request heads, and one connection of the server.
* `Reactor`: event batches, descriptors and the callbacks that change them.
* `Lists`, `Replacement`, `Strings`: circular lists, replacement on values, heap strings.

Choices that matter for reading the model:

* The kernel (`read`, `write`, `epoll_wait`), the time and the application's callbacks are
  nondeterministic: a callback is any sequence of the operations it may call, in any order.
* The parser's loops that skip spaces look at the byte behind the input. It counts as a non-space, so
  the checks for the end of the input that follow decide.
* `simd` selects between the two builds of the parser; the range search of one 16-byte block has its
  plain meaning. The hash is an arbitrary function. Key 0 marks an empty slot and is not inserted.
* Sizes are unbounded except where wrapping matters: the chunk size accumulator, the rounding to a power
  of two, the 32-bit body length. Capacities stay at or below 2^63 so that doubling does not wrap.
* `write` on a non-blocking descriptor takes at least one byte or reports that it would block; the model
  notes which, so that output left behind is known to have been refused.
* Rejections are not always immediate. The parser looks for a missing method only behind the next word,
  for a version only in nine bytes, for a status code only in four, and for the space behind it only at
  the end of the line; `Incomplete` lists these places and proves that there are no others.
* A connection of the server keeps its stream as the contents of the two buffers, whose operations are
  proved in `Streams`. `open`, `holds` and `answering` are the accounts of who holds references; `handed`,
  `handedBack`, `taken` and `given` are the ledger of what the application was given and gave back.
* In `server_request_callback` a write event takes the default branch and closes the connection. The
  stream dispatches one if and only if a writable event leaves no output or a notification was pending
  (src/reactor/stream.c:79-86), and the server asks for no notifications. So a client whose response did
  not fit into the socket buffer at once is disconnected as soon as the rest has drained:
  `Server.SlowClient` proves it for every way of draining, with the exact condition. The model follows
  the code.
* The `last_len` shortcut is exact for successes, but it can turn -1 into -2 and -2 into -1:
  `ShortcutLaws.RequestShortcutAgrees` says exactly when, and `ShortcutDelaysRejection` and
  `ShortcutHastensRejection` are inputs for the two directions. No message is lost by that: what the
  shortcut refuses has no extension that is accepted.

## Model

| member | source | states |
|---|---|---|
| Chunked.ChunkedDecoder.Decode | src/picohttpparser/picohttpparser.c:523-636 | in-place decoding: the decoded bytes at the front, the undecoded ones right behind, the return value and the decoder state are those of the byte-wise reference `Run`; output never overtakes unread input and nothing beyond `bufsz` changes |
| Chunked.ChunkedDecoder.ReadSize | src/picohttpparser/picohttpparser.c:530-550 | the size loop stops at the first non-digit, on a 17th digit, on no digit at all or at the end of the input, with the remaining work unchanged |
| Chunked.ChunkedDecoder.SkipExtension | src/picohttpparser/picohttpparser.c:552-569 | everything up to LF is skipped; then data, trailers or the end of the body, by the size and `consume_trailer` |
| Chunked.ChunkedDecoder.CopyData | src/picohttpparser/picohttpparser.c:571-587 | as many data bytes as are there move down to the output, unread bytes stay where they are |
| Chunked.ChunkedDecoder.SkipCrlf | src/picohttpparser/picohttpparser.c:589-602 | CRs are skipped, then LF starts the next chunk and anything else is malformed |
| Chunked.ChunkedDecoder.ReadTrailerHead | src/picohttpparser/picohttpparser.c:603-612 | an empty trailer line ends the body, any other byte starts a line |
| Chunked.ChunkedDecoder.ReadTrailerMiddle | src/picohttpparser/picohttpparser.c:614-623 | the rest of a trailer line is skipped |
| Chunked.HexDigitMeans | src/picohttpparser/picohttpparser.c:510-521 | the digits 0 to 9, a to f and A to F have their values, a capital that of its small letter, and no other byte is a digit |
| Chunked.StepKeepsValid | src/picohttpparser/picohttpparser.c:531-548 | every byte keeps the decoder invariant, and the size accumulator never wraps: it stays below 16^digits with at most 16 digits |
| Chunked.RunKeepsValid | src/picohttpparser/picohttpparser.c:523-636 | the invariant holds after any pass over any input |
| Chunked.RunData | src/picohttpparser/picohttpparser.c:571-587 | chunk data passes through untouched, whole or cut short |
| ChunkedLaws.RunSplit | src/picohttpparser/picohttpparser.c:523-636 | a pass over a concatenation is a pass over the first part followed, if it wants more, by one over the second |
| ChunkedLaws.FragmentationInvariance | src/picohttpparser/picohttpparser.c:523-636 | for every cutting of the input into successive calls: same decoded bytes, same verdict, same undecoded tail, same final decoder |
| ChunkedLaws.RunKeepsSuffix | src/picohttpparser/picohttpparser.c:629-635 | what is not decoded is a suffix of the input, and output plus rest is never longer than the input |
| ChunkedLaws.RunChunk | src/picohttpparser/picohttpparser.c:530-602 | decoding one encoded chunk emits exactly its data and is back in the zeroed state |
| ChunkedLaws.DecodeInvertsEncode | src/picohttpparser/picohttpparser.c:523-636 | decoding an encoded body returns the payload and leaves exactly the following bytes, for every body of the language the decoder takes (at most 16 hexadecimal digits, any extension, any CRs before a line end, any trailers), with and without `consume_trailer` |
| ChunkedLaws.DecodedIsBody | src/picohttpparser/picohttpparser.c:523-636 | conversely, whatever the decoder completes is an encoded body followed by the rest it leaves |
| ChunkedLaws.DecodesExactly | src/picohttpparser/picohttpparser.c:523-636 | the two together: the decoder completes with an output and a rest if and only if the input is an encoding of that payload followed by that rest |
| ChunkedLaws.AsksExactly | src/picohttpparser/picohttpparser.c:523-636 | the decoder asks for more if and only if the input is the beginning of an encoded body, so it rejects everything else at once |
| ChunkedLaws.Ending | src/picohttpparser/picohttpparser.c:523-636 | from every state the decoder can be in, some input completes the body |
| ChunkedLaws.RunTrailers | src/picohttpparser/picohttpparser.c:603-623 | trailer lines are consumed up to and including the empty one, and nothing behind it |
| ChunkedLaws.StrictIsChunk | src/picohttpparser/picohttpparser.c:510-521 | the chunks of section 4.1 of RFC 7230 (hexadecimal size, extensions starting with ';' and free of line ends, CRLF) are among those of that language |
| ChunkedLaws.EveryDataIsAChunk | src/picohttpparser/picohttpparser.c:510-521 | every data below 2^64 bytes has a hexadecimal size field that the decoder reads back, in small letters, capitals or a mixture |
| Scanners.FindCharFast | src/picohttpparser/picohttpparser.c:105-132 | the block-wise range search skips only bytes outside the ranges, and reports a hit exactly at a byte inside them |
| Scanners.RangesCoverStops | src/picohttpparser/picohttpparser.c:74-76 | each range table covers every byte at which the byte loop of its caller would stop, so the fast path skips only bytes that loop accepts |
| Scanners.TextRangesExact | src/picohttpparser/picohttpparser.c:139-145 | the table for text lines contains no other bytes, so a hit may end the text without a second look |
| Scanners.ScanTextUnrolled | src/picohttpparser/picohttpparser.c:147-179 | the loop unrolled eight times finds the same end as a byte-by-byte scan |
| Scanners.GetTokenToEol | src/picohttpparser/picohttpparser.c:134-195 | both builds return the token, end position and verdict of the plain scan |
| Scanners.AdvanceToken | src/picohttpparser/picohttpparser.c:71-94 | the token up to the next space, in both builds; control bytes reject, the end of the input asks for more |
| Scanners.SkipSpaces | src/picohttpparser/picohttpparser.c:356-362 | the first non-space after a space, where the byte behind the input counts as a non-space |
| Scanners.ParseName | src/picohttpparser/picohttpparser.c:280-317 | a header name of token characters, the colon and the blanks behind it, in both builds |
| Scanners.IsComplete | src/picohttpparser/picohttpparser.c:197-223 | the search for an empty line, from three bytes before the seen part |
| Parser.ParseHttpVersion | src/picohttpparser/picohttpparser.c:245-261 | "HTTP/1." and a digit, tried only when nine bytes are there |
| Parser.ParseHeaderLine | src/picohttpparser/picohttpparser.c:280-336 | a header line or a folded continuation, with the value trimmed at the end |
| Parser.TrimValue | src/picohttpparser/picohttpparser.c:327-336 | the value without its trailing blanks |
| Parser.ParseHeaders | src/picohttpparser/picohttpparser.c:263-339 | the header array holds exactly the headers of the reference grammar, at most `max`, up to the empty line |
| Parser.ParseRequestLine | src/picohttpparser/picohttpparser.c:345-366 | optional empty line, method and target, both non-empty |
| Parser.ParseRequest | src/picohttpparser/picohttpparser.c:341-381 | verdict, slices, minor version and headers of the whole request head |
| Parser.PhrParseRequest | src/picohttpparser/picohttpparser.c:383-409 | the returned length or -2 or -1 and all out-parameters, with any `last_len` |
| Parser.ParseStatus | src/picohttpparser/picohttpparser.c:225-242 | three digits, tried only when four bytes are there |
| Parser.ParseReason | src/picohttpparser/picohttpparser.c:433-449 | the reason phrase without leading spaces; anything else right after the code is malformed |
| Parser.ParseResponse | src/picohttpparser/picohttpparser.c:411-452 | verdict, status, reason and headers of the whole response head |
| Parser.PhrParseResponse | src/picohttpparser/picohttpparser.c:454-478 | the returned length or -2 or -1 and all out-parameters, with any `last_len` |
| ParserLaws.RequestStable | src/picohttpparser/picohttpparser.c:341-381 | appending bytes changes neither a -1 nor a success's length, slices and headers |
| ParserLaws.RequestLocal | src/picohttpparser/picohttpparser.c:341-381 | an accepted request head depends on its own bytes only |
| ParserLaws.RequestRejects | src/picohttpparser/picohttpparser.c:341-381 | a rejection survives every extension of the input, also where the code looks at the byte behind it |
| ParserLaws.RequestPrefixes | src/picohttpparser/picohttpparser.c:341-381 | the accepted head alone is accepted with the same result, and every strict prefix of it gives -2 |
| ParserLaws.HeadersLocal | src/picohttpparser/picohttpparser.c:263-339 | the same two facts for a list of header lines |
| ParserLaws.ResponseStable | src/picohttpparser/picohttpparser.c:411-452 | stability for responses |
| ParserLaws.ResponseLocal | src/picohttpparser/picohttpparser.c:411-452 | an accepted response head depends on its own bytes only |
| ParserLaws.ResponseRejects | src/picohttpparser/picohttpparser.c:411-452 | a rejection of a response is final |
| ParserLaws.ResponsePrefixes | src/picohttpparser/picohttpparser.c:411-452 | every strict prefix of an accepted response head gives -2, the head itself is accepted |
| ShortcutLaws.RequestClosed | src/picohttpparser/picohttpparser.c:263-381 | an accepted request head ends with an empty line and contains no lone CR |
| ShortcutLaws.ResponseClosed | src/picohttpparser/picohttpparser.c:263-339 | an accepted response head ends with an empty line and contains no lone CR |
| ShortcutLaws.CompleteFinds | src/picohttpparser/picohttpparser.c:197-223 | the completeness check finds an empty line whenever it starts early enough to see both line endings and no lone CR comes before |
| ShortcutLaws.CompleteExactly | src/picohttpparser/picohttpparser.c:197-223 | the check asks for more if and only if there is neither a lone CR nor an empty line from its start on, and refuses if and only if a lone CR comes before any empty line |
| ShortcutLaws.RequestShortcutExact | src/picohttpparser/picohttpparser.c:383-409 | if the first `last_len` bytes alone give -2, parsing with `last_len` succeeds if and only if parsing with 0 does, with the same result |
| ShortcutLaws.ResponseShortcutExact | src/picohttpparser/picohttpparser.c:454-478 | the same for responses |
| ShortcutLaws.RequestShortcutAgrees | src/picohttpparser/picohttpparser.c:383-409 | all three verdicts: with `last_len` the answer is the same if and only if the input is accepted, or is malformed and has a lone CR or an empty line from three bytes before `last_len` on, or is incomplete and has no lone CR there before any empty line; otherwise -1 has become -2 or -2 has become -1 |
| ShortcutLaws.ResponseShortcutAgrees | src/picohttpparser/picohttpparser.c:454-478 | the same for responses |
| ShortcutLaws.RequestDoomed | src/picohttpparser/picohttpparser.c:197-223 | an input with a lone CR that is not accepted has no extension that is accepted |
| ShortcutLaws.ResponseDoomed | src/picohttpparser/picohttpparser.c:197-223 | the same for responses |
| ShortcutLaws.RequestShortcutRejects | src/picohttpparser/picohttpparser.c:397-401 | a -1 of the shortcut is final, also where the parser alone would still ask for more: no extension of the input is accepted |
| ShortcutLaws.ResponseShortcutRejects | src/picohttpparser/picohttpparser.c:467-471 | the same for responses |
| ShortcutLaws.ShortcutDelaysRejection | src/picohttpparser/picohttpparser.c:397-401 | an input for one difference: malformed, but still -2 with the shortcut |
| ShortcutLaws.ShortcutHastensRejection | src/picohttpparser/picohttpparser.c:206-209 | an input for the other: incomplete, but already -1 with the shortcut |
| ShortcutLaws.ResponseShortcutDiffers | src/picohttpparser/picohttpparser.c:467-471 | inputs for both differences in responses |
| HeadLanguage.ReadRequest | src/picohttpparser/picohttpparser.c:341-381 | every text of the request language is accepted, whatever follows, with the slices and headers of the text |
| HeadLanguage.FindRequest | src/picohttpparser/picohttpparser.c:341-381 | every accepted request head is a text of the language |
| HeadLanguage.RequestsExactly | src/picohttpparser/picohttpparser.c:341-381 | a request head is accepted with a length and slices if and only if the input starts with a text of that length and those slices: optional empty line, words with runs of spaces between them, version, LF or CR LF, named and folded lines, empty line, at most `max` lines |
| HeadLanguage.ReadResponse | src/picohttpparser/picohttpparser.c:411-452 | every text of the response language is accepted, whatever follows, with the status, message and headers of the text |
| HeadLanguage.FindResponse | src/picohttpparser/picohttpparser.c:411-452 | every accepted response head is a text of the language |
| HeadLanguage.ResponsesExactly | src/picohttpparser/picohttpparser.c:411-452 | the same characterisation for responses, with a code of three digits and a reason stripped of its leading spaces |
| HeadLanguage.FindLines | src/picohttpparser/picohttpparser.c:263-339 | accepted header lines are named lines with token names, or folded lines after the first, with values trimmed at the end |
| Incomplete.HeaderLineMore | src/picohttpparser/picohttpparser.c:280-336 | a header line asks for more only while its LF is missing |
| Incomplete.HeadersMore | src/picohttpparser/picohttpparser.c:263-339 | a list of header lines asks for more only while no empty line ends in the input |
| Incomplete.RequestMore | src/picohttpparser/picohttpparser.c:341-381 | an input with an empty line and nine bytes from its first LF on is never incomplete |
| Incomplete.ResponseMore | src/picohttpparser/picohttpparser.c:411-452 | an input of nine bytes with an empty line and four bytes from its first LF on is never incomplete |
| Incomplete.RequestIncompleteExactly | src/picohttpparser/picohttpparser.c:341-381 | -2 if and only if the input is the beginning of a text of the request language, or a space stands for the method and the next word has not ended, or less than nine bytes follow where the version belongs; so -1 is exact too |
| Incomplete.ResponseIncompleteExactly | src/picohttpparser/picohttpparser.c:411-452 | -2 if and only if the input has less than nine bytes, is the beginning of a text of the response language, has less than four bytes where the code belongs, or has text right behind the code in a line that has not ended |
| Wording.TokenCharacters | src/picohttpparser/picohttpparser.c:96-103 | a header name is made of visible characters other than the delimiters of section 3.2.6 of RFC 7230 |
| Wording.Separators | src/picohttpparser/picohttpparser.c:71-94 | LF, CR, colon, space, blanks and control characters are the characters of these names |
| Wording.ScansStopAt | src/picohttpparser/picohttpparser.c:71-94 | which characters end a text, a token, a name, a run of spaces and a run of blanks |
| Wording.DecimalDigits | src/picohttpparser/picohttpparser.c:225-231 | the digits 0 to 9 have their values, and no other byte is a digit |
| Bits.RoundUp | src/reactor/map.c:8-20 | the bit smear gives the least power of two for 1 to 2^63, and 0 for every other word |
| Bits.SmearRound | src/reactor/map.c:11-16 | one shift-and-or doubles the run of ones below the top bit |
| Bits.AndMask | src/reactor/map.c:103-103 | masking with a power of two minus one is reduction modulo that power |
| HashTable.EmptySlot | src/reactor/map.c:100-108 | a table with fewer pairs than slots has an empty slot, which is what ends every probe loop |
| HashTable.ProbeMiss | src/reactor/map.c:100-108 | an empty slot reached by probing proves the key absent |
| HashTable.TableInsert | src/reactor/map.c:118-123 | storing a new key in the slot a probe found keeps the probe invariant and adds exactly that pair |
| HashTable.OpenHole | src/reactor/map.c:145-149 | removing an element opens the only hole that may cut off others, and removes exactly its key |
| HashTable.MoveHole | src/reactor/map.c:156-162 | moving an element into the hole, including every wraparound case, leaves one new hole of the same kind |
| HashTable.MoveKeeps | src/reactor/map.c:160-161 | the move keeps every pair exactly once |
| HashTable.KeepHole | src/reactor/map.c:156-158 | an element whose home lies behind the hole may stay |
| HashTable.CloseHole | src/reactor/map.c:152-154 | at the next empty slot the probe invariant holds again |
| HashTable.AllEntriesOnce | src/reactor/map.c:27-35 | the full slots, in slot order, are the pairs of the map, each once |
| HashMap.Map.constructor | src/reactor/map.c:64-71 | an empty table of 16 slots |
| HashMap.Map.Rehash | src/reactor/map.c:37-60 | same contents in the least power of two that is large enough; the insertions made inside never rehash again (their termination measure) |
| HashMap.Map.Reserve | src/reactor/map.c:86-91 | room for `size` elements at half load; no rehash when there is room already |
| HashMap.Map.At | src/reactor/map.c:95-109 | the slot of the key if present, else an empty slot at the end of its probe sequence; the loop terminates |
| HashMap.Map.Insert | src/reactor/map.c:113-126 | the first insertion of a key wins, a later one is released; the table stays at most half full |
| HashMap.Map.Erase | src/reactor/map.c:128-166 | removes exactly the key, releases its entry once, keeps every other pair and the probe invariant |
| HashMap.Map.ShiftBack | src/reactor/map.c:149-165 | the backward shift restores a valid table without tombstones |
| HashMap.Map.ReleaseAll | src/reactor/map.c:27-35 | the release callback sees every stored entry exactly once |
| HashMap.Map.Clear | src/reactor/map.c:168-176 | all entries released, 16 empty slots left |
| HashMap.Map.Lookup | src/reactor/mapi.c:57-60 | the stored value, or 0 for an absent key |
| MapRuns.Execute | src/reactor/map.c:64-176 | every run of operations on a real table, with rehashes wherever they fall, has the contents and releases of the run on a finite map |
| MapRuns.RunConserves | src/reactor/map.c:113-176 | elements inserted = elements stored + elements released, each once, over every run |
| MapRuns.FirstInsertionWins | src/reactor/map.c:113-126 | a key is present exactly if an insertion of it is not yet undone, and has the value of the earliest such insertion |
| Decimals.U32Len | src/reactor/utility.c:5-12 | the closed formula gives the exact number of decimal digits of every 32-bit number |
| Decimals.LogEstimate | src/reactor/utility.c:10-11 | 1233/4096 approximates log10(2) well enough for all 32 bit lengths |
| Decimals.U32Sprint | src/reactor/utility.c:14-42 | the decimal numeral ends at the given position and nothing in front of it or behind it changes |
| Decimals.U32Toa | src/reactor/utility.c:44-52 | numeral and terminating zero at the front of the string |
| Decimals.DecimalDenotes | src/reactor/utility.c:14-42 | the numeral denotes its number and has no leading zero |
| Buffers.Buffer.Reserve | src/reactor/buffer.c:45-53 | contents unchanged, capacity the least sufficient power of two when it must grow |
| Buffers.Buffer.Resize | src/reactor/buffer.c:55-60 | contents cut, or extended behind the old bytes |
| Buffers.Buffer.Compact | src/reactor/buffer.c:62-69 | capacity equals size, contents unchanged |
| Buffers.Buffer.Insert | src/reactor/buffer.c:73-80 | the bytes are inserted at the position |
| Buffers.Buffer.InsertFill | src/reactor/buffer.c:82-93 | `count` copies are inserted at the position |
| Buffers.RepeatMeans | src/reactor/buffer.c:82-93 | byte `k` of every copy is byte `k` of the data |
| Buffers.Buffer.Erase | src/reactor/buffer.c:95-99 | the bytes are removed from the position |
| Buffers.Buffer.Clear | src/reactor/buffer.c:101-105 | no contents and no capacity |
| Streams.Stream.SocketWrite | src/reactor/stream.c:46-65 | for every pattern of partial writes and refusals: bytes accepted followed by the output buffer equal everything queued, and output is left only if the descriptor refused it |
| Streams.Stream.Flush | src/reactor/stream.c:278-289 | conservation, output is left only if the descriptor refused it, and write interest is on if and only if output remains or a notification is pending |
| Streams.Stream.Update | src/reactor/stream.c:36-44 | the registered interest becomes the one the stream needs |
| Streams.Stream.Write | src/reactor/stream.c:265-268 | the bytes are queued behind the output |
| Streams.Stream.Allocate | src/reactor/stream.c:270-276 | room behind the output, which itself is unchanged |
| Streams.Stream.Consume | src/reactor/stream.c:260-263 | bytes are removed from the front of the input |
| Streams.Stream.Notify | src/reactor/stream.c:230-239 | a notification is pending; the interest follows if the stream is open |
| Streams.Stream.Close | src/reactor/stream.c:241-253 | both buffers are dropped; closing twice does nothing |
| Streams.Stream.SocketRead | src/reactor/stream.c:18-34 | exactly the bytes read are appended to the input, block by block until a read comes back short or would block |
| Streams.Stream.Callback | src/reactor/stream.c:67-95 | what each descriptor event dispatches, with conservation; after a writable event the interest is exact and a write is reported if and only if no output is left or a notification was pending; the other events change neither interest nor notification |
| HttpWriter.WriteRequest | src/reactor/http.c:57-88 | exactly the message is appended: the size formula is exact and the write position ends at the end of the space |
| HttpWriter.WriteResponse | src/reactor/http.c:103-127 | the same for responses with a date of 29 bytes |
| HttpWriter.RequestSizeExact | src/reactor/http.c:68-75 | the size formula of requests equals the length of the message for all inputs |
| HttpWriter.ResponseSizeExact | src/reactor/http.c:114-116 | the size formula of responses is off by exactly the difference of the date's length from 29 |
| HttpWriter.FieldPush | src/reactor/http.c:14-22 | name, colon, space, value and line ending at the write position |
| Wording.RequestWording | src/reactor/http.c:39-88 | the whole request as text: request line, Host, with a body Content-Type and Content-Length, empty line, body |
| Wording.ResponseWording | src/reactor/http.c:92-127 | the whole response as text: status line, Server, Date, Content-Type if there is one, Content-Length, empty line, body |
| RoundTrip.RequestRoundTrip | src/reactor/http.c:39-88 | writing then reading a request returns the same method, target and fields and leaves exactly the body and what follows, if and only if the inputs are well-formed and the reader has room |
| RoundTrip.ResponseRoundTrip | src/reactor/http.c:92-127 | the same for responses with a three-digit status and a reason |
| RoundTrip.LengthFieldExact | src/reactor/http.c:64-66 | the announced length is the body's length if and only if the body is below 2^32 bytes |
| RoundTrip.HeadersShape | src/picohttpparser/picohttpparser.c:263-339 | every named header of an accepted head has a token for a name and trimmed text without control bytes for a value |
| RoundTrip.RequestWords | src/picohttpparser/picohttpparser.c:354-366 | method and target of an accepted request are non-empty and free of spaces and control bytes |
| FieldLookup.FindField | src/reactor/http.c:24-35 | the value of the first field with that name |
| FieldLookup.EqualFromIsCaseless | src/reactor/http.c:30-31 | for names without zero bytes the comparison is equality of the lower-case forms |
| FieldLookup.SameNameMeans | src/reactor/http.c:30-31 | spelled out on the bytes: equal length, and at every position the same byte or the same letter in the other case |
| FieldLookup.RequestLookups | src/reactor/http.c:24-35 | in a request read back, every written field is found under its name with any letters in the other case, the body's fields only with a body |
| FieldLookup.ResponseLookups | src/reactor/http.c:24-35 | the same for the four fields of responses |
| Carving.CarvedStable | src/reactor/server.c:48-77 | heads cut from the received bytes stay cut the same way whatever arrives later |
| Carving.CarvedFromWholeStream | src/reactor/server.c:48-99 | the dispatched heads are the first heads of every stream that starts with the received bytes, all that the received bytes hold once the parser wants more, and all there will ever be once it rejects the rest |
| Server.SettledIsPipelined | src/reactor/server.c:48-99 | between events of any run, also after closing: the dispatched heads are the first of those carved from the stream, what went out is the start of the responses in order, a refusal by the parser means that no head is missing, and a connection is closed only by a refusal, by the application, or by a write or hang-up event; while open, at most one request is unanswered and consumed bytes plus input are the bytes received |
| Server.Session | src/reactor/server.c:79-115 | over every run of arrivals, stream events and application calls, the object is freed exactly when it is closed and every request handed out and every hold taken has come back, and it is not used afterwards |
| Server.SlowClient | src/reactor/server.c:101-115 | a connection with output left has write interest, and however the rest drains, it is closed by the event that takes the last byte and by no earlier one |
| Server.ServerRequest.Writable | src/reactor/stream.c:79-89 | a writable event closes the connection if and only if it empties the output; otherwise the rest stays queued with write interest |
| Server.ServerRequest.constructor | src/reactor/server.c:125-133 | one reference, held by the connection |
| Server.ServerRequest.ReadRequest | src/reactor/server.c:48-77 | one parse of the rest of the data: wait and change nothing else, hand out exactly the head found, or refuse, which writes 400, closes and leaves no request open; progress whenever it will be called again |
| Server.ServerRequest.Dispatch | src/reactor/server.c:70-73 | the head is consumed, recorded and handed out under a reference of its own |
| Server.ServerRequest.Handle | src/reactor/server.c:74-74 | the handler is called once with the head; any sequence of calls it may make keeps reference count, ledger and pipelining; the request is open afterwards unless it was given back |
| Server.ServerRequest.Update | src/reactor/server.c:79-99 | a complete head in the input is handed out, a malformed one refused, an incomplete one left with nothing else changed; the loop ends with no complete head left unless an answer is awaited or the connection is closed, with exact write interest and at most one open request; in other states it changes nothing |
| Server.ServerRequest.Callback | src/reactor/server.c:101-115 | a read event appends to the input and, if the connection waits for data, does with it what an update does; while an answer is awaited it does nothing else; a write event or a hang-up closes |
| Server.ServerRequest.Respond | src/reactor/server.c:271-286 | the answer is appended in order and exactly the given request or hold is given back; inside an update it only sets the state, outside it goes on with buffered input as an update does; it never closes by itself; the reference is given up last |
| Server.ServerRequest.BadRequest | src/reactor/server.c:298-307 | 400 is written and offered to the descriptor, which takes it all or refuses, and the connection closed, unless it was closed already; exactly the given request or hold is given back |
| Server.ServerRequest.Refuse | src/reactor/server.c:65-69 | a malformed head is answered with 400 through a reference of its own, which comes back before the return |
| Server.ServerRequest.Close | src/reactor/server.c:246-254 | closing gives up the connection's reference once |
| Server.ServerRequest.Release | src/reactor/server.c:261-269 | the object is freed exactly when the last reference goes |
| Server.ServerRequest.UserRelease | src/reactor/server.c:261-269 | exactly the given request or hold is given back, and the count follows |
| Server.ServerRequest.UserClose | src/reactor/server.c:246-254 | closing by the application is noted as the reason |
| Server.ServerRequest.UserBadRequest | src/reactor/server.c:298-307 | a 400 sent by the application is noted as the reason for closing |
| Reactor.QuietMeans | src/reactor/core.c:99-131 | in any history, between the deletion of a handler and a later event delivered to it a new batch was fetched |
| Reactor.Core.Open | src/reactor/descriptor.c:47-52 | the descriptor is registered with its mask and counted |
| Reactor.Core.ChangeMask | src/reactor/descriptor.c:54-60 | only that mask changes, and with it what the kernel watches the descriptor for |
| Reactor.Core.Close | src/reactor/descriptor.c:63-75 | the handler is unregistered, uncounted and absent from the rest of the batch, the event being dispatched included; closing twice does nothing |
| Reactor.Core.Scrub | src/reactor/core.c:104-106 | exactly the events of that handler, from the current one on, become events of the default handler without flags |
| Reactor.Core.DescriptorCallback | src/reactor/descriptor.c:19-31 | exactly the set flags are delivered, once each, in the order read, write, close; a first part of that if the handler was deleted meanwhile |
| Reactor.Core.UserCallback | src/reactor/core.c:113-116 | the handler's call is the delivery; whatever descriptors it opens, changes or closes, the count is the number of registrations and the batch holds no event for a deleted handler |
| Reactor.Core.LoopOnce | src/reactor/core.c:118-131 | one wait and, over the batch it reports with arbitrary callbacks: the deliveries are those the events ask for, in the order of the batch, cut short exactly where a handler was deleted, and no others; no event reaches a deleted handler |
| Reactor.Core.Loop | src/reactor/core.c:133-137 | every round waits once, no round waits after an abort or with nothing registered, and the loop ends before its limit only for one of these two reasons |
| Lists.Insert | src/reactor/list.c:88-101 | the new item stands before the given one in a proper ring |
| Lists.Link | src/reactor/list.c:95-98 | linking keeps a circular doubly linked ring |
| Lists.Unlink | src/reactor/list.c:126-127 | unlinking keeps a circular doubly linked ring of the others |
| Lists.Splice | src/reactor/list.c:103-120 | moves an item before another, within one ring or from one ring to another, or before a sentinel; onto itself it does nothing |
| Lists.MoveIsPermutation | src/reactor/list.c:103-120 | a move loses and duplicates nothing, arrives right before its target and changes nothing about the rest |
| Lists.Erase | src/reactor/list.c:122-133 | the item is unlinked and released |
| Lists.Clear | src/reactor/list.c:135-139 | terminates with the empty ring, each item released once, in order |
| Lists.Forward | src/reactor/list.h:4-4 | the forward walk visits the items in order |
| Lists.Backward | src/reactor/list.h:5-5 | the backward walk is the reverse of the forward walk |
| Lists.Find | src/reactor/list.c:143-150 | the first item that compares equal, or none |
| Lists.PushFront | src/reactor/list.c:78-81 | the new item becomes the first |
| Lists.PushBack | src/reactor/list.c:83-86 | the new item becomes the last |
| Strings.String.ReplaceAllData | src/reactor/string.c:186-203 | equals leftmost non-overlapping replacement; terminates also when the replacement contains the match |
| Strings.String.Replace | src/reactor/string.c:171-184 | only the leftmost occurrence is replaced |
| Strings.String.FindAt | src/reactor/string.c:128-134 | the leftmost occurrence from a position on; an empty match is never found |
| Strings.String.Insert | src/reactor/string.c:138-146 | the text with the data inserted, still zero-terminated |
| Strings.String.Erase | src/reactor/string.c:158-169 | the text without the erased part, still zero-terminated |
| Strings.String.Resize | src/reactor/string.c:93-99 | the text cut or extended, zero-terminated, in a new block only when it must grow |
| Strings.ReplaceRound | src/reactor/string.c:194-200 | after a round the finished part is never looked at again and the rest is shorter, which is why the loop ends |
| Replacement.ReplaceIsJoin | src/reactor/string.c:186-203 | replacement puts the new text between the pieces of the leftmost cut |
| Replacement.SplitJoins | src/reactor/string.c:186-203 | the pieces joined by the match are the original text |
| Replacement.SplitIsLeftmost | src/reactor/string.c:128-134 | no piece lets an occurrence start earlier than the one that ends it |
| Replacement.LeftmostIsSplit | src/reactor/string.c:128-134 | such a cut is unique |

## Left out

- TLS in streams and servers, and `net.c`: driven by OpenSSL and socket calls whose state is not visible.
- `async.c`, `resolver.c`, `timer.c`, `event.c`, `notify.c`: threads, name resolution, and thin wrappers of kernel objects.
- `server_shutdown` with requests in flight: it drops the connection's reference without entering the closed state, so the reference identity is stated for runs without it.
- Nested `reactor_loop_once` in a callback, signals, clocks and date strings.
- `hash.c`: the map's properties hold for any hash function.
- `maps.c`, `vector.c`, `data.c`, `pointer.c`: thin layers over modelled code.
- `phr_parse_headers`: header lines without a first line; its loop is the one proved in `ParseHeaders`.
- File input and output of strings, and arguments that alias the string being edited.
- Allocation failure, struct layout casts, and the narrowing of a parsed length to a C `int`.
- Sharing of the null string and of the list item's object bytes: a null string is an object of its own, an item carries a number.
- HashMap.Map.Insert: does not model key 0, which the table cannot tell from an empty slot.
- Server.ServerRequest.Dispatch: does not model the slices of method and target that point into the input buffer, which moves when the update ends.
- Reactor.Core.EpollWait: does not model that a kernel reports a descriptor at most once in a batch, because nothing depends on it.
- Reactor.Core.Loop: takes a limit on the number of rounds, because the loop of the source need not terminate.
