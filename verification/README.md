# Crankshaft, modelled and proved in Dafny

Crankshaft is a web server library in C. Around sockets, TLS, zlib and SQLite it has a number of
self-contained stateful algorithms. This project models those algorithms and proves what they
promise, for every input and every run.

The C code works in place, and so does the model: a structure whose fields the source updates is a
class, a buffer is an array, a chain is linked by fields, a loop is a loop. Each method is proved
against a specification on values (sequences, maps, trees), and the properties are lemmas about
those values and invariants the methods keep.

| files | what they model | main results |
|---|---|---|
| `PushPull` | the buffers of `src/pushpull.c` | each operation as an edit of the bytes held |
| `ChunkFormat`, `ChunkEncoder`, `ChunkDecoder`, `ChunkLanguage`, `ChunkPipeline`, `ChunkChain` | the chunked transfer codec of `src/http.c` (section 7.1 of RFC 9112, without the last CRLF) | the resumable encoder refines the format; the decoder does not depend on fragmentation, and the streams it accepts are exactly the messages of a grammar on bytes; a call of the encoder fails, a call of the decoder spins, exactly when a condition on their buffers holds; for any schedule and any buffers what is delivered is a prefix of the payload, and the whole of it exactly when no call of the encoder met the guard that ends the message early; driven as a pipe, the five stages deliver all of it |
| `PipeFlow`, `Pipe` | chains of NULL and LIMITED stages of `src/pipe.c` | bytes and order are conserved; the loop of a user, from any stage, ends exactly when the sink is no LIMITED stage or nothing is to come, and has room for what the limits let through; it then holds the payload up to the smallest limit |
| `JsonString`, `JsonNumber`, `JsonToken`, `JsonTree`, `JsonParse`, `JsonLanguage`, `JsonText` | strings, numbers, tokens and the language of `src/json.c`, on values | round trips; the exact language of the number scanner and of the parser, on tokens and on texts with their blanks |
| `JsonLayout`, `JsonNodes`, `JsonParser`, `JsonWalk`, `JsonPrinter`, `JsonFree`, `JsonEquivalent` | the linked tree: parser, printer, release and comparison, none of which uses a stack | the parser builds the tree of the value, well linked; the printer is the recursive print; release frees each allocation once; comparison is right exactly when the second tree is not the first cut short |
| `HashTable`, `StorageRuns`, `Storage` | `src/hashtable.c` and the hash table storage of `src/storage.c` | the table is a map under every operation, resizing included; optimistic locking over any run of any clients |
| `List`, `SlabAlloc`, `LinearAlloc`, `TempRing`, `Rounding` | `src/list.c` and the allocators | sorting, conservation of items, disjoint regions, replay after a reset |
| `Base64`, `WebSocketFrame`, `WebSocketBytes`, `WebSocket` | `src/base64.c`, `src/websocket.c` (section 4 of RFC 4648; sections 5.2, 5.3 and 5.7 of RFC 6455) | round trips, in place and over every fragmentation that brings each header field within one fill, the payload in any pieces; the exact lengths that survive; the exact bytes of a frame in both directions |
| `Helpers` | an option type and edits of sequences, which several of the others use | |

Parameters stand for what the model does not look into: where `CS_alloc` puts new memory, what the
clock says, how much a socket gives or takes at a time, the masking key. An operation under a mutex
is one atomic step.

Where the code and its documentation or its evident intent differ, the model follows the code:

* `MAX_CHUNK_SIZE_BYTES` says that six hexadecimal digits and CRLF fit eight bytes
  (`src/http.c:1205-1206`), but `snprintf` needs the eighth for its NUL: a size line of six digits
  loses its LF. `ChunkFormat.DecodeStream` gives the exact condition.
* The JSON parser accepts an object member without a value, as in `{"a":}` and `{"a":,"b":1}`, and
  drops it (`src/json.c:840-867`). `JsonLanguage.AcceptedLanguage` is the exact language;
  `JsonLanguage.ValueMissing` and `JsonLanguage.ValueMissingBefore` are these two texts.
* The number scanner accepts a fraction after the exponent's digits: `JsonLanguage.FractionalExponent`.
  Form feed is 14 (`src/json.c:25`): `JsonString.FormFeedIsFourteen`.
* `\/` scans but does not unquote; `JsonString.UnquotesExactly` says which texts do.
* A size line without any digit ends a message (`src/http.c:1256-1276`): `ChunkLanguage.DecoderLanguage` gives
  the exact language of the decoder.
* The chunk encoder takes an input that is dry at a chunk boundary for the end of the message, though
  more may come: `ChunkPipeline.CutShortExactly` and `ChunkPipeline.Pipeline.Run` say exactly when that
  cuts the payload short, `ChunkPipeline.Pipeline.EndTooSoon` gives a run.
* The loop of a decoding stage does not watch the room of its output:
  `ChunkDecoder.Decoder.Process` says exactly when it spins, `ChunkDecoder.SpinsOver` and
  `ChunkDecoder.SpinsAtOnce` are calls that do.
* The chunk encoder takes the flag of the stage before it for having no data, but a chunk decoder or
  copier sets that flag at the end of its message, over the bytes it still holds
  (`src/http.c:1268-1271`, `src/http.c:1380`): `ChunkEncoder.Encoder.Process` says exactly when the
  encoder fails, `ChunkEncoder.FailsBehindFlag` is a family of such inputs.
* `CS_jsonNodesEquivalent` answers yes for `[1,2]` and `[1]`, though not for `[1]` and `[1,2]`.
  `JsonEquivalent.EquivalentExactly` gives the exact condition.
* `CS_HASHTABLE_FLAG_PEDANTIC` alone already makes the table compare whole keys, since the test is
  for any bit of `CS_HASHTABLE_FLAG_VERY_PEDANTIC` and the one is part of the other.
* A put that loses has already incremented the cas of its own item (`src/storage.c:669`);
  `StorageRuns.BlindRetry` says when retrying with it overwrites an update unseen.
* `CS_linearTake` only logs an oversize request (`src/linearalloc.c:48`) and adds a slab before it
  refuses: `LinearAlloc.GrowsInVain`.
* A WebSocket payload of 126 bytes is announced as 126 but written without its length bytes
  (`src/websocket.c:333-354`); `WebSocketFrame.RoundTripExactly` gives the exact condition.
* A LIMITED stage as the sink of a pipe never says that it is empty once anything has come, because it
  holds what it let through, so the loop of its user does not end: `PipeFlow.EndsExactly`,
  `PipeFlow.SpinningRun`.
* The length and the key of a WebSocket frame are waited for with one fill only
  (`src/websocket.c:235-260`); `WebSocket.NextIncomingFrame` says exactly when that finds the frame.
* An item read before a removal may replace a version stored after it:
  `StorageRuns.OldIncarnation`.

## Model

| member | source | states |
|---|---|---|
| PushPull.PushPullBuffer.ReadFromBuffer | src/pushpull.c:136-147 | appends exactly the longest prefix of the source that fits; contents and room afterwards |
| PushPull.PushPullBuffer.WriteToBuffer | src/pushpull.c:149-163 | hands out exactly the oldest bytes; a buffer that becomes empty regains its whole room |
| PushPull.PushPullBuffer.RemoveChunk | src/pushpull.c:255-265 | cuts the bytes out of the middle of the data, or fails and changes nothing when there are not that many |
| PushPull.PushPullBuffer.MakeRoom | src/pushpull.c:267-276 | the contents stay, the room becomes all that is not data |
| PushPull.MoveBuffer | src/pushpull.c:286-297 | moves exactly as much as the destination takes: what the source loses is what the destination gains, in order |
| PushPull.MoveBufferExplicit | src/pushpull.c:299-324 | the same, for at most `max` bytes |
| ChunkFormat.HexDigitToInt | src/http.c:330-338 | exactly the bytes 0 to 9, a to f and A to F are digits; every other byte gives -1 |
| ChunkFormat.HexDigitIs | src/http.c:330-338 | the value of every byte, in the three literal ranges |
| ChunkFormat.HexCharIs | src/http.c:1349 | the digit of every value below 16, as a byte |
| ChunkFormat.HexIsNumber | src/http.c:1349 | the digits of a size are in lower case and, read positionally to the base 16, are the size |
| ChunkFormat.Split | src/http.c:1221-1321 | reading a stream in two pieces gives the phase and the payload of reading it at once, from any phase |
| ChunkFormat.SplitIndependence | src/http.c:1221-1321 | so does any sequence of fragments: where the decoder is suspended does not matter |
| ChunkFormat.StoppedByPrefix | src/http.c:1267-1271 | a decoder that has stopped inside a stream takes no notice of the rest |
| ChunkFormat.NothingBehind | src/http.c:1267-1271 | whatever follows a message, neither mode reads anything behind it; at the end exactly the message has been read, and a copying stage has passed it whole, a decoding one its payload |
| ChunkFormat.EndsLast | src/http.c:1228-1271 | only the last byte of a message ends it |
| ChunkFormat.SizeLineComplete | src/http.c:1346-1353 | the printed size line has its CRLF iff the size is below 0x100000 |
| ChunkFormat.ReadCutLine | src/http.c:1346-1353 | a size line of six digits, which has lost its LF, makes the decoder fail |
| ChunkFormat.ReadSizeLine | src/http.c:1231-1276 | a complete size line leads the decoder to a chunk of exactly that size, the zero line to the end |
| ChunkFormat.ReadChunk | src/http.c:1231-1317 | one chunk is decoded to its data, from boundary to boundary |
| ChunkFormat.DecodeChunked | src/http.c:1221-1321 | round trip of the format: decoding any payload in chunks of any size gives it back and stops at the end of the message |
| ChunkFormat.StreamIsChunked | src/http.c:1337-1414 | the encoder writes the intended format iff no chunk reaches 0x100000 bytes |
| ChunkFormat.DecodeStream | src/http.c:1337-1414 | decoding the encoder's stream gives the payload back iff the payload is empty, or the chunk size is not zero and no chunk reaches 0x100000 bytes |
| ChunkFormat.DecodeCutStream | src/http.c:1346-1353 | a stream that starts with a cut line is rejected before any payload comes out |
| ChunkLanguage.ReadMessage | src/http.c:1221-1321 | any chunks, their sizes in digits of either case and with any leading zeros, behind each a CRLF, and a last line of value zero are decoded to their data, whatever follows |
| ChunkLanguage.OnlyMessages | src/http.c:1221-1321 | a stream in which the decoder reaches its end starts with such a message, and what was decoded is its data |
| ChunkLanguage.DecoderLanguage | src/http.c:1221-1321 | both directions: the streams the decoder accepts are exactly those that start with a message of the grammar, in literal bytes |
| ChunkLanguage.TenBytes | src/http.c:1337-1414 | ten bytes, 16 wanted: a, CR, LF, the bytes, CR, LF, 0, CR, LF, and these are decoded to the bytes |
| ChunkLanguage.Send | src/http.c:1337-1414 | one call of the encoder with all the payload and room enough writes the stream |
| ChunkLanguage.Receive | src/http.c:1221-1321 | one call of the decoder on a whole message gives the payload |
| ChunkLanguage.SendTen | src/http.c:1337-1414 | the encoder writes that message of ten bytes, byte for byte |
| ChunkLanguage.ReceiveTen | src/http.c:1221-1321 | the decoder reads the ten bytes out of that message |
| ChunkEncoder.RefinesChunked | src/http.c:1337-1414 | at every suspension what was written is a prefix of the whole chunked stream with exactly the pending part missing; at the end it is all of it and the payload is consumed |
| ChunkEncoder.EndsWhen | src/http.c:1346-1377 | a call that writes what there is room for has begun the zero line iff what was pending, less the zero line, went into the room |
| ChunkEncoder.FailsBehindFlag | src/http.c:1380 | behind a stage that is flagged empty over bytes it still holds, an encoder at a boundary fails once its size line is out |
| ChunkEncoder.EmitsOn | src/http.c:1341-1412 | steps of the encoder compose: written bytes, consumed bytes and the image of the decoder all add up over suspensions |
| ChunkEncoder.EmitsBoundary | src/http.c:1346-1357 | a chunk size is announced that the input can still supply |
| ChunkEncoder.EmitsSomeLine | src/http.c:1358-1377 | any part of a size line may be written at a time; the zero line ends the message and nothing follows it |
| ChunkEncoder.EmitsSomeData | src/http.c:1378-1393 | any part of a chunk's data may be passed at a time; its CRLF becomes due with the last byte |
| ChunkEncoder.EmitsSomeCrlf | src/http.c:1394-1408 | any part of the CRLF may be written at a time, and the next chunk starts behind it |
| ChunkEncoder.Encoder.constructor | src/http.c:1420-1428 | starts at a chunk boundary; without a wanted size it is the buffer's less 16 |
| ChunkEncoder.Encoder.PrintSize | src/http.c:1344-1357 | prints the size line of the next chunk, unless that size has no line |
| ChunkEncoder.Encoder.SendLine | src/http.c:1358-1377 | writes a prefix of what is due of the line, all of it or until the output is full |
| ChunkEncoder.Encoder.SendData | src/http.c:1378-1393 | moves chunk data until the chunk is done or the output is full |
| ChunkEncoder.Encoder.SendCrlf | src/http.c:1394-1408 | writes what is due of the CRLF, all of it or until the output is full |
| ChunkEncoder.Encoder.Advance | src/http.c:1341-1412 | one state of the machine is a step of the format; in the data state the input still holds the rest of the chunk; whether the call is going to fail stays the same, until it does or stops |
| ChunkEncoder.Encoder.Process | src/http.c:1337-1414 | a call ends, writes exactly a part of the format, stops only when the output is full or the message done, and fails iff, within the room of the output, it comes to an unprintable size, or to chunk data while the stage before is flagged empty |
| ChunkDecoder.Rejected | src/http.c:1240-1314 | a wrong byte at a fixed place spoils the whole stream |
| ChunkDecoder.SpinPoint | src/http.c:1225-1297 | where a decoding stage comes to whose input holds more payload than there is room: the output full and more chunk data next |
| ChunkDecoder.SpinsOver | src/http.c:1277-1299 | a call on a chunk of more bytes than the output can hold spins |
| ChunkDecoder.SpinsAtOnce | src/http.c:1277-1299 | for one, on two bytes with room for one |
| ChunkDecoder.Decoder.ScanSize | src/http.c:1233-1247 | accumulates exactly the digits at hand, up to the CR, within the room of a copying stage; -1 iff a digit is bad |
| ChunkDecoder.Decoder.ReadSize | src/http.c:1231-1255 | the size digits, in any fragment, decoded or copied |
| ChunkDecoder.Decoder.ReadSizeLf | src/http.c:1256-1276 | the LF; size zero ends the message there |
| ChunkDecoder.Decoder.ReadData | src/http.c:1277-1299 | chunk data passes through as far as both buffers allow, then the CR is expected; without room inside a chunk nothing changes |
| ChunkDecoder.Decoder.ReadDataLf | src/http.c:1300-1317 | the LF behind the data, then the next size |
| ChunkDecoder.Decoder.Advance | src/http.c:1225-1319 | every turn of the loop consumes something or fails, and one that does neither leaves all as it is: that happens iff the stage decodes inside a chunk and its output is full |
| ChunkDecoder.Decoder.Process | src/http.c:1221-1321 | a call ends having read a part of the stream as the format says; copying passes exactly the message bytes read and nothing behind the end; it fails only on a malformed stream; it stops only at the end, without input, or without room when copying; it spins iff it decodes and its input holds more payload than its output has room for |
| ChunkPipeline.ArriveKeepsInv | src/http.c:1221-1414 | more payload arriving keeps the end to end invariant |
| ChunkPipeline.EncodeKeepsInv | src/http.c:1337-1414 | so does any step of the encoder |
| ChunkPipeline.CopyKeepsInv | src/http.c:1430-1432 | so does any step of a copying stage |
| ChunkPipeline.DecodeKeepsInv | src/http.c:1322-1324 | so does any step of the decoder |
| ChunkPipeline.DrainKeepsInv | src/http.c:1221-1414 | so does taking bytes out |
| ChunkPipeline.NeverMalformed | src/http.c:1221-1414 | in the invariant neither the copier nor the decoder ever meets a malformed message |
| ChunkPipeline.DeliveredPrefix | src/http.c:1221-1414 | what came out is always a prefix of the payload; when the decoder has reported the end it is the whole payload iff no data was left before the encoder when it ended the message |
| ChunkPipeline.StepCuts | src/http.c:1346-1357 | an action cuts the message short iff it runs the encoder, which does not fail, with room for all that is pending but for the zero line while more is to come |
| ChunkPipeline.CutShortExactly | src/http.c:1346-1357 | over a whole run the message is cut short iff some call of the encoder met that guard |
| ChunkPipeline.Pipeline.Encode | src/http.c:1337-1414 | behind a stage flagged empty or not: it fails exactly when the encoder does; else it writes exactly as much of what is pending as there is room for, and ends the message iff that is all but for the zero line |
| ChunkPipeline.Pipeline.Decode | src/http.c:1322-1324 | the decoder reads all there is, or ends, or spins, and spins iff its input holds more payload than its output has room for |
| ChunkPipeline.Pipeline.Run | src/http.c:1221-1414 | for any schedule of arrivals, encoding (the stage before flagged empty or not), copying, decoding and draining over buffers of any sizes: it is run up to the first decode step whose input holds more payload than the output has room for, in which the decoder spins, else to its end; what came out is a prefix of the payload, and when the decoder has reported the end it is the whole payload iff the message was not cut short to begin with and no call of the encoder met the guard that does so |
| ChunkPipeline.Pipeline.EndTooSoon | src/http.c:1346-1357 | a run that meets it: for any payload, an encoder run before any of it came ends the message, and the decoder reports the end with nothing delivered |
| ChunkChain.Moves | src/pipe.c:158-187 | a pass that has run the encoder and the copier has moved a byte or leaves something for the decoder |
| ChunkChain.Chain.constructor | test/test-chunk.c:92-104 | the five stages freshly hooked, the payload in the source |
| ChunkChain.Chain.Front | src/pipe.c:91-118 | from the decoder: the first stage behind the nearest empty one |
| ChunkChain.Chain.RunEncode | src/pipe.c:162-183 | the encoder is done or leaves bytes in its buffer, what it wrote is what is pending no more, and it is flagged empty only when nothing is left to write or pass on |
| ChunkChain.Chain.RunCopy | src/pipe.c:162-183 | the copier reaches the end, empties its input or leaves something for the decoder; no byte is lost, and the driver never flags it |
| ChunkChain.Chain.RunDecode | src/pipe.c:162-183 | the decoder reads all there is, or ends; it never spins in this chain |
| ChunkChain.Chain.RunSink | src/pipe.c:162-183 | the sink takes all that was decoded and is empty-flagged iff the decoder has ended |
| ChunkChain.Chain.Process | src/pipe.c:158-187 | one call of the driver keeps the end to end invariant and makes progress or the sink is flagged empty |
| ChunkChain.Chain.DoneOrError | src/pipe.c:288-300 | asked of any stage, tells whether the sink is flagged empty |
| ChunkChain.Chain.Pump | test/test-chunk.c:105 | the loop of the test ends with exactly the payload in the sink, for any payload, any legal chunk size and any sizes of the buffers between, the decoder's no smaller than the copier's |
| PipeFlow.TailMove | src/pipe.c:148-156 | a move between stages keeps the order of all bytes in the chain; only what lies between the two stages has grown |
| PipeFlow.DryMove | src/pipe.c:122-133 | a stage behind which nothing more can come stays so |
| PipeFlow.MoveKeepsInv | src/pipe.c:606-620 | a move keeps conservation (sink and all stages back to the source hold the payload, in order), the limits and the flags |
| PipeFlow.FlagKeepsInv | src/pipe.c:172-183 | flagging a stage empty keeps them: the flag is only set where nothing more can come |
| PipeFlow.LimitedSinkFlags | src/pipe.c:172-183 | a LIMITED sink is flagged only where nothing was to come at all |
| PipeFlow.PassProgress | src/pipe.c:158-187 | a pass over stages that have not flagged themselves, from a point that is pressed, moves a byte or flags a stage, if the sink is no LIMITED stage or nothing is to come, and has room for what the limits let through |
| PipeFlow.FrontIsPressed | src/pipe.c:91-118 | called from the sink, the stage the driver starts from has bytes waiting before it, or nothing more to wait for, and no stage behind it is empty |
| PipeFlow.FrontBefore | src/pipe.c:91-118 | called from any other stage, the driver does not start behind that one |
| PipeFlow.SinkHasRoom | src/pipe.c:606-626 | what the last buffer before the sink and the sink hold is within every limit, so a sink with room for what the limits let through can take it |
| PipeFlow.DriveOnce | src/pipe.c:158-187 | one call of the driver, from any stage, keeps the invariant, and makes progress until the sink says it is empty, if the loop can end at all |
| PipeFlow.SinkIsCapped | src/pipe.c:288-300 | a sink that is empty holds the payload up to the smallest limit on the way |
| PipeFlow.InitialChain | src/pipe.c:44-60 | a freshly hooked chain with the payload in its source is in the invariant |
| PipeFlow.LimitedSinkSpins | src/pipe.c:606-626 | for every chain with a LIMITED sink and every payload but the empty one, no turn of any run, from any stage, flags the sink empty |
| PipeFlow.EndsExactly | src/pipe.c:288-300 | for every chain and every stage it is driven from, the loop of a user ends iff the sink is no LIMITED stage or the payload is empty, and what the sink holds and can take is at least the payload up to the smallest limit |
| PipeFlow.SpinningRun | src/pipe.c:158-187 | a run that does not end: one byte, a fresh source and a LIMITED sink; the state it stays in for ever |
| PipeFlow.SmallSinkEnds | src/pipe.c:158-187 | a run that ends with a sink too small for the payload, behind a LIMITED stage that lets through what fits |
| Pipe.Hook | src/pipe.c:233-238 | links two stages in both directions, or refuses and changes neither |
| Pipe.NearestInBuffer | src/pipe.c:138-145 | finds the nearest stage before that has a buffer |
| Pipe.PipeEmpty | src/pipe.c:122-133 | asks the nearest stage with a buffer whether it is empty; nothing before counts as empty |
| Pipe.CopyFromNearest | src/pipe.c:148-156 | moves what fits from the nearest buffer and touches no other stage |
| Pipe.Limited | src/pipe.c:606-626 | moves no more than the rest of the share and returns just how much; -1 iff no stage before has a buffer |
| Pipe.Conclude | src/pipe.c:172-183 | flags the stage empty exactly when the source does |
| Pipe.FrontStage | src/pipe.c:91-118 | behind the last stage on the way back that is empty, the first one that is not; null if there is none |
| Pipe.PassOver | src/pipe.c:162-185 | the loop over the stages is the fold of the step of one stage, and returns what the last LIMITED stage among them has moved |
| Pipe.Process | src/pipe.c:158-187 | from any stage: the pass over the chain from its front, with no failure in a shaped chain, and what it returns |
| Pipe.DoneOrError | src/pipe.c:288-300 | asked of any stage, tells whether the sink is empty |
| Pipe.Turn | src/pipe.c:158-187 | processing from any stage and asking: the chain becomes what the specification says, and done tells whether the sink is empty |
| Pipe.Plan | src/pipe.c:158-187 | the turns of the loop, from any stage, up to the one that flags the sink, which then holds the payload up to the smallest limit |
| Pipe.Pump | test/test-chunk.c:49 | the loop of a user ends, from any stage, for any chain whose loop can end by EndsExactly and any buffers, and the sink then holds the payload up to the smallest limit |
| JsonString.QuoteString | src/json.c:75-116 | appends the quoted form of the first `len` bytes |
| JsonString.QuoteLength | src/json.c:75-116 | quoting never shrinks a text and grows it at most six times |
| JsonString.ScanQuoted | src/json.c:326-404 | finds the closing quote of the string, past every legal escape, or fails |
| JsonString.ScanText | src/json.c:326-404 | a scannable text between quotes is one token wherever it stands |
| JsonString.ScannableExactly | src/json.c:326-404 | the scanner closes a text at its end iff it consists of plain bytes, the eight short escapes and hexadecimal escapes of four digits of either case |
| JsonString.QuoteScans | src/json.c:75-116 | a quoted string of any bytes but NUL is one token that ends at the last quote |
| JsonString.HexOfControl | src/json.c:42-43 | the two digit tables spell every control byte in hexadecimal |
| JsonString.UnquoteUnit | src/json.c:915-992 | what the byte or escape at the head stands for and how long it is |
| JsonString.HexValueIs | src/json.c:48-56 | the value of every hexadecimal digit of either case, in numbers |
| JsonString.CodePointIs | src/json.c:58-73 | four digits are their value to the base 16 |
| JsonString.Utf8Reads | src/utf8.c:197-217 | read back by lead byte and six bits of each following byte, as section 3 of RFC 3629 says, the bytes of any code point below 0x10000 are that code point, and no shorter form is used |
| JsonString.TwoAndThreeBytes | src/utf8.c:197-217 | `\u00e9` unquotes to C3 A9 and `\u20ac` to E2 82 AC |
| JsonString.EscapesAre | src/json.c:915-992 | the byte of every short escape, and how the bytes are quoted that need it |
| JsonString.PlainIsKept | src/json.c:75-116 | every other byte is quoted as itself |
| JsonString.UnquotesExactly | src/json.c:915-992 | a text that scans unquotes iff it has no escape `\/` |
| JsonString.SlashDoesNotUnquote | src/json.c:915-992 | `\/` itself scans and does not unquote |
| JsonString.FormFeedIsFourteen | src/json.c:25 | the escape for a form feed unquotes to 14 |
| JsonString.UnquoteInto | src/json.c:915-992 | unquotes to another buffer or in place with the same result, because the write head never passes the read head |
| JsonString.UnquoteQuote | src/json.c:915-992 | round trip: unquoting a quoted string of bytes 1 to 127 gives it back |
| JsonNumber.AcceptsNumber | src/json.c:510-604 | the state machine accepts exactly the numbers: sign, no leading zero, fraction, exponent with an optional fraction |
| JsonNumber.FractionalExponentIsNumber | src/json.c:510-604 | `1e2.5` is a number here |
| JsonNumber.ScanDecides | src/json.c:510-604 | stopping early or at the end of the run, the state tells whether the whole run is a number |
| JsonNumber.ParseNumber | src/json.c:510-604 | succeeds iff the whole run of number characters is a number; FLOAT iff it holds a point or an exponent mark |
| JsonNumber.NumberCharsAre | src/json.c:510-604 | the characters of a run of number characters, in numbers |
| JsonNumber.NoLeadingZero | src/json.c:510-604 | no number starts, behind its sign, with a zero and another digit |
| JsonNumber.DigitsAreNumber | src/json.c:510-604 | digits that do not start with a zero are a number, with a minus before them or not |
| JsonToken.ParseWord | src/json.c:406-424 | recognises exactly the word |
| JsonToken.ParseNext | src/json.c:620-682 | skips blanks and gives the next token of the text, or the error or the end |
| JsonToken.TailToken | src/json.c:620-682 | a token does not depend on what stands before it |
| JsonToken.LexAt | src/json.c:620-682 | reading on from the middle of a text gives the rest of the tokens |
| JsonToken.LexQuoted | src/json.c:326-404 | a quoted text is one string token, whatever follows |
| JsonToken.LexNumber | src/json.c:510-604 | a number is one number token of the right kind, if what follows does not prolong it |
| JsonTree.LexValue | src/json.c:1169-1248 | what the printer writes for a value is read back as exactly its tokens, whatever follows |
| JsonTree.LexItems | src/json.c:1169-1248 | the same for the items of a container |
| JsonParse.TokenSound | src/json.c:620-682 | the text of a string token is scannable and that of a number token is a number |
| JsonParse.LexSound | src/json.c:620-682 | so are all tokens of a text |
| JsonParse.PushWellFormed | src/json.c:716-784 | pushing a token keeps what is parsed well formed: names in objects and only there |
| JsonParse.RunWellFormed | src/json.c:786-899 | so does the whole run of the parser |
| JsonLanguage.ParsesDoc | src/json.c:786-899 | a text that spells a document parses to what it means, dropping members without a value |
| JsonLanguage.RunReads | src/json.c:786-899 | a run that succeeds has read documents of the grammar |
| JsonLanguage.AcceptedLanguage | src/json.c:806-889 | the parser accepts a text iff its tokens spell a document of the grammar in which a member's value may be missing |
| JsonText.BlankSkipped | src/json.c:628-633 | each of the bytes 9, 10, 13 and 32 in front of a text leaves its tokens as they are |
| JsonText.BlanksSkipped | src/json.c:628-633 | so does any run of them |
| JsonText.NoToken | src/json.c:620-682 | a text that starts with any other byte that starts no token is broken |
| JsonText.LexText | src/json.c:620-682 | tokens written out with any of the four blanks before, between and behind them are read as those tokens |
| JsonText.OnlyTexts | src/json.c:620-682 | a text that is read to its end consists of tokens written out with such blanks, and of nothing else |
| JsonText.ParsesText | src/json.c:786-899 | a text made of the tokens of a document, with any blanks, parses to what the document means |
| JsonText.AcceptedTexts | src/json.c:786-899 | both directions, down to the bytes: the parser accepts a text iff it is the tokens of a document of the grammar with any blanks before, between and behind them |
| JsonText.Words | src/json.c:406-424 | `true`, `false` and `null` parse to what they say |
| JsonText.OnNewLine | src/json.c:628-633 | `[1]` on a new line parses to the array of 1 |
| JsonText.PrintSample | src/json.c:1169-1248 | the printed text of an object with an array of the three words, letter by letter |
| JsonLanguage.RoundTrip | src/json.c:786-899 | parsing the print of any well formed value gives the value back |
| JsonLanguage.TextRoundTrip | src/json.c:75-116 | any text of bytes 1 to 127, quoted, parses to a string that unquotes to the text |
| JsonLanguage.ParsePrintParse | src/json.c:786-899 | any accepted text yields a value whose print is accepted and stands for the same value |
| JsonLanguage.DropsLast | src/json.c:840-867 | an object whose only member has no value parses to the empty object, for any name |
| JsonLanguage.DropsFirst | src/json.c:840-867 | a member without a value before another one is dropped, for any names and any value of the other |
| JsonLanguage.ValueMissing | src/json.c:840-867 | `{"a":}` is the empty object |
| JsonLanguage.ValueMissingBefore | src/json.c:840-867 | `{"a":,"b":1}` has the member `b` only |
| JsonLanguage.FractionalExponent | src/json.c:510-604 | `1e2.5` parses to a float |
| JsonLayout.ScalarKeeps | src/json.c:716-784 | hanging a scalar keeps the layout of the unfinished tree and the waiting node |
| JsonLayout.StartKeeps | src/json.c:716-784 | so does starting a container |
| JsonLayout.CloseKeeps | src/json.c:176-194 | so does closing one: the node that waited in it waits behind it |
| JsonLayout.CutCounts | src/json.c:182-188 | the walk back along the siblings counts exactly the children |
| JsonLayout.NodeTells | src/json.c:716-784 | the node of any value in the tree tells its name and kind, a text and its length or the number of items, and where its first item is |
| JsonLayout.LinksAgree | src/json.c:150-174 | in a laid out tree every node's next, last, up and container links agree with those of its neighbours |
| JsonNodes.Arena.NewNode | src/json.c:135-148 | an unlinked node of unknown type |
| JsonNodes.Arena.NewNext | src/json.c:150-159 | a node behind another one, under the same container |
| JsonNodes.Arena.NewContained | src/json.c:161-174 | a node inside a node that contains nothing |
| JsonNodes.Arena.CutOff | src/json.c:178-188 | the waiting node is taken out of the container |
| JsonNodes.Arena.CountBack | src/json.c:184-185 | counts the children from the last to the first |
| JsonNodes.Arena.Rehang | src/json.c:189-193 | hangs the waiting node behind the container |
| JsonParser.PushScalar | src/json.c:716-784 | a scalar token becomes a node and the next node waits behind it |
| JsonParser.PushStart | src/json.c:716-784 | an opening bracket becomes a container and the next node waits in it |
| JsonParser.Close | src/json.c:176-194 | the container holds its items and their number, and the node waits behind it |
| JsonParser.PushToken | src/json.c:716-784 | pushes any token as the specification does, and fails exactly when it does |
| JsonParser.ReadMember | src/json.c:827-849 | reads a key, its colon and the token behind, or fails |
| JsonParser.Turn | src/json.c:806-869 | one turn of the loop is one step of the run over the tokens |
| JsonParser.RootTells | src/json.c:871-879 | the root's next node is the waiting one iff exactly one value is complete |
| JsonParser.Finish | src/json.c:871-889 | the tree is handed out, cut off from the waiting node, iff the input was one value |
| JsonParser.ParseJson | src/json.c:786-899 | for any input: fails iff the specification fails, else the linked nodes hold exactly the value it yields, item counts included |
| JsonParser.WellLinked | src/json.c:786-899 | in the parsed tree the links of every node and those of the nodes it points at agree |
| JsonWalk.StepDown | src/json.c:1181-1199 | going down from a node lands on its first child |
| JsonWalk.StepNext | src/json.c:1232-1245 | a next link leads to the next sibling, and is null only for the last |
| JsonWalk.StepUp | src/json.c:1232-1241 | behind the last sibling the up link leads back to the container, null only at the root |
| JsonPrinter.PrintHead | src/json.c:1176-1231 | prints a node, or opens it when there is something inside |
| JsonPrinter.Climb | src/json.c:1232-1245 | climbing prints exactly the brackets and commas that are due before the next node |
| JsonPrinter.PrintTree | src/json.c:1169-1248 | the printer without a stack ends and appends exactly the recursive print of the tree |
| JsonFree.Climb | src/json.c:243-244 | from any node the climb finds the root |
| JsonFree.Release | src/json.c:247-248 | a node gives up its allocation once |
| JsonFree.Onward | src/json.c:249-267 | the walk goes on to the next node in order, cutting containers it enters |
| JsonFree.Free | src/json.c:242-272 | the walk ends having released every allocation of the tree exactly once |
| JsonEquivalent.EqualIsEqual | src/json.c:1052-1142 | comparing finds two values equal iff they are |
| JsonEquivalent.BreaksOffIsCutShort | src/json.c:1052-1142 | it runs off the second tree iff the second is the first cut short |
| JsonEquivalent.EquivalentExactly | src/json.c:1052-1142 | the answer is yes iff the values are equal or the second is the first cut short |
| JsonEquivalent.EquivalentBothWays | src/json.c:1052-1142 | asked both ways round the answers decide equality |
| JsonEquivalent.NotSymmetric | src/json.c:1124-1141 | `[1,2]` passes for `[1]`, but not the other way round |
| JsonEquivalent.CompareNodes | src/json.c:1061-1122 | the fields that decide whether two nodes are the same |
| JsonEquivalent.ClimbBoth | src/json.c:1124-1139 | climbs in both trees together as the first one tells |
| JsonEquivalent.NodesEquivalent | src/json.c:1052-1142 | on two linked trees, exactly that answer |
| HashTable.ComputeHash | src/hash.c:10-17 | the loop computes the hash, wrapping at 32 bits |
| HashTable.HashIs | src/hash.c:10-17 | 27 and the bytes of the key as digits to the base 37, modulo 2^32, as a signed number |
| HashTable.HashOfAb | src/hash.c:10-17 | the hash of `ab` is 40650 |
| HashTable.Slot | src/hashtable.c:76-80 | C's remainder of a signed hash, made positive, is a bucket: the remainder of the absolute value |
| HashTable.PedanticIsVery | include/crankshaft/hashtable.h:29-30 | PEDANTIC alone makes the table compare whole keys |
| HashTable.Compare | src/hashtable.c:244-261 | zero iff the two keys are the same under the flags: whole keys when pedantic, else hashes |
| HashTable.ShapeAdd | src/hashtable.c:94-104 | a new entry at the head of its bucket keeps each identity in one entry, in the bucket of its hash |
| HashTable.ShapeDrop | src/hashtable.c:189-210 | taking an entry out of its chain keeps it |
| HashTable.MoveStep | src/hashtable.c:106-124 | one entry moved between the arrays keeps the half done state |
| HashTable.AllMoved | src/hashtable.c:106-124 | when all are moved the new array is the table of the same entries |
| HashTable.ListStep | include/crankshaft/hashtable.h:49 | iteration visits no entry twice and misses none |
| HashTable.Table.constructor | src/hashtable.c:20-60 | an empty map over the given number of buckets |
| HashTable.Table.InItsBucket | src/hashtable.c:76-92 | the entry of a key is in the bucket of the key's hash, whatever the flags tell keys apart by |
| HashTable.Table.Find | src/hashtable.c:76-92 | finds the entry of the key and the one before it, or tells that there is none |
| HashTable.InsertIntoArray | src/hashtable.c:94 | the entry becomes the first of its chain and no other chain changes |
| HashTable.Table.Insert | src/hashtable.c:96-104 | the map with the key added |
| HashTable.Table.Resize | src/hashtable.c:106-124 | another number of buckets, the same entries and the same map |
| HashTable.Table.Put | src/hashtable.c:130-143 | the map with the key set; the old value, or NULL, is returned |
| HashTable.Table.PutMaybe | src/hashtable.c:145-187 | the callback sees what is there, or the error sentinel; the map changes iff it decides to put; the answer is the one it decides on |
| HashTable.AnswerOf | src/hashtable.c:156-172 | the answer for each of the seven decisions |
| HashTable.Table.Remove | src/hashtable.c:189-210 | the map without the key; what was there, or the error sentinel, is returned |
| HashTable.Table.Get | src/hashtable.c:212-226 | the value of the key, or the error sentinel |
| HashTable.Table.GetKeys | src/hashtable.c:326-335 | lists every key of the map, each once |
| StorageRuns.AnyRun | src/storage.c:636-686 | whatever happens to a key, what is stored is the last of a history with cas 1, 2, 3, ... since the insertion |
| StorageRuns.CasNamesVersion | src/storage.c:636-665 | within an incarnation a cas names one version |
| StorageRuns.UpdateReplaces | src/storage.c:658-664 | an accepted update replaces exactly the version whose cas it carries and makes the next one |
| StorageRuns.UpdatesExactly | src/storage.c:658-664 | an update that carries a cas is accepted iff the cas is the number of versions since the insertion |
| StorageRuns.OneWinner | src/storage.c:658-664 | of all updates with the same cas at most one is accepted in an incarnation, none once there is a later version |
| StorageRuns.Frozen | src/storage.c:641-652 | after 2^32 versions nothing more is accepted while the item lives |
| StorageRuns.SeenExactly | src/storage.c:617-629 | what is there is seen iff its `expires` is 0 or later than now |
| StorageRuns.InsertedExactly | src/storage.c:636-657 | an insertion is accepted iff nothing is there or its `expires` is not 0 and not later than now |
| StorageRuns.FoundUntil | src/storage.c:617-629 | with a clock that does not go back, each of any number of looks finds the item iff the time has not reached its `expires` |
| StorageRuns.DoFaithful | src/storage.c:666-680 | a client that goes on from what it got back keeps holding a version of the history |
| StorageRuns.NoLostUpdate | src/storage.c:617-686 | however such clients interleave, none overwrites a version it has not seen |
| StorageRuns.BlindRetry | src/storage.c:669 | a client that retries with its own item, whose cas the lost put incremented, wins iff exactly one update came in between, which it overwrites unseen |
| StorageRuns.OldIncarnation | src/storage.c:658-664 | after a removal and any further operations, an item read before is accepted iff its cas is the number of versions stored since |
| StorageRuns.LostInsertion | src/storage.c:658-664 | so an insertion can be lost: read, removal, insertion by another client, put of what was read |
| Storage.CheckAccepts | src/storage.c:636-665 | the callback decides as the runs do: insertion iff nothing live is there, update iff the cas matches; who loses gets a copy |
| Storage.Storage.Update | src/storage.c:666-680 | the slot of the key changes as the runs say, other keys keep theirs, and the item's own cas is incremented whether it wins or loses |
| Storage.Storage.Get | src/storage.c:617-629 | a copy of what is stored iff its `expires` is 0 or later than now; what has expired is removed; other keys keep theirs |
| Storage.Storage.Remove | src/storage.c:681-686 | the key is gone; true iff it was not there |
| Storage.Storage.Put | src/storage.c:273-296 | an insertion that yields cas 1; refused, with a copy of what is there, iff the `expires` of that is 0 or later than now |
| Storage.Storage.GetEach | src/storage.c:617-629 | any number of gets, at times that do not go back, are looks of the runs |
| Storage.Storage.PutThenGet | src/storage.c:273-296 | an item that was put is what every get before its `expires` returns, and no get from then on |
| List.List.InsertBefore | src/list.c:130-149 | the sequence with the item put in before another, or as the head; next and prev mirror each other, head, tail and count are right |
| List.List.InsertAfter | src/list.c:109-128 | the same behind another, or as the tail |
| List.List.Remove | src/list.c:64-80 | the sequence without the item, whose own links are cleared |
| List.List.PushHead | src/list.c:158-165 | one more item in front |
| List.List.PushTail | src/list.c:167-174 | one more item at the end |
| List.List.PopHead | src/list.c:194-201 | the first item, and the sequence without it |
| List.List.PopTail | src/list.c:203-210 | the last item, and the sequence without it |
| List.List.GetByIndex | src/list.c:212-226 | the item at a place counted from either end, null outside |
| List.InsertOrdered | src/list.c:245-258 | one insertion keeps the order, and equal items in reverse order of arrival |
| List.List.Settle | src/list.c:245-258 | one turn puts the item before the first it does not come behind |
| List.List.Sort | src/list.c:240-262 | relinking the items in place is the recursive insertion sort of the sequence |
| List.SortingSorts | src/list.c:240-262 | for any total preorder the result is ordered, and equal items stand in reverse order of arrival |
| List.SortingPermutes | src/list.c:240-262 | for any comparison the result is a permutation |
| Rounding.Rounded | src/tempbuff.c:58-60 | the least multiple of the alignment that is not less |
| SlabAlloc.SameSize | src/slaballoc.c:65-69 | a slab added later has items of the same size, though it asks for the least alignment only |
| SlabAlloc.SmallSizes | src/slaballoc.c:65-69 | an item of 1 to 8 bytes takes 8, one of 9 to 16 takes 16 |
| SlabAlloc.AlignedIsItem | src/slaballoc.c:189-199 | the remainder test accepts exactly the items of the slab |
| SlabAlloc.KeptTake | src/slaballoc.c:146-163 | following the word in the first free item keeps the free list exactly the items nobody has |
| SlabAlloc.KeptReturn | src/slaballoc.c:202-203 | pushing an item back keeps it |
| SlabAlloc.SlabCount | src/slaballoc.c:49-63 | in every slab the free and the live items make up its capacity |
| SlabAlloc.KeptOutside | src/slaballoc.c:142-207 | what happens inside one slab leaves the free lists of the others alone |
| SlabAlloc.Slab.ResetItems | src/slaballoc.c:49-63 | all items are free, in their order, whatever was in them |
| SlabAlloc.SlabAllocator.constructor | src/slaballoc.c:65-125 | one slab with every item free |
| SlabAlloc.SlabAllocator.FindFree | src/slaballoc.c:144-162 | the first slab with a free item, or the last |
| SlabAlloc.SlabAllocator.Take | src/slaballoc.c:142-167 | an item of a slab that nobody has; the chain grows, by one, only if no slab has a free one |
| SlabAlloc.SlabAllocator.FindSlab | src/slaballoc.c:189-195 | the slab an address lies in, if it can be an item of one |
| SlabAlloc.SlabAllocator.Return | src/slaballoc.c:181-207 | a live item becomes free; anything that is no item is refused and changes nothing |
| SlabAlloc.SlabAllocator.Write | src/slaballoc.c:12-14 | a client may write over the link of an item it has: the allocator stays sound |
| SlabAlloc.SlabAllocator.Reset | src/slaballoc.c:133-140 | everything is free in every slab |
| SlabAlloc.SlabAllocator.Conservation | src/slaballoc.c:142-207 | free and live items make up slabs times capacity |
| LinearAlloc.AlignAligns | include/crankshaft/util.h:24-28 | the rounded address is a multiple of the alignment |
| LinearAlloc.TakeSound | src/linearalloc.c:37-63 | what is handed out is aligned, in bounds and apart from everything handed out since the reset |
| LinearAlloc.RunSound | src/linearalloc.c:37-63 | over any run of requests all that was handed out is aligned as asked for, in bounds and apart from everything else |
| LinearAlloc.RecordsResults | src/linearalloc.c:46-63 | every address the run answers with is among those, with the size and the alignment asked for |
| LinearAlloc.TakeGrows | src/linearalloc.c:46-63 | a request adds at most one slab; oversize ones are refused, and what fits an empty slab is served when the chain may grow |
| LinearAlloc.GrowsInVain | src/linearalloc.c:46-63 | a request larger than a slab is refused, but a slab has been added |
| LinearAlloc.ReplayStep | src/linearalloc.c:46-63 | a request on a chain that already has the later slabs gets what it got when they were added |
| LinearAlloc.Replay | src/linearalloc.c:78-83 | after a reset the same requests get the same addresses, even though the chain has grown |
| LinearAlloc.Ends | src/linearalloc.c:50-62 | one turn of the search settles the request or goes on one slab |
| LinearAlloc.Slab.PrivateTake | src/linearalloc.c:37-44 | hands out the aligned address and moves the slab on, iff the request fits |
| LinearAlloc.LinearAllocator.Take | src/linearalloc.c:46-63 | the search along the chain is the specification's request |
| LinearAlloc.LinearAllocator.Reset | src/linearalloc.c:78-83 | every slab is empty, none is given back |
| TempRing.TempBuffer.Allocate | src/tempbuff.c:57-70 | the rounded request is placed where the ring stands if it ends within the ring, else at the start; refused only when larger than the ring |
| TempRing.LastPlace | src/tempbuff.c:62-66 | where the last of a run of requests can lie relative to a place the ring has passed |
| TempRing.NoOverlap | src/tempbuff.c:57-70 | two allocations do not overlap if the sizes from the first through the second sum to at most the ring less the largest request behind the first, wraps included |
| Base64.RoundTrip | src/base64.c:73-160 | decoding what was encoded gives it back, for every nonempty byte string |
| Base64.EncodedLength | src/base64.c:65-67 | the output has exactly the length announced |
| Base64.BlocksLength | src/base64.c:119-131 | decoding yields three bytes for four letters less the padding |
| Base64.ShiftsAre | src/base64.c:94-100 | the shifts over a word of three bytes are its four sextets |
| Base64.OctetsAre | src/base64.c:139-146 | the shifts over a word of four sextets are its three bytes |
| Base64.LetterIs | src/base64.c:13 | the letters A to Z, a to z, 0 to 9, plus and slash stand for 0 to 63, and the padding is the equals sign |
| Base64.SextetIs | src/base64.c:14-63 | the value every byte is decoded to, 0 for what is no letter |
| Base64.SameNumber | src/base64.c:94-100 | four letters, read as digits to the base 64, are the three bytes as one number |
| Base64.Vectors | src/base64.c:73-117 | the test vectors of section 10 of RFC 4648 for one, two, three, four and six bytes |
| Base64.EncodeInto | src/base64.c:73-117 | writes the encoding when it fits and nothing when it does not |
| Base64.DecodeFour | src/base64.c:138-147 | four letters become three bytes, also in the same buffer, and the letters not yet read are intact |
| Base64.DecodeLast | src/base64.c:148-159 | the last four letters with their padding |
| Base64.DecodeInto | src/base64.c:119-160 | decodes to another buffer or over the letters themselves with the same result; refuses a bad length or too little room and then changes nothing |
| WebSocketFrame.MaskedTwice | src/websocket.c:273-279 | masking twice gives the payload back, from any place in it |
| WebSocketFrame.ParseParts | src/websocket.c:193-302 | a stream made of the parts of a frame is read part by part, and just the rest is left |
| WebSocketFrame.ParseWire | src/websocket.c:305-391 | a pushed frame of a sendable length is parsed to its fields, with the payload the mask hides |
| WebSocketFrame.RoundTrip | src/websocket.c:127-156 | a frame that was made, pushed and parsed has kept its kind and payload, masked or not |
| WebSocketFrame.RoundTripExactly | src/websocket.c:333-359 | whatever follows in the stream, payload and rest come back iff the length is up to 125 or from 127 to 65535 |
| WebSocketFrame.TooShort | src/websocket.c:283-293 | a stream without the whole payload holds no frame |
| WebSocketBytes.XorDiffers | src/websocket.c:273-279 | a masked byte has just those of its eight bits set in which the byte and the key differ |
| WebSocketBytes.MaskedAt | src/websocket.c:273-279 | each byte of the payload is masked with the byte of the key at its place modulo 4 |
| WebSocketBytes.SentExactly | src/websocket.c:325-391 | the bytes of a frame, in numbers: 128 for final plus the opcode, 128 for masked plus the short length, the long length with its most significant byte first in two or eight bytes, key and payload where they follow; no other bytes are sent |
| WebSocketBytes.ReadBits | src/websocket.c:213-231 | the bits of any two bytes: 128 final, 64, 32 and 16 reserved, opcode below 16; 128 masked, length below 128 |
| WebSocketBytes.ReceivedExactly | src/websocket.c:193-302 | a frame is found in exactly the streams that hold one whole with a length of up to 65535, and flags, opcode, payload and rest are those at their places in it |
| WebSocketBytes.TextFrame | src/websocket.c:305-391 | a final text frame of up to 125 bytes is 129, its length and its text, sent and received |
| WebSocketBytes.MaskedTextFrame | src/websocket.c:305-391 | under a mask it is 129, 128 plus its length, the key and the masked text |
| WebSocketBytes.HelloFrames | src/websocket.c:193-391 | the two text frames of section 5.7 of RFC 6455, sent and received |
| WebSocket.CreateFrame | src/websocket.c:127-156 | a final frame whose payload is masked with the key when asked |
| WebSocket.Unmask | src/websocket.c:275-278 | the loop takes the mask off from any place of the payload |
| WebSocket.StartComes | src/websocket.c:196-204 | the first two bytes come, in at most two fills, iff they were sent and the buffer has room for them |
| WebSocket.GenerousHeader | src/websocket.c:196-260 | where the first four fills could each bring a whole field, every header field comes; later fills do not matter |
| WebSocket.Incoming.AwaitStart | src/websocket.c:196-204 | the first two bytes, by as many fills as they take; if they do not come, whether the peer has gone or is waited for in vain |
| WebSocket.Incoming.AwaitLength | src/websocket.c:235-248 | the length bytes are there iff one fill brings what is missing of them |
| WebSocket.Incoming.AwaitKey | src/websocket.c:250-260 | the key is there iff one fill brings what is missing of it, else it is lost |
| WebSocket.Incoming.AwaitPayload | src/websocket.c:267-294 | the payload in any fragments, with its mask taken off, or the stream has ended before it |
| WebSocket.NextIncomingFrame | src/websocket.c:193-302 | a frame it returns is the first of the stream, and exactly the rest is left; it finds one iff the stream starts with a frame and each field of its header comes within one fill, in whatever pieces the payload comes; and exactly when the source would wait for ever or read length bytes that have not come |
| WebSocket.Outgoing.PushHeader | src/websocket.c:325-363 | the header, field by field, is the header of the frame, whose bytes WebSocketBytes.SentExactly gives |
| WebSocket.Outgoing.PushPayload | src/websocket.c:365-385 | the payload is written whole, whatever the socket takes at a time |
| WebSocket.Outgoing.PushFrame | src/websocket.c:305-391 | what is written or waits to be is exactly the frame behind what was there |
| WebSocketBytes.Sent | src/websocket.c:305-391 | all that the socket has got and the buffer still holds of one frame, at any rate |
| WebSocketBytes.Received | src/websocket.c:193-302 | any stream that holds a frame gives it, if the first four fills can bring a whole field each |
| WebSocketBytes.SendHello | src/websocket.c:305-391 | at any rate of the socket the masked frame of the standard goes out byte for byte |
| WebSocketBytes.ReceiveHello | src/websocket.c:193-302 | and is received as a final text frame with its five letters, whatever comes behind it |

## Left out

- Sockets, TLS, files, threads, mutexes, logging, zlib, SQLite, OpenSSL and token verification: foreign code or input and output.
- Out of memory: every allocation succeeds.
- HTTP requests and replies, file serving and the chunk reader inside the request parser (`privateContinueChunked`, `src/http.c:714-782`, whose offset is not corrected for the two bytes it removes).
- Stages of a pipe other than NULL, LIMITED and the chunk stages, and the error and FRAGILE flags: in the chains of `Pipe` and `ChunkChain` no stage fails, and a run of `ChunkPipeline` goes on behind a call of the encoder that fails as its schedule says.
- ChunkChain.Chain.Pump: the stages stand at fixed places instead of being linked, the source holds the payload from the start, the sink has room for it, and the decoder's buffer is no smaller than the copier's, without which the decoder may spin.
- Pipe.Pump: a LIMITED sink with a payload to come, or a sink without room for what the limits let through, is not driven, since that loop does not end (`PipeFlow.EndsExactly`).
- ChunkDecoder.Decoder.Process: the chunk size accumulator is taken not to overflow an `int32_t`. Where the source spins, the method stops and says so.
- JsonParser.ParseJson: the parse that copies its strings; the one that keeps them in the caller's text is not modelled, nor is the release of what a failed parse has built. The root's `last`, which the source does not set, is NULL.
- JsonString.QuoteString: bytes of 128 and above, for which the source indexes its tables with a negative number.
- JsonString.UnquoteQuote: the same bytes, and NUL, which ends a text.
- JsonPrinter.PrintTree: from the root of a tree, and without the node types that only editing makes (unquoted, allocated, native integer and float). Tree editing and paths.
- JsonEquivalent.NodesEquivalent: from the roots of two parsed trees, not from nodes inside them.
- JsonFree.Free: the linear allocator the nodes lie in, which the source frees at the end.
- JsonNodes.Arena.NewContained: only for a node that contains nothing, which is how the parser calls it.
- The hash table with UUID keys. The slab its entries come from: a removed entry is not given back to it.
- HashTable.Table.constructor: a capacity of zero, by which the source would divide.
- HashTable.Table.Resize: the same.
- Storage.CheckAccepts: a cas that is not zero for a key that is not there, as in the next line.
- Storage.Storage.Update: an update whose cas is not zero needs its key to be present, because the source follows the error sentinel of the table as a pointer where it means to return an error (`src/storage.c:656`, `src/hashtable.c:151`).
- Storage.Storage.Get: two accesses of the table in one method; over runs the removal of an expired item is a step of its own.
- SlabAlloc.SlabAllocator.Return: an item that was returned already may not be returned again; the source does not notice it.
- SlabAlloc.SlabAllocator.constructor: at least one item, and an alignment that is a multiple of the least one.
- List items with their data copied behind them, and the slab they come from.
- TempRing: the global ring of a thread and the string helpers over it.
- Base64.DecodeInto: the empty input, for which the source reads before the buffer. The URL alphabet.
- Base64.EncodeInto: the empty input, for which the source writes four letters where none are asked for.
- WebSocket.NextIncomingFrame: a connection on which the source waits for ever, or reads length bytes that have not come, has the outcome `Stuck` here. Errors of the socket, fragmented messages and the opening handshake are not modelled.
- WebSocket.Outgoing.PushFrame: the buffer has room for a header once it is empty.
- Stack, string builder, UUID text, percent codec, MIME table, command line, cache and HTML builder: easy members.
