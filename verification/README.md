# ENZO, modelled and proved

ENZO is an agreement-based codec for HTTP traffic. An encoder reads requests from a client,
normalises each to Content-Length framing, cuts header and body into pieces, and puts them on a
wire as RAW, DEFINE and REF frames while it learns `[CONST_A][VAR][CONST_B]` templates. A decoder
replays the frames with its own template table, reassembles each request, and writes it to the
backend. This project models both ends, the wire between them, the HTTP reader, and the memory
and learning structures beside them, and proves what they promise.

The main results:

- **Byte-exactness of whole runs** (`Divergence.ByteExactExactly`, `ByteExact`, `Sessions`,
  `Framing`, `Agreement`). For every client byte stream with body keys below 64 KiB, and header and
  body templates under different ids, the decoder writes exactly the normalised, dechunked
  requests, each once and whole, if and only if two conditions hold that the code leaves unwritten:
  every request line declares no length, or one that the body reaches with its last piece; and
  every reference goes out under an id that belongs to its own template. Both restrictions are
  needed: `MendedRun` and `LongKeyRun` each lift one of them, and follow a client's bytes through a
  run whose wrong references cancel out. Each condition is also proved exact by itself, without the
  restrictions: `ByteExact.RunExactly` has the first for every faithful run,
  `Agreement.RunSurvives` the second for every run, piece by piece. On faithful runs with honest
  request lines the wire may be cut anywhere (`ByteExact.CutRunIsPrefix`). `WrongRuns` follows one
  client stream for each way to fail through both machines to what goes wrong.
- **Dictionary agreement with no assumption on the ids** (`EncoderSpec`, `ByteExact.AnyIdsAgree`), and
  **delayed promotion from outside**: from the bytes of a piece and of those before it to its frames
  (`Promotion`). One list of pieces, and no other, factors a line (`Factoring`).
- **The wire cost**, as an equation, and its bounds (`WireCost`, `WorstCase`). For every id function
  the wire carries at most the truth bytes, a frame header per piece and 25 bytes per definition,
  and a definition needs three pieces; three pieces attain it (`Limits.WorstCaseAttained`). Where
  ids tell templates apart, they pay for themselves.
- **The HTTP reader inverts the wire form** of bodies with a Content-Length or in chunks, sections
  6.3 and 7.1 of RFC 9112 (`HttpRequest`); what it accepts is exactly a stated grammar
  (`ChunkGrammar.RequestExact`), and a stream may be cut anywhere (`CutInput`). Two forms the RFC
  allows are refused by the code: blanks before a chunk extension (`SpacedChunkRead`), and a request
  with neither field, which the RFC gives an empty body (`UnsupportedExactly`). **Normalisation
  preserves meaning** (`Normalizer`), and the value of every field it is not about (`Preservation`).
- **The guarded-LRU cache evicts exactly**, keeps its account, and is deterministic
  (`MemoryDictionary`); its two clocks are the history of its operations (`Recency`).
- **The window is the end of history**, and the learner's bounds and offsets agree with it
  (`RawWindow`, `Encoder`, `Link`).

How it is laid out. Pure modules say what a run is: `Bytes`, `Numbers`, `Protocol`, `Splitter`,
`HttpRequest`, `EncoderSpec`, `DecoderSpec`, `Framing`. `Layout`, `FieldGrammar`, `ReadErrors`,
`FrameMeaning`, `Factoring` and `Promotion` say the same once more with every byte, number and
condition written out. Imperative modules follow the code's own
loops, cursors and in-place updates and are proved against them: `Streams`, `FrameIo`, `TemplateCodec`,
`HttpReader`, `Encoder`, `Decoder`, `RawWindow`, `MemoryDictionary`, `Learning`, `Extract`,
`PromotedDictionary`. `Link` runs an encoder and a decoder back to back. `Sorting` and `Sums` hold
what is needed about sorted listings and order-free sums. `Limits`, `WrongRuns`, `MendedRun` and
`LongKeyRun` hold the concrete inputs on which a hypothesis fails; `Requests` says what becomes of
such an input on its way.

Choices worth knowing:

- The template id (`templateIDFor`) and the pattern key (`makePatternKey`) are function parameters
  about which nothing is assumed; a theorem that needs the ids apart says so.
- Integer widths are explicit where they matter: 16-bit lengths and ids, 32-bit counters, ids and
  byte accounts. Tick and offset counters of 64 bits are unbounded.
- A Go slice panic in a payload parser, and an allocation over the address space in the chunk
  reader, are outcomes of their own.
- Map iteration order is a nondeterministic choice, and `sort.Slice` is known by its result; the
  state-changing methods are still proved to have results that do not depend on either, or to
  satisfy a relation that says which choices remain.
- The cache's tie-break on equal use times is not modelled: no two use times are ever equal
  (`MemoryDictionary.RunKeeps`).

## Model

| member | source | states |
|---|---|---|
| Divergence.ByteExactExactly | internal/state/encode_v1.go:70-146 | Byte-exactness, exactly: with body keys below 64 KiB and header and body templates under different ids, the decoder ends cleanly having written each accepted request once and whole, and likewise with nothing pending beside that, if and only if every request line is honest and every piece of the run is faithful; MendedRun and LongKeyRun show that neither hypothesis can go |
| MendedRun.MendedRunIsExact | internal/state/encode_v1.go:391-433 | Two client requests that arrive exactly, each once and whole with nothing pending, with short keys and honest request lines, although the run is not faithful: a header template answers for a body key and the next header makes up for it |
| LongKeyRun.LongKeyRunIsExact | internal/protocol/template.go:30-109 | One client request that arrives exactly, with nothing pending and header and body templates under different ids, although the run is not faithful: the definition of a 65537-byte key is read as that of a one-byte key, and a later key makes up for it |
| ByteExact.RunExactly | internal/state/encode_v1.go:70-146 | For every faithful run: the decoder ends cleanly having written each accepted request once and whole if and only if every request line is honest, that is, declares no length, or one the body reaches with its last piece and not before; and then nothing is pending |
| ByteExact.RunIsByteExact | internal/state/encode_v1.go:70-146 | For every client byte stream whose accepted requests have honest request lines and whose pieces are all faithful, a fresh decoder reading the encoder's bytes ends cleanly with nothing pending, holds the encoder's dictionary, and has written exactly normalised header ++ body of every accepted request, one write per request |
| ByteExact.InjectiveRunIsByteExact | internal/state/encode_v1.go:376-434 | Byte-exactness under plain hypotheses: honest request lines, body keys below 64 KiB, and a template id function that keeps the templates of the run apart; the bound on header constants follows from the 64 KiB header limit |
| ByteExact.SentIsDelivered | internal/state/encode_v1.go:70-146 | From client to backend: any list of valid requests with honest request lines and body keys below 64 KiB, in either framing and with any chunking, sent down one connection under an id function that keeps the templates of the run apart, comes out as exactly their normalised headers and bodies, in order |
| ByteExact.CutRunIsPrefix | internal/state/decode_v1.go:114-209 | On a faithful run with honest request lines, however the wire is cut, the decoder has written a whole number of leading requests, exactly those whose frames all arrived, and reports no protocol error: the end is clean at a frame boundary and right after a bare frame header, and a truncated frame everywhere else |
| ByteExact.AnyIdsAgree | internal/state/decode_v1.go:163-187 | With body keys below 64 KiB and ids colliding in any way: the decoder's table is always what the frames define, equals the encoder's at the end, and the only error it can meet is a missing Content-Length |
| ByteExact.EncoderNeverFails | internal/protocol/frameio.go:29-62 | For every input and every id function, the writer refuses no frame of a run |
| ByteExact.HeaderShort | internal/httpio/http_request_body.go:63-68 | Header templates fit their 16-bit length fields, because the whole header is within the limit |
| Sessions.RunDecodes | internal/state/decode_v1.go:114-209 | The run invariant: on a faithful run of framed messages (the exact condition, see RunDecodesExactly), after any number of frames the decoder is error-free and has flushed exactly the messages whose frames are all in, each once and whole, at its last frame; at the end both dictionaries are equal and nothing is pending |
| Sessions.RunDecodesExactly | internal/state/decode_v1.go:114-209 | Over the wire, a faithful run of messages whose headers end properly and declare some length is written message by message, each once and whole, if and only if every message is framed |
| Sessions.RunPushesExactly | internal/state/decode_v1.go:38-112 | The same for the reassembly alone: pushing the pieces of such messages writes them one by one if and only if every one is framed |
| Sessions.FramedExactly | internal/state/decode_v1.go:83-104 | A normalised request ends its header where the decoder looks and declares some length; it is framed if and only if its request line declares no length, the right one, or a shorter one first reached with the last piece of the body |
| Framing.PushesExactly | internal/state/decode_v1.go:38-112 | With whatever length the header declares, pushing the pieces of a message writes it once, whole, with nothing pending, if and only if the message is framed: the length is the body's, or shorter but past the start of the last piece |
| Framing.FramedAtEveryCut | internal/state/decode_v1.go:38-45 | Framed says of every cut: each proper front of the pieces falls short of the bytes the decoder awaits, and all of them together do not |
| Framing.WritesGrow | internal/state/decode_v1.go:38-81 | Nothing written is taken back, and the next write is longer than what is pending now |
| Framing.MarkerInPrefix | internal/state/decode_v1.go:91-104 | While the header is still incomplete in the buffer the end marker is not found, and from then on it is found at the end of the header |
| Sessions.RunPartition | internal/state/encode_v1.go:109-142 | All pieces of a run, in order, concatenate to the truth stream, and each has the shape of its splitter |
| Sessions.AcceptedSmall | internal/state/encode_v1.go:77-94 | Every accepted request normalises to a header at most 26 bytes over the limit, and header and body each fit one frame |
| Agreement.PieceSurvives | internal/state/encode_v1.go:391-433 | One piece reaches the decoder's reassembly buffer intact, with both tables equal, if and only if it is faithful: lengths fit 16 bits and the id's template is its own |
| Agreement.RunSurvives | internal/state/encode_v1.go:376-434 | A run of pieces of the splitters' shapes delivers every piece by its own frames if and only if it is faithful, at any length and from any agreeing state |
| Agreement.ExpansionInjective | internal/state/encode_v1.go:227-244 | Two templates of the shapes the splitters produce expand one lane to the same bytes only if they are the same template, even one from a header and one from a body |
| Agreement.InjectiveRunFaithful | internal/state/encode_v1.go:438-443 | If the id function is injective on the templates of a run and their constants fit 16 bits, every piece of the run is faithful |
| Agreement.MessageDecodes | internal/state/decode_v1.go:31-112 | On a faithful run of pieces of one message, of which only the last brings the bytes awaited, cut after any number of frames: nothing is flushed before its last frame, and at its last frame exactly the message is |
| Agreement.RunIsPushes | internal/state/decode_v1.go:129-194 | Decoding the frames of any run is pushing, piece by piece, whatever they deliver, faithful or not |
| Divergence.DataFollows | internal/state/encode_v1.go:376-434 | For templates of the splitters' shapes with constants that fit 16 bits, header and body under different ids: the decoder's data is the truth stream if the run is faithful, and otherwise neither is a front of the other |
| Divergence.NoMending | internal/state/encode_v1.go:227-244 | Two templates of one kind that expand one lane to comparable streams, whatever follows, are the same template: wrong bytes are never made up later |
| EncoderSpec.DictionariesAgree | internal/state/encode_v1.go:395-433 | Simulation with no assumption on the id function, for templates whose constants fit 16 bits: after every piece the decoder's table is the encoder's, a template is defined exactly when its id is marked so, and no frame is malformed or refers to an undefined id |
| EncoderSpec.RefNeverBeforeDefine | internal/state/decode_v1.go:174-182 | Cutting an encoder run after any frame, when all constants fit 16 bits, the decoder never meets a reference before its definition: only a missing Content-Length can stop it |
| EncoderSpec.DefinedOnce | internal/state/encode_v1.go:410-425 | No id is defined twice in a run, and the ids defined are exactly those the dictionary gained |
| EncoderSpec.PromotionRule | internal/state/encode_v1.go:20-31 | Delayed promotion stated on the history alone, for every segment and every history, past 2^32 hits and oversized definitions included, with the gate, the threshold and the sizes written out: the first two hits go out raw, a later one refers if the id was defined before, defines and refers if not and the definition fits a frame, and else goes out raw; a reference gives way to raw bytes unless it fits and is shorter |
| Promotion.GateExact | internal/state/encode_v1.go:391-394 | A segment leaves a trace in the encoder if and only if its constants together are longer than its lane; otherwise it is one RAW frame from any state |
| Promotion.RawGoesOut | internal/state/encode_v1.go:189-225 | A piece that is no segment is one RAW frame from any state and changes nothing |
| Promotion.AloneRule | internal/state/encode_v1.go:395-433 | A template alone under its id, counted by sight: raw twice, then definition and reference, then references, raw again where the reference would be no shorter, and always raw when the lane outweighs the constants or the definition is over the limit |
| Promotion.AloneDefined | internal/state/encode_v1.go:404-425 | Such a template was defined before if and only if it has been seen three times and its definition fits a frame |
| EncoderSpec.DefinedIs | internal/state/encode_v1.go:408-419 | An id is marked defined exactly when some earlier piece with it came third or later and its definition fitted a frame |
| EncoderSpec.EmitAllReflects | internal/state/encode_v1.go:395-419 | After any history every counter is the number of gated pieces with that id modulo 2^32; defined implies at least three hits, and when every definition fits a frame three hits imply defined |
| EncoderSpec.EmitAllWritable | internal/protocol/frameio.go:29-50 | Pieces within the frame limit give only frames the writer accepts |
| EncoderSpec.DefineEffect | internal/state/decode_v1.go:163-172 | The decoder's table takes a definition exactly, when its lengths fit 16 bits |
| EncoderSpec.RefEffect | internal/state/decode_v1.go:174-189 | The bytes a reference feeds: its template around the lane cut to its 16-bit length |
| WireCost.RunCostExact | internal/state/encode_helpers.go:45-54 | For any id function the wire costs exactly the truth bytes, 8 bytes a piece, and 20 bytes plus both constants for each definition, less both constants minus 5 for each reference sent |
| WireCost.AmortisedCost | internal/state/encode_v1.go:395-433 | With injective ids, three times the wire bytes are at most four times the truth bytes plus 44 per piece: every definition is paid for by the hits that led to it |
| WorstCase.DefinitionsCost | internal/state/encode_v1.go:404-433 | For every id function and from any state, the wire exceeds the truth bytes and 8 bytes a piece by at most 25 bytes for each definition |
| WorstCase.FewDefinitions | internal/state/encode_v1.go:402-419 | For every id function a run defines at most one template for every three of its pieces |
| WorstCase.WorstCaseBound | internal/state/encode_helpers.go:45-54 | The bounded worst case: for every id function, three times the wire bytes are at most three times the truth bytes and 49 a piece |
| WorstCase.LossExact | internal/state/encode_helpers.go:45-54 | The wire bytes of a run from the history of its pieces alone: truth, 8 a piece, and for each definition the lesser of 25 and 20 plus both constants, less both constants minus 5 for each reference to a template defined before |
| WorstCase.HeaderOnlyLoss | internal/state/encode_helpers.go:45-46 | The loss is the frame headers and nothing more if and only if, on the history of hits, the references to templates defined before have gained what the definitions lost |
| WorstCase.InputCost | internal/state/encode_helpers.go:45-54 | For whole runs over a client byte stream: the exact cost, the two bounds that hold whatever the ids are, the four-thirds bound under injective ids, and when the loss is the headers alone |
| Limits.WorstCaseAttained | internal/state/encode_v1.go:404-433 | Whatever the ids are, one short template seen three times costs exactly 25 bytes beyond truth and headers, and meets the bound of 49 a piece with equality |
| WrongRuns.LossBeyondHeaders | internal/state/encode_helpers.go:45-46 | A client posts one line with one key three times: whatever the ids are, the wire carries more than the request and one frame header per piece |
| WireCost.RefIsShorter | internal/protocol/template.go:112-132 | Every reference payload is strictly shorter than the raw piece it replaces |
| WireCost.DefsAreDictionary | internal/state/encode_v1.go:410-425 | The definitions charged are exactly the templates the dictionary gained, each once |
| Factoring.FactorsExact | internal/state/encode_v1.go:280-372 | One list of pieces, and no other, factors a line: a segment as long as a key, an equals sign, a nonempty value and a delimiter open it; after a comma again, after a space the rest raw, a line feed ends it; what no segment opens is raw |
| Factoring.BodyFactors | internal/state/encode_v1.go:248-278 | A body goes out line by line; a bare line feed and what follows the last one are raw |
| Factoring.HeaderLineExact | internal/state/encode_v1.go:227-244 | A header line is a name up to its first colon and space, a value and CRLF, in the only way it can be, and is raw exactly when it cannot |
| Splitter.ObservationsMatch | internal/state/encode_v1.go:340-350 | There is one observation for each segment, in order, of its two constants and its whole length on 32 bits, counted once |
| Splitter.HeaderPartition | internal/state/encode_v1.go:189-225 | For any header bytes the pieces are nonempty, have the header shape, and concatenate to the header |
| Splitter.BodyPartition | internal/state/encode_v1.go:248-278 | For any body the pieces are nonempty, have the body shape, and concatenate to the body |
| Splitter.LinePartition | internal/state/encode_v1.go:280-372 | For any line with at most a final line feed the key/value pieces are nonempty and concatenate to it: nothing lost or duplicated at a comma, space or line end |
| Splitter.ObservationPoints | internal/state/encode_v1.go:340-350 | Every observation's offset and size name its own span in the truth stream: first constant, a lane, second constant |
| DecoderSpec.Conservation | internal/state/decode_v1.go:31-112 | Over any error-free, reset-free frame list, bytes written plus bytes pending equal what was there before plus the data of every frame, and the bookkeeping invariant (first marker, declared length, body count) holds |
| DecoderSpec.OnlyCompleteWritten | internal/state/decode_v1.go:38-45 | Only complete requests are ever written, and nothing written is taken back |
| DecoderSpec.MarkerNeverLost | internal/state/decode_v1.go:105-110 | The lost-marker error is unreachable in any run, resets included |
| DecoderSpec.EpochResetComposes | internal/state/decode_v1.go:196-204 | Decoding s1, a reset, then s2 writes decode(s1) followed by what a fresh decoder writes for s2, and fails exactly as the fresh one does |
| DecoderSpec.EpochNamed | internal/state/decode_v1.go:196-204 | From a reset to the next one the decoder is in the epoch the reset names |
| FrameMeaning.FailsExactly | internal/state/decode_v1.go:129-207 | Which frames stop a decoder: payloads outside their kind's grammar, references to an id not in the table, and unknown kinds |
| FrameMeaning.RawFeeds | internal/state/decode_v1.go:129-135 | Raw data stands for itself and defines nothing |
| FrameMeaning.DefineMeans | internal/state/decode_v1.go:163-172 | A definition feeds nothing; later references to its id feed its constants around their lane, whatever the id meant before, and every other id keeps its meaning |
| FrameMeaning.InlineExpands | internal/state/decode_v1.go:140-160 | An inline template feeds its own expansion; later references to its id feed its constants around their lane, and every other id keeps its meaning |
| FrameMeaning.InlineIsDefineRef | internal/state/decode_v1.go:140-189 | To the decoder, in any state, an inline template is a definition followed by a reference |
| DecoderSpec.PushConserves | internal/state/decode_v1.go:38-112 | One data frame keeps the invariant, conserves every byte, and writes only a complete request |
| DecoderSpec.RunBytesIsRunFrames | internal/state/decode_v1.go:121-127 | Decoding bytes is decoding the frames read from them, with the ending the reader and the decoder give |
| DecoderSpec.IndexStable | internal/state/decode_v1.go:105-110 | A header end once found stays the first one however the buffer grows |
| Protocol.FramesRoundTrip | internal/protocol/frameio.go:29-111 | For every list of frames the writer accepts, repeated reading of the concatenated bytes returns the same list and a clean end |
| Protocol.ReadPrefix | internal/protocol/frameio.go:72-111 | On any byte prefix of such a stream the reader returns exactly the frames wholly inside it; the end is clean at a frame boundary and also right after a bare frame header, and truncated everywhere else |
| Protocol.FrameRoundTrip | internal/protocol/frameio.go:72-111 | One frame is read back whole and leaves exactly what follows it |
| Protocol.WholeFramesExact | internal/protocol/frameio.go:72-111 | Independent meaning of the frames wholly inside the first k bytes: the longest list of leading frames whose bytes fit |
| Layout.ReadFrameExact | internal/protocol/frameio.go:72-111 | A frame is read exactly from eight header bytes, given one by one, and a payload of the announced size within 16 MiB, of one of five kinds, four bytes long for a reset |
| Layout.FrameLayout | internal/protocol/frameio.go:29-62 | A frame within the limits is written as those header bytes and its payload |
| Layout.CleanEndExact | internal/protocol/frameio.go:72-111 | A stream ends cleanly in exactly two places: where nothing is left, and after a bare header that announces a payload |
| Layout.FrameErrors | internal/protocol/frameio.go:72-111 | Which refusal a stream meets, if and only if: magic, version, flags, size, missing payload, kind, in this order |
| Layout.RefExact | internal/protocol/template.go:135-157 | The REF parser accepts exactly the stated bytes |
| Layout.DefineExact | internal/protocol/template.go:55-109 | The DEFINE parser accepts exactly the stated bytes |
| Layout.InlineExact | internal/protocol/template.go:199-232 | The INLINE parser accepts exactly the stated bytes |
| TemplateCodec.DefineRoundTrip | internal/protocol/template.go:10-109 | The DEFINE parser inverts its builder if and only if both constants fit 16 bits |
| TemplateCodec.RefRoundTrip | internal/protocol/template.go:112-157 | The REF parser inverts its builder if and only if the lane fits 16 bits |
| TemplateCodec.InlineRoundTrip | internal/protocol/template.go:169-232 | The INLINE parser inverts its builder if and only if all three parts fit 16 bits |
| TemplateCodec.DefineAccepts | internal/protocol/template.go:55-109 | The DEFINE parser accepts exactly a stated grammar: the gap length and any tail are ignored, the rest is the builder's layout |
| TemplateCodec.BuildTemplateDefinePayload | internal/protocol/template.go:10-52 | Filling the buffer in place gives the specified layout, or refusal when the payload is over the limit |
| TemplateCodec.BuildTemplateRefPayload | internal/protocol/template.go:112-132 | Filling the buffer in place gives the specified layout, or refusal when over the limit |
| TemplateCodec.BuildTemplateInlinePayload | internal/protocol/template.go:169-196 | Filling the buffer in place gives the specified layout, or refusal when over the limit |
| TemplateCodec.ParseTemplateDefinePayload | internal/protocol/template.go:55-109 | The cursor parser computes the specified outcome on every byte string, out-of-range slices included |
| TemplateCodec.ParseTemplateRefPayload | internal/protocol/template.go:135-157 | The cursor parser computes the specified outcome on every byte string |
| TemplateCodec.ParseTemplateInlinePayload | internal/protocol/template.go:199-232 | The cursor parser computes the specified outcome on every byte string, out-of-range slices included |
| FrameIo.WriteFrame | internal/protocol/frameio.go:29-62 | A frame is written whole as header and payload, or refused with nothing written, exactly when flags, size or shape are wrong |
| FrameIo.ReadNextFrame | internal/protocol/frameio.go:72-111 | One strict read: the frame and the remaining stream, or the first error in the program's order of checks |
| FrameIo.BuildEpochResetPayload | internal/protocol/frameio.go:187-191 | The payload is four bytes and parses back to the epoch |
| Numbers.ItoaRoundTrip | internal/state/encode_v1.go:179-181 | Printing a length in decimal and parsing it gives the length |
| Numbers.ItoaCanonical | internal/state/encode_v1.go:179-181 | Lengths are printed without leading zeros |
| Numbers.ParseIntExact | internal/httpio/http_request_body.go:123-132 | A number is at most one sign and at least one digit, within 64 bits, and nothing else |
| Numbers.PlaceValue | internal/httpio/http_request_body.go:123-132 | Digits count by their place in any base |
| Numbers.DigitExact | internal/httpio/http_request_body.go:123-132 | A digit is a decimal one or a letter in either case, below the base |
| HttpRequest.ReaderInverse | internal/httpio/http_request_body.go:36-112 | The reader inverts the wire form: for any valid head with one of the two framings and a body in it (chunk extensions not led by white space), followed by any bytes, it returns the very lines and body and leaves exactly the rest |
| HttpRequest.UnsupportedExactly | internal/httpio/http_request_body.go:98-111 | A request with a valid head is answered Unsupported if and only if it has no Content-Length value and its Transfer-Encoding value nowhere contains chunked |
| HttpRequest.SpacedChunkRead | internal/httpio/http_request_body.go:119-132 | A chunk with blanks between its size and its extension is read exactly when there are no blanks or no extension, and otherwise refused |
| HttpRequest.SizeLineExact | internal/httpio/http_request_body.go:123-132 | The size of such a line is read exactly when it fits 64 bits and no blank stands before an extension |
| HttpRequest.PipelinedInverse | internal/state/encode_v1.go:70-87 | n pipelined requests are read as exactly those n requests and then a clean end |
| ChunkGrammar.RequestExact | internal/httpio/http_request_body.go:36-112 | The requests accepted, exactly: a valid head, a usable length or none, chunked if and only if the last Transfer-Encoding value contains the word anywhere, and a body in that framing within the limit; what follows is left |
| ChunkGrammar.ChunksExact | internal/httpio/http_request_body.go:114-172 | A body is read from the front of a stream if and only if the stream starts with nonempty chunks that carry it, a zero chunk and trailers, in the stated grammar of size lines, within the limit |
| ChunkGrammar.SizeLineGrammar | internal/httpio/http_request_body.go:119-132 | A chunk size is read from a line if and only if the line is blanks, a sign or none, hex digits below 2^63, and then only blanks or at once an extension; a minus only before zero |
| FieldGrammar.CodedChunked | internal/httpio/http_request_body.go:82-112 | A head whose last Transfer-Encoding value is any text, chunked, any text, with a usable length or none: its body is read in chunks |
| FieldGrammar.FieldValueExact | internal/httpio/http_request_body.go:57-80 | A line gives a field a value exactly when, white space aside and in lower case, it is the field's name and then, white space aside, the value |
| FieldGrammar.LastFieldExact | internal/httpio/http_request_body.go:57-80 | The last line that gives a field a value decides |
| FieldGrammar.LastFieldNone | internal/httpio/http_request_body.go:57-80 | A field no line gives a value has the empty one |
| FieldGrammar.CaseBlind | internal/httpio/http_request_body.go:57-80 | A field may be written in any letter case |
| FieldGrammar.LowerExact | internal/httpio/http_request_body.go:57-80 | Two texts are one in lower case if and only if they differ only in the case of letters |
| FieldGrammar.TrimSpaceExact | internal/httpio/http_request_body.go:57-80 | Trimming takes off exactly the white space at both ends |
| FieldGrammar.RequestLineExact | internal/httpio/http_request_body.go:49-55 | A request line has one part more than it has single spaces, white space around it aside, and the parts are what stands between them |
| FieldGrammar.DeclaredExact | internal/state/decode_v1.go:212-225 | A line declares a length to the decoder exactly when it starts, untrimmed, with the name in any case, and the rest trimmed is a number that is not negative |
| ReadErrors.LineErrors | internal/httpio/http_request_body.go:174-188 | With its first line feed where it is, a line is refused as over the limit, or for want of a carriage return right before, exactly in these cases |
| ReadErrors.NoLineEnd | internal/httpio/http_request_body.go:174-188 | Without a line feed, and only then, a line meets an end of file |
| ReadErrors.BodyErrors | internal/httpio/http_request_body.go:84-111 | What a head leads to: a malformed length is refused first; without chunked, no length is unsupported, one over the limit too large, and a short body an end of file |
| ReadErrors.ChunkErrors | internal/httpio/http_request_body.go:114-172 | What refuses a chunk: a line that is no size line, a size over the rest of the limit, data cut short or not followed by CRLF; a size that takes the 64-bit sum over its end passes the limit and cannot be allocated |
| CutInput.RequestCut | internal/httpio/http_request_body.go:36-112 | On a stream cut anywhere the reader does as on all of it, or meets an end of file: the latter whenever bytes of an accepted request are missing, never when all are there |
| CutInput.RequestsCut | internal/state/encode_v1.go:70-87 | On any front of any stream, well formed or not, the requests accepted are exactly those wholly inside it, and the end is an end of file or the refusal that ends the whole stream |
| CutInput.PipelinedCut | internal/state/encode_v1.go:70-87 | A client cut off anywhere in n valid requests: exactly those whose bytes all arrived are accepted, each as it was sent, and the end is an end of file |
| CutInput.WholeSentExact | internal/state/encode_v1.go:70-87 | Independent meaning of the requests wholly inside the first k bytes: the largest number whose bytes fit |
| CutInput.LengthCutEnd | internal/state/encode_v1.go:71-76 | A request with a length cut off inside its head or right after it counts as a clean end of the stream; only a cut inside the body is an unexpected one |
| CutInput.WireCut | internal/state/encode_v1.go:42-147 | Cut the client's stream anywhere: the encoder sends a front of what it sends for all of it, and that front carries exactly the messages wholly inside the cut |
| HttpRequest.ChunkedInverse | internal/httpio/http_request_body.go:114-172 | Any split into nonempty chunks, any hex case, extensions that follow their size at once, trailers: the body comes back and exactly the rest is left, if the body is within the limit |
| HttpRequest.HeadExact | internal/httpio/http_request_body.go:41-80 | The head reader accepts exactly the valid header blocks within the limit, returns their lines, and stops after the blank line |
| HttpRequest.ReadLineExact | internal/httpio/http_request_body.go:174-188 | A line is returned exactly when it ends in CRLF with no line feed before and is within the limit |
| HttpRequest.AcceptedBounded | internal/httpio/http_request_body.go:82-112 | Every accepted request has a valid head within the header limit and a body within the body limit |
| HttpRequest.ChunksBounded | internal/httpio/http_request_body.go:114-172 | A dechunked body never exceeds the limit, over all its chunks |
| HttpRequest.AllAcceptedBounded | internal/state/encode_v1.go:70-87 | The same for every request of a stream, with the encoder's limits |
| HttpReader.ReadLineCRLF | internal/httpio/http_request_body.go:174-188 | Reading a line from the stream computes the specified line and leaves the specified rest |
| HttpReader.ReadHeaderLines | internal/httpio/http_request_body.go:57-80 | The header loop accumulates the header bytes and the last value of each framing field |
| HttpReader.ReadChunkedBody | internal/httpio/http_request_body.go:114-172 | The chunk loop computes the specified body and leaves the specified rest, or fails with the specified error |
| HttpReader.ReadHTTPRequestBody | internal/httpio/http_request_body.go:36-112 | The imperative reader computes ReadRequest on the rest of the stream: header bytes, body, framing facts, rest, or error |
| Normalizer.NormalizeHTTPHeaders | internal/state/encode_v1.go:151-185 | The normaliser's loop computes the specified header: first line, kept lines in order, one truthful Content-Length |
| Normalizer.NormalizeBlock | internal/state/encode_v1.go:151-185 | On a header block, normalising gives the block of the request line, the kept lines and the length line (see NormalizeExact) |
| Preservation.NormalizeExact | internal/state/encode_v1.go:151-185 | A normalised header, written out: the request line, every line that does not start in any letter case with content-length: or transfer-encoding:, in order and as often as it was there, then Content-Length and the length in decimal |
| Preservation.OtherFieldsStay | internal/state/encode_v1.go:163-177 | Every field but the two framing ones has the same value after normalisation |
| Preservation.OtherFieldsReach | internal/state/encode_v1.go:149-185 | The next reader of a normalised header within the limit finds the same request line, the same value for every other field, and the true length |
| Preservation.NormalizeStops | internal/state/encode_v1.go:163-168 | What stands after the blank line of a header is not looked at |
| Normalizer.NormalizedReadsBack | internal/state/encode_v1.go:149-185 | Re-reading a normalised request gives the same body, unchunked, with the right length and the kept lines, if and only if the header is within the limit and no kept line reads as chunked framing |
| Normalizer.PlainRequestReadsBack | internal/state/encode_v1.go:149-185 | With no white-space-led header lines, a normalised request within the limit always reads back |
| Normalizer.NormalizeIdempotent | internal/state/encode_v1.go:151-185 | Normalising twice is normalising once, whatever length was written first |
| Normalizer.MarkerLast | internal/state/decode_v1.go:91-95 | The first CRLFCRLF of a header block is its last four bytes |
| Normalizer.DeclaredIs | internal/state/decode_v1.go:212-225 | On a normalised header the decoder's length search returns the body length, or what the request line declares |
| Encoder.Encoder.Run | internal/state/encode_v1.go:42-147 | Over a whole client stream the encoder emits exactly the specified frames for the accepted requests, moves dictionary and counters to the specified state, feeds the window the truth stream, and ends cleanly or with the reader's error |
| Encoder.Encoder.EncodeNext | internal/state/encode_v1.go:71-145 | One turn of the loop: the next request is read and encoded, or the reader's error ends the run with everything else unchanged |
| Encoder.Encoder.EncodeRequest | internal/state/encode_v1.go:89-145 | One accepted request: its frames, its dictionary and counter updates, its window bytes and exactly its observations, with the session invariant kept |
| Encoder.Encoder.SendRequest | internal/state/encode_v1.go:89-136 | The wire side of one request: specified frames and state, learner bounds equal to the window's |
| Encoder.Encoder.EncodeMessage | internal/state/encode_v1.go:122-142 | Header lines then body: the frames of the message's pieces, or an error exactly when one of them is over the limit |
| Encoder.Encoder.EncodeHeaderLines | internal/state/encode_v1.go:189-225 | The header loop emits exactly the header's pieces |
| Encoder.Encoder.TrySplitHeaderLine | internal/state/encode_v1.go:227-244 | Splits a line at its first colon-space if it ends in CRLF, else reports that it cannot |
| Encoder.Encoder.EncodeBodyAsLines | internal/state/encode_v1.go:248-278 | The line loop emits exactly the body's pieces and collects exactly their observations |
| Encoder.Encoder.EncodeInfluxLineKV | internal/state/encode_v1.go:280-372 | The cursor loop emits exactly the line's key/value pieces and observations, and always advances |
| Encoder.Encoder.NearestDelim | internal/state/encode_v1.go:310-330 | The least of three searches is the first delimiter |
| Encoder.Encoder.EmitSegment | internal/state/encode_v1.go:376-434 | Raw, define and refer exactly as the counted hit calls for; state and frames are the specified ones |
| Encoder.Encoder.EmitCounted | internal/state/encode_v1.go:404-433 | What follows the counted hit: wait, refer, fall back, or define and refer |
| Encoder.Encoder.EmitRefOrRaw | internal/state/encode_v1.go:421-433 | A reference exactly when it fits a frame and is strictly shorter than the raw piece |
| Encoder.Encoder.CounterFor | internal/state/encode_v1.go:395-401 | A counter is created at zero on first sight and no other counter changes |
| Encoder.Encoder.CountHit | internal/state/encode_v1.go:402 | One counter goes up by one modulo 2^32 and no other changes |
| Encoder.Encoder.WriteFrameCount | internal/state/encode_helpers.go:22-55 | Every attempt with a known type is counted, and the frame is on the wire exactly when the writer accepts it |
| Encoder.Encoder.ObserveTruth | internal/state/encode_v1.go:96-120 | Window and learner bounds move together: the window has seen the header and body, and the bounds name its last 2 MiB |
| Encoder.Encoder.LearnRequest | internal/state/encode_v1.go:131-145 | After every request the statistics are sound and every observation ever made points at its own span of the truth stream |
| Decoder.Decoder.Run | internal/state/decode_v1.go:114-209 | The frame loop computes RunBytes: the destination and the window have received exactly the requests flushed, and the ending is the specified one |
| Decoder.Decoder.HandleFrame | internal/state/decode_v1.go:129-207 | One turn of the loop is one specified step for every frame type, errors included |
| Decoder.Decoder.Feed | internal/state/decode_v1.go:83-112 | Appending data moves the reassembly variables as specified, or fails as specified |
| Decoder.Decoder.FlushReqIfComplete | internal/state/decode_v1.go:38-81 | A complete request is written whole to destination and window and the buffer is reset; otherwise nothing changes |
| Decoder.Decoder.ParseContentLength | internal/state/decode_v1.go:212-225 | The first line that declares a usable length wins; none gives -1 |
| Decoder.Decoder.WriteObserved | internal/state/decode_v1.go:63-77 | However the destination splits the writes, all bytes go out and the window sees exactly them |
| Link.WindowsAgree | internal/state/machine.go:28-33 | At every request boundary of a faithful run with honest request lines, not only at its end, the decoder has written exactly the requests so far and holds the encoder's dictionary of that moment |
| Link.Relay | internal/state/machine.go:137-146 | On honest request lines and a faithful run, an encoder and a decoder run back to back from fresh state deliver the truth stream, and both windows show the stretch the learner's bounds name |
| Link.EncodeLane | internal/state/encode_v1.go:42-147 | A fresh encoder puts exactly the specified bytes on the wire and its window shows the end of the truth stream |
| Link.DecodeLane | internal/state/decode_v1.go:16-210 | A fresh decoder writes exactly what RunBytes specifies and its window shows the end of it |
| RawWindow.WindowIgnoresCuts | internal/memory/rawwindow.go:33-59 | Splitting the same bytes into different appends never changes what the window shows: the last n bytes of the history |
| RawWindow.RawWindow.Append | internal/memory/rawwindow.go:33-59 | The ring keeps the newest bytes of the history, in place, for appends of any length |
| RawWindow.RawWindow.CopyIntoRing | internal/memory/rawwindow.go:61-86 | Writing at the head with one wrap makes the bytes the newest and ages all others |
| RawWindow.RawWindow.Snapshot | internal/memory/rawwindow.go:90-113 | The snapshot is the last Cap bytes of everything ever appended |
| MemoryDictionary.AddExact | internal/memory/dictionary.go:77-119 | With room short, a new key that could fit is inserted if and only if free space plus the older half is enough; a rejection changes nothing at all, counters included; no entry of the younger half is lost |
| MemoryDictionary.AddWithRoom | internal/memory/dictionary.go:77-119 | With room for it, down to the last byte, a new key comes in and nothing goes; an empty candidate, or one larger than the cache, changes nothing |
| Recency.TimesAreHistory | internal/memory/dictionary.go:52-164 | In every reachable state an entry was used before another if and only if the last operation that used it came before the other's, and created before it if and only if it was brought in before |
| Recency.StepTimes | internal/memory/dictionary.go:52-164 | One operation sets the use time of the entry it uses and the creation time of the entry it brings, and no other time changes |
| Recency.CountersMove | internal/memory/dictionary.go:100-164 | The clock moves exactly when an entry is used, the id counter, on 32 bits, exactly when one is brought in, and neither is ever set back |
| MemoryDictionary.LookupUses | internal/memory/dictionary.go:52-86 | After a lookup by id or key, or a candidate already known, that entry is later in use than every other, and nothing else has changed |
| Recency.LastUsedGoesLast | internal/memory/dictionary.go:172-233 | The entry used last is a victim only if all of the older half is |
| MemoryDictionary.VictimsExact | internal/memory/dictionary.go:172-233 | The entries evicted are the shortest sufficient least-recently-used front of the older half |
| MemoryDictionary.OlderHalfSplits | internal/memory/dictionary.go:187-198 | The older half has floor(n/2) entries, all created before every other entry |
| MemoryDictionary.RunKeeps | internal/memory/dictionary.go:77-164 | Over any operation list: creation and use times stay distinct and in the past and the byte bound holds; below id wrap the account is the sum of sizes, the indexes are inverse, and the ids issued are 1, 2, 3, ..., none twice, even across Clear |
| MemoryDictionary.ApplyKeeps | internal/memory/dictionary.go:77-141 | Every operation keeps the clocks and the bound always, and the account and indexes if and only if the id it hands out is not in use |
| MemoryDictionary.ContentsStep | internal/memory/dictionary.go:52-141 | Seen as a map from keys to bytes, each operation does exactly its own change: a lookup none, an insertion one key minus the evicted ones, a deletion one key, Clear all |
| MemoryDictionary.FirstBytesStay | internal/memory/dictionary.go:84-86 | A key gives back exactly the bytes first inserted under it since its last removal |
| MemoryDictionary.RemoveIs | internal/memory/dictionary.go:122-134 | The negative clamp of Delete never fires |
| MemoryDictionary.InsertKeeps | internal/memory/dictionary.go:100-118 | Inserting keeps the exact account if and only if the new id is free |
| MemoryDictionary.PlanIsVictims | internal/memory/dictionary.go:208-217 | Stopping at the first sufficient front of the use order plans exactly the victims |
| MemoryDictionary.Dictionary.EvictToFit | internal/memory/dictionary.go:172-233 | Planned then committed: the resulting state is a function of the old one, whatever order the map was iterated in |
| MemoryDictionary.Dictionary.EvictOlder | internal/memory/dictionary.go:181-233 | With entries eligible: success if and only if the older half suffices, at the cost of exactly the victims, else nothing changes |
| MemoryDictionary.Dictionary.Plan | internal/memory/dictionary.go:208-217 | The plan is the shortest front of the order that frees enough, or all of it |
| MemoryDictionary.Dictionary.Commit | internal/memory/dictionary.go:224-232 | The commit loop deletes exactly the planned victims, never fewer |
| MemoryDictionary.Dictionary.OlderByUse | internal/memory/dictionary.go:186-206 | The two sorts give the older half in strict order of use |
| MemoryDictionary.Dictionary.AddCandidate | internal/memory/dictionary.go:77-119 | The new state is the specified function of the old one; an existing key is returned and becomes the one used last, and insertion is reported exactly when it happened |
| MemoryDictionary.Dictionary.GetByID | internal/memory/dictionary.go:52-59 | Returns the entry and makes it the one used last, with nothing else changed; or changes nothing |
| MemoryDictionary.Dictionary.GetByKey | internal/memory/dictionary.go:62-68 | Returns the entry with exactly the bytes the cache holds for the key, and makes it the one used last |
| MemoryDictionary.Dictionary.Delete | internal/memory/dictionary.go:122-134 | Removes the entry from both indexes and the account |
| MemoryDictionary.Dictionary.Clear | internal/memory/dictionary.go:137-141 | Empties indexes and account and keeps both counters |
| Learning.PacketKeepsStats | internal/dictionary/aggregate.go:39-69 | With increasing packet ids every statistic keeps first seen <= last seen <= now, at most as many hits as packets since, and at least one hit until 2^32 packets have passed, whatever is observed and evicted |
| Learning.RunCounts | internal/dictionary/aggregate.go:39-69 | Over any run, evictions included, the table holds exactly the keys shown since they were last absent, and each counter is the number of packets that showed its key since then, modulo 2^32 |
| Learning.PacketCountsOnce | internal/dictionary/aggregate.go:43-65 | A packet counts every key it shows exactly once, however often and in whatever order, creates new keys with the first size seen, and touches no other key |
| Learning.VictimIsOld | internal/dictionary/evict_candidate.go:15-57 | The protected half holds floor(n/2) entries and not the victim, and nothing in it was seen before anything outside |
| Learning.VictimIsCheap | internal/dictionary/evict_candidate.go:28-53 | No evictable entry has a smaller product of hits and size than the one evicted: at equal hits it is no larger than any, at equal size hit no more often |
| Learning.TotalExact | internal/dictionary/aggregate.go:74-78 | The approximate size is 0 for the empty table and grows by the size of each entry and 32 bytes, modulo 2^32 |
| Learning.WorthFits | internal/dictionary/worth.go:12-18 | The worth of a candidate is hits times size, which never wraps in 64 bits |
| Learning.PartitionStatsByAge | internal/dictionary/partition.go:14-35 | Exactly floor(n/2) statistics are protected, none older than an evictable one |
| Learning.Aggregator.ObservePacket | internal/dictionary/aggregate.go:39-69 | The table moves by the specified fold over the observations, each key counted once a packet, and then loses at most one entry, a victim, exactly when over budget |
| Learning.Aggregator.MaybeEvict | internal/dictionary/aggregate.go:73-87 | One victim goes exactly when the 32-bit size is over the budget |
| Learning.Aggregator.EvictOne | internal/dictionary/evict_candidate.go:7-57 | From a nonempty table exactly one entry goes, outside a newest half and with the least product of hits and size there |
| Learning.Aggregator.LowestWorth | internal/dictionary/evict_candidate.go:28-53 | The nested search finds a key with the least product of hits and size among the evictable statistics |
| Learning.Aggregator.ApproximateSize | internal/dictionary/aggregate.go:74-78 | The running 32-bit total is the sum of sizes and overheads modulo 2^32, in any iteration order |
| Extract.ExtractSpans | internal/dictionary/extract.go:12-85 | The outputs are precisely the distinct pairs of constants of all triples i < iA < iB < n, once each, with the number of triples modulo 2^16, the first triple's size, and the offset of the last such closing byte in the packet |
| Extract.VisitTallies | internal/dictionary/extract.go:47-74 | One visit keeps the table exact for the triples visited so far |
| Extract.LastClosesLast | internal/dictionary/extract.go:72-74 | The last visit of a pair closes at the last occurrence of its closing byte in the packet |
| Extract.AllDone | internal/dictionary/extract.go:38-84 | A table exact for all visits holds exactly the pairs that occur |
| PromotedDictionary.EvictionExact | internal/dictionary/insert.go:42-91 | Evicting keeps the account exact and the newer half whole; without 32-bit overflow it succeeds if and only if the newer half leaves room, and one eviction fewer would not have done |
| PromotedDictionary.TryInsertKeeps | internal/dictionary/insert.go:14-31 | With a fresh id and no 32-bit overflow the account stays the sum of the entries and within the limit, and the entry is in exactly when the call says so |
| PromotedDictionary.TryInsertExact | internal/dictionary/insert.go:14-31 | For any entry, with or without eviction, the account stays exact if and only if the entry is refused, or the 32-bit total does not overflow in the room left and nothing charged there is replaced |
| PromotedDictionary.InsertOutcome | internal/dictionary/insert.go:14-91 | Insertion in bytes, for a new id without overflow: with room for both constants the entry comes in at once and is charged exactly them; else it comes in if and only if losing some older half makes room, what is outside that half stays, and what went out of it has no higher score than what stayed |
| PromotedDictionary.InsertOverflow | internal/dictionary/insert.go:14-36 | When the sum leaves 32 bits the test always passes: the entry comes in at once, nothing goes, and the account falls short by 2^32 |
| PromotedDictionary.PutExact | internal/dictionary/insert.go:33-36 | Inserting keeps the account exact if and only if the total does not overflow 32 bits and nothing charged is replaced |
| PromotedDictionary.DrainIsExact | internal/dictionary/insert.go:75-83 | Evicting in any order takes off exactly what the evicted entries cost, never clamped |
| PromotedDictionary.Dictionary.TryInsert | internal/dictionary/insert.go:14-31 | Inserts at once when it fits, else after eviction, else leaves what eviction left |
| PromotedDictionary.Dictionary.EvictFor | internal/dictionary/insert.go:42-91 | Evicts a lowest-score front of an older half, stopping as soon as the need fits; what it removed stays removed when it fails |
| PromotedDictionary.Dictionary.Evict | internal/dictionary/evict.go:45-61 | The eviction loop removes the shortest sufficient front of the order, or all of it |
| PromotedDictionary.Dictionary.Eligible | internal/dictionary/evict.go:13-43 | The two sorts give an older half in order of score |
| PromotedDictionary.Dictionary.EnsureCapacity | internal/dictionary/evict.go:8-61 | Nothing changes when the need fits, else the eviction of TryInsert |
| Limits.CollisionLosesBytes | internal/state/encode_v1.go:438-443 | Two keys with one id: after promotion the second goes out as a reference to the first and the decoder writes the wrong key without an error |
| Limits.LongKeyIsLost | internal/protocol/template.go:32 | A body key of 64 KiB or more never survives its definition |
| WrongRuns.RequestLineHangs | internal/state/decode_v1.go:83-104 | A concrete client stream with the request line Content-Length:  5, accepted and sent: the run ends without an error and the decoder has written nothing and still holds the whole request |
| WrongRuns.CollisionReachesBackend | internal/state/encode_v1.go:395-433 | A client posts one line in which two keys share an id: the run ends without an error and the decoder writes one request of the right length with the wrong key in it |
| WrongRuns.LongKeyBreaksRun | internal/protocol/template.go:32 | A client posts one line with a key of 64 KiB three times: accepted and sent, and the decoder stops with a protocol error |
| WrongRuns.CommaBody | internal/state/encode_v1.go:248-372 | A body made of one line of comma-closed segments is cut into exactly those |
| WrongRuns.IndentedRequestUnreadable | internal/state/encode_v1.go:163-177 | A client request with a space-led chunked line is accepted as chunked; normalised, it still says so beside its Content-Length, and the same reader meets an end of file in it |
| WrongRuns.SpacedRequestRefused | internal/httpio/http_request_body.go:119-132 | A whole client request whose one chunk has the size line 1 ;x, which the RFC allows, is refused as bad |
| WrongRuns.BareRequestUnsupported | internal/httpio/http_request_body.go:98-111 | The client bytes GET / HTTP/1.1 and an empty line, a request the RFC gives an empty body, are refused as unsupported |
| Limits.SpacedExtensionRefused | internal/httpio/http_request_body.go:119-132 | The legal size line 1 ;x is refused |
| Limits.RequestLineDeclaresLength | internal/state/decode_v1.go:212-225 | A request line with three parts, as the reader requires, from which the decoder reads a length of its own |
| Limits.IndentedChunkedStays | internal/state/encode_v1.go:163-177 | A white-space-led chunked line that the reader honours and the normaliser keeps |
| Limits.IdWrapLosesAnEntry | internal/memory/dictionary.go:100-118 | A concrete operation list after which the id counter has wrapped: the old key leads to the new bytes and the account no longer adds up |
| Limits.ReinsertionOvercharges | internal/dictionary/insert.go:33-36 | Inserting one entry twice charges it twice |

## Left out

- Sockets, listeners, contexts, tickers, logging and statistics printing: reads consume a byte sequence, writes append to one, and a destination that fails is not modelled.
- The reverse fast path (internal/state/machine.go:80-135): the switch point depends on how the network segments reads, and the two lanes share one dictionary. One direction with its own dictionary is modelled.
- The rawIn counter: the body is added to it twice (internal/state/encode_v1.go:129, 270), so it conserves nothing. wireOut is modelled, and equals the bytes on the wire.
- One frame per payload and header-only worst-case loss (promised in the repository README, lines 85 and 187) and skipping unknown frame types (Docs/PROTOCOL.md, line 230): the code emits many frames per request, can pay for a definition (WrongRuns.LossBeyondHeaders), and fails on an unknown type. The model follows the code; the loss it can make is bounded by WorstCase.WorstCaseBound.
- FNV hashing: the hash functions are parameters.
- Unicode case folding and Unicode white space: ASCII only.
- Functions nobody calls (internal/state/http_helpers.go, internal/state/helpers_v1.go, the packet framer in internal/io/framer.go): no run of the program reaches them.
- Header and body slices share no memory in the model: values are sequences, so Go slice aliasing and capacity are not captured.
- Divergence.ByteExactExactly: assumes body keys below 64 KiB and that no header template shares its id with a body template. Without either, the equivalence fails (LongKeyRun.LongKeyRunIsExact, MendedRun.MendedRunIsExact): wrong bytes can cancel. There the sufficient half (ByteExact.RunIsByteExact), the exact condition on the request lines (ByteExact.RunExactly) and the exact condition on each piece (Agreement.PieceSurvives, Agreement.RunSurvives) are proved.
- HttpRequest.ReaderInverse: is about the forms clients use; the whole grammar of what the reader accepts, signs and blanks included, is ChunkGrammar.RequestExact. Blanks before a chunk extension and requests without a framing field are refused by the code (HttpRequest.SpacedChunkRead, HttpRequest.UnsupportedExactly).
- Learning.PacketKeepsStats: the lower bound of one hit is stated up to 2^32 packets, after which the 32-bit hit counter can wrap to zero; Learning.RunCounts says exactly when it reads zero.
- DecoderSpec.OnlyCompleteWritten: is stated between epoch resets; DecoderSpec.EpochResetComposes carries it across them.
- PromotedDictionary.TryInsertKeeps: assumes a fresh id and no 32-bit overflow, as the caller can check; PromotedDictionary.TryInsertExact has the exact condition.
- CutInput.PipelinedCut: does not say which of the two ends of file a cut inside a chunked body gives; CutInput.LengthCutEnd does for bodies with a length.
- ByteExact.AnyIdsAgree: assumes body keys below 64 KiB; with a longer one the tables can part (LongKeyRun) or the decoder stop (WrongRuns.LongKeyBreaksRun).
