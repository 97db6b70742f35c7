# Verified model of the gRPC codec and its companions

The repository implements gRPC over HTTP/2 in Rust: a codec that turns streams of messages into
length-prefixed frames and back, the status and trailer protocol around it, client and server call
handling, gRPC-Web, and services such as health checking and reflection. This project models the parts
with the most state and arithmetic and proves what they do together.

Check everything with `dafny verify dfyconfig.toml`.

## Structure

| modules | part of the system |
|---|---|
| `Wire`, `Text`, `Headers`, `Status` | big-endian lengths; decimal, UTF-8, percent and base64 text; header maps and reserved names; status codes in headers |
| `Compression` | names of encodings and their negotiation |
| `Body` | HTTP bodies as runs of polls, and what a transport may do to them |
| `Encode`, `Conservation`, `Batches`, `SendBody`, `AfterTrailers` | the batching frame writer, what it conserves, what it refuses and when it emits, the body that ends with trailers, and what such a body yields behind them |
| `Decode`, `Parsing`, `Receiving`, `Refusals` | the resumable frame parser, its one-shot reference parser, its terminal states, and which frames it delivers or refuses |
| `Transparency` | writer, transport and parser together |
| `Rpc`, `UnaryCall`, `CallEndings` | the client and server half of a unary call, separately and together, and every way in which a call ends |
| `GrpcWeb`, `WebClient` | trailers inside the body, and an independent reader of such bodies |
| `Reachability`, `Reflection`, `Timeout`, `Balance`, `Router`, `Health` | schema worklist, symbol index, `grpc-timeout`, round robin, routing, health checking |

## How the code is represented

- Objects whose methods update fields (`EncodedBytes`, `EncodeBody`, `Streaming`, `GrpcWebCall`,
  `BalancedChannel`, `Router`, `ReflectionServerBuilder`, the health state) are classes. Each method is
  proved equal to a pure step function; the theorems are about runs of those step functions.
- A message source is a sequence of `Waiting`, `Item` and `Failed` events, a body a sequence of
  `Pending`, `Data`, `Trailers`, `Broken` and `End` events. An exhausted sequence has ended. A transport
  may split, join and delay data but keeps the bytes and the ending (`Body.Carries`).
- Message codecs and compressors are function parameters, with failures. A main theorem asks that they
  undo each other on the messages at hand (`Transparency.Agree`), and nothing more of them. The decoder
  is given the whole length-limited window of `DecodeBuf` as a slice.
- A header value is a string with one character per byte. The order in which a header map is iterated
  over is arbitrary. A status message is a string of Unicode scalar values, with UTF-8 written out.
- `usize` has 64 bits and `u32` truncation is explicit where the code has it.
- The texts of statuses are kept, the detail of a UTF-8 error included; texts of codec and compression
  errors are parameters.

## What turned out different from what one might expect

Each item is a lemma with its exact condition.

- A body cut off right after a five-byte frame header ends cleanly although a message was announced;
  every other cut is reported (`Receiving.TruncationIsReported`, `Receiving.BareHeaderIsAccepted`). The
  repository's documentation describes partial data at the end as an error without this exception.
- An error of the HTTP body is returned twice, if and only if it is not a cancelled request
  (`Receiving.BodyErrorIsSeenTwice`).
- A receiver that has reported the end need not be quiet. Trailers skip the check for partial data, so
  bytes left over come up as "Unexpected EOF" behind a clean end (`Receiving.PartialThenTrailers`); that
  error is not stored, so once reported it is reported for ever (`Receiving.PartialThenEnd`).
  `Receiving.AfterTheEnd` says for every body what follows, and exactly when it is only the end.
- A message that cannot be encoded also costs the earlier messages that are still in the buffer
  (`SendBody.EncodeFailureLoses`). `SendBody.Lost` names them, `SendBody.RunDelivers` shows that a body
  has all others and no more, and `SendBody.AllSentIfNoneLost` that nothing is missing if and only if
  there are none. A failing source costs no message.
- A consumer that goes on polling a server body after its trailers can be given more data: messages
  behind the failure of a source (`AfterTrailers.DataAfterTrailers`), or those lost in the buffer
  (`AfterTrailers.LostComesLate`). `AfterTrailers.NothingFollowsTrailers` has the exact condition.
- A service that fails with the code Ok makes the client report a missing response message
  (`UnaryCall.FailureArrives`).
- The length field of a gRPC-Web trailer frame is right exactly for blocks below four gigabytes
  (`WebClient.TrailerLengthIsExact`).
- A message in the root namespace can be taken for one of the same name in another namespace
  (`Reachability.Resolves` has the condition); it is then never collected
  (`Reachability.ShadowedIsMissed`, with a schema in `Reachability.ShadowedRoot`).
- Two registered service names can match the same path exactly when one continues the other after a
  slash (`Router.AtMostOneMatch`).
- A health channel without listeners misses a status and has its old value for later watchers
  (`Health.DeafChannel`); a watcher that looks up before a change and joins after it can start with a
  stale value (`Health.StaleJoiner`). `Health.SetIsSeen` says exactly when a change is seen.
- Two overlapping changes can be announced in the wrong order (`Health.CrossedSetters`).
  `Health.LastSettingDecides` says exactly when channel and table agree behind overlapping calls, and
  `Health.LastSettingExists` that every run falls under it.

## Model

| member | source | states |
|---|---|---|
| `Transparency.StreamIsTransparent` | grpc-core/src/codec/encode.rs:64-295 | For every message source, schedule of waits, threshold, compression and re-chunking, a client reading a server's body sees a prefix of the sendable messages in order, then the source's status (or the clean end) once, then only the end; the prefix is everything unless a message cannot be encoded, and then exactly the messages still in the buffer are missing, fewer bytes than the configured threshold |
| `Transparency.EncodableStreamIsTransparent` | grpc-core/src/codec/decode.rs:284-305 | When all messages before the first failure can be encoded, the client sees all of them and that very failure, then only the end |
| `Transparency.Delivered` | grpc-core/src/codec/decode.rs:159-305 | The same for either role and direction, for any codec whose accepted messages read back: outcomes, empty buffer and ending at the receiver |
| `Transparency.ServerBodyShape` | grpc-core/src/codec/encode.rs:248-295 | A server body is data frames then exactly one trailers frame; its status reads back as the status of the source, Ok iff the source completed or failed with Ok |
| `Transparency.ClientBodyShape` | grpc-core/src/codec/encode.rs:215-230 | A client body never carries trailers; it ends cleanly iff the source did, else with the failure |
| `Transparency.FlagMeansTrailers` | grpc-core/src/codec/encode.rs:272-295 | The end-of-stream flag goes up exactly when the trailers are returned, so a consumer may stop at either |
| `Conservation.BytesAreConserved` | grpc-core/src/codec/encode.rs:64-157 | In every reachable state, after any number of polls and failures, the emitted chunks followed by the buffer are the frames of the encoded messages in order |
| `Conservation.ChunksAreWholeFrames` | grpc-core/src/codec/encode.rs:159-186 | In every run each chunk is non-empty and a whole number of frames with the right flag and exact length fields |
| `Batches.ChunksAreTimely` | grpc-core/src/codec/encode.rs:64-103 | In every run, with the configured threshold: a chunk that reaches it does so with its last frame and not before, a shorter one is emitted only because the source waits, has failed or has ended, and a poll that is not ready leaves nothing buffered |
| `Batches.FirstFillsChunk` | grpc-core/src/codec/encode.rs:90-92 | Two messages of twenty bytes and a threshold of ten: the first poll gives the first message alone |
| `Batches.FrameIsChecked` | grpc-core/src/codec/encode.rs:106-186 | A message is framed if and only if it can be encoded, is within the configured limit and has a 32-bit length; each refusal has its own code, and the frame is flag, length and payload |
| `Encode.EncodedBytes.FinishEncoding` | grpc-core/src/codec/encode.rs:159-186 | Backfills flag and length into the reserved five bytes and changes no other byte; refuses payloads over the limit or 32 bits |
| `Encode.EncodedBytes.WritePayload` | grpc-core/src/codec/encode.rs:106-143 | Appends the encoded, possibly compressed message; on failure only a suffix was added |
| `Encode.EncodedBytes.EncodeItem` | grpc-core/src/codec/encode.rs:106-157 | Appends exactly one frame, or leaves the buffer byte for byte as it was |
| `Encode.EncodedBytes.Poll` | grpc-core/src/codec/encode.rs:64-103 | The polling loop over the mutable buffer is the step function of the batching stream |
| `SendBody.EncodeBody.EndingTrailers` | grpc-core/src/codec/encode.rs:249-268 | Once per server body, trailers with the stored error or Ok; never for a client |
| `SendBody.EncodeBody.Poll` | grpc-core/src/codec/encode.rs:276-295 | One poll of the body is the step function of the sender, failures of a server turned into trailers |
| `SendBody.RunDelivers` | grpc-core/src/codec/encode.rs:64-295 | A body consumed up to its first ending carries the frames of exactly the messages not lost in the buffer, in order, and the ending that reports why the source stopped; the lost ones stay in the buffer, are the last accepted ones, too few for a chunk, and there are some only at an encode failure |
| `SendBody.AllSentIfNoneLost` | grpc-core/src/codec/encode.rs:64-157 | A body has the frames of all accepted messages if and only if the buffer holds none when one cannot be encoded |
| `SendBody.EncodeFailureLoses` | grpc-core/src/codec/encode.rs:78-91 | A message below the threshold followed by one that cannot be encoded: the whole body is the trailers |
| `AfterTrailers.NothingFollowsTrailers` | grpc-core/src/codec/encode.rs:64-295 | However often a server body is polled after its trailers it gives only waits and ends, if and only if no message was lost in the buffer and the source has only waits behind its failure |
| `AfterTrailers.SilentIfSpent` | grpc-core/src/codec/encode.rs:248-295 | The same from any state whose end-of-stream flag is up: silent exactly with an empty buffer, no error held back and only waits to come |
| `AfterTrailers.DataAfterTrailers` | grpc-core/src/codec/encode.rs:276-295 | A message behind the failure of the source is given after the trailers |
| `AfterTrailers.LostComesLate` | grpc-core/src/codec/encode.rs:276-295 | A message lost in the buffer at an encode failure is given after the trailers |
| `Decode.Streaming.TryDecode` | grpc-core/src/codec/decode.rs:159-234 | Parsing one message out of the buffer is the step function, including where the buffer is left when a header or message is refused |
| `Decode.Streaming.NextFrame` | grpc-core/src/codec/decode.rs:236-271 | Taking one frame of the body is the step function: appends data, merges trailers, checks for partial data at the end, treats a cancelled request as ended |
| `Decode.Streaming.TakeTurn` | grpc-core/src/codec/decode.rs:287-304 | One round of the polling loop is the step function |
| `Decode.Streaming.Poll` | grpc-core/src/codec/decode.rs:284-305 | Each poll terminates and computes the step function of the receiver |
| `Decode.Streaming.NextMessage` | grpc-core/src/codec/decode.rs:139-145 | Waiting for the next message terminates and computes the receiver's next outcome |
| `Decode.Streaming.TakeTrailers` | grpc-core/src/codec/decode.rs:148-157 | Draining terminates and gives the trailers, or the failure that came first |
| `Decode.PollNext` | grpc-core/src/codec/decode.rs:284-305 | A poll that is not ready has used up part of the body, and a message costs at least five bytes of what is at hand and to come |
| `Decode.Await` | grpc-core/src/codec/decode.rs:139-157 | Each message leaves at least five bytes fewer at hand and to come, the measure by which draining ends |
| `Parsing.ObserveMeets` | grpc-core/src/codec/decode.rs:159-305 | From every state, repeated polling up to the first outcome that is not a message reports what the one-shot parser finds |
| `Parsing.ChunkingIsInvisible` | grpc-core/src/codec/decode.rs:174-305 | The results are a function of the bytes and the ending alone, whatever the split into data frames, empty frames and waits |
| `Receiving.ErrorIsTerminal` | grpc-core/src/codec/decode.rs:289-292 | In the error state any run of polls gives the stored error once, if any, and never a message |
| `Receiving.EndedIsQuiet` | grpc-core/src/codec/decode.rs:248-305 | With everything parsed and the body over, only the end follows if and only if no bytes are left over and the response stands for no failure; with bytes left over the truncation is reported for ever |
| `Receiving.AfterTheEnd` | grpc-core/src/codec/decode.rs:236-305 | For every whole body in which no message is refused: after its outcomes only the end follows if and only if it ended well and either nothing is left over or a failing status was reported; a broken body is reported once more, any other is truncated for ever |
| `Receiving.PartialThenTrailers` | grpc-core/src/codec/decode.rs:257-266 | One stray byte before good trailers: a clean end, and the truncation on every later poll |
| `Receiving.PartialThenEnd` | grpc-core/src/codec/decode.rs:248-255 | One stray byte and no trailers: the truncation on this and every later poll |
| `Receiving.BodyErrorIsSeenTwice` | grpc-core/src/codec/decode.rs:236-247 | A body error is reported, reported again, and then only the end follows, if and only if it is not the cancellation of a request, which is reported as the end |
| `Receiving.TruncationIsReported` | grpc-core/src/codec/decode.rs:248-255 | Without trailers the outcome is "Unexpected EOF" exactly when something other than one bare header follows the last complete message, for every chunking |
| `Receiving.BareHeaderIsAccepted` | grpc-core/src/codec/decode.rs:175-216 | A response of one header announcing three bytes ends cleanly |
| `Receiving.ObserveKeeps` | grpc-core/src/codec/decode.rs:236-305 | What each ending leaves: at a clean end the unparsed bytes, the trailers that arrived and the rest of the body; after a failing status a used-up error, after a broken body a stored one, after a truncation the bytes as they were |
| `Receiving.ResidueOfTail` | grpc-core/src/codec/decode.rs:174-216 | The bytes left in the buffer are those after the last complete message, without a header that was read |
| `Refusals.HeaderIsChecked` | grpc-core/src/codec/decode.rs:180-208 | A header is accepted if and only if its flag is 0, or 1 with an encoding, and its length is within the configured limit or four MiB; a flag is refused as Internal, a length as OutOfRange |
| `Refusals.FramesAreReadOrRefused` | grpc-core/src/codec/decode.rs:159-234 | For every body: each message delivered was announced with a known flag and within the limit and is the decoded content of its frame; the first frame that is refused ends the outcomes with its code, and otherwise the ending of the body decides |
| `Refusals.TooLongIsRefused` | grpc-core/src/codec/decode.rs:199-208 | A length above the limit is refused as OutOfRange before anything of the message arrives |
| `Refusals.CutOffIsInternal` | grpc-core/src/codec/decode.rs:248-255 | A body cut off inside a message is Internal, "Unexpected EOF decoding stream." |
| `Refusals.RequestEnds` | grpc-core/src/codec/decode.rs:236-282 | A request ends with its body, whatever its trailers say, or when it is cancelled |
| `Refusals.ResponseBreaks` | grpc-core/src/codec/decode.rs:236-247 | A response that breaks fails with the error, cancelled or not |
| `Refusals.RefusalConsumes` | grpc-core/src/codec/decode.rs:180-208 | An unknown flag costs its byte, a length above the limit the header |
| `Refusals.FailureTakesTrailers` | grpc-core/src/codec/decode.rs:273-282 | A failing status takes the trailers with it |
| `Wire.U32IsBigEndian` | grpc-core/src/codec/encode.rs:179-183 | The most significant byte of a length comes first |
| `Wire.U32RoundTrip` | grpc-core/src/codec/encode.rs:179-183 | The length field reads back as the length modulo 2^32 |
| `Text.PercentRoundTrip` | grpc-core/src/status.rs:9-19 | Percent-decoding undoes percent-encoding for all bytes, and the encoding is visible ASCII |
| `Text.EscapesAreExact` | grpc-core/src/status.rs:9-19 | Exactly the visible ASCII bytes outside the nine added characters stand for themselves; any other byte is a percent sign and two upper-case hex digits |
| `Text.StrayPercentStays` | grpc-core/src/status.rs:229-231 | A percent sign without two hex digits behind it stands for itself |
| `Text.Base64Faithful` | grpc-core/src/status.rs:460-478 | Whatever is decoded is spelled as the encoder does, the padding alone may be left out, so stray bits and characters are refused |
| `Text.Base64Layout` | grpc-core/src/status.rs:460-478 | One, two and three bytes by the bit layout and alphabet of RFC 4648 section 4 |
| `Text.Base64RoundTrip` | grpc-core/src/status.rs:460-478 | Base64 per RFC 4648 section 4, padded or not, decodes back and is visible ASCII, where the decoder does not insist on padding that was left out |
| `Text.Utf8RoundTrip` | grpc-core/src/status.rs:226-236 | Every message decodes back from its UTF-8 bytes |
| `Text.Utf8Faithful` | grpc-core/src/status.rs:226-236 | Whatever decodes as UTF-8 is the encoding of the result, so overlong forms and surrogates are refused |
| `Text.ValidUpToIsExact` | grpc-core/src/status.rs:229-234 | The index in the error text is where decoding first fails |
| `Text.IncompleteIsExact` | grpc-core/src/status.rs:229-234 | The error text calls bytes incomplete exactly if more bytes could complete a character |
| `Text.BadLengthIsLongest` | grpc-core/src/status.rs:229-234 | The number of bytes in the error text is that of the longest front that could be completed, at least one |
| `Headers.GetIsFirst` | grpc-core/src/metadata.rs:77-79 | A lookup gives the first value of a name |
| `Headers.MergeReplaces` | grpc-core/src/metadata.rs:90-92 | Where both maps have a name the values of the second replace those of the first |
| `Headers.SanitizedIsExact` | grpc-core/src/metadata.rs:45-50 | Exactly the custom names are kept, each with all its values |
| `Headers.SanitizedLastIsExact` | grpc-core/src/metadata.rs:53-59 | Exactly the custom names are added, each with its last value alone |
| `Headers.IntoSanitizedHeaders` | grpc-core/src/metadata.rs:45-50 | Exactly the reserved names are removed, all values of the others stay |
| `Headers.ExtendSanitizedInto` | grpc-core/src/metadata.rs:53-59 | In any iteration order the target gains the last value of each name that is not reserved |
| `Headers.InsertLastValues` | grpc-core/src/status.rs:237-247 | Copying entry by entry leaves one value per kept name, the last, whatever the order |
| `Status.CodeRoundTrip` | grpc-core/src/status.rs:46-65 | A code's header value parses back to the code and is visible ASCII |
| `Status.CodesAreWritten` | grpc-core/src/status.rs:24-66 | The codes are written as the numbers 0 to 16 |
| `Status.CodeIsExact` | grpc-core/src/status.rs:46-51 | A text reads as the code it is the number of, and any other text as Unknown |
| `Status.StatusIsWritten` | grpc-core/src/status.rs:281-308 | What is written: the number, the message percent-encoded, the details in unpadded base64, each only if there is one |
| `Status.BadMessageKeepsCode` | grpc-core/src/status.rs:226-278 | A message that is not UTF-8 is replaced by what is wrong with it; code and other headers stay |
| `Status.BadDetailsAreInternal` | grpc-core/src/status.rs:237-251 | Details that are no base64 are an internal error |
| `Status.NoStatusIsNone` | grpc-core/src/status.rs:226-227 | There is a status if and only if there is a status header |
| `Status.OtherHeadersAreExact` | grpc-core/src/status.rs:253-264 | The metadata read is every other header with its last value |
| `Status.HttpDecides` | grpc-core/src/status.rs:422-455 | Without a status header 200 is a success and any other HTTP code a failure |
| `Status.HttpCodes` | grpc-core/src/status.rs:436-448 | Which HTTP codes become which status code |
| `Status.WriteStatus` | grpc-core/src/status.rs:281-308 | Writing a status into a header map step by step is the specification function, with its error branches |
| `Status.ParseStatus` | grpc-core/src/status.rs:226-278 | Reading a status from a header map is the specification function, with its error branches |
| `Status.AddHeaderSucceeds` | grpc-core/src/status.rs:281-314 | For no status can writing fail: the header-value error branches are unreachable |
| `Status.StatusRoundTrip` | grpc-core/src/status.rs:226-313 | On any target without message and details headers, reading back gives code, message and details whatever the metadata, and the metadata filtered |
| `Status.HeaderMapRoundTrip` | grpc-core/src/status.rs:226-314 | `from_header_map(to_header_map(s))` is `s` with reserved names dropped and the last value per name |
| `Status.IntoHttpSucceeds` | grpc-core/src/status.rs:320-333 | A trailers-only response always carries the full status |
| `Compression.PickEncoding` | grpc-core/src/codec/compression.rs:83-100 | For every accept header the first listed, trimmed entry that is enabled is picked, and nothing only if there is none |
| `Compression.PrintAcceptEncoding` | grpc-core/src/codec/compression.rs:138-154 | The enabled encodings in fixed order, joined by commas; none if none is enabled |
| `Compression.NegotiationAgrees` | grpc-core/src/codec/compression.rs:54-154 | From a header this client printed the server picks an encoding both have enabled whenever there is one, and the client accepts its announcement |
| `Compression.NamesAreExact` | grpc-core/src/codec/compression.rs:26-47 | The three names, and no other text |
| `Compression.BlanksAreDropped` | grpc-core/src/codec/compression.rs:90-98 | Blanks around a listed entry do not matter |
| `Compression.AcceptIsWritten` | grpc-core/src/codec/compression.rs:138-154 | The header as printed for several choices |
| `Compression.EncodingIsChecked` | grpc-core/src/codec/compression.rs:54-80 | An announced encoding is taken if and only if it is known and accepted; unreadable text is Internal, anything else Unimplemented |
| `Compression.NoListNoPick` | grpc-core/src/codec/compression.rs:83-88 | Without a readable list nothing is picked |
| `Compression.SplitJoin` | grpc-core/src/codec/compression.rs:83-154 | Splitting undoes joining for entries without commas |
| `Rpc.PrepareRequest` | grpc-client/src/grpc.rs:257-284 | Request headers: metadata filtered, then the protocol's own entries |
| `Rpc.ClientStreaming` | grpc-client/src/grpc.rs:135-169 | Reading a response through the stream object is the specification of the client half, trailers-only detection included |
| `Rpc.MapRequestUnary` | grpc-server/src/grpc.rs:178-212 | Reading a unary request through the stream object is the specification of the server half |
| `Rpc.Unary` | grpc-server/src/grpc.rs:77-103 | Handling a call step by step is the specification of the server: picked encoding, trailers-only errors, filtered response metadata |
| `Rpc.RequestHeadersAreExact` | grpc-client/src/grpc.rs:257-284 | A request has exactly the caller's custom metadata, all values, and the protocol's own headers, none of the status |
| `Rpc.ResponseHeadersAreExact` | grpc-server/src/grpc.rs:241-271 | A response has exactly the custom metadata of the answer, and the encoding that was picked |
| `Rpc.TrailersOnlyIsExact` | grpc-server/src/grpc.rs:16-27 | A trailers-only response has no body, the custom metadata of the status and the content type |
| `CallEndings.OneIsRead` | grpc-server/src/grpc.rs:178-212 | Reading one message: a failure before or behind it, further messages or not, is the result; nothing in its place is the missing message; only a clean end gives it, with the trailers on top of the headers |
| `CallEndings.ResponseIsRead` | grpc-client/src/grpc.rs:135-331 | For every response: a failing status in the headers is the result, otherwise the outcomes of the body, read with the named settings, decide |
| `CallEndings.RequestIsRead` | grpc-server/src/grpc.rs:178-212 | For every request: a refused encoding or the outcomes of the body decide |
| `CallEndings.StreamAnswers` | grpc-client/src/grpc.rs:135-169 | A unary call answered by any stream over any transport: the first message if the stream ends well, its status if it fails, the missing message if there is none |
| `CallEndings.LateFailureFails` | grpc-client/src/grpc.rs:150-169 | A message and then a failure: the call fails with that failure |
| `CallEndings.UnreadableRequestFails` | grpc-server/src/grpc.rs:77-103 | A request the server cannot read fails the call with the reason |
| `CallEndings.UnsupportedEncodingFails` | grpc-core/src/codec/compression.rs:54-80 | A request compressed with what the server does not accept fails as Unimplemented |
| `CallEndings.LongAnswerFails` | grpc-core/src/codec/encode.rs:159-178 | An answer above the server's send limit fails at the client as OutOfRange |
| `CallEndings.LongResponseFails` | grpc-core/src/codec/decode.rs:199-208 | A response above the client's receive limit fails as OutOfRange |
| `CallEndings.LongRequestFails` | grpc-core/src/codec/decode.rs:199-208 | A request above the server's receive limit is refused as OutOfRange |
| `CallEndings.TrailersCanBeTaken` | grpc-core/src/codec/decode.rs:148-157 | After a clean end the trailers can be taken, once |
| `CallEndings.TrailersAddUp` | grpc-core/src/codec/decode.rs:261-266 | Trailers in two frames add up, later names replacing earlier ones |
| `CallEndings.AnswerMetadataIsExact` | grpc-client/src/grpc.rs:164-168 | The metadata of an answer is the service's custom entries and the status Ok |
| `UnaryCall.RequestArrives` | grpc-server/src/grpc.rs:178-212 | Over any re-chunking transport the server decodes the very request that was sent, with the headers the client put on it |
| `UnaryCall.CallReturnsAnswer` | grpc-client/src/grpc.rs:116-169 | A call whose service answers returns that message, whatever the metadata on either side |
| `UnaryCall.CallReturnsFailure` | grpc-server/src/grpc.rs:241-271 | A call whose service fails returns the same code, message and details exactly when the code is not Ok |
| `UnaryCall.UnencodableAnswerFails` | grpc-client/src/grpc.rs:150-160 | A call whose answer cannot be encoded fails at the client with the encoder's own status, the response headers as its metadata |
| `UnaryCall.FailureArrives` | grpc-client/src/grpc.rs:289-331 | A trailers-only response gives the client its status; with code Ok it gives "Missing response message." |
| `UnaryCall.EchoReturns` | grpc-server/src/grpc.rs:286-336 | The echo service of the repository's own example gives any caller its bytes back, whatever both sides compress and accept: the premises of the call theorems can be met |
| `UnaryCall.PickedIsAccepted` | grpc-server/src/grpc.rs:77-103 | User metadata cannot break negotiation: what the server picks the client accepts |
| `GrpcWeb.EncodeTrailers` | grpc-web/src/call.rs:210-231 | Builds the trailer frame line by line: flag, length, block, padded base64 in text mode |
| `GrpcWeb.GrpcWebCall.Poll` | grpc-web/src/call.rs:149-207 | One poll of the response body is the step function of the gRPC-Web encoder |
| `GrpcWeb.WebRunDecodes` | grpc-web/src/call.rs:149-231 | In both modes the chunks, each decoded on its own, concatenate to the inner data followed by one trailer frame, and the body ends |
| `GrpcWeb.EndIsFinal` | grpc-web/src/call.rs:149-207 | After a clean end the trailer frame has been sent and only ends follow |
| `WebClient.WebCallIsReadable` | grpc-web/src/call.rs:149-231 | An independent reader finds in the gRPC-Web body of a server call the frames of the messages sent, then one last 0x80 frame whose block parses back to the trailers and the status |
| `WebClient.EmptyTrailerFrame` | grpc-web/src/call.rs:191-203 | A body that ends without trailers gets an empty trailer frame |
| `WebClient.BrokenHasNoTrailers` | grpc-web/src/call.rs:190-190 | A body that breaks gets none |
| `GrpcWeb.NamesAreSpelled` | grpc-core/src/metadata.rs:10-19 | The reserved names as they are spelled |
| `WebClient.BodyParses` | grpc-web/src/call.rs:210-231 | Whole message frames followed by a trailer frame split back into just those |
| `WebClient.LinesParse` | grpc-web/src/call.rs:210-222 | The name:value CRLF block parses back to the same entries |
| `WebClient.TrailerLengthIsExact` | grpc-web/src/call.rs:224-231 | The length field is exact if and only if the block is shorter than 2^32 bytes |
| `Reachability.SplitUndoesQualify` | grpc-codegen/src/flatbuffers.rs:227-241 | Splitting an identifier gives back namespace and name exactly for names without dots |
| `Reachability.CollectRpcIo` | grpc-codegen/src/flatbuffers.rs:245-260 | Exactly the messages that some RPC takes or returns |
| `Reachability.BareNameIsLast` | grpc-codegen/src/flatbuffers.rs:342-352 | Of a type path only what follows the last `::` counts |
| `Reachability.FindIsFirst` | grpc-codegen/src/flatbuffers.rs:320-334 | The message found is the first that matches |
| `Reachability.ReferencesAreExact` | grpc-codegen/src/flatbuffers.rs:291-315 | A type refers to exactly those messages that the names standing anywhere inside it, by a path through vectors, options, map keys, map values and union variants, are found as |
| `Reachability.CollectReferenced` | grpc-codegen/src/flatbuffers.rs:291-315 | Adds exactly the messages that names anywhere inside a type are found as |
| `Reachability.CollectRpcRelevantMessages` | grpc-codegen/src/flatbuffers.rs:269-287 | Terminates on cyclic schemas with the least set that holds the messages of all RPCs and, for each message in it, those that names anywhere inside its fields are found as |
| `Reachability.EveryKindIsFollowed` | grpc-codegen/src/flatbuffers.rs:291-315 | A message that stands only inside a vector, an option, either side of a map, or a union is collected |
| `Reachability.Resolves` | grpc-codegen/src/flatbuffers.rs:320-334 | With dot-free names the not-found branch never fires; the message found is the one meant if and only if the stated condition on the root namespace holds |
| `Reachability.CollectedAreSelf` | grpc-codegen/src/flatbuffers.rs:269-334 | With dot-free names every identifier the worklist takes up leads to a message with that identifier, never to none or to another |
| `Reachability.ShadowedIsMissed` | grpc-codegen/src/flatbuffers.rs:320-350 | A root message behind a namesake in another namespace is never collected |
| `Reachability.ShadowedRoot` | grpc-codegen/src/flatbuffers.rs:245-334 | A schema whose RPC is on such a message: only the namesake is collected, not the message or its field's type |
| `Reflection.ReflectionServerBuilder.IndexMessageTypes` | grpc-reflection/src/lib.rs:53-75 | After the recursive walk the index is the old one with exactly the symbols that some path through nested messages and enums spells, leading to this file |
| `Reflection.ReflectionServerBuilder.RegisterFile` | grpc-reflection/src/lib.rs:107-152 | The index keeps agreeing with a search through all registered files, the last one first |
| `Reflection.ReflectionServerBuilder.Register` | grpc-reflection/src/lib.rs:97-154 | The same for a descriptor set, and the list of services grows by all named services in order |
| `Reflection.ReflectionServerBuilder.Build` | grpc-reflection/src/lib.rs:163-179 | The reflection service is listed, once |
| `Reflection.AnswersAreSearches` | grpc-reflection/src/lib.rs:232-270 | A symbol is answered with the last registered file that declares it, and not found if and only if none does; likewise for file names |
| `Reflection.OneMoreMessage` | grpc-reflection/src/lib.rs:53-75 | A symbol is declared by a longer list of messages exactly if it is by the shorter one or by the added message, at any depth |
| `Reflection.OtherAnswers` | grpc-reflection/src/lib.rs:240-280 | The list of services is given as it is; what is not supported has its code |
| `Reflection.NamesAreThose` | grpc-reflection/src/lib.rs:124-130 | The list has exactly the full names of the services that have one |
| `Reflection.EveryKindIsDeclared` | grpc-reflection/src/lib.rs:107-152 | A file with a service, method, message, nested message, nested enum and enum declares just these six symbols |
| `Reflection.UnnamedHides` | grpc-reflection/src/lib.rs:53-75 | Nothing is declared below a message without a name |
| `Reflection.DottedIsJoined` | grpc-reflection/src/lib.rs:44-50 | A symbol is package and names joined by dots, an empty package left out |
| `Timeout.TimeoutIsPrecise` | grpc-core/src/request.rs:174-212 | Every duration gets at most eight digits and a unit, never more than the duration, or 99999999 hours if that is less, less than one unit less, and for coarse units a loss under one part in 100000 |
| `Timeout.FinestUnitIsTaken` | grpc-core/src/request.rs:174-212 | The duration, or 99999999 hours if that is less, in the finest unit that fits, and one always fits, so the final `expect` is unreachable |
| `Timeout.QuarterSecond` | grpc-core/src/request.rs:174-212 | A quarter of a second is 250000 microseconds |
| `Balance.BalancedChannel.Call` | grpc-client/src/balance.rs:71-75 | One call takes one ticket of the shared wrapping counter |
| `Balance.WindowIsFair` | grpc-client/src/balance.rs:71-75 | Any window of tickets without wrap-around gives each endpoint the rounded-down or rounded-up share |
| `Balance.WrappedWindowIsFair` | grpc-client/src/balance.rs:71-75 | A window across one wrap-around gives any two endpoints counts that differ by at most two |
| `Router.Router.AddService` | grpc-server/src/router.rs:61-74 | Registers under the slash-prefixed name, replacing an earlier service of that name; the table stays what the registrations so far make of it |
| `Router.Router.Route` | grpc-server/src/router.rs:95-104 | In any iteration order some matching service, or none only if none matches |
| `Router.Router.Call` | grpc-server/src/router.rs:181-196 | The routed service answers, else the fallback, else unimplemented; with slash-free names the routed service is the one registered last under the service part of the path |
| `Router.RouteIsLastRegistered` | grpc-server/src/router.rs:95-104 | With slash-free names every order finds the service registered last under the text between the first two slashes, or none |
| `Router.AtMostOneMatch` | grpc-server/src/router.rs:61-104 | No path matches two names if and only if no name continues another after a slash |
| `Health.HealthState.InsertStatus` | grpc-health/src/lib.rs:76-82 | The first step of setting a status |
| `Health.HealthState.Notify` | grpc-health/src/lib.rs:84-91 | The second step: the channel changes only if it exists and somebody listens |
| `Health.HealthState.Check` | grpc-health/src/lib.rs:145-161 | The table's status, ServiceUnknown without one |
| `Health.HealthState.Join` | grpc-health/src/lib.rs:177-193 | Subscribes to the channel, or makes one with the value looked up before |
| `Health.InitiallyServing` | grpc-health/src/lib.rs:108-123 | At first the server as a whole is serving and every named service is unknown |
| `Health.ReportsOncePerSend` | grpc-health/src/lib.rs:193-203 | A stream reports a value once, and again after the next send |
| `Health.NothingIsInvented` | grpc-health/src/lib.rs:76-203 | Over all interleavings of the lock-sized steps, everything Check answers and every report of every watcher is the built-in status of that service or one that was set for it |
| `Health.HealthState.SetStatus` | grpc-health/src/lib.rs:76-91 | Uninterrupted, Check answers the status and the channel says it if and only if it is missing or the send is heard; other services keep their agreement |
| `Health.HealthState.Watch` | grpc-health/src/lib.rs:172-193 | Uninterrupted, watching changes no agreement of channel and table, and a new channel agrees |
| `Health.LastOnesCount` | grpc-health/src/lib.rs:76-203 | In every run Check answers what was set last and the channel says what was announced last, by a heard send or by the watcher that made it |
| `Health.LastSettingDecides` | grpc-health/src/lib.rs:76-203 | With any overlap, behind the call that inserted last Check answers its status, and the channel agrees if and only if that call was also the last to be heard, or whoever was announced an equal status |
| `Health.LastSettingExists` | grpc-health/src/lib.rs:76-203 | Every run that sets a service, and ends with nobody half way through setting it, has such a last call |
| `Health.SetIsSeen` | grpc-health/src/lib.rs:76-203 | After a status is set while nobody else sets that service, Check answers it until the next setting; a channel that was there agrees if and only if the send had a live receiver or nothing to change, one made later if and only if its maker looked that status up |
| `Health.LastReportIsStatus` | grpc-health/src/lib.rs:172-203 | A watcher that was listening when the status was set and has nothing left to report has reported that status last |
| `Health.StaleJoiner` | grpc-health/src/lib.rs:177-193 | A run in which a watcher that looked up too early starts with a stale status |
| `Health.DeafChannel` | grpc-health/src/lib.rs:84-91 | A run in which a channel without listeners misses a status |
| `Health.CrossedSetters` | grpc-health/src/lib.rs:76-91 | A run in which two settings leave the channel with the earlier one |

## Left out

- Decode.Streaming.TryDecode: does not model decoders that return no message or leave part of their window unread; the decoder is a function from the whole window to a message or an error, because otherwise the buffer is left in the middle of a frame and no property of the stream follows.
- Sockets, hyper, QUIC, TLS and timers: input and output over libraries, no logic of their own to prove.
- The bodies of gzip, deflate, zstd, prost and FlatBuffers: foreign code; functions that undo each other stand for them.
- Everything after the first parse error: the buffer is then left in the middle of a frame and nothing useful is promised.
- Capacity and reuse of buffers, wakers and pinning: polls are plain steps; the buffer of the encoder never runs out of room.
- Unary calls over a transport that itself fails, and requests that cannot be encoded: the client's answer is then the transport's error.
- Streaming responses and requests at the call level: they hand out the stream object whose behaviour is proved in `Transparency` without further steps of their own.
- Building the request URI, origin handling and extensions of requests and responses: not part of the wire protocol.
- The source error inside a status, conversion from I/O errors, codes from integers and searching error chains: finite tables or single branches.
- gRPC-Web request decoding: leftover base64 characters are bypassed when the next frame decodes alone, so the result depends on the chunking and no chunking-independent property holds.
- gRPC-Web pass-through of other requests: the response wrapper rewrites trailers there too.
- The echo of the request and the host name inside a reflection response, decoding of descriptor sets, manual registration of service names, and interceptors: single insertions or foreign code.
- Generated Rust and Dart text: string templates.
- The polling of endpoints for readiness and the capacity limits of the server: plumbing over libraries.
- Health.HealthState.Join: the removal of a receiver that is dropped happens inside the channel library and is only a step of the run model, `Drop`.
