# A model of Hnw's TLS echo server, Base64 codec and HTTP plumbing

This project models, in Dafny, the parts of the Hnw network library whose behaviour is hardest to see from the
code, and proves what they keep. `dafny verify dfyconfig.toml` checks all of it.

**The TLS echo server** (`Hnw/Example/SSLTest/main.cpp`) is a callback-driven server. Its `server` allocates a
`session` for the next connection, waits for the accept, starts or deletes the session, and always accepts again; a
`session` goes through a handshake and then reads and writes in turn, using one 1024-byte buffer, and deletes
itself on the first error. One thread runs all handlers, so a handler is one atomic step. The environment chooses
which outstanding operation completes next, with which result and how many bytes.

- `EchoSession` is one client on its own: a sequential automaton with explicit phases.
- `EchoWorld` is the whole server on values: the memory of every session ever allocated, and the multiset of
  outstanding operations. Touching or deleting a deleted session is an outcome of its own (`UseAfterFree`,
  `DoubleFree`), so that its absence is a theorem.
- `EchoRuns` has the theorems about every run: refinement of the interleaved server to sequential clients, the
  bijection between live sessions and outstanding operations, echo safety, completion, buffer stability,
  conservation, commutation of different clients' steps; and conversely, that the runs are exactly the
  interleavings of sequential conversations.
- `EchoHeap` is the program in its own form: classes `Session`, `Server` and `IoService`, a buffer changed in
  place, `new` and `delete`, an event loop. Each method is tied to the state machine of `EchoWorld`; `Serve` ends
  in the state that `EchoRuns.Run` describes, so all theorems about runs hold of it.

Boost.Asio is not part of this model; its contract is `EchoSession.Allowed`: every started operation completes at most
once, a read delivers 0 to 1024 bytes (none if it fails), a composed write hands over its buffer in pieces of any
size, may fail at any point, and succeeds only when everything has been handed over.

**The Base64 codec** (`encode_base64`, `decode_base64` in `Hnw/Src/http/util/http_util.hpp`) runs Boost's iterator
adaptors. `Base64` states what the two functions compute, on strings of bits (module `BitStrings`), and proves the
laws of the codec; `Base64Blocks` is the block-wise encoding of section 4 of RFC 4648, with byte arithmetic, proved
equal to it, and gives the values that the unit tests expect. `Base64Iterators` has the iterator `transform_width`
as a class with its fields and branches, and the two functions as loops over it, proved to compute `Encode` and
`Decode`. Boost's adaptors are not part of the repository; the class follows their published behaviour.

**Their neighbours.** `Split` is `util::split`. `BasicAuth` sends and reads back Basic credentials through the codec
and `split`. `ClientSend` is `ASIOClientChannel::async_send`. `ResponseParser` is the incremental HTTP response
parser with its body; `ContentLength` has what the session adds to a response before sending it, and the decimal
length that the receiver finds.

## Where the code differs from what it is for

Each of these is proved: a concrete input for which it fails, or the exact condition under which it holds.

- The codec itself is a bijection between all byte strings and the canonical strings (`Base64.EncodeIsCanonical`,
  `Base64.CanonicalIsEncoded`, `Base64.Bijection`). But `decode_base64` returns `result.str().c_str()`
  (`Hnw/Src/http/util/http_util.hpp:631`), which ends at the first NUL: `Decode(Encode(d)) == d` holds exactly for the
  byte strings without a NUL (`Base64.RoundTrip`, `Base64.RoundTripFails`).
- The decoding iterator reads one element past the end of the string exactly if all symbols are in the table and
  their number is one more than a multiple of four (`Base64Iterators.DecodeBase64`). What it finds there is the
  terminating NUL, which is not in the table, so that the result is then empty.
- Basic credentials come back as they were set exactly if neither name nor password contains a colon or a NUL
  (`BasicAuth.CredentialsRoundTrip`, `BasicAuth.CredentialsFail`). Section 2 of RFC 7617 allows colons in a password.
- `async_send` starts over from the beginning of the buffer when a write took only a part, because `beg` is passed
  on but not used. The buffer arrives intact however it is cut up exactly if all its bytes are equal
  (`ClientSend.DeliveredUnderAnyChunking`), and a way of cutting up is harmless for every buffer exactly if it
  cuts nothing (`ClientSend.ChunkingDeliversEverything`; `ClientSend.SendFails`).
- A response arrives as it was sent exactly if its start line and heads contain no LF and no CR, the fields of the
  start line contain no space, no head has an earlier or second `": "`, and the heads declare the length of a body
  that can be made (`ResponseParser.ConnectionDelivers`, for any number of responses on a connection). Nothing in
  `add_head` keeps a CR or LF out, and reason phrases such as "Not Found" contain a space
  (`ResponseParser.RereadFails` has an input for each of the three).

## Model

| member | source | states |
|---|---|---|
| EchoSession.Run | Hnw/Example/SSLTest/main.cpp:33-90 | After any events that can happen to one client, what was received is what was sent followed by the unsent tail of the buffer, the history follows the protocol, and the session is deleted iff the history ends in an error. |
| EchoSession.WhatMayHappen | Hnw/Example/SSLTest/main.cpp:33-90 | Exactly which events can follow in each phase: accept, handshake, good reads of any number of bytes up to 1024, any piece of what is left of a write, its good end when nothing is left, and a failure at any time. |
| EchoSession.FailureDeletes | Hnw/Example/SSLTest/main.cpp:49-84 | An error in any phase deletes the session, and neither stream changes. |
| EchoSession.StepKeepsInv | Hnw/Example/SSLTest/main.cpp:40-85 | Every handler, and every piece of a composed write, keeps the invariant of a session. |
| EchoSession.ReceivedIsDelivered | Hnw/Example/SSLTest/main.cpp:55-63 | A session receives exactly the bytes its reads delivered, in order. |
| EchoSession.ChunkingIndependence | Hnw/Example/SSLTest/main.cpp:40-85 | Two conversations given the same input, cut into reads and pieces of writes in any two ways, have sent the same bytes, namely that input, whenever both are reading again. |
| EchoSession.OrdinaryConversation | Hnw/Example/SSLTest/main.cpp:33-90 | Any input, cut into any reads of 0 to 1024 bytes and each written back in any non-empty pieces, is a conversation that can be had; it sends exactly the input back, and its history is accept, handshake, (read, write) for each read. |
| EchoSession.RankDecreases | Hnw/Example/SSLTest/main.cpp:40-85 | Without errors and empty reads, every event of a client lowers a measure of unread bytes, unwritten bytes and phase, which stays non-negative. |
| EchoSession.StuckExactlyWhenEchoed | Hnw/Example/SSLTest/main.cpp:40-85 | A live session has no next event exactly when it is reading and the whole input has been received and sent; the measure is zero exactly then. |
| EchoSession.EveryConversationCompletes | Hnw/Example/SSLTest/main.cpp:40-85 | An undisturbed conversation about a finite input has at most 2 + 3 * its length events, and when none can follow the client has got back what it sent. |
| EchoWorld.StepIsEffect | Hnw/Example/SSLTest/main.cpp:40-140 | For a live session the dispatched handler neither uses nor deletes freed memory, and has the effect of one replacement in that session, followed after an accept by one allocation. |
| EchoWorld.FaultsExactlyWhenDead | Hnw/Example/SSLTest/main.cpp:40-140 | A completion for a deleted session is always a use after free or a double free, one for a live session never. |
| EchoWorld.EffectKeepsBijection | Hnw/Example/SSLTest/main.cpp:119-140 | Every step keeps it true that each outstanding operation belongs to a live session with no other operation, and that there are as many of them as live sessions. |
| EchoWorld.EffectKeepsInv | Hnw/Example/SSLTest/main.cpp:33-140 | Every step keeps the invariant of the server: buffers and bounds, the bijection, and the one accept for the newest session. |
| EchoRuns.Run | Hnw/Example/SSLTest/main.cpp:96-163 | In every state of every run, buffers have their size and every operation stays within the buffer of an allocated session. |
| EchoRuns.RunInv | Hnw/Example/SSLTest/main.cpp:96-163 | The invariant of the server holds in every state of every run. |
| EchoRuns.Execute | Hnw/Example/SSLTest/main.cpp:33-163 | Executing the handlers one after the other never ends in a use after free or a double free, and gives the state of the run. |
| EchoRuns.NextStep | Hnw/Example/SSLTest/main.cpp:163 | Each turn of the event loop is a legal, fault-free step between two states of the run, in which the invariant holds. |
| EchoRuns.WhatMayHappen | Hnw/Example/SSLTest/main.cpp:33-140 | Exactly how each outstanding operation of the server can go on, in every state of every run: which completions, which byte counts, which failures. |
| EchoRuns.OwnStep | Hnw/Example/SSLTest/main.cpp:40-85 | A step of a session is a step of the sequential automaton. |
| EchoRuns.RefinesStep | Hnw/Example/SSLTest/main.cpp:33-140 | Each step extends the refinement of every session: by its own event for the session concerned, by nothing for the others. |
| EchoRuns.Refinement | Hnw/Example/SSLTest/main.cpp:33-163 | Any run of the server, with any number of clients, projected onto one session is a run of the sequential automaton and leaves that session's buffer, phase, streams and history as that run does. |
| EchoRuns.Outstanding | Hnw/Example/SSLTest/main.cpp:33-140 | Every live session has an outstanding operation. |
| EchoRuns.Ownership | Hnw/Example/SSLTest/main.cpp:33-140 | In every state between handlers live sessions and outstanding operations correspond one to one; no completion is for a deleted session. |
| EchoRuns.Determinacy | Hnw/Example/SSLTest/main.cpp:33-90 | Two sessions, of any two runs, with the same initial memory and the same own events are in the same state, whatever the other clients did. |
| EchoRuns.Confluence | Hnw/Example/SSLTest/main.cpp:33-140 | Two runs that allocate the same memory and in which the same happens to each session reach the same state of the whole server, sessions and outstanding operations, however their events are ordered. |
| EchoRuns.Interleavings | Hnw/Example/SSLTest/main.cpp:33-140 | The runs of the server are exactly the interleavings of conversations of the sequential automaton, of any number of clients in any order in which each session is allocated by an earlier accept: a sequence of events is a run, with its operations filled in, if and only if it is such an interleaving. |
| EchoRuns.EveryConversationHappens | Hnw/Example/SSLTest/main.cpp:33-140 | In particular every conversation of the sequential automaton is one the first client can have while nobody else connects. |
| EchoRuns.Diamond | Hnw/Example/SSLTest/main.cpp:33-140 | Steps of different sessions do not fault, do not disable each other, and give the same state in either order. |
| EchoRuns.EchoSafety | Hnw/Example/SSLTest/main.cpp:40-90 | In every state, what was sent is a prefix of what was received, at most 1024 bytes shorter; nothing is missing while a read is outstanding, and exactly the unwritten part of the buffer while a write is. |
| EchoRuns.EveryClientIsServed | Hnw/Example/SSLTest/main.cpp:40-85 | However clients are interleaved, a client without errors sees at most 2 + 3 * its input's length events, and has its whole input back when nothing more can happen to it. |
| EchoRuns.OrdinaryClients | Hnw/Example/SSLTest/main.cpp:33-163 | Any number of clients, each sending any input in any reads of up to 1024 bytes and getting it back in any pieces, interleaved in any way, can be served, and each gets back exactly what it sent. |
| EchoRuns.TraceLanguage | Hnw/Example/SSLTest/main.cpp:33-140 | The history of a session is a prefix of accept, handshake, (read, write)*, only the last entry may be an error, and the session is deleted exactly if it is. |
| EchoRuns.BufferStability | Hnw/Example/SSLTest/main.cpp:55-90 | While a write is outstanding nothing that happens to any session changes its buffer, and what has been sent meanwhile is what stands in it. |
| EchoRuns.Conservation | Hnw/Example/SSLTest/main.cpp:111-140 | Sessions allocated are one plus the accept completions, good or bad; they are those alive plus one for each error; those alive are as many as the outstanding operations. |
| EchoRuns.AlwaysAccepting | Hnw/Example/SSLTest/main.cpp:119-140 | In every state exactly one accept is outstanding, for the session allocated last, which has had no events and is as it was allocated. |
| EchoRuns.BoundedBacklog | Hnw/Example/SSLTest/main.cpp:44-90 | The bytes received and not yet sent, over all live sessions, are at most 1024 for each outstanding write. |
| EchoHeap.Session.constructor | Hnw/Example/SSLTest/main.cpp:22-26 | A new session is alive, with its own buffer of arbitrary content and empty streams and history. |
| EchoHeap.Session.Start | Hnw/Example/SSLTest/main.cpp:33-38 | Begins the handshake, and nothing else. |
| EchoHeap.Session.HandleHandshake | Hnw/Example/SSLTest/main.cpp:40-53 | Begins a read, or deletes the session. |
| EchoHeap.Session.HandleRead | Hnw/Example/SSLTest/main.cpp:55-70 | Begins a write of exactly the bytes transferred, or deletes the session. |
| EchoHeap.Session.HandleWrite | Hnw/Example/SSLTest/main.cpp:72-85 | Begins the next read, or deletes the session. |
| EchoHeap.Session.Deliver | Hnw/Example/SSLTest/main.cpp:44-47 | A read overwrites the start of the buffer in place and leaves the rest of it. |
| EchoHeap.Session.CompleteRead | Hnw/Example/SSLTest/main.cpp:55-70 | The bytes of a completed read in the buffer, the streams, the history and what is outstanding after the handler. |
| EchoHeap.Server.constructor | Hnw/Example/SSLTest/main.cpp:96-112 | The server starts with one session waiting for its accept. |
| EchoHeap.Server.StartAccept | Hnw/Example/SSLTest/main.cpp:119-125 | Allocates one session, begins its accept, and changes no other session. |
| EchoHeap.Server.HandleAccept | Hnw/Example/SSLTest/main.cpp:127-140 | Starts or deletes the session, and accepts again in either case. |
| EchoHeap.Server.ReadCompleted | Hnw/Example/SSLTest/main.cpp:55-70 | The bytes delivered into the buffer and the handler together are the step of the state machine. |
| EchoHeap.Server.WriteAdvanced | Hnw/Example/SSLTest/main.cpp:60-63 | A piece of a composed write is taken from the buffer as it is then. |
| EchoHeap.Server.Dispatch | Hnw/Example/SSLTest/main.cpp:163 | One turn of the event loop on the heap is the step of the state machine; the handler's session is alive. |
| EchoHeap.Serve | Hnw/Example/SSLTest/main.cpp:148-163 | The program, given any completions that can happen, ends in the state of the corresponding run. |
| Base64.EncodedLength | Hnw/Test/TestHttpUtil.cpp:13-23 | n bytes become 4 * ceil(n / 3) symbols, of which exactly the last (3 - n mod 3) mod 3 are padding. |
| Base64.SymbolsAreTheAlphabet | Hnw/Test/TestHttpUtil.cpp:13-23 | The symbol of each 6-bit value is the one in its place of "A-Za-z0-9+/", table 1 of RFC 4648. |
| Base64.LookupIsTheAlphabet | Hnw/Test/TestHttpUtil.cpp:27-31 | The decoding table gives each symbol its place in that alphabet, the padding symbol zero, and refuses every other character. |
| Base64.RoundTrip | Hnw/Test/TestHttpUtil.cpp:10-14 | Decoding what was encoded returns it: for the code, exactly if there is no NUL among the bytes (for the codec itself, always: EncodeIsCanonical). |
| Base64.EncodeIsCanonical | Hnw/Test/TestHttpUtil.cpp:10-23 | Every encoding, of any bytes of any length, is canonical (whole groups, padding at the end, unused bits zero), and removing the padding and regrouping its bits recovers exactly those bytes. |
| Base64.CanonicalIsEncoded | Hnw/Test/TestHttpUtil.cpp:21-31 | Every canonical string is the encoding of the bytes it carries. |
| Base64.DecodeOfCanonical | Hnw/Test/TestHttpUtil.cpp:27-31 | On every canonical string decode_base64 recovers the bytes it carries, up to the first NUL. |
| Base64.Bijection | Hnw/Test/TestHttpUtil.cpp:21-31 | Encoding is injective, and its image is exactly the canonical strings. |
| Base64.EncodeConcat | Hnw/Test/TestHttpUtil.cpp:13-23 | Whole groups of three bytes are encoded independently of what follows. |
| Base64.CanonicalConcat | Hnw/Test/TestHttpUtil.cpp:27-31 | A canonical string without padding, followed by a canonical string, is canonical and carries the bytes of both. |
| Base64Blocks.BlockBits | Hnw/Test/TestHttpUtil.cpp:21-23 | The symbols computed from one to three bytes by division and remainder have the bits of the bytes, zero-filled. |
| Base64Blocks.BlocksAreBits | Hnw/Test/TestHttpUtil.cpp:13-23 | Encoding block by block, with a padded tail, equals encoding the zero-filled string of bits (section 4 of RFC 4648). |
| Base64Blocks.EncodeTests | Hnw/Test/TestHttpUtil.cpp:10-23 | The encodings that the unit tests expect. |
| Base64Blocks.DecodeTests | Hnw/Test/TestHttpUtil.cpp:12-30 | The decodings that the unit tests expect, among them the empty result for white space. |
| Base64Blocks.OnesTest | Hnw/Test/TestHttpUtil.cpp:31 | The last expected decoding, for any number of repetitions. |
| Base64Iterators.EncodeBase64 | Hnw/Test/TestHttpUtil.cpp:10-23 | encode_base64, as a loop over the iterator adaptor followed by the padding, computes Encode for every byte string. |
| Base64Iterators.DecodeBase64 | Hnw/Test/TestHttpUtil.cpp:26-31 | decode_base64, as a loop over the iterator adaptor, computes Decode for every string, malformed ones included; it overruns the string exactly if that is readable and has one symbol too many. |

## Members that model sources in a local encoding

The files of the library itself have comments in a Chinese encoding (GBK), so they are not UTF-8 text; the lines
below count line feeds. Read as Latin-1, the code in them is plain ASCII.

| member | source | states |
|---|---|---|
| Base64.RawOfEncode | Hnw/Src/http/util/http_util.hpp:611-632 | The decoding iterator, on an encoding, returns the bytes followed by one NUL for each padding symbol. |
| Base64.DecodeOfEncode | Hnw/Src/http/util/http_util.hpp:589-632 | Decoding an encoding gives the bytes up to the first NUL. |
| Base64.DecodeOfUnpadded | Hnw/Src/http/util/http_util.hpp:611-632 | An encoding whose padding was left out, of any length, is decoded like the whole one. |
| Base64.RawIsTheBits | Hnw/Src/http/util/http_util.hpp:613-623 | The decoding iterator yields, of the bits of any readable symbols, as many whole bytes as there are, in order. |
| Base64.RoundTripFails | Hnw/Src/http/util/http_util.hpp:631 | Three bytes with a NUL in the middle come back as the first one. |
| Base64.EncodeOfDecode | Hnw/Src/http/util/http_util.hpp:589-632 | Encoding undoes decode_base64 exactly on the canonical strings of bytes without a NUL. |
| Base64.DecodeConcat | Hnw/Src/http/util/http_util.hpp:611-632 | Whole groups of four symbols are decoded independently of what follows, unless they contain a NUL or what follows makes the decoder give up. |
| Base64.UntilNulMeans | Hnw/Src/http/util/http_util.hpp:631 | What c_str() leaves is the longest prefix without a NUL. |
| Base64Iterators.TransformWidth.AtEnd | Hnw/Src/http/util/http_util.hpp:597-599 | Comparison with the end iterator: only the base position counts when widening; bits held back count when narrowing. |
| Base64Iterators.TransformWidth.Fill | Hnw/Src/http/util/http_util.hpp:591-593 | The next output and the bits held back are the bits held before, those read now and the zero filling; it fails only at an element that is invalid or missing. |
| Base64Iterators.TransformWidth.Move | Hnw/Src/http/util/http_util.hpp:591-593 | Shifting and masking moves bits from the input to the output buffer and keeps their order. |
| Base64Iterators.NextSextet | Hnw/Src/http/util/http_util.hpp:597-599 | One step of std::copy when encoding: never fails, makes progress, and continues the stream of bits. |
| Base64Iterators.CopyEncoded | Hnw/Src/http/util/http_util.hpp:597-599 | std::copy over the encoding iterators gives the symbols of the specification. |
| Base64Iterators.NextOctet | Hnw/Src/http/util/http_util.hpp:621-629 | One step of std::copy when decoding: continues the stream of bits, or fails because of a symbol outside the table or one symbol too many. |
| Base64Iterators.CStr | Hnw/Src/http/util/http_util.hpp:631 | The copy through c_str() is UntilNul. |
| Split.Find | Hnw/Src/http/util/http_util.hpp:130 | std::string::find: the first occurrence from a position on, or past the end if there is none. |
| Split.SplitString | Hnw/Src/http/util/http_util.hpp:123-150 | The loop of split computes Parts. |
| Split.PartsAtFirst | Hnw/Src/http/util/http_util.hpp:128-147 | A string without the separator is its only part; otherwise the first part ends at the first occurrence, and the others are the parts of what comes after it. |
| Split.SplitThenJoin | Hnw/Src/http/util/http_util.hpp:123-150 | No part contains the separator, and joining the parts with it gives the string back. |
| Split.JoinThenSplit | Hnw/Src/http/util/http_util.hpp:123-150 | For a one-character separator, splitting undoes joining of parts free of it. |
| Split.FirstPartIsAll | Hnw/Src/http/util/http_util.hpp:132-142 | The first part is the whole rest exactly if the separator does not occur in it. |
| BasicAuth.SetAuthorization | Hnw/Src/http/struct/http_head_impl.hpp:643-676 | The header set for Basic credentials. |
| BasicAuth.GetAuthorization | Hnw/Src/http/struct/http_head_impl.hpp:576-632 | Reading a header, with its four ways of being rejected, computes Parse. |
| BasicAuth.WhatIsAccepted | Hnw/Src/http/struct/http_head_impl.hpp:576-632 | Of every header: credentials are got exactly from "Basic ", followed by something that decodes to a string with a colon; "Digest " followed by something is recognised; all else is rejected. |
| BasicAuth.WhatIsGot | Hnw/Src/http/struct/http_head_impl.hpp:612-626 | The name ends at the first colon of what was decoded, and the password at the second, or at the end. |
| BasicAuth.ParseOfHeader | Hnw/Src/http/struct/http_head_impl.hpp:576-678 | A header that was set is read back as the first two parts of the credentials, cut at the first NUL. |
| BasicAuth.CredentialsRoundTrip | Hnw/Src/http/struct/http_head_impl.hpp:576-678 | Credentials come back as they were set exactly if they contain neither a colon nor a NUL. |
| BasicAuth.CredentialsFail | Hnw/Src/http/struct/http_head_impl.hpp:615-624 | The password "b:" comes back as "b". |
| ClientSend.ClientChannel.AsyncSend | Hnw/Src/base/asio/service/asio_client_channel.hpp:95-110 | Completes at once for an empty buffer, raises an error if not connected, and otherwise has one write outstanding; nothing is written yet. |
| ClientSend.ClientChannel.SendHandler | Hnw/Src/base/asio/service/asio_client_channel.hpp:117-146 | What the write took is from the start of the buffer; then an error, completion, or a write of the remaining length with beg advanced. |
| ClientSend.ClientChannel.Send | Hnw/Src/base/asio/service/asio_client_channel.hpp:95-149 | A whole send calls the completion exactly once, raises no error, and has put Wire onto the connection. |
| ClientSend.WhatIsComplete | Hnw/Src/base/asio/service/asio_client_channel.hpp:117-146 | The byte counts of the writes that make up a send are exactly those that add up to its length and end with a write of something. |
| ClientSend.WireLength | Hnw/Src/base/asio/service/asio_client_channel.hpp:129-145 | The number of bytes written is always that of the buffer. |
| ClientSend.ResumedDelivers | Hnw/Src/base/asio/service/asio_client_channel.hpp:95-149 | Had every write resumed at beg, the buffer would have been delivered however it was cut up. |
| ClientSend.DeliveredUnderAnyChunking | Hnw/Src/base/asio/service/asio_client_channel.hpp:141-148 | A buffer is delivered however it is cut up exactly if all its bytes are equal. |
| ClientSend.ChunkingDeliversEverything | Hnw/Src/base/asio/service/asio_client_channel.hpp:141-148 | A way of cutting up delivers every buffer exactly if each write takes nothing or everything. |
| ClientSend.SendFails | Hnw/Src/base/asio/service/asio_client_channel.hpp:141-148 | Two different bytes, taken one at a time, arrive as the first one twice. |
| ResponseParser.HttpResponseParser.OnStartLine | Hnw/Src/http/parser/http_response_parser.hpp:30-64 | One byte of the start line does what the specification says. |
| ResponseParser.HttpResponseParser.OnHead | Hnw/Src/http/parser/http_response_parser.hpp:65-145 | One byte of the heads does what the specification says, including the end of the heads and its three outcomes: refused, complete, or a body to be filled. |
| ResponseParser.HttpResponseParser.WriteBody | Hnw/Src/http/struct/http_body_raw.hpp:53-73 | The body takes as much of the block as it has room for. |
| ResponseParser.HttpResponseParser.OnBody | Hnw/Src/http/parser/http_response_parser.hpp:146-163 | Consuming a block at once is consuming it byte by byte. |
| ResponseParser.HttpResponseParser.InputData | Hnw/Src/base/define/parser.hpp:57-74 | A packet changes the parser, and is reported and refused, as if it had arrived byte by byte. |
| ResponseParser.StartLineRead | Hnw/Src/http/parser/http_response_parser.hpp:30-64 | A start line is refused, with everything after it, exactly if it has fewer than two spaces; otherwise its fields end at the first spaces. Nothing is reported in either case. |
| ResponseParser.HeadLineRead | Hnw/Src/http/parser/http_response_parser.hpp:122-138 | A head line is refused, with everything after it, exactly if it does not contain ": "; otherwise its key ends at the first, and its value at the next. Nothing is reported in either case. |
| ResponseParser.FeedConcat | Hnw/Src/base/define/parser.hpp:57-74 | Two packets are their concatenation, up to the first error. |
| ResponseParser.PacketIndependence | Hnw/Src/base/define/parser.hpp:57-74 | However the same bytes are cut into packets, the events and the final state are the same. |
| ResponseParser.ResponsesAreFramed | Hnw/Src/http/parser/http_response_parser.hpp:65-163 | Every reported response has a body of exactly the declared length, for which a body could be made. |
| ResponseParser.FeedMessage | Hnw/Src/http/parser/http_response_parser.hpp:30-145 | Start line and heads of any serialized message without LF are read as Reread describes, CRs being skipped, whatever follows. |
| ResponseParser.ParseOfSerialized | Hnw/Src/http/session/http_session.hpp:345-386 | A response without LF in its start line and heads that is sent, in packets of any kind, is reported exactly once with its body, and the parser is ready for the next, exactly if the heads read declare the body's length and a body of that length can be made: always up to 10 MB, beyond that if a file of that size can be created. |
| ResponseParser.TooLargeIsRefused | Hnw/Src/http/parser/http_response_parser.hpp:92-97 | A response that declares more than 10 MB is refused after its heads where no file of that size can be created (on Linux none can: `Hnw/Src/http/util/http_util.hpp:383-386`). |
| ResponseParser.NegativeLengthWaits | Hnw/Src/http/struct/http_response_impl.hpp:39-43 | A negative declared length is read as unsigned: nothing is reported after the heads, and no error, until that many bytes have come. |
| ResponseParser.RereadHeadExactly | Hnw/Src/http/parser/http_response_parser.hpp:124-136 | The head read from a head line is the one sent exactly if it contains no CR and the separator occurs neither earlier in the line nor in the value. |
| ResponseParser.RereadExactly | Hnw/Src/http/struct/http_response_line.hpp:53-56 | The message read from a start line and heads, each on its line, is the one sent exactly if it contains no CR, the fields of the start line contain no space, and the separator occurs in no head earlier or in the value. |
| ResponseParser.LinesOnly | Hnw/Src/http/parser/http_response_parser.hpp:30-145 | Whatever arrives, no message is ever reported with an LF in its start line or heads. |
| ResponseParser.RereadFails | Hnw/Src/http/parser/http_response_parser.hpp:30-145 | Fed to the parser in packets of any kind, three messages do not arrive: "404 Not Found", a head whose value ends in a CR, and a head with a line break in its value. |
| ResponseParser.ConnectionDelivers | Hnw/Src/http/session/http_session.hpp:345-386 | Any number of responses, whatever bytes they consist of, sent over one connection in packets of any kind, are reported one by one exactly as they were sent, and nothing else is, if and only if each has no LF in start line and heads, is clean, and declares the length of a body that can be made. |
| ContentLength.DecimalRoundTrip | Hnw/Src/http/struct/http_head_impl.hpp:82-95 | What std::to_string writes, std::stoll reads back exactly if it fits into a signed number of 64 bits. |
| ContentLength.WhatIsRead | Hnw/Src/http/struct/http_head_impl.hpp:89 | std::stoll: white space, at most one sign, digits, and anything after them are the signed number, if there are digits and it has 64 bits. |
| ContentLength.JunkLengthIsZero | Hnw/Src/http/struct/http_head_impl.hpp:82-95 | A value that does not begin like a number counts as 0. |
| ContentLength.HeadImpl.GetHeadCount | Hnw/Src/http/struct/http_head_impl.hpp:114-118 | The number of heads with a key. |
| ContentLength.HeadImpl.Merge | Hnw/Src/http/struct/http_head_impl.hpp:146-170 | Heads whose key is absent are added, one after the other; nothing is overwritten. |
| ContentLength.MergedCounts | Hnw/Src/http/struct/http_head_impl.hpp:146-170 | Merging keeps all heads and adds each absent key exactly once. |
| ContentLength.PreSend | Hnw/Src/http/session/http_session.hpp:432-444 | The heads after preparing a response: Content-Length and Content-Type if absent, then those of the session. |
| ContentLength.PreparedKeys | Hnw/Src/http/session/http_session.hpp:432-444 | A prepared response has its own heads first, and besides their keys exactly those of the session, Content-Length and Content-Type, once each. |
| ContentLength.PreparedValues | Hnw/Src/http/session/http_session.hpp:432-444 | The values added are the body's size in decimal, "text/html", and for every other key the session's first value. |
| ContentLength.PreparedLength | Hnw/Src/http/session/http_session.hpp:432-444 | A prepared response without a Content-Length of its own has exactly one value of it, its body's size in decimal, whatever the session's heads are. |
| ContentLength.SentDeclares | Hnw/Src/http/session/http_session.hpp:432-444 | The heads declare, to the receiver, the length of a body that can be made exactly if the size fits into a signed number of 64 bits and such a body can be made, in whatever order the heads went over the wire. |
| ContentLength.PreparedResponsesArrive | Hnw/Src/http/session/http_session.hpp:345-444 | Responses for which the application declares no length are reported exactly as they were sent if and only if each has clean start line and heads without LF and a body that fits and can be made. |
| ContentLength.GoodResponsesArrive | Hnw/Src/http/session/http_session.hpp:345-444 | Every connection on which the application sends good responses of at most 10 MB without a declared length delivers them all, each exactly as it was sent. |
| ContentLength.ExampleArrives | Hnw/Src/http/parser/http_response_parser.hpp:30-163 | One response written out byte for byte, in packets of any kind, is reported with exactly its fields, head and body. |

## Left out

- TLS itself, certificates, context options and the password callback: configuration of a foreign library; a handshake succeeds or fails.
- Boost.Asio internals and process shutdown: the claims cover states between handlers inside `io_service.run()`.
- Memory addresses: a session is named by its allocation number, so reuse of an address by a later `new` is not represented; what is proved is that no operation outlives its session.
- The bytes that a failing read may already have put into the buffer: the session is deleted without looking at them.
- Signedness of `char`: bytes are unsigned, as the iterators' masks make them.
- 64-bit wrap-around of lengths and positions, which needs strings of that size; the cast of a declared length from signed to unsigned is modelled.
- Split.SplitString: requires a non-empty separator; with an empty one the loop does not end, and no caller passes one.
- Base64Iterators.TransformWidth.AtEnd: the order of the two comparisons inside std::copy, and copies of iterators, are not represented.
- BasicAuth.GetAuthorization: the fields of a Digest header are not read, only recognised; the header is passed in, so the lookup in the container of heads is not represented.
- ClientSend.ClientChannel.AsyncSend: the time-out timer, the event raised for an empty buffer, and the narrowing of the remaining length to `int` for buffers over 2 GB are not represented; one send is in progress at a time.
- ResponseParser.ParseOfSerialized: says nothing of messages with an LF in their start line or heads, because they are other messages on the wire; that they never arrive as they were sent is part of ConnectionDelivers.
- ResponseParser.TooLargeIsRefused: the same.
- The container of heads: heads are a sequence, in the order of the wire; the order in which the hash container iterates is left open (SentAs), and so is which of several Content-Length heads it finds (LooksUp).
- File bodies: whether a file of a given size can be created is the parameter `canCreate` (on Linux it never can, `Hnw/Src/http/util/http_util.hpp:383`); a file that was created is a body that takes up to the declared number of bytes, like the one in memory, and errors of the mapped file are not represented.
- User callbacks that replace the body when the heads arrive, chunked and self-growing bodies, and the request parser, which repeats the response parser's structure.
- DNS, SSH, timers, logging, MIME tables, cookies and Digest authentication: separate services that the modelled parts do not use; `Hnw/Src/base/hnw_base.cpp` only forwards each call.
