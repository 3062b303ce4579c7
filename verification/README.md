# fastwebsockets, verified

A Dafny model of the data path of the `fastwebsockets` crate: bytes from a transport to WebSocket messages and back, and
the write side that must not misbehave after a Close. `dafny verify dfyconfig.toml` checks it.

| file | models |
|---|---|
| `bytes.dfy`, `error.dfy` | octets, big-endian integers, results, error values |
| `utf8.dfy` | section 4 of RFC 3629, one-shot and resumable decoding, and the octet-wise automaton both refine |
| `mask.dfy` | `src/mask.rs`: word-wise unmasking against the octet-wise definition |
| `stream.dfy` | the transport: any chunking, any short writes, failure at any call |
| `frame.dfy` | `src/frame.rs`: header formatting, buffered and vectored writing |
| `close.dfy` | `src/close.rs`: close codes |
| `parser.dfy` | `ReadHalf` of `src/lib.rs`: header parser and close/pong decisions |
| `codec.dfy`, `wire.dfy` | printer and parser as inverses; the wire format in plain numbers, all three length forms and every refusal |
| `fragments.dfy`, `reassembly.dfy` | `Fragments` of `src/fragment.rs`, and its laws over whole runs |
| `endpoint.dfy`, `writer.dfy` | the write side as a state machine over runs, and `WriteHalf` |
| `websocket.dfy`, `collector.dfy` | `WebSocket` and `FragmentCollector` |
| `calls.dfy` | repeated calls of the collector against the frames of the bytes ahead and the one-shot reference |
| `laws.dfy`, `split.dfy`, `endtoend.dfy` | what callers may rely on; the split halves; from one side to the other |

## How the layers fit

Every nondeterministic choice of the environment is left open where it arises: how many bytes a read returns, how many a
write takes, whether a call fails, which key `rand` draws, how `align_to_mut` splits a buffer, the byte order of the
machine. A method contract that names only a function of the bytes therefore holds for every such choice. The transport
counts its failures, and every contract that may return an I/O error says that it does so exactly if the transport failed
during the call.
`ReadHalf.ParseFrameHeader` says that the result of a call and the bytes left for the next one are `Parse` of the bytes
ahead (buffered plus unread), so a sequence of calls sees the same frames and errors however the transport cuts its input;
`WriteHalf.WriteFrame` says that the wire grows by `Encode` of the frame, or by a beginning of it, whichever way it is
written; `FragmentCollector.ReadFrame` says that a call is `Collect` of the bytes ahead. Termination of the read loops on
every finite stream is part of these contracts, with the bytes ahead as the measure.

The lemmas are about `Parse`, `Encode`, `Assemble`, `Collect` and the endpoint machine `RunAll`. A `WebSocket` keeps its
history as a ghost field: its invariant says that the closed flag and the wire are those of `RunAll(history)`, and
`TookAll` says that the receipts a call adds are the frames it parsed from the front of the input. The collector's
invariant holds in every state, after I/O errors too, and `LeadsTo` gives the flag and the assembly after any call,
failed ones included, as those the frames taken have led to. The split halves have the same shape: `SplitConnection` keeps
the run of `Receive`, `Forward` and `Submit` steps, and its invariant ties the write half and the queue of replies to it.

The `utf8` crate is not part of this model. `Decode` and `TryComplete` are written from section 4 of RFC 3629 with the
outcomes that the match arms of `src/fragment.rs` name, the held bytes living in a 4-byte buffer.

## Where the code and its documentation differ

- `src/lib.rs:529` says that Text payloads returned by `WebSocket::read_frame` are valid UTF-8. The code returns any
  payload: the text returned is valid exactly if the peer sent valid text (`ReadLaws.RawReadDoesNotValidate`). For
  `FragmentCollector` the statement is true (`ReadLaws.CollectorDelivers`).
- The example at `src/lib.rs:536-550` echoes the frame it read. On a server that frame still has its key set while its
  payload is in the clear, and it is written like that: a peer that unmasks it reads the original payload exactly if there
  was no key or the octets of it that are used are zero (`ReadLaws.EchoKeepsTheKey`).
- RFC 6455, section 8.1, asks for a failure when a message ends inside a code point. `accumulate` does this for
  unfragmented text only: a fragmented one is delivered without the bytes of the incomplete code point
  (`Reassembly.TruncatedTextIsDelivered`).
- A delivered message is the concatenation of all its pieces unless a piece was refused and the caller read on: a piece
  that does not fit (`Reassembly.RefusedPieceIsSkipped`) and the bytes of a text piece from its first invalid sequence on
  (`Reassembly.InvalidPieceIsSkipped`) are missing then. `Reassembly.MessageDelivery` gives the exact condition for the
  concatenation to be delivered, that the pieces together are below the limit and, for text, valid;
  `Reassembly.RunRefinesJudge` says what is delivered otherwise.
- Section 5.4 of RFC 6455 forbids a new message between the pieces of another. `accumulate` refuses a final Text or Binary
  frame there (`Reassembly.FinalIsRefusedInside`), but a non-final one silently replaces the open message, exactly if it
  fits and, for text, can still become valid (`Reassembly.OpeningReplaces`).
- The split readers do not see the closed flag: after the connection is closed they go on returning frames where the joint
  ones return ConnectionClosed (`ReadLaws.ClosedReadDiffers`, `ReadLaws.ClosedCollectDiffers`).
- Section 5.5 of RFC 6455 limits all control frames to 125 bytes; the parser limits Ping only (`Codec.ControlLengths`).
- Section 5.2 of RFC 6455 asks for the shortest form of the length; the parser accepts longer ones
  (`Codec.LongLengthIsAccepted`, `Codec.CanonicalForm`).

## Model

| member | source | states |
|---|---|---|
| Bytes.EncodeThenDecode | src/frame.rs:281-289 | a length that fits its big-endian field is read back unchanged |
| Bytes.DecodeThenEncode | src/lib.rs:697-701 | a big-endian field printed again from its value gives the same bytes |
| Utf8.DecodeRefines | src/fragment.rs:250-267 | one-shot decoding splits its input as the octet-wise automaton does, for text, incomplete and invalid input |
| Utf8.TryCompleteRefines | src/fragment.rs:288-305 | completing held bytes and going on with the rest reads the input as the automaton does, in all three outcomes |
| Utf8.FeedConcat | src/fragment.rs:287-322 | cutting the input anywhere makes no difference to the automaton |
| Utf8.FeedDecidesViable | src/fragment.rs:263-265 | the automaton rejects exactly the byte strings with which no valid string begins |
| Utf8.FeedLongest | src/fragment.rs:311-321 | the text kept is at least as long as any valid prefix of what was read |
| Utf8.PartialIsProperPrefix | src/fragment.rs:256-262 | the held bytes are exactly the non-empty proper prefixes of encoded code points |
| Utf8.CharsAreScalars | src/fragment.rs:250-267 | the grammar describes exactly the encodings of Unicode scalar values: no overlong form, no surrogate, nothing above U+10FFFF |
| Utf8.DecodeDecidesValid | src/fragment.rs:233-243 | decoding succeeds exactly on the strings of the grammar |
| Masking.UnmaskEasy | src/mask.rs:16-20 | octet i of the slice is XORed with key octet i mod 4 and nothing else changes |
| Masking.XorByteIsBitwise | src/mask.rs:16-20 | the arithmetic exclusive or of the model is `^` on all pairs of octets |
| Masking.XorInMemory | src/mask.rs:119-121 | one 32-bit exclusive or is four octet-wise ones, in both byte orders |
| Masking.RotatedIsTurned | src/mask.rs:109-118 | rotating the key word in the direction of the byte order makes it start with the octet the prefix left off at |
| Masking.UnmaskWord | src/mask.rs:119-121 | one word of the buffer is masked as four octets, the rest untouched |
| Masking.UnmaskWords | src/mask.rs:119-121 | the word loop masks its slice as the octet loop would |
| Masking.XoredInParts | src/mask.rs:107-122 | masking prefix, words and suffix with the turned key is masking the whole with the key |
| Masking.UnmaskFallback | src/mask.rs:104-123 | for every split into prefix, words and suffix and both byte orders, octet i becomes old[i] XOR key[i mod 4] |
| Masking.Unmask | src/mask.rs:125-129 | the same whatever split and byte order the machine has |
| Masking.XoredTwice | src/mask.rs:127-129 | masking twice with the same key restores the buffer |
| Frames.UnmaskUndoesMask | src/frame.rs:250-267 | what one side masks the other unmasks, with a given or a fresh key |
| Frames.MaskFrame | src/frame.rs:250-258 | masks with the frame's key, or with a random one that it records |
| Frames.UnmaskFrame | src/frame.rs:263-267 | unmasks the payload and leaves the key set; no key, no change |
| Frames.FmtHead | src/frame.rs:274-298 | the header overwrites the first bytes of any buffer and leaves the rest as it was |
| WireFormat.OpcodeOnTheWire | src/frame.rs:275 | the first byte of a printed frame is 128 for fin plus 0, 1, 2, 8, 9 or 10 for the opcode |
| WireFormat.PrinterIsShortest | src/frame.rs:277-289 | of the three forms of the length the printer uses the shortest that fits |
| Frames.FirstByteIsShifted | src/frame.rs:275 | the first byte of the model is fin shifted by 7 or the opcode |
| Frames.MaskBitIsSet | src/frame.rs:292 | adding the mask bit is the bitwise or with 0x80 |
| Frames.Write | src/frame.rs:336-348 | the first n bytes of the scratch buffer are the encoding, whatever it held before |
| Frames.Writev | src/frame.rs:300-333 | for all short writes the wire grows by exactly the encoding; after a failure by a beginning of it; it fails exactly if the transport did |
| CloseCodes.ClassesAreExact | src/close.rs:95-151 | classifying keeps the number, and the allowed classes are exactly 1000-1003, 1007-1013 and 3000-4999 |
| CloseCodes.ClassRoundTrip | src/close.rs:102-151 | a class comes back from its number exactly when the number is in the class's range |
| Parsing.HighBitMask | src/lib.rs:673-683 | the test used for fin and mask is the bit mask 0x80 |
| Parsing.ReservedBitsMask | src/lib.rs:674-680 | the reserved-bit test is the bit mask 0x70 |
| Parsing.LowNibbleMask | src/lib.rs:682 | the opcode is the bit mask 0x0F |
| Parsing.LowSevenMask | src/lib.rs:685 | the length code is the bit mask 0x7F |
| WireFormat.BigEndianDigits | src/lib.rs:697-701 | two and eight bytes are read most significant first |
| WireFormat.NoFrame | src/lib.rs:674-682 | reserved bits give ReservedBitsNotZero and an unknown opcode InvalidValue, exactly then, and nothing is consumed |
| WireFormat.ParsedFields | src/lib.rs:673-738 | every field of an accepted frame, and what follows it, from the bytes by position and number |
| WireFormat.EveryForm | src/lib.rs:685-738 | a frame in any of the three length forms is accepted as it is or refused with the error of the first check it fails, its payload left unread |
| WireFormat.RefusedWith | src/lib.rs:717-727 | ControlFrameFragmented, PingFrameTooLarge and FrameTooLarge for printed frames, each exactly when and in this order; a longer length form makes no difference |
| WireFormat.Truncated | src/lib.rs:668-733 | a stream that ends inside an accepted frame, in any form, gives UnexpectedEOF and leaves the bytes of the part it ended in |
| Parsing.SeenExactly | src/lib.rs:609-611 | how a frame is seen: octet i XOR key octet i mod 4 on a server that applies masks, as it came otherwise; the key and all else stay |
| Parsing.ParseProgress | src/lib.rs:668-738 | a call leaves a suffix of the input; a frame takes at least 2 bytes, control frames are final, Pings are at most 125 bytes and payloads are below the limit |
| Parsing.ReadHalf.Fill | src/lib.rs:668-671 | a fill loop moves bytes without losing any, and reports the end of the stream only if too few bytes are ahead; it reads only if bytes are missing, and fails with an I/O error exactly if the transport did |
| Parsing.ReadHalf.ParseFrameHeader | src/lib.rs:653-739 | result and leftover depend only on the bytes ahead, not on the chunking; over-read bytes stay for the next call; if the transport fails nothing, two bytes or the whole header are gone, and it does so exactly if the call returns an I/O error |
| Parsing.ReadHalf.ReadFrameInner | src/lib.rs:597-651 | a parse error is passed on without a reply; a frame gives the result and the obligated reply of its kind |
| Parsing.CheckClose | src/lib.rs:614-643 | decides about a Close payload as the grammar of RFC 3629 and the code ranges of RFC 6455 say |
| Codec.RoundTrip | src/lib.rs:653-739 | the parser reads back any well-formed printed frame, in all three length forms, masked or not, and leaves what follows |
| Codec.ParseEncoded | src/lib.rs:673-738 | whatever is printed, well-formed or not, the parser comes to its checks with the frame's own fields and payload |
| Codec.AcceptedExactly | src/lib.rs:717-727 | of the frames that can be printed exactly the well-formed ones are accepted |
| Codec.ControlLengths | src/lib.rs:721-723 | a control frame below the size limit is refused for its length exactly if it is a Ping of more than 125 bytes |
| Codec.LongLengthIsAccepted | src/lib.rs:685-709 | a short payload behind a 16-bit length is accepted, and that length is not the shortest |
| Codec.SequenceRoundTrip | src/lib.rs:653-739 | frames written back to back come out one by one, and then whatever follows them |
| Codec.WholeStreamRoundTrip | src/lib.rs:653-739 | a stream of frames comes out whole and ends between two frames |
| Codec.CanonicalForm | src/lib.rs:685-709 | a parsed frame printed again is no longer than what was read, and identical exactly when the length was in shortest form |
| Fragmentation.DecodeNext | src/fragment.rs:287-322 | resuming and decoding a continuation reads it octet by octet from the held bytes |
| Fragmentation.KeepsResumable | src/fragment.rs:288-317 | held bytes can always be resumed after any frame |
| Fragmentation.Fragments.Accumulate | src/fragment.rs:221-357 | new state and result are those of the octet-wise assembler, for every opcode, state, size and error |
| Fragmentation.Fragments.Unfragmented | src/fragment.rs:227-273 | the arm for Text and Binary |
| Fragmentation.Fragments.Continue | src/fragment.rs:274-352 | the arm for Continuation; the checked additions refuse nothing that the size limit would accept |
| Reassembly.AssembleKeepsInv | src/fragment.rs:221-357 | buffer valid, pending a partial code point, opcode matching, sizes below the limit; bytes are lost exactly at a continuation that fails validation |
| Reassembly.DeliveredFrame | src/fragment.rs:244-353 | a returned frame is final, no Continuation, below the limit and, if text, valid |
| Reassembly.RunKeepsInv | src/fragment.rs:221-357 | both over every run, errors included |
| Reassembly.RunKeepsExact | src/fragment.rs:278-322 | buffer and pending add up to the counted length as long as no continuation has failed validation |
| Reassembly.ControlsAreTransparent | src/fragment.rs:353 | adding or removing control frames changes no message, no error and no state |
| Reassembly.StreamingRefinesJudge | src/fragment.rs:221-357 | each frame is judged as by all the bytes held of its message at once, after failed pieces too |
| Reassembly.RunRefinesJudge | src/fragment.rs:221-357 | the same over every run, those that go on after any error included |
| Reassembly.RefusedExactly | src/fragment.rs:221-357 | which frames are refused with InvalidFragment, InvalidContinuationFrame, FrameTooLarge and InvalidUTF8, and that there is no other error |
| Reassembly.StreamingText | src/fragment.rs:249-322 | InvalidUTF8 at exactly the first piece after which no valid text begins with the bytes so far |
| Reassembly.StreamingBuffer | src/fragment.rs:249-317 | until then the buffer is the longest valid prefix and buffer ++ pending is all bytes |
| Reassembly.MessageDelivery | src/fragment.rs:274-353 | a message is delivered as the concatenation of its pieces if and only if that is below the limit and, for text, valid |
| Reassembly.DeliversText | src/fragment.rs:311-331 | text that could still go on is delivered at its final piece as its longest valid prefix |
| Reassembly.OpeningReplaces | src/fragment.rs:245-271 | a non-final Text or Binary frame drops an open message without an error exactly if it opens one of its own; otherwise it is refused and nothing changes |
| Reassembly.FinalIsRefusedInside | src/fragment.rs:227-243 | a final one is refused with InvalidFragment exactly while a message is open, which stays open |
| Reassembly.TruncatedTextIsDelivered | src/fragment.rs:311-331 | a fragmented text that ends inside a code point is delivered without it |
| Reassembly.RefusedPieceIsSkipped | src/fragment.rs:333-351 | a refused piece is missing from the message if the caller reads on |
| Reassembly.InvalidPieceIsSkipped | src/fragment.rs:311-331 | a text piece that fails validation is missing from the message, delivered as valid text, if the caller reads on |
| Endpoints.CloseSafety | src/lib.rs:755-786 | over every run at most one Close is handed to the transport, which takes any part of it or nothing; nothing is handed over after it, and it is there exactly when the connection is closed |
| Endpoints.ClosedIsFinal | src/lib.rs:767-776 | once closed, neither the flag nor the wire changes |
| Endpoints.ClosedExactly | src/lib.rs:773-776 | closed exactly when some event wrote or answered a Close, also if that write failed |
| Endpoints.WritesAfterClose | src/lib.rs:767-772 | later Closes are no-ops, other writes return ConnectionClosed, and the wire stays |
| Endpoints.GoesOutExactly | src/lib.rs:763-765 | how a frame goes out: octet i XOR key octet i mod 4, with its own key or the random one, from a client that applies masks; as it is otherwise |
| Endpoints.LoggedExactly | src/lib.rs:763-783 | what a write or a reply on an open connection hands to the transport, octet by octet |
| Endpoints.ClientsMask | src/lib.rs:763-765 | over every run everything a masking client hands over is masked, automatic replies included |
| Endpoints.OthersDoNotMask | src/lib.rs:763-765 | a server, or a client told not to mask, masks nothing |
| Endpoints.PongsMatchPings | src/lib.rs:551-571 | the automatic Pongs are exactly the payloads of the Pings read before the close, in order |
| Endpoints.PongsAreShort | src/lib.rs:721-723 | each of them has at most 125 bytes |
| Endpoints.LogIsWellFormed | src/lib.rs:551-571 | if what was received was parsed and what was written can be, everything in the log can be parsed by the peer, replies included |
| Endpoints.PeerReadsLog | src/lib.rs:778-783 | without write failures the peer parses exactly the frames written |
| Endpoints.PeerReadsOneClose | src/lib.rs:767-776 | the peer sees a Close at most as the last frame |
| Endpoints.PeerReadsPongs | src/lib.rs:551-571 | without write failures and Pongs of the application's own, the Pongs the peer parses from the wire carry exactly the payloads of the Pings read before the close, in order |
| Endpoints.PeerReadsMasked | src/lib.rs:763-765 | the peer of a masking client parses masked frames only |
| Writing.WriteHalf.WriteFrame | src/lib.rs:755-786 | the wire grows by the encoding of the frame (masked for a client) or the beginning the transport took; the flag is set before writing; an I/O error exactly if the transport failed |
| Writing.WriteHalf.Transmit | src/lib.rs:778-783 | vectored and buffered writing put the same bytes on the wire |
| Writing.WireOfPut | src/lib.rs:755-786 | the wire of a run is extended by each write |
| WebSockets.ReadOnce | src/lib.rs:555-570 | a pass of the loop that does not return has consumed at least a header |
| WebSockets.WebSocket.WriteFrame | src/lib.rs:502-511 | the write is added to the history, which determines flag, wire and result, an I/O error exactly if the transport failed |
| WebSockets.TookWellFormed | src/lib.rs:717-727 | the frames a call takes satisfy what the parser checks |
| WebSockets.PongsOfHistoryAreShort | src/lib.rs:721-723 | whatever a connection has read, the Pongs it answered with have at most 125 bytes |
| WebSockets.WebSocket.Exchange | src/lib.rs:556-563 | reads one frame, replies if the connection was open, and records the receipt |
| WebSockets.WebSocket.ReadFrame | src/lib.rs:551-571 | terminates; result, flag and leftover are a function of the bytes ahead; the history records exactly the frames taken; after an I/O error at most a header is lost; an I/O error, be it of the read or of a reply, exactly if the transport failed |
| Collectors.CollectOnce | src/fragment.rs:106-127 | a pass that does not return has consumed at least a header, however many Pings or pieces arrive |
| Collectors.GatherKeepsInv | src/fragment.rs:121-126 | what the assembly makes of the outcome of a pass keeps its invariant, and a frame it returns is final, no Continuation, below the limit and valid if text |
| Collectors.HandleConcat | src/fragment.rs:102-128 | handling frames in two lots is handling them in one |
| Collectors.FragmentCollector.OneTurn | src/fragment.rs:107-126 | one pass: exchange, closed check, assembly; the assembly is that of the frame taken also if its reply fails |
| Collectors.FragmentCollector.ReadFrame | src/fragment.rs:102-128 | terminates; result, flag, assembly and leftover are a function of the bytes ahead; the invariant is kept and flag and assembly are those of the frames taken after every call, failed ones included; a frame returned is final, no Continuation, below the limit and valid if text; an I/O error exactly if the transport failed |
| Collectors.FragmentCollector.WriteFrame | src/fragment.rs:131-140 | as for the WebSocket, with the same history |
| ReadLaws.CloseHandshake | src/lib.rs:614-644 | echo exactly for a proper body as it is seen; 1002 plus the reason for a disallowed code; nothing for a 1-byte body or bad UTF-8 |
| ReadLaws.CloseIsRead | src/lib.rs:551-571 | what the application gets for a Close, with every error, and when the connection is closed after it, on open and closed connections |
| ReadLaws.CloseAtTheConnection | src/lib.rs:556-563 | on an open connection a Close sets the flag and hands one Close to the transport, the body echoed or 1002 and the reason, unless the body is malformed; on a closed one nothing changes |
| ReadLaws.PingAtTheConnection | src/lib.rs:640-642 | a Ping is absorbed, and an open connection answers it with the payload as it is seen |
| ReadLaws.UnansweredIsReturned | src/lib.rs:551-571 | every frame that is not answered is returned as it is seen, whatever the settings |
| ReadLaws.CollectorDelivers | src/fragment.rs:99-128 | every frame returned is final, no Continuation, below the limit and valid if text, from any bytes |
| ReadLaws.ClosedReadDiffers | src/lib.rs:289-309 | on a closed connection the read that does not see the flag takes the same frames and has the same result as the joint one exactly unless it returns a frame other than a Close, where that one reports ConnectionClosed |
| ReadLaws.ClosedCollectDiffers | src/fragment.rs:178-204 | for the collector: the same result, leftover and assembly exactly unless the joint one reports ConnectionClosed |
| ReadLaws.ClosedReadsOnlyClose | src/fragment.rs:118-120 | on a closed connection only a Close is returned |
| ReadLaws.PingsAreAbsorbed | src/fragment.rs:106-127 | a Ping in front of any bytes changes nothing of what a call returns or leaves, open or closed |
| ReadLaws.PongsStandAlone | src/fragment.rs:115-126 | a Pong comes out of a call of its own and touches neither the open message nor the bytes after it |
| ReadLaws.RawReadDoesNotValidate | src/lib.rs:525-571 | the plain read returns any Text frame, masked or not, with the payload as sent: valid exactly if that was |
| ReadLaws.EchoKeepsTheKey | src/lib.rs:536-550 | a server's echo is read back with the key set, and unmasks to the original exactly if there was no key or the octets used are zero |
| SplitHalves.SplitCloseSafety | src/lib.rs:289-309 | close safety under every interleaving of application writes and forwarded replies |
| SplitHalves.SplitClosedIsFinal | src/lib.rs:767-772 | after the Close nothing forwarded or submitted changes the wire |
| SplitHalves.RepliesInOrder | src/lib.rs:298-304 | the replies handed to the transport are a beginning of those owed, in order; while open exactly the queued ones are missing |
| SplitHalves.PromptRefinesJoint | src/lib.rs:289-309 | with a `send_fn` that forwards at once the write half is that of the joint connection and no reply is left over |
| SplitHalves.ReceivesLengthenQueue | src/lib.rs:298-304 | the reader's steps lengthen the queue by the replies `send_fn` took and change nothing else |
| SplitHalves.WebSocketRead.ReadFrame | src/lib.rs:289-309 | result and leftover are those of the joint read on an open connection; the frames given to `send_fn` are those owed for the frames taken; after a failed send exactly the frames up to the one answered are gone; an I/O error exactly if the transport failed and a send error exactly if `send_fn` did |
| SplitHalves.FragmentCollectorRead.ReadFrame | src/fragment.rs:178-204 | the same with the assembly, its invariant and the delivery law, which hold after every call |
| SplitHalves.WebSocketWrite.WriteFrame | src/lib.rs:336-344 | the write half keeps close safety and its wire follows the endpoint machine, with an I/O error exactly if the transport failed |
| SplitHalves.SplitConnection.ReadFrame | src/fragment.rs:174-204 | the contract of the reader, and a read adds the `Receive` steps of the frames taken to the run that write half and queue follow |
| SplitHalves.SplitConnection.ReadPromptly | src/fragment.rs:174-204 | a read with a `send_fn` that writes at once makes the `Receive` and `Forward` steps of the frames taken, so write half and queue are those of the joint run with their receipts; a send error exactly if `send_fn` lost the reply or the write half refused it |
| SplitHalves.SplitConnection.ForwardOldest | src/fragment.rs:174-178 | forwarding a reply adds a `Forward` step and has the result of writing it |
| SplitHalves.SplitConnection.WriteFrame | src/lib.rs:336-344 | a write of the application adds a `Submit` step and has the result of writing the frame |
| Calling.ReadMany | src/fragment.rs:102-128 | `n` calls follow `CollectMany`; if the transport fails the results until then are a beginning of its results; it fails exactly if the transport did |
| Calling.CallsFollowFrames | src/fragment.rs:102-128 | for any bytes and any number of calls: the results of the frames in them, then the error that ends them, then on from the bytes that error leaves |
| Calling.OpenIsAssembly | src/fragment.rs:106-127 | before any Close the results are those of the assembler over the frames received, answered Pings left out |
| Calling.HandleRefinesJudge | src/fragment.rs:102-128 | for any frames, Closes of every kind included, on an open or closed connection: results, flag and open message are those of judging all the bytes of each message at once |
| Calling.CollectorRefinesJudge | src/fragment.rs:102-128 | the same for any bytes and any number of calls, with the error that ends the frames and the calls after it |
| Calling.ClosedHandles | src/fragment.rs:118-120 | on a closed connection every frame but an answered Ping and a Close yields ConnectionClosed, and the assembly stays |
| Calling.ClosedByFrames | src/lib.rs:556-563 | an open connection is closed by the frames read exactly if one of them is a Close that is answered |
| Calling.FirstClose | src/fragment.rs:106-127 | the frames before the first answered Close (refused ones included), that Close and those after it account for every result, and the assembly stays from there on |
| Calling.CallsOverFrames | src/fragment.rs:102-128 | for frames written back to back the calls return their results, and a call beyond them starts where they end |
| EndToEnd.ReaderHandles | src/fragment.rs:102-128 | messages in any pieces, with Pings and Pongs anywhere between them and any masks, come out one by one as final frames, Pongs as they arrive |
| EndToEnd.ReaderReads | src/fragment.rs:102-128 | the same from the bytes, with any bytes after them, where the next call starts with no message open |
| EndToEnd.ExpectedMessages | src/fragment.rs:102-128 | what comes out, Pongs apart, is every message once and in order |
| EndToEnd.WritesReachTheWire | src/lib.rs:502-511 | what one side's application and its automatic Pongs put in is on the wire frame by frame, differing in masks only |
| EndToEnd.SenderToReader | src/fragment.rs:102-128 | the messages of the first part of one side's history come out on the other whatever keys were drawn, whatever happened afterwards and however the transport failed then |
| EndToEnd.ClientToServer | src/fragment.rs:102-128 | this holds for every server that unmasks and answers Pings, whatever the client |
| EndToEnd.ServerToClient | src/fragment.rs:102-128 | and for every client that answers Pings, reading from a server |
| EndToEnd.ReadPeer | src/fragment.rs:102-128 | the same for the two objects: reading from the peer's wire returns its messages, or a beginning of the results if the transport fails |

## Left out

- HTTP upgrade and client handshake (`src/upgrade.rs`, `src/handshake.rs`), TLS and the Axum integration.
- The setters of `WebSocket` and the split halves: the events of a run carry the settings in force, so the run laws allow
  them to change between events; laws of a single call take them as they are.
- Tokio scheduling, `flush`, and futures dropped before they complete: every call runs to its end, and interleaving is that
  of whole calls.
- A transport whose vectored write accepts 0 bytes without an error: the loop of `writev` then never ends. `WriteVectored`
  takes at least one byte or fails.
- Frames.Writev: requires a non-empty payload, because with an empty one a short write of the header makes the code loop
  for ever. `write_frame` calls it for payloads above the threshold only.
- Frame payloads are values: `Frame::mask` and `Frame::unmask` change a buffer in place in `Masking.Unmask`, but the frame
  itself is not an object, so aliasing of payloads (`Payload::BorrowedMut`) is not captured.
- Vectors and `BytesMut` are sequences: capacity, `reserve` and allocation failure are not captured, nor are 16- and 32-bit
  targets. The scratch buffer of `WriteHalf` is copied to an array and back around the in-place formatting.
- `FragmentCollector` keeps the `WebSocket` it was made from in one piece, where the source takes it apart into stream,
  read half and write half.
- The pointer arithmetic of `align_to_mut`: any prefix and any number of words may be chosen.
- The SIMD and scalar validators are one predicate; the error values carry no text.
