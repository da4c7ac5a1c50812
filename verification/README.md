# WebSocket++ in Dafny

A model of the protocol code of WebSocket++ 0.8.2 (`server/external/websocketpp`), the WebSocket
library under the server, with proofs of what it promises. Each file is one component.

- **Send pipeline.** `SendQueue.dfy` has the queue, the write flag and the batch as an object whose
  methods are the locked sections of the code. `Pipeline.dfy` makes every locked section one atomic
  step and keeps what a thread does between two sections (an owed dispatch, a batch it owns, a
  finished write) as explicit state, so its runs are all interleavings of any number of threads.
- **Server session.** `Lifecycle.dfy` has each API call and each event-loop handler as one step,
  `ServerConnection.dfy` the object whose methods perform those steps in place, and
  `LifecycleProofs.dfy` what holds in every run. `SessionEffects.dfy` says what user and peer get to
  see of a session: which frames, which handler, which codes. `Close.dfy` has the close codes.
- **Frames.** `Masking.dfy` masks buffers in place, by bytes or by words with a rotating key;
  `FrameHeader.dfy` writes and reads the variable-length header.
- **Hybi-00.** `Hybi00.dfy` has the resumable decoder, the read loop that drives it and the encoder;
  `Utf8.dfy` the table automaton that the encoder relies on.
- **Handshake helpers.** `Md5.dfy` streams a digest, `Base64.dfy` encodes and decodes,
  `HttpParser.dfy` reads parameter lists with cursors, `HttpPrinter.dfy` writes them so that reading
  can be shown to invert it, and `Uris.dfy` parses and prints URIs.
- **Together.** `EndToEnd.dfy` joins pipeline, encoder and decoder, and pipeline and session.

Where the code is imperative the model is too: a method with its loop is proved equal to a function,
and the promises are lemmas about that function. `dafny verify dfyconfig.toml` checks everything.

## Choices

- Machines are little-endian with 64-bit words; `m_send_buffer_size` wraps around at 2^64. `circshift_prepared_key` returns its argument for
  offset 0, so no shift is as wide as the word.
- `write_frame` and `handle_write_frame` touch the current batch and the transport buffers outside
  the lock. The step model makes each such access one step, which is sound because only the owner of
  the write flag makes them: that there is one owner at a time is part of the invariant.
- The compression of one MD5 block is a parameter; all MD5 results hold for every such function.
- What prepares a ping, pong, close or Hybi-13 data frame, and what consumes requests and Hybi-13
  bytes, is a parameter of the step that calls it: a message or a failure.
- The session keeps the history that the results speak of: frames pushed, close payloads received,
  handlers run. A close frame notes how many close payloads had been received when it was pushed.
- What the application does in a callback is a list of API calls, any list, made inside the step
  that runs the callback.
- A terminate that finds the session closed already changes the recorded error and codes, as the
  code does, and nothing else.
- Timers, reads, write completions and write errors may happen at any time.

## Where code and comments differ

- The comment at processors/hybi00.hpp:300-303 says that payload bytes are validated as UTF-8 when
  they are received; the code (276-292) does not validate them, and neither does the model.
- The comments at impl/connection_impl.hpp:801-802 and 962-963 say that every exit writes a response
  or reads again; after a terminate the code does neither.
- The documentation of 64-bit sizes (frame.hpp:161-162) limits them to 63 bits; neither the header
  constructors nor the getters test that, and the round trip holds for all 64-bit sizes.
- The comment at http/constants.hpp:75 lists 0x00 to 0x32 as invalid token characters; the table
  accepts 0x30 to 0x32 and several characters below them.
- uri.hpp:103-104 says that the parts of an IPv6 literal are validated; the code takes any text.

## Model

| member | source | states |
|---|---|---|
| `SendQueue.BatchShape` | server/external/websocketpp/websocketpp/impl/connection_impl.hpp:1807-1817 | The messages one write takes are the longest non-empty prefix of the queue in which only the last may be terminal; if anything stays queued, the batch ended with a terminal message |
| `SendQueue.PushKeepsSize` | server/external/websocketpp/websocketpp/impl/connection_impl.hpp:2216-2217 | After a push the size counter, which wraps around at 2^64, is still the sum of the queued payload sizes modulo 2^64 |
| `SendQueue.RemoveKeepsSize` | server/external/websocketpp/websocketpp/impl/connection_impl.hpp:2236-2239 | After taking any number of messages from the front the counter is still that sum modulo 2^64 |
| `SendQueue.CountedExactly` | server/external/websocketpp/websocketpp/impl/connection_impl.hpp:2216-2239 | A queue whose payloads fit in the counter is counted exactly, whatever wrapped around before |
| `SendQueue.BatchStops` | server/external/websocketpp/websocketpp/impl/connection_impl.hpp:1810-1816 | A batch ends at the first terminal message, whatever is queued after it |
| `SendQueue.Connection.WritePush` | server/external/websocketpp/websocketpp/impl/connection_impl.hpp:2210-2225 | A null message changes nothing; otherwise the guarded fields become exactly those with the message appended and its payload size added |
| `SendQueue.Connection.WritePop` | server/external/websocketpp/websocketpp/impl/connection_impl.hpp:2228-2248 | Takes the front message and its size, or nothing at all from an empty queue |
| `SendQueue.Connection.PullBatch` | server/external/websocketpp/websocketpp/impl/connection_impl.hpp:1807-1817 | The pop loop moves exactly one batch, in order, to the current messages and takes its payload bytes off the counter |
| `SendQueue.Connection.BeginWrite` | server/external/websocketpp/websocketpp/impl/connection_impl.hpp:1797-1828 | The locked section of write_frame: nothing changes if a write is outstanding or nothing is queued; otherwise a whole batch moves and the caller owns the write flag |
| `SendQueue.Connection.FillSendBuffer` | server/external/websocketpp/websocketpp/impl/connection_impl.hpp:1830-1837 | The transport buffers gain, for each message of the batch, its header and then its payload |
| `SendQueue.Connection.FinishWrite` | server/external/websocketpp/websocketpp/impl/connection_impl.hpp:1895-1898 | Reports whether the last message written is terminal and empties batch and buffers |
| `SendQueue.Connection.ReleaseWrite` | server/external/websocketpp/websocketpp/impl/connection_impl.hpp:1912-1920 | Clears the write flag and says whether the queue needs another write |
| `Pipeline.PushKeepsInv` | server/external/websocketpp/websocketpp/impl/connection_impl.hpp:118-149 | A push by any thread in send, ping, pong or send_close_frame keeps the whole pipeline invariant: a thread that finds the queue in need of a writer owes a dispatch |
| `Pipeline.RunWriteFrameKeepsInv` | server/external/websocketpp/websocketpp/impl/connection_impl.hpp:1796-1828 | The locked section of write_frame keeps the invariant, whether the run becomes the writer or returns at once |
| `Pipeline.CallTransportKeepsInv` | server/external/websocketpp/websocketpp/impl/connection_impl.hpp:1830-1885 | Handing the batch to the transport keeps it: the bytes on the wire are those of all messages handed over so far |
| `Pipeline.CompleteKeepsInv` | server/external/websocketpp/websocketpp/impl/connection_impl.hpp:1895-1910 | The completion handler finds a batch to take back() of, and keeps the invariant whether the write failed or not |
| `Pipeline.ReleaseKeepsInv` | server/external/websocketpp/websocketpp/impl/connection_impl.hpp:1901-1927 | Releasing the flag, or ending the connection instead, keeps the invariant; a non-empty queue leaves an owed dispatch |
| `Pipeline.RunKeepsInv` | server/external/websocketpp/websocketpp/impl/connection_impl.hpp:1793-1928 | Every interleaving of any number of threads keeps conservation, wire contents, size counter, single ownership of the write flag, terminal order and the wakeup condition |
| `Pipeline.EveryRun` | server/external/websocketpp/websocketpp/impl/connection_impl.hpp:1793-1928 | In every run: written, current and queued messages together are the push history in order; the wire is each handed message's header then payload; the size counter is right; at most one write is outstanding; back() is always defined; a terminal message is the last one handed over |
| `Pipeline.NothingLeftBehind` | server/external/websocketpp/websocketpp/impl/connection_impl.hpp:1912-1927 | No lost wakeup: a run in which nothing is pending has written everything that was pushed, unless the write path ended the connection |
| `Pipeline.WritesOneBatch` | server/external/websocketpp/websocketpp/impl/connection_impl.hpp:1895-1927 | If no write fails, a run at rest has written exactly everything up to and including the first terminal message pushed, and the write path has ended the connection exactly if there was one |
| `Pipeline.CleanRunsWriteEverything` | server/external/websocketpp/websocketpp/impl/connection_impl.hpp:1889-1928 | Without terminal messages and transport errors every run at rest has written every message |
| `Pipeline.TerminalIsFinal` | server/external/websocketpp/websocketpp/impl/connection_impl.hpp:1907-1910 | Once a terminal message has been handed to the transport no continuation of the run hands over another byte |
| `Pipeline.FailureIsFinal` | server/external/websocketpp/websocketpp/impl/connection_impl.hpp:1901-1905 | From the completion of a failed write on, in every continuation of every run, no message and no byte is handed to the transport, and once nothing is pending the write path has ended the connection |
| `Pipeline.WakesExactly` | server/external/websocketpp/websocketpp/impl/connection_impl.hpp:1912-1927 | A thread that pushed or released the flag dispatches write_frame exactly if the queue it leaves is not empty and not being written; after a failed or terminal write it does not get that far |
| `Pipeline.StepDecreases` | server/external/websocketpp/websocketpp/impl/connection_impl.hpp:1793-1928 | Every step but a push lowers a measure of queued messages, outstanding writes and owed dispatches |
| `Pipeline.RunsAreFinite` | server/external/websocketpp/websocketpp/impl/connection_impl.hpp:1793-1928 | So without further pushes a run is no longer than the measure of its first state |
| `Pipeline.Progress` | server/external/websocketpp/websocketpp/impl/connection_impl.hpp:1793-1928 | Unless the pipeline is at rest, some step other than a push is possible |
| `Pipeline.ComesToRest` | server/external/websocketpp/websocketpp/impl/connection_impl.hpp:1793-1928 | From every reachable state what was pushed can be driven to rest within that bound |
| `ServerConnection.Connection.DoTerminate` | server/external/websocketpp/websocketpp/impl/connection_impl.hpp:1698-1748 | Updates the fields to the terminate step: codes on error, closed at most once, one shutdown started with the right status |
| `ServerConnection.Connection.DoHandleTerminate` | server/external/websocketpp/websocketpp/impl/connection_impl.hpp:1751-1777 | Runs the fail handler, the close handler, or neither, as the terminate step decided |
| `ServerConnection.Connection.DoSendCloseFrame` | server/external/websocketpp/websocketpp/impl/connection_impl.hpp:2065-2158 | Chooses code and reason, marks the message terminal, moves to closing and pushes; leaves the session state alone when preparing fails |
| `ServerConnection.Connection.DoClose` | server/external/websocketpp/websocketpp/impl/connection_impl.hpp:304-323 | Truncates the reason to 123 bytes, refuses unless open, otherwise sends a close frame that is terminal for the codes that are |
| `ServerConnection.Connection.DoPerform` | server/external/websocketpp/websocketpp/impl/connection_impl.hpp:104-323 | Every API call changes the session exactly as its step says |
| `ServerConnection.Connection.DoProcessClose` | server/external/websocketpp/websocketpp/impl/connection_impl.hpp:1977-2049 | What a received close frame does in each state, with both settings of drop_on_protocol_error |
| `ServerConnection.Connection.DoProcessControlFrame` | server/external/websocketpp/websocketpp/impl/connection_impl.hpp:1937-2055 | Dispatch of control frames, with the tests that ignore them when closed or not open |
| `ServerConnection.Connection.DoHandleReadFrame` | server/external/websocketpp/websocketpp/impl/connection_impl.hpp:965-1107 | The read loop: data only to an open session, control frames, processor errors, and errors after the end; keeps the lifecycle invariant, and state and history only move forward |
| `ServerConnection.Connection.DoStart` | server/external/websocketpp/websocketpp/impl/connection_impl.hpp:716-737 | start from the wrong internal state terminates; keeps the lifecycle invariant, and state and history only move forward |
| `ServerConnection.Connection.DoHandleTransportInit` | server/external/websocketpp/websocketpp/impl/connection_impl.hpp:740-764 | Transport readiness moves a server on to reading the request; keeps the lifecycle invariant, and state and history only move forward |
| `ServerConnection.Connection.DoHandleReadHandshake` | server/external/websocketpp/websocketpp/impl/connection_impl.hpp:804-941 | Reading the opening request, with the tests for closed and invalid states; keeps the lifecycle invariant, and state and history only move forward |
| `ServerConnection.Connection.DoHandleWriteHttpResponse` | server/external/websocketpp/websocketpp/impl/connection_impl.hpp:1351-1428 | The written response opens the session once, runs the open handler and goes on to buffered frames, or terminates; keeps the lifecycle invariant, and state and history only move forward |
| `ServerConnection.Connection.DoHandleWriteFrame` | server/external/websocketpp/websocketpp/impl/connection_impl.hpp:1901-1910 | A failed write or a written terminal message terminates; keeps the invariant |
| `ServerConnection.Connection.Handle` | server/external/websocketpp/websocketpp/impl/connection_impl.hpp:716-1928 | Any event of the event loop or call of the application takes a valid connection to the state of its step, which is valid and only further on |
| `ServerConnection.Connection.HandleAll` | server/external/websocketpp/websocketpp/impl/connection_impl.hpp:716-1928 | So does any sequence of them |
| `ServerConnection.Drive` | server/external/websocketpp/websocketpp/impl/connection_impl.hpp:716-1928 | A new connection driven through any events starts at most one shutdown, runs open, close and fail at most once each, close only after open and open and fail never both, has run close exactly if it had opened once its termination is complete, and is open or closing only while processing the connection |
| `LifecycleProofs.SendCloseOnward` | server/external/websocketpp/websocketpp/impl/connection_impl.hpp:304-319 | A close frame that is not an acknowledgement is sent only when open and keeps every lifecycle invariant |
| `LifecycleProofs.SendAckOnward` | server/external/websocketpp/websocketpp/impl/connection_impl.hpp:2058-2158 | So does an acknowledgement: it answers the payload just received, and a second close frame answers a malformed one |
| `LifecycleProofs.ProcessCloseOnward` | server/external/websocketpp/websocketpp/impl/connection_impl.hpp:1977-2049 | So does processing any received close payload, valid or not |
| `LifecycleProofs.StepOnward` | server/external/websocketpp/websocketpp/impl/connection_impl.hpp:716-1777 | Every event keeps the invariants and moves state and history only forward |
| `LifecycleProofs.OnlyForward` | server/external/websocketpp/websocketpp/impl/connection_impl.hpp:1356-1424 | From any point of any run to any later one the state only moves forward through connecting, open, closing, closed; open and closing imply PROCESS_CONNECTION; nothing pushed is taken back |
| `LifecycleProofs.SilentAfterClose` | server/external/websocketpp/websocketpp/impl/connection_impl.hpp:110-115 | After the first close frame is pushed only close frames are ever pushed (section 5.5.1 of RFC 6455) |
| `LifecycleProofs.HandlersOnce` | server/external/websocketpp/websocketpp/impl/connection_impl.hpp:1698-1777 | In every run shutdown starts at most once, open, close and fail run at most once each, close only after open, open and fail never both, and a completed termination has run close exactly if the session had opened |
| `LifecycleProofs.AcksAreLegal` | server/external/websocketpp/websocketpp/impl/connection_impl.hpp:1981-2122 | With silent close off every acknowledgement pushed is terminal and echoes the last close payload received before it: its code, legal on the wire, and its reason; 1000 for an empty payload; 1002 for an invalid code or reason (section 7.4 of RFC 6455) |
| `LifecycleProofs.AcksAnswerInOrder` | server/external/websocketpp/websocketpp/impl/connection_impl.hpp:1981-2122 | Wherever a run is cut, an acknowledgement pushed before the cut answers a payload received before it and one pushed after it a payload received after it; no payload is answered twice |
| `LifecycleProofs.ClosePushedIff` | server/external/websocketpp/websocketpp/impl/connection_impl.hpp:1982-2049 | Exactly when a received close payload is acknowledged: a well-formed one when the session is open, a malformed one (invalid code or invalid reason) when open or closing unless that drops the connection, in both cases if the answer can be prepared |
| `LifecycleProofs.CloseFramesBounded` | server/external/websocketpp/websocketpp/impl/connection_impl.hpp:1982-2019 | In every run each close frame but the first acknowledges a malformed payload of its own, so there are at most one more close frames than malformed payloads, and at most one close frame if malformed payloads drop the connection |
| `LifecycleProofs.SecondCloseFrame` | server/external/websocketpp/websocketpp/impl/connection_impl.hpp:1982-2019 | After our own close a second close frame is pushed exactly when the peer answers with a malformed payload that does not drop the connection |
| `LifecycleProofs.OneCloseFrameIff` | server/external/websocketpp/websocketpp/impl/connection_impl.hpp:1982-2019 | At most one close frame is pushed in every run exactly if drop_on_protocol_error is set |
| `LifecycleProofs.CleanMeansBoth` | server/external/websocketpp/websocketpp/impl/connection_impl.hpp:2030-2128 | m_was_clean implies that a close frame was received and one was pushed |
| `LifecycleProofs.PeerCloses` | server/external/websocketpp/websocketpp/impl/connection_impl.hpp:2020-2029 | A valid close frame on an open session is acknowledged once, with its own code and reason unless the endpoint closes silently, and writing the acknowledgement closes with the close handler run once |
| `LifecycleProofs.WeClose` | server/external/websocketpp/websocketpp/impl/connection_impl.hpp:2030-2045 | A close started here ends cleanly with the peer's valid answer |
| `SessionEffects.PushedAsAsked` | server/external/websocketpp/websocketpp/impl/connection_impl.hpp:104-301 | In every run the data, ping and pong frames pushed are, in order, exactly those asked for while the session was open: by calls from outside or in handlers that had to run, and by pings to be answered |
| `SessionEffects.CallReports` | server/external/websocketpp/websocketpp/impl/connection_impl.hpp:110-151 | send, ping, pong and close report an invalid state exactly when the session is not open and success exactly when it is and the message can be prepared; a failed call pushes nothing |
| `SessionEffects.SendAll` | server/external/websocketpp/websocketpp/impl/connection_impl.hpp:104-152 | Sending any messages on an open session pushes exactly their data frames, in order, and changes nothing else |
| `SessionEffects.OwnClose` | server/external/websocketpp/websocketpp/impl/connection_impl.hpp:304-319 | A close of our own pushes one close frame: its code or none, at most 123 bytes of its reason, terminal exactly for 1002, 1007, 1008, 1009 and 1011 or if the message was; if it cannot be prepared only the codes change |
| `SessionEffects.AnswerTexts` | server/external/websocketpp/websocketpp/impl/connection_impl.hpp:1993-2012 | The reasons that go with an answer of 1002 |
| `SessionEffects.FatalEvents` | server/external/websocketpp/websocketpp/impl/connection_impl.hpp:716-1905 | Each read error, write error, timeout and event in the wrong state, unless a closed session is to ignore it, closes the session with that error and code 1006, and starts a shutdown of the right kind if it was not closed |
| `SessionEffects.LateEvents` | server/external/websocketpp/websocketpp/impl/connection_impl.hpp:813-836 | A closed session takes no notice of reads and writes that were under way, nor of the end of the stream |
| `SessionEffects.WriteCompletions` | server/external/websocketpp/websocketpp/impl/connection_impl.hpp:1895-1910 | A message written without error closes the session exactly if it was terminal, and leaves error and codes alone; so does terminating without an error |
| `SessionEffects.TerminationHandler` | server/external/websocketpp/websocketpp/impl/connection_impl.hpp:1698-1777 | Once its shutdown completes, a session ended by an error has run exactly one handler: close if it was open or closing, fail if it never opened, except that a plain HTTP exchange that has ended runs none |
| `SessionEffects.RefusedHandshake` | server/external/websocketpp/websocketpp/impl/connection_impl.hpp:1390-1418 | After a response that does not switch protocols and the shutdown, a plain HTTP exchange has run no handler and a refused WebSocket handshake the fail handler |
| `SessionEffects.RejectedRequest` | server/external/websocketpp/websocketpp/impl/connection_impl.hpp:949-960 | A request answered with an error at once ends with that error and the fail handler |
| `SessionEffects.DeferredResponse` | server/external/websocketpp/websocketpp/impl/connection_impl.hpp:920-926 | A handler that defers the HTTP response leaves the recorded error alone, and the response sent later ends the session with the error it is given, or as a plain HTTP exchange |
| `SessionEffects.OpenHandler` | server/external/websocketpp/websocketpp/impl/connection_impl.hpp:1351-1428 | The open handler runs exactly when a response that switches protocols has been written for a request that was read on a session still connecting, and at no other event |
| `SessionEffects.HandshakeOpens` | server/external/websocketpp/websocketpp/impl/connection_impl.hpp:716-941 | From start on, opening goes past incomplete requests, and past a complete one exactly if none of the calls its handlers make terminates; a switching response then opens the session, once |
| `SessionEffects.MalformedDrops` | server/external/websocketpp/websocketpp/impl/connection_impl.hpp:1984-2008 | With drop_on_protocol_error a malformed close payload or refused bytes close the session with an error and push nothing |
| `SessionEffects.RefusedBytes` | server/external/websocketpp/websocketpp/impl/connection_impl.hpp:1058-1079 | Without it refused bytes are answered by a close of our own with their code, or end the session if that cannot be sent; nothing read after them is looked at |
| `SessionEffects.AnswerToOurs` | server/external/websocketpp/websocketpp/impl/connection_impl.hpp:2030-2049 | A well-formed close payload on a closing session ends it cleanly, once; a further one starts nothing |
| `SessionEffects.PassedOver` | server/external/websocketpp/websocketpp/impl/connection_impl.hpp:1090-1100 | What the read loop ignores: null messages, invalid control opcodes, data, ping and pong on a session that is not open, everything on a closed one |
| `SessionEffects.RemoteRecorded` | server/external/websocketpp/websocketpp/impl/connection_impl.hpp:1981-2002 | Of every received close payload the code is recorded, whether it is allowed or not, and the reason if it is |
| `SessionEffects.Acknowledged` | server/external/websocketpp/websocketpp/impl/connection_impl.hpp:2020-2099 | A close payload made of a legal code and valid UTF-8 is acknowledged with that code and that reason, an empty one with 1000 (section 5.5.1 of RFC 6455) |
| `SessionEffects.AnsweredWith1002` | server/external/websocketpp/websocketpp/impl/connection_impl.hpp:1982-2019 | A malformed close payload that does not drop the connection is answered with a terminal 1002, whether the session is open or closing |
| `Close.LegalCodes` | server/external/websocketpp/websocketpp/close.hpp:184-203 | The tests for reserved and invalid codes together leave exactly the codes an endpoint may send (section 7.4 of RFC 6455) |
| `Close.ExtractCodeAccepts` | server/external/websocketpp/websocketpp/close.hpp:294-322 | A close payload is accepted exactly when it is empty or starts with such a code in network byte order |
| `Close.PayloadReadsBack` | server/external/websocketpp/websocketpp/close.hpp:294-348 | From the two bytes of any 16-bit code, high byte first, and any reason, exactly that code and reason are extracted, with the error of the code, if any, and whether the reason is UTF-8 |
| `Close.ShortPayloads` | server/external/websocketpp/websocketpp/close.hpp:299-304 | An empty payload is no status, 1005; a single byte is an error, 1002 |
| `Masking.ShiftedBytes` | server/external/websocketpp/websocketpp/frame.hpp:612-623 | Rotating a prepared key by n bytes moves byte n to the front, for every n below the word size |
| `Masking.FreshKey` | server/external/websocketpp/websocketpp/frame.hpp:595-604 | A prepared key holds the four key bytes twice, in order |
| `Masking.ByteMask` | server/external/websocketpp/websocketpp/frame.hpp:644-655 | The slow loop masks exactly the given region with the key from the given offset on, in place or not |
| `Masking.WordMaskExact` | server/external/websocketpp/websocketpp/frame.hpp:702-717 | Words and then single bytes give the same result as the slow loop from offset 0 |
| `Masking.WordMaskCirc` | server/external/websocketpp/websocketpp/frame.hpp:768-789 | Masks the region with the bytes of the prepared key taken around, and returns the key rotated by the odd bytes |
| `Masking.ByteMaskCirc` | server/external/websocketpp/websocketpp/frame.hpp:830-841 | The same with the low four bytes of the prepared key |
| `Masking.OneCall` | server/external/websocketpp/websocketpp/frame.hpp:768-841 | One call with a key prepared for an offset masks as the slow loop does at that offset, and returns the key for the offset after it |
| `Masking.AnyCallsMaskTheMessage` | server/external/websocketpp/websocketpp/frame.hpp:768-841 | Any sequence of word and byte calls over consecutive pieces, each given the key the last one returned, equals one slow pass over the whole message (section 5.3 of RFC 6455) |
| `Masking.MaskInPieces` | server/external/websocketpp/websocketpp/frame.hpp:768-841 | One buffer masked in place by any calls in turn, the returned key threaded through, ends as one slow pass over it |
| `Masking.MaskAndUnmask` | server/external/websocketpp/websocketpp/frame.hpp:768-841 | Masking a buffer and unmasking it in other pieces leaves it as it was |
| `Masking.MaskingIsAnInvolution` | server/external/websocketpp/websocketpp/frame.hpp:595-841 | Masking twice restores the message, even if it is cut up differently the second time |
| `Masking.MaskedOctet` | server/external/websocketpp/websocketpp/frame.hpp:644-655 | Octet i is combined with octet i modulo 4 of the key (section 5.3 of RFC 6455) |
| `Masking.MaskedHello` | server/external/websocketpp/websocketpp/frame.hpp:644-655 | The masked "Hello" of section 5.7 of RFC 6455 |
| `FrameHeader.SwapBytes` | server/external/websocketpp/websocketpp/common/network.hpp:66-85 | The four swaps reverse the eight bytes |
| `FrameHeader.HtonllTwice` | server/external/websocketpp/websocketpp/common/network.hpp:98-100 | Converting to network order and back gives the number back |
| `FrameHeader.ExtendedHeader.constructor` | server/external/websocketpp/websocketpp/frame.hpp:240-244 | The length field in its shortest form, zeros after it |
| `FrameHeader.ExtendedHeader.WithKey` | server/external/websocketpp/websocketpp/frame.hpp:246-256 | The length field, then the four key bytes, zeros after them |
| `FrameHeader.ExtendedHeader.CopyPayload` | server/external/websocketpp/websocketpp/frame.hpp:260-274 | Writes only the significant bytes of the size, in network order, and returns how many |
| `FrameHeader.BasicReadsBack` | server/external/websocketpp/websocketpp/frame.hpp:194-228 | Opcode, flags and size code of the two fixed bytes read back |
| `FrameHeader.SizeReadsBack` | server/external/websocketpp/websocketpp/frame.hpp:540-585 | Any buffer that starts with the length field of a size gives that 64-bit size and the key offset after it |
| `FrameHeader.RoundTrip` | server/external/websocketpp/websocketpp/frame.hpp:431-585 | For every opcode below 16, flags, 64-bit size and key, the prepared header followed by any data reads back to the same fields; its first two bytes fix its length, which is at most 14 (section 5.2 of RFC 6455) |
| `FrameHeader.ShortestForm` | server/external/websocketpp/websocketpp/frame.hpp:218-227 | No header that announces the same size with the same mask bit is shorter |
| `FrameHeader.HeaderOctets` | server/external/websocketpp/websocketpp/frame.hpp:194-274 | Every header byte by byte: FIN and RSV1 to RSV3 from the high bit down, opcode, mask bit, length or its code, length in network order, key (section 5.2 of RFC 6455) |
| `Md5.State.constructor` | server/external/websocketpp/websocketpp/common/md5.hpp:349-355 | The state holds the empty message |
| `Md5.CountAdds` | server/external/websocketpp/websocketpp/common/md5.hpp:361-370 | The two words with their carry count bits modulo 2^64 |
| `Md5.State.ProcessPartial` | server/external/websocketpp/websocketpp/common/md5.hpp:372-382 | A partial block is filled up, and compressed only if it became full |
| `Md5.State.ProcessBlocks` | server/external/websocketpp/websocketpp/common/md5.hpp:384-386 | All full blocks are compressed in order, and less than a block is left |
| `Md5.State.Append` | server/external/websocketpp/websocketpp/common/md5.hpp:357-391 | However a message arrives, the state depends only on the concatenation: digest words are the fold of compression over the full blocks, the buffer holds the tail, the counter is 8 times the length modulo 2^64 |
| `Md5.State.Finish` | server/external/websocketpp/websocketpp/common/md5.hpp:393-412 | The digest is that of the message padded with one bit, zeros and the length counted before padding (sections 3.1 to 3.4 of RFC 1321) |
| `Md5.PaddedIsWhole` | server/external/websocketpp/websocketpp/common/md5.hpp:406-409 | The padded message is a whole number of blocks, with between 1 and 64 bytes of padding, the least that will do |
| `Md5.PaddedInjective` | server/external/websocketpp/websocketpp/common/md5.hpp:403-409 | Below 2^61 bytes different messages have different padded forms |
| `Md5.PaddedOctets` | server/external/websocketpp/websocketpp/common/md5.hpp:393-409 | Every padded message octet by octet: the message, 0x80, zeros, and the bit count modulo 2^64 with its low octet first (sections 3.1 and 3.2 of RFC 1321) |
| `Md5.InitialOctets` | server/external/websocketpp/websocketpp/common/md5.hpp:349-355 | The initial words, as the octets of section 3.3 of RFC 1321 read out as a digest is |
| `Md5.FoldIsIterated` | server/external/websocketpp/websocketpp/common/md5.hpp:384-386 | Blocks of 64 bytes are compressed one after another, the first one first |
| `Md5.HashPieces` | server/external/websocketpp/websocketpp/common/md5.hpp:415-429 | Initialising, appending any list of pieces and finishing gives the hash of their concatenation |
| `Utf8.ClassIsTable` | server/external/websocketpp/websocketpp/utf8_validator.hpp:45-54 | The first 256 table entries as ranges of bytes |
| `Utf8.NextIsTable` | server/external/websocketpp/websocketpp/utf8_validator.hpp:55-59 | The rest of the table as transitions on ranges of bytes |
| `Utf8.RunConcat` | server/external/websocketpp/websocketpp/utf8_validator.hpp:104-118 | The automaton run over two pieces in turn is the run over them joined |
| `Utf8.ValidatePieces` | server/external/websocketpp/websocketpp/utf8_validator.hpp:104-126 | One validator given a string in any pieces, a decode for each until one is refused, accepts exactly if the whole string is well-formed UTF-8 |
| `Utf8.Validator.Reset` | server/external/websocketpp/websocketpp/utf8_validator.hpp:129-132 | Makes the validator as new |
| `Utf8.RejectAbsorbs` | server/external/websocketpp/websocketpp/utf8_validator.hpp:69-78 | The reject state is never left |
| `Utf8.Validator.Consume` | server/external/websocketpp/websocketpp/utf8_validator.hpp:91-96 | One byte advances state and code point by the tables |
| `Utf8.Validator.Decode` | server/external/websocketpp/websocketpp/utf8_validator.hpp:104-118 | A range advances the state as all its bytes would, although the loop stops at the first rejected one |
| `Utf8.DecodeEncode` | server/external/websocketpp/websocketpp/utf8_validator.hpp:69-78 | Running over the encoding of a scalar value ends accepting exactly at its end, with codep that value |
| `Utf8.DecodeEncodeAll` | server/external/websocketpp/websocketpp/utf8_validator.hpp:69-118 | Over the encodings of any list of scalar values the values of codep at the accepting points are that list |
| `Utf8.EncodeAllInjective` | server/external/websocketpp/websocketpp/utf8_validator.hpp:69-78 | Different lists of scalar values have different encodings, since decoding gives the list back |
| `Utf8.FirstScalar` | server/external/websocketpp/websocketpp/utf8_validator.hpp:69-78 | Everything accepted starts with the encoding of a scalar value, so overlong forms, surrogates and values above U+10FFFF are not accepted |
| `Utf8.AcceptsIsWellFormed` | server/external/websocketpp/websocketpp/utf8_validator.hpp:45-78 | The automaton accepts exactly the concatenations of encodings of Unicode scalar values (section 4 of RFC 3629) |
| `Utf8.AcceptedBytes` | server/external/websocketpp/websocketpp/utf8_validator.hpp:45-78 | No accepted input contains 0xC0, 0xC1 or a byte from 0xF5 up |
| `Utf8.Validate` | server/external/websocketpp/websocketpp/utf8_validator.hpp:143-149 | validate is true exactly of well-formed UTF-8 |
| `Hybi00.Processor.Consume` | server/external/websocketpp/websocketpp/processors/hybi00.hpp:252-307 | The resumable loop: how much is consumed, the new state, the payload so far, and the error cases |
| `Hybi00.Processor.GetMessage` | server/external/websocketpp/websocketpp/processors/hybi00.hpp:317-322 | Hands out the message and waits for the next header |
| `Hybi00.Processor.HandleRead` | server/external/websocketpp/websocketpp/impl/connection_impl.hpp:1032-1103 | The read loop delivers the messages of a buffer in order, stops at an error, and keeps an unfinished frame for the next read |
| `Hybi00.HandleReads` | server/external/websocketpp/websocketpp/impl/connection_impl.hpp:965-1107 | Any number of reads, up to the first error, deliver what one read of all the bytes would |
| `Hybi00.ReadLoopByByte` | server/external/websocketpp/websocketpp/processors/hybi00.hpp:276-292 | Searching a buffer for the terminator is the same as reading byte by byte |
| `Hybi00.ChunkingIsInvisible` | server/external/websocketpp/websocketpp/processors/hybi00.hpp:252-322 | What is delivered, the state and the error do not depend on how the bytes are split into reads |
| `Hybi00.PrepareDataFrame` | server/external/websocketpp/websocketpp/processors/hybi00.hpp:329-363 | Refuses null messages, other opcodes and invalid UTF-8 without touching the output; otherwise header and payload together are the frame |
| `Hybi00.RoundTrip` | server/external/websocketpp/websocketpp/processors/hybi00.hpp:252-363 | The frames of any list of valid texts, split into reads in any way, deliver exactly that list |
| `Hybi00.OnlyWithoutTerminator` | server/external/websocketpp/websocketpp/processors/hybi00.hpp:345-355 | An unvalidated payload survives framing exactly when it contains no 0xFF byte |
| `Hybi00.FailedDecoderIsStuck` | server/external/websocketpp/websocketpp/processors/hybi00.hpp:293-296 | After a fatal error nothing is consumed and no error reported |
| `Hybi00.FrameOctets` | server/external/websocketpp/websocketpp/processors/hybi00.hpp:350-355 | A frame is 0x00, the text and 0xFF |
| `Hybi00.FramesThenGarbage` | server/external/websocketpp/websocketpp/processors/hybi00.hpp:260-275 | Any frames followed by a byte other than 0x00 deliver the texts and then fail, whatever follows that byte |
| `Hybi00.NoBuffer` | server/external/websocketpp/websocketpp/processors/hybi00.hpp:262-275 | A frame for which there is no message buffer fails after its first byte, and a byte that starts no frame is not consumed |
| `EndToEnd.AlwaysAPrefix` | server/external/websocketpp/websocketpp/impl/connection_impl.hpp:1793-1928 | At every moment of every interleaving a Hybi-00 peer that has read any part of the wire, in any chunks, has been delivered a prefix of the pushed texts in push order |
| `EndToEnd.EverythingDelivered` | server/external/websocketpp/websocketpp/impl/connection_impl.hpp:1793-1928 | When a run without errors is at rest and the peer has read everything, it has exactly the texts pushed |
| `EndToEnd.CloseOnTheWire` | server/external/websocketpp/websocketpp/impl/connection_impl.hpp:2117-2148 | On the wire nothing but close frames follows a close frame, and an acknowledgement is the last frame of all, whatever the session pushes after it |
| `HttpParser.Delimiters` | server/external/websocketpp/websocketpp/http/constants.hpp:78-100 | No character with a meaning in the grammar is a token character |
| `HttpParser.TokenAlphabet` | server/external/websocketpp/websocketpp/http/constants.hpp:78-100 | The table accepts exactly the visible ASCII characters other than the 17 separators of the HTTP grammar |
| `HttpParser.SyntaxCharacters` | server/external/websocketpp/websocketpp/http/constants.hpp:107-118 | Which characters the parser gives a meaning to |
| `HttpParser.ExtractToken` | server/external/websocketpp/websocketpp/http/parser.hpp:72-78 | Returns the longest run of token characters and the cursor after it |
| `HttpParser.ExtractQuotedString` | server/external/websocketpp/websocketpp/http/parser.hpp:91-127 | Returns the unescaped text and the cursor after the closing quote; without a whole quoted string the cursor does not move |
| `HttpParser.ExtractLws` | server/external/websocketpp/websocketpp/http/parser.hpp:138-151 | Skips at most one folded line start and then white space |
| `HttpParser.ExtractAllLws` | server/external/websocketpp/websocketpp/http/parser.hpp:163-177 | Repeats that until the end or until nothing is skipped |
| `HttpParser.AllLwsIsMaximal` | server/external/websocketpp/websocketpp/http/parser.hpp:163-177 | On any input, what is skipped is a word of linear white space and no more can be skipped after it |
| `HttpParser.ExtractItem` | server/external/websocketpp/websocketpp/http/parser.hpp:230-272 | One attribute: name, optional value, and which inputs are errors |
| `HttpParser.ExtractAttributes` | server/external/websocketpp/websocketpp/http/parser.hpp:194-276 | On all inputs ends with the cursor in range, at the start after an error, with exactly the attributes the grammar function gives, later ones replacing earlier |
| `HttpParser.ExtractParameter` | server/external/websocketpp/websocketpp/http/parser.hpp:322-357 | One parameter: name and attributes, and which inputs are errors |
| `HttpParser.ExtractParameters` | server/external/websocketpp/websocketpp/http/parser.hpp:292-377 | The same for the list of parameters, in order, with a comma required to be followed by something |
| `HttpPrinter.QuotedReadsBack` | server/external/websocketpp/websocketpp/http/parser.hpp:91-127 | A printed quoted value reads back, whatever follows, exactly when it does not end in a backslash |
| `HttpPrinter.ReadAttributes` | server/external/websocketpp/websocketpp/http/parser.hpp:194-276 | Any printed attribute list reads back, whatever linear white space stands between its elements |
| `HttpPrinter.ParsingInvertsPrinting` | server/external/websocketpp/websocketpp/http/parser.hpp:292-377 | Parsing any printed non-empty parameter list reaches the end and returns that list |
| `HttpPrinter.StopsAtOther` | server/external/websocketpp/websocketpp/http/parser.hpp:359-376 | A list followed by anything but a comma is returned whole, with the cursor where the list ends |
| `HttpPrinter.TrailingComma` | server/external/websocketpp/websocketpp/http/parser.hpp:367-373 | A comma at the very end is an error that puts the cursor back to the start; with white space after it the list is read to the end |
| `HttpPrinter.NoName` | server/external/websocketpp/websocketpp/http/parser.hpp:319-330 | Something else where a parameter name must stand is an error that puts the cursor back to the start |
| `HttpPrinter.EmptyAttributes` | server/external/websocketpp/websocketpp/http/parser.hpp:340-353 | A semicolon with no attribute after it is an error that puts the cursor back to the start, unless white space, and nothing else, follows it |
| `HttpPrinter.NoItem` | server/external/websocketpp/websocketpp/http/parser.hpp:230-272 | An attribute without a name, or without a token or a closed quoted string after its equals sign, is an error |
| `HttpPrinter.Unquoted` | server/external/websocketpp/websocketpp/http/parser.hpp:97-126 | Text that does not start with a quote or has no second one is no quoted string |
| `HttpPrinter.Offer` | server/external/websocketpp/websocketpp/http/parser.hpp:292-377 | Any text of the form "name; attribute=value, other" in lower-case letters and digits is read as these words say |
| `Base64.FindChar` | server/external/websocketpp/websocketpp/base64/base64.hpp:43-46 | Each of the 64 characters is found at its own index, passes is_base64 and is not the padding |
| `Base64.CharFound` | server/external/websocketpp/websocketpp/base64/base64.hpp:53-58 | is_base64 accepts nothing outside the alphabet |
| `Base64.JoinSplit` | server/external/websocketpp/websocketpp/base64/base64.hpp:76-81 | Three octets make four sextets, which the decoding formulas join to the same octets |
| `Base64.SplitJoin` | server/external/websocketpp/websocketpp/base64/base64.hpp:146-148 | Four sextets make three octets, which the encoding formulas split into the same sextets |
| `Base64.EncodedLength` | server/external/websocketpp/websocketpp/base64/base64.hpp:66-115 | The encoding of n octets has 4*ceil(n/3) characters |
| `Base64.Encode` | server/external/websocketpp/websocketpp/base64/base64.hpp:66-115 | The loop computes the encoding, with padding in the last group |
| `Base64.Decode` | server/external/websocketpp/websocketpp/base64/base64.hpp:131-174 | The loop computes the decoding of the longest run of digits at the start, partial last group included |
| `Base64.DecodeEncode` | server/external/websocketpp/websocketpp/base64/base64.hpp:66-174 | Decoding inverts encoding on every byte string |
| `Base64.StopsAfter` | server/external/websocketpp/websocketpp/base64/base64.hpp:136-174 | Text after an encoding does not matter if the encoding ends in padding or the text starts outside the alphabet |
| `Base64.EncodedIsCanonical` | server/external/websocketpp/websocketpp/base64/base64.hpp:66-115 | Encodings are whole groups with padding in the last only and zero pad bits (sections 3.5 and 4 of RFC 4648) |
| `Base64.EncodeDecode` | server/external/websocketpp/websocketpp/base64/base64.hpp:66-174 | Encoding the decoding of a text gives the text back exactly when it is canonical |
| `Base64.GroupBits` | server/external/websocketpp/websocketpp/base64/base64.hpp:76-81 | Four sextets hold the 24 bits of the three octets, high ones first |
| `Base64.AlphabetText` | server/external/websocketpp/websocketpp/base64/base64.hpp:43-46 | The alphabet of table 1 of RFC 4648, and the equals sign |
| `Base64.TestVectors` | server/external/websocketpp/websocketpp/base64/base64.hpp:66-112 | Three encodings of section 10 of RFC 4648, one for each size of the last group |
| `Uris.PortReadsBack` | server/external/websocketpp/websocketpp/uri.hpp:321-341 | Every port from 1 to 65535 reads back from its decimal form |
| `Uris.NumberRead` | server/external/websocketpp/websocketpp/uri.hpp:330 | A number after white space and an optional sign is read up to the first character that is no digit |
| `Uris.PortTexts` | server/external/websocketpp/websocketpp/uri.hpp:321-341 | Such a text is a port exactly if it has no minus sign and its number is from 1 to 65535 |
| `Uris.NoNumber` | server/external/websocketpp/websocketpp/uri.hpp:330-338 | Text without a number reads as zero, which is no port |
| `Uris.NoLeadingZero` | server/external/websocketpp/websocketpp/uri.hpp:264-268 | Printed numbers have no leading zeros |
| `Uris.ReadPlain` | server/external/websocketpp/websocketpp/uri.hpp:120-137 | The loop over a host without brackets stops at a colon, a slash or the end |
| `Uris.ReadBracketed` | server/external/websocketpp/websocketpp/uri.hpp:84-119 | The host between brackets, and what may follow the closing one |
| `Uris.ReadPort` | server/external/websocketpp/websocketpp/uri.hpp:139-154 | The text of a port up to a slash, which is passed over, or the end |
| `Uris.ReadRest` | server/external/websocketpp/websocketpp/uri.hpp:84-164 | Host, port and resource after the scheme, or an invalid URI |
| `Uris.Uri.constructor` | server/external/websocketpp/websocketpp/uri.hpp:51-168 | The URI is valid exactly if scheme, host and port are well formed, and then the fields are those parts |
| `Uris.ParsedShape` | server/external/websocketpp/websocketpp/uri.hpp:51-168 | A valid URI has one of four schemes, the matching secure flag, a port from 1 to 65535 and a resource that starts with a slash |
| `Uris.ParseWritten` | server/external/websocketpp/websocketpp/uri.hpp:51-168 | For every scheme, every host that needs no brackets, any port text without a slash and any path, the text made of them parses to exactly those parts, secure for wss and https, with port 443 or 80 if none is given; it is invalid only if the port text is no port |
| `Uris.ParseBracketed` | server/external/websocketpp/websocketpp/uri.hpp:84-119 | The same for every host between brackets without a closing one inside |
| `Uris.BadBrackets` | server/external/websocketpp/websocketpp/uri.hpp:100-119 | A bracket that is not closed, or is followed by anything but a colon or a slash, makes the URI invalid |
| `Uris.Printed` | server/external/websocketpp/websocketpp/uri.hpp:274-285 | Printing leaves the port out exactly if it is 443 for a secure scheme or 80 for another |
| `Uris.Reparse` | server/external/websocketpp/websocketpp/uri.hpp:274-285 | Parsing the printed form of any valid URI gives an equal URI exactly when its host does not start with a bracket and has no colon or slash |
| `Uris.ReparseUnbracketed` | server/external/websocketpp/websocketpp/uri.hpp:274-285 | So every valid URI whose host was written without brackets survives printing and parsing |
| `Uris.BracketsAreLost` | server/external/websocketpp/websocketpp/uri.hpp:84-106 | "ws://[::1]/" does not: its printed form parses to something else |

## Left out

- SendQueue.Connection.FillSendBuffer: buffers are values; in the code they point into the messages, which stay unchanged while queued.
- Pipeline.EveryRun: the state check in `send` and the push are under different locks; the pipeline makes no claim about session states between them, and the session steps are at the granularity of the event loop.
- ServerConnection.Connection.DoHandleTerminate: the termination handler of the endpoint and the error code of the shutdown are not modelled.
- ServerConnection.Connection.DoTerminate: the reason recorded on an error is empty, not the text of the error, and `m_http_state` is not modelled.
- LifecycleProofs.SilentAfterClose: frames are logged in the order of `write_push`; the queue they go into is in the pipeline, and `EndToEnd.CloseOnTheWire` joins the two.
- Masking.WordMaskCirc: input and output are the same buffer or two buffers used at the same offset; overlapping regions at different offsets, big-endian machines and 32-bit words are left out.
- Hybi00.Processor.HandleRead: assumes that message buffers are available, which only `Consume` leaves open, and starts between frames or inside one; after a fatal error the connection does not read again.
- Md5.State.Append: the 64 operations that compress one block are a parameter.
- Base64.Decode: does not model the `int` index, which limits inputs to 2^31 - 1 characters.
- Uris.PortReadsBack: the conversion to `unsigned int` is modelled, the overflow of `atoi` beyond `int` is not; numbers there are unbounded.
- Uris.ParseWritten: the same holds of the port text here.
- Uris.Uri.constructor: the other constructors, the query and the authority are left out; the fields of an invalid URI have arbitrary values in the code and defaults here.
- HttpPrinter.ParsingInvertsPrinting: the printer is a specification; the library has no printer for parameter lists. `strip_lws`, whose reversed scan meets a line fold backwards, is left out.
- FrameHeader.BasicReadsBack: the setters of single flags are left out; the flags are set by the constructor.
- Client-role handshake and states, including the failed negotiation that goes on after a terminate (impl/connection_impl.hpp:1619-1635).
- The Hybi-13 processor, permessage-deflate and SHA-1.
- HTTP requests, responses and bodies, and the deferral of HTTP responses, except as choices of a step.
- The transports, timers, sockets, loggers, locales and random devices.
- The application server and the web client of the repository.
