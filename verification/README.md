# RRCP, verified

A Dafny model of the Remote Radio Control Protocol (RRCP) clients and codecs, with proofs of what they keep
over whole runs. `dafny verify dfyconfig.toml` checks the whole project.

RRCP sends text commands to a radio over TCP. A command such as `M:Bit GState` is given a number, escaped and
framed; replies carry the number back; trap data arrives unasked. The project covers:

- **The thread-safe client** (`async_rrcp_client_threadsafe.hpp`). All its state lives behind one strand, so a
  handler is one atomic step. `ClientModel` states the steps on a value; the class in `AsyncClient` carries them
  out on its fields, method by method, and every handler is proved to perform exactly its step and to keep the
  invariant. On the steps, `ClientInvariants` and `ClientSteps` prove that invariant inductive, and `ClientRuns`,
  `ClientKeys` and `Correlation` draw the consequences for every run and every interleaving: promises are
  conserved and answered once, requests reach the wire first in first out, lines are delivered whatever the
  fragmentation, a reply reaches the `write` that asked for it. Where the client does not do what it promises,
  the exact condition is proved there, and `ClientScenarios` has a run in which it fails. `Correlation` also gives the
  whole new state for every segment that can be read.
- **Escaping and both wire formats** (`rrcp_helper.cpp`, `rrcp_message.hpp`, `rrcp_client.cpp`): the escape codec
  as a bijection (`Escape`), delimiter frames under fragmentation and after garbage (`Segments`, `Framing`),
  numbering and reply matching (`Helper`), the fixed buffer with its hex header (`Message`), and the
  length-prefixed stream (`LengthFraming`).
- **Base64** (`tests/base64.c`, the fallback encoder of `Base64.cpp`): the in-place, truncating encoder and decoder
  against section 4 of RFC 4648 (`Base64`), and the line-breaking encoder (`Base64Lines`).
- **The simple client** (`async_rrcp_client.hpp`): 24-bit message ids and the looser frame reader (`SimpleClient`).
- **The example client** (`examples/async_tcp_client.cpp`): its connect, read, heartbeat and deadline actors
  (`DeadlineClient`).
- **Known answers** (`Vectors`): constants and formats spelt out byte by byte.

## How the model reads the source

- A C++ `char` is a Dafny `char` below 256; text properties are proved for all characters. Base64 works on `bv8`,
  with the index expressions in the widths of the C code.
- An exception is a result value. One thrown in a read handler leaves `io_context::run`, so the client is then
  `dead`: it takes no further step.
- What the program does not decide is an argument or an event: the iteration order of the hash map, the outcome
  of each asynchronous operation, the success of `malloc`, whether a deadline has expired, and which bytes
  arrive when.
- A promise is numbered by the `write` that made it. `Ledger` holds the values, and remembers in `caught` whether a
  handler ever tried to complete a promise twice.
- `next_message_id_` wraps like the 32-bit `int` it is; `size_t` is arithmetic modulo any word size from 16 up.
- A connect completes successfully only while the socket is open: the composed connect operation reports
  `operation_aborted` when it finds the socket closed.
- `stop()` may be called at any time, by the user or an expired deadline (`EvCallStop`); the handler it posts runs
  later (`EvStop`). Reads and writes completing after a stop are part of the model.
- A write in flight is the frame handed to it when it began (`inFlight`). `pop_front` on an empty queue has no
  defined outcome: the model marks it `undefined`, and the run ends.

## Where the code and its documentation disagree

The model follows the code.

- `docs/rrcp.txt:12` and `rrcp.txt:9` describe commands with a logical address. The code drops whatever stands between the
  first blank and the `S` or `G` (`InsertKeepsCommand`, `LogicalAddressLost`).
- `rrcp_helper.hpp:41` promises a command "with next valid msg_id inserted if needed". A request without `S` or `G`
  behind its first blank is awaited under its number but sent without it (`IdNotSent`); the peer can tell two
  numbers apart exactly when there is one (`IdSentExactly`).
- An error reply is meant for the request it names (`rrcp_helper.cpp:115`). The code lets `E:` match every key, and
  the empty key of trap commands match every reply (`MatchedExactly`). An error reply goes to whichever key comes
  first (`ErrorReplyTakesFirst`, `ErrorReachesWrongWrite`), so it is safe exactly when only one key is awaited; any
  other reply is safe exactly when no other awaited key occurs in it (`SafeReplyExactly`, `TrapTakesAnything`).
- Ids are meant to identify requests. All ids from 2^24 on are sent as 1 (`KeysDiffer`), and all trap commands are
  awaited under the empty key. A `write` overwrites the promise of an earlier one exactly when both are traps, or
  both are numbered from 2^24 on (`WriteOverwritesExactly`, `OverwrittenExactly`, `SecondTrapOverwrites`). That promise
  is destroyed: it never gets a value (`OverwrittenForEver`), and its caller gets an exception for an answer, which
  `write` turns into the empty text.
- `rrcp_message.hpp:158` speaks of decoding that succeeds or gives nothing. Decoding throws, exactly when an ESC before
  the first STOP is not followed by one of the three replacement bytes (`ThrowsExactly`, `DecodeBody`). A frame with
  such an ESC ends the thread-safe client (`ReadDiesExactly`, `StrayEscapeKills`); and a line too long for the length
  format makes the peer throw exactly when it is cut inside an escape sequence (`CutLine`).
- The catch branches and comments of `write` expect every request to be answered, with empty text at the latest when
  the client stops (async_rrcp_client_threadsafe.hpp:166-168). A `write` made on a stopped client is answered exactly
  when a stop handler or a connect is still to come (`LateWriteAnsweredExactly`, `LateWritesUnanswered`).
- The write handler expects the frame it has written at the head of the queue
  (async_rrcp_client_threadsafe.hpp:400). A stop that overtakes it has emptied the queue, and it pops an empty one,
  exactly then (`PopsEmptyExactly`, `LateCompletionPopsEmpty`).
- `tests/base64.c:100-101` says the size is 0 when `inlen + 2` overflows; it is 1. The overflow test is right all the
  same (`OverflowTestExact`).
- `tests/base64.c:305-306` promises the needed size in `*OUTLEN` when `malloc` fails; the code leaves it alone (`DecodeAlloc`).
- `Base64.hpp:26` gives a maximum line length of 80; the code breaks at 76 (`EncodeLines`).

## Model

| member | source | states |
|---|---|---|
| ClientRuns.PromisesConserved | async_rrcp_client_threadsafe.hpp:109-125 | In every run each promise is in exactly one of four places: queued for the connection, awaiting a reply, fulfilled, or overwritten; no handler ever completes a promise twice, so the catch branches are dead. |
| ClientRuns.ValuesFinal | async_rrcp_client_threadsafe.hpp:366-391 | A fulfilled promise keeps its value for the rest of every run. |
| ClientRuns.StopAnswersAll | async_rrcp_client_threadsafe.hpp:147-170 | After the stop step every earlier `write` has been answered or was overwritten before; those without an answer got the empty one. |
| ClientRuns.ConnectFailureAnswers | async_rrcp_client_threadsafe.hpp:237-262 | When connecting fails, every waiting request gets the empty answer and none stays queued. |
| ClientRuns.StoppedForEver | async_rrcp_client_threadsafe.hpp:147-170 | After a stop, in every continuation: no command is executed, no key awaited, nothing queued to be written. |
| ClientRuns.WireOrder | async_rrcp_client_threadsafe.hpp:218-262 | First in first out: in every run the frames on the wire followed by the write queue are the frames of the submitted messages in submission order, numbered consecutively from 10000, including those made before the connection; once connected none is left out. |
| ClientRuns.OneWriteAtATime | async_rrcp_client_threadsafe.hpp:393-413 | In every run at most one command write is in flight; until a stop the frame handed over to it is the head of the queue; a queue without a write in flight means a write failed and a stop is on its way; what has been written with what is in flight is a beginning of the submitted frames, even after a stop. |
| ClientRuns.PopsEmptyExactly | async_rrcp_client_threadsafe.hpp:393-413 | In every run, a write that completes successfully pops an empty queue if and only if the client has been stopped. |
| ClientRuns.KeepsReading | async_rrcp_client_threadsafe.hpp:300-364 | In every run there is at most one heartbeat write or timer; a connected client without a stop on its way has one, and has a read outstanding unless the next segment breaks an escape. |
| ClientRuns.HeartbeatGoesOn | async_rrcp_client_threadsafe.hpp:415-442 | A heartbeat is followed by its timer, the timer of a client that is not stopped by the next heartbeat, a failed heartbeat by a call of stop; nothing else changes. |
| ClientRuns.StopPosted | async_rrcp_client_threadsafe.hpp:147-155 | A call of stop is posted exactly when the client is not stopped, and changes nothing else. |
| ClientRuns.FailuresCallStop | async_rrcp_client_threadsafe.hpp:358-411 | A failed command write or read ends its operation and calls for a stop; nothing else changes. |
| ClientRuns.ConnectOutcome | async_rrcp_client_threadsafe.hpp:81-97 | A successful connect leaves the client connected, reading, with one heartbeat and nobody waiting, and answers no one; a failed one changes only its flags and the promises of the waiters. |
| ClientRuns.WriteWaits | async_rrcp_client_threadsafe.hpp:114-122 | A `write` without a connection only joins the waiting list. |
| ClientSteps.StopShape | async_rrcp_client_threadsafe.hpp:154-169 | A stop closes the socket, uses up one call, empties all three containers and gives the empty text to the awaited and then to the waiting promises; what is in flight, sent, read and overwritten stays. |
| ClientRuns.ReadDiesExactly | async_rrcp_client_threadsafe.hpp:300-357 | A read throws out of its handler, and ends the io thread, if and only if the segment it takes breaks an escape. |
| ClientRuns.OverwrittenForEver | async_rrcp_client_threadsafe.hpp:225 | A promise that has been overwritten stays so in every continuation, and never gets a value. |
| ClientRuns.LateWritesUnanswered | async_rrcp_client_threadsafe.hpp:114-122 | On a stopped client with no stop handler and no connect outstanding, every later `write` is queued and never answered. |
| ClientRuns.LateWriteAnsweredExactly | async_rrcp_client_threadsafe.hpp:114-122 | On a stopped client a `write` can still be answered, by some run, if and only if a stop handler or a connect is outstanding. |
| ClientRuns.LinesDelivered | async_rrcp_client_threadsafe.hpp:300-357 | For every message sequence, fragmentation of its frames and interleaving with all other handlers: the lines handed on are always a prefix of the non-empty messages, nothing throws, and once all bytes are in and read they are all of them. |
| ClientKeys.IdsGrow | async_rrcp_client_threadsafe.hpp:221 | The ids of the first n commands grow strictly if and only if the 32-bit counter has not wrapped. |
| ClientKeys.KeysDiffer | async_rrcp_client_threadsafe.hpp:218-225 | The keys of the first n numbered commands are pairwise different if and only if n is at most 2^24 - 10000 + 1. |
| ClientKeys.OnlyTrapsOverwritten | async_rrcp_client_threadsafe.hpp:218-225 | In every run up to the wrap of the counter, traps or not, only traps and requests numbered from 2^24 on ever lose their promise; with at most 2^24 - 10000 + 1 requests, only traps. |
| ClientKeys.OverwrittenExactly | async_rrcp_client_threadsafe.hpp:218-225 | In every reachable state the promise of an executed request has been overwritten if and only if a later command went out under its key and it had not been answered. |
| ClientKeys.WriteOverwritesExactly | async_rrcp_client_threadsafe.hpp:218-225 | Before a `write` on a connected client: a trap overwrites a promise if and only if another trap is awaited, and then that one; another request if and only if the ids have reached 2^24 and one sent as 1 is awaited. |
| ClientScenarios.SecondTrapOverwrites | async_rrcp_client_threadsafe.hpp:225 | For any two trap commands, a run in which the second overwrites the promise of the first, which then gets no value in any continuation. |
| ClientScenarios.ErrorReachesWrongWrite | rrcp_helper.cpp:135-139 | For any two requests that are no traps, a run in which the reply `E:2 10001` is given, whole, to the first, numbered 10000, and the second is left waiting. |
| ClientScenarios.StrayEscapeKills | rrcp_helper.cpp:30-51 | A run in which the four bytes LF ESC x CR end the client: no handler runs any more. |
| ClientScenarios.LateCompletionPopsEmpty | async_rrcp_client_threadsafe.hpp:393-413 | For every request, a run in which a stop overtakes the completion of its write and the handler pops an empty queue. |
| ClientRuns.RunReaches | async_rrcp_client_threadsafe.hpp:218-298 | The invariant of ClientInvariants holds in every reachable state. |
| ClientRuns.RunInputs | async_rrcp_client_threadsafe.hpp:300-323 | In every run the bytes read followed by the buffer are exactly the bytes that arrived, and the recorded messages exactly those submitted. |
| ClientSteps.StepKeeps | async_rrcp_client_threadsafe.hpp:218-413 | Every handler keeps the invariant: conservation of promises, order of execution, write queue, ownership of keys, the flags, and the read position. |
| ClientSteps.ReadIsTakeAndAnswer | async_rrcp_client_threadsafe.hpp:300-357 | The read handler takes exactly one segment off the buffer and, if it is a line other than trap data or a ping reply, answers at most one request with it; a malformed escape changes no data. |
| ClientInvariants.SetAllSets | async_rrcp_client_threadsafe.hpp:264-298 | Completing distinct open promises gives each the value, leaves all others alone and never takes a catch branch. |
| ClientInvariants.SecondValueCaught | async_rrcp_client_threadsafe.hpp:378-387 | A promise completed a second time keeps its first value, and the attempt is noticed. |
| Correlation.OnlyMatchWins | async_rrcp_client_threadsafe.hpp:366-391 | A key gets a response under every iteration order of the map if and only if it is awaited, matches, and no other awaited key matches. |
| Correlation.ReplyCorrelates | async_rrcp_client_threadsafe.hpp:366-391 | For every awaited key and every iteration order, a reply of that key, a blank and a payload, in which no other awaited key occurs, fulfils the promise of its key with the left-trimmed payload, removes that key only, and changes nothing else. |
| Correlation.SafeReplyExactly | async_rrcp_client_threadsafe.hpp:366-391 | An error reply reaches a key under every iteration order if and only if it is the only one awaited; any other reply if and only if of the awaited keys exactly that one occurs in it. |
| Correlation.TrapTakesAnything | rrcp_helper.cpp:112-142 | While a trap is awaited there is an iteration order that gives it any reply at all. |
| Correlation.ErrorReplyTakesFirst | rrcp_helper.cpp:135-139 | An error reply is given to the key that comes first in the iteration order, whichever request it names; whole, if that key does not occur in it. |
| Correlation.ReplyChangesExactly | async_rrcp_client_threadsafe.hpp:366-391 | A reply changes the awaited keys, and the promises, if and only if an awaited key occurs in it, or it begins with E: and a key is awaited; otherwise only the buffer and the record of lines read change. |
| Correlation.LineAnswersFirst | async_rrcp_client_threadsafe.hpp:366-391 | The whole new state for a line that answers a key: the first such key in iteration order is awaited no more, its promise has the text of MatchedText, nothing else changes. |
| Correlation.LinePasses | async_rrcp_client_threadsafe.hpp:339-352 | The whole new state for trap data, ping replies and lines that answer no awaited key. |
| Correlation.SegmentDropped | async_rrcp_client_threadsafe.hpp:305-318 | The whole new state for a segment that is too short, lacks START, or breaks an escape. |
| Correlation.EqualLengthIdsCorrelate | rrcp_helper.cpp:112-142 | For non-empty awaited keys of the same length and a payload without digits no hypothesis on substrings is needed. |
| Correlation.ReplyReachesItsWrite | async_rrcp_client_threadsafe.hpp:109-125 | End to end, in every run whatever its length and with traps before: when the awaited keys have as many digits as the number of the p-th `write`, a digit-free reply with that number fulfils exactly the promise of the p-th `write`. |
| Correlation.EarlyReplyReachesItsWrite | async_rrcp_client_threadsafe.hpp:109-125 | In particular, when no trap is awaited and the awaited requests are among the first 90000, the digit-free reply numbered 10000 + p fulfils exactly the promise of the p-th `write`. |
| AsyncClient.AsyncRrcpClient.constructor | async_rrcp_client_threadsafe.hpp:63-71 | A new client is in the initial state of the model. |
| AsyncClient.AsyncRrcpClient.Write | async_rrcp_client_threadsafe.hpp:114-125 | Queues the request before connection, executes it afterwards; the whole new state is that of the model's step. |
| AsyncClient.AsyncRrcpClient.ExecuteWriteRequest | async_rrcp_client_threadsafe.hpp:218-235 | Numbers the request, registers its promise, queues its frame, and starts a write exactly when the queue was empty. |
| AsyncClient.AsyncRrcpClient.NotifyConnectionWaiters | async_rrcp_client_threadsafe.hpp:237-262 | Executes all waiting requests in order, or gives each the empty answer; none stays waiting. |
| AsyncClient.AsyncRrcpClient.OnConnect | async_rrcp_client_threadsafe.hpp:81-97 | The connect handler, successful or not, is the model's step: waiters executed and reading and the heartbeat begun, or waiters answered; the invariant is kept. |
| AsyncClient.AsyncRrcpClient.OnWrite | async_rrcp_client_threadsafe.hpp:393-413 | The write handler takes the head off the queue and hands over the next frame, or calls for a stop; an empty queue makes it undefined; the invariant is kept. |
| AsyncClient.AsyncRrcpClient.OnHeartbeat | async_rrcp_client_threadsafe.hpp:427-441 | After a heartbeat its timer is started, or a stop called for; the invariant is kept. |
| AsyncClient.AsyncRrcpClient.OnHeartbeatTimer | async_rrcp_client_threadsafe.hpp:415-430 | The timer sends the next heartbeat unless the client is stopped; the invariant is kept. |
| AsyncClient.AsyncRrcpClient.StopClient | async_rrcp_client_threadsafe.hpp:147-155 | Posts the stop handler unless the client has already stopped. |
| AsyncClient.AsyncRrcpClient.OnStop | async_rrcp_client_threadsafe.hpp:154-169 | The posted stop handler is the model's step: closed, nothing pending, all waiters answered. |
| AsyncClient.AsyncRrcpClient.ClearPendingOperations | async_rrcp_client_threadsafe.hpp:264-298 | Gives the empty answer to all awaited and queued requests, in the order of the map and of the queue, and empties all three containers. |
| AsyncClient.AsyncRrcpClient.HandleResponse | async_rrcp_client_threadsafe.hpp:366-391 | The loop answers the first matching key in iteration order, once, and otherwise changes nothing. |
| AsyncClient.AsyncRrcpClient.OnRead | async_rrcp_client_threadsafe.hpp:300-364 | The read handler on the fields is the model's step. |
| AsyncClient.AsyncRrcpClient.OnParsed | async_rrcp_client_threadsafe.hpp:305-357 | What the read handler does with a malformed segment, an empty line, a line, or an exception. |
| AsyncClient.AsyncRrcpClient.OnLine | async_rrcp_client_threadsafe.hpp:339-352 | Trap data goes to the trap handler, ping replies are dropped, all other lines are responses. |
| AsyncClient.AsyncRrcpClient.OnReadFailed | async_rrcp_client_threadsafe.hpp:358-362 | A failed read calls for a stop. |
| Segments.SplitAppend | async_rrcp_client_threadsafe.hpp:300-323 | A stream cut after each delimiter gives the same segments however it was fragmented. |
| Segments.SplitJoins | async_rrcp_client_threadsafe.hpp:300-323 | The segments and the rest, put together, are the stream: nothing is lost or moved. |
| Segments.SplitCounts | async_rrcp_client_threadsafe.hpp:300-323 | There is one segment per delimiter, and what is left has none. |
| Escape.Char2Esc | rrcp_helper.cpp:59-84 | The loop computes the escaped text of the specification, whose properties follow. |
| Escape.Esc2Char | rrcp_helper.cpp:17-57 | The loop computes the decoded text, stops at STOP, or throws for a trailing or unknown escape. |
| Escape.RoundTrip | rrcp_helper.cpp:17-84 | Decoding undoes encoding for every string. |
| Escape.EscapeUnescaped | rrcp_helper.cpp:17-84 | Encoding undoes decoding for every delimiter-free string that decodes without throwing. |
| Escape.EscapedExactly | rrcp_helper.cpp:17-84 | A string is an encoding if and only if it has no delimiter and decodes without throwing: with the two round trips, the codec is a bijection. |
| Escape.EscapedIsClean | rrcp_helper.cpp:59-84 | Escaped text contains neither START nor STOP. |
| Escape.WireBytes | rrcp_helper.cpp:59-84 | LF, CR and ESC travel as ESC 1, ESC 2 and ESC 3, every other character as itself. |
| Escape.DecodesExactly | rrcp_helper.cpp:17-57 | What any text that does not throw decodes to: the message whose escaped form is the text before the first STOP, but for bare LFs in it. |
| Escape.TrailingExactly | rrcp_helper.cpp:30-50 | Which exception: the one for a trailing escape if and only if the only broken escape is an ESC at the end. |
| Escape.EscapedLength | rrcp_helper.cpp:59-84 | The escaped length is the length plus the number of LF, CR and ESC. |
| Escape.SameLengthSameText | rrcp_message.hpp:204-209 | Escaping keeps the length if and only if it keeps the text: the encoder's copy may be skipped. |
| Escape.SameLengthSameDecoding | rrcp_message.hpp:163-171 | Decoding never grows a text, and keeps the length if and only if it keeps the text: the decoder's copy may be skipped. |
| Escape.StopEndsDecoding | rrcp_helper.cpp:25-28 | Text decodes, or throws, the same with and without a closing STOP. |
| Escape.ThrowsExactly | rrcp_helper.cpp:30-51 | Decoding throws if and only if an ESC before the first STOP is not followed by one of the three replacement bytes. |
| Escape.CutEscaped | rrcp_helper.cpp:59-84 | An escaped text cut anywhere no longer decodes if the cut is inside an escape sequence, and otherwise is the escaped text of a beginning. |
| Framing.ParseRrcpMessage | async_rrcp_client_threadsafe.hpp:176-215 | On every buffer and length: malformed, the decoded line, or the exception, as the segment in front decides. |
| Framing.FrameParses | rrcp_helper.cpp:165-170 | A frame parses back to its message; only the frame of the empty message is skipped. |
| Framing.PlainEscaped | rrcp_helper.cpp:164-168 | Text without LF, CR and ESC travels as it is between LF and CR. |
| Framing.ReadStreamAppend | async_rrcp_client_threadsafe.hpp:300-323 | Reading a stream in two parts, with the rest kept in between, gives the lines of the whole. |
| Framing.FramedRoundTrip | async_rrcp_client_threadsafe.hpp:176-215 | Wherever concatenated frames are cut, the lines read are a prefix of the non-empty messages, and all of them at the end. |
| Framing.FrameAfterLeftover | async_rrcp_client_threadsafe.hpp:192-213 | Behind leftovers without STOP and ESC a frame never throws, and gives its message if and only if there are no leftovers. |
| Framing.LeftoverJoinsMessage | async_rrcp_client_threadsafe.hpp:192-213 | Leftovers that begin with START run together with the message that follows. |
| Framing.Resynchronises | async_rrcp_client_threadsafe.hpp:176-215 | Behind any ESC-free garbage all messages but the first are recovered, after at most one line per STOP in the garbage and one more; the first too when the garbage is empty or ends in STOP. |
| Framing.NoEmptyLines | async_rrcp_client_threadsafe.hpp:326-335 | No segment parses to the empty line: the check behind the parser never fires. |
| Framing.SegmentThrowsExactly | async_rrcp_client_threadsafe.hpp:176-215 | Parsing a read segment throws if and only if it has at least three bytes, begins with START and has an ESC in its body without a replacement byte behind it. |
| Framing.StreamThrowsExactly | async_rrcp_client_threadsafe.hpp:300-323 | Reading a stream throws if and only if one of its segments does. |
| Helper.CreateCommandMsg | rrcp_helper.cpp:144-171 | The key awaited and the frame sent, for every message and id, as the specification gives them. |
| Helper.TrapsExactly | rrcp_helper.cpp:146-161 | A command has no key if and only if a blank in it is followed by a T; otherwise its key is its id, or 1 from 2^24 on. |
| Helper.RequestForm | rrcp_helper.cpp:144-171 | Get and Set requests on the wire: LF, name, blank, id, blank, the rest from the S or G on, CR. |
| Helper.TrapForm | rrcp_helper.cpp:144-171 | Trap commands on the wire: LF, the command unchanged, CR. |
| Helper.PeerReadsCommand | rrcp_helper.cpp:144-171 | The peer that parses the frame reads the numbered command, and a trap command unchanged. |
| Helper.IdNotSent | rrcp_helper.cpp:99-106 | A request without S or G behind its first blank is awaited under its number but read by the peer without it. |
| Helper.IdSentExactly | rrcp_helper.cpp:86-110 | The frames of a request under two different numbers are the same if and only if it has no S or G behind its first blank. |
| Helper.InsertKeepsCommand | rrcp_helper.cpp:86-110 | Where the id goes and what is kept; taking it out again restores the command if and only if S or G follows the first blank at once. |
| Helper.LogicalAddressLost | rrcp_helper.cpp:100-109 | The documented form with a logical address loses the address. |
| Helper.DecimalDigits | rrcp_helper.cpp:155 | The decimal rendering of an id has digits only and reads back as the id. |
| Helper.SameKeySameId | rrcp_helper.cpp:146-156 | Two ids have the same key if and only if they are equal after the 24-bit replacement. |
| Helper.FindResponseMsg | rrcp_helper.cpp:112-142 | Whether a reply matches a key, and the cleaned reply; a reply that does not match is left as it was. |
| Helper.MatchedExactly | rrcp_helper.cpp:112-142 | A reply matches a key if and only if the key occurs in it or it begins with E:; the empty key matches everything. |
| Helper.MatchedText | rrcp_helper.cpp:112-142 | The text given: behind an id in front, what follows without leading blanks; with the id further back, what precedes its first occurrence without trailing blanks; for an error reply without the id, the reply itself. |
| Helper.MatchedReply | rrcp_helper.cpp:118-125 | A reply that begins with its id gives the left-trimmed payload. |
| Helper.MatchedError | rrcp_helper.cpp:126-131 | An error reply with the id behind it gives the bare error if and only if the id does not occur earlier in it. |
| Helper.OtherIdAbsent | rrcp_helper.cpp:116 | No other id of the same length occurs in a numbered reply whose payload has no digit. |
| Message.HeaderRoundTrip | rrcp_message.hpp:180-221 | The four hex digits written for any 16-bit length are read back as that length. |
| Message.HexTables | rrcp_message.hpp:184-218 | The sixteen digits written, and their values as read, in either case. |
| Message.NoNumberThrows | rrcp_message.hpp:184 | A header that begins with neither a blank nor a sign nor a hex digit throws. |
| Message.RrcpMessage.SetMsg | rrcp_message.hpp:125-142 | True if and only if the escaped message fits 65432 bytes; then body and header decode to the message and its escaped length; otherwise the object is cleared. |
| Message.RrcpMessage.Of | rrcp_message.hpp:51-58 | The constructed message is valid if and only if it fits, and then decodes to the text; otherwise it is cleared. |
| Message.RrcpMessage.GetMsg | rrcp_message.hpp:118 | The decoded body, or the exception. |
| Message.RrcpMessage.DecodeBody | rrcp_message.hpp:160-174 | The body becomes its decoding, header untouched; it throws exactly for a body with a broken escape, and then changes nothing; false exactly for an empty result. |
| Message.RrcpMessage.DecodeHeader | rrcp_message.hpp:180-196 | The length becomes the header's number when in bounds, 0 when not; it throws exactly when the header has no number, and then changes nothing. |
| Message.RrcpMessage.EncodeBody | rrcp_message.hpp:201-210 | The body becomes its escaped form, cut off at 65432 bytes, header untouched. |
| Message.RrcpMessage.EncodeHeader | rrcp_message.hpp:215-221 | The header is the body length in four hex digits, the 16-bit cast loses nothing, the body is untouched. |
| Message.RrcpMessage.Clear | rrcp_message.hpp:226-231 | All bytes are NUL, the length is 0, the message is not valid. |
| LengthFraming.BuildFrame | rrcp_client.cpp:193-197 | For every line the call sequence in main builds the frame of the line, clamped before and after escaping. |
| LengthFraming.RrcpReader.OnHeader | rrcp_client.cpp:81-95 | The header handler on the reused message is the model's step, whatever the old header was; a failed read closes the socket. |
| LengthFraming.RrcpReader.OnBody | rrcp_client.cpp:97-114 | The body handler on the reused message is the model's step: no stale byte of an earlier message shows; a failed read closes the socket. |
| LengthFraming.HeaderDecides | rrcp_client.cpp:81-95 | A header with a length above 65432 closes the reader for good, in every continuation; any other asks for exactly that many bytes. |
| LengthFraming.BadHeaderCrashes | rrcp_client.cpp:81-95 | A header that is no number ends the reading with nothing more printed. |
| LengthFraming.BodyDecides | rrcp_client.cpp:97-114 | A body throws if and only if it has a broken escape, closes the socket if and only if it is empty or begins with CR, and otherwise adds one line. |
| LengthFraming.RunSettles | rrcp_client.cpp:81-114 | However arrivals, reads and a failure interleave, no more is printed than if all bytes had come first, and unless closed the reader ends up in the same state. |
| LengthFraming.SettleArrive | rrcp_client.cpp:81-114 | Handling reads before or after more bytes arrive leads to the same state. |
| LengthFraming.SettleWire | rrcp_client.cpp:81-114 | The concatenated frames of lines that fit are read back as exactly those lines, leaving nothing. |
| LengthFraming.LinesPrinted | rrcp_client.cpp:81-114 | Under every fragmentation and interleaving, failed reads included, the lines printed are a prefix of the lines sent; and all of them once every byte is in and handled, if no read has failed. |
| LengthFraming.SentWholeExactly | rrcp_client.cpp:193-197 | A non-empty line arrives whole if and only if its escaped form fits 65432 bytes. |
| LengthFraming.CutLine | rrcp_client.cpp:193-197 | A line that does not fit makes the peer throw if the cut is inside an escape sequence, and otherwise arrives as a proper beginning of itself. |
| LengthFraming.SentBodyIsCut | rrcp_client.cpp:193-197 | The clamp before escaping makes no difference: what is sent is the first 65432 bytes of the escaped line. |
| Base64.Encode | tests/base64.c:62-81 | For every input and buffer size the array holds the longest prefix of the encoding that fits, a NUL if there is room, and is otherwise untouched. |
| Base64.EncodeQuantum | tests/base64.c:68-77 | One turn of the loop writes the four characters of section 4 of RFC 4648, or as many as fit, and nothing else. |
| Base64.EncodingLength | tests/base64.h:30 | The encoding has BASE64_LENGTH characters. |
| Base64.IndicesAreSextets | tests/base64.c:68-74 | The index expressions of the encoder are the four six-bit groups of the 24 bits. |
| Base64.Base64Decode | tests/base64.c:240-299 | For every input and buffer size: the verdict and the decoded bytes of the specification, as many as fit, the count written, the rest of the array untouched, no read outside the input. |
| Base64.AcceptsExactly | tests/base64.c:231-299 | Decoding succeeds if and only if the text has a multiple of four characters, all in the alphabet but for one or two closing =. |
| Base64.DeliversExactly | tests/base64.c:231-299 | What the decoder delivers of any text, accepted or not: of its longest beginning in the alphabet, the whole bytes of the six-bit values side by side, each given by its position. |
| Base64.RoundTrip | tests/base64.c:62-299 | For every byte string the decoder accepts its encoding and gives it back. |
| Base64.CanonicalExactly | tests/base64.c:62-299 | A text is the encoding of what it decodes to if and only if it is well formed and its unused bits are zero. |
| Base64.OverflowTestExact | tests/base64.c:92-112 | For every word size the test `inlen > outlen` holds if and only if the true size does not fit; otherwise the computed size is the true one; when `inlen + 2` overflows the computed size is 1. |
| Base64.EncodeAlloc | tests/base64.c:92-120 | Overflow, failed malloc, or exactly the encoding with its NUL in a buffer without a spare byte. |
| Base64.DecodedLength | tests/base64.c:319 | The decoding never exceeds 3 * (inlen / 4) + 2 bytes. |
| Base64.DecodeAlloc | tests/base64.c:312-334 | The allocation never overflows and never truncates; a buffer is returned exactly for well-formed input and a successful malloc, and `*outlen` is set only then. |
| Base64Lines.EncodeLines | Base64.cpp:87-157 | Without line breaks the encoding of section 4 of RFC 4648; with them the same text with a break exactly behind every 76 characters; with whitespace removed always the encoding. |
| Base64Lines.RemoveWhitespaceExactly | Base64.cpp:31-46 | Exactly the six ASCII blanks are removed, wherever they stand, and everything else is kept in order. |
| Base64Lines.EncodeOctets | Base64.cpp:106-152 | The index expressions for three, two or one remaining octets give the next four characters. |
| Base64Lines.LinesFit | Base64.cpp:117-125 | Section 6.8 of RFC 2045: among any 77 consecutive characters there is a line break. |
| SimpleClient.SimpleRrcpClient.NextCommand | async_rrcp_client.hpp:106-108 | The n-th command has the id 10000 + n modulo 2^24, and ids stay in that range. |
| SimpleClient.IdsRepeatExactly | async_rrcp_client.hpp:107-108 | Two commands have the same key if and only if their distance is a multiple of 2^24. |
| SimpleClient.SimpleRrcpClient.OnRead | async_rrcp_client.hpp:184-221 | The read handler takes one segment: trap data and replies are kept apart, pings dropped; an exception changes nothing; a failed read calls for a stop. |
| SimpleClient.ReadersAgree | async_rrcp_client.hpp:192 | On every segment of at least three bytes that begins with START both clients read the same line or both throw. |
| SimpleClient.ReadersDiffer | async_rrcp_client.hpp:192 | On every other segment they differ: the simple client hands on a line or throws where the thread-safe one skips. |
| SimpleClient.LooseExactly | async_rrcp_client.hpp:192 | The simple client reads a segment of at least three bytes as if it began with START, and a shorter one as an empty line. |
| SimpleClient.OneLine | async_rrcp_client.hpp:199-210 | A line beginning with d goes to the trap handler, one beginning with gPing nowhere, any other to the replies. |
| SimpleClient.StreamsAgree | async_rrcp_client.hpp:184-221 | Over every stream of such segments both clients read the same lines up to the same exception. |
| DeadlineClient.EveryRun | examples/async_tcp_client.cpp:102-296 | In every run: endpoints are tried in order, each at most once; at most one connect or read, one heartbeat write or timer and one deadline wait are outstanding, and before a stop exactly those that should be; the lines printed are the non-empty lines read. |
| DeadlineClient.LinesOfWire | examples/async_tcp_client.cpp:207-226 | Lines without LF sent one after the other are exactly the lines printed, without the empty ones. |
| DeadlineClient.ExpiryMovesOn | examples/async_tcp_client.cpp:147-176 | In every reachable state a deadline that expires during a connect gives up that endpoint, whatever the connect reports: the next one is tried, or the client stops. |
| DeadlineClient.FailureMovesOn | examples/async_tcp_client.cpp:147-176 | In every reachable state a connect that failed or finds its socket closed makes the client try the next endpoint with a reopened socket, or stop when there is none. |
| DeadlineClient.ConnectsExactly | examples/async_tcp_client.cpp:147-189 | In every reachable state a connect connects if and only if it succeeds and finds its socket open; then no further endpoint is tried, the socket stays open, and exactly one read and one heartbeat write have begun. |
| DeadlineClient.DeadlineExactly | examples/async_tcp_client.cpp:272-296 | The deadline actor closes the socket if and only if the deadline has expired, and goes on waiting; nothing else changes. |
| DeadlineClient.HeartbeatGoesOn | examples/async_tcp_client.cpp:236-270 | The timer follows the heartbeat write, and the next write the timer; nothing else changes. |
| DeadlineClient.FailuresStop | examples/async_tcp_client.cpp:114-124 | A failed read or heartbeat, and a call of stop, close the socket, stop the client and start nothing. |
| DeadlineClient.StartTries | examples/async_tcp_client.cpp:102-145 | A start takes over the endpoints, tries the first if there is one, and waits for the deadline; no other step changes the endpoints. |
| DeadlineClient.StopsExactly | examples/async_tcp_client.cpp:102-296 | In every reachable state a step stops the client if and only if it is a call of stop, a failed read or heartbeat, or leaves no endpoint to try; an expired deadline does not. The socket is closed then. |
| DeadlineClient.LinesPrinted | examples/async_tcp_client.cpp:191-234 | Under every fragmentation and interleaving the lines printed are a prefix of the non-empty lines sent, and all of them once every byte is in and read. |
| DeadlineClient.StoppedStep | examples/async_tcp_client.cpp:114-152 | After a stop every handler ends its own operation, starts none, and changes nothing else. |
| DeadlineClient.WindsDown | examples/async_tcp_client.cpp:114-124 | After a stop the number of handlers run plus the number of operations outstanding is constant, so the client winds down. |
| DeadlineClient.QuietMeansDone | examples/async_tcp_client.cpp:114-124 | No handler can run if and only if no operation is outstanding. |
| DeadlineClient.AsyncTcpClient.StartClient | examples/async_tcp_client.cpp:102-112 | Starting tries the first endpoint, or stops, and begins the deadline wait. |
| DeadlineClient.AsyncTcpClient.OnConnect | examples/async_tcp_client.cpp:147-189 | The connect handler is the model's step: stopped, timed out, failed, or connected. |
| DeadlineClient.AsyncTcpClient.OnRead | examples/async_tcp_client.cpp:207-234 | The read handler is the model's step: one line is taken, printed unless empty, and the next read begun. |
| DeadlineClient.AsyncTcpClient.OnWrite | examples/async_tcp_client.cpp:251-270 | The heartbeat handler is the model's step: the timer is started, or the client stops. |
| DeadlineClient.AsyncTcpClient.OnDeadline | examples/async_tcp_client.cpp:272-296 | The deadline handler is the model's step: an expired deadline closes the socket, and the wait goes on until a stop. |
| Vectors.GetAndTrap | rrcp_helper.cpp:144-171 | `M:Bit GState` with id 10000 is awaited under 10000 and sent with it; `M:Bit TState` is awaited under the empty key and sent as it is. |
| Vectors.NamelessError | tests/RRCP-test.cpp:32-43 | `E:1` answers 0815 and is given as it is. |
| Vectors.NoReply | tests/RRCP-test.cpp:58-69 | `d NoGo` does not answer 123456. |
| Vectors.StrayEscape | tests/RRCP-test.cpp:138-162 | An ESC before the first CR, at the end or with a byte other than 1, 2 or 3 behind it, throws. |
| Vectors.WireIds | rrcp_helper.hpp:11 | 16777215 is sent as it is, 16777216 as 1. |
| Vectors.Headers | rrcp_message.hpp:215-221 | The headers of lengths 0, 33 and 65432. |
| Vectors.Alphabet | tests/base64.c:64 | The Base64 alphabet is that of table 1 of RFC 4648. |
| Vectors.Rfc4648 | tests/base64.c:62-81 | The first test vectors of section 10 of RFC 4648. |

## Left out

- What a C++ program does after popping an empty queue, and what a write in flight sends once a stop has freed the
  memory of its frame.
- A `start` posted after the stop of the thread-safe client, and a second `start`.
- The bytes of heartbeat writes (async_rrcp_client_threadsafe.hpp:423-427). They share the socket with command writes
  without being ordered with them, so `WireOrder` is about command frames.
- The deadline wait of the thread-safe client as an operation of its own: a call of `stop` at any time covers it.
- ClientKeys.OnlyTrapsOverwritten: up to the wrap of the 32-bit counter, that is for the first 2^31 - 10000 requests;
  `OverwrittenExactly` holds beyond it.
- ClientKeys.WriteOverwritesExactly: up to the wrap of the 32-bit counter, behind which ids come round again.
- Timeouts of the caller of `write`, real time, and the points in time to which deadlines are set.
- `read` and the write queue of the simple client: unsynchronised polling with sleeps.
- The write queue of rrcp_client.cpp: easier than that of the thread-safe client. Comment stripping and trimming of its
  input lines.
- Trap handlers that throw or call back into the client.
- Headers with blanks, a sign or 0x in front of the digits, which `std::stoul` accepts: `DecodeHeader` follows it, but no
  lemma is about them.
- Promises are numbers, not shared pointers: who else holds a promise, and the exception a caller gets when the last
  holder drops it, are not modelled.
- The next read of the thread-safe client is started before the line is dispatched, not after; its handler runs
  on a later turn of the strand in either case.
- The fallback decoder of Base64.cpp, which drops zero bytes and so has no round trip; `base64::encode` and
  `base64::decode` as built, which call Boost.
- The unbounded `resize` and `max_size` of strings and buffers: input buffers have no limit here.
- Boost, Asio, fmt and socket internals, logging and command lines; the echo servers and their clients,
  examples/async_tcp_client_v20.cpp, the Poco samples, timer.cpp, the ANTLR grammar, CMake and infra files.
