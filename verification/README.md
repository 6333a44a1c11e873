# ESL transport, modelled and proved

FreeSWITCH's Event Socket Layer is a text protocol over TCP: a header block closed by a blank line,
then `Content-Length` bytes of body. This project models the client's transport and proves what it is
for. `dafny verify dfyconfig.toml` checks all of it.

| file | models |
|---|---|
| `Bytes.dfy`, `Utf8.dfy` | byte strings and pattern search; UTF-8 validation and U+FFFD substitution |
| `Unicode.dfy` | scalar values and their encodings, and that `Utf8` is exactly about those |
| `HeaderKeys.dfy`, `HeaderBlock.dfy`, `Blocks.dfy` | key normalisation; header lines, percent-decoding, the header map; their corners |
| `EslBuffer.dfy` | the byte buffer with its search watermark |
| `Framer.dfy` | the reference framer over a whole stream, the resumable parser as a value, and their agreement |
| `EslParser.dfy` | the parser object, updated in place |
| `ReaderLoop.dfy`, `Endings.dfy` | the reader loop: dispatch, reads, liveness, re-exec drain and adoption; which messages end it |
| `Reexec.dfy` | the caller's side of a re-exec: asking the reader to stop and collecting the residual |
| `Correlation.dfy`, `Lifecycle.dfy` | any number of clients, the writer lock, the reply slot, the reader, the switch; how each call goes |
| `Abandonment.dfy`, `Schedules.dfy` | calls dropped in mid-flight; calls under every schedule once the reader is dead |
| `EventQueue.dfy`, `Overflow.dfy` | the bounded event queue and its notice; what each overflow policy promises |
| `EventFormat.dfy` | plain-event decoding, its raw inner body, and serialisation |
| `Incoming.dfy`, `Delivery.dfy` | what the switch sends, and that the client receives exactly that, events included |
| `Commands.dfy`, `Validation.dfy` | outgoing commands: validation, wire format, and reading the stream back |
| `Understanding.dfy` | a reader from frames to commands, and when it gives back what was meant |
| `Subscriptions.dfy`, `Resubscription.dfy` | the event token grammar; replacing one subscription by another |
| `Salvage.dfy` | the truncated authentication reply |

How the pieces are stated:

- **Framing.** `Frames` reads a whole stream by recursion, one frame after another. `Parse` is one call of
  the resumable two-state parser. `Drain` calls it until it blocks. The class `EslParser.Parser`, over the
  watermarked `EslBuffer.Buffer`, is proved to compute `Parse` call by call. The theorems hold for every
  grammar of heads and bodies, `Esl` being the one in use.
- **The reader loop** runs over a script of what each wait on the socket observes and what each dispatch
  meets. It leaves a log, and its laws are stated over the log: messages, bytes, time and the stop signal
  are all read off it. The loop's own clock is proved to agree with the log; only `ReaderLoop.SilenceDetected`
  speaks of it directly.
- **Correlation and the queue** are state machines with one step per critical section, in every order. A
  step that is not enabled changes nothing, so a run is any list of steps.
- **Commands** are read back by an independent reader that knows only the framing rule: lines up to the
  first blank line, then as many bytes as the first length header says; and then by one that knows only the
  protocol's words, which gives back the command.

Where the code and its own words disagree, the model follows the code:

- `src/protocol/event_format.rs:111-114` says the first blank line falls at the same offset in the raw and
  in the decoded body, on the ground that event headers are ASCII. The parser does not enforce that
  ground. `Utf8.BlankLineOffsetKeptIff` says exactly when the offset is kept,
  `Utf8.BlankLineOffsetCanMove` shows one body where it is not, and `Utf8.LossyCommutesWithSplit` shows that
  the code, which searches the raw bytes again, cuts at the right place all the same.
- `freeswitch-types/src/event/mod.rs:146-149` says a raw body signals that the event body was not valid
  UTF-8. The code keeps it whenever there is an inner body and the whole payload was not:
  `EventFormat.RawBodyFlagsInnerIff` says exactly when the two agree, `EventFormat.RawBodyFlagsFineBody` shows
  an event that is flagged for nothing.
- `src/connection/client.rs:428-429` says no desired event type is ever unsubscribed. A name that moves
  between the typed and the raw list, or is respelled in another case, is: `Subscriptions.ResubscribeFromExactIff`,
  `Subscriptions.StraddlingNameLost`.
- A command whose event brings a length header of its own passes validation and misframes the stream
  unless that header tells the truth: `Commands.CommandReadsBackIff`, `Commands.OwnLengthMisframes`.
- Validation keeps a command on its line but not its fields apart: a space in a filter's header, an event
  format or a `myevents` uuid, a colon in a user name or an event's header name, makes another command of it.
  `Understanding.HeardIff` says exactly which commands are heard as meant.

## Model

| member | source | states |
|---|---|---|
| `EslBuffer.Buffer.FindPattern` | src/buffer.rs:69-95 | a search resumed from the watermark finds what a search from the start finds; a miss keeps the watermark invariant, a hit moves the watermark just past the match |
| `EslBuffer.Buffer.ExtendFromSlice` | src/buffer.rs:38-60 | the bytes are appended and no full match appears before the watermark |
| `EslBuffer.Buffer.ExtractUntilPattern` | src/buffer.rs:100-107 | takes everything before the first match from the start of the buffer, drops the match, and changes nothing without one |
| `EslBuffer.Buffer.ExtractBytes` | src/buffer.rs:110-125 | takes exactly `count` bytes when there are as many, and keeps the watermark invariant for the bytes left |
| `EslBuffer.Buffer.Clear` | src/buffer.rs:128-132 | empties the buffer with a valid watermark |
| `EslBuffer.Buffer.CheckSizeLimits` | src/buffer.rs:143-163 | an error exactly when the buffer is over its limit |
| `EslBuffer.AnyInterleaving` | src/buffer.rs:69-140 | for every pattern and every interleaving of extend, extract-until, extract, clear and compact, all results and the bytes left are those of a buffer with no watermark |
| `HeaderBlock.DecodeHeaderBlock` | src/protocol/mod.rs:30-48 | the loop over lines gives the fold of the lines into the header map and the lossy record, or the first error |
| `Blocks.LineEndsIgnored` | src/protocol/mod.rs:322-325 | carriage returns at line ends change nothing, whichever lines have them |
| `Blocks.LastCrIgnored` | src/protocol/mod.rs:322-325 | nor does one at the end of a last line without its newline |
| `Blocks.BlankLineSkipped` | src/protocol/mod.rs:326-328 | a blank line, of either kind, is skipped |
| `Blocks.ColonlessRefused` | src/protocol/mod.rs:329-333 | a line without a colon after good ones fails the block and is named, whatever follows |
| `Blocks.SetAgain` | src/protocol/mod.rs:353-365 | a name set again keeps its place and takes the later value |
| `Blocks.EscapeDecodes` | src/protocol/mod.rs:407-429 | an escape stands for its byte, whichever case either digit is in |
| `Blocks.LiteralDecodes` | src/protocol/mod.rs:407-429 | anything that is not a percent sign with two hexadecimal digits stands for itself |
| `Blocks.LengthReads` | src/protocol/mod.rs:247-256 | a length is read with any leading zeros, with or without a plus sign, exactly if it fits in 64 bits |
| `Blocks.NoLength` | src/protocol/mod.rs:247-256 | nothing, a bare plus sign, and text with any other character are no length |
| `HeaderKeys.TitleCaseDashes` | freeswitch-types/src/headers.rs:254-269 | a letter is a capital exactly when it opens the key or follows a dash; length and all other characters are kept |
| `HeaderKeys.NormalizeIs` | freeswitch-types/src/headers.rs:241-251 | the table's spelling if the table has the key; the key itself if it holds an underscore; otherwise capitals exactly where a word opens |
| `HeaderKeys.CaseAliasIff` | freeswitch-types/src/headers.rs:219-225 | keys without underscore share an alias exactly when equal up to case, the alias is lower case, and keys with one have none |
| `HeaderKeys.Letters` | freeswitch-types/src/headers.rs:254-269 | the 26 letters pair up in order under both case changes |
| `HeaderKeys.NotLetters` | freeswitch-types/src/headers.rs:254-269 | every other character is its own case |
| `HeaderKeys.NormalizeIdempotent` | freeswitch-types/src/headers.rs:241-251 | normalising twice is normalising once, for every table and key |
| `HeaderKeys.NormalizeAlikeIff` | freeswitch-types/src/headers.rs:219-251 | two keys share a canonical form if and only if they are equal, or equal up to case and in the table or without an underscore |
| `HeaderKeys.TableIsCanonicalIff` | freeswitch-types/src/headers.rs:241-251 | every table entry is its own canonical form if and only if no two entries collide on case |
| `Framer.ParseConsumes` | src/protocol/mod.rs:213-315 | a call that yields a message or an error strictly shrinks the buffer to a suffix; one that asks for more leaves no complete block and no complete body |
| `Framer.ParseStable` | src/protocol/mod.rs:213-315 | a call that had enough bytes answers the same whatever arrives later, which it leaves untouched behind the rest |
| `Framer.ParseResumes` | src/protocol/mod.rs:213-315 | asking too early is undone by the next call, which answers as one call on all the bytes |
| `Framer.DrainAppend` | src/protocol/mod.rs:204-315 | drain, feed, drain gives the messages, the parser and the error of feed, drain |
| `Framer.DrainIsFrames` | src/protocol/mod.rs:213-315 | the resumable parser on a whole stream gives the reference framer's messages and error, or blocks holding exactly its open frame |
| `Framer.ChunkIndependence` | src/protocol/mod.rs:204-315 | however a stream is cut, unless a chunk trips the size limit, feeding it chunk by chunk gives the reference framer's messages and its first error |
| `Framer.TwoCutsAgree` | src/protocol/mod.rs:204-315 | two cuts of one stream give the same messages and leave the same parser |
| `Framer.FeedChunksPrefix` | src/protocol/mod.rs:204-210 | even when the size limit trips, what was parsed is a first part of the stream's messages |
| `Framer.FramesTile` | src/protocol/mod.rs:224-315 | every stream is its frames end to end, each of which alone gives its own message, followed by the open frame, or by the bytes from the frame at fault on: no byte lost, none counted twice |
| `Framer.HandoverPreservesStream` | src/connection/mod.rs:569-585 | a parser stopped between messages leaves a residual with no blank line and within the limit; a new parser fed the residual and the rest continues as one uninterrupted parser, for every cut of both halves and every ending |
| `EslParser.Parser.AddData` | src/protocol/mod.rs:204-210 | the bytes are accepted first and an overflow reported after; bytes fed equal bytes consumed followed by bytes buffered |
| `EslParser.Parser.ParseMessage` | src/protocol/mod.rs:213-222 | computes the framing model's `Parse`, result and state, conserves the bytes fed, and shrinks the buffer unless it asks for more |
| `EslParser.Parser.ParseHeaderFrame` | src/protocol/mod.rs:224-278 | the header branch, with its errors in order: not UTF-8, bad line, content type missing or unknown, bad length, too large |
| `EslParser.Parser.ParseBodyFrame` | src/protocol/mod.rs:281-315 | the body branch: parks the message until its body is there, then decodes it, refusing ill-formed text only when strict |
| `EslParser.Parser.DrainBuffer` | src/protocol/mod.rs:192-201 | leaves a fresh parser with every byte accounted as consumed |
| `ReaderLoop.Run` | src/connection/reader.rs:548-669 | over every script of reads and every run of dispatches: the log is proper, its messages are the first messages of the bytes received, the exit is exactly the one its last entry calls for or the parser forces, residual bytes are sent exactly on teardown and preserve the stream, and the loop stops early for no other reason |
| `ReaderLoop.ReadStep` | src/connection/mod.rs:139-157 | one wait on the socket: end of stream, failure, idle tick and bytes each lead to the exit the log calls for, or keep the loop's invariant |
| `ReaderLoop.ParseStep` | src/connection/reader.rs:561-620 | one parse and its dispatch: keeps the invariant and shrinks the buffer, ends lawfully, or finds everything received dispatched |
| `ReaderLoop.BlockedStep` | src/connection/reader.rs:464-521 | with nothing to parse: teardown if stopping between messages, otherwise one wait, which while stopping only finishes a body |
| `ReaderLoop.ProperAt` | src/connection/reader.rs:558-669 | at every point of a run: nothing follows an entry that ends the loop, the socket is waited on only with everything received dispatched, and after the stop signal only in the middle of a body |
| `ReaderLoop.SilenceEndsRun` | src/connection/reader.rs:648-658 | an idle tick past its limit, stalls not counted, is the last thing the loop does |
| `ReaderLoop.SilenceDetected` | src/connection/reader.rs:524-543 | with exact ticks an unstalled silence is detected on the first tick past the limit and no earlier, at most one tick late |
| `ReaderLoop.DispatchKeeps` | src/connection/reader.rs:561-620 | a dispatched message adds itself to the log, gives the stall back to the clock and counts other time, and keeps the loop's invariant or ends it lawfully |
| `Endings.GoesOnPast` | src/connection/reader.rs:345-405 | in every lawful run a reply, an event the application still takes, or a lingering disconnect notice is followed by more, or the run stops for a reason that is not the message |
| `Endings.NoticeEnds` | src/connection/reader.rs:389-407 | a disconnect notice that does not linger is the last thing dispatched, with its own exit |
| `Endings.RejectionEnds` | src/connection/reader.rs:408-423 | so is a rejection |
| `Endings.ChallengeEnds` | src/connection/reader.rs:424-437 | so is a challenge to authenticate again |
| `Endings.LostReceiverEnds` | src/connection/reader.rs:297-340 | so is an event no one takes any more |
| `ReaderLoop.PendingBodyBound` | src/constants.rs:4-16 | with a body pending, one more socket read stays below the largest message plus one socket buffer, hence below the buffer limit |
| `ReaderLoop.OverflowLawful` | src/protocol/mod.rs:204-210 | the reader's buffer overflows only on an unterminated header block, and never while draining |
| `ReaderLoop.TeardownLawful` | src/connection/reader.rs:474-492 | the residual handed over holds no blank line, fits the limit, and continues the stream whatever comes next |
| `ReaderLoop.Adopt` | src/connection/mod.rs:569-585 | adopting succeeds exactly when the residual fits the limit, and gives a fresh parser holding it |
| `ReaderLoop.BoundaryDispatchedAll` | src/connection/reader.rs:621-669 | a run that ends at end of stream, failure, silence, teardown or is still running has dispatched every message of the bytes received |
| `ReaderLoop.ReexecJoins` | src/connection/reader.rs:464-492 | the lawful runs of two processes joined by a teardown are one reader of both their bytes: all its messages when the second ends at a boundary, all up to the error when it ends at one |
| `ReaderLoop.RunAcrossReexec` | src/connection/mod.rs:569-585 | a run, adoption of its residual and a second run: adoption never fails, and both runs' messages are those of one uninterrupted reader, up to its error, or the message that ended it, if it meets one |
| `Reexec.Session.RequestStop` | src/connection/reexec.rs:72-118 | refused while a command is in flight, changing nothing; refused once the channel is taken; otherwise takes it and switches the liveness check off, even if the reader is gone |
| `Reexec.Session.TeardownForReexec` | src/connection/reexec.rs:68-157 | the teardown with the reader's run behind it: succeeds exactly when the reader reports a teardown, with a residual that continues the stream; every refusal and its reason; no second call succeeds |
| `Reexec.NoHeartbeat` | src/connection/reexec.rs:104-107 | with the check switched off, no run ends by an expired heartbeat |
| `Reexec.CollectedReasons` | src/connection/reexec.rs:119-132 | what the caller learns for every way the reader can have ended, each reason exactly when it applies |
| `Correlation.StepKeeps` | src/connection/client.rs:24-113 | every step of every client, of the reader and of the switch keeps the invariant of lock, numbering, slot, owed replies and history |
| `Correlation.ResponsesMatchCommands` | src/connection/client.rs:24-113 | in every run, a call that returns a response returns the reply to its own command |
| `Correlation.EveryReplyAccountedOnce` | src/connection/reader.rs:353-388 | the commands written are, in order, those whose replies were routed, then those in flight, then those unanswered; each routed reply went to its own waiter or to a timed-out command's discard, and none was unsolicited |
| `Correlation.OwedReplies` | src/connection/client.rs:41-105 | while the reader is not dead, the owed replies are exactly `stale_replies` timed-out commands followed by the current one if it is installed and written |
| `Correlation.DeadStaysDead` | src/connection/reader.rs:277-291 | once the reader is dead, the slot stays empty and the stale count zero in every later state |
| `Correlation.NoStrandedWaiter` | src/connection/client.rs:41-54 | with a dead reader, a call that holds the lock or finds it free finishes by its own steps, with an error unless its own reply had been delivered, and moves no other call |
| `Lifecycle.ReturnsOnce` | src/connection/client.rs:24-113 | in every run no command returns twice, and none while its call is open |
| `Lifecycle.CallSucceeds` | src/connection/client.rs:24-113 | from a free connection a call can be made, sent, answered and returned with its own reply |
| `Lifecycle.ReplyReturns` | src/connection/reader.rs:353-388 | a waiting call can get its own reply, however many stale ones are ahead |
| `Lifecycle.TimeoutReturns` | src/connection/client.rs:83-105 | a timeout counts one stale reply exactly when the waiter was still in the slot |
| `Lifecycle.WriteFailureReturns` | src/connection/client.rs:55-82 | a failed write clears the waiter and leaves the stale count and the wire alone |
| `Lifecycle.DisconnectedRefuses` | src/connection/client.rs:24-40 | on a connection known to be down a call returns at once and touches nothing |
| `Lifecycle.DisconnectMarks` | src/connection/client.rs:892-900 | disconnecting marks the connection down and moves nothing else |
| `Lifecycle.ReaderExits` | src/connection/reader.rs:260-291 | the reader's exit publishes or not, drops the waiter, empties the slot and marks it dead, and moves nothing else |
| `Lifecycle.LockExcludes` | src/connection/client.rs:33-40 | no one gets the writer lock while someone holds it |
| `Schedules.EveryScheduleReturns` | src/connection/client.rs:83-105 | with a dead reader and no new call, under every schedule: only so many steps do anything inside a call, calls only return, once each, with an error or a reply delivered before, and while a call is open some call can move |
| `Schedules.OwnStepLowers` | src/connection/client.rs:24-113 | every step that does anything inside a call brings the calls together nearer to returning |
| `Schedules.SomeoneCanMove` | src/connection/client.rs:24-113 | while a call is open, some call has a step that does something: no deadlock on the writer lock |
| `Schedules.EveryoneReturns` | src/connection/client.rs:83-105 | a schedule after which every call has returned |
| `Abandonment.AbandonMisdeliversIff` | src/connection/client.rs:24-113 | dropping a call in mid-flight lets some later run answer a command with another's reply if and only if its command is written, its waiter is in the slot, the reader is running, and another command can still be sent |
| `Abandonment.PhantomStep` | src/connection/client.rs:41-54 | the waiter of a call dropped before its write is harmless: every step keeps it so or ends it with the invariant whole |
| `Abandonment.AbandonedReplyGoesAstray` | src/connection/client.rs:24-113 | a run in which the next call is handed the abandoned command's reply |
| `EventQueue.StepKeeps` | src/connection/reader.rs:42-230 | every step of dispatching, waiting, receiving and stopping keeps the queue's invariant |
| `EventQueue.QueueAccounting` | src/connection/reader.rs:42-230 | over every interleaving: received then queued is everything queued, in order; queued events are a subsequence of dispatched ones; dispatched equals queued plus dropped plus the one in hand; the notice is armed exactly when an event was lost since the last notice, and every notice announces such a loss |
| `Overflow.EveryEntryCaused` | src/connection/reader.rs:42-230 | every entry of every run has its cause: an event is sent only into room; it is lost only because the queue was full and it would not wait, its budget ran out, or the stop signal found no free place; a notice is sent only when due |
| `Overflow.RoomSends` | src/connection/reader.rs:133-158 | with room and the application there, the event in hand is queued last, by the attempt, the permit or the last attempt on stop |
| `Overflow.FullQueueParksOrDrops` | src/connection/reader.rs:53-71 | with a full queue an event that may wait parks and counts a stall; one that may not is lost and counted |
| `Overflow.BudgetRunsOut` | src/connection/reader.rs:133-143 | a wait whose budget runs out loses its event, counts it and arms the notice |
| `Overflow.StopEndsWait` | src/connection/reader.rs:112-158 | the stop signal ends a wait whatever it finds, and the event is sent exactly if there is a free place |
| `Overflow.QueueSizeHonoured` | src/connection/mod.rs:594-596 | the queue holds as many items as asked for, and at least one, throughout every run |
| `Overflow.GoneReceiverEnds` | src/connection/reader.rs:53-60 | once the application is gone the next attempt ends the reader, with nothing sent or counted |
| `Overflow.WaitingDeliversAll` | src/connection/reader.rs:95-131 | in every run under the waiting policy in which no budget runs out and no stop comes, everything dispatched is queued, in order, but the event in hand |
| `Overflow.DroppingNeverStalls` | src/connection/reader.rs:62-65 | in every run under the dropping policy the reader never parks |
| `EventQueue.NoticeFirstIff` | src/connection/reader.rs:42-182 | whatever the consumer does between the steps of a dispatch, under either policy, it logs its due notice exactly when the queue had room at the flush, and then its event; an event sent overtakes a due notice if and only if the queue was full at the flush |
| `EventQueue.UninterruptedNoticeFirst` | src/connection/reader.rs:47-60 | a dispatch the consumer does not interrupt sends its event if and only if there is room for it and its notice with the receiver there, and then leaves no notice due |
| `EventQueue.InterruptedNoticeLate` | src/connection/reader.rs:47-71 | a run in which a receive between flush and send lets an event through before its notice |
| `Unicode.ValidIffEncoded` | src/protocol/mod.rs:233-235 | a byte string is accepted if and only if it is the concatenated encodings of scalar values, defined by arithmetic |
| `Unicode.LossyIff` | src/protocol/mod.rs:292-309 | the substituted text is the one text in which every encoding stays and every maximal ill-formed subpart becomes U+FFFD |
| `Unicode.ReplacedIsMaximal` | src/protocol/mod.rs:292-309 | what is replaced at once is the longest first part that opens some encoding, or one byte |
| `Utf8.LossyIsValid` | src/protocol/mod.rs:292-309 | the substituted text is well-formed UTF-8 for every input |
| `Utf8.LossySplitsAtAscii` | src/protocol/mod.rs:292-309 | substitution splits at every ASCII byte and never absorbs one |
| `Utf8.LossyCommutesWithSplit` | src/protocol/event_format.rs:111-132 | for every byte body, the decoded text's header section and inner body are the decodings of the raw ones |
| `Utf8.BlankLineOffsetKeptIff` | src/protocol/event_format.rs:111-114 | the blank line keeps its offset if and only if no ill-formed subpart before it is shorter than the substitute |
| `Utf8.BlankLineOffsetCanMove` | src/protocol/event_format.rs:111-114 | a body whose blank line moves |
| `EventFormat.ParsePlainEvent` | src/protocol/event_format.rs:93-136 | the three refusals and exactly when each happens; otherwise headers and body are the decoded payload's with the envelope's lossy record in front; the raw body is the raw tail whose decoding the body is, and is absent with no inner body |
| `EventFormat.RawBodyFlagsInnerIff` | freeswitch-types/src/event/mod.rs:146-156 | every event delivered keeps the inner body's wire bytes exactly when there is an inner body and the payload was ill-formed; that agrees with "the inner body is ill-formed" if and only if the inner body is empty, the header section is well formed, or the inner body is ill-formed |
| `EventFormat.IllFormedHeaderFlags` | src/protocol/event_format.rs:111-132 | any ill-formed header line in front of a well-formed inner body is delivered as an event whose raw body is kept |
| `EventFormat.RawBodyFlagsFineBody` | freeswitch-types/src/event/mod.rs:146-156 | a Latin-1 byte in a header value: the event is delivered with its fine body, and flagged |
| `EventFormat.SerializedRoundTrip` | src/protocol/event_format.rs:30-61 | any fields with distinct canonical keys and any inner body come back in order, minus undefined values when those are skipped; values that are not text, and only those, are recorded with their raw form |
| `EventFormat.HeadersOnlyRoundTrip` | src/protocol/event_format.rs:30-61 | the same without an inner body, for any list of fields, empty or not |
| `EventFormat.StrictRefuses` | src/protocol/mod.rs:407-429 | strict decoding refuses at the first field that is not text, and names it |
| `EventFormat.PercentRoundTrip` | src/protocol/mod.rs:407-429 | however much is encoded, as long as the percent sign and the line terminators are, decoding gives the value back |
| `EventFormat.EncodedRoundTrip` | src/protocol/event_format.rs:30-61 | headers and body serialised and decoded are the same headers, in order, and the same body, strict or not |
| `Incoming.LengthAnywhere` | src/protocol/mod.rs:258-270 | a decimal length announces itself at any place among the fields, zero included |
| `Incoming.KindReadsBack` | src/protocol/mod.rs:78-92 | every kind of message is recognised as itself from its wire text |
| `Incoming.OnlyKindsRead` | src/protocol/mod.rs:78-92 | nothing else is recognised, and the refusal names it |
| `Incoming.UntypedRefused` | src/protocol/mod.rs:238-245 | a block without a content type, or with one that is no kind's, is refused and says why |
| `Incoming.BadLengthRefused` | src/protocol/mod.rs:247-256 | a length that is no number is refused with the header named; any other is the body's length |
| `Incoming.FrontIsEnvelope` | src/protocol/mod.rs:224-315 | a message of any kind, with its truthful length anywhere among its fields, at the front of any stream, is read as that kind with those fields and takes exactly its own bytes, or is refused exactly when strict decoding meets an ill-formed body |
| `Incoming.FramesOfStream` | src/protocol/mod.rs:213-315 | any list of messages followed by anything reads as those messages and then whatever the rest reads as |
| `Incoming.SentIsReceived` | src/protocol/mod.rs:204-315 | whatever messages the switch sends and however the network cuts them, the client sees exactly those, in order, with nothing left over, unless a chunk trips the size limit |
| `Incoming.EventParses` | src/protocol/event_format.rs:93-136 | the message parsed from an event's envelope gives the event: the same headers in order, the inner body's text, and its wire bytes exactly when they are not that text |
| `Incoming.EventArrives` | src/protocol/mod.rs:281-315 | from the wire bytes of an event among any other messages, cut in any way, to the event: the messages before it and an error if strict decoding meets an ill-formed inner body, otherwise every message and the event sent, body and raw body |
| `Delivery.NeverTrips` | src/connection/mod.rs:139-157 | reads of the reader's size never trip the size limit while open header blocks leave room for one |
| `Delivery.CutStreamFits` | src/protocol/mod.rs:224-278 | at every byte of a stream of messages, an open header block is part of one message's own |
| `Delivery.SentIsDelivered` | src/protocol/mod.rs:204-315 | with the reader's reads and header blocks that leave room for one, everything sent is received whatever the cut, with no condition on the size limit |
| `Commands.FormatSimpleCommand` | src/command/mod.rs:317-326 | one line of words and a blank line |
| `Commands.CommandBuilder.Header` | src/command/mod.rs:92-100 | refuses exactly names and values with a line terminator and changes nothing then |
| `Commands.CommandBuilder.Build` | src/command/mod.rs:109-133 | the command line, the header lines in order, the body's length, a blank line and the body |
| `Commands.BuildFromEvent` | src/command/mod.rs:328-340 | succeeds exactly when every header is clean, with every header and the body in place |
| `Commands.ToWireFormat` | src/command/mod.rs:429-539 | succeeds exactly on accepted commands, with their wire form, and reports the validation error otherwise |
| `Validation.ValidateIff` | src/command/mod.rs:362-426 | a command passes if and only if the line it would send is one line, with no carriage return either, and so is what an execution or a deletion carries beside it; an event must have a name |
| `Understanding.HeardIff` | src/command/mod.rs:429-539 | read back by the protocol's words, an accepted command in front of any stream is heard as it was meant if and only if no field holds its own end and its length headers agree |
| `Understanding.UnderstoodIff` | src/command/mod.rs:429-539 | the same of its frame alone, for every one of the commands |
| `Understanding.ExecuteReadsBack` | src/command/mod.rs:456-487 | an execution reads back as itself, application, arguments and options, from the message that asks for it |
| `Understanding.StreamUnderstood` | src/command/mod.rs:92-133 | a stream of clear commands is understood command by command |
| `Commands.AcceptedLineClean` | src/command/mod.rs:362-426 | what validation checks is enough for every command to keep to one line |
| `Commands.CommandReadsBackIff` | src/command/mod.rs:429-539 | an accepted command at the front of any stream reads back as its lines and its body if and only if its own length headers agree with its body |
| `Commands.OutgoingStreamDecodes` | src/command/mod.rs:92-133 | any list of accepted commands with no length header of their own reads back as one frame each |
| `Commands.OwnLengthMisframes` | src/command/mod.rs:328-340 | a family of accepted commands that never read back as sent |
| `Subscriptions.OrderEventTokens` | freeswitch-types/src/event/subscription.rs:156-184 | every other name in order, then `CUSTOM` once if it was there or there are subclasses, then the subclasses |
| `Subscriptions.AllAlone` | freeswitch-types/src/event/subscription.rs:483-489 | asking for everything asks for nothing else |
| `Subscriptions.SubscribeAdds` | src/connection/client.rs:245-260 | the subscribing command adds exactly the wanted types and subclasses |
| `Subscriptions.RemovalsRemove` | src/connection/client.rs:275-297 | the removing commands remove exactly the differences, each from its own set |
| `Subscriptions.ResubscribeFromExactIff` | src/connection/client.rs:435-484 | from the old subscription's state `resubscribe_from` ends at exactly the new one, filters included, if and only if no removed name is, up to case, still wanted |
| `Subscriptions.StraddlingNameLost` | src/connection/client.rs:435-484 | a wanted type that ends up unsubscribed |
| `Subscriptions.ResubscribeFromGapFree` | src/connection/client.rs:435-484 | between any two commands the connection receives what both subscriptions want, and from the first command on everything the new one wants |
| `Subscriptions.ResubscribeReaches` | src/connection/client.rs:399-415 | `resubscribe` reaches the new subscription from any state, through one that receives nothing |
| `Resubscription.Connection.NixDiff` | src/connection/client.rs:275-297 | one removing command for the names gone, none when none is |
| `Resubscription.Connection.ApplyFilters` | src/connection/client.rs:263-269 | the filters in order, stopping at a refusal |
| `Resubscription.Connection.ResubscribeFrom` | src/connection/client.rs:435-484 | sends the commands in order up to a refusal; finished or refused half way, the connection still receives what both subscriptions want, and when finished exactly what the new one wants |
| `Resubscription.Connection.Resubscribe` | src/connection/client.rs:399-415 | sends the commands in order up to a refusal, and when finished the connection receives exactly what is wanted |
| `Salvage.SalvageTruncatedAuthResponse` | src/connection/auth.rs:165-220 | nothing in mid-body; otherwise what the buffered bytes give; the buffer is emptied exactly on success |
| `Salvage.SalvageSound` | src/connection/auth.rs:165-220 | a reply cut inside a line gives exactly the headers and lossy record of the whole lines and, if its name is whole, of the cut one with as much of its value as there is; strict decoding refuses exactly when that part is not text |
| `Salvage.SalvageWhole` | src/connection/auth.rs:165-220 | a reply that lacks only its blank line gives every header |
| `Salvage.SalvageAnyCut` | src/connection/auth.rs:165-220 | the same at every byte of an ASCII command reply past the line that says so, with exactly the fields the cut leaves |
| `Salvage.NotSalvaged` | src/connection/auth.rs:165-184 | text with no complete line gives nothing, and bytes that are not text an error |
| `Salvage.OtherReplyRefused` | src/connection/auth.rs:199-214 | a reply of another type is refused and named |

## Left out

- TCP, tokio and timers: each wait, lock, timeout and write is one abstract step; reads are cancel-safe.
- Calls dropped in mid-flight: `send_command` is assumed to run to completion; `Abandonment.AbandonMisdeliversIff` says exactly what breaking it costs.
- Failed writes: a write that fails is assumed to have put no complete command on the wire.
- The stale count's width: `stale_replies` is a natural number, not a 32-bit one.
- Reply correlation across a re-exec: the teardown checks only the waiter, not the stale count, so only the message stream is claimed.
- The teardown's file descriptor, and its own timer: the descriptor is not a value of the model, and a reader still running stands for the timer.
- Disconnect reasons: the reader's exit overwrites what `disconnect` published, and nothing is claimed about which one remains.
- Buffer capacity: `compact` and the growth policy only reserve memory, which the model does not carry.
- JSON and XML event bodies, and `log/data` events: they rest on libraries that are not part of this model, or are one copy of the body.
- The table of known header names: a parameter, `known`, for which every law holds.
- Error texts: an error carries its kind and the value it names, not its message.
- Bytes: written as characters, so that wire text is readable; no law depends on a code being under 256 except percent-encoding, which states it.
- `ALL` and a bare `CUSTOM` in resubscription: what `nixevent` does under them is not in this repository.
- Event names with spaces: tokens are lists already split, and the source refuses spaces in names.
- The switch's reader of commands: the framing rule it is modelled by is the one the protocol documents; its own code is not part of this model.
- Wire enumerations, hang-up causes, typed accessors, uuid and conference builders, version parsing, job tracking: tables and single lookups that would add only easy members.
- Authentication's exchange of messages, reconnection, and outbound connections: they only sequence the operations modelled here.
- Serialising an event with a body and no header: such a payload has no blank line of its own, so `EventFormat.SerializedRoundTrip` and `EventFormat.EncodedRoundTrip` take at least one header.
