# Proofs about the CBUS library for the Raspberry Pi Pico

This project models the parts of the library that have to be right over whole runs: the long message
protocol, the event store with its flash cache, the node that learns events and changes between SLiM and
FLiM, the GridConnect link, the frame queue and the debounced switch. It proves what each of them keeps,
step by step and over every run.

Each part comes in two layers. A layer of functions on values (`LongMessageReceiver`, `ExReceiver`,
`ExSender`, `EventStore`, `NodeMachine`, `GridConnectStream`, `OverwriteQueue`, `Debounce`) says what every
operation does to the state; the theorems are about runs of these functions. A layer of classes
(`LongMessage`, `LongMessageEx`, `ModuleConfig`, `CBUSbase`, `GridConnectServer`, `CircularBuffer`, `Switch`)
has the fields and the loops of the original, and every method is proved to do exactly what its function
says. Time and pin levels are inputs; frames handed to the CAN driver and calls of the user's handler are
logs that only grow.

## The main results

- **Long messages, basic handler.** A message is delivered over a perfect channel, as one complete call and
  nothing else, exactly when it has 1 to min(buffer, 1275) bytes (`DeliveredExactlyWhen`, and `Transfer` for
  the two objects talking to each other). The receiver may call `process` at any time at which its reception
  is not overdue, which changes nothing (`TicksInTime`). A longer message ends in a sequence error at
  fragment 256 after 1275 bytes (`FragmentLimit`); whether the rest is then ignored has an exact condition
  too (`AfterTheLimit`), and some lengths never meet it (`ShortLastFragmentWakes`). Under any loss,
  repetition and reordering of a message's own frames, with any traffic on other streams and any timeouts in
  between, a completed call always carries exactly its bytes (`HostileChannel`). What goes wrong is
  reported: a pause of the timeout or longer, or a gap, gives the bytes that came, once, and a following
  message is delivered (`PauseReported`, `GapReported`, `PauseThenDelivered`); no frame is ever reported
  twice (`AtMostOneReport`).
- **Long messages, extended handler.** Any legal interleaving of any number of messages, with the receiver's
  calls of `process` between the frames as long as none finds a message overdue, is taken apart again, each
  message reported once and with its own bytes (`Demultiplexed`, `ReportedOnce`). Damage to an odd number of
  bits, or within sixteen consecutive ones, of any one of the interleaved messages is always reported and
  never accepted, and the others are not affected (`DamageReported`, from `OddFlipsDetected` and
  `BurstDetected`: the check word of two messages that differ so is never the same). It is the check word of
  RFC 1662, appendix C.2 (`GoodFcs`). Pauses and gaps are reported once each and leave the other messages
  alone (`PausesReported`, `GapReported`). No call ever carries more than 1275 bytes (`NeverMore`), a
  message alone arrives exactly when it is no longer, fits and passes its check (`ArrivesExactlyWhen`), and
  one of 65536 bytes or more is cut without the check noticing (`CutPasses`). A context sends exactly when
  its delay has passed (`PacedExactlyWhen`). For messages without a zero byte, what a sender has put on the
  bus and still has to send is always what it accepted (`Conserved`), everyone is served once a round
  (`EveryoneServed`) and everything drains within contexts times fragments calls (`Drained`). Put together:
  however a sender is used with such messages that fit, a receiver with as many contexts and no overdue
  message sees exactly its accepted messages (`Delivered`).
- **Event store.** The hashed search with its collision flag and three paths finds exactly what comparing
  every slot from the first on finds (`FindExistingEvent`). Over every run of teach, forget and clear the
  used slots are an injective map that follows the same map operations, variables included (`TableRefined`),
  and the index kept step by step equals a rebuilt one. A flush leaves flash equal to the cache under NOR
  semantics after any writes (`WriteBack`), and a restart finds everything as it was (`RestartAfterRun`).
- **Node.** The stored FLiM flag always agrees with the settled mode, and turns true only on a node number
  in a setup that a hold of more than four seconds led to (`FlagAgreesAfter`, `FlimOnlyAfterHold`); over the
  samples of the button's pin, it had been down for the debounce time more than four seconds before, and
  never up for that time since (`FlimOnlyAfterLongPress`). Such a press really leads there, and what every
  press does is known (`PressDoes`, `LongPressThenNumber`). Number, CAN id and node variables are always
  those of the last command that set them, also after a restart (`NumberAfterRun`, `CanIdAfterRun`,
  `NvAfterRun`). Learn mode is on exactly when a command opened it and none has closed it since
  (`LearningExactlyWhen`); events change only then (`EventsChangeOnlyWhileLearning`), and the table after
  any run of frames is what the accepted commands make of it (`TableAfterFrames`), so the user's event
  handler, plain or extended, is called exactly for the events in that table, read byte by byte from the
  frames (`EventHandledExactlyWhen`, `TaughtEventCalls`).
- **GridConnect.** Encoding and decoding undo each other both ways (`RoundTrip`, `DecodeEncodeDecode`), and
  the queued frames do not depend on how the byte stream was cut (`CutsDoNotMatter`, `EncodedFramesArrive`),
  exactly when all its texts fit the buffer (`CutsAgreeExactlyWhen`). What a text means is also said without
  the codec (`DecodeExactlyWhen`).
- **Queue and switch.** The ring is a queue that overwrites its oldest item, with the counters adding up
  (`RunSane`, `HighWater`); the switch flips exactly when a level has lasted for the debounce time
  (`FlipsExactlyWhen`, `DurationsBetweenFlips`).

## Where the code and its comments disagree

The model follows the code. `CBUSLongMessage.cpp:271` says that a wrapping sequence number is fine, but the
counters are 32 bits wide (`CBUS.h:307-308`) and the byte on the wire is not, so fragment 256 does not
match. `CBUSLongMessage.cpp:661` fears a buffer overflow; it cannot happen as long as the buffer is not
empty (`ExReceiver.Run`). A message length is an argument of 32 bits, but the header has sixteen for it
(`CBUSLongMessage.cpp:421-478`); what arrives is proved (`CutPasses`, `EmptyAnnouncement`). The last
hand-over at `CBUSLongMessage.cpp:278-282` is for a final fragment that is never there (`AtMostOneReport`).
The range test at `CBUS.cpp:1160` compares a truth value with the number of node variables and refuses
nothing but index zero of a node that has none; and `CBUS.cpp:1266-1311` does not bound the number of an
event variable. For both the exact condition under which other bytes are changed is proved
(`NvStraysExactlyWhen`, `TeachStraysExactlyWhen`), with a frame that makes a node lose its identity at the
next start (`NvZeroForgetsIdentity`) and one that changes another event (`TeachBreaksNextEvent`). The
theorems about runs are about numbers in range.

## Model

| member | source | states |
|---|---|---|
| Crc16.Compute | CBUSLongMessage.cpp:748-777 | the two loops over the register compute the check word of the message |
| Crc16.RegisterFeeds | CBUSLongMessage.cpp:757-770 | the register after the message is the one after its bits, fed one by one, each byte from its lowest bit on |
| Crc16.FeedInjective | CBUSLongMessage.cpp:760-770 | feeding the same bits keeps different registers apart |
| Crc16.SixteenBitsDistinguished | CBUSLongMessage.cpp:760-770 | from one register, different runs of at most sixteen bits never lead to the same register |
| Crc16.FinishInjective | CBUSLongMessage.cpp:772-776 | complementing and swapping the bytes loses nothing |
| Crc16.BurstDetected | CBUSLongMessage.cpp:748-777 | messages that differ only within sixteen consecutive bits, across two bytes or three, have the same check word only if they are equal |
| Crc16.OddFlipsDetected | CBUSLongMessage.cpp:748-777 | an odd number of flipped bits, wherever they are, changes the check word |
| Crc16.TwoBytesDetectable | CBUSLongMessage.cpp:748-777 | any damage to two adjacent bytes is of a kind that is always detected |
| Crc16.GoodFcs | CBUSLongMessage.cpp:748-777 | a message followed by its check word, upper byte first, always leaves 0xF0B8 in the register, the value that appendix C.2 of RFC 1662 gives for a good frame |
| Crc16.EmptyCheck | CBUSLongMessage.cpp:752-754 | the check word of no bytes is zero |
| Can.SinceAdds | CBUSLongMessage.cpp:132 | a time difference is the one that leads from the earlier to the later reading of the 32 bit clock, also over its wrap |
| LongMessageWire.HeaderReads | CBUSLongMessage.cpp:106-112 | a header carries stream, sender and check word, and the length modulo 65536 |
| LongMessageWire.FragmentReads | CBUSLongMessage.cpp:152-162 | a fragment carries its number modulo 256 and its five bytes of the message at their places |
| LongMessageWire.HeaderBytes | CBUSLongMessage.cpp:106-112 | a header byte by byte: opcode 0xE9, stream, number zero, length modulo 65536 and check word with the upper byte first, no flags; priority above the seven bits of the CAN id |
| LongMessageWire.FragmentBytes | CBUSLongMessage.cpp:152-162 | a fragment byte by byte: stream, number modulo 256, and the five bytes of the message at their places, or zeros |
| LongMessageReceiver.HostileChannel | CBUSLongMessage.cpp:175-290 | whatever is lost, repeated or reordered, a complete call on the stream has exactly the message's bytes |
| LongMessageReceiver.TicksInTime | CBUSLongMessage.cpp:132-140 | calls of `process` that find no reception overdue change neither the receiver nor the calls of a run |
| LongMessageReceiver.FragmentInOrder | CBUSLongMessage.cpp:226-258 | the fragment that is due is added behind the bytes gathered, and the last one completes the message |
| LongMessageReceiver.ForeignFrameIsSound | CBUSLongMessage.cpp:222-272 | a frame of another stream is counted and can make the reception fail, but never complete wrongly |
| LongMessageRoundTrip.DeliveredExactlyWhen | CBUSLongMessage.cpp:125-290 | on a perfect channel, with calls of `process` in time and any number of them behind it, the one call is a complete one with the message exactly for 1 to min(buffer, 1275) bytes |
| LongMessageRoundTrip.TrailingTicks | CBUSLongMessage.cpp:132-140 | calls of `process` alone report timeouts only, and nothing when no message is being received |
| LongMessageRoundTrip.FragmentLimit | CBUSLongMessage.cpp:125-290 | a longer message ends in one sequence error with fragment 256, with its first 1275 bytes, and in nothing before; calls of `process` in time do not matter |
| LongMessageRoundTrip.AfterTheLimit | CBUSLongMessage.cpp:125-211 | whatever calls of `process` in time there are, the rest is ignored exactly when no later fragment reads as a header |
| LongMessageRoundTrip.PhantomExactlyWhen | CBUSLongMessage.cpp:152-190 | a fragment reads as a header exactly when its number is a multiple of 256 and its last byte is zero or padding |
| LongMessageRoundTrip.ShortLastFragmentWakes | CBUSLongMessage.cpp:152-211 | with a short last fragment of such a number, as for 2556 to 2559 bytes, the receiver does not ignore the rest of any message |
| LongMessageRoundTrip.EmptyAnnouncement | CBUSLongMessage.cpp:109-290 | a multiple of 65536 bytes is taken for an empty message: each of 255 fragments is reported as complete with its first byte, or as incomplete without a buffer, and the next as a sequence error |
| LongMessageFailures.TickReportsExactlyWhen | CBUSLongMessage.cpp:132-140 | in any run a call of `process` reports something exactly when a message is being received whose last frame came the timeout ago or longer |
| LongMessageFailures.PauseReported | CBUSLongMessage.cpp:132-140 | after the header and `j` fragments a pause of the timeout or longer gives the bytes that came, as a timeout and nothing else, and a listening receiver; a shorter one gives nothing |
| LongMessageFailures.PauseThenDelivered | CBUSLongMessage.cpp:125-290 | a message that follows such a timeout is delivered whole |
| LongMessageFailures.GapReported | CBUSLongMessage.cpp:251-257 | another fragment than the one that is due gives the bytes that came, as a sequence error and nothing else, and a listening receiver |
| LongMessageFailures.ForeignFrameBreaks | CBUSLongMessage.cpp:259-272 | one frame of another stream or sender in between makes the fragment that was due a sequence error |
| LongMessageFailures.FullBufferReported | CBUSLongMessage.cpp:228-235 | the fragment that fills the buffer too early hands it over as incomplete, and the message goes on |
| LongMessageFailures.NothingStarted | CBUSLongMessage.cpp:183-211 | without a header of a subscribed stream nothing is ever reported or started |
| LongMessageFailures.AtMostOneReport | CBUSLongMessage.cpp:226-289 | after any run the next frame or call of `process` is reported at most once: the hand-over at the end of a fragment never finds anything |
| LongMessages.LongMessage.SendLongMessage | CBUSLongMessage.cpp:88-118 | the header goes out at once and the fragments are owed, unless a message is still being sent |
| LongMessages.LongMessage.Process | CBUSLongMessage.cpp:125-168 | the timeout first; then the first owed frame goes out if the delay has passed, and no other |
| LongMessages.LongMessage.SendNextFragment | CBUSLongMessage.cpp:145-165 | what is handed over is the next frame of the message, assembled byte by byte |
| LongMessages.LongMessage.CheckReceiveTimeout | CBUSLongMessage.cpp:132-140 | an overdue reception is reported with the bytes it has and ended |
| LongMessages.LongMessage.ProcessReceivedMessageFragment | CBUSLongMessage.cpp:175-290 | state and calls after a frame are those of the reference receiver |
| LongMessages.LongMessage.AcceptFragment | CBUSLongMessage.cpp:183-269 | a header starts, the fragment that is due is taken, another number ends with an error, the rest is ignored |
| LongMessages.LongMessage.TakePayload | CBUSLongMessage.cpp:226-258 | the byte loop with its two early exits does what the reference says about the whole payload |
| LongMessages.LongMessage.OfferByte | CBUSLongMessage.cpp:229-256 | a full buffer is reported before the byte is taken, a whole message after it |
| LongMessages.LongMessage.FinishFragment | CBUSLongMessage.cpp:271-289 | the counter moves on after every frame, and a whole message ends |
| LongMessages.LongMessage.Subscribe | CBUSLongMessage.cpp:73-80 | the new streams and buffer are in force and everything else is as it was, also in the middle of a reception |
| LongMessages.Transfer | CBUSLongMessage.cpp:88-290 | two handlers joined by a perfect channel, both calling `process`: the loop ends, every frame is sent, and the message arrives exactly for 1 to min(buffer, 1275) bytes |
| ExReceiver.FindFree | CBUSLongMessage.cpp:598-604 | the first free context, or none |
| ExReceiver.FindMatch | CBUSLongMessage.cpp:632-639 | the first context in use for this stream and sender, or none |
| ExReceiver.Consume | CBUSLongMessage.cpp:657-695 | a context stays within its buffer, with as many bytes written as received |
| ExReceiver.QuietTick | CBUSLongMessage.cpp:495-507 | the timeouts change nothing and report nothing exactly when no context in use is overdue |
| ExReceiver.Run | CBUSLongMessage.cpp:580-701 | after any events at all every context in use has its write index equal to the bytes received and below the buffer's length |
| ExDemux.FragmentExtends | CBUSLongMessage.cpp:657-698 | the next fragment extends what the context holds of its message, or decides it with its one report |
| ExDemux.SomeFree | CBUSLongMessage.cpp:598-604 | with fewer messages alive than contexts there is a free context |
| ExDemux.OtherIgnored | CBUSLongMessage.cpp:584-653 | other traffic changes no context and makes no call |
| ExDemux.Demultiplexed | CBUSLongMessage.cpp:485-701 | for any legal interleaving, with calls of `process` in time, the calls are the messages' outcomes, each when its deciding frame arrives |
| ExDemux.ReportedOnce | CBUSLongMessage.cpp:670-694 | every message sent far enough is reported exactly once, and no other |
| ExDemux.WovenLegal | CBUSLongMessage.cpp:485-507 | a legal interleaving stays one, of the same messages, with calls of `process` in time put between its frames |
| ExDemux.DamageReported | CBUSLongMessage.cpp:670-686 | of any number of interleaved messages, one with an odd number of damaged bits, or with damage within sixteen consecutive ones, is reported once, as a check error or as truncated; all other calls, and every complete one, are the outcomes of other messages |
| ExDemux.LoneDamageReported | CBUSLongMessage.cpp:670-686 | with that message alone on the bus, that report is the only call |
| ExFailures.PausesReported | CBUSLongMessage.cpp:495-507 | after any legal interleaving a call of `process` reports a timeout for each overdue message, once and with the bytes that came, and nothing else; exactly their contexts are freed, and the others are as they were |
| ExFailures.GapReported | CBUSLongMessage.cpp:650-656 | after any legal interleaving a fragment that is not the one due ends its message with a sequence error and the bytes that came, and touches no other context |
| ExLimits.NeverMore | CBUSLongMessage.cpp:580-701 | over any events at all no call carries more than the buffer holds or more than 1275 bytes, and no complete one is empty |
| ExLimits.ArrivesExactlyWhen | CBUSLongMessage.cpp:485-701 | a message that is alone and sent in full arrives as a complete one exactly when it has 1 to min(buffer, 1275) bytes and asks for no check, or for one that is made and succeeds |
| ExLimits.CutPasses | CBUSLongMessage.cpp:455-478 | a message of 65536 bytes or more is handed over as complete with only its length modulo 65536, and its check succeeds |
| ExSender.SameFramesAsBasic | CBUSLongMessage.cpp:464-478 | the extended sender emits the frames of the basic one exactly when the message is not empty |
| ExSender.SendConserves | CBUSLongMessage.cpp:421-478 | accepting a message without a zero byte adds its frames to what is pending on its stream and changes no other stream |
| ExSender.ProcessConserves | CBUSLongMessage.cpp:505-543 | a turn moves the first pending frame of one stream onto the bus and changes no other stream |
| ExSender.Conserved | CBUSLongMessage.cpp:421-543 | for messages without a zero byte, on every stream, sent frames followed by pending ones are the accepted messages' frames in order |
| ExSender.EveryoneServed | CBUSLongMessage.cpp:505-543 | one call for each context serves every one that has something to send, once |
| ExSender.PacedExactlyWhen | CBUSLongMessage.cpp:509-537 | over any run a call of `process` sends a fragment exactly when the context whose turn it is has a message and its last fragment but a final one was sent the delay ago or longer |
| ExSender.NotTooSoon | CBUSLongMessage.cpp:509-537 | a context sends nothing until its delay has passed, however often the contexts have their turns |
| ExSender.FragmentStartsDelay | CBUSLongMessage.cpp:534-537 | a fragment with more behind it starts the delay |
| ExSender.Drained | CBUSLongMessage.cpp:505-543 | everything is sent after contexts times fragments of the longest message calls |
| ExEndToEnd.ProcessLinked | CBUSLongMessage.cpp:505-537 | what a context puts on the bus is the next frame of the message it was given |
| ExEndToEnd.SendMayCarry | CBUSLongMessage.cpp:428-449 | a message that is accepted may start: a context is free and no unfinished message has its stream |
| ExEndToEnd.RunJoint | CBUSLongMessage.cpp:421-543 | the bus of any run of a sender, with messages without a zero byte, is a legal interleaving of its accepted messages |
| ExEndToEnd.Delivered | CBUSLongMessage.cpp:421-701 | with messages that fit and have no zero byte, and calls of `process` in time, the handler at the other end gets only complete accepted messages, none twice, and all of them once the sender is done |
| LongMessagesEx.LongMessageEx.constructor | CBUSLongMessage.cpp:367-413 | separate contexts with separate buffers, all free, of any numbers and lengths |
| LongMessagesEx.ReceiveContext.Open | CBUSLongMessage.cpp:607-616 | a free context is set up for the header's message, with an empty buffer |
| LongMessagesEx.ReceiveContext.TakePayload | CBUSLongMessage.cpp:657-695 | the byte loop with its two early exits does what the reference says about the whole payload, and never writes outside the buffer |
| LongMessagesEx.LongMessageEx.HandleHeader | CBUSLongMessage.cpp:586-629 | a subscribed header opens the first free context, anything else changes nothing |
| LongMessagesEx.LongMessageEx.HandleFragment | CBUSLongMessage.cpp:630-699 | exactly one context moves on, or ends with a sequence error, or none changes |
| LongMessagesEx.LongMessageEx.ProcessReceivedMessageFragment | CBUSLongMessage.cpp:580-701 | contexts and calls after a frame are those of the reference receiver |
| LongMessagesEx.LongMessageEx.CheckReceiveTimeouts | CBUSLongMessage.cpp:495-507 | every overdue context is reported and freed, in order, and no other |
| LongMessagesEx.LongMessageEx.SendLongMessage | CBUSLongMessage.cpp:421-479 | header and context are those of the reference sender, also with a length and a checked part cut to sixteen bits, and a stream in use is refused |
| LongMessagesEx.SendContext.NextFragment | CBUSLongMessage.cpp:514-537 | the next fragment of the context's message, which is freed behind the last one |
| LongMessagesEx.LongMessageEx.Process | CBUSLongMessage.cpp:485-543 | the timeouts, then the turn of one context, then the next one's turn; the result is the driver's answer if a frame was handed over, and true if not |
| LongMessagesEx.LongMessageEx.IsSending | CBUSLongMessage.cpp:561-574 | the number of contexts in use |
| Nor.ProgramExactlyWhen | CBUSConfig.cpp:1040-1060 | a cell takes the programmed value exactly when no bit has to be set |
| FlashCache.PutKeepsCoherent | CBUSConfig.cpp:1012-1037 | a cached write keeps what the two flags promise |
| FlashCache.FlushSettles | CBUSConfig.cpp:1040-1061 | a flush leaves flash equal to the cache and both flags clear |
| FlashCache.EraseNeededExactlyWhen | CBUSConfig.cpp:1046-1056 | programming without erasing works exactly when every byte only clears bits |
| FlashCache.WriteBack | CBUSConfig.cpp:1012-1061 | after any writes and flushes one more flush leaves flash byte for byte equal to the cache |
| FlashCache.FlagsExactlyWhen | CBUSConfig.cpp:1012-1061 | after any writes and flushes the next flush programs exactly when a byte has changed since the last one, and erases exactly when a bit was set |
| EventTable.KeysPut | CBUSConfig.cpp:768-788 | writing an event changes that slot's event and no other, nor the identity |
| EventTable.EvPut | CBUSConfig.cpp:455-458 | writing a variable changes that variable and no event or other variable |
| EventTable.Hash | CBUSConfig.cpp:404-419 | no event has hash zero, the mark of a free slot |
| EventTable.HashTellsApart | CBUSConfig.cpp:404-419 | every byte of an event counts: a change in the low seven bits of one of the four changes the hash |
| EventTable.SlotBytes | CBUSConfig.cpp:427-458 | a slot byte by byte: node and event number with the upper byte first, then the variables; it is free when the four bytes are 0xFF |
| EventTable.Scan | CBUSConfig.cpp:301-376 | the first used slot that holds the event, by comparing the stored events, or the number of slots |
| EventTable.CandidateIsOnly | CBUSConfig.cpp:315-356 | without a collision, or with one match, the candidate is the only slot with that hash |
| EventTable.OnlyCandidate | CBUSConfig.cpp:358-373 | comparing the only candidate with the event settles the search |
| EventTable.NoHashNoMatch | CBUSConfig.cpp:313-346 | an event whose hash was not seen in front of a slot is not stored in front of it |
| EventStore.LearnSound | CBUS.cpp:1266-1311 | teaching keeps cache, flash, index and flag in agreement, and writes only the one slot |
| EventStore.UnlearnSound | CBUS.cpp:1345-1365 | forgetting keeps them in agreement and frees the first slot of the event |
| EventStore.ClearAllSound | CBUS.cpp:1241-1258 | clearing keeps them in agreement and frees every slot |
| EventStore.SetFlimSound | CBUSConfig.cpp:257-261 | storing the mode keeps memory, flash and index in agreement |
| EventStore.SetCanIdSound | CBUSConfig.cpp:268-280 | storing a CAN id does, and one outside 1 to 99 changes nothing |
| EventStore.SetNodeNumSound | CBUSConfig.cpp:286-292 | storing the node number as two bytes does |
| EventStore.SetNvSound | CBUSConfig.cpp:595-598 | storing a node variable does |
| EventStore.BeginSound | CBUSConfig.cpp:169-196 | whatever the flash holds, start-up leaves everything in agreement, and changes an initialised sector in nothing |
| EventStore.RestartRestores | CBUSConfig.cpp:169-196 | starting again from the flash gives the same events, variables, index and identity |
| EventStore.IdentityBytes | CBUSConfig.cpp:960-980 | the identity byte by byte in the flash: mode, CAN id, node number with the upper byte first, and the mark |
| EventStore.VirginStart | CBUSConfig.cpp:960-980 | a sector without the mark comes up in SLiM with CAN id 1 and no number, these are stored, and no other byte changes |
| EventRuns.ScanFinds | CBUSConfig.cpp:301-376 | the search finds an event in the slot that the reference map gives it, or nothing |
| EventRuns.FreeAgrees | CBUSConfig.cpp:383-396 | the first free slot is the lowest one that the reference map does not use |
| EventRuns.TeachHeld | CBUS.cpp:1266-1311 | teaching does to the sector what it does to the reference table, also when the table is full, for a new event without its first variable, and for the unused pattern |
| EventRuns.ForgetHeld | CBUS.cpp:1345-1365 | forgetting removes exactly that event and leaves every variable where it was |
| EventRuns.ClearHeld | CBUS.cpp:1241-1258 | clearing removes every event and leaves every variable where it was |
| EventRuns.TableRefined | CBUS.cpp:1241-1365 | after any run of commands the sector holds exactly the table of the same run of map operations |
| EventRuns.SearchAfterRun | CBUSConfig.cpp:301-376 | from an empty table on, the search gives each stored event its own slot, and the index is what a rebuild gives |
| EventRuns.StoredPlusFree | CBUSConfig.cpp:547-560 | stored and free slots add up to all of them, and the stored ones are as many as the events in the table |
| ModuleConfigs.ModuleConfig.SetChipVal | CBUSConfig.cpp:1012-1037 | the cache and both flags after a byte was written |
| ModuleConfigs.ModuleConfig.FlushToFlash | CBUSConfig.cpp:1040-1061 | flash, cache and flags after the write-back |
| ModuleConfigs.ModuleConfig.WriteEeprom | CBUSConfig.cpp:682-711 | a cached write, flushed if asked for |
| ModuleConfigs.ModuleConfig.ReadEvent | CBUSConfig.cpp:427-434 | the event that the cache holds in a slot |
| ModuleConfigs.ModuleConfig.WriteEvent | CBUSConfig.cpp:768-784 | the cache after the four bytes of an event were written, flushed if asked for |
| ModuleConfigs.ModuleConfig.ClearEventsEeprom | CBUSConfig.cpp:799-809 | the cache with every slot freed, flushed once at the end |
| ModuleConfigs.ModuleConfig.MakeHash | CBUSConfig.cpp:404-419 | the hash with its truncation to eight bits at every step |
| ModuleConfigs.ModuleConfig.CheckHashCollisions | CBUSConfig.cpp:988-1003 | true exactly when two used slots have the same hash |
| ModuleConfigs.ModuleConfig.MakeEvHashTable | CBUSConfig.cpp:464-501 | a new table with the hash of every used slot and zero for the free ones, and the collision flag |
| ModuleConfigs.ModuleConfig.UpdateEvHashEntry | CBUSConfig.cpp:508-526 | the entry of that slot is brought up to date, the flag is recomputed, nothing else changes |
| ModuleConfigs.ModuleConfig.ClearEvHashTable | CBUSConfig.cpp:531-540 | all entries are free and there is no collision |
| ModuleConfigs.ModuleConfig.NumEvents | CBUSConfig.cpp:547-560 | the number of entries that are not zero |
| ModuleConfigs.ModuleConfig.FindEventSpace | CBUSConfig.cpp:383-396 | with an up to date index, the first slot whose stored event is the unused pattern |
| ModuleConfigs.ModuleConfig.SearchCandidates | CBUSConfig.cpp:337-352 | the very slow way finds the first slot that holds the event |
| ModuleConfigs.ModuleConfig.FindExistingEvent | CBUSConfig.cpp:301-376 | all three ways through the search give what comparing every used slot gives |
| ModuleConfigs.ModuleConfig.SetNodeNum | CBUSConfig.cpp:286-292 | the node number in memory and in the sector, flushed once |
| ModuleConfigs.ModuleConfig.LoadNvs | CBUSConfig.cpp:960-980 | the stored identity, or the defaults stored and marked in a sector that was never initialised |
| ModuleConfigs.ModuleConfig.Begin | CBUSConfig.cpp:169-196 | the state after start-up depends on nothing but the flash |
| NodeRuns.StepSound | CBUS.cpp:593-700 | every button look, frame in range and enumeration keeps cache, flash, index and identity in agreement |
| NodeRuns.RestartAfterRun | CBUSConfig.cpp:169-196 | after any run a restart finds the same store and comes up in the mode of the stored flag |
| NodeRuns.FlagAgreesAfter | CBUS.cpp:139-256 | after any run the flag is that of the settled mode, or of the one before the press, and without it the node number is zero |
| NodeRuns.FlagStep | CBUS.cpp:1223-1236 | no event but a node number in setup mode turns the flag on |
| NodeRuns.SetupWasHeld | CBUS.cpp:169-233 | setup reached from SLiM was led to by a look that found the button held for more than four seconds, and a release |
| NodeRuns.FlimOnlyAfterHold | CBUS.cpp:152-256 | the flag turns on only at a node number in setup that such a hold led to, with no settled mode in between |
| NodeLife.PressOutcome | CBUS.cpp:152-216 | what one whole press does to a settled node: held for more than four seconds it leads from SLiM into setup and from FLiM to SLiM without a number, a shorter one from FLiM into setup, and nothing else happens |
| NodeLife.SetupLeft | CBUS.cpp:217-249 | a press longer than the debounce time leaves setup for the mode before, and no number is taken while the button is down |
| NodeLife.NumberTaken | CBUS.cpp:1055-1058 | a node in setup takes the next node number: both bytes, the flag, and FLiM mode |
| NodeLife.HoldThenNumber | CBUS.cpp:152-256 | from SLiM a hold, its release and the next node number make a FLiM node with that number |
| NodeLife.FirstLookReverts | CBUS.cpp:251-254 | a node that was not told its mode keeps its number until the first look at the button, and is then a SLiM node without one |
| NodeLife.NumberAfterRun | CBUS.cpp:1223-1236 | over any run a FLiM node has the number last assigned in setup, or the one it started with, a SLiM node has none, and a restart finds the same |
| NodeLife.CanIdAfterRun | CBUSConfig.cpp:268-280 | over any run, and after a restart, the CAN id is the one last stored |
| NodeLife.NvAfterRun | CBUS.cpp:1157-1180 | over any run, and after a restart, a node variable has the value of the last command that set it |
| NodeLife.ConsumedExactlyWhen | CBUS.cpp:864-1067 | which command frames the library consumes, by their opcodes, node number, learn mode and setup |
| ButtonRuns.LooksAreThePin | CBUS.cpp:152-233 | what the node takes for held and for let go is exactly what the pin's samples say |
| ButtonRuns.FlimOnlyAfterLongPress | CBUS.cpp:152-256 | over raw samples of the pin: the flag turns on only at a node number in setup that a press in SLiM led to, for more than four seconds never up for the debounce time, and then let go |
| ButtonRuns.LastIsThePress | CBUSSwitch.cpp:131-140 | the duration that the node reads when the button is let go is that of the press of the pin |
| ButtonRuns.PressDoes | CBUS.cpp:152-216 | over raw samples of the pin: what one whole press, long or short, does to a node in SLiM or FLiM |
| ButtonRuns.PressLeavesSetup | CBUS.cpp:217-249 | over raw samples: a press of more than a tenth of a second leaves setup for the mode before |
| ButtonRuns.LongPressThenNumber | CBUS.cpp:152-256 | over raw samples: a press of more than four seconds in SLiM, let go, and the next node number make a FLiM node with that number |
| NodeRuns.LearningExactlyWhen | CBUS.cpp:875-943 | learn mode is on exactly when a command for this node in FLiM opened it and no release, and no learn command for another node, came since |
| NodeRuns.TableAfterFrames | CBUS.cpp:864-1067 | after any run the sector holds the table that the commands accepted in learn mode make |
| EventFrames.EventOpcodes | CBUS.cpp:787-800 | sixteen opcodes are events, and no other byte is |
| EventFrames.KeyFromBytes | CBUS.cpp:811-824 | the event of a frame by its bytes: bytes 3 and 4 with bytes 1 and 2 for the eight long opcodes, and with node number zero for the short ones |
| EventFrames.EventHandledExactlyWhen | CBUS.cpp:809-850 | after any run an event frame reaches the handler, plain or extended, exactly when the event in its bytes is in the table of the accepted commands, with its slot, its state and its first variable there |
| EventFrames.TaughtEventCalls | CBUS.cpp:809-850 | an event that was taught into a free slot and not removed since calls the handler at every long event frame with the same four bytes; a short one with the same event number does exactly when that event with node number zero is stored |
| NodeRuns.EventsChangeOnlyWhileLearning | CBUS.cpp:875-926 | an event or variable changes only at one of the four learning commands, while learn mode is open |
| NodeRuns.NvStraysExactlyWhen | CBUS.cpp:1157-1180 | the exact condition under which setting a node variable changes another byte |
| NodeRuns.NvZeroForgetsIdentity | CBUS.cpp:1157-1180 | one variable command for index zero makes a FLiM node come up in SLiM without its number at the next start |
| NodeRuns.TeachStraysExactlyWhen | CBUS.cpp:1266-1298 | the exact condition under which teaching a variable changes a byte of another slot or beyond |
| NodeRuns.TeachBreaksNextEvent | CBUS.cpp:1266-1298 | teaching one variable too many of a stored event changes the event in the next slot |
| Nodes.CBUSbase.SetSLiM | CBUS.cpp:139-146 | node number zero, flag off, CAN id one, all stored, and SLiM mode |
| Nodes.CBUSbase.FLiMSWCheck | CBUS.cpp:152-256 | the next mode for every mode and look at the button |
| Nodes.CBUSbase.DoSnn | CBUS.cpp:1223-1236 | the number and the flag stored, and FLiM mode |
| Nodes.CBUSbase.DoNnclr | CBUS.cpp:1241-1258 | all events cleared, but only in learn mode |
| Nodes.CBUSbase.DoEvlrn | CBUS.cpp:1266-1311 | the event taught into its slot or the first free one, nothing for variable zero or a full table |
| Nodes.CBUSbase.DoEvuln | CBUS.cpp:1345-1365 | the event's slot freed and its index entry with it, nothing if it is not stored |
| Nodes.CBUSbase.DoNvset | CBUS.cpp:1157-1180 | the variable stored unless the range test refuses it |
| Nodes.CBUSbase.DoNnevn | CBUS.cpp:1397-1412 | the number of free slots |
| Nodes.CBUSbase.ParseLearnCmd | CBUS.cpp:875-923 | the commands of learn mode, and exactly which frames they deal with |
| Nodes.CBUSbase.ParseOwnCmd | CBUS.cpp:926-1006 | what the commands for this node change, and that those that only reply are dealt with as well |
| Nodes.CBUSbase.ParseFLiMCmd | CBUS.cpp:864-1067 | learn mode first, then this node's commands, then a node number in setup; and whether the frame was consumed |
| Nodes.CBUSbase.FindEvent | CBUS.cpp:811-826 | the slot of the event that the frame is about, with its node number, or with zero for a short one |
| Nodes.CBUSbase.ParseCbusEvent | CBUS.cpp:809-850 | an event that is stored is given to the plain handler or else to the extended one with its state and first variable, and only then is consumed |
| Nodes.CBUSbase.ProcessFrame | CBUS.cpp:677-700 | one received frame does to the node what the state machine says, and an event frame to the user what the table says |
| GridConnectCodec.ExtendedIdRead | GridConnectPicoW/CBUSGridConnect.cpp:692-721 | the eight characters of an extended identifier read back as the same 29 bits |
| GridConnectCodec.StandardIdRead | GridConnectPicoW/CBUSGridConnect.cpp:731-742 | the four characters of a standard identifier read back as the same 11 bits |
| GridConnectCodec.HexBytesAreHex | GridConnectPicoW/CBUSGridConnect.cpp:748-756 | the data in hexadecimal reads back as the same bytes |
| GridConnectCodec.Encode | GridConnectPicoW/CBUSGridConnect.cpp:665-684 | a text exactly for valid frames, of two characters a byte and never more than 28 |
| GridConnectCodec.RoundTrip | GridConnectPicoW/CBUSGridConnect.cpp:665-900 | decoding the text of any valid frame gives the frame back |
| GridConnectCodec.DecodeEncodeDecode | GridConnectPicoW/CBUSGridConnect.cpp:665-900 | whatever text was accepted, the text of its frame means the same frame |
| GridConnectText.DecodeExactlyWhen | GridConnectPicoW/CBUSGridConnect.cpp:764-900 | a text is decoded to a frame exactly when it means that frame: marks, kind, identifier as a number in base sixteen, request, pairs of digits as bytes, zeros behind them |
| GridConnectText.EncodedNumber | GridConnectPicoW/CBUSGridConnect.cpp:692-742 | the number in an encoded text: eleven bits in the upper ones of sixteen, or eleven, three zeros and eighteen bits |
| GridConnectCodec.EncodedIsToken | GridConnectPicoW/CBUSGridConnect.cpp:686-759 | the text starts with the start mark, ends with the end mark and has no end mark before |
| GridConnectMessages.EncodeGC | GridConnectPicoW/CBUSGridConnect.cpp:665-762 | the buffer holds the frame's text, or is empty for a frame that is not valid |
| GridConnectMessages.DecodeGC | GridConnectPicoW/CBUSGridConnect.cpp:764-900 | accepted exactly when the text means a frame, and then that frame |
| GridConnectMessages.CheckHexChars | GridConnectPicoW/CBUSGridConnect.cpp:958-976 | true exactly when all the characters are digits or upper case A to F |
| GridConnectStream.StreamGoesOn | GridConnectPicoW/CBUSGridConnect.cpp:157-231 | what a longer stream holds is what the shorter one held, and what its tail and the rest make |
| GridConnectStream.CutsDoNotMatter | GridConnectPicoW/CBUSGridConnect.cpp:492-535 | any cut of a stream whose texts fit queues the frames of the whole stream in order |
| GridConnectStream.FramesArrive | GridConnectPicoW/CBUSGridConnect.cpp:157-231 | texts with noise between them, cut in any way, queue exactly the frames they decode to |
| GridConnectStream.EncodedFramesArrive | GridConnectPicoW/CBUSGridConnect.cpp:157-231 | frames encoded at one end and cut on the way are the frames queued at the other |
| GridConnectStream.OverlongCutMatters | GridConnectPicoW/CBUSGridConnect.cpp:176-193 | for a text that does not fit, a cut behind its start leaves that start in the buffer, and no cut leaves nothing |
| GridConnectCuts.Stuck | GridConnectPicoW/CBUSGridConnect.cpp:157-231 | a buffer filled with the start of a text too long for it makes every later text too long as well |
| GridConnectCuts.CutsAgreeExactlyWhen | GridConnectPicoW/CBUSGridConnect.cpp:157-231 | buffer and queue are the same for all cuts of a stream exactly when every text in it, finished or not, fits the buffer |
| GridConnectCuts.OverlongCutLosesFrame | GridConnectPicoW/CBUSGridConnect.cpp:157-231 | behind a text that does not fit any frame is queued, and lost if that text was cut behind its start |
| GridConnectServers.GridConnectServer.ExtractAndQueueGC | GridConnectPicoW/CBUSGridConnect.cpp:157-231 | buffer and queue after all texts from a place on were taken |
| GridConnectServers.GridConnectServer.ServerRecv | GridConnectPicoW/CBUSGridConnect.cpp:485-535 | buffer and queue after one segment, with the unfinished text of the one before in front |
| OverwriteQueue.RunSane | CBUSCircularBuffer.cpp:100-200 | after any run: the items are the last ones put, puts are accounted for, and gets come in the order of the puts |
| OverwriteQueue.HighWater | CBUSCircularBuffer.cpp:120-121 | the high water mark was reached and never passed |
| OverwriteQueue.NothingLost | CBUSCircularBuffer.cpp:100-155 | with nothing overwritten or cleared, the n-th get gives the n-th put |
| CircularBuffers.CircularBuffer.Size | CBUSCircularBuffer.cpp:226-245 | the size worked out from head, tail and the full flag, which is the number of items in the ring |
| CircularBuffers.CircularBuffer.PutItem | CBUSCircularBuffer.cpp:100-123 | the ring holds the queue with the item put, the oldest overwritten if it was full, and the counters follow |
| CircularBuffers.CircularBuffer.GetItem | CBUSCircularBuffer.cpp:131-155 | the oldest item is removed, or there is none |
| CircularBuffers.CircularBuffer.Peek | CBUSCircularBuffer.cpp:178-187 | the oldest item, left where it is |
| CircularBuffers.CircularBuffer.InsertTime | CBUSCircularBuffer.cpp:163-171 | the time at which the oldest item was put, or zero without a buffer |
| CircularBuffers.CircularBuffer.ClearItems | CBUSCircularBuffer.cpp:192-198 | no items, and those that were there count as discarded |
| CircularBuffers.CountersAddUp | CBUSCircularBuffer.cpp:272-295 | before a counter wraps, puts are gets, overflows, items and discarded ones together |
| Debounce.FlipsExactlyWhen | CBUSSwitch.cpp:115-155 | the state flips exactly when the reading differs and every reading since one the debounce time ago agrees |
| Debounce.DurationsBetweenFlips | CBUSSwitch.cpp:131-140 | after two flips the last duration is the time between them, and the present one counts from the last |
| Debounce.PressedExactlyWhen | CBUSSwitch.cpp:115-155 | pressed is reported exactly when the pin went down for the debounce time and has not been up for it since |
| Debounce.HeldExactlyWhen | CBUSSwitch.cpp:115-215 | pressed for longer than a time is reported exactly when that was longer ago |
| Debounce.PressDuration | CBUSSwitch.cpp:131-140 | when it is up, the last duration is that of the last press of the pin |
| Debounce.LastPress | CBUSSwitch.cpp:115-155 | a button that is up and was down before has a last press |
| Debounce.ChangedExactlyWhen | CBUSSwitch.cpp:128-152 | a change is signalled from the sample that turned the state up to the next one at which a level has lasted for the debounce time |
| Debounce.ReleaseRemembered | CBUSSwitch.cpp:140-145 | the release time is that of the last flip to the released level |
| Switches.Switch.SetPin | CBUSSwitch.cpp:76-110 | a button that is set up is released and has no history |
| Switches.Switch.Run | CBUSSwitch.cpp:115-155 | every field after a sample |
| Switches.Switch.RunAll | CBUSSwitch.cpp:115-155 | the fields after a whole history are those of the reference run |

## Left out

- Driver refusals: a frame that the CAN driver does not take is lost, as in the original, which does not repeat it; the logs hold what was handed to the driver.
- Unchanged memory: the basic sender reads the user's message while it sends; the model takes it to stay as it was.
- Extended messages: those over 1275 bytes with others on the bus (for one alone see `ArrivesExactlyWhen` and `CutPasses`), repeated headers for one stream and sender, and in `Delivered` an empty message, which the extended sender follows with one empty fragment.
- LongMessagesEx.LongMessageEx.SendLongMessage: when the stream is not in use it needs a free context, because the test at CBUSLongMessage.cpp:445 lets the index run one past the end, and a message without a zero byte, because the copy at CBUSLongMessage.cpp:453 ends there and later fragments are read from behind it.
- ExSender.Conserved: for the same runs, in which no call of the sender leaves its contexts or its copies; so are `SendConserves`, `RunJoint` and `Delivered`.
- ExReceiver.Run: needs a buffer that is not empty, because the code tests for room only after it has stored a byte.
- LongMessageReceiver.HostileChannel: at most 2^32 - 257 foreign frames, so that the 32 bit counter does not wrap.
- Send turns: the counter of whose turn it is belongs to one extended handler here; the original shares one among all of them.
- Dispatch: `CBUSbase::process` does not pass long message frames on, so they are fed to the handlers directly.
- Event numbers: learning with a variable number above the number of variables, and a node variable index out of range, are modelled, but the theorems about runs are about numbers in range.
- Slots: at most 127 events, so that the signed and unsigned loop counters of the original agree.
- Storage: external EEPROM over I2C, heap failures, and `resetModule`, which erases the flash without clearing the cache, so that a later flush can bring old events back.
- Node: the content of replies, LEDs, the user's frame handler, the check on new node variable values (accepted, as in the base class) and the search for a CAN id, of which only the result enters as an event.
- Consume own events, and the content of the queued events.
- GridConnect: connection handling, sending, running out of memory, a text left over from an earlier connection, and data that with the stored text is longer than 65535 bytes, the range of its length.
- GridConnectMessages.DecodeGC: not for a text that ends before its data starts, by an even number of characters, when old characters in the buffer complete its head: its data length wraps around and the buffer is read and written beyond its end. No text with an end mark is one.
- Frame queue: an interrupt in the middle of `get`; each operation is one step here.
- Switch: the clock does not wrap within a history, and `resetCurrentDuration` is not used.
- Unused code: `crc32`.
