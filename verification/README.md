# Message system of the STM32 boards

Boards that carry a spinner (a stepper motor that follows a spin plan) or meteorological sensors talk to a host over a
serial line. A message is a frame `$body*HH\r\n` whose body names a transaction, a subsystem and a message; `HH` is the
XOR of the body's bytes. A dispatcher turns received frames into messages from fixed pools, hands them to the subsystem
they address, and turns the replies back into frames. The sensors hang on an I2C bus that a state machine in interrupt
handlers drives for whichever task owns it.

The model keeps the shape of the program: the dispatcher's two tasks, the I2C interrupt context, the pools, the
spinner channel, the plan parser and serializer, the C string writer and the stepper are classes and methods over fields
and arrays, each tied to a function on values, and the theorems are about those functions and about whole runs of them.

| file | what it holds |
|---|---|
| `Receiver.dfy`, `Framing.dfy`, `Checksum.dfy` | the receiver as a machine, the whole-stream specification it refines, and the frames |
| `CText.dfy` | the contracts of the C library functions that the parsers lean on |
| `Dispatcher.dfy`, `RxWorker.dfy` | subsystems, registry, and the receiving task on its fixed buffer |
| `TxWorker.dfy`, `Transmission.dfy` | the transmitting task, its runs, and what a frame carries |
| `Delivery.dfy` | what arrives: from the queues of one board, over the line, to the queues of another |
| `I2c.dfy`, `I2cDriver.dfy`, `I2cBus.dfy` | one I2C transaction, the driver on lent buffers, and every interleaving of its users |
| `Pools.dfy`, `Ownership.dfy`, `MeteoPools.dfy` | the pools, and who owns a message in every interleaving of the tasks |
| `Channel.dfy`, `PlanText.dfy` | the spinner channel, and spin plans as text |
| `Stepper.dfy`, `Bmp085.dfy` | the two pieces of bounded arithmetic |
| `CStrWriter.dfy`, `Options.dfy` | formatting into a C string buffer; optional values |

The buffer length N (`BSP_MAX_MESSAGE_LENGTH`, 250 or 1000), the pool sizes and `MAX_SPIN_PLAN_LEGS` are parameters.
A concurrent system is a set of atomic steps, and a run is any sequence of them.

Where the code differs from what one would expect, the model follows the code:

- A CRLF that closes before offset 10 does not end a frame, and a complete frame of exactly N characters is accepted,
  because completion is tested before the length (`src/message_dispatcher.c:116-154`). `Framing.Deliverable` is the
  exact condition on a body.
- The checksum field is read by strtoul, which takes a little more than two digits. `Framing.FieldValue` says what.
- An error report whose frame does not fit is dropped without a trace (`src/message_dispatcher.c:313-330`).
- A plan with exactly `MAX_SPIN_PLAN_LEGS` legs is accepted without its leg count being written
  (`src/spinner/spinner.c:128-135`). `PlanText.PlanRecoveredIff` is the exact condition.
- The fallback in `meteo_alloc` would give back the payload of another message
  (`rust/src/meteo/mod.rs:87-90`). `MeteoPools.FallbackUnreachableIff` says when it cannot be reached.

## Model

| member | source | states |
|---|---|---|
| Receiver.RunRefinesStream | src/message_dispatcher.c:89-158 | for every stream and from every reachable state, the character-at-a-time receiver raises exactly the events of the whole-stream reading: cut at each `$`, a segment yields one frame that closes at its first CRLF at offset 10 to N, or one too-long error once N characters passed without one, or nothing; the rest of the segment is ignored |
| Receiver.RunKeepsReachable | src/message_dispatcher.c:89-158 | after any stream fewer than N characters are held, none of them is `$`, and they have not yet closed a frame, so the next store is in bounds |
| Receiver.RunConcat | src/message_dispatcher.c:89-158 | how a stream is split over calls makes no difference to its events |
| Receiver.SegmentEventsOf | src/message_dispatcher.c:116-118 | a segment has one first closing CRLF, and its event is the verdict on the text up to there |
| Framing.TruncationIsHarmless | src/message_dispatcher.c:403-405 | a line of whole frames and frames cut short anywhere, read from any receiver state, dispatches exactly the bodies of the whole frames in order, with no other event |
| Framing.FrameArrives | src/message_dispatcher.c:100-146 | a closed frame is dispatched when the checksum of the body it carries is the one it was sealed with, and is one checksum error otherwise, whatever was received before it |
| Framing.CutFrameIsSilent | src/message_dispatcher.c:100-154 | a proper prefix of a frame raises no event in any receiver state |
| Framing.DeliveredIff | src/message_dispatcher.c:100-154 | a body survives framing alone and unchanged if and only if it has 5 to N-5 characters, no `$`, and no CRLF that closes at offset 10 or later |
| Framing.CorruptionIsCaught | src/message_dispatcher.c:131-140 | a body byte of another value gives exactly one checksum error and no dispatch |
| Framing.WrongCharacterIsCaught | src/message_dispatcher.c:131-140 | a body with any one character replaced by any other 8-bit character gives exactly one checksum error and no dispatch |
| Framing.DispatchedIff | src/message_dispatcher.c:116-145 | a closed frame is dispatched if and only if it is a body, `*`, a field with the value of the checksum of the body, and CRLF; any other closed frame is one checksum error |
| Framing.KnownFrame | tests/test_dispatcher.c:523-523 | the frame of the body `12345,` is `$12345,*1D` and CRLF, as in the tests of the dispatcher |
| Framing.ReorderingIsDispatched | src/message_dispatcher.c:131-145 | the limit of the checksum: a body with its bytes permuted is dispatched as if it were the real one |
| Framing.FieldValue | src/message_dispatcher.c:133-136 | the two checksum characters match a sum exactly when they are two hexadecimal digits of that value, or one digit behind white space or `+`, or `-0` for the sum zero |
| Framing.ReceivedAs | src/message_dispatcher.c:116-145 | a body followed by the trailer of some other body closes where the trailer ends and is judged by comparing the two checksums |
| Framing.SegmentsOf | src/message_dispatcher.c:101-105 | cutting a stream at `$` leaves one part when there is none, and only shorter parts otherwise |
| Checksum.Calc | src/message_dispatcher.c:207-215 | the loop computes the XOR of the bytes of the slice it is given |
| Checksum.SumOfReplacement | src/message_dispatcher.c:207-215 | replacing one byte changes the checksum by the XOR of the old and the new byte |
| Checksum.ReplacementIsSeen | src/message_dispatcher.c:207-215 | a replaced character leaves the checksum as it is if and only if its byte is the same |
| Checksum.SumOfOne | src/message_dispatcher.c:211-211 | the checksum of a single 8-bit character is its numeric value; with the XOR law this fixes every checksum |
| Checksum.SumOfConcat | src/message_dispatcher.c:207-215 | the checksum of two texts in a row is the XOR of theirs |
| Checksum.DifferenceIsSeen | src/message_dispatcher.c:207-215 | replacing an 8-bit character by a different one always changes the checksum |
| Checksum.KnownSum | tests/test_dispatcher.c:523-523 | the checksum of `12345,` is 1D |
| Checksum.ReorderingIsNotSeen | src/message_dispatcher.c:207-215 | bodies with the same bag of characters have the same checksum |
| CText.DecimalRoundTrip | src/message_dispatcher.c:225 | `%lu` followed by strtoul in base 10 is the identity on 32-bit values, consumes every digit and sets no error |
| CText.SignedRoundTrip | src/message_dispatcher.c:306-307 | what `%ld` prints of a 32-bit number, strtoul reads back as its bit pattern, in full |
| CText.StrtoulOfNumber | src/message_dispatcher.c:223-226 | white space, at most one sign and digits up to the end are read in full: as the 32-bit value, negated behind a minus sign, or as out of range |
| CText.StrtoulOfOther | src/message_dispatcher.c:223-226 | no other text is read to its end |
| CText.DigitIs | src/message_dispatcher.c:134-134 | the sixteen hexadecimal digits of either case have the values 0 to 15, and no other character has |
| CText.NextTokenOf | src/message_dispatcher.c:220-234 | a comma-free text in front of a comma or of the end is the next token, and scanning resumes behind that comma |
| CText.NextTokenSkipsComma | src/message_dispatcher.c:220-234 | a leading comma never makes an empty token: runs of commas collapse |
| CText.StrtokDelivers | src/message_dispatcher.c:220-234 | the token that the in-place tokenizer cuts out of the buffer, and the text it leaves behind save_ptr, are the next token and rest of the text it was given; NULL comes exactly for text without a token |
| CText.StrtokR | src/message_dispatcher.c:220-234 | one call overwrites at most the one comma behind its token with a NUL and returns where the token starts and where to go on |
| CText.Snprintf | src/message_dispatcher.c:306-321 | a conversion never writes outside the size it is given, returns the length of the whole text, and leaves that text in the buffer when it fits with its NUL |
| RxWorker.RxWorker.Assemble | src/message_dispatcher.c:89-158 | one call on the real buffer is one step of the receiver machine, and its event is handled: nothing else changes, or the one error is scheduled, or the body has its one outcome in the registered subsystems |
| RxWorker.RxWorker.Append | src/message_dispatcher.c:111-154 | a character inside a frame is stored; the frame closes, or fills the buffer and is reported, or stays open, in that order of precedence |
| RxWorker.RxWorker.Validate | src/message_dispatcher.c:125-143 | the checksum test passes exactly when the machine dispatches the frame, and then the buffer holds the body as a C string |
| RxWorker.RxWorker.Process | src/message_dispatcher.c:217-295 | the body in the buffer, tokenised in place, has the one outcome that its parsed request must have |
| RxWorker.ReadRequest | src/message_dispatcher.c:217-239 | the three in-place tokenizer calls yield the id, the two names and the remaining text of the body, or the parsing error |
| RxWorker.RxWorker.Route | src/message_dispatcher.c:241-295 | the search over the subsystems leaves every subsystem but the first of that name alone, and reports an unknown name |
| RxWorker.RxWorker.Deliver | src/message_dispatcher.c:244-290 | the search over the handlers of that subsystem ends in the outcome that the first handler of that name calls for |
| RxWorker.RxWorker.Construct | src/message_dispatcher.c:250-283 | either one message with the parsed id, type and payload is queued, or one error is scheduled and the pools hold what they held before |
| RxWorker.RxWorker.Queue | src/message_dispatcher.c:274-280 | the message is appended to the queue of the subsystem, or freed and reported when the queue is full |
| RxWorker.OnlyOneTouched | src/message_dispatcher.c:241-291 | the outcome for the addressed subsystem is the outcome for the whole registry |
| Dispatcher.Subsystem.AllocMessage | src/spinner/spinner.c:375-410 | allocation fails exactly when there is no free header or no free slot of the class of the type, and then the pools are as before; otherwise one header and one such slot leave them |
| Dispatcher.Subsystem.FreeMessage | src/spinner/spinner.c:412-432 | the slot goes back to the pool its type names and the header to the header pool |
| Dispatcher.ErrorQueue.Schedule | src/message_dispatcher.c:413-416 | an error is appended, or dropped when the queue is full |
| Dispatcher.Registry.Register | src/message_dispatcher.c:471-481 | the sixth subsystem is turned away without effect; the others keep their order and their state |
| Pools.AllocThenFree | src/spinner/spinner.c:375-432 | freeing what was just allocated, whatever was stored in it, restores every pool |
| Transmission.EnqueuedIff | src/message_dispatcher.c:217-295 | a request is enqueued if and only if it addresses the first handler of its name in the first subsystem of its name, there are a header and a slot, the payload parses and the queue has room; it carries the parsed id |
| Transmission.RefusedFor | src/message_dispatcher.c:250-280 | for a request that finds its handler, each of the four error codes is raised exactly for its own reason |
| Transmission.RefusedBecause | src/message_dispatcher.c:287-294 | the unknown-subsystem and unknown-message errors are raised exactly when the name is not registered, and no code outside the six is ever raised |
| Dispatcher.MalformedIff | src/message_dispatcher.c:220-239 | a body is malformed if and only if its first token is not a 32-bit decimal number up to its end, or it has fewer than three tokens |
| Dispatcher.RequestedId | src/message_dispatcher.c:225-225 | the id of a request is the number that its first token spells |
| Delivery.AcceptedIsQueued | src/message_dispatcher.c:256-283 | an accepted request becomes the last entry in the queue of its subsystem: a header that was free, with the parsed id, type and payload and a slot that was free; nothing else changes |
| Delivery.RefusedLeavesNothing | src/message_dispatcher.c:217-295 | a refused request adds one report, when there is room for it, and leaves every queue, every free header and slot and every message in use as they were |
| Delivery.BadFrameIsReported | src/message_dispatcher.c:126-151 | a frame with a bad checksum is reported as -1 and one that is too long as -11, and neither touches a subsystem |
| Delivery.ScheduledWhen | src/message_dispatcher.c:413-416 | a report joins the end of the queue while fewer than ten wait, and is dropped otherwise |
| TxWorker.TxWorker.Check | src/message_dispatcher.c:160-203 | one action of the transmitting task reads its own errors, then those of the subsystems, then the messages; the new queues, pools and the characters on the line are those of the transmit step (whose meaning the `Delivery` rows state) |
| TxWorker.TxWorker.FindError | src/message_dispatcher.c:171-184 | the first subsystem with a pending error report is found, skipping those without an error queue |
| TxWorker.TxWorker.FindMessage | src/message_dispatcher.c:186-200 | the first subsystem with a pending message is found, skipping those without a message queue |
| TxWorker.TxWorker.SendError | src/message_dispatcher.c:298-333 | the line gets one whole error frame when it fits a buffer of N characters, and nothing otherwise |
| TxWorker.TxWorker.SendMessage | src/message_dispatcher.c:336-410 | the message is freed on every path; the line gets the whole frame, or as much of it as there is room for and one buffer-full error, or nothing and one formatting error |
| TxWorker.TxWorker.BuildFrame | src/message_dispatcher.c:341-400 | the characters assembled in the buffer are the frame of the rendered body, shorter than N, or the error of the first stage that failed |
| TxWorker.Seal | src/message_dispatcher.c:385-396 | the trailer carries the checksum of exactly what lies between `$` and `*` |
| Transmission.TxNextUnloads | src/message_dispatcher.c:160-203 | an action takes something off 2 * messages + errors unless everything is empty, and then it changes nothing |
| Transmission.QueuesDrain | src/message_dispatcher.c:160-203 | with no new producers, 2 * messages + errors actions empty every queue, however the writes are cut |
| Transmission.MessagesComeLast | src/message_dispatcher.c:186-200 | a message is taken only when every error queue is empty and every earlier subsystem has none; the error it may cause is never dropped |
| Transmission.TxRunIsClean | src/message_dispatcher.c:298-405 | everything any run of the transmitter writes is a whole frame or a cut frame with a deliverable body |
| Transmission.LineIsUnderstood | src/message_dispatcher.c:89-158 | whatever a transmitter writes in any run, with any short writes, a receiver in any state dispatches exactly the bodies it wrote in full, in order |
| Transmission.RenderedIsDeliverable | src/message_dispatcher.c:348-400 | every frame the encoder emits is shorter than N and closes where its trailer ends |
| Transmission.ErrorIsDeliverable | src/message_dispatcher.c:302-332 | every error frame that is emitted can be received |
| Transmission.RequestOfBody | src/message_dispatcher.c:217-239 | the id, the names and the payload that a body was put together from are the ones that parsing recovers |
| Transmission.MessageRoundTrip | src/message_dispatcher.c:336-405 | rendering, framing, receiving and tokenising recovers the same id, subsystem, message name and payload text, from any receiver state |
| Transmission.MessageIsEnqueued | src/message_dispatcher.c:89-405 | from one board to another: a message one board renders is queued on the other with the same transaction id and the payload its parser reads from the printed text, whenever the other has that subsystem, that message and the resources |
| Transmission.ErrorRoundTrip | src/message_dispatcher.c:298-333 | an error report that is emitted is received as three tokens: the name, the word ERROR, and digits from which strtoul recovers the 32-bit code |
| Delivery.FirstMessageArrives | src/message_dispatcher.c:186-203 | when no error waits, the action of the transmitter takes the first message of the first subsystem that has one; if its frame fits, a receiver in any state gets one body, which parses to the id, subsystem and message name of that very message and the text printed for it |
| Delivery.FirstMessageIsReleased | src/message_dispatcher.c:408-409 | on every path the message leaves its queue, its header is free again, its slot is back in the pool of its class, and nothing else changes |
| Delivery.FirstMessageReports | src/message_dispatcher.c:341-405 | the one code reported for a message is -8, -11, -3 or -9 exactly when the handler is missing, a part is too long, nothing is printed, or the room is too small, and none is reported otherwise |
| Delivery.ShortWriteIsPrefix | src/message_dispatcher.c:403-405 | a short write is the prefix of the full frame that there is room for |
| Delivery.EveryMessageArrives | src/message_dispatcher.c:160-203 | from any queues of sendable messages, with no errors and room for each frame, one action per message makes a receiver get the requests of all of them, subsystem by subsystem and in queue order, and nothing else |
| Delivery.ReportsArriveInOrder | src/message_dispatcher.c:164-169 | the reports of the dispatcher are sent before anything else, one per action, and arrive in the order in which they were scheduled, under its name |
| Delivery.SubsystemReportArrives | src/message_dispatcher.c:171-184 | then the first subsystem with a report has its oldest one sent under its own name |
| Delivery.MessageCrossesTheLine | src/message_dispatcher.c:89-410 | from a queue on one board to a queue on another: what the transmitter takes is queued on the other side under the same id, for the same message, with the payload its parser reads from the printed text |
| I2c.OnEventKeepsValid | rust/src/bsp/i2c/i2c_v1.rs:449-575 | Transmitting(n) only in a write step with 1 <= n <= len, Receiving(n) only in a read step with n = 0 or n <= len - 2: no index leaves a buffer and no subtraction underflows |
| I2c.EventMakesProgress | rust/src/bsp/i2c/i2c_v1.rs:449-575 | an event either changes nothing or strictly decreases what is left to transfer |
| I2c.EventRefines | rust/src/bsp/i2c/i2c_v1.rs:449-575 | each event keeps the driver in step with the combined format: START, address and direction, the bytes in order, read buffers filled so far, everything else as the caller passed it |
| I2c.BeginRefines | rust/src/bsp/i2c/mod.rs:91-102 | a fresh transaction is the empty prefix of its own bus protocol |
| I2c.FinishedMeans | rust/src/bsp/i2c/i2c_v1.rs:505-561 | a finished run has one START per step and exactly one STOP, is the combined format of UM10204 section 3.1.10 once the STOP is taken out, requests no START behind the STOP, and behind the k-th START sends a byte that is odd exactly for a read step and holds the 7-bit address in its upper bits |
| I2c.AddressByteSelects | rust/src/bsp/i2c/i2c_v1.rs:413-420 | in numbers: the address byte is odd exactly for reading, and half of it is the 7-bit address |
| I2c.BusIsAddressed | rust/src/bsp/i2c/i2c_v1.rs:456-460 | the k-th START of the combined format is followed by the byte that selects the device for the k-th step |
| I2c.AdvancesIff | rust/src/bsp/i2c/i2c_v1.rs:449-575 | each state waits for one flag (or two): an event moves the transaction on exactly when it brings it, and has no effect otherwise |
| I2c.TransmitRefines | rust/src/bsp/i2c/i2c_v1.rs:498-520 | every byte of a write step is sent once and in order, and the step ends only when the last one is out |
| I2c.ReceiveTwoRefines | rust/src/bsp/i2c/i2c_v1.rs:539-561 | the last two bytes of a read step complete it in order, on the last step behind the STOP request |
| I2c.StopBeforeLastTwo | rust/src/bsp/i2c/i2c_v1.rs:548-556 | requesting the STOP in front of the last two bytes still makes the finished transaction |
| I2cDriver.InterruptContext.HandleEvent | rust/src/bsp/i2c/i2c_v1.rs:433-576 | on the lent buffers, one interrupt has the effect of one event of the machine and touches no array but those of the transaction |
| I2cDriver.InterruptContext.HandleReceiving | rust/src/bsp/i2c/i2c_v1.rs:522-571 | the receiving branch stores into the current step alone and at the current position |
| I2cDriver.InterruptContext.ReceiveTwo | rust/src/bsp/i2c/i2c_v1.rs:548-561 | two bytes are stored and the STOP is requested in front of them exactly on the last step |
| I2cDriver.InterruptContext.Store | rust/src/bsp/i2c/i2c_v1.rs:528-528 | one byte of one step changes; all other steps keep their contents although their buffers are arrays |
| I2cDriver.InterruptContext.HandleError | rust/src/bsp/i2c/i2c_v1.rs:578-588 | an error interrupt ends the transaction with -1 and leaves the steps and buffers alone |
| I2cDriver.InterruptContext.TryStart | rust/src/bsp/i2c/mod.rs:83-103 | a call takes the bus exactly when no transaction is there and the state is Done, and changes nothing otherwise |
| I2cDriver.InterruptContext.Poll | rust/src/bsp/i2c/mod.rs:105-121 | the poll returns exactly when the state is Done, and the context no longer holds the steps |
| I2cBus.ContextHasOneOwner | rust/src/bsp/i2c/mod.rs:79-122 | after every history of calls, interrupts, errors and polls, the context is empty and nobody waits, or it holds the steps of the single waiting task as far as the bus got with them, and an error has ended it |
| I2cBus.OkMeansTransferred | rust/src/bsp/i2c/mod.rs:105-121 | Ok means every byte of the caller's own steps was transferred in bus order, each step under the address and direction bit it asks for, with no error interrupt and no other owner since its call; its steps are gone from the context afterwards |
| I2cBus.RejectedIff | rust/src/bsp/i2c/mod.rs:83-90 | a call is rejected if and only if some task is inside its own call, and then without any effect |
| I2cBus.InterruptsAreBounded | rust/src/bsp/i2c/i2c_v1.rs:449-575 | the interrupts that change the state are at most one per byte and three per step, however they fall |
| I2cBus.ReadyBusServes | rust/src/bsp/i2c/mod.rs:79-122 | a call that takes the bus returns Ok once the peripheral has reported its flags once per byte and three times per step |
| I2cBus.DisturbedFails | rust/src/bsp/i2c/mod.rs:105-117 | a transaction that an error interrupt has struck returns an error to its caller |
| I2cBus.HolderMeans | rust/src/bsp/i2c/mod.rs:79-122 | the holder of the bus is the last accepted call, with no call accepted or returned since |
| I2cBus.UndisturbedMeans | rust/src/bsp/i2c/i2c_v1.rs:578-588 | an undisturbed holder has seen no error interrupt since its call |
| Ownership.NothingIsLost | src/message_dispatcher.c:257-281 | in every interleaving of the three tasks each header is in exactly one place (pool, two queues, a task), and each slot is free in the pool of its class or owned by exactly one live header whose type names that class |
| Ownership.StepKeepsHeaders | rust/src/spinner/spinner.rs:219-277 | each pool or queue operation moves headers without losing or doubling one |
| Ownership.StepKeepsSlots | src/spinner/spinner.c:400-432 | each operation keeps every slot with one owner of its class |
| Ownership.ReplyQueueHasRoom | rust/src/spinner/spinner.rs:393-433 | while a reply is written, its request and itself are outside the reply queue, so the queue is two short of the pool |
| Ownership.ReplyIsAlwaysQueued | rust/src/spinner/spinner.rs:237-276 | the unchecked write of a reply always succeeds |
| Ownership.NoReplyLostIff | src/spinner/stm32f411discovery/constants.h:18-48 | no interleaving loses a reply if and only if the reply queue is at most one entry shorter than the header pool; the boards make the two equal |
| Ownership.FreesAreSound | src/spinner/spinner.c:412-432 | a live message that is freed was owned, was not free already, and gives its slot to the pool it came from, which is the plan pool exactly for setting a plan and replying with one |
| Ownership.QuietMeansFull | src/spinner/spinner.c:375-432 | once the queues are empty and the tasks idle, every pool is full again |
| Ownership.QueuesKeepOrder | rust/src/spinner/spinner.rs:397-433 | in every interleaving requests are taken, and replies are sent, in the order in which they were queued, and every reply that was written is sent or still waits |
| MeteoPools.AlwaysOwned | rust/src/meteo/mod.rs:63-127 | in every interleaving of allocations and frees, each header is in one of four stages and each payload is free or owned by one message |
| MeteoPools.PayloadsAreCounted | rust/src/meteo/mod.rs:77-124 | free payloads are free headers plus the operations between their two pool accesses, shifted by the difference of the pool sizes |
| MeteoPools.EqualPoolsNeverMiss | rust/src/meteo/mod.rs:57-61 | with pools of equal size an allocation that got a header finds a payload |
| MeteoPools.FallbackUnreachableIff | rust/src/meteo/mod.rs:87-90 | the branch that frees the header again is unreachable in every interleaving if and only if there is a payload for every header |
| MeteoPools.FallbackWouldShare | rust/src/meteo/mod.rs:87-90 | what that branch would do: a concrete schedule with fewer payloads in which it frees a payload that a live message owns |
| MeteoPools.Allocator.Alloc | rust/src/meteo/mod.rs:63-97 | NULL exactly for an unknown type or an empty header pool, and then nothing changes; otherwise a header and a payload are bound to each other |
| MeteoPools.Allocator.Free | rust/src/meteo/mod.rs:99-127 | the payload and the header of a message go back to their pools |
| Channel.Channel.SendEvent | rust/src/spinner/spinner.rs:172-217 | each request makes exactly one reply attempt under its own transaction id, with the reply and the new state that the state calls for |
| Channel.Channel.SetChannelPlan | rust/src/spinner/spinner.rs:289-301 | a stopped channel holds exactly the new legs, any other keeps its plan |
| Channel.Channel.SetChannelState | rust/src/spinner/spinner.rs:279-287 | only Running and STOPPED, or Stopped and RUNNING, change the state |
| Channel.Channel.SendSpinPlanReply | rust/src/spinner/spinner.rs:219-238 | the reply lists the legs of the plan in force, in order |
| Channel.StateOfHistory | rust/src/spinner/spinner.rs:172-301 | after any requests the channel is Stopped until the first request to run, Spindown after a later request to stop and Running in between, and its plan is the last one set before the first request to run |
| Channel.RepliesTellThePlan | rust/src/spinner/spinner.rs:172-301 | every plan reply reports the plan in force at that point, and a new plan is refused exactly from the first request to run on |
| Channel.RepliesTellTheState | rust/src/spinner/spinner.rs:172-301 | every state reply reports the stage the requests have got to as 0, 1 or 2, with the elapsed time and the output value, and a change of state is refused exactly once the channel spins down |
| Channel.NeverBack | rust/src/spinner/spinner.rs:172-301 | the state never moves back and never skips a stage, and the plan is fixed once it has left Stopped |
| PlanText.SpinPlanData.Parse | src/spinner/spinner.c:103-165 | a packet is accepted exactly when it is a channel number and pairs of duration and target that fit; the fields then hold them, and the leg count is written only when there is room for one more leg |
| PlanText.SpinPlanData.ParseLegs | src/spinner/spinner.c:127-160 | the loop fills the legs from the front with the pairs of the packet and accepts exactly well-formed packets of at most MAX_SPIN_PLAN_LEGS pairs |
| PlanText.ParsePair | src/spinner/spinner.c:129-155 | one round tells the end of the packet, a malformed pair and the next pair apart |
| PlanText.SpinPlanData.Serialize | src/spinner/spinner.c:274-311 | nothing outside the given length is written; the plan text is there with its length returned when it fits with its NUL, and -1 is returned otherwise |
| PlanText.FixedRoundTrip | src/spinner/spinner.c:294-298 | a six-decimal value printed with `%f` is read back by strtof exactly and in full |
| PlanText.PlanRoundTrip | src/spinner/spinner.c:103-165 | parsing the text of a plan gives back its channel, durations and targets, for every number of legs that fits |
| PlanText.PlanRecoveredIff | src/spinner/spinner.c:128-135 | the leg count comes back too if and only if there are fewer than MAX_SPIN_PLAN_LEGS legs, or the memory happens to hold that count |
| PlanText.FullPlanIsNotCounted | src/spinner/spinner.c:128-135 | a plan with all 20 legs, parsed into zeroed memory, counts no legs |
| PlanText.AcceptedIff | src/spinner/spinner.c:103-165 | a packet is accepted with a channel and legs if and only if its tokens spell them, character by character: a channel up to 255, then durations and targets in turn, at most MAX_SPIN_PLAN_LEGS of each |
| PlanText.RejectedIff | src/spinner/spinner.c:103-165 | it is rejected if and only if it spells no plan at all |
| PlanText.StrtofOfNumber | src/spinner/spinner.c:150-155 | an optional sign, digits and an optional point anywhere among them are read in full, as the signed number of all the digits with as many places as there are digits behind the point |
| PlanText.StrtofOfOther | src/spinner/spinner.c:150-155 | no other text is taken for a target |
| PlanText.TrailingCharacterIsRejected | src/spinner/spinner.c:152-155 | one character behind a target that is not part of it makes the whole packet fail |
| PlanText.KnownPacket | tests/test_spinner.c:204-219 | the packet 4,12,13.3,42,52 of the tests of the spinner is channel 4 with the legs (12, 13.3) and (42, 52) |
| Stepper.RateIsAccurate | src/spinner/stm32f411discovery/bsp.c:218-234 | for every rate whose magnitude, cut at 100, exceeds 0.1, on both boards: prescaler and period fit 16 bits, the period is at least 32768, and (presc + 1) * period * rate is at most 9600000 (4800000 on the F072) and short of it by less than one part in 32768 |
| Stepper.SettingsFit | src/spinner/stm32f411discovery/bsp.c:228-233 | for a number of ticks T in range, (presc + 1) * ctr <= T < (presc + 1) * (ctr + 1) with ctr at least 32768 |
| Stepper.SpeedIs | src/spinner/stm32f411discovery/bsp.c:217-227 | the speed of a rate is its magnitude up to 100, and it moves the motor exactly above 0.1 |
| Stepper.PeriodIsLarge | src/spinner/stm32f072discovery/bsp.c:217-225 | the chosen prescaler leaves the period in the upper half of its 16 bits |
| Stepper.TicksBounds | src/spinner/stm32f072discovery/bsp.c:209-219 | the ticks of one step stay between 48000 and 96 million on the F072, and above 96000 on the F411 |
| Stepper.Motor.SetRate | src/spinner/stm32f411discovery/bsp.c:210-269 | the registers hold settings that are accurate for the speed of the rate, or 0xffff when it does not move the motor; a running motor keeps running exactly when it does, a standing one is not started, and counter and DMA follow the direction |
| Bmp085.TemperatureIsMonotone | rust/src/meteo/bmp085.rs:165-169 | a higher raw reading never gives a lower temperature when ac5 >= 0, mc <= 0 and the divisor is positive, as long as nothing overflows |
| Bmp085.TemperatureCompensates | rust/src/meteo/bmp085.rs:165-169 | the temperature is the one of the compensation formula, written as inequalities that fix each rounding |
| Bmp085.SixteenBitsAreEnough | rust/src/meteo/bmp085.rs:165-169 | with 16-bit readings and calibration values and ac5 below 2^15 nothing overflows, and a temperature is computed exactly when the divisor is not zero |
| Bmp085.QuotientIsAccurate | rust/src/meteo/bmp085.rs:185-189 | for every 32-bit b7 and b4 >= 4 neither shift loses a bit, the value fits an i32 and is within one of floor(2 * b7 / b4) |
| Bmp085.ExactIff | rust/src/meteo/bmp085.rs:185-189 | no b7 overflows if and only if b4 is at least 4 |
| Bmp085.DoubledQuotient | rust/src/meteo/bmp085.rs:185-189 | doubling behind the division misses the quotient of the double by at most one |
| CStrWriter.CStrWriter.WriteStr | rust/src/bindings/message_dispatcher.rs:295-316 | all of a piece is appended and terminated, or nothing is written when it does not fit with its NUL |
| CStrWriter.WriteAll | rust/src/meteo/mod.rs:155-164 | the length of the whole text is returned and the text is in the buffer exactly when it fits with its NUL; the buffer is a C string either way |
| CStrWriter.ReadBack | rust/src/bindings/message_dispatcher.rs:318-325 | the scan returns the text up to the first NUL |
| CStrWriter.WrittenIsRead | rust/src/bindings/message_dispatcher.rs:278-325 | what the writer holds is what a reader of the C string finds, unless it contains a NUL itself |

## Left out

- RxWorker.ReadRequest: requires a body with at least one token; for a body of commas only the original passes NULL to strtoul.
- RxWorker.RxWorker.Assemble: has the same precondition for the character that completes a frame.
- RxWorker.RxWorker.Construct: takes a payload parser as a function of the text that fails or fills the slot; what a slot held before is not visible to it (`PlanText` models that for the leg count).
- Receiver.RunRefinesStream: is about the events; the sleep of an idle task is not modelled.
- CText.StrtokR: takes the text behind the last token to be empty, where the C library may keep a NULL save_ptr.
- TxWorker.TxWorker.SendError: takes the blocking write as one that completes.
- TxWorker.TxWorker.SendMessage: takes a short write as writing what there is room for; the room is a parameter of every action.
- Transmission.LineIsUnderstood: is for names and payloads without `$`, NUL and CRLF, and payloads led by a comma, as the serializers print them.
- Delivery.EveryMessageArrives: requires that every message can be rendered and that there is room for each frame; what happens otherwise is `Delivery.FirstMessageReports`, action by action.
- Bmp085.SixteenBitsAreEnough: needs ac5 below 2^15; above it the product of the first line can leave an i32.
- I2c.EventRefines: knows the peripheral by its flags, the data register and START and STOP; ACK and POS timing, the buffer interrupt enables, the flag clearing sequences and the contents of the reset and of the deblocking are not modelled.
- I2cDriver.InterruptContext.TryStart: requires at least one step and no empty buffer, and buffers that are distinct arrays, as exclusive borrows are.
- I2cBus.OkMeansTransferred: covers one peripheral; the three are independent contexts.
- Ownership.NothingIsLost: requires a reply queue at most one entry shorter than the header pool; `Ownership.NoReplyLostIff` shows that this is needed, and both boards have equal sizes.
- Ownership.NoReplyLostIff: is stated for a small slot per header and an incoming queue that holds a message, as on both boards.
- MeteoPools.AlwaysOwned: requires a payload for every header, which `MeteoPools.FallbackUnreachableIff` shows to be exact for the fallback.
- MeteoPools.Allocator.Alloc: runs undisturbed; the interleavings are the subject of the schedules in the same file.
- Channel.Channel.SendEvent: takes plans of at most 10 legs, the size of the Rust view of the payload; longer plans panic in the original.
- PlanText.SpinPlanData.Parse: reads a target as an exact decimal number; what a float makes of it, exponents, hexadecimal floats, inf, nan and the range errors of strtof are not modelled. The text behind save_ptr is a value; the in-place tokenizer is modelled in `CText`.
- PlanText.SpinPlanData.Serialize: prints targets that are exact six-decimal values.
- Stepper.RateIsAccurate: is over reals; float rounding is not modelled.
- Stepper.Motor.SetRate: reduces the timers, the counter direction and the DMA to their settings.
- Bmp085.QuotientIsAccurate: stops at the quotient; the rest of the pressure formula, its calibration reads and the precision setting are not modelled.
- CStrWriter.ReadBack: leaves out the UTF-8 check; a character is a byte.
- The operating system's mailbox, pool allocator, character buffer and critical sections are given by their contracts: a bounded queue, a set of free elements of which any may be handed out, a write that may be short, an atomic step.
- Raw pointers are identifiers; the memory they lead to is a map.
- The other parsers and serializers of the spinner, the payload parser of the meteo subsystem and the commands of its loop: single fields, and easy members beside the plan.
- The light sensor driver, worker tasks, LEDs, board and clock set-up, the UART handlers and the test stubs.
