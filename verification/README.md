# pico-pong: the ping/pong role-arbitration state machine, in Dafny

Two LoRa nodes run the same program. Neither is told whether it is the
master (it sends "PING") or the slave (it answers "PONG"). Each node works
out its role from the frames it hears. This project models that decision
logic from `src/main.c`:

- the five radio callbacks, which turn a radio event into a pending
  `States_t` value (and, for a reception, copy the payload into the 64-byte
  `Buffer`);
- one pass of the main loop's `switch (State)`, which consumes the pending
  state, may flip `isMaster`, sets the antenna switch and starts at most one
  radio operation (`Radio.Send` or `Radio.Rx`), then parks in `LOWPOWER`;
- the frame preparation repeated in every transmit branch: the tag "PING" or
  "PONG" in bytes 0..3, then `Buffer[i] = i - 4` up to `BufferSize`.

The C globals (`State`, `Buffer`, `BufferSize`) and `main`'s local `isMaster`
become one immutable `PingPong.Node`. Callbacks and the step are pure
functions that return the next node together with the commands the C code
would have issued, in order: antenna switch on/off, `DelayMs`, send (carrying
the bytes sent), listen, `Radio.Sleep` and `SX126xClearDeviceErrors`.

Modules:

- `Frame` (`frame.dfy`): `uint8`, the buffer, the tag literals, `strncmp`,
  `memcpy`, the tag write and the filler loop, and how a buffer or a frame is
  classified.
- `Commands` (`commands.dfy`): the command list, plus its predicates. These
  say that each operation is issued with the right antenna switch, where the
  settle delay sits, and that sends never come back to back.
- `PingPong` (`pingpong.dfy`): states, node, power-on values, callbacks and
  `Step`.
- `Reactions` (`reactions.dfy`): what each branch of the `switch` does.
- `MainLoop` (`mainloop.dfy`): the `while (1)` loop driving a radio that has
  one operation in progress at a time and raises only the events that match
  that operation. Also theorems over whole runs.
- `Exchange` (`exchange.dfy`): two nodes handing frames to each other,
  abstractly.

## Behaviour as written

The model follows the code. These points differ from what the protocol is
usually taken to do. Each one is stated by a lemma or a contract.

- The node starts in `RX_ERROR` as master. So the first pass sends a 64-byte
  "PING" frame (the tag, then the bytes 0 to 59) even though start-up already began a listen
  (`Reactions.FirstPassSendsPing`, `MainLoop.FirstPassOverridesBootListen`).
  Start-up also starts that listen before it sets the antenna switch for
  reception (`MainLoop.BootListensBeforeSwitch`).
- On a receive error a slave listens again but keeps the slave role
  (`Reactions.RxErrorReaction`). `OnRxError`, unlike the two timeout
  callbacks, does not clear the driver's error flags (`PingPong.OnRxError`,
  `PingPong.OnRxTimeout`, `PingPong.OnTxTimeout`).
- A reception shorter than 4 bytes is classified from the stale bytes left in
  `Buffer` by earlier frames. A frame that short carries no tag of its own
  (`Frame.ShortReceptionReadsStaleBytes`, `Frame.ShortReceptionAfterPong`).
  The next send then has that short length and holds only part of the tag
  (`Frame.SentFrameShape`).
- An empty reception starts no operation at all, so the node stalls for good
  (`MainLoop.EmptyReceptionStalls`).
- The 1 ms settle delay does not always sit between the antenna switch and
  the operation. When a non-empty reception is consumed, only a slave
  answering "PING" waits between switch and send; a master answering "PONG"
  waits before it sets the switch (`src/main.c:249-250`), and the listen
  branches do not wait at all (`Reactions.SettleDelayPlacement`,
  `Reactions.MasterHearsPong`, `Reactions.SlaveHearsPing`). Start-up does not
  wait either. Every listen and
  send of the loop is still issued with the switch set for it
  (`MainLoop.RunSwitchedFor`).
- After a non-empty reception the role depends only on the frame, not on the
  previous role: the node is master exactly when the frame is not "PING"
  (`Reactions.ReceptionFollowsTable`). If two nodes hold the same role and
  hear each other, both flip together (`Exchange.SameRolesSwapTogether`).

## Model

| member | source | states |
|---|---|---|
| `Frame.TagsDistinct` | src/main.c:86-87 | The "PING" and "PONG" literals differ in their first four bytes. |
| `Frame.StrnEqual` | src/main.c:232 | The `strncmp(…) == 0` comparison of at most n bytes: two sequences with the same first n bytes always compare equal, and a comparison that succeeds has equal first bytes. |
| `Frame.StrnEqualIffAgreeBeforeNul` | src/main.c:232 | The comparison succeeds iff the sequences agree at every index below n that no NUL precedes in the first one. Bytes after a NUL are never compared. |
| `Frame.StrnEqualIsPrefixEquality` | src/main.c:232 | Comparing at most n bytes, `strncmp`-style, against a literal with no NUL in its first n bytes is exactly equality of the n-byte prefixes. |
| `Frame.HasTag` | src/main.c:253 | The main loop's tag test `strncmp(Buffer, tag, 4) == 0` accepts a buffer iff its first four bytes are the tag. |
| `Frame.Classify` | src/main.c:228-305 | A buffer classifies as "PING", "PONG" or neither exactly according to its first four bytes. The three outcomes exclude each other. |
| `Frame.FrameClass` | src/main.c:276 | The reference classification of a frame on its own, which no source line computes: a frame carries a tag iff it is at least 4 bytes long and starts with that tag, so one shorter than 4 bytes carries none. `Frame.LongReceptionClassifies` and `Frame.ShortReceptionReadsStaleBytes` compare the buffer test at this line against it. |
| `Frame.CopyIn` | src/main.c:415-416 | After the `memcpy`, the first `size` bytes are the payload. The rest of the buffer keeps the earlier bytes. |
| `Frame.WriteTag` | src/main.c:240-243 | Writing the tag sets bytes 0..3 to the tag and leaves every later byte as it was. |
| `Frame.FillerByte` | src/main.c:247 | The `int` value `i - 4` stored into a `uint8_t`: the byte is congruent to `i - 4` modulo 256, and equals it for 4 <= i < 260. |
| `Frame.FillFrom` | src/main.c:245-248 | The filler loop sets every index i in [from, size) to `i - 4` reduced to a byte, and changes nothing else. |
| `Frame.Fill` | src/main.c:319-326 | A prepared buffer holds the tag in bytes 0..3 and `i - 4` at each index 4 <= i < size. Bytes from max(4, size) on are untouched. |
| `Frame.Payload` | src/main.c:251 | The bytes sent are exactly the first `BufferSize` bytes of the buffer. |
| `Frame.FillerCountsFromZero` | src/main.c:339-342 | Filler byte i holds the number i - 4, with no wrap-around. |
| `Frame.FillerIndependentOfTag` | src/main.c:284-291 | Preparing one buffer for "PING" or for "PONG" gives the same bytes from index 4 on. |
| `Frame.FillIdempotent` | src/main.c:358-365 | Preparing an already prepared buffer again with the same tag and length changes nothing. |
| `Frame.FillClassifies` | src/main.c:240-253 | A buffer prepared for a tag is classified as that tag, at every length. |
| `Frame.SentFrameShape` | src/main.c:245-251 | With a length of at least 4, the frame sent is well formed: tag, then filler. With a shorter length it is just a prefix of the tag. |
| `Frame.WellFormedClassifies` | src/main.c:276 | Round trip: a well-formed frame of a tag classifies as that tag. |
| `Frame.LongReceptionClassifies` | src/main.c:416 | A reception of at least 4 bytes classifies in the buffer exactly as the frame alone. |
| `Frame.ShortReceptionReadsStaleBytes` | src/main.c:416 | A reception shorter than 4 bytes classifies as its own bytes completed by the stale buffer bytes up to index 4. |
| `Frame.ShortReceptionAfterPong` | src/main.c:232 | After a "PONG", the one-byte reception "P" classifies as "PONG", although the frame alone carries no tag. |
| `PingPong.PowerOn` | src/main.c:89-93 | The loop starts in `RX_ERROR` as master, with a zeroed buffer and `BufferSize` 64. |
| `PingPong.OnTxDone` | src/main.c:406-410 | Sets the pending state to `TX`. Role, buffer and length stay as they were. Starts no radio operation and touches no switch. |
| `PingPong.OnRxDone` | src/main.c:412-422 | Sets the state to `RX` and `BufferSize` to the payload length. The payload goes into `Buffer[0..size)` and `Buffer[size..64)` is kept. Role unchanged; no operation started. Requires payload length <= 64. |
| `PingPong.OnTxTimeout` | src/main.c:424-430 | Sets the pending state to `TX_TIMEOUT`. Role, buffer and length unchanged; no operation started. Clears the driver's error flags. |
| `PingPong.OnRxTimeout` | src/main.c:432-438 | Sets the pending state to `RX_TIMEOUT`. Role, buffer and length unchanged; no operation started. Clears the driver's error flags. |
| `PingPong.OnRxError` | src/main.c:440-445 | Sets the pending state to `RX_ERROR`. Role, buffer and length unchanged; no operation started. Does not clear the driver's error flags. |
| `PingPong.BootCommands` | src/main.c:200-201 | Start-up starts exactly one radio operation, a 2000 ms listen, and leaves the switch set for reception; the listen comes before any switch command. |
| `PingPong.Transmit` | src/main.c:319-330 | A transmit branch parks the node with the prepared buffer. Its only radio operation sends the first `BufferSize` bytes, with the switch set for transmission. |
| `PingPong.StartListen` | src/main.c:309-313 | A listen branch parks the node with the chosen role. Its only radio operation is a 2000 ms listen, with the switch set for reception. |
| `PingPong.Step` | src/main.c:225-391 | Every pass ends in `LOWPOWER` with at most one radio operation, each issued with the switch set for it. A pass from `LOWPOWER` changes nothing and issues nothing. `BufferSize` and the bytes past max(4, size) are kept. |
| `Reactions.MasterHearsPong` | src/main.c:232-252 | A master that receives "PONG" sends a "PING" frame of the received length and stays master. Its commands are the delay, then the switch for transmission, then the send. |
| `Reactions.MasterHearsPing` | src/main.c:253-261 | A master that receives "PING" becomes slave and only listens: the switch for reception, then the listen, with no delay. |
| `Reactions.MasterHearsOther` | src/main.c:262-267 | A master that receives neither tag stays master and only listens: the switch for reception, then the listen, with no delay. |
| `Reactions.SlaveHearsPing` | src/main.c:276-296 | A slave that receives "PING" sends a "PONG" frame of the received length and stays slave. Its commands are the switch for transmission, then the delay, then the send. |
| `Reactions.SlaveHearsOther` | src/main.c:297-302 | A slave that receives anything else, "PONG" included, becomes master and only listens: the switch for reception, then the listen, with no delay. |
| `Reactions.ReceptionFollowsTable` | src/main.c:227-306 | For a non-empty reception in either role, the node ends master iff the frame is not "PING". It answers with its role's frame iff the frame carries the tag its role expects. Otherwise it listens. |
| `Reactions.EmptyReceptionIssuesNothing` | src/main.c:228-307 | An empty reception is consumed with no command at all and no other change. |
| `Reactions.RxTimeoutTransmits` | src/main.c:315-352 | A receive timeout sends exactly one frame, with the role's own tag ("PING" for a master, "PONG" for a slave), and keeps the role. |
| `Reactions.RxErrorReaction` | src/main.c:354-378 | On a receive error a master sends "PING" and a slave only listens. The role is unchanged in both cases. |
| `Reactions.RxErrorRepeats` | src/main.c:355-370 | For a master, a receive error after reacting to one gives the same commands and the same node again. |
| `Reactions.TransmissionEndListens` | src/main.c:379-384 | After `TX` or `TX_TIMEOUT` the node only listens, and role, buffer and length are unchanged. |
| `Reactions.SendCarriesRoleTag` | src/main.c:240-251 | Any send a pass makes is the node's own role frame, and sending never changes the role. |
| `Reactions.FirstPassSendsPing` | src/main.c:92-93 | The first pass after power-on sends a 64-byte "PING" frame and stays master. |
| `Reactions.SettleDelayPlacement` | src/main.c:249-251 | A delay comes directly before the radio operation in every pass that issues a radio operation, except the passes that consume a non-empty reception. Among those, only a slave answering "PING" has one. |
| `MainLoop.Raises` | src/main.c:399-402 | The assumption about `Radio.IrqProcess`: an event is raised only for the operation in progress. `TX`/`TX_TIMEOUT` only while sending, `RX`/`RX_TIMEOUT`/`RX_ERROR` only while listening, nothing while idle, and never a reception longer than 64 bytes. |
| `MainLoop.Issue` | src/main.c:251-260 | The radio's mode after a command list is that of the last send or listen in it (sending or listening). A list with no radio operation leaves the mode as it was. |
| `MainLoop.Dispatch` | src/main.c:156-160 | Event delivery starts no radio operation, touches no switch and never changes the role. |
| `MainLoop.Pass` | src/main.c:222-403 | Within one loop pass, every send and listen is issued with the switch set for it, and at most one of them is issued. |
| `MainLoop.Run` | src/main.c:222-403 | Successive passes of `while (1)`: a run of k passes issues at most k radio operations. |
| `MainLoop.Boot` | src/main.c:200-201 | The world on entry to the loop: the power-on node, with the radio in the mode start-up's commands leave it in, listening. |
| `MainLoop.RunSwitchedFor` | src/main.c:222-403 | Over any run of the loop, every send follows a switch set for transmission and every listen a switch set for reception. |
| `MainLoop.BootListensBeforeSwitch` | src/main.c:200-201 | Start-up starts its listen before the switch has been set for reception. |
| `MainLoop.FirstPassOverridesBootListen` | src/main.c:200-201 | While start-up's listen is still in progress, the first pass sends a full-size "PING". |
| `MainLoop.PassKeepsAfterSend` | src/main.c:309-314 | One pass never sends right after a send and keeps the after-send invariant. |
| `MainLoop.RunKeepsAfterSend` | src/main.c:222-403 | Over any run from a world satisfying the invariant, no two sends come back to back. |
| `MainLoop.NoSendFollowsSend` | src/main.c:222-403 | From power-on, over any events the radio can raise, a listen always comes between two sends. This includes start-up's listen. |
| `MainLoop.ParkedStaysParked` | src/main.c:385-387 | A parked node with an idle radio issues nothing, ever. |
| `MainLoop.EmptyReceptionStalls` | src/main.c:274-307 | After an empty reception no pass ever issues a command again. |
| `Exchange.SentFrameIsWellFormed` | src/main.c:319-330 | A sent frame of at least 4 bytes is well formed for the sender's role and has its `BufferSize` length. |
| `Exchange.HearingTakesOppositeRole` | src/main.c:253-302 | A node that hears a peer's full frame takes the role opposite to the sender's. It answers, at the same length, iff the roles were already opposite; otherwise it listens. |
| `Exchange.SteadyExchange` | src/main.c:232-295 | A master's "PING" gets a same-length "PONG" from a slave, and that "PONG" gets a same-length "PING" back. Both roles are unchanged. |
| `Exchange.SameRolesSwapTogether` | src/main.c:253-255 | Two nodes of one role that hear each other's frames both flip role and listen. |

## Left out

- LED blinks, `sleep_ms`, `printf` output, and the RSSI and SNR values stored
  by `OnRxDone` (`src/main.c:203-210`, `235-237`, `256-258`, `269`,
  `279-281`, `304`, `417-421`, `428`, `436`, `444`).
  None of them takes part in a decision.
- Radio and board set-up (`src/main.c:143-198`) and `src/pico.c`. These are
  driver calls with constant arguments and peripheral register set-up.
  Only start-up's `Radio.Rx` and `SX126xAntSwOn` (`src/main.c:200-201`) are
  kept, as `PingPong.BootCommands`.
- `BoardLowPowerHandler` and the internals of `Radio.IrqProcess`.
  `MainLoop.Pass` stands for the latter, delivering at most one event per
  pass, and only an event that matches the radio's operation in progress.
- The `default:` branch of the `switch`, which no `States_t` value reaches.
- Timing, lost frames and collisions between two real radios. `Exchange`
  hands frames from one node to the other directly and claims nothing about
  convergence.
- Payload bound: the radio never reports a payload longer than 64 bytes, because
  the code sets that as the maximum payload (`src/main.c:180`). The model
  takes this as a precondition. So `BufferSize`, a `uint16_t` in C, is kept in
  0..64, and the `uint8_t` counter of the filler loop cannot wrap.
