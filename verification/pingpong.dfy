/**
  The role-arbitration and exchange state machine of `src/main.c`.

  The C program keeps its state in globals (`State`, `Buffer`, `BufferSize`)
  and in the local `isMaster` of `main`. Here they form one immutable `Node`.
  Each radio callback is a pure function from a node to the node it leaves
  behind; one pass of the main loop's `switch (State)` is `Step`. Both return
  the commands they would have issued, in order, instead of issuing them.
 */
module PingPong {
  import opened Frame
  import opened Commands

  /** `States_t`: the event waiting to be consumed by the main loop, or `LowPower` when there is none. */
  datatype State = LowPower | Rx | RxTimeout | RxError | Tx | TxTimeout

  /** `RX_TIMEOUT_VALUE`, in milliseconds: the bound on every listen. */
  const RX_TIMEOUT_VALUE: nat := 2000

  /**
    The settle delay, `DelayMs(1)`, of the antenna switch. The transmit
    branches and the listens after a transmission or a receive error use it;
    start-up and the listens after a reception do not.
   */
  const SETTLE_MS: nat := 1

  /**
    The node's whole decision state: the pending state, the role
    (`isMaster`: true for the initiator that sends "PING", false for the
    responder that answers "PONG"), the frame buffer and the last reception length.
   */
  datatype Node = Node(state: State, isMaster: bool, buffer: Buffer, bufferSize: PayloadLen)

  /** A node together with the commands issued while reaching it. */
  datatype Reaction = Reaction(node: Node, commands: seq<Command>)

  /** The tag a node of the given role transmits. */
  function RoleTag(isMaster: bool): Tag {
    if isMaster then Ping else Pong
  }

  /**
    The node when the loop is first entered: `State = RX_ERROR`,
    `isMaster = true`, a zeroed buffer (static storage) and `BufferSize = BUFFER_SIZE`.
   */
  function PowerOn(): (n: Node)
    ensures n.isMaster && n.state == RxError && n.bufferSize == BUFFER_SIZE
    ensures forall k :: 0 <= k < BUFFER_SIZE ==> n.buffer[k] == 0
  {
    Node(RxError, true, seq(BUFFER_SIZE, _ => 0), BUFFER_SIZE)
  }

  /**
    The radio commands of start-up: `Radio.Rx(RX_TIMEOUT_VALUE)`, then
    `SX126xAntSwOn()`. Start-up starts one listen and leaves the switch set
    for reception, but the listen comes first.
   */
  function BootCommands(): (cmds: seq<Command>)
    ensures RadioOps(cmds) == [Listen(RX_TIMEOUT_VALUE)]
    ensures LastSwitch(cmds) == SwOn
    ensures cmds[0].Listen? && LastSwitch(cmds[..0]) == Unset
  {
    var cmds := [Listen(RX_TIMEOUT_VALUE), AntSwOn];
    RadioOpsAppend([Listen(RX_TIMEOUT_VALUE)], [AntSwOn]);
    RadioOpsOfOne([], Listen(RX_TIMEOUT_VALUE));
    assert cmds == [Listen(RX_TIMEOUT_VALUE)] + [AntSwOn];
    cmds
  }

  // ---------------------------------------------------------------- callbacks

  /** `OnTxDone`: the radio is put to sleep and the transmission is marked done. */
  function OnTxDone(n: Node): (r: Reaction)
    ensures r.node.state == Tx
    ensures r.node.isMaster == n.isMaster && r.node.buffer == n.buffer && r.node.bufferSize == n.bufferSize
    ensures RadioOps(r.commands) == [] && LastSwitch(r.commands) == Unset
  {
    Reaction(n.(state := Tx), [RadioSleep])
  }

  /**
    `OnRxDone`: the radio is put to sleep, the payload is copied over the front
    of the buffer and its length becomes `BufferSize`. The radio never delivers
    more than `BUFFER_SIZE` bytes, because `main` limits the payload to that.
   */
  function OnRxDone(n: Node, payload: seq<uint8>): (r: Reaction)
    requires |payload| <= BUFFER_SIZE
    ensures r.node.state == Rx && r.node.isMaster == n.isMaster
    ensures r.node.bufferSize == |payload|
    ensures r.node.buffer[..|payload|] == payload
    ensures r.node.buffer[|payload|..] == n.buffer[|payload|..]
    ensures RadioOps(r.commands) == [] && LastSwitch(r.commands) == Unset
  {
    Reaction(Node(Rx, n.isMaster, CopyIn(n.buffer, payload), |payload|), [RadioSleep])
  }

  /** `OnTxTimeout`: the radio is put to sleep, the timeout is marked and the driver's error flags are cleared. */
  function OnTxTimeout(n: Node): (r: Reaction)
    ensures r.node.state == TxTimeout
    ensures r.node.isMaster == n.isMaster && r.node.buffer == n.buffer && r.node.bufferSize == n.bufferSize
    ensures RadioOps(r.commands) == [] && LastSwitch(r.commands) == Unset
    ensures ClearDeviceErrors in r.commands
  {
    Reaction(n.(state := TxTimeout), [RadioSleep, ClearDeviceErrors])
  }

  /** `OnRxTimeout`: the radio is put to sleep, the timeout is marked and the driver's error flags are cleared. */
  function OnRxTimeout(n: Node): (r: Reaction)
    ensures r.node.state == RxTimeout
    ensures r.node.isMaster == n.isMaster && r.node.buffer == n.buffer && r.node.bufferSize == n.bufferSize
    ensures RadioOps(r.commands) == [] && LastSwitch(r.commands) == Unset
    ensures ClearDeviceErrors in r.commands
  {
    Reaction(n.(state := RxTimeout), [RadioSleep, ClearDeviceErrors])
  }

  /** `OnRxError`: the radio is put to sleep and the error is marked; the driver's error flags are not cleared here. */
  function OnRxError(n: Node): (r: Reaction)
    ensures r.node.state == RxError
    ensures r.node.isMaster == n.isMaster && r.node.buffer == n.buffer && r.node.bufferSize == n.bufferSize
    ensures RadioOps(r.commands) == [] && LastSwitch(r.commands) == Unset
    ensures ClearDeviceErrors !in r.commands
  {
    Reaction(n.(state := RxError), [RadioSleep])
  }

  // ------------------------------------------------------- the reaction step

  /**
    A transmit branch: the buffer is prepared for `tag`, the switch is set for
    transmission and the first `BufferSize` bytes are sent. `delayFirst` places
    the settle delay before the switch instead of between switch and send.
   */
  function Transmit(n: Node, tag: Tag, delayFirst: bool): (r: Reaction)
    ensures r.node == n.(state := LowPower, buffer := Fill(n.buffer, tag, n.bufferSize))
    ensures RadioOps(r.commands) == [Send(Payload(r.node.buffer, n.bufferSize))]
    ensures SwitchedFor(r.commands)
  {
    var buf := Fill(n.buffer, tag, n.bufferSize);
    var frame := Payload(buf, n.bufferSize);
    var cmds :=
      if delayFirst then [DelayMs(SETTLE_MS), AntSwOff, Send(frame)]
      else [AntSwOff, DelayMs(SETTLE_MS), Send(frame)];
    assert LastSwitch(cmds[..2]) == SwOff;
    RadioOpsOfOne(cmds[..2], Send(frame));
    assert cmds == cmds[..2] + [Send(frame)];
    Reaction(n.(state := LowPower, buffer := buf), cmds)
  }

  /**
    A listen branch: the role becomes `isMaster`, the switch is set for
    reception and a bounded listen is started; `settle` adds the settle delay
    between switch and listen.
   */
  function StartListen(n: Node, isMaster: bool, settle: bool): (r: Reaction)
    ensures r.node == n.(state := LowPower, isMaster := isMaster)
    ensures RadioOps(r.commands) == [Listen(RX_TIMEOUT_VALUE)]
    ensures SwitchedFor(r.commands)
  {
    var cmds :=
      if settle then [AntSwOn, DelayMs(SETTLE_MS), Listen(RX_TIMEOUT_VALUE)]
      else [AntSwOn, Listen(RX_TIMEOUT_VALUE)];
    assert LastSwitch(cmds[..1]) == SwOn;
    assert settle ==> LastSwitch(cmds[..2]) == SwOn;
    RadioOpsOfOne(cmds[..|cmds| - 1], Listen(RX_TIMEOUT_VALUE));
    assert cmds == cmds[..|cmds| - 1] + [Listen(RX_TIMEOUT_VALUE)];
    Reaction(n.(state := LowPower, isMaster := isMaster), cmds)
  }

  /**
    One pass of the main loop's `switch (State)`: the pending state is
    consumed, at most one radio operation is issued, each with the antenna
    switch set for it, and the node parks in `LowPower`. A pass that finds
    `LowPower` does nothing. The reception length is never changed, and buffer
    bytes past both the tag and `BufferSize` are never written.
   */
  function Step(n: Node): (r: Reaction)
    ensures n.state == LowPower ==> r == Reaction(n, [])
    ensures r.node.state == LowPower
    ensures |RadioOps(r.commands)| <= 1
    ensures SwitchedFor(r.commands)
    ensures r.node.bufferSize == n.bufferSize
    ensures forall k :: TAG_LEN <= k < BUFFER_SIZE && n.bufferSize <= k ==> r.node.buffer[k] == n.buffer[k]
  {
    match n.state
    case Rx =>
      if n.isMaster then
        if n.bufferSize > 0 then
          if HasTag(n.buffer, Pong) then Transmit(n, Ping, true)
          else if HasTag(n.buffer, Ping) then StartListen(n, false, false)
          else StartListen(n, true, false)
        else Reaction(n.(state := LowPower), [])
      else
        if n.bufferSize > 0 then
          if HasTag(n.buffer, Ping) then Transmit(n, Pong, false)
          else StartListen(n, true, false)
        else Reaction(n.(state := LowPower), [])
    case Tx => StartListen(n, n.isMaster, true)
    case RxTimeout =>
      if n.isMaster then Transmit(n, Ping, false) else Transmit(n, Pong, false)
    case RxError =>
      if n.isMaster then Transmit(n, Ping, false) else StartListen(n, n.isMaster, true)
    case TxTimeout => StartListen(n, n.isMaster, true)
    case LowPower => Reaction(n, [])
  }
}
