/**
  What one pass of the main loop does in each branch of `switch (State)`:
  which role the node ends with and which radio operation it issues. Each
  lemma is stated in terms of the buffer's leading bytes rather than the
  `strncmp` calls that decide the branch.
 */
module Reactions {
  import opened Frame
  import opened Commands
  import opened PingPong

  /** The transmission a node of this role makes from this buffer: its role's tag, then the filler, `BufferSize` bytes long. */
  function RoleFrame(n: Node): (f: seq<uint8>)
    ensures |f| == n.bufferSize
  {
    Payload(Fill(n.buffer, RoleTag(n.isMaster), n.bufferSize), n.bufferSize)
  }

  /**
    A master that receives "PONG" answers with a "PING" frame of the received
    length and stays master. It waits the settle time before setting the
    switch for transmission, not between switch and send.
   */
  lemma MasterHearsPong(n: Node)
    requires n.state == Rx && n.isMaster && n.bufferSize > 0
    requires n.buffer[..TAG_LEN] == Pong.Bytes()
    ensures Step(n).node.isMaster
    ensures Step(n).node.buffer == Fill(n.buffer, Ping, n.bufferSize)
    ensures RadioOps(Step(n).commands) == [Send(RoleFrame(n))]
    ensures Step(n).commands == [DelayMs(SETTLE_MS), AntSwOff, Send(RoleFrame(n))]
  {
  }

  /** A master that receives "PING" learns that another master exists: it becomes slave and listens, without a settle delay. */
  lemma MasterHearsPing(n: Node)
    requires n.state == Rx && n.isMaster && n.bufferSize > 0
    requires n.buffer[..TAG_LEN] == Ping.Bytes()
    ensures !Step(n).node.isMaster
    ensures Step(n).node.buffer == n.buffer
    ensures RadioOps(Step(n).commands) == [Listen(RX_TIMEOUT_VALUE)]
    ensures Step(n).commands == [AntSwOn, Listen(RX_TIMEOUT_VALUE)]
  {
    TagsDistinct();
  }

  /** A master that receives neither tag stays master and listens again, without a settle delay. */
  lemma MasterHearsOther(n: Node)
    requires n.state == Rx && n.isMaster && n.bufferSize > 0
    requires n.buffer[..TAG_LEN] != Ping.Bytes() && n.buffer[..TAG_LEN] != Pong.Bytes()
    ensures Step(n).node.isMaster
    ensures Step(n).node.buffer == n.buffer
    ensures RadioOps(Step(n).commands) == [Listen(RX_TIMEOUT_VALUE)]
    ensures Step(n).commands == [AntSwOn, Listen(RX_TIMEOUT_VALUE)]
  {
  }

  /** A slave that receives "PING" answers with a "PONG" frame of the received length, waiting between switch and send, and stays slave. */
  lemma SlaveHearsPing(n: Node)
    requires n.state == Rx && !n.isMaster && n.bufferSize > 0
    requires n.buffer[..TAG_LEN] == Ping.Bytes()
    ensures !Step(n).node.isMaster
    ensures Step(n).node.buffer == Fill(n.buffer, Pong, n.bufferSize)
    ensures RadioOps(Step(n).commands) == [Send(RoleFrame(n))]
    ensures Step(n).commands == [AntSwOff, DelayMs(SETTLE_MS), Send(RoleFrame(n))]
  {
  }

  /** A slave that receives anything but "PING", "PONG" included, takes the master role back and listens, without a settle delay. */
  lemma SlaveHearsOther(n: Node)
    requires n.state == Rx && !n.isMaster && n.bufferSize > 0
    requires n.buffer[..TAG_LEN] != Ping.Bytes()
    ensures Step(n).node.isMaster
    ensures Step(n).node.buffer == n.buffer
    ensures RadioOps(Step(n).commands) == [Listen(RX_TIMEOUT_VALUE)]
    ensures Step(n).commands == [AntSwOn, Listen(RX_TIMEOUT_VALUE)]
  {
  }

  /**
    A non-empty reception in either role. Afterwards the node is master exactly
    when the frame is not "PING", whatever its role was before. It answers
    exactly when the frame carries the tag its role expects ("PONG" for a
    master, "PING" for a slave), with its own role's tag; otherwise it listens.
   */
  lemma ReceptionFollowsTable(n: Node)
    requires n.state == Rx && n.bufferSize > 0
    ensures Step(n).node.isMaster <==> Classify(n.buffer) != Tagged(Ping)
    ensures Classify(n.buffer) == Tagged(RoleTag(!n.isMaster)) ==> RadioOps(Step(n).commands) == [Send(RoleFrame(n))]
    ensures Classify(n.buffer) != Tagged(RoleTag(!n.isMaster)) ==> RadioOps(Step(n).commands) == [Listen(RX_TIMEOUT_VALUE)]
  {
    var c := Classify(n.buffer);
    if n.isMaster {
      if c == Tagged(Pong) { MasterHearsPong(n); }
      else if c == Tagged(Ping) { MasterHearsPing(n); }
      else { MasterHearsOther(n); }
    } else {
      if c == Tagged(Ping) { SlaveHearsPing(n); }
      else { SlaveHearsOther(n); }
    }
  }

  /**
    An empty reception is consumed without any command: no send and no
    listen, so nothing is left outstanding on the radio.
   */
  lemma EmptyReceptionIssuesNothing(n: Node)
    requires n.state == Rx && n.bufferSize == 0
    ensures Step(n) == Reaction(n.(state := LowPower), [])
  {
  }

  /** A receive timeout always transmits once, with the node's own role tag, and keeps the role. */
  lemma RxTimeoutTransmits(n: Node)
    requires n.state == RxTimeout
    ensures Step(n).node.isMaster == n.isMaster
    ensures RadioOps(Step(n).commands) == [Send(RoleFrame(n))]
    ensures Step(n).node.buffer == Fill(n.buffer, RoleTag(n.isMaster), n.bufferSize)
  {
  }

  /**
    A receive error: a master transmits "PING", a slave listens, and neither
    changes its role; in particular a slave does not take the master role back.
   */
  lemma RxErrorReaction(n: Node)
    requires n.state == RxError
    ensures Step(n).node.isMaster == n.isMaster
    ensures n.isMaster ==> RadioOps(Step(n).commands) == [Send(RoleFrame(n))]
    ensures !n.isMaster ==> RadioOps(Step(n).commands) == [Listen(RX_TIMEOUT_VALUE)]
  {
  }

  /**
    For a master, receive errors cause no drift: a receive error after the
    reaction to one repeats exactly the same commands and reaches the same node.
   */
  lemma RxErrorRepeats(n: Node)
    requires n.state == RxError && n.isMaster
    ensures Step(OnRxError(Step(n).node).node) == Step(n)
  {
    FillIdempotent(n.buffer, Ping, n.bufferSize);
  }

  /** After a transmission ends, by completion or by timeout, the node only listens and keeps its role. */
  lemma TransmissionEndListens(n: Node)
    requires n.state == Tx || n.state == TxTimeout
    ensures Step(n).node == n.(state := LowPower)
    ensures RadioOps(Step(n).commands) == [Listen(RX_TIMEOUT_VALUE)]
  {
  }

  /**
    A transmission carries the sender's own role tag, and transmitting never
    changes the role: every send any pass issues is the node's role frame.
   */
  lemma SendCarriesRoleTag(n: Node)
    requires |RadioOps(Step(n).commands)| == 1 && RadioOps(Step(n).commands)[0].Send?
    ensures RadioOps(Step(n).commands) == [Send(RoleFrame(n))]
    ensures Step(n).node.isMaster == n.isMaster
  {
    if n.state == Rx {
      ReceptionFollowsTable(n);
    }
  }

  /** The first pass after power-on transmits a full-size "PING" frame: the tag, then the bytes 0 to 59. */
  lemma FirstPassSendsPing()
    ensures RadioOps(Step(PowerOn()).commands) == [Send(Payload(Fill(PowerOn().buffer, Ping, BUFFER_SIZE), BUFFER_SIZE))]
    ensures Step(PowerOn()).node.isMaster
  {
  }

  /**
    Where the settle delay sits: every pass that issues a radio operation puts
    a delay directly before it, except the passes that consume a non-empty
    reception, where only a slave answering "PING" does so.
   */
  lemma SettleDelayPlacement(n: Node)
    ensures Settled(Step(n).commands) <==>
      (n.state != Rx || n.bufferSize == 0 || (!n.isMaster && Classify(n.buffer) == Tagged(Ping)))
  {
    var cmds := Step(n).commands;
    if n.state == Rx && n.bufferSize > 0 {
      ReceptionFollowsTable(n);
      if !n.isMaster && Classify(n.buffer) == Tagged(Ping) {
        assert Settled(cmds);
      } else {
        assert cmds[|cmds| - 1].IsRadioOp() && !cmds[|cmds| - 2].DelayMs?;
      }
    }
  }
}
