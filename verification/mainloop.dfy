/**
  The main loop of `src/main.c` running against the radio.

  Each pass of `while (1)` runs the reaction step, then `Radio.IrqProcess()`,
  which delivers at most one event through a callback. The radio is a
  collaborator with one mode: the last operation started replaces any earlier
  one, and an event is raised only for the operation in progress (a send ends
  in `TxDone` or `TxTimeout`, a listen in `RxDone`, `RxTimeout` or `RxError`),
  after which the radio is idle until the next operation.
 */
module MainLoop {
  import opened Frame
  import opened Commands
  import opened PingPong
  import opened Reactions

  /** What `Radio.IrqProcess()` may deliver in one pass. */
  datatype Irq = NoIrq | TxDoneIrq | RxDoneIrq(payload: seq<uint8>) | TxTimeoutIrq | RxTimeoutIrq | RxErrorIrq

  /** The operation the radio is carrying out. */
  datatype Radio = Idle | Sending | Listening

  /** The node and the radio it drives. */
  datatype World = World(node: Node, radio: Radio)

  /** A world reached, with every command issued on the way, in order. */
  datatype Outcome = Outcome(world: World, trace: seq<Command>)

  /**
    Whether the radio in this mode raises this event. A reception is never
    longer than `BUFFER_SIZE`, because `main` sets that as the maximum payload.
   */
  function Raises(radio: Radio, irq: Irq): (raised: bool)
    ensures raised ==> irq != NoIrq && radio != Idle
    ensures raised ==> (radio == Sending <==> irq.TxDoneIrq? || irq.TxTimeoutIrq?)
    ensures raised && irq.RxDoneIrq? ==> |irq.payload| <= BUFFER_SIZE
  {
    match irq
    case NoIrq => false
    case TxDoneIrq => radio == Sending
    case TxTimeoutIrq => radio == Sending
    case RxDoneIrq(p) => radio == Listening && |p| <= BUFFER_SIZE
    case RxTimeoutIrq => radio == Listening
    case RxErrorIrq => radio == Listening
  }

  /** The radio's mode after a command list: the last operation started, or the mode it had. */
  function Issue(radio: Radio, cmds: seq<Command>): (r: Radio)
    ensures RadioOps(cmds) == [] ==> r == radio
    ensures var ops := RadioOps(cmds);
      ops != [] ==> (r == Sending <==> ops[|ops| - 1].Send?) && (r == Listening <==> ops[|ops| - 1].Listen?)
    decreases |cmds|
  {
    if |cmds| == 0 then radio
    else
      var last := cmds[|cmds| - 1];
      var before := cmds[..|cmds| - 1];
      assert cmds == before + [last];
      RadioOpsAppend(before, [last]);
      if last.Send? then
        RadioOpsOfOne([], last);
        assert [] + [last] == [last];
        Sending
      else if last.Listen? then
        RadioOpsOfOne([], last);
        assert [] + [last] == [last];
        Listening
      else
        assert RadioOps([last]) == [];
        Issue(radio, before)
  }

  /** The callback `RadioEvents` routes an event to. */
  function Dispatch(n: Node, irq: Irq): (r: Reaction)
    requires irq != NoIrq
    requires irq.RxDoneIrq? ==> |irq.payload| <= BUFFER_SIZE
    ensures RadioOps(r.commands) == [] && LastSwitch(r.commands) == Unset
    ensures r.node.isMaster == n.isMaster
  {
    match irq
    case TxDoneIrq => OnTxDone(n)
    case RxDoneIrq(p) => OnRxDone(n, p)
    case TxTimeoutIrq => OnTxTimeout(n)
    case RxTimeoutIrq => OnRxTimeout(n)
    case RxErrorIrq => OnRxError(n)
  }

  /** One pass of `while (1)`: the reaction step, then the event the radio raises, if any. */
  function Pass(w: World, irq: Irq): (o: Outcome)
    ensures SwitchedFor(o.trace)
    ensures |RadioOps(o.trace)| <= 1
  {
    var r := Step(w.node);
    var radio := Issue(w.radio, r.commands);
    if Raises(radio, irq) then
      var e := Dispatch(r.node, irq);
      assert SwitchedFor(e.commands);
      SwitchedForAppend(r.commands, e.commands);
      RadioOpsAppend(r.commands, e.commands);
      Outcome(World(e.node, Idle), r.commands + e.commands)
    else
      Outcome(World(r.node, radio), r.commands)
  }

  /** Successive passes, one per entry of `irqs`. */
  function Run(w: World, irqs: seq<Irq>): (o: Outcome)
    ensures |RadioOps(o.trace)| <= |irqs|
    decreases |irqs|
  {
    if |irqs| == 0 then Outcome(w, [])
    else
      var first := Pass(w, irqs[0]);
      var rest := Run(first.world, irqs[1..]);
      RadioOpsAppend(first.trace, rest.trace);
      Outcome(rest.world, first.trace + rest.trace)
  }

  /** The world when the loop is first entered: the power-on node, with the listen of start-up in progress. */
  function Boot(): (w: World)
    ensures w.node == PowerOn()
    ensures w.radio == Issue(Idle, BootCommands())
  {
    World(PowerOn(), Listening)
  }

  /** Every send and every listen of the loop, over any run, is issued with the antenna switch set for it. */
  lemma {:induction false} RunSwitchedFor(w: World, irqs: seq<Irq>)
    ensures SwitchedFor(Run(w, irqs).trace)
    decreases |irqs|
  {
    if |irqs| > 0 {
      var first := Pass(w, irqs[0]);
      RunSwitchedFor(first.world, irqs[1..]);
      SwitchedForAppend(first.trace, Run(first.world, irqs[1..]).trace);
    }
  }

  /** Start-up itself starts its listen before setting the switch for reception. */
  lemma BootListensBeforeSwitch()
    ensures !SwitchedFor(BootCommands())
  {
    var cmds := BootCommands();
    assert cmds[0].Listen? && LastSwitch(cmds[..0]) == Unset;
  }

  /**
    The first pass starts a send while the listen of start-up is still in
    progress, without any event in between.
   */
  lemma FirstPassOverridesBootListen(irq: Irq)
    ensures Boot().radio == Listening
    ensures RadioOps(Pass(Boot(), irq).trace) == [Send(Payload(Fill(PowerOn().buffer, Ping, BUFFER_SIZE), BUFFER_SIZE))]
  {
    FirstPassSendsPing();
    var r := Step(PowerOn());
    var o := Pass(Boot(), irq);
    if Raises(Issue(Listening, r.commands), irq) {
      RadioOpsAppend(r.commands, Dispatch(r.node, irq).commands);
    }
  }

  /**
    The invariant behind "no two sends in a row": while the last radio
    operation issued is a send, either that send is still in progress and no
    event is pending, or it has ended and its `TX`/`TX_TIMEOUT` awaits the step.
   */
  predicate AfterSend(w: World, lastWasSend: bool) {
    lastWasSend ==>
      || (w.radio == Sending && w.node.state == LowPower)
      || (w.radio == Idle && (w.node.state == Tx || w.node.state == TxTimeout))
  }

  /** Radio operations that hold no two sends in a row, and do not open with a send if one came just before. */
  predicate SeparatedAfter(ops: seq<Command>, lastWasSend: bool) {
    NoBackToBackSends(ops) && (lastWasSend ==> ops == [] || !ops[0].Send?)
  }

  /** Whether the last radio operation is a send, after `ops` follow a history whose last one was as given. */
  function LastWasSendAfter(ops: seq<Command>, lastWasSend: bool): bool {
    if ops == [] then lastWasSend else ops[|ops| - 1].Send?
  }

  /** One pass keeps the invariant and never issues a send right after a send. */
  lemma PassKeepsAfterSend(w: World, irq: Irq, lastWasSend: bool)
    requires AfterSend(w, lastWasSend)
    ensures SeparatedAfter(RadioOps(Pass(w, irq).trace), lastWasSend)
    ensures AfterSend(Pass(w, irq).world, LastWasSendAfter(RadioOps(Pass(w, irq).trace), lastWasSend))
  {
    var r := Step(w.node);
    var radio := Issue(w.radio, r.commands);
    var o := Pass(w, irq);
    var ops := RadioOps(r.commands);
    if Raises(radio, irq) {
      RadioOpsAppend(r.commands, Dispatch(r.node, irq).commands);
    }
    assert RadioOps(o.trace) == ops;
    if w.node.state == Tx || w.node.state == TxTimeout {
      TransmissionEndListens(w.node);
    }
    if ops != [] {
      RadioOpsIssue(w.radio, r.commands);
    }
  }

  /** The radio's mode after a command list holding one operation is that operation's mode. */
  lemma RadioOpsIssue(radio: Radio, cmds: seq<Command>)
    requires |RadioOps(cmds)| == 1
    ensures RadioOps(cmds)[0].Send? ==> Issue(radio, cmds) == Sending
    ensures RadioOps(cmds)[0].Listen? ==> Issue(radio, cmds) == Listening
    decreases |cmds|
  {
    var last := cmds[|cmds| - 1];
    var before := cmds[..|cmds| - 1];
    assert cmds == before + [last];
    RadioOpsAppend(before, [last]);
    if !last.IsRadioOp() {
      assert RadioOps([last]) == [];
      RadioOpsIssue(radio, before);
    } else {
      assert RadioOps([last]) == [last];
    }
  }

  /** Joining two separated stretches of radio operations. */
  lemma SeparatedAppend(a: seq<Command>, b: seq<Command>, lastWasSend: bool)
    requires SeparatedAfter(a, lastWasSend)
    requires SeparatedAfter(b, LastWasSendAfter(a, lastWasSend))
    ensures SeparatedAfter(a + b, lastWasSend)
    ensures LastWasSendAfter(a + b, lastWasSend) == LastWasSendAfter(b, LastWasSendAfter(a, lastWasSend))
  {
    NoBackToBackSendsAppend(a, b);
    if a != [] {
      assert (a + b)[0] == a[0];
    }
    if b != [] {
      assert (a + b)[|a + b| - 1] == b[|b| - 1];
    }
  }

  /** The invariant carries over a whole run, and the run's sends are separated by listens. */
  lemma {:induction false} RunKeepsAfterSend(w: World, irqs: seq<Irq>, lastWasSend: bool)
    requires AfterSend(w, lastWasSend)
    ensures SeparatedAfter(RadioOps(Run(w, irqs).trace), lastWasSend)
    decreases |irqs|
  {
    if |irqs| > 0 {
      var first := Pass(w, irqs[0]);
      var rest := Run(first.world, irqs[1..]);
      assert Run(w, irqs).trace == first.trace + rest.trace;
      PassKeepsAfterSend(w, irqs[0], lastWasSend);
      var ops1 := RadioOps(first.trace);
      RunKeepsAfterSend(first.world, irqs[1..], LastWasSendAfter(ops1, lastWasSend));
      RadioOpsAppend(first.trace, rest.trace);
      SeparatedAppend(ops1, RadioOps(rest.trace), lastWasSend);
    }
  }

  /**
    From power-on, over any sequence of events the radio can raise, the radio
    operations issued (the listen of start-up included) never hold two sends
    in a row: every send is followed by a listen before the next send.
   */
  lemma NoSendFollowsSend(irqs: seq<Irq>)
    ensures NoBackToBackSends(RadioOps(BootCommands() + Run(Boot(), irqs).trace))
  {
    var boot := [Listen(RX_TIMEOUT_VALUE)];
    RunKeepsAfterSend(Boot(), irqs, LastWasSendAfter(boot, false));
    RadioOpsAppend(BootCommands(), Run(Boot(), irqs).trace);
    SeparatedAppend(boot, RadioOps(Run(Boot(), irqs).trace), false);
  }

  /** A parked node whose radio is idle stays so: no pass issues anything again. */
  lemma {:induction false} ParkedStaysParked(n: Node, irqs: seq<Irq>)
    requires n.state == LowPower
    ensures Run(World(n, Idle), irqs) == Outcome(World(n, Idle), [])
    decreases |irqs|
  {
    if |irqs| > 0 {
      assert Pass(World(n, Idle), irqs[0]) == Outcome(World(n, Idle), []);
      ParkedStaysParked(n, irqs[1..]);
    }
  }

  /**
    An empty reception stalls the node for good: the pass that consumes it
    issues nothing, the radio is idle, and no later pass issues anything.
   */
  lemma EmptyReceptionStalls(n: Node, irqs: seq<Irq>)
    requires n.state == Rx && n.bufferSize == 0
    ensures Run(World(n, Idle), irqs).trace == []
  {
    if |irqs| > 0 {
      EmptyReceptionIssuesNothing(n);
      assert Pass(World(n, Idle), irqs[0]) == Outcome(World(n.(state := LowPower), Idle), []);
      ParkedStaysParked(n.(state := LowPower), irqs[1..]);
    }
  }
}
