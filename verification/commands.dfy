/**
  The side effects of the main loop and the radio callbacks, recorded as a list
  of commands instead of being performed: antenna-switch control, the settle
  delay, the two radio operations (send and listen) and the opaque driver calls.
 */
module Commands {
  import opened Frame

  datatype Command =
    | AntSwOn              // `SX126xAntSwOn()`: the switch set for reception
    | AntSwOff             // `SX126xAntSwOff()`: the switch set for transmission
    | DelayMs(ms: nat)     // `DelayMs(ms)`
    | Send(frame: seq<uint8>)  // `Radio.Send(Buffer, BufferSize)`, carrying the bytes sent
    | Listen(timeoutMs: nat)   // `Radio.Rx(timeout)`
    | RadioSleep           // `Radio.Sleep()`
    | ClearDeviceErrors    // `SX126xClearDeviceErrors()`
  {
    /** A command that starts a radio operation, whose outcome the radio later reports by an event. */
    predicate IsRadioOp() {
      Send? || Listen?
    }

    /** A command that sets the antenna switch. */
    predicate IsSwitch() {
      AntSwOn? || AntSwOff?
    }
  }

  /** The antenna switch position a command list leaves behind. */
  datatype Switch = Unset | SwOn | SwOff

  /** The position set by the last switch command in `cmds`, or `Unset` if there is none. */
  function LastSwitch(cmds: seq<Command>): (s: Switch)
    ensures s == Unset <==> forall k :: 0 <= k < |cmds| ==> !cmds[k].IsSwitch()
    ensures s == SwOn ==> exists k :: 0 <= k < |cmds| && cmds[k] == AntSwOn
    ensures s == SwOff ==> exists k :: 0 <= k < |cmds| && cmds[k] == AntSwOff
    decreases |cmds|
  {
    if |cmds| == 0 then Unset
    else
      var last := cmds[|cmds| - 1];
      if last == AntSwOn then SwOn
      else if last == AntSwOff then SwOff
      else
        var s := LastSwitch(cmds[..|cmds| - 1]);
        assert forall k :: 0 <= k < |cmds| - 1 ==> cmds[..|cmds| - 1][k] == cmds[k];
        s
  }

  /**
    Every send is issued with the switch last set for transmission, and every
    listen with the switch last set for reception, by commands of the same list.
   */
  predicate SwitchedFor(cmds: seq<Command>) {
    forall k :: 0 <= k < |cmds| ==>
      && (cmds[k].Send? ==> LastSwitch(cmds[..k]) == SwOff)
      && (cmds[k].Listen? ==> LastSwitch(cmds[..k]) == SwOn)
  }

  /** A switch command at the end of a list overrides whatever came before it. */
  lemma {:induction false} LastSwitchAppend(a: seq<Command>, b: seq<Command>)
    ensures LastSwitch(a + b) == if LastSwitch(b) == Unset then LastSwitch(a) else LastSwitch(b)
    decreases |b|
  {
    if |b| == 0 {
      assert a + b == a;
    } else {
      var ab := a + b;
      assert ab[|ab| - 1] == b[|b| - 1];
      assert ab[..|ab| - 1] == a + b[..|b| - 1];
      LastSwitchAppend(a, b[..|b| - 1]);
    }
  }

  /** Two correctly switched command lists stay correctly switched when concatenated. */
  lemma SwitchedForAppend(a: seq<Command>, b: seq<Command>)
    requires SwitchedFor(a) && SwitchedFor(b)
    ensures SwitchedFor(a + b)
  {
    var ab := a + b;
    forall k | 0 <= k < |ab| && ab[k].IsRadioOp()
      ensures ab[k].Send? ==> LastSwitch(ab[..k]) == SwOff
      ensures ab[k].Listen? ==> LastSwitch(ab[..k]) == SwOn
    {
      if k < |a| {
        assert ab[k] == a[k] && ab[..k] == a[..k];
      } else {
        var j := k - |a|;
        assert ab[k] == b[j];
        assert ab[..k] == a + b[..j];
        LastSwitchAppend(a, b[..j]);
      }
    }
  }

  /** Every radio operation comes directly after a delay, the settle time of the antenna switch. */
  predicate Settled(cmds: seq<Command>) {
    forall k :: 0 <= k < |cmds| && cmds[k].IsRadioOp() ==> 0 < k && cmds[k - 1].DelayMs?
  }

  /** The radio operations of a command list, in order. */
  function RadioOps(cmds: seq<Command>): (ops: seq<Command>)
    ensures |ops| <= |cmds|
    ensures forall k :: 0 <= k < |ops| ==> ops[k].IsRadioOp()
    ensures (forall k :: 0 <= k < |cmds| ==> !cmds[k].IsRadioOp()) ==> ops == []
    decreases |cmds|
  {
    if |cmds| == 0 then []
    else if cmds[0].IsRadioOp() then [cmds[0]] + RadioOps(cmds[1..])
    else RadioOps(cmds[1..])
  }

  /** Collecting radio operations distributes over concatenation. */
  lemma {:induction false} RadioOpsAppend(a: seq<Command>, b: seq<Command>)
    ensures RadioOps(a + b) == RadioOps(a) + RadioOps(b)
    decreases |a|
  {
    if |a| == 0 {
      assert a + b == b;
    } else {
      assert (a + b)[0] == a[0];
      assert (a + b)[1..] == a[1..] + b;
      RadioOpsAppend(a[1..], b);
    }
  }

  /** A list of non-radio commands followed by one radio operation holds exactly that operation. */
  lemma RadioOpsOfOne(pre: seq<Command>, op: Command)
    requires forall k :: 0 <= k < |pre| ==> !pre[k].IsRadioOp()
    requires op.IsRadioOp()
    ensures RadioOps(pre + [op]) == [op]
  {
    RadioOpsAppend(pre, [op]);
    assert [op][1..] == [];
  }

  /** No send directly follows another send: a listen always comes between. */
  predicate NoBackToBackSends(ops: seq<Command>) {
    forall k :: 0 <= k < |ops| - 1 ==> !(ops[k].Send? && ops[k + 1].Send?)
  }

  /** Whether the last radio operation of a list is a send. */
  predicate EndsWithSend(ops: seq<Command>) {
    |ops| > 0 && ops[|ops| - 1].Send?
  }

  /** Two send-separated lists stay separated when joined, unless a send meets a send at the seam. */
  lemma NoBackToBackSendsAppend(a: seq<Command>, b: seq<Command>)
    requires NoBackToBackSends(a) && NoBackToBackSends(b)
    requires EndsWithSend(a) ==> |b| == 0 || !b[0].Send?
    ensures NoBackToBackSends(a + b)
    ensures EndsWithSend(a + b) <==> (if |b| == 0 then EndsWithSend(a) else EndsWithSend(b))
  {
    var ab := a + b;
    forall k | 0 <= k < |ab| - 1
      ensures !(ab[k].Send? && ab[k + 1].Send?)
    {
      if k + 1 < |a| {
        assert ab[k] == a[k] && ab[k + 1] == a[k + 1];
      } else if k + 1 == |a| {
        assert ab[k] == a[|a| - 1] && ab[k + 1] == b[0];
      } else {
        assert ab[k] == b[k - |a|] && ab[k + 1] == b[k - |a| + 1];
      }
    }
  }
}
