/**
  Two nodes exchanging frames, abstractly: a frame one node sends is handed to
  the other's `OnRxDone`, and the other's next pass consumes it. Timing, loss
  and collisions on the air are not represented, and no claim is made that
  two nodes started together settle into one master and one slave.
 */
module Exchange {
  import opened Frame
  import opened Commands
  import opened PingPong
  import opened Reactions

  /** Whether a pass sends exactly this frame. */
  predicate Sends(r: Reaction, f: seq<uint8>) {
    RadioOps(r.commands) == [Send(f)]
  }

  /** A node whose pass sends a frame at least as long as a tag sends a well-formed frame of its own role. */
  lemma SentFrameIsWellFormed(a: Node, f: seq<uint8>)
    requires Sends(Step(a), f) && TAG_LEN <= |f|
    ensures WellFormed(f, RoleTag(a.isMaster))
    ensures |f| == a.bufferSize
  {
    SendCarriesRoleTag(a);
    SentFrameShape(a.buffer, RoleTag(a.isMaster), a.bufferSize);
  }

  /**
    A node that hears a full frame from a peer takes the role opposite to the
    sender's. It answers when the roles were already opposite, with a
    well-formed frame of its own role and of the same length, and listens
    otherwise.
   */
  lemma HearingTakesOppositeRole(a: Node, f: seq<uint8>, b: Node)
    requires Sends(Step(a), f) && TAG_LEN <= |f|
    ensures |f| <= BUFFER_SIZE
    ensures Step(OnRxDone(b, f).node).node.isMaster == !a.isMaster
    ensures a.isMaster != b.isMaster ==>
      exists g :: Sends(Step(OnRxDone(b, f).node), g) && WellFormed(g, RoleTag(b.isMaster)) && |g| == |f|
    ensures a.isMaster == b.isMaster ==> RadioOps(Step(OnRxDone(b, f).node).commands) == [Listen(RX_TIMEOUT_VALUE)]
  {
    SentFrameIsWellFormed(a, f);
    var b1 := OnRxDone(b, f).node;
    LongReceptionClassifies(b.buffer, f);
    WellFormedClassifies(f, RoleTag(a.isMaster));
    assert Classify(b1.buffer) == Tagged(RoleTag(a.isMaster));
    ReceptionFollowsTable(b1);
    if a.isMaster != b.isMaster {
      var g := RoleFrame(b1);
      assert Sends(Step(b1), g);
      SentFrameShape(b1.buffer, RoleTag(b1.isMaster), b1.bufferSize);
    }
  }

  /**
    The steady exchange: a master's "PING" is answered by a slave's "PONG" of
    the same length, and that "PONG" is answered by the master's next "PING" of
    the same length, with both roles unchanged.
   */
  lemma SteadyExchange(a: Node, f: seq<uint8>, b: Node)
    requires a.isMaster && !b.isMaster
    requires Sends(Step(a), f) && TAG_LEN <= |f|
    ensures |f| <= BUFFER_SIZE
    ensures var b1 := Step(OnRxDone(b, f).node);
      && !b1.node.isMaster
      && exists g :: Sends(b1, g) && WellFormed(g, Pong) && |g| == |f|
    ensures forall g :: Sends(Step(OnRxDone(b, f).node), g) ==>
      var a1 := Step(OnRxDone(Step(a).node, g).node);
      && a1.node.isMaster
      && exists h :: Sends(a1, h) && WellFormed(h, Ping) && |h| == |f|
  {
    HearingTakesOppositeRole(a, f, b);
    var b1 := Step(OnRxDone(b, f).node);
    SendCarriesRoleTag(a);
    forall g | Sends(b1, g)
      ensures var a1 := Step(OnRxDone(Step(a).node, g).node);
        && a1.node.isMaster
        && exists h :: Sends(a1, h) && WellFormed(h, Ping) && |h| == |f|
    {
      SentFrameIsWellFormed(OnRxDone(b, f).node, g);
      HearingTakesOppositeRole(OnRxDone(b, f).node, g, Step(a).node);
    }
  }

  /**
    The known race: when both nodes hold the same role and each hears the
    other's frame, both take the opposite role, so they again hold the same
    role. Two masters that hear each other's "PING" both become slaves; two
    slaves that hear each other's "PONG" both become masters.
   */
  lemma SameRolesSwapTogether(a: Node, fa: seq<uint8>, b: Node, fb: seq<uint8>)
    requires a.isMaster == b.isMaster
    requires Sends(Step(a), fa) && TAG_LEN <= |fa|
    requires Sends(Step(b), fb) && TAG_LEN <= |fb|
    ensures |fa| <= BUFFER_SIZE && |fb| <= BUFFER_SIZE
    ensures Step(OnRxDone(Step(a).node, fb).node).node.isMaster == !a.isMaster
    ensures Step(OnRxDone(Step(b).node, fa).node).node.isMaster == !a.isMaster
    ensures RadioOps(Step(OnRxDone(Step(a).node, fb).node).commands) == [Listen(RX_TIMEOUT_VALUE)]
    ensures RadioOps(Step(OnRxDone(Step(b).node, fa).node).commands) == [Listen(RX_TIMEOUT_VALUE)]
  {
    SendCarriesRoleTag(a);
    SendCarriesRoleTag(b);
    HearingTakesOppositeRole(b, fb, Step(a).node);
    HearingTakesOppositeRole(a, fa, Step(b).node);
  }
}
