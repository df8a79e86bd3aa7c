/** In a fair execution pumps keep moving, and an end of stream ends the session. */
module Progress {
  import opened Forwarding
  import opened Session
  import opened Teardown

  predicate Copying(pc: Pc)
  {
    pc.Reading? || pc.Writing?
  }

  function Src(s: State, d: Dir): Conn
  {
    ConnOf(s, SrcSide(d))
  }

  function Dst(s: State, d: Dir): Conn
  {
    ConnOf(s, DstSide(d))
  }

  // ------------------------------------------------- open until a pump leaves

  predicate OpenWhileCopying(s: State)
  {
    Copying(s.toServer) && Copying(s.toClient) ==> s.client.open && s.upstream.open
  }

  /** A pump that has left stays away. */
  lemma LeftForGood(cfg: Config, s: State, step: Step, d: Dir)
    requires Enabled(cfg, s, step)
    ensures Copying(PcOf(Apply(cfg, s, step), d)) ==> Copying(PcOf(s, d))
  {
    hide Need, AfterRead;
  }

  /** Only a pump on its way out and the handler close anything. */
  lemma OthersCloseNothing(cfg: Config, s: State, step: Step)
    requires Enabled(cfg, s, step) && !step.Leave? && !step.Handle?
    ensures var s' := Apply(cfg, s, step); s'.client.open == s.client.open && s'.upstream.open == s.upstream.open
  {
    hide Need, AfterRead;
  }

  lemma CloserIsNotCopying(cfg: Config, s: State, step: Step)
    requires Orderly(s) && Enabled(cfg, s, step) && (step.Leave? || step.Handle?)
    ensures var s' := Apply(cfg, s, step); !Copying(s'.toServer) || !Copying(s'.toClient)
  {
    hide ClosedBehind;
  }

  lemma OpenStep(cfg: Config, s: State, step: Step)
    requires Orderly(s) && OpenWhileCopying(s) && Enabled(cfg, s, step)
    ensures OpenWhileCopying(Apply(cfg, s, step))
  {
    hide Enabled, Apply, Orderly;
    if step.Leave? || step.Handle? {
      CloserIsNotCopying(cfg, s, step);
    } else {
      OthersCloseNothing(cfg, s, step);
      LeftForGood(cfg, s, step, ToServer);
      LeftForGood(cfg, s, step, ToClient);
    }
  }

  lemma {:induction false} OpenAlways(cfg: Config, b: Behaviour, i: nat)
    requires IsBehaviour(cfg, b)
    ensures OpenWhileCopying(b.states(i))
  {
    hide Apply, Enabled, OpenWhileCopying, FaithfulDir, Orderly;
    if i == 0 {
      OpenAtStart();
    } else {
      OpenAlways(cfg, b, i - 1);
      InvAlways(cfg, b, i - 1);
      assert Enabled(cfg, b.states(i - 1), b.steps(i - 1));
      assert b.states((i - 1) + 1) == Apply(cfg, b.states(i - 1), b.steps(i - 1));
      OpenStep(cfg, b.states(i - 1), b.steps(i - 1));
    }
  }

  lemma OpenAtStart()
    ensures OpenWhileCopying(INIT)
  {
  }

  // ------------------------------------------------------ what others can do

  /** From `s` to `t` the pump has not moved, and the others have only helped it. */
  ghost predicate Still(s: State, t: State, d: Dir)
  {
    && PcOf(t, d) == PcOf(s, d)
    && Src(t, d).taken == Src(s, d).taken
    && Src(s, d).arrived <= Src(t, d).arrived
    && (Src(s, d).ended ==> Src(t, d).ended && Src(t, d).arrived == Src(s, d).arrived)
    && Dst(t, d).written == Dst(s, d).written
    && Dst(s, d).received <= Dst(t, d).received
  }

  lemma StillStep(cfg: Config, s: State, step: Step, d: Dir)
    requires Enabled(cfg, s, step) && ActorOf(step) != Pump(d)
    ensures Still(s, Apply(cfg, s, step), d)
  {
    hide Need, AfterRead;
  }

  /** Between two moments a pump stands still, or there is a first step that it takes. */
  lemma {:induction false} StillOrMoves(cfg: Config, b: Behaviour, d: Dir, i: nat, j: nat) returns (k: nat)
    requires IsBehaviour(cfg, b) && i <= j
    ensures i <= k <= j && Still(b.states(i), b.states(k), d)
    ensures k == j || ActorOf(b.steps(k)) == Pump(d)
    decreases j - i
  {
    hide Apply, Enabled;
    if i == j || ActorOf(b.steps(i)) == Pump(d) {
      k := i;
    } else {
      assert Enabled(cfg, b.states(i), b.steps(i)) && b.states(i + 1) == Apply(cfg, b.states(i), b.steps(i));
      StillStep(cfg, b.states(i), b.steps(i), d);
      k := StillOrMoves(cfg, b, d, i + 1, j);
    }
  }

  lemma ConnGrows(cfg: Config, s: State, step: Step, side: Side)
    requires Enabled(cfg, s, step)
    ensures var c, c' := ConnOf(s, side), ConnOf(Apply(cfg, s, step), side);
            c.written <= c'.written && c.received <= c'.received && c.arrived <= c'.arrived
  {
    hide Need, AfterRead;
  }

  lemma {:induction false} ConnAlwaysGrows(cfg: Config, b: Behaviour, side: Side, i: nat, j: nat)
    requires IsBehaviour(cfg, b) && i <= j
    ensures var c, c' := ConnOf(b.states(i), side), ConnOf(b.states(j), side);
            c.written <= c'.written && c.received <= c'.received && c.arrived <= c'.arrived
    decreases j - i
  {
    hide Apply, Enabled;
    if i < j {
      assert Enabled(cfg, b.states(i), b.steps(i)) && b.states(i + 1) == Apply(cfg, b.states(i), b.steps(i));
      ConnGrows(cfg, b.states(i), b.steps(i), side);
      ConnAlwaysGrows(cfg, b, side, i + 1, j);
    }
  }

  /** A peer that has bytes waiting for it will receive some. */
  ghost predicate KeepsReceiving(b: Behaviour, side: Side)
  {
    forall i: nat :: ReceivesAfter(b, side, i)
  }

  ghost predicate ReceivesAfter(b: Behaviour, side: Side, i: nat)
  {
    ConnOf(b.states(i), side).received < |ConnOf(b.states(i), side).written| ==>
      exists j: nat :: j >= i && ConnOf(b.states(j), side).received > ConnOf(b.states(i), side).received
  }

  /** Whatever has been written reaches such a peer. */
  lemma {:induction false} Drains(cfg: Config, b: Behaviour, side: Side, i: nat, n: nat) returns (j: nat)
    requires IsBehaviour(cfg, b) && KeepsReceiving(b, side)
    requires n <= |ConnOf(b.states(i), side).written|
    ensures j >= i && ConnOf(b.states(j), side).received >= n
    decreases n - ConnOf(b.states(i), side).received
  {
    hide IsBehaviour;
    if ConnOf(b.states(i), side).received >= n {
      j := i;
    } else {
      assert ReceivesAfter(b, side, i);
      var m: nat :| m >= i && ConnOf(b.states(m), side).received > ConnOf(b.states(i), side).received;
      ConnAlwaysGrows(cfg, b, side, i, m);
      j := Drains(cfg, b, side, m, n);
    }
  }

  // ------------------------------------------------------------ a pump moves

  /** The pump waits for nothing, or only for room in the send buffer. */
  predicate Ready(s: State, d: Dir)
  {
    match PcOf(s, d)
    case Reading(acc) => Need(acc) == 0 || Src(s, d).taken < |Src(s, d).arrived| || Src(s, d).ended
    case Writing(_) => true
    case _ => false
  }

  predicate HasRoom(cfg: Config, s: State, d: Dir)
  {
    PcOf(s, d).Writing? ==> |Dst(s, d).written| < Dst(s, d).received + cfg.capacity
  }

  lemma ReadyCan(cfg: Config, s: State, d: Dir)
    requires FaithfulDir(cfg, s, d) && Ready(s, d) && HasRoom(cfg, s, d)
    ensures CanStep(cfg, s, Pump(d))
  {
    hide Need, Clean, Forwarded, AccOk;
    var pc, src, dst := PcOf(s, d), Src(s, d), Dst(s, d);
    var step :=
      if pc.Writing? then (if dst.open then WriteSome(d, 1) else WriteFails(d))
      else if Need(pc.acc) == 0 then Process(d)
      else if src.open && src.taken < |src.arrived| then ReadSome(d, 1)
      else ReadFails(d);
    assert ActorOf(step) == Pump(d) && Enabled(cfg, s, step);
  }

  lemma ReadyStays(cfg: Config, s: State, t: State, d: Dir)
    requires Still(s, t, d) && Ready(s, d)
    ensures Ready(t, d)
    ensures HasRoom(cfg, s, d) ==> HasRoom(cfg, t, d)
  {
    hide Need;
  }

  /** A pump that is ready moves, as long as its peer keeps receiving. */
  lemma PumpMoves(cfg: Config, b: Behaviour, d: Dir, i: nat) returns (k: nat)
    requires IsBehaviour(cfg, b) && Fair(cfg, b, Pump(d)) && KeepsReceiving(b, DstSide(d)) && cfg.capacity > 0
    requires Ready(b.states(i), d)
    ensures k >= i && ActorOf(b.steps(k)) == Pump(d) && Still(b.states(i), b.states(k), d)
  {
    hide IsBehaviour, KeepsReceiving, Ready, CanStep;
    var j := Drains(cfg, b, DstSide(d), i, |Dst(b.states(i), d).written|);
    k := StillOrMoves(cfg, b, d, i, j);
    if ActorOf(b.steps(k)) != Pump(d) {
      assert HasRoom(cfg, b.states(j), d);
      ReadyStays(cfg, b.states(i), b.states(j), d);
      assert ServedAfter(cfg, b, Pump(d), j);
      var m: nat :| m >= j && ServedAt(cfg, b, Pump(d), m);
      k := StillOrMoves(cfg, b, d, j, m);
      ReadyStays(cfg, b.states(j), b.states(k), d);
      InvAlways(cfg, b, k);
      ReadyCan(cfg, b.states(k), d);
    }
  }

  // ------------------------------------------------------- a pump gets ahead

  /** Bytes of the first `n` that the pump has not read yet. */
  function Missing(s: State, d: Dir, n: nat): nat
  {
    if Src(s, d).taken < n then n - Src(s, d).taken else 0
  }

  function Phase(s: State, d: Dir): nat
  {
    match PcOf(s, d)
    case Reading(acc) => if Need(acc) == 0 then 2 else 0
    case Writing(_) => 1
    case _ => 0
  }

  function Unwritten(s: State, d: Dir): nat
  {
    if PcOf(s, d).Writing? then |PcOf(s, d).buf| else 0
  }

  /** `t` is nearer than `s` to having read `n` bytes and written what they amount to. */
  predicate Ahead(t: State, s: State, d: Dir, n: nat)
  {
    || Missing(t, d, n) < Missing(s, d, n)
    || (Missing(t, d, n) == Missing(s, d, n) && Phase(t, d) < Phase(s, d))
    || (Missing(t, d, n) == Missing(s, d, n) && Phase(t, d) == Phase(s, d) && Unwritten(t, d) < Unwritten(s, d))
  }

  lemma OwnStepAdvances(cfg: Config, s: State, step: Step, d: Dir, n: nat)
    requires Enabled(cfg, s, step) && ActorOf(step) == Pump(d) && Copying(PcOf(s, d))
    requires step.ReadSome? ==> Src(s, d).taken < n
    ensures var s' := Apply(cfg, s, step);
            && Src(s', d).arrived == Src(s, d).arrived && Src(s', d).ended == Src(s, d).ended
            && (!Copying(PcOf(s', d)) || Ahead(s', s, d, n))
  {
    hide Need, AfterRead;
    assert Need([]) > 0 by { NeedsLength(); }
  }

  lemma NeedsLength()
    ensures Need([]) == 4
  {
  }

  lemma StillIsNoFurther(s: State, t: State, d: Dir, n: nat)
    requires Still(s, t, d)
    ensures Missing(t, d, n) == Missing(s, d, n) && Phase(t, d) == Phase(s, d) && Unwritten(t, d) == Unwritten(s, d)
  {
    hide Need;
  }

  // -------------------------------------------------------- the end of a stream

  /** A pump whose source has ended comes to that end. */
  lemma {:induction false} EndStopsPump(cfg: Config, b: Behaviour, d: Dir, i: nat, n: nat) returns (k: nat)
    requires IsBehaviour(cfg, b) && Fair(cfg, b, Pump(d)) && KeepsReceiving(b, DstSide(d)) && cfg.capacity > 0
    requires Src(b.states(i), d).ended && n == |Src(b.states(i), d).arrived|
    ensures k >= i && !Copying(PcOf(b.states(k), d))
    decreases Missing(b.states(i), d, n), Phase(b.states(i), d), Unwritten(b.states(i), d)
  {
    hide KeepsReceiving, Fair, Missing, Phase, Unwritten, Apply;
    if !Copying(PcOf(b.states(i), d)) {
      k := i;
    } else {
      k := PumpMoves(cfg, b, d, i);
      assert Enabled(cfg, b.states(k), b.steps(k)) && b.states(k + 1) == Apply(cfg, b.states(k), b.steps(k));
      StillIsNoFurther(b.states(i), b.states(k), d, n);
      OwnStepAdvances(cfg, b.states(k), b.steps(k), d, n);
      k := k + 1;
      if Copying(PcOf(b.states(k), d)) {
        k := EndStopsPump(cfg, b, d, k, n);
      }
    }
  }

  /**
   * When either side ends its stream, the session ends: in every fair execution in which the
   * other side keeps receiving, handleConnection returns with both connections closed.
   */
  lemma EndLeadsToReturn(cfg: Config, b: Behaviour, d: Dir, i: nat) returns (k: nat)
    requires IsBehaviour(cfg, b) && cfg.capacity > 0
    requires Fair(cfg, b, Pump(ToServer)) && Fair(cfg, b, Pump(ToClient)) && Fair(cfg, b, Main)
    requires Src(b.states(i), d).ended && KeepsReceiving(b, DstSide(d))
    ensures k >= i && b.states(k).handler.Returned?
    ensures BothClosed(b.states(k)) && b.states(k).wg == 0
    ensures b.states(k).toServer.Done? && b.states(k).toClient.Done?
  {
    hide IsBehaviour, Fair, KeepsReceiving;
    var j := EndStopsPump(cfg, b, d, i, |Src(b.states(i), d).arrived|);
    k := FailureLeadsToReturn(cfg, b, d, j);
  }
}
