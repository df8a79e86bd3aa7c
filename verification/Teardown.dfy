/** Once one pump has failed, the connection comes down: bounded work, no deadlock. */
module Teardown {
  import opened Session

  // ------------------------------------------------------- bounded work

  /** How many steps a pump has left once both connections are closed. */
  function PcRank(pc: Pc): nat
  {
    match pc
    case Reading(_) => 5
    case Writing(_) => 4
    case CloseClient => 3
    case CloseUpstream => 2
    case SignalDone => 1
    case Done => 0
  }

  function HandlerRank(h: Handler): nat
  {
    match h
    case Waiting => 3
    case DeferUpstream => 2
    case DeferClient => 1
    case Returned => 0
  }

  function Rank(s: State, a: Actor): nat
  {
    match a
    case Pump(d) => PcRank(PcOf(s, d))
    case Main => HandlerRank(s.handler)
    case Peers => 0
  }

  function TotalRank(s: State): nat
  {
    PcRank(s.toServer) + PcRank(s.toClient) + HandlerRank(s.handler)
  }

  predicate BothClosed(s: State)
  {
    !s.client.open && !s.upstream.open
  }

  predicate Leaving(pc: Pc)
  {
    pc.CloseClient? || pc.CloseUpstream? || pc.SignalDone?
  }

  /** Nothing can keep this actor from taking its next step. */
  predicate MustMove(s: State, a: Actor)
  {
    match a
    case Pump(d) => Leaving(PcOf(s, d)) || (BothClosed(s) && !PcOf(s, d).Done?)
    case Main => s.wg == 0 && !s.handler.Returned?
    case Peers => false
  }

  ghost predicate CanStep(cfg: Config, s: State, a: Actor)
  {
    exists step :: ActorOf(step) == a && Enabled(cfg, s, step)
  }

  lemma MustMoveCan(cfg: Config, s: State, a: Actor)
    requires MustMove(s, a)
    ensures CanStep(cfg, s, a)
  {
    hide Need;
    match a
    case Pump(d) =>
      var pc := PcOf(s, d);
      var step :=
        if Leaving(pc) then Leave(d)
        else if pc.Writing? then WriteFails(d)
        else if Need(pc.acc) == 0 then Process(d)
        else ReadFails(d);
      assert ActorOf(step) == a && Enabled(cfg, s, step);
    case Main =>
      assert ActorOf(Handle) == a && Enabled(cfg, s, Handle);
  }

  /** Its own step brings such an actor nearer to its end, and leaves it unstoppable until there. */
  lemma OwnStepDescends(cfg: Config, s: State, step: Step)
    requires Enabled(cfg, s, step) && MustMove(s, ActorOf(step))
    ensures var s' := Apply(cfg, s, step);
            && Rank(s', ActorOf(step)) < Rank(s, ActorOf(step))
            && (Rank(s', ActorOf(step)) > 0 ==> MustMove(s', ActorOf(step)))
            && (BothClosed(s) ==> BothClosed(s'))
  {
    hide Need, AfterRead;
  }

  /** A closed connection is never opened again. */
  lemma ClosedStaysClosed(cfg: Config, s: State, step: Step)
    requires Enabled(cfg, s, step) && BothClosed(s)
    ensures BothClosed(Apply(cfg, s, step))
  {
    hide Need, AfterRead;
  }

  /** The counter at zero means that no pump is left to change it. */
  lemma MainUndisturbed(cfg: Config, s: State, step: Step)
    requires Orderly(s) && Enabled(cfg, s, step) && ActorOf(step) != Main
    ensures Apply(cfg, s, step).handler == s.handler
    ensures s.wg == 0 ==> Apply(cfg, s, step).wg == 0
  {
    hide Need, AfterRead;
  }

  /** The steps of others neither move it nor stop it. */
  lemma OthersDoNotDisturb(cfg: Config, s: State, step: Step, a: Actor)
    requires Inv(cfg, s) && Enabled(cfg, s, step) && ActorOf(step) != a
    ensures var s' := Apply(cfg, s, step);
            && Rank(s', a) == Rank(s, a)
            && (MustMove(s, a) ==> MustMove(s', a))
            && (BothClosed(s) ==> BothClosed(s'))
  {
    hide Enabled, Apply, FaithfulDir, Orderly;
    if BothClosed(s) {
      ClosedStaysClosed(cfg, s, step);
    }
    match a
    case Pump(d) => OnlyItsPumpMoves(cfg, s, step, d);
    case Main => MainUndisturbed(cfg, s, step);
    case Peers =>
  }

  /** Steps of the proxy itself, as opposed to its peers. */
  function ProxySteps(steps: seq<Step>): nat
  {
    if steps == [] then 0
    else (if ActorOf(steps[0]) == Peers then 0 else 1) + ProxySteps(steps[1..])
  }

  /** With both connections closed, whoever of the proxy can step must. */
  lemma ClosedEnabledMustMove(cfg: Config, s: State, step: Step)
    requires Inv(cfg, s) && BothClosed(s) && Enabled(cfg, s, step)
    ensures ActorOf(step) == Peers || MustMove(s, ActorOf(step))
  {
    hide FaithfulDir, Need;
  }

  lemma ClosedStepDescends(cfg: Config, s: State, step: Step)
    requires Inv(cfg, s) && BothClosed(s) && Enabled(cfg, s, step)
    ensures var s' := Apply(cfg, s, step);
            && BothClosed(s')
            && TotalRank(s') + (if ActorOf(step) == Peers then 0 else 1) <= TotalRank(s)
  {
    hide Inv, Enabled, Apply, FaithfulDir;
    ClosedEnabledMustMove(cfg, s, step);
    if ActorOf(step) != Peers {
      OwnStepDescends(cfg, s, step);
    }
    if ActorOf(step) != Pump(ToServer) { OthersDoNotDisturb(cfg, s, step, Pump(ToServer)); }
    if ActorOf(step) != Pump(ToClient) { OthersDoNotDisturb(cfg, s, step, Pump(ToClient)); }
    if ActorOf(step) != Main { OthersDoNotDisturb(cfg, s, step, Main); }
  }

  /**
   * From a state with both connections closed, whatever the peers do and however the rest is
   * scheduled, the proxy takes at most 13 more steps.
   */
  lemma {:induction false} ClosedConnectionEnds(cfg: Config, s: State, steps: seq<Step>)
    requires Inv(cfg, s) && BothClosed(s) && ValidRun(cfg, s, steps)
    ensures ProxySteps(steps) + TotalRank(Exec(cfg, s, steps)) <= TotalRank(s) <= 13
    decreases |steps|
  {
    hide Inv, Enabled, Apply, TotalRank;
    if steps == [] {
      assert TotalRank(s) <= 13 by { RankBound(s); }
    } else {
      ClosedStepDescends(cfg, s, steps[0]);
      InvStep(cfg, s, steps[0]);
      ClosedConnectionEnds(cfg, Apply(cfg, s, steps[0]), steps[1..]);
      RankBound(s);
    }
  }

  lemma RankBound(s: State)
    ensures TotalRank(s) <= 13
  {
  }

  /** No deadlock: until the handler has returned, some part of the proxy can step. */
  lemma ClosedConnectionNeverStuck(cfg: Config, s: State)
    requires Inv(cfg, s) && BothClosed(s) && !s.handler.Returned?
    ensures CanStep(cfg, s, Pump(ToServer)) || CanStep(cfg, s, Pump(ToClient)) || CanStep(cfg, s, Main)
  {
    hide FaithfulDir;
    if !s.toServer.Done? {
      MustMoveCan(cfg, s, Pump(ToServer));
    } else if !s.toClient.Done? {
      MustMoveCan(cfg, s, Pump(ToClient));
    } else {
      MustMoveCan(cfg, s, Main);
    }
  }

  // ------------------------------------------------------------- liveness

  /** An infinite execution. */
  datatype Behaviour = Behaviour(states: nat -> State, steps: nat -> Step)

  ghost predicate IsBehaviour(cfg: Config, b: Behaviour)
  {
    && b.states(0) == INIT
    && forall i: nat :: Enabled(cfg, b.states(i), b.steps(i)) && b.states(i + 1) == Apply(cfg, b.states(i), b.steps(i))
  }

  ghost predicate ServedAt(cfg: Config, b: Behaviour, a: Actor, j: nat)
  {
    ActorOf(b.steps(j)) == a || !CanStep(cfg, b.states(j), a)
  }

  ghost predicate ServedAfter(cfg: Config, b: Behaviour, a: Actor, i: nat)
  {
    exists j: nat :: j >= i && ServedAt(cfg, b, a, j)
  }

  /** The Go scheduler does not forget a goroutine that could run. */
  ghost predicate Fair(cfg: Config, b: Behaviour, a: Actor)
  {
    forall i: nat :: ServedAfter(cfg, b, a, i)
  }

  lemma {:induction false} InvAlways(cfg: Config, b: Behaviour, i: nat)
    requires IsBehaviour(cfg, b)
    ensures Inv(cfg, b.states(i))
  {
    hide Inv, Enabled, Apply;
    if i == 0 {
      InvInit(cfg);
    } else {
      InvAlways(cfg, b, i - 1);
      assert Enabled(cfg, b.states(i - 1), b.steps(i - 1));
      assert b.states((i - 1) + 1) == Apply(cfg, b.states(i - 1), b.steps(i - 1));
      InvStep(cfg, b.states(i - 1), b.steps(i - 1));
    }
  }

  /** An actor that must move does, in a fair execution, at some step `k`. */
  lemma {:induction false} EventuallyMoves(cfg: Config, b: Behaviour, a: Actor, i: nat, j: nat) returns (k: nat)
    requires IsBehaviour(cfg, b) && MustMove(b.states(i), a)
    requires i <= j && ServedAt(cfg, b, a, j)
    ensures i <= k <= j && ActorOf(b.steps(k)) == a
    ensures MustMove(b.states(k), a) && Rank(b.states(k), a) == Rank(b.states(i), a)
    ensures BothClosed(b.states(i)) ==> BothClosed(b.states(k))
    decreases j - i
  {
    hide Inv, Enabled, Apply, MustMove, Rank, BothClosed;
    if ActorOf(b.steps(i)) == a {
      k := i;
    } else {
      InvAlways(cfg, b, i);
      MustMoveCan(cfg, b.states(i), a);
      assert i < j;
      assert Enabled(cfg, b.states(i), b.steps(i)) && b.states(i + 1) == Apply(cfg, b.states(i), b.steps(i));
      OthersDoNotDisturb(cfg, b.states(i), b.steps(i), a);
      k := EventuallyMoves(cfg, b, a, i + 1, j);
    }
  }

  /** In a fair execution an actor that must move goes on to its end. */
  lemma {:induction false} EventuallyEnds(cfg: Config, b: Behaviour, a: Actor, i: nat) returns (k: nat)
    requires IsBehaviour(cfg, b) && Fair(cfg, b, a)
    requires Rank(b.states(i), a) > 0 ==> MustMove(b.states(i), a)
    ensures k >= i && Rank(b.states(k), a) == 0
    decreases Rank(b.states(i), a)
  {
    hide Inv, Enabled, Apply, MustMove, Rank, BothClosed;
    if Rank(b.states(i), a) == 0 {
      k := i;
    } else {
      assert ServedAfter(cfg, b, a, i);
      var j: nat :| j >= i && ServedAt(cfg, b, a, j);
      var m := EventuallyMoves(cfg, b, a, i, j);
      assert Enabled(cfg, b.states(m), b.steps(m)) && b.states(m + 1) == Apply(cfg, b.states(m), b.steps(m));
      OwnStepDescends(cfg, b.states(m), b.steps(m));
      k := EventuallyEnds(cfg, b, a, m + 1);
    }
  }

  /** An actor at its end stays there. */
  lemma {:induction false} EndIsFinal(cfg: Config, b: Behaviour, a: Actor, i: nat, k: nat)
    requires IsBehaviour(cfg, b) && i <= k && a != Peers && Rank(b.states(i), a) == 0
    ensures Rank(b.states(k), a) == 0
    decreases k - i
  {
    if i < k {
      InvAlways(cfg, b, i);
      var s, step := b.states(i), b.steps(i);
      assert Enabled(cfg, s, step) && b.states(i + 1) == Apply(cfg, s, step);
      hide Inv, Apply;
      if ActorOf(step) != a {
        OthersDoNotDisturb(cfg, s, step, a);
      }
      EndIsFinal(cfg, b, a, i + 1, k);
    }
  }

  function Other(d: Dir): Dir
  {
    if d == ToServer then ToClient else ToServer
  }

  /**
   * Teardown: in every fair execution, once either pump has failed, the other one ends too and
   * handleConnection returns, with both connections closed and the WaitGroup at zero.
   */
  lemma FailureLeadsToReturn(cfg: Config, b: Behaviour, d: Dir, i: nat) returns (k: nat)
    requires IsBehaviour(cfg, b)
    requires Fair(cfg, b, Pump(ToServer)) && Fair(cfg, b, Pump(ToClient)) && Fair(cfg, b, Main)
    requires !PcOf(b.states(i), d).Reading? && !PcOf(b.states(i), d).Writing?
    ensures k >= i && b.states(k).handler.Returned?
    ensures BothClosed(b.states(k)) && b.states(k).wg == 0
    ensures b.states(k).toServer.Done? && b.states(k).toClient.Done?
  {
    hide IsBehaviour, Fair, FaithfulDir;
    var i1 := EventuallyEnds(cfg, b, Pump(d), i);
    InvAlways(cfg, b, i1);
    assert ClosedBehind(b.states(i1), ToServer) && ClosedBehind(b.states(i1), ToClient);
    assert BothClosed(b.states(i1));
    var i2 := EventuallyEnds(cfg, b, Pump(Other(d)), i1);
    EndIsFinal(cfg, b, Pump(d), i1, i2);
    InvAlways(cfg, b, i2);
    assert b.states(i2).wg == 0;
    k := EventuallyEnds(cfg, b, Main, i2);
    EndIsFinal(cfg, b, Pump(d), i2, k);
    EndIsFinal(cfg, b, Pump(Other(d)), i2, k);
    InvAlways(cfg, b, k);
  }
}
