/** In a fair execution what was sent arrives, unless the peers see to it that it does not. */
module Delivery {
  import opened Bytes
  import opened Protocol
  import opened Forwarding
  import opened Session
  import opened Teardown
  import opened Progress

  // -------------------------------------------------------- why a pump leaves

  predicate Reset(s: State)
  {
    s.client.broken || s.upstream.broken
  }

  /** The source of this pump has ended its stream, or has sent something that cannot be forwarded. */
  predicate Finished(cfg: Config, s: State, d: Dir)
  {
    Src(s, d).ended || Refused(ProcessorOf(cfg, d), Src(s, d).arrived)
  }

  /** If the other pump has left before this one, that is the peers' doing. */
  predicate LeftForCause(cfg: Config, s: State, d: Dir)
  {
    Copying(PcOf(s, d)) && !Copying(PcOf(s, Other(d))) ==> Reset(s) || Finished(cfg, s, Other(d))
  }

  lemma PumpRefuses(cfg: Config, s: State, d: Dir)
    requires FaithfulDir(cfg, s, d) && PcOf(s, d).Reading? && Need(PcOf(s, d).acc) == 0
    requires AfterRead(ProcessorOf(cfg, d), PcOf(s, d).acc).CloseClient?
    ensures Finished(cfg, s, d)
  {
    hide Clean, Forwarded, AccOk, Need, AfterRead, Refused;
    var f, acc, src := ProcessorOf(cfg, d), PcOf(s, d).acc, Src(s, d);
    var done, more := src.arrived[..src.taken - |acc|], src.arrived[src.taken..];
    assert src.arrived == done + (acc + more);
    RefusedInHand(f, acc);
    RefusedForGood(f, acc, more);
    RefusedBehind(f, done, acc + more);
  }

  lemma RefusedInHand(f: Processor, acc: seq<byte>)
    requires Need(acc) == 0 && AfterRead(f, acc).CloseClient?
    ensures Refused(f, acc)
  {
    hide Serialize;
  }

  /** A pump leaves an open session only for what its source or a reset does. */
  lemma LeavesForCause(cfg: Config, s: State, step: Step, d: Dir)
    requires FaithfulDir(cfg, s, d) && s.client.open && s.upstream.open
    requires Enabled(cfg, s, step) && ActorOf(step) == Pump(d)
    requires Copying(PcOf(s, d)) && !Copying(PcOf(Apply(cfg, s, step), d))
    ensures Reset(s) || Finished(cfg, s, d)
  {
    hide Need, AfterRead, FaithfulDir, Refused;
    if step.Process? {
      PumpRefuses(cfg, s, d);
    }
  }

  lemma FinishedForGood(cfg: Config, s: State, step: Step, d: Dir)
    requires Enabled(cfg, s, step)
    ensures Reset(s) ==> Reset(Apply(cfg, s, step))
    ensures Finished(cfg, s, d) ==> Finished(cfg, Apply(cfg, s, step), d)
  {
    hide Need, AfterRead, Refused;
    if step.PeerSends? && Refused(ProcessorOf(cfg, d), Src(s, d).arrived) {
      RefusedForGood(ProcessorOf(cfg, d), Src(s, d).arrived, step.bytes);
    }
  }

  lemma LeftForCauseStep(cfg: Config, s: State, step: Step, d: Dir)
    requires Inv(cfg, s) && OpenWhileCopying(s) && LeftForCause(cfg, s, d) && Enabled(cfg, s, step)
    ensures LeftForCause(cfg, Apply(cfg, s, step), d)
  {
    hide Enabled, Apply, FaithfulDir, Orderly, Finished, Reset;
    var e := Other(d);
    FinishedForGood(cfg, s, step, e);
    LeftForGood(cfg, s, step, d);
    if Copying(PcOf(s, e)) && !Copying(PcOf(Apply(cfg, s, step), e)) && Copying(PcOf(s, d)) {
      if ActorOf(step) == Pump(e) {
        LeavesForCause(cfg, s, step, e);
      } else {
        OnlyItsPumpMoves(cfg, s, step, e);
      }
    }
  }

  lemma {:induction false} LeftForCauseAlways(cfg: Config, b: Behaviour, d: Dir, i: nat)
    requires IsBehaviour(cfg, b)
    ensures LeftForCause(cfg, b.states(i), d)
  {
    hide Enabled, Apply, Inv, OpenWhileCopying;
    if i > 0 {
      LeftForCauseAlways(cfg, b, d, i - 1);
      InvAlways(cfg, b, i - 1);
      OpenAlways(cfg, b, i - 1);
      assert Enabled(cfg, b.states(i - 1), b.steps(i - 1));
      assert b.states((i - 1) + 1) == Apply(cfg, b.states(i - 1), b.steps(i - 1));
      LeftForCauseStep(cfg, b.states(i - 1), b.steps(i - 1), d);
    }
  }

  // ----------------------------------------------------- everything is written

  /** Something other than this pump has gone wrong: a reset, or the other pump has left. */
  predicate Disturbed(s: State, d: Dir)
  {
    s.client.broken || s.upstream.broken || !Copying(PcOf(s, Other(d)))
  }

  /** A pump that waits for more than the first bytes `t` has written what they amount to. */
  lemma CaughtUp(cfg: Config, s: State, d: Dir, t: seq<byte>)
    requires Inv(cfg, s) && t <= Src(s, d).arrived && |t| <= Src(s, d).taken
    requires PcOf(s, d).Reading? && Need(PcOf(s, d).acc) > 0
    ensures Forwarded(ProcessorOf(cfg, d), t) <= Dst(s, d).written
  {
    hide Need, Faithful, Orderly, Forwarded;
    assert FaithfulDir(cfg, s, d);
    WaitingHasWritten(ProcessorOf(cfg, d), Src(s, d).arrived, Src(s, d).taken, Dst(s, d).written, PcOf(s, d).acc);
    var f, arrived, taken := ProcessorOf(cfg, d), Src(s, d).arrived, Src(s, d).taken;
    assert arrived[..taken] == t + arrived[|t|..taken];
    ForwardedMonotone(f, t, arrived[|t|..taken]);
  }

  lemma WaitingHasWritten(f: Processor, arrived: seq<byte>, taken: nat, written: seq<byte>, acc: seq<byte>)
    requires Faithful(f, arrived, taken, written, Reading(acc)) && Need(acc) > 0
    ensures taken <= |arrived| && written == Forwarded(f, arrived[..taken])
  {
    hide Need, AccOk, Clean, Forwarded;
    var done := arrived[..taken - |acc|];
    assert arrived[..taken] == done + acc;
    ForwardedAppend(f, done, acc);
    NeedReadsOn(acc);
    UnreadableForwardsNothing(f, acc);
    assert written + [] == written;
  }

  lemma UnreadableForwardsNothing(f: Processor, s: seq<byte>)
    requires Read(s).Failed?
    ensures Forwarded(f, s) == []
  {
  }

  /** A pump that leaves undisturbed has written what everything sent amounts to. */
  lemma LeavesComplete(cfg: Config, s: State, step: Step, d: Dir, t: seq<byte>)
    requires Inv(cfg, s) && OpenWhileCopying(s) && Enabled(cfg, s, step) && ActorOf(step) == Pump(d)
    requires Copying(PcOf(s, d)) && !Copying(PcOf(Apply(cfg, s, step), d)) && !Disturbed(s, d)
    requires t <= Src(s, d).arrived
    ensures Forwarded(ProcessorOf(cfg, d), t) <= Dst(s, d).written
  {
    hide Need, AfterRead, FaithfulDir, Orderly, Forwarded;
    var f, arrived := ProcessorOf(cfg, d), Src(s, d).arrived;
    if step.ReadFails? {
      CaughtUp(cfg, s, d, t);
    } else {
      assert step.Process?;
      RefusalStopsExactly(cfg, s, d);
      assert arrived == t + arrived[|t|..];
      ForwardedMonotone(f, t, arrived[|t|..]);
    }
  }

  /** A pump writes what the bytes sent so far amount to, unless something disturbs it before. */
  lemma {:induction false} CatchesUp(cfg: Config, b: Behaviour, d: Dir, t: seq<byte>, i: nat) returns (k: nat)
    requires IsBehaviour(cfg, b) && Fair(cfg, b, Pump(d)) && KeepsReceiving(b, DstSide(d)) && cfg.capacity > 0
    requires Copying(PcOf(b.states(i), d)) && t <= Src(b.states(i), d).arrived
    ensures k >= i
    ensures (Disturbed(b.states(k), d) && Copying(PcOf(b.states(k), d)))
            || Forwarded(ProcessorOf(cfg, d), t) <= Dst(b.states(k), d).written
    decreases Missing(b.states(i), d, |t|), Phase(b.states(i), d), Unwritten(b.states(i), d)
  {
    hide KeepsReceiving, Fair, Missing, Phase, Unwritten, Apply, Inv, Forwarded, Need, OpenWhileCopying;
    InvAlways(cfg, b, i);
    k := i;
    if PcOf(b.states(i), d).Reading? && Need(PcOf(b.states(i), d).acc) > 0 && Src(b.states(i), d).taken >= |t| {
      CaughtUp(cfg, b.states(i), d, t);
    } else {
      k := PumpMoves(cfg, b, d, i);
      var s, step, s' := b.states(k), b.steps(k), b.states(k + 1);
      if !Disturbed(s, d) {
        assert Enabled(cfg, s, step) && s' == Apply(cfg, s, step);
        InvAlways(cfg, b, k);
        OpenAlways(cfg, b, k);
        if Copying(PcOf(s', d)) {
          StillIsNoFurther(b.states(i), s, d, |t|);
          OwnStepAdvances(cfg, s, step, d, |t|);
          k := CatchesUp(cfg, b, d, t, k + 1);
        } else {
          LeavesComplete(cfg, s, step, d, t);
        }
      }
    }
  }

  // ---------------------------------------------------- everything is delivered

  /** A connection is reset, or the receiving side ends its own stream or sends what cannot be forwarded. */
  predicate Hindered(cfg: Config, s: State, d: Dir)
  {
    Reset(s) || Finished(cfg, s, Other(d))
  }

  /** As long as the pump copies, the peers do nothing to hinder it; afterwards they may do anything. */
  ghost predicate Unhindered(cfg: Config, b: Behaviour, d: Dir)
  {
    forall j: nat :: Copying(PcOf(b.states(j), d)) ==> !Hindered(cfg, b.states(j), d)
  }

  /**
   * Delivery: in every fair execution in which the receiving side keeps receiving, all that
   * the bytes sent while a pump runs amount to reaches that side. The one exception is a pump
   * that was still at work on them when the peers hindered it.
   */
  lemma EverythingArrives(cfg: Config, b: Behaviour, d: Dir, i: nat) returns (k: nat)
    requires IsBehaviour(cfg, b) && Fair(cfg, b, Pump(d)) && KeepsReceiving(b, DstSide(d)) && cfg.capacity > 0
    requires Copying(PcOf(b.states(i), d))
    ensures k >= i && Dst(b.states(k), d).received <= |Dst(b.states(k), d).written|
    ensures var s, all := b.states(k), Forwarded(ProcessorOf(cfg, d), Src(b.states(i), d).arrived);
            || all <= Delivered(Dst(s, d))
            || (Hindered(cfg, s, d) && Disturbed(s, d) && Copying(PcOf(s, d)) && !(all <= Dst(s, d).written))
  {
    hide IsBehaviour, Fair, KeepsReceiving, Forwarded, FaithfulDir, Finished;
    var all := Forwarded(ProcessorOf(cfg, d), Src(b.states(i), d).arrived);
    k := CatchesUp(cfg, b, d, Src(b.states(i), d).arrived, i);
    LeftForCauseAlways(cfg, b, d, k);
    if all <= Dst(b.states(k), d).written {
      var j := k;
      k := Drains(cfg, b, DstSide(d), j, |all|);
      ConnAlwaysGrows(cfg, b, DstSide(d), j, k);
    }
    InvAlways(cfg, b, k);
  }

  /** The same for messages: the first `n` that were sent become the first that the other side reads. */
  lemma EveryMessageArrives(cfg: Config, b: Behaviour, d: Dir, i: nat, n: nat) returns (k: nat)
    requires IsBehaviour(cfg, b) && Fair(cfg, b, Pump(d)) && KeepsReceiving(b, DstSide(d)) && cfg.capacity > 0
    requires Copying(PcOf(b.states(i), d)) && Unhindered(cfg, b, d)
    requires var ms := ProcessedAll(ProcessorOf(cfg, d), Frames(Src(b.states(i), d).arrived));
             AllFit(ms) && n <= |ms| && AllReadable(ms[..n])
    ensures k >= i && Dst(b.states(k), d).received <= |Dst(b.states(k), d).written|
    ensures ProcessedAll(ProcessorOf(cfg, d), Frames(Src(b.states(i), d).arrived))[..n] <= Frames(Delivered(Dst(b.states(k), d)))
  {
    hide IsBehaviour, Fair, KeepsReceiving, Forwarded, Hindered, Disturbed, Frames;
    var f, sent := ProcessorOf(cfg, d), Src(b.states(i), d).arrived;
    k := EverythingArrives(cfg, b, d, i);
    var seen, all := Delivered(Dst(b.states(k), d)), Forwarded(f, sent);
    ReadableAreRead(f, sent, n);
    assert seen == all + seen[|all|..];
    FramesMonotone(all, seen[|all|..]);
  }

  /** A reader of all the output gets the messages up to the first oversized one. */
  lemma ReadableAreRead(f: Processor, s: seq<byte>, n: nat)
    requires AllFit(ProcessedAll(f, Frames(s))) && n <= |Frames(s)| && AllReadable(ProcessedAll(f, Frames(s))[..n])
    ensures ProcessedAll(f, Frames(s))[..n] <= Frames(Forwarded(f, s))
  {
    hide Forwarded, Frames, WireAll, Readable, Fits;
    var ms := ProcessedAll(f, Frames(s));
    var k := ReadablePart(ms);
    ForwardedIsMap(f, s);
    FramesOfReadablePart(ms, k);
    assert forall i :: 0 <= i < n ==> ms[..n][i] == ms[i];
  }

  /**
   * A client that sends its requests and ends its stream, and likewise the other side: in every
   * fair execution everything it sent is delivered, nothing else is, and the handler returns.
   */
  lemma EndDeliversAndReturns(cfg: Config, b: Behaviour, d: Dir, i: nat) returns (k: nat)
    requires IsBehaviour(cfg, b) && cfg.capacity > 0
    requires Fair(cfg, b, Pump(ToServer)) && Fair(cfg, b, Pump(ToClient)) && Fair(cfg, b, Main)
    requires KeepsReceiving(b, DstSide(d)) && Unhindered(cfg, b, d)
    requires Src(b.states(i), d).ended && Copying(PcOf(b.states(i), d))
    ensures k >= i && b.states(k).handler.Returned? && BothClosed(b.states(k))
    ensures Dst(b.states(k), d).received <= |Dst(b.states(k), d).written|
    ensures Delivered(Dst(b.states(k), d)) == Forwarded(ProcessorOf(cfg, d), Src(b.states(i), d).arrived)
  {
    hide IsBehaviour, Fair, KeepsReceiving, Forwarded, Hindered, Disturbed, Faithful;
    var k0 := EverythingArrives(cfg, b, d, i);
    var k1 := EndLeadsToReturn(cfg, b, d, i);
    k := if k0 < k1 then k1 else k0;
    ConnAlwaysGrows(cfg, b, DstSide(d), k0, k);
    EndIsFinal(cfg, b, Main, k1, k);
    ClosedAlways(cfg, b, k1, k);
    EndedIsFinal(cfg, b, SrcSide(d), i, k);
    InvAlways(cfg, b, k);
    var s := b.states(k);
    assert FaithfulDir(cfg, s, d);
    FaithfulIsPrefix(ProcessorOf(cfg, d), Src(s, d).arrived, Src(s, d).taken, Dst(s, d).written, PcOf(s, d));
  }

  lemma {:induction false} ClosedAlways(cfg: Config, b: Behaviour, i: nat, k: nat)
    requires IsBehaviour(cfg, b) && i <= k && BothClosed(b.states(i))
    ensures BothClosed(b.states(k))
    decreases k - i
  {
    hide Enabled, Apply, BothClosed;
    if i < k {
      assert Enabled(cfg, b.states(i), b.steps(i)) && b.states(i + 1) == Apply(cfg, b.states(i), b.steps(i));
      ClosedStaysClosed(cfg, b.states(i), b.steps(i));
      ClosedAlways(cfg, b, i + 1, k);
    }
  }

  lemma EndedStep(cfg: Config, s: State, step: Step, side: Side)
    requires Enabled(cfg, s, step) && ConnOf(s, side).ended
    ensures var c, c' := ConnOf(s, side), ConnOf(Apply(cfg, s, step), side); c'.ended && c'.arrived == c.arrived
  {
    hide Need, AfterRead;
  }

  /** After its end nothing is added to a stream. */
  lemma {:induction false} EndedIsFinal(cfg: Config, b: Behaviour, side: Side, i: nat, k: nat)
    requires IsBehaviour(cfg, b) && i <= k && ConnOf(b.states(i), side).ended
    ensures ConnOf(b.states(k), side).arrived == ConnOf(b.states(i), side).arrived
    decreases k - i
  {
    hide Enabled, Apply;
    if i < k {
      assert Enabled(cfg, b.states(i), b.steps(i)) && b.states(i + 1) == Apply(cfg, b.states(i), b.steps(i));
      EndedStep(cfg, b.states(i), b.steps(i), side);
      EndedIsFinal(cfg, b, side, i + 1, k);
    }
  }
}
