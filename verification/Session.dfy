/**
 * One proxied connection as a state machine: two pumps, the handler that waits for them, and
 * the peers on both sides, interleaved in every possible way.
 */
module Session {
  import opened Bytes
  import opened Protocol
  import opened Forwarding

  // ------------------------------------------------------------------ state

  /** The proxy's end of a socket, with the history of both directions. */
  datatype Conn = Conn(
    arrived: seq<byte>,  // everything the peer has sent
    taken: nat,          // how much of it the proxy has read
    ended: bool,         // the peer will send no more
    broken: bool,        // the connection was reset: reads and writes may fail
    written: seq<byte>,  // everything the proxy has written
    received: nat,       // how much of it has reached the peer
    open: bool           // the proxy has not closed its end
  )

  /** Where a pump is: in ReadMessage, in WriteMessage, or on its way out of the goroutine. */
  datatype Pc = Reading(acc: seq<byte>) | Writing(buf: seq<byte>) | CloseClient | CloseUpstream | SignalDone | Done

  /** Where handleConnection is: in wg.Wait, in its deferred calls, or back in its caller. */
  datatype Handler = Waiting | DeferUpstream | DeferClient | Returned

  datatype State = State(
    client: Conn,
    upstream: Conn,
    toServer: Pc,
    toClient: Pc,
    wg: int,
    handler: Handler
  )

  /** The processor of the client-to-server pump, and the size of a socket's send buffer. */
  datatype Config = Config(intercept: Processor, capacity: nat)

  datatype Dir = ToServer | ToClient

  datatype Side = Client | Upstream

  datatype Step =
    | ReadSome(dir: Dir, k: nat)
    | ReadFails(dir: Dir)
    | Process(dir: Dir)
    | WriteSome(dir: Dir, k: nat)
    | WriteFails(dir: Dir)
    | Leave(dir: Dir)
    | Handle
    | PeerSends(side: Side, bytes: seq<byte>)
    | PeerEnds(side: Side)
    | PeerBreaks(side: Side)
    | PeerReceives(side: Side, n: nat)

  datatype Actor = Pump(dir: Dir) | Main | Peers

  function ActorOf(step: Step): Actor
  {
    match step
    case ReadSome(d, _) => Pump(d)
    case ReadFails(d) => Pump(d)
    case Process(d) => Pump(d)
    case WriteSome(d, _) => Pump(d)
    case WriteFails(d) => Pump(d)
    case Leave(d) => Pump(d)
    case Handle => Main
    case PeerSends(_, _) => Peers
    case PeerEnds(_) => Peers
    case PeerBreaks(_) => Peers
    case PeerReceives(_, _) => Peers
  }

  function PcOf(s: State, d: Dir): Pc
  {
    if d == ToServer then s.toServer else s.toClient
  }

  function WithPc(s: State, d: Dir, pc: Pc): State
  {
    if d == ToServer then s.(toServer := pc) else s.(toClient := pc)
  }

  function ConnOf(s: State, side: Side): Conn
  {
    if side == Client then s.client else s.upstream
  }

  function WithConn(s: State, side: Side, c: Conn): State
  {
    if side == Client then s.(client := c) else s.(upstream := c)
  }

  function SrcSide(d: Dir): Side
  {
    if d == ToServer then Client else Upstream
  }

  function DstSide(d: Dir): Side
  {
    if d == ToServer then Upstream else Client
  }

  function ProcessorOf(cfg: Config, d: Dir): Processor
  {
    if d == ToServer then cfg.intercept else Passthrough
  }

  // ------------------------------------------------------------------ steps

  /** How many bytes ReadMessage still waits for; an illegal length word ends the waiting. */
  function Need(acc: seq<byte>): nat
  {
    if |acc| < 4 then 4 - |acc|
    else if !LegalLength(Uint32(acc[..4])) || Uint32(acc[..4]) <= |acc| then 0
    else Uint32(acc[..4]) - |acc|
  }

  predicate Enabled(cfg: Config, s: State, step: Step)
  {
    match step
    case ReadSome(d, k) =>
      var pc, src := PcOf(s, d), ConnOf(s, SrcSide(d));
      pc.Reading? && src.open && 1 <= k <= Need(pc.acc) && src.taken + k <= |src.arrived|
    case ReadFails(d) =>
      var pc, src := PcOf(s, d), ConnOf(s, SrcSide(d));
      pc.Reading? && Need(pc.acc) > 0 && (!src.open || src.broken || (src.ended && src.taken == |src.arrived|))
    case Process(d) => PcOf(s, d).Reading? && Need(PcOf(s, d).acc) == 0
    case WriteSome(d, k) =>
      var pc, dst := PcOf(s, d), ConnOf(s, DstSide(d));
      pc.Writing? && dst.open && 1 <= k <= |pc.buf| && |dst.written| + k <= dst.received + cfg.capacity
    case WriteFails(d) =>
      var pc, dst := PcOf(s, d), ConnOf(s, DstSide(d));
      pc.Writing? && (!dst.open || dst.broken)
    case Leave(d) =>
      var pc := PcOf(s, d);
      pc.CloseClient? || pc.CloseUpstream? || pc.SignalDone?
    case Handle => !s.handler.Returned? && (s.handler.Waiting? ==> s.wg == 0)
    case PeerSends(side, _) => !ConnOf(s, side).ended && !ConnOf(s, side).broken
    case PeerEnds(_) => true
    case PeerBreaks(_) => true
    case PeerReceives(side, n) => ConnOf(s, side).received + n <= |ConnOf(s, side).written|
  }

  /** What a pump does with a complete message, or with a length word it cannot accept. */
  function AfterRead(f: Processor, acc: seq<byte>): (pc: Pc)
    ensures pc.CloseClient? || pc.Writing?
  {
    match Read(acc)
    case Failed(_) => CloseClient
    case Got(m, _) =>
      match Serialize(Processed(f, m))
      case Panic => CloseClient
      case Buffer(b) => Writing(b)
  }

  function Apply(cfg: Config, s: State, step: Step): State
    requires Enabled(cfg, s, step)
  {
    match step
    case ReadSome(d, k) =>
      var src := ConnOf(s, SrcSide(d));
      var got := src.arrived[src.taken..src.taken + k];
      WithPc(WithConn(s, SrcSide(d), src.(taken := src.taken + k)), d, Reading(PcOf(s, d).acc + got))
    case ReadFails(d) => WithPc(s, d, CloseClient)
    case Process(d) => WithPc(s, d, AfterRead(ProcessorOf(cfg, d), PcOf(s, d).acc))
    case WriteSome(d, k) =>
      var buf, dst := PcOf(s, d).buf, ConnOf(s, DstSide(d));
      var s' := WithConn(s, DstSide(d), dst.(written := dst.written + buf[..k]));
      WithPc(s', d, if k == |buf| then Reading([]) else Writing(buf[k..]))
    case WriteFails(d) => WithPc(s, d, CloseClient)
    case Leave(d) =>
      (match PcOf(s, d)
       case CloseClient => WithPc(s.(client := s.client.(open := false)), d, CloseUpstream)
       case CloseUpstream => WithPc(s.(upstream := s.upstream.(open := false)), d, SignalDone)
       case _ => WithPc(s.(wg := s.wg - 1), d, Done))
    case Handle =>
      (match s.handler
       case Waiting => s.(handler := DeferUpstream)
       case DeferUpstream => s.(upstream := s.upstream.(open := false), handler := DeferClient)
       case _ => s.(client := s.client.(open := false), handler := Returned))
    case PeerSends(side, bytes) =>
      WithConn(s, side, ConnOf(s, side).(arrived := ConnOf(s, side).arrived + bytes))
    case PeerEnds(side) => WithConn(s, side, ConnOf(s, side).(ended := true))
    case PeerBreaks(side) => WithConn(s, side, ConnOf(s, side).(broken := true))
    case PeerReceives(side, n) =>
      WithConn(s, side, ConnOf(s, side).(received := ConnOf(s, side).received + n))
  }

  const FRESH_CONN := Conn([], 0, false, false, [], 0, true)

  /** Both pumps started, nothing sent yet. */
  const INIT := State(FRESH_CONN, FRESH_CONN, Reading([]), Reading([]), 2, Waiting)

  /** `steps` can be taken one after the other from `s`. */
  predicate ValidRun(cfg: Config, s: State, steps: seq<Step>)
    decreases |steps|
  {
    steps == [] || (Enabled(cfg, s, steps[0]) && ValidRun(cfg, Apply(cfg, s, steps[0]), steps[1..]))
  }

  function Exec(cfg: Config, s: State, steps: seq<Step>): State
    requires ValidRun(cfg, s, steps)
    decreases |steps|
  {
    if steps == [] then s else Exec(cfg, Apply(cfg, s, steps[0]), steps[1..])
  }

  // ------------------------------------------------------- one direction

  /** Bytes gathered for one message: never more than its length word asks for. */
  predicate AccOk(acc: seq<byte>)
  {
    |acc| <= 4 || (LegalLength(Uint32(acc[..4])) && |acc| <= Uint32(acc[..4]))
  }

  /**
   * What ties a pump's output to its input. While it reads, everything before the message
   * in hand has been forwarded; while it writes, the rest of the buffer completes that; once
   * it is leaving, what it wrote is a beginning of it.
   */
  ghost predicate Faithful(f: Processor, arrived: seq<byte>, taken: nat, written: seq<byte>, pc: Pc)
  {
    && taken <= |arrived|
    && match pc
       case Reading(acc) =>
         && |acc| <= taken
         && acc == arrived[taken - |acc|..taken]
         && AccOk(acc)
         && Clean(f, arrived[..taken - |acc|])
         && written == Forwarded(f, arrived[..taken - |acc|])
       case Writing(buf) =>
         && buf != []
         && Clean(f, arrived[..taken])
         && written + buf == Forwarded(f, arrived[..taken])
       case _ => written <= Forwarded(f, arrived[..taken])
  }

  lemma NeedReadsOn(acc: seq<byte>)
    ensures Need(acc) > 0 ==> Read(acc).Failed?
    ensures AccOk(acc) && Need(acc) == 0 && Read(acc).Got? ==> Read(acc).rest == []
  {
  }

  lemma AccGrows(acc: seq<byte>, more: seq<byte>)
    requires AccOk(acc) && |more| <= Need(acc)
    ensures AccOk(acc + more)
  {
    if |acc| >= 4 {
      assert (acc + more)[..4] == acc[..4];
    }
  }

  lemma FaithfulReadSome(f: Processor, arrived: seq<byte>, taken: nat, written: seq<byte>, acc: seq<byte>, k: nat)
    requires Faithful(f, arrived, taken, written, Reading(acc))
    requires 1 <= k <= Need(acc) && taken + k <= |arrived|
    ensures Faithful(f, arrived, taken + k, written, Reading(acc + arrived[taken..taken + k]))
  {
    hide Clean, Forwarded, Read, Need, AccOk;
    var more := arrived[taken..taken + k];
    AccGrows(acc, more);
    assert acc + more == arrived[taken + k - |acc + more|..taken + k];
  }

  lemma FaithfulProcess(f: Processor, arrived: seq<byte>, taken: nat, written: seq<byte>, acc: seq<byte>)
    requires Faithful(f, arrived, taken, written, Reading(acc))
    requires Need(acc) == 0
    ensures Faithful(f, arrived, taken, written, AfterRead(f, acc))
  {
    hide Read, Serialize, Need, AccOk;
    var done := arrived[..taken - |acc|];
    assert arrived[..taken] == done + acc;
    NeedReadsOn(acc);
    ForwardedMonotone(f, done, acc);
    ForwardedAppend(f, done, acc);
    if AfterRead(f, acc).Writing? {
      FramesOfNothing();
      assert Clean(f, []) && Forwarded(f, []) == [];
      assert Clean(f, acc);
      assert Forwarded(f, acc) == AfterRead(f, acc).buf + [];
    }
  }

  lemma FaithfulWriteSome(f: Processor, arrived: seq<byte>, taken: nat, written: seq<byte>, buf: seq<byte>, k: nat)
    requires Faithful(f, arrived, taken, written, Writing(buf))
    requires 1 <= k <= |buf|
    ensures Faithful(f, arrived, taken, written + buf[..k], if k == |buf| then Reading([]) else Writing(buf[k..]))
  {
    hide Clean, Forwarded;
    assert (written + buf[..k]) + buf[k..] == written + buf;
    if k == |buf| {
      assert buf[..k] == buf;
      assert arrived[taken..taken] == [];
    }
  }

  lemma FaithfulFails(f: Processor, arrived: seq<byte>, taken: nat, written: seq<byte>, pc: Pc, pc': Pc)
    requires Faithful(f, arrived, taken, written, pc)
    requires !pc'.Reading? && !pc'.Writing?
    ensures Faithful(f, arrived, taken, written, pc')
  {
    hide Clean, Forwarded;
    if pc.Reading? {
      var done := arrived[..taken - |pc.acc|];
      assert arrived[..taken] == done + pc.acc;
      ForwardedMonotone(f, done, pc.acc);
    }
  }

  lemma FaithfulSends(f: Processor, arrived: seq<byte>, taken: nat, written: seq<byte>, pc: Pc, more: seq<byte>)
    requires Faithful(f, arrived, taken, written, pc)
    ensures Faithful(f, arrived + more, taken, written, pc)
  {
    hide Clean, Forwarded;
    var all := arrived + more;
    assert all[..taken] == arrived[..taken];
    if pc.Reading? {
      var n := taken - |pc.acc|;
      assert all[..n] == arrived[..n];
      assert all[n..taken] == arrived[n..taken];
    }
  }

  // -------------------------------------------------------------- invariant

  ghost predicate FaithfulDir(cfg: Config, s: State, d: Dir)
  {
    var src, dst := ConnOf(s, SrcSide(d)), ConnOf(s, DstSide(d));
    Faithful(ProcessorOf(cfg, d), src.arrived, src.taken, dst.written, PcOf(s, d))
  }

  function Unfinished(pc: Pc): int
  {
    if pc.Done? then 0 else 1
  }

  /** A pump past its first close has closed the client; past its second, both connections. */
  ghost predicate ClosedBehind(s: State, d: Dir)
  {
    var pc := PcOf(s, d);
    && (pc.CloseUpstream? || pc.SignalDone? || pc.Done? ==> !s.client.open)
    && (pc.SignalDone? || pc.Done? ==> !s.upstream.open)
  }

  /** The part of the invariant that is about closing, counting and returning. */
  ghost predicate Orderly(s: State)
  {
    && ClosedBehind(s, ToServer)
    && ClosedBehind(s, ToClient)
    && s.wg == Unfinished(s.toServer) + Unfinished(s.toClient)
    && (!s.handler.Waiting? ==> s.wg == 0)
    && s.client.received <= |s.client.written|
    && s.upstream.received <= |s.upstream.written|
  }

  ghost predicate Inv(cfg: Config, s: State)
  {
    FaithfulDir(cfg, s, ToServer) && FaithfulDir(cfg, s, ToClient) && Orderly(s)
  }

  lemma InvInit(cfg: Config)
    ensures Inv(cfg, INIT)
  {
    FramesOfNothing();
    assert INIT.client.arrived[..0] == [] && INIT.client.arrived[0..0] == [];
  }

  /**
   * Each connection has one writer and each stream one reader: no step of anyone else
   * touches what a pump has read, written or in hand.
   */
  lemma OnlyItsPumpMoves(cfg: Config, s: State, step: Step, d: Dir)
    requires Enabled(cfg, s, step) && ActorOf(step) != Pump(d)
    ensures var s' := Apply(cfg, s, step);
            && PcOf(s', d) == PcOf(s, d)
            && ConnOf(s', DstSide(d)).written == ConnOf(s, DstSide(d)).written
            && ConnOf(s', SrcSide(d)).taken == ConnOf(s, SrcSide(d)).taken
            && ConnOf(s', SrcSide(d)).arrived
               == if step.PeerSends? && step.side == SrcSide(d) then ConnOf(s, SrcSide(d)).arrived + step.bytes
                  else ConnOf(s, SrcSide(d)).arrived
  {
    hide AfterRead, Need;
  }

  lemma FaithfulOwnStep(cfg: Config, s: State, step: Step, d: Dir)
    requires FaithfulDir(cfg, s, d) && Enabled(cfg, s, step) && ActorOf(step) == Pump(d)
    ensures FaithfulDir(cfg, Apply(cfg, s, step), d)
  {
    hide Faithful, AfterRead, Need;
    var f, src, dst, pc := ProcessorOf(cfg, d), ConnOf(s, SrcSide(d)), ConnOf(s, DstSide(d)), PcOf(s, d);
    match step
    case ReadSome(_, k) => FaithfulReadSome(f, src.arrived, src.taken, dst.written, pc.acc, k);
    case ReadFails(_) => FaithfulFails(f, src.arrived, src.taken, dst.written, pc, CloseClient);
    case Process(_) => FaithfulProcess(f, src.arrived, src.taken, dst.written, pc.acc);
    case WriteSome(_, k) => FaithfulWriteSome(f, src.arrived, src.taken, dst.written, pc.buf, k);
    case WriteFails(_) => FaithfulFails(f, src.arrived, src.taken, dst.written, pc, CloseClient);
    case Leave(_) => FaithfulFails(f, src.arrived, src.taken, dst.written, pc, PcOf(Apply(cfg, s, step), d));
  }

  lemma FaithfulStep(cfg: Config, s: State, step: Step, d: Dir)
    requires FaithfulDir(cfg, s, d) && Enabled(cfg, s, step)
    ensures FaithfulDir(cfg, Apply(cfg, s, step), d)
  {
    hide Faithful, Enabled, Apply;
    if ActorOf(step) == Pump(d) {
      FaithfulOwnStep(cfg, s, step, d);
    } else {
      var f, src, dst := ProcessorOf(cfg, d), ConnOf(s, SrcSide(d)), ConnOf(s, DstSide(d));
      OnlyItsPumpMoves(cfg, s, step, d);
      if step.PeerSends? && step.side == SrcSide(d) {
        FaithfulSends(f, src.arrived, src.taken, dst.written, PcOf(s, d), step.bytes);
      }
    }
  }

  lemma OrderlyLeave(cfg: Config, s: State, d: Dir)
    requires Orderly(s) && Enabled(cfg, s, Leave(d))
    ensures Orderly(Apply(cfg, s, Leave(d)))
  {
  }

  /** Until it leaves, a pump neither closes nor counts. */
  lemma OrderlyTransfer(cfg: Config, s: State, step: Step)
    requires Orderly(s) && Enabled(cfg, s, step) && ActorOf(step).Pump? && !step.Leave?
    ensures Orderly(Apply(cfg, s, step))
  {
    hide Need, AfterRead, Unfinished, ClosedBehind;
    var s', d := Apply(cfg, s, step), step.dir;
    assert s'.client.open == s.client.open && s'.upstream.open == s.upstream.open;
    assert Unfinished(PcOf(s', d)) == Unfinished(PcOf(s, d)) by { UnfinishedTransfer(PcOf(s, d), PcOf(s', d)); }
    ClosedBehindTransfer(s, s', ToServer);
    ClosedBehindTransfer(s, s', ToClient);
  }

  lemma UnfinishedTransfer(pc: Pc, pc': Pc)
    requires !pc.Done? && !pc'.Done?
    ensures Unfinished(pc) == Unfinished(pc')
  {
  }

  lemma ClosedBehindTransfer(s: State, s': State, d: Dir)
    requires ClosedBehind(s, d)
    requires s'.client.open == s.client.open && s'.upstream.open == s.upstream.open
    requires PcOf(s', d) == PcOf(s, d) || PcOf(s', d).Reading? || PcOf(s', d).Writing? || PcOf(s', d).CloseClient?
    ensures ClosedBehind(s', d)
  {
  }

  lemma OrderlyStep(cfg: Config, s: State, step: Step)
    requires Orderly(s) && Enabled(cfg, s, step)
    ensures Orderly(Apply(cfg, s, step))
  {
    hide Need, AfterRead;
    if step.Leave? {
      OrderlyLeave(cfg, s, step.dir);
    } else if ActorOf(step).Pump? {
      OrderlyTransfer(cfg, s, step);
    }
  }

  lemma InvStep(cfg: Config, s: State, step: Step)
    requires Inv(cfg, s) && Enabled(cfg, s, step)
    ensures Inv(cfg, Apply(cfg, s, step))
  {
    hide FaithfulDir, Orderly, Apply, Enabled;
    FaithfulStep(cfg, s, step, ToServer);
    FaithfulStep(cfg, s, step, ToClient);
    OrderlyStep(cfg, s, step);
  }

  lemma {:induction false} InvRun(cfg: Config, s: State, steps: seq<Step>)
    requires Inv(cfg, s) && ValidRun(cfg, s, steps)
    ensures Inv(cfg, Exec(cfg, s, steps))
    decreases |steps|
  {
    hide Inv, Enabled, Apply;
    if steps != [] {
      InvStep(cfg, s, steps[0]);
      InvRun(cfg, Apply(cfg, s, steps[0]), steps[1..]);
    }
  }

  // ---------------------------------------------------------------- results

  /** The bytes that have reached a peer. */
  function Delivered(c: Conn): seq<byte>
    requires c.received <= |c.written|
  {
    c.written[..c.received]
  }

  lemma FaithfulIsPrefix(f: Processor, arrived: seq<byte>, taken: nat, written: seq<byte>, pc: Pc)
    requires Faithful(f, arrived, taken, written, pc)
    ensures written <= Forwarded(f, arrived)
  {
    hide Clean, Forwarded;
    FaithfulFails(f, arrived, taken, written, pc, CloseClient);
    ForwardedMonotone(f, arrived[..taken], arrived[taken..]);
    assert arrived == arrived[..taken] + arrived[taken..];
  }

  /**
   * Safety over all runs: in every reachable state of every interleaving of pumps, closes and
   * peers, libvirtd has received a beginning of what the intercepting loop makes of the
   * client's bytes, and the client has received a beginning of libvirtd's own bytes.
   */
  lemma DeliveryIsFaithful(cfg: Config, steps: seq<Step>)
    requires ValidRun(cfg, INIT, steps)
    ensures var s := Exec(cfg, INIT, steps);
            && s.client.received <= |s.client.written|
            && s.upstream.received <= |s.upstream.written|
            && Delivered(s.upstream) <= Forwarded(cfg.intercept, s.client.arrived)
            && Delivered(s.client) <= Forwarded(Passthrough, s.upstream.arrived) <= s.upstream.arrived
  {
    hide ValidRun, Exec, Faithful, Forwarded;
    var s := Exec(cfg, INIT, steps);
    InvInit(cfg);
    InvRun(cfg, INIT, steps);
    FaithfulIsPrefix(cfg.intercept, s.client.arrived, s.client.taken, s.upstream.written, s.toServer);
    FaithfulIsPrefix(Passthrough, s.upstream.arrived, s.upstream.taken, s.client.written, s.toClient);
    PassthroughWritesLongestLegalPrefix(s.upstream.arrived);
  }

  /**
   * Nothing is held back: a pump that waits for more bytes has written everything that the
   * bytes sent so far amount to. So has one that is about to see a clean end of stream.
   */
  lemma WaitingPumpIsUpToDate(cfg: Config, s: State, d: Dir)
    requires Inv(cfg, s)
    requires PcOf(s, d).Reading? && Need(PcOf(s, d).acc) > 0
    requires ConnOf(s, SrcSide(d)).taken == |ConnOf(s, SrcSide(d)).arrived|
    ensures ConnOf(s, DstSide(d)).written == Forwarded(ProcessorOf(cfg, d), ConnOf(s, SrcSide(d)).arrived)
  {
    hide Need, AccOk, Read, Serialize;
    var f, acc, arrived := ProcessorOf(cfg, d), PcOf(s, d).acc, ConnOf(s, SrcSide(d)).arrived;
    assert FaithfulDir(cfg, s, d);
    var done := arrived[..|arrived| - |acc|];
    assert arrived == done + acc;
    ForwardedAppend(f, done, acc);
    NeedReadsOn(acc);
  }

  /** Nothing is forwarded from bytes that begin with what makes a pump leave. */
  lemma RefusedForwardsNothing(f: Processor, acc: seq<byte>, more: seq<byte>)
    requires Need(acc) == 0 && AfterRead(f, acc).CloseClient?
    ensures Forwarded(f, acc + more) == []
  {
    hide Serialize;
    if Read(acc).Got? {
      ReadMonotone(acc, more);
    } else {
      assert (acc + more)[..4] == acc[..4];
    }
  }

  /**
   * A pump that leaves because of what it read (an illegal length word, or a message that
   * cannot be written) has written all that the whole stream amounts to.
   */
  lemma RefusalStopsExactly(cfg: Config, s: State, d: Dir)
    requires Inv(cfg, s)
    requires PcOf(s, d).Reading? && Need(PcOf(s, d).acc) == 0
    requires AfterRead(ProcessorOf(cfg, d), PcOf(s, d).acc).CloseClient?
    ensures ConnOf(s, DstSide(d)).written == Forwarded(ProcessorOf(cfg, d), ConnOf(s, SrcSide(d)).arrived)
  {
    hide Read, Clean, Forwarded, Need, AccOk, AfterRead, Orderly;
    var f, acc, src := ProcessorOf(cfg, d), PcOf(s, d).acc, ConnOf(s, SrcSide(d));
    assert FaithfulDir(cfg, s, d);
    var done, more := src.arrived[..src.taken - |acc|], src.arrived[src.taken..];
    assert src.arrived == done + (acc + more);
    RefusedForwardsNothing(f, acc, more);
    ForwardedAppend(f, done, acc + more);
  }

  /** The WaitGroup counts the unfinished pumps, and neither closes its side without the other. */
  lemma WaitGroupCounts(cfg: Config, steps: seq<Step>)
    requires ValidRun(cfg, INIT, steps)
    ensures var s := Exec(cfg, INIT, steps);
            && s.wg == (if s.toServer.Done? then 0 else 1) + (if s.toClient.Done? then 0 else 1)
            && (s.wg < 2 ==> !s.client.open && !s.upstream.open)
            && (s.handler.Returned? ==> s.wg == 0 && s.toServer.Done? && s.toClient.Done?)
  {
    hide ValidRun, Exec, FaithfulDir;
    InvInit(cfg);
    InvRun(cfg, INIT, steps);
  }
}
