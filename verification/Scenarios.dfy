/** Two sessions played to their end: one that delivers, and one that loses a reply. */
module Scenarios {
  import opened Bytes
  import opened Protocol
  import opened Forwarding
  import opened Session
  import opened Teardown
  import opened Progress
  import opened Delivery

  // ----------------------------------------------------------------- playing

  /** A script, and then nothing but a client that has ended its stream. */
  function StepAt(script: seq<Step>, i: nat): Step
  {
    if i < |script| then script[i] else PeerEnds(Client)
  }

  function Play(cfg: Config, script: seq<Step>, i: nat): State
  {
    if i == 0 then INIT
    else
      var s, step := Play(cfg, script, i - 1), StepAt(script, i - 1);
      if Enabled(cfg, s, step) then Apply(cfg, s, step) else s
  }

  function Played(cfg: Config, script: seq<Step>): Behaviour
  {
    Behaviour((i: nat) => Play(cfg, script, i), (i: nat) => StepAt(script, i))
  }

  ghost predicate Playable(cfg: Config, script: seq<Step>, n: nat)
  {
    forall i :: 0 <= i < n ==> Enabled(cfg, Play(cfg, script, i), StepAt(script, i))
  }

  /** Playing on by one step. */
  lemma PlayOn(cfg: Config, script: seq<Step>, i: nat, s: State, s': State)
    requires Playable(cfg, script, i) && Play(cfg, script, i) == s
    requires Enabled(cfg, s, StepAt(script, i)) && Apply(cfg, s, StepAt(script, i)) == s'
    ensures Playable(cfg, script, i + 1) && Play(cfg, script, i + 1) == s'
  {
    hide Enabled, Apply, StepAt;
  }

  /** Pumps and handler are through, and everything written has been received. */
  predicate Over(s: State)
  {
    && s.toServer.Done? && s.toClient.Done? && s.handler.Returned?
    && s.client.ended
    && s.client.received == |s.client.written| && s.upstream.received == |s.upstream.written|
  }

  lemma OverStays(cfg: Config, s: State)
    requires Over(s)
    ensures Enabled(cfg, s, PeerEnds(Client)) && Apply(cfg, s, PeerEnds(Client)) == s
  {
  }

  lemma {:induction false} PlayEnds(cfg: Config, script: seq<Step>, i: nat)
    requires Playable(cfg, script, |script|) && Over(Play(cfg, script, |script|)) && i >= |script|
    ensures Play(cfg, script, i) == Play(cfg, script, |script|) && Playable(cfg, script, i)
  {
    hide Apply, Enabled, Over, Play, Playable;
    if i > |script| {
      var s := Play(cfg, script, |script|);
      PlayEnds(cfg, script, i - 1);
      OverStays(cfg, s);
      PlayOn(cfg, script, i - 1, s, s);
    }
  }

  lemma PlayedIsBehaviour(cfg: Config, script: seq<Step>)
    requires Playable(cfg, script, |script|) && Over(Play(cfg, script, |script|))
    ensures IsBehaviour(cfg, Played(cfg, script))
  {
    hide Enabled, Apply, StepAt, Over;
    var b := Played(cfg, script);
    forall i: nat ensures Enabled(cfg, b.states(i), b.steps(i)) && b.states(i + 1) == Apply(cfg, b.states(i), b.steps(i)) {
      if i >= |script| {
        PlayEnds(cfg, script, i + 1);
      }
      assert Enabled(cfg, Play(cfg, script, i), StepAt(script, i));
    }
  }

  lemma OverIsStuck(cfg: Config, s: State, a: Actor)
    requires Over(s) && a != Peers
    ensures !CanStep(cfg, s, a)
  {
    hide Need;
  }

  lemma PlayedIsFair(cfg: Config, script: seq<Step>, a: Actor)
    requires Playable(cfg, script, |script|) && Over(Play(cfg, script, |script|)) && a != Peers
    ensures Fair(cfg, Played(cfg, script), a)
  {
    hide Over, CanStep;
    var b := Played(cfg, script);
    forall i: nat ensures ServedAfter(cfg, b, a, i) {
      var j := i + |script|;
      PlayEnds(cfg, script, j);
      OverIsStuck(cfg, b.states(j), a);
      assert ServedAt(cfg, b, a, j);
    }
  }

  lemma PlayedReceives(cfg: Config, script: seq<Step>, side: Side)
    requires Playable(cfg, script, |script|) && Over(Play(cfg, script, |script|))
    ensures KeepsReceiving(Played(cfg, script), side)
  {
    hide IsBehaviour;
    var b := Played(cfg, script);
    PlayedIsBehaviour(cfg, script);
    forall i: nat ensures ReceivesAfter(b, side, i) {
      var j := i + |script|;
      PlayEnds(cfg, script, j);
      ConnAlwaysGrows(cfg, b, side, i, j);
    }
  }

  /** A script that plays to its end is a fair execution, and both sides keep receiving. */
  ghost predicate FairSession(cfg: Config, b: Behaviour)
  {
    && IsBehaviour(cfg, b)
    && Fair(cfg, b, Pump(ToServer)) && Fair(cfg, b, Pump(ToClient)) && Fair(cfg, b, Main)
    && KeepsReceiving(b, Client) && KeepsReceiving(b, Upstream)
  }

  lemma PlayedIsFairSession(cfg: Config, script: seq<Step>)
    requires Playable(cfg, script, |script|) && Over(Play(cfg, script, |script|))
    ensures FairSession(cfg, Played(cfg, script))
  {
    hide Playable, Over, Play, IsBehaviour, Fair, KeepsReceiving, Played;
    PlayedIsBehaviour(cfg, script);
    PlayedIsFair(cfg, script, Pump(ToServer));
    PlayedIsFair(cfg, script, Pump(ToClient));
    PlayedIsFair(cfg, script, Main);
    PlayedReceives(cfg, script, Client);
    PlayedReceives(cfg, script, Upstream);
  }

  // ---------------------------------------------------------- the common end

  /** The client has ended, and both pumps wait for the next message. */
  predicate AtClientEnd(s: State)
  {
    && s.client.ended && s.client.taken == |s.client.arrived| && s.client.open && s.upstream.open
    && s.toServer == Reading([]) && s.toClient == Reading([]) && s.wg == 2 && s.handler.Waiting?
  }

  /** What the proxy does then. */
  const LEAVING :=
    [ReadFails(ToServer), Leave(ToServer), Leave(ToServer), Leave(ToServer),
     ReadFails(ToClient), Leave(ToClient), Leave(ToClient), Leave(ToClient),
     Handle, Handle, Handle]

  function WithClosed(c: Conn): Conn
  {
    c.(open := false)
  }

  function AfterEnd(s: State): State
  {
    State(WithClosed(s.client), WithClosed(s.upstream), Done, Done, 0, Returned)
  }

  lemma PlayLeaving(cfg: Config, script: seq<Step>, n: nat, s: State)
    requires |script| == n + 11 && script[n..] == LEAVING
    requires Playable(cfg, script, n) && Play(cfg, script, n) == s && AtClientEnd(s)
    ensures Playable(cfg, script, |script|) && Play(cfg, script, |script|) == AfterEnd(s)
  {
    hide Play, Playable, AfterRead;
    assert forall i :: 0 <= i < 11 ==> StepAt(script, n + i) == script[n..][i];
    NeedsLength();
    var closed := s.(client := WithClosed(s.client), upstream := WithClosed(s.upstream));
    PlayOn(cfg, script, n, s, s.(toServer := CloseClient));
    PlayOn(cfg, script, n + 1, s.(toServer := CloseClient), s.(client := WithClosed(s.client), toServer := CloseUpstream));
    PlayOn(cfg, script, n + 2, s.(client := WithClosed(s.client), toServer := CloseUpstream), closed.(toServer := SignalDone));
    PlayOn(cfg, script, n + 3, closed.(toServer := SignalDone), closed.(toServer := Done, wg := 1));
    PlayRest(cfg, script, n + 4, closed.(toServer := Done, wg := 1));
  }

  lemma PlayRest(cfg: Config, script: seq<Step>, n: nat, s: State)
    requires |script| == n + 7 && script[n..] == LEAVING[4..]
    requires Playable(cfg, script, n) && Play(cfg, script, n) == s
    requires BothClosed(s) && s.toServer.Done? && s.toClient == Reading([]) && s.wg == 1 && s.handler.Waiting?
    ensures Playable(cfg, script, |script|) && Play(cfg, script, |script|) == AfterEnd(s)
  {
    hide Play, Playable, AfterRead;
    assert forall i :: 0 <= i < 7 ==> StepAt(script, n + i) == script[n..][i];
    NeedsLength();
    var done := s.(toClient := Done, wg := 0);
    PlayOn(cfg, script, n, s, s.(toClient := CloseClient));
    PlayOn(cfg, script, n + 1, s.(toClient := CloseClient), s.(toClient := CloseUpstream));
    PlayOn(cfg, script, n + 2, s.(toClient := CloseUpstream), s.(toClient := SignalDone));
    PlayOn(cfg, script, n + 3, s.(toClient := SignalDone), done);
    PlayOn(cfg, script, n + 4, done, done.(handler := DeferUpstream));
    PlayOn(cfg, script, n + 5, done.(handler := DeferUpstream), done.(handler := DeferClient));
    PlayOn(cfg, script, n + 6, done.(handler := DeferClient), done.(handler := Returned));
  }

  // ------------------------------------------------- a request, and the end

  /** The client sends one message and ends its stream; libvirtd receives it and keeps still. */
  function RequestScript(frame: seq<byte>, out: seq<byte>): seq<Step>
    requires |frame| >= 4
  {
    [PeerSends(Client, frame), ReadSome(ToServer, 4), ReadSome(ToServer, |frame| - 4),
     Process(ToServer), WriteSome(ToServer, |out|), PeerReceives(Upstream, |out|), PeerEnds(Client)] + LEAVING
  }

  lemma FrameNeeds(m: Message)
    requires Readable(m)
    ensures var w := Wire(m); Need([]) == 4 && Need(w[..4]) == |w| - 4 && Need(w) == 0 && Read(w) == Got(m, [])
  {
    hide Wire, Read, Uint32;
    var w := Wire(m);
    ReadWire(m, []);
    assert w + [] == w;
    assert Uint32(w[..4]) == |w| by { FrameLength(m); }
    assert w[..4][..4] == w[..4];
  }

  lemma FrameLength(m: Message)
    requires Fits(m)
    ensures Uint32(Wire(m)[..4]) == |Wire(m)|
  {
    hide Uint32, PutUint32, MarshalHeader;
    assert Wire(m)[..4] == PutUint32(|Wire(m)|);
  }

  lemma SendEffect(cfg: Config, s: State, bytes: seq<byte>)
    requires !s.client.ended && !s.client.broken
    ensures var step := PeerSends(Client, bytes);
            Enabled(cfg, s, step) && Apply(cfg, s, step) == s.(client := s.client.(arrived := s.client.arrived + bytes))
  {
  }

  lemma ReadEffect(cfg: Config, s: State, k: nat, acc: seq<byte>)
    requires s.toServer.Reading? && s.client.open && 1 <= k <= Need(s.toServer.acc) && s.client.taken + k <= |s.client.arrived|
    requires acc == s.toServer.acc + s.client.arrived[s.client.taken..s.client.taken + k]
    ensures var step := ReadSome(ToServer, k);
            && Enabled(cfg, s, step)
            && Apply(cfg, s, step) == s.(client := s.client.(taken := s.client.taken + k), toServer := Reading(acc))
  {
    hide Need;
  }

  lemma ProcessEffect(cfg: Config, s: State)
    requires s.toServer.Reading? && Need(s.toServer.acc) == 0
    ensures var step := Process(ToServer);
            Enabled(cfg, s, step) && Apply(cfg, s, step) == s.(toServer := AfterRead(cfg.intercept, s.toServer.acc))
  {
    hide Need, AfterRead;
  }

  lemma WriteEffect(cfg: Config, s: State)
    requires s.toServer.Writing? && s.toServer.buf != [] && s.upstream.open
    requires |s.upstream.written| + |s.toServer.buf| <= s.upstream.received + cfg.capacity
    ensures var buf := s.toServer.buf;
            var step := WriteSome(ToServer, |buf|);
            && Enabled(cfg, s, step)
            && Apply(cfg, s, step) == s.(toServer := Reading([]), upstream := s.upstream.(written := s.upstream.written + buf))
  {
    assert s.toServer.buf[..|s.toServer.buf|] == s.toServer.buf;
  }

  lemma ReceiveEffect(cfg: Config, s: State, n: nat)
    requires s.upstream.received + n <= |s.upstream.written|
    ensures var step := PeerReceives(Upstream, n);
            Enabled(cfg, s, step) && Apply(cfg, s, step) == s.(upstream := s.upstream.(received := s.upstream.received + n))
  {
  }

  lemma EndEffect(cfg: Config, s: State)
    ensures Enabled(cfg, s, PeerEnds(Client)) && Apply(cfg, s, PeerEnds(Client)) == s.(client := s.client.(ended := true))
  {
  }

  lemma PlayReads(cfg: Config, m: Message, script: seq<Step>)
    requires Readable(m)
    requires StepAt(script, 0) == PeerSends(Client, Wire(m))
    requires StepAt(script, 1) == ReadSome(ToServer, 4)
    requires StepAt(script, 2) == ReadSome(ToServer, |Wire(m)| - 4)
    ensures Playable(cfg, script, 3)
    ensures Play(cfg, script, 3) == FullyRead(Wire(m))
  {
    hide Play, Playable, Need, Wire, StepAt, Enabled, Apply, Read;
    var w := Wire(m);
    var sent, halfway := Sent(w), HalfRead(w);
    PlayStart(cfg, script);
    FrameNeeds(m);
    assert [] + w == w;
    SendEffect(cfg, INIT, w);
    PlayOn(cfg, script, 0, INIT, sent);
    FirstHalf(cfg, w);
    PlayOn(cfg, script, 1, sent, halfway);
    SecondHalf(cfg, w);
    PlayOn(cfg, script, 2, halfway, FullyRead(w));
  }

  function Sent(w: seq<byte>): State
  {
    INIT.(client := FRESH_CONN.(arrived := w))
  }

  function HalfRead(w: seq<byte>): State
    requires |w| >= 4
  {
    INIT.(client := FRESH_CONN.(arrived := w, taken := 4), toServer := Reading(w[..4]))
  }

  function FullyRead(w: seq<byte>): State
  {
    INIT.(client := FRESH_CONN.(arrived := w, taken := |w|), toServer := Reading(w))
  }

  lemma FirstHalf(cfg: Config, w: seq<byte>)
    requires |w| > 4 && Need([]) == 4
    ensures Enabled(cfg, Sent(w), ReadSome(ToServer, 4)) && Apply(cfg, Sent(w), ReadSome(ToServer, 4)) == HalfRead(w)
  {
    hide Enabled, Apply, Need;
    assert w[..4] == [] + w[0..4];
    ReadEffect(cfg, Sent(w), 4, w[..4]);
  }

  lemma SecondHalf(cfg: Config, w: seq<byte>)
    requires |w| > 4 && Need(w[..4]) == |w| - 4
    ensures var step := ReadSome(ToServer, |w| - 4);
            Enabled(cfg, HalfRead(w), step) && Apply(cfg, HalfRead(w), step) == FullyRead(w)
  {
    hide Enabled, Apply, Need;
    assert w == w[..4] + w[4..|w|];
    ReadEffect(cfg, HalfRead(w), |w| - 4, w);
  }

  lemma PlayStart(cfg: Config, script: seq<Step>)
    ensures Playable(cfg, script, 0) && Play(cfg, script, 0) == INIT
  {
  }

  lemma FrameIsProcessed(f: Processor, m: Message)
    requires Readable(m) && Fits(Processed(f, m))
    ensures Need(Wire(m)) == 0 && AfterRead(f, Wire(m)) == Writing(Wire(Processed(f, m))) && Wire(Processed(f, m)) != []
  {
    hide Wire, Need, Read;
    FrameNeeds(m);
    SerializeIsWire(Processed(f, m));
  }

  lemma PlayWrites(cfg: Config, m: Message, script: seq<Step>, s: State)
    requires Readable(m) && Fits(Processed(cfg.intercept, m))
    requires |Wire(Processed(cfg.intercept, m))| <= cfg.capacity
    requires Playable(cfg, script, 3) && Play(cfg, script, 3) == s
    requires s.toServer == Reading(Wire(m)) && s.upstream == FRESH_CONN
    requires StepAt(script, 3) == Process(ToServer)
    requires StepAt(script, 4) == WriteSome(ToServer, |Wire(Processed(cfg.intercept, m))|)
    requires StepAt(script, 5) == PeerReceives(Upstream, |Wire(Processed(cfg.intercept, m))|)
    requires StepAt(script, 6) == PeerEnds(Client)
    ensures var out := Wire(Processed(cfg.intercept, m));
            && Playable(cfg, script, 7)
            && Play(cfg, script, 7) == s.(client := s.client.(ended := true), toServer := Reading([]),
                                          upstream := FRESH_CONN.(written := out, received := |out|))
  {
    hide Play, Playable, AfterRead, Need, Wire, StepAt, Enabled, Apply;
    var out := Wire(Processed(cfg.intercept, m));
    FrameIsProcessed(cfg.intercept, m);
    assert [] + out == out;
    var writing := s.(toServer := Writing(out));
    ProcessEffect(cfg, s);
    PlayOn(cfg, script, 3, s, writing);
    var written := s.(toServer := Reading([]), upstream := FRESH_CONN.(written := out));
    WriteEffect(cfg, writing);
    PlayOn(cfg, script, 4, writing, written);
    var received := s.(toServer := Reading([]), upstream := FRESH_CONN.(written := out, received := |out|));
    ReceiveEffect(cfg, written, |out|);
    PlayOn(cfg, script, 5, written, received);
    EndEffect(cfg, received);
    PlayOn(cfg, script, 6, received, received.(client := s.client.(ended := true)));
  }

  /** Neither side resets its connection, and libvirtd neither sends nor ends. */
  predicate Gentle(step: Step)
  {
    match step
    case PeerBreaks(_) => false
    case PeerSends(side, _) => side == Client
    case PeerEnds(side) => side == Client
    case _ => true
  }

  predicate Quiet(s: State)
  {
    !Reset(s) && s.upstream.arrived == [] && !s.upstream.ended
  }

  lemma QuietStep(cfg: Config, s: State, step: Step)
    requires Quiet(s) && Gentle(step) && Enabled(cfg, s, step)
    ensures Quiet(Apply(cfg, s, step))
  {
    hide Need, AfterRead;
  }

  lemma {:induction false} QuietPlay(cfg: Config, script: seq<Step>, i: nat)
    requires forall j :: 0 <= j < |script| ==> Gentle(script[j])
    ensures Quiet(Play(cfg, script, i))
  {
    hide Enabled, Apply, Quiet;
    if i == 0 {
      QuietStart();
    } else {
      QuietPlay(cfg, script, i - 1);
      if Enabled(cfg, Play(cfg, script, i - 1), StepAt(script, i - 1)) {
        QuietStep(cfg, Play(cfg, script, i - 1), StepAt(script, i - 1));
      }
    }
  }

  lemma QuietStart()
    ensures Quiet(INIT)
  {
  }

  lemma QuietIsUnhindered(cfg: Config, s: State)
    requires Quiet(s)
    ensures !Hindered(cfg, s, ToServer)
  {
    FramesOfNothing();
  }

  /**
   * The premises of delivery can be met: for every message there is a fair execution in which
   * the client sends it and ends its stream, and all that EndDeliversAndReturns asks for holds.
   */
  lemma RequestSession(cfg: Config, m: Message) returns (b: Behaviour, i: nat)
    requires Readable(m) && Fits(Processed(cfg.intercept, m))
    requires |Wire(Processed(cfg.intercept, m))| <= cfg.capacity
    ensures FairSession(cfg, b) && cfg.capacity > 0 && Unhindered(cfg, b, ToServer)
    ensures Src(b.states(i), ToServer).ended && Copying(PcOf(b.states(i), ToServer))
    ensures Src(b.states(i), ToServer).arrived == Wire(m)
  {
    hide Play, Playable, Gentle, Wire, FairSession, RequestScript, StepAt, Unhindered, Played;
    var w, out := Wire(m), Wire(Processed(cfg.intercept, m));
    var script := RequestScript(w, out);
    RequestSteps(w, out);
    RequestIsGentle(w, out);
    PlayReads(cfg, m, script);
    PlayWrites(cfg, m, script, Play(cfg, script, 3));
    PlayLeaving(cfg, script, 7, Play(cfg, script, 7));
    PlayedIsFairSession(cfg, script);
    b, i := Played(cfg, script), 7;
    GentleIsUnhindered(cfg, script);
    PlayedAt(cfg, script, 7);
  }

  lemma PlayedAt(cfg: Config, script: seq<Step>, i: nat)
    ensures Played(cfg, script).states(i) == Play(cfg, script, i)
  {
  }

  lemma RequestSteps(frame: seq<byte>, out: seq<byte>)
    requires |frame| >= 4
    ensures var script := RequestScript(frame, out);
            && |script| == 18 && script[7..] == LEAVING
            && StepAt(script, 0) == PeerSends(Client, frame)
            && StepAt(script, 1) == ReadSome(ToServer, 4)
            && StepAt(script, 2) == ReadSome(ToServer, |frame| - 4)
            && StepAt(script, 3) == Process(ToServer)
            && StepAt(script, 4) == WriteSome(ToServer, |out|)
            && StepAt(script, 5) == PeerReceives(Upstream, |out|)
            && StepAt(script, 6) == PeerEnds(Client)
  {
  }

  lemma GentleIsUnhindered(cfg: Config, script: seq<Step>)
    requires forall j :: 0 <= j < |script| ==> Gentle(script[j])
    ensures Unhindered(cfg, Played(cfg, script), ToServer)
  {
    hide Play, Hindered, Gentle;
    forall j: nat ensures !Hindered(cfg, Played(cfg, script).states(j), ToServer) {
      QuietPlay(cfg, script, j);
      QuietIsUnhindered(cfg, Play(cfg, script, j));
    }
  }

  lemma RequestIsGentle(frame: seq<byte>, out: seq<byte>)
    requires |frame| >= 4
    ensures var script := RequestScript(frame, out); forall j :: 0 <= j < |script| ==> Gentle(script[j])
  {
  }

  // ---------------------------------------------------------- a reply is lost

  /** libvirtd sends a message, and the client ends its stream before the pump has read it. */
  function ReplyScript(frame: seq<byte>): seq<Step>
  {
    [PeerSends(Upstream, frame), PeerEnds(Client)] + LEAVING
  }

  predicate ClientGetsNothing(s: State)
  {
    !Reset(s) && s.client.written == []
  }

  lemma NothingStep(cfg: Config, s: State, step: Step)
    requires ClientGetsNothing(s) && Enabled(cfg, s, step) && !step.PeerBreaks? && !step.WriteSome?
    ensures ClientGetsNothing(Apply(cfg, s, step))
  {
    hide Need, AfterRead;
  }

  lemma {:induction false} NothingPlay(cfg: Config, script: seq<Step>, i: nat)
    requires forall j :: 0 <= j < |script| ==> !script[j].PeerBreaks? && !script[j].WriteSome?
    ensures ClientGetsNothing(Play(cfg, script, i))
  {
    hide Enabled, Apply;
    if i > 0 {
      NothingPlay(cfg, script, i - 1);
      if Enabled(cfg, Play(cfg, script, i - 1), StepAt(script, i - 1)) {
        NothingStep(cfg, Play(cfg, script, i - 1), StepAt(script, i - 1));
      }
    }
  }

  /**
   * Delivery does need its condition. A client that ends its stream while it waits for a reply
   * can lose it: here nothing is reset, every goroutine gets its turn, the client would receive,
   * libvirtd has sent a message, and not a byte of it ever reaches the client.
   */
  lemma ReplyIsLost(cfg: Config, m: Message) returns (b: Behaviour, i: nat)
    requires Readable(m) && cfg.capacity > 0
    ensures FairSession(cfg, b)
    ensures Copying(PcOf(b.states(i), ToClient)) && Src(b.states(i), ToClient).arrived == Wire(m)
    ensures Forwarded(Passthrough, Wire(m)) == Wire(m)
    ensures forall k: nat :: !Reset(b.states(k)) && b.states(k).client.written == []
  {
    var w := Wire(m);
    var script := ReplyScript(w);
    OneFrameForwarded(m);
    PlayReply(cfg, w);
    ReplyWritesNothing(w);
    hide Play, Playable, Wire, FairSession, Forwarded, ReplyScript, Over;
    PlayedIsFairSession(cfg, script);
    b, i := Played(cfg, script), 1;
    forall k: nat ensures !Reset(b.states(k)) && b.states(k).client.written == [] {
      NothingPlay(cfg, script, k);
    }
  }

  lemma ReplyWritesNothing(frame: seq<byte>)
    ensures var script := ReplyScript(frame); forall j :: 0 <= j < |script| ==> !script[j].PeerBreaks? && !script[j].WriteSome?
  {
  }

  lemma PlayReply(cfg: Config, w: seq<byte>)
    ensures var script := ReplyScript(w);
            && Playable(cfg, script, |script|) && Over(Play(cfg, script, |script|))
            && Play(cfg, script, 1) == INIT.(upstream := FRESH_CONN.(arrived := w))
  {
    var script := ReplyScript(w);
    assert script[2..] == LEAVING;
    assert Playable(cfg, script, 0) && Play(cfg, script, 0) == INIT;
    hide Play, Playable;
    var sent := INIT.(upstream := FRESH_CONN.(arrived := w));
    var ended := sent.(client := FRESH_CONN.(ended := true));
    assert [] + w == w;
    PlayOn(cfg, script, 0, INIT, sent);
    PlayOn(cfg, script, 1, sent, ended);
    PlayLeaving(cfg, script, 2, ended);
  }

  lemma OneFrameForwarded(m: Message)
    requires Readable(m)
    ensures Forwarded(Passthrough, Wire(m)) == Wire(m)
  {
    hide Wire, Read, Serialize;
    FrameNeeds(m);
    FramesOfNothing();
    SerializeIsWire(m);
    assert Forwarded(Passthrough, []) == [];
    assert Wire(m) + [] == Wire(m);
  }
}
