/** The whole path: a client's define call, the proxy, and dramachine.py as its hook. */
module EndToEnd {
  import opened Bytes
  import opened Protocol
  import opened Forwarding
  import opened Proxy
  import opened Dramachine
  import Extension
  import Hooks
  import Delivery
  import Progress
  import Session
  import Teardown
  import Xdr

  /** dramachine.py as a script of the hook chain, whatever the path it is installed under. */
  function DramachineScripts(codec: Codec): Hooks.Scripts
  {
    (path: Str, xml: Str) =>
      var out := ProcessXmlStream(codec, xml);
      if out.code == 0 then Hooks.Success(out.output) else Hooks.Failure
  }

  /** The chain of a proxy started with --hook dramachine.py and nothing else. */
  function DramachineChain(codec: Codec, path: Str): Chain
  {
    ChainOf(Hooks.HookChain(path, []), Hooks.World(None, [], DramachineScripts(codec)))
  }

  lemma ChainIsOneHook(codec: Codec, path: Str, xml: Str)
    requires path != []
    ensures DramachineChain(codec, path)(xml) == Some(Hooks.Effect(DramachineScripts(codec), path, xml))
  {
    hide Hooks.ChainResult, Hooks.Effect;
    Hooks.SingleHookChain(path, Hooks.World(None, [], DramachineScripts(codec)), xml);
  }

  /** The chain that runs dramachine.py is idempotent on every text. */
  lemma DramachineChainIsIdempotent(codec: Codec, path: Str)
    requires path != [] && forall data :: PrintsBack(codec, data)
    ensures IdempotentChain(DramachineChain(codec, path))
  {
    hide ProcessXmlStream, PrintsBack, Hooks.Blank;
    var run := DramachineChain(codec, path);
    forall xml | run(xml).Some? ensures run(run(xml).value) == run(xml) {
      ChainIsOneHook(codec, path, xml);
      ChainIsOneHook(codec, path, run(xml).value);
      if ProcessXmlStream(codec, xml).code == 0 {
        FilterIsIdempotent(codec, xml);
      }
    }
  }

  /** The text a define call carries. */
  predicate Carries(m: Message, xml: Str)
  {
    IsDomainDefineCall(m.header) && Xdr.Decode(m.payload).Decoded? && Xdr.Decode(m.payload).str == xml
  }

  /** The XML is that of a minikube worker, and its conforming version can be sent. */
  ghost predicate Sendable(codec: Codec, xml: Str)
  {
    && xml != [] && codec.parse(xml).Some? && Selected(codec.parse(xml).value) && PrintsBack(codec, xml)
    && !Hooks.Blank(ProcessXmlStream(codec, xml).output)
    && |ProcessXmlStream(codec, xml).output| <= 4194304
  }

  /** The message defines a domain that conforms, extends the one in `xml` and is still a worker. */
  ghost predicate CarriesConforming(codec: Codec, m: Message, xml: Str)
  {
    && Carries(m, ProcessXmlStream(codec, xml).output)
    && codec.parse(xml).Some?
    && var before, after := codec.parse(xml), codec.parse(ProcessXmlStream(codec, xml).output);
    && after.Some?
    && Conforms(after.value)
    && Extension.Extends(before.value, after.value, DOMAIN_SCOPE)
    && Selected(after.value)
    && IgbCount(after.value) == Max(1, IgbCount(before.value))
    && InterfaceEnsured(before.value, after.value)
  }

  /**
   * What libvirtd is asked to define. If the client defines a minikube worker, the call that
   * leaves the proxy carries a domain that conforms, that extends the client's by at most one
   * igb interface and is still a worker, followed by the client's own bytes.
   */
  lemma DefinedDomainConforms(codec: Codec, path: Str, m: Message, xml: Str)
    requires path != [] && Carries(m, xml) && Sendable(codec, xml)
    ensures var m' := Processed(Intercept(DramachineChain(codec, path)), m);
            && CarriesConforming(codec, m', xml)
            && m'.header == m.header
            && Xdr.Tail(m'.payload) == Xdr.Tail(m.payload)
  {
    hide ProcessXmlStream, Hooks.Blank, Conforms, Selected, Extension.Extends, IgbCount, InterfaceEnsured, Xdr.Decode, Xdr.Encode, RunPasses;
    var run := DramachineChain(codec, path);
    OutputConforms(codec, xml);
    ChainIsOneHook(codec, path, xml);
    InterceptRefines(run, m);
  }

  /**
   * Over all runs of a session: everything libvirtd has received is a beginning of the
   * frame-by-frame image of what the client sent.
   */
  lemma SessionDeliversFrameMap(run: Chain, capacity: nat, steps: seq<Session.Step>)
    requires Session.ValidRun(Session.Config(Intercept(run), capacity), Session.INIT, steps)
    requires AllFit(ProcessedAll(Intercept(run), Frames(Reached(run, capacity, steps).client.arrived)))
    ensures var s := Reached(run, capacity, steps);
            && s.upstream.received <= |s.upstream.written|
            && Session.Delivered(s.upstream) <= WireAll(ProcessedAll(Intercept(run), Frames(s.client.arrived)))
  {
    hide Session.ValidRun, Session.Exec, Frames, WireAll, Forwarded;
    Session.DeliveryIsFaithful(Session.Config(Intercept(run), capacity), steps);
    ForwardedIsMap(Intercept(run), Reached(run, capacity, steps).client.arrived);
  }

  /** The state that a run of a session ends in. */
  function Reached(run: Chain, capacity: nat, steps: seq<Session.Step>): Session.State
    requires Session.ValidRun(Session.Config(Intercept(run), capacity), Session.INIT, steps)
  {
    Session.Exec(Session.Config(Intercept(run), capacity), Session.INIT, steps)
  }

  /**
   * Over all runs of a session: the messages in what libvirtd has received are the first ones
   * that the client sent, as many as have arrived, in order, each refining its original.
   */
  lemma SessionDeliversMessages(run: Chain, capacity: nat, steps: seq<Session.Step>)
    requires Session.ValidRun(Session.Config(Intercept(run), capacity), Session.INIT, steps)
    requires AllFit(ProcessedAll(Intercept(run), Frames(Reached(run, capacity, steps).client.arrived)))
    ensures var s := Reached(run, capacity, steps);
            && s.upstream.received <= |s.upstream.written|
            && var sent, seen := Frames(s.client.arrived), Frames(Session.Delivered(s.upstream));
            && |seen| <= |sent|
            && forall i :: 0 <= i < |seen| ==> seen[i] == Processed(Intercept(run), sent[i]) && Refines(run, sent[i], seen[i])
  {
    hide Session.ValidRun, Session.Exec, Frames, Forwarded, Refines;
    var s := Reached(run, capacity, steps);
    Session.DeliveryIsFaithful(Session.Config(Intercept(run), capacity), steps);
    DownstreamReadsProcessed(Intercept(run), s.client.arrived, Session.Delivered(s.upstream));
    var sent, seen := Frames(s.client.arrived), Frames(Session.Delivered(s.upstream));
    forall i | 0 <= i < |seen| ensures seen[i] == Processed(Intercept(run), sent[i]) && Refines(run, sent[i], seen[i]) {
      assert seen[i] == ProcessedAll(Intercept(run), sent)[i];
      InterceptRefines(run, sent[i]);
    }
  }

  /**
   * With dramachine.py as the hook: in every reachable state of a session, every definition of
   * a minikube worker that libvirtd has received is one of a conforming domain.
   */
  lemma ReceivedDomainsConform(codec: Codec, path: Str, capacity: nat, steps: seq<Session.Step>)
    requires path != []
    requires var run := DramachineChain(codec, path);
             && Session.ValidRun(Session.Config(Intercept(run), capacity), Session.INIT, steps)
             && AllFit(ProcessedAll(Intercept(run), Frames(Reached(run, capacity, steps).client.arrived)))
    ensures var s := Reached(DramachineChain(codec, path), capacity, steps);
            && s.upstream.received <= |s.upstream.written|
            && var sent, seen := Frames(s.client.arrived), Frames(Session.Delivered(s.upstream));
            && |seen| <= |sent|
            && forall i, xml :: 0 <= i < |seen| && Carries(sent[i], xml) && Sendable(codec, xml) ==>
                 CarriesConforming(codec, seen[i], xml)
  {
    hide Session.ValidRun, Session.Exec, Frames, Refines, Sendable, CarriesConforming, Carries;
    var run := DramachineChain(codec, path);
    var s := Reached(run, capacity, steps);
    SessionDeliversMessages(run, capacity, steps);
    var sent, seen := Frames(s.client.arrived), Frames(Session.Delivered(s.upstream));
    forall i, xml | 0 <= i < |seen| && Carries(sent[i], xml) && Sendable(codec, xml)
      ensures CarriesConforming(codec, seen[i], xml)
    {
      DefinedDomainConforms(codec, path, sent[i], xml);
    }
  }

  /**
   * And they do arrive: in every fair execution, a worker that the client defines in its `n`-th
   * message is eventually among what libvirtd has received, in that place and conforming, if
   * libvirtd keeps receiving and the peers do nothing to hinder it.
   */
  lemma WorkerDefinitionArrives(codec: Codec, path: Str, capacity: nat, b: Teardown.Behaviour, i: nat, n: nat, xml: Str)
    returns (k: nat)
    requires path != [] && capacity > 0
    requires var cfg := Session.Config(Intercept(DramachineChain(codec, path)), capacity);
             && Teardown.IsBehaviour(cfg, b)
             && Teardown.Fair(cfg, b, Session.Pump(Session.ToServer))
             && Progress.KeepsReceiving(b, Session.Upstream)
             && Delivery.Unhindered(cfg, b, Session.ToServer)
    requires Progress.Copying(b.states(i).toServer)
    requires var sent := Frames(b.states(i).client.arrived);
             var ms := ProcessedAll(Intercept(DramachineChain(codec, path)), sent);
             && AllFit(ms) && n < |sent| && AllReadable(ms[..n + 1])
             && Carries(sent[n], xml) && Sendable(codec, xml)
    ensures k >= i && b.states(k).upstream.received <= |b.states(k).upstream.written|
    ensures var seen := Frames(Session.Delivered(b.states(k).upstream));
            n < |seen| && CarriesConforming(codec, seen[n], xml)
  {
    hide Teardown.IsBehaviour, Teardown.Fair, Progress.KeepsReceiving, Delivery.Unhindered;
    hide Frames, Readable, Fits, Sendable, CarriesConforming, Carries;
    var run := DramachineChain(codec, path);
    var cfg := Session.Config(Intercept(run), capacity);
    k := Delivery.EveryMessageArrives(cfg, b, Session.ToServer, i, n + 1);
    var sent := Frames(b.states(i).client.arrived);
    var ms := ProcessedAll(Intercept(run), sent);
    assert ms[..n + 1][n] == ms[n] == Processed(Intercept(run), sent[n]);
    DefinedDomainConforms(codec, path, sent[n], xml);
  }
}
