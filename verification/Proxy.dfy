/** Interception of domain definitions on the client-to-server path. */
module Proxy {
  import opened Bytes
  import opened Protocol
  import opened Forwarding
  import Xdr
  import Hooks

  /** A hook chain as its caller sees it: None is the error of HookChain.Run. */
  type Chain = Str -> Option<Str>

  function ChainOf(hc: Hooks.HookChain, w: Hooks.World): Chain
  {
    xml => Hooks.ChainResult(hc, w, xml)
  }

  /** patchDefineXML; None is its error. */
  function PatchDefineXML(run: Chain, payload: seq<byte>): Option<seq<byte>>
  {
    match Xdr.Decode(payload)
    case Rejected => None
    case Decoded(xml, _) =>
      match run(xml)
      case None => None
      case Some(patched) => if patched == xml then Some(payload) else Xdr.Replace(payload, patched)
  }

  /** The intercept closure: every failure forwards the original payload. */
  function Intercept(run: Chain): Processor
  {
    (h: Header, payload: seq<byte>) =>
      if !IsDomainDefineCall(h) then payload
      else match PatchDefineXML(run, payload)
           case None => payload
           case Some(updated) => updated
  }

  /** The hooks have an answer for this payload: it decodes, and the chain does not fail on it. */
  predicate Answered(run: Chain, payload: seq<byte>)
  {
    Xdr.Decode(payload).Decoded? && run(Xdr.Decode(payload).str).Some?
  }

  function Answer(run: Chain, payload: seq<byte>): Str
    requires Answered(run, payload)
  {
    run(Xdr.Decode(payload).str).value
  }

  /**
   * What the frame map promises for one message: the header stays, the payload of anything
   * but an answered define call stays, and an answered define call carries the hooks' XML as
   * its first string in front of unchanged bytes, even when libvirt will reject it as too long.
   */
  ghost predicate Refines(run: Chain, m: Message, m': Message)
  {
    && m'.header == m.header
    && (!IsDomainDefineCall(m.header) || !Answered(run, m.payload) ==> m'.payload == m.payload)
    && (IsDomainDefineCall(m.header) && Answered(run, m.payload) && |Answer(run, m.payload)| <= 4194304 ==>
          && Xdr.Decode(m'.payload).Decoded?
          && Xdr.Decode(m'.payload).str == Answer(run, m.payload)
          && Xdr.Tail(m'.payload) == Xdr.Tail(m.payload))
    && (IsDomainDefineCall(m.header) && Answered(run, m.payload) && |Answer(run, m.payload)| > 4194304 ==>
          m'.payload == Xdr.Encode(Answer(run, m.payload)) + Xdr.Tail(m.payload))
    && |m'.payload| % 4 == |m.payload| % 4
  }

  lemma InterceptRefines(run: Chain, m: Message)
    ensures Refines(run, m, Processed(Intercept(run), m))
  {
    hide Xdr.Decode, Xdr.Encode;
    if IsDomainDefineCall(m.header) && Answered(run, m.payload) {
      var y := Answer(run, m.payload);
      if |y| <= Xdr.STRING_MAX {
        Xdr.ReplaceThenDecode(m.payload, y);
      }
      Xdr.ReplaceKeepsAlignment(m.payload, y);
    }
  }

  /**
   * The client-to-server path, seen from libvirtd: as many messages as the client sent, in
   * order, each refining its original. It holds for every byte stream whose messages are
   * still readable after the hooks.
   */
  lemma ClientPathRefinesFrameMap(run: Chain, s: seq<byte>)
    requires AllReadable(ProcessedAll(Intercept(run), Frames(s)))
    ensures |Frames(Forwarded(Intercept(run), s))| == |Frames(s)|
    ensures forall i :: 0 <= i < |Frames(s)| ==> Refines(run, Frames(s)[i], Frames(Forwarded(Intercept(run), s))[i])
    ensures LegalStream(Forwarded(Intercept(run), s))
  {
    hide Refines;
    ForwardedReadBack(Intercept(run), s);
    forall i | 0 <= i < |Frames(s)| ensures Refines(run, Frames(s)[i], Frames(Forwarded(Intercept(run), s))[i]) {
      InterceptRefines(run, Frames(s)[i]);
    }
  }

  /** Bytes that the XML takes on the wire: length word, text and padding. */
  function XdrSize(s: Str): nat
  {
    4 + |s| + Xdr.Pad(|s|)
  }

  /**
   * A patched define call stays readable exactly when the header, the new XML and the bytes
   * behind it fit the 32 MiB limit. Neither the encoder nor the writer checks this.
   */
  lemma PatchedReadableIff(run: Chain, m: Message)
    requires IsDomainDefineCall(m.header) && Answered(run, m.payload)
    requires Answer(run, m.payload) != Xdr.Decode(m.payload).str
    ensures Readable(Processed(Intercept(run), m))
            <==> 24 + |Xdr.Tail(m.payload)| + XdrSize(Answer(run, m.payload)) <= 33554432
  {
    hide Xdr.Decode, Xdr.Encode;
  }

  // ------------------------------------------------------------- idempotence

  /** Running the chain on its own output changes nothing. */
  ghost predicate IdempotentChain(run: Chain)
  {
    forall x :: run(x).Some? ==> run(run(x).value) == run(x)
  }

  /** The chain never produces a text whose length does not fit the XDR length word. */
  ghost predicate WordSized(run: Chain)
  {
    forall x :: run(x).Some? ==> |run(x).value| < TWO_TO_32
  }

  /**
   * Patching with an idempotent chain is idempotent, byte for byte, on every payload: also
   * on those it cannot decode, with any padding, and when the new XML is over the limit.
   */
  lemma InterceptIdempotent(run: Chain, m: Message)
    requires IdempotentChain(run) && WordSized(run)
    ensures Processed(Intercept(run), Processed(Intercept(run), m)) == Processed(Intercept(run), m)
  {
    hide Xdr.Decode, Xdr.Encode;
    if IsDomainDefineCall(m.header) && Answered(run, m.payload) {
      var y := Answer(run, m.payload);
      if |y| <= Xdr.STRING_MAX {
        Xdr.ReplaceThenDecode(m.payload, y);
      } else {
        Xdr.DecodeRejectsLong(y, Xdr.Tail(m.payload));
      }
    }
  }

  /**
   * Two proxies in series with the same idempotent hooks are one: on any client stream the
   * second forwards exactly the bytes it is given, if and only if every patched message is
   * still readable.
   */
  lemma ProxiesInSeriesIff(run: Chain, s: seq<byte>)
    requires IdempotentChain(run) && WordSized(run)
    requires AllFit(ProcessedAll(Intercept(run), Frames(s)))
    ensures Forwarded(Intercept(run), Forwarded(Intercept(run), s)) == Forwarded(Intercept(run), s)
            <==> AllReadable(ProcessedAll(Intercept(run), Frames(s)))
  {
    forall i | 0 <= i < |Frames(s)|
      ensures Processed(Intercept(run), Processed(Intercept(run), Frames(s)[i])) == Processed(Intercept(run), Frames(s)[i])
    {
      InterceptIdempotent(run, Frames(s)[i]);
    }
    ForwardedTwiceIff(Intercept(run), s);
  }

  /** A define call of procedure 11 whose XML is one letter. */
  const SMALL_CALL :=
    Message(Header(REMOTE_PROGRAM, REMOTE_PROTOCOL_VERSION, PROC_DOMAIN_DEFINE_XML, TYPE_CALL, 0, 0), Xdr.Encode([65]))

  /** Hooks that answer everything with the same 32 MiB. */
  const HUGE_ANSWER: Chain := (xml: Str) => Some(Zeros(MAX_MESSAGE_SIZE))

  /**
   * The limit is real: hooks can turn a call that libvirtd would read into one that it does
   * not, and behind a second proxy with the same idempotent hooks nothing arrives at all.
   */
  lemma HugeAnswerIsUnreadable()
    ensures Readable(SMALL_CALL) && !Readable(Processed(Intercept(HUGE_ANSWER), SMALL_CALL))
    ensures IdempotentChain(HUGE_ANSWER) && WordSized(HUGE_ANSWER)
    ensures Forwarded(Intercept(HUGE_ANSWER), Wire(SMALL_CALL)) != []
    ensures Forwarded(Intercept(HUGE_ANSWER), Forwarded(Intercept(HUGE_ANSWER), Wire(SMALL_CALL))) == []
  {
    hide Xdr.Decode, Xdr.Encode, Wire, Read, Serialize, Zeros;
    var f, m := Intercept(HUGE_ANSWER), SMALL_CALL;
    Xdr.DecodeEncode([65], []);
    assert Xdr.Encode([65]) + [] == Xdr.Encode([65]);
    assert [65] != Zeros(MAX_MESSAGE_SIZE);
    PatchedReadableIff(HUGE_ANSWER, m);
    var m' := Processed(f, m);
    assert Fits(m');
    ReadWire(m, []);
    assert Wire(m) + [] == Wire(m);
    SerializeIsWire(m');
    ReadWire(m', []);
    FramesOfNothing();
    assert Wire(m') + [] == Wire(m');
    assert Forwarded(f, []) == [];
    assert Forwarded(f, Wire(m)) == Wire(m');
  }

  /** A chain that answers with its input makes the proxy transparent in both directions. */
  lemma UnchangedXmlIsTransparent(run: Chain, s: seq<byte>)
    requires forall x :: run(x).Some? ==> run(x).value == x
    ensures Forwarded(Intercept(run), s) == Forwarded(Passthrough, s)
  {
    hide Read, Serialize;
    SameOutput(Intercept(run), Passthrough, s);
  }

  lemma {:induction false} SameOutput(f: Processor, g: Processor, s: seq<byte>)
    requires forall h, p :: f(h, p) == g(h, p)
    ensures Forwarded(f, s) == Forwarded(g, s)
    decreases |s|
  {
    hide Read, Serialize;
    if Read(s).Got? {
      SameOutput(f, g, Read(s).rest);
    }
  }
}
