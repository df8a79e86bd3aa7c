/** The forward loop as a function from the bytes read to the bytes written. */
module Forwarding {
  import opened Bytes
  import opened Protocol

  /** What a pump does to a payload between reading and writing a message. */
  type Processor = (Header, seq<byte>) -> seq<byte>

  /** The processor of the server-to-client pump. */
  function Passthrough(h: Header, payload: seq<byte>): seq<byte>
  {
    payload
  }

  function Processed(f: Processor, m: Message): Message
  {
    Message(m.header, f(m.header, m.payload))
  }

  function ProcessedAll(f: Processor, ms: seq<Message>): seq<Message>
  {
    seq(|ms|, i requires 0 <= i < |ms| => Processed(f, ms[i]))
  }

  /**
   * All bytes the loop writes when its source delivers `s` and ends: it stops at the first
   * message that cannot be read, or whose serialization panics.
   */
  function Forwarded(f: Processor, s: seq<byte>): seq<byte>
    decreases |s|
  {
    match Read(s)
    case Failed(_) => []
    case Got(m, rest) =>
      match Serialize(Processed(f, m))
      case Panic => []
      case Buffer(b) => b + Forwarded(f, rest)
  }

  /** `s` is whole frames and every one of them can be written. */
  predicate Clean(f: Processor, s: seq<byte>)
    decreases |s|
  {
    match Read(s)
    case Failed(_) => s == []
    case Got(m, rest) => Serialize(Processed(f, m)).Buffer? && Clean(f, rest)
  }

  lemma {:induction false} ForwardedAppend(f: Processor, a: seq<byte>, b: seq<byte>)
    requires Clean(f, a)
    ensures Forwarded(f, a + b) == Forwarded(f, a) + Forwarded(f, b)
    ensures Clean(f, b) ==> Clean(f, a + b)
    decreases |a|
  {
    hide Read, Serialize;
    if a == [] {
      FramesOfNothing();
      assert a + b == b;
    } else {
      var m, rest := Read(a).msg, Read(a).rest;
      ReadMonotone(a, b);
      ForwardedAppend(f, rest, b);
      var w := Serialize(Processed(f, m)).bytes;
      assert w + (Forwarded(f, rest) + Forwarded(f, b)) == (w + Forwarded(f, rest)) + Forwarded(f, b);
    }
  }

  /** A pump that has seen more of its input has written more of the same output. */
  lemma {:induction false} ForwardedMonotone(f: Processor, s: seq<byte>, t: seq<byte>)
    ensures Forwarded(f, s) <= Forwarded(f, s + t)
    decreases |s|
  {
    hide Read, Serialize;
    if Read(s).Got? {
      ReadMonotone(s, t);
      ForwardedMonotone(f, Read(s).rest, t);
    }
  }

  /**
   * The loop is a map over frames: as many messages, in the same order, each under its own
   * header, with the processor's payload.
   */
  lemma {:induction false} ForwardedIsMap(f: Processor, s: seq<byte>)
    requires AllFit(ProcessedAll(f, Frames(s)))
    ensures Forwarded(f, s) == WireAll(ProcessedAll(f, Frames(s)))
    decreases |s|
  {
    hide Read, Serialize, Wire;
    if Read(s).Got? {
      var m, rest := Read(s).msg, Read(s).rest;
      var ms, ms' := ProcessedAll(f, Frames(s)), ProcessedAll(f, Frames(rest));
      assert ms == [Processed(f, m)] + ms';
      assert AllFit(ms') by {
        assert forall i :: 0 <= i < |ms'| ==> ms'[i] == ms[i + 1];
      }
      assert Fits(ms[0]);
      SerializeIsWire(Processed(f, m));
      ForwardedIsMap(f, rest);
      WireAllCons(Processed(f, m), ms');
    }
  }

  /** What a peer that reads messages sees behind the loop. */
  lemma ForwardedReadBack(f: Processor, s: seq<byte>)
    requires AllReadable(ProcessedAll(f, Frames(s)))
    ensures Frames(Forwarded(f, s)) == ProcessedAll(f, Frames(s))
    ensures LegalStream(Forwarded(f, s))
  {
    hide Read, Serialize, Wire;
    var ms := ProcessedAll(f, Frames(s));
    assert AllFit(ms) by {
      forall i | 0 <= i < |ms| ensures Fits(ms[i]) { assert Readable(ms[i]); }
    }
    ForwardedIsMap(f, s);
    FramesOfWire(ms, []);
    assert WireAll(ms) + [] == WireAll(ms);
    FramesOfNothing();
    LegalStreamIff(WireAll(ms));
  }

  lemma FramesOfNothing()
    ensures Read([]).Failed? && Frames([]) == [] && Leftover([]) == []
  {
  }

  /**
   * Transparency: the server-to-client pump writes exactly the longest prefix of its input
   * that consists of complete legal frames, and what follows that prefix is no legal frame.
   */
  lemma PassthroughWritesLongestLegalPrefix(s: seq<byte>)
    ensures Forwarded(Passthrough, s) <= s
    ensures LegalStream(Forwarded(Passthrough, s))
    ensures forall k: nat :: k <= |s| && LegalStream(s[..k]) ==> k <= |Forwarded(Passthrough, s)|
    ensures Read(s[|Forwarded(Passthrough, s)|..]).Failed?
  {
    hide Read, Wire, Serialize;
    FramesRebuild(s);
    var ms := Frames(s);
    assert ProcessedAll(Passthrough, ms) == ms;
    ForwardedReadBack(Passthrough, s);
    assert AllFit(ms) by {
      forall i | 0 <= i < |ms| ensures Fits(ms[i]) { assert Readable(ms[i]); }
    }
    ForwardedIsMap(Passthrough, s);
    assert s[|WireAll(ms)|..] == Leftover(s);
    forall k: nat | k <= |s| && LegalStream(s[..k]) ensures k <= |WireAll(ms)| {
      FramesAreLongestLegalPrefix(s, k);
    }
  }

  /** Forwarding whole frames and then the rest is forwarding everything at once. */
  lemma ForwardedSplitsAtFrames(f: Processor, a: seq<byte>, b: seq<byte>)
    requires LegalStream(a)
    requires AllFit(ProcessedAll(f, Frames(a)))
    ensures Forwarded(f, a + b) == Forwarded(f, a) + Forwarded(f, b)
  {
    CleanIff(f, a);
    ForwardedAppend(f, a, b);
  }

  lemma {:induction false} CleanIff(f: Processor, s: seq<byte>)
    requires AllFit(ProcessedAll(f, Frames(s)))
    ensures Clean(f, s) <==> LegalStream(s)
    decreases |s|
  {
    hide Serialize, Wire, Read, LegalStream;
    LegalStreamIff(s);
    if Read(s).Got? {
      var m, rest := Read(s).msg, Read(s).rest;
      var ms, ms' := ProcessedAll(f, Frames(s)), ProcessedAll(f, Frames(rest));
      assert ms == [Processed(f, m)] + ms';
      assert AllFit(ms') by {
        assert forall i :: 0 <= i < |ms'| ==> ms'[i] == ms[i + 1];
      }
      assert Fits(ms[0]);
      SerializeIsWire(Processed(f, m));
      LegalStreamIff(rest);
      CleanIff(f, rest);
    }
  }

  /** Two processors in a row. */
  ghost predicate IdempotentOn(f: Processor, ms: seq<Message>)
  {
    forall i :: 0 <= i < |ms| ==> Processed(f, Processed(f, ms[i])) == Processed(f, ms[i])
  }

  /**
   * Two proxies in series forward what one does exactly when every message the first one
   * writes is small enough for the second one to read.
   */
  lemma ForwardedTwiceIff(f: Processor, s: seq<byte>)
    requires AllFit(ProcessedAll(f, Frames(s)))
    requires IdempotentOn(f, Frames(s))
    ensures Forwarded(f, Forwarded(f, s)) == Forwarded(f, s) <==> AllReadable(ProcessedAll(f, Frames(s)))
  {
    hide Forwarded, Frames, WireAll, Readable, Fits;
    var ms := ProcessedAll(f, Frames(s));
    var k := ReadablePart(ms);
    ForwardedIsMap(f, s);
    FramesOfReadablePart(ms, k);
    assert ProcessedAll(f, ms[..k]) == ms[..k];
    assert AllFit(ms[..k]);
    ForwardedIsMap(f, Forwarded(f, s));
    if k == |ms| {
      assert ms[..k] == ms;
    } else {
      WireAllStrictPrefix(ms, k);
    }
  }

  /** How many messages come before the first oversized one. */
  lemma {:induction false} ReadablePart(ms: seq<Message>) returns (k: nat)
    ensures k <= |ms| && AllReadable(ms[..k])
    ensures k < |ms| ==> !Readable(ms[k])
  {
    k := 0;
    while k < |ms| && Readable(ms[k])
      invariant k <= |ms| && AllReadable(ms[..k])
    {
      k := k + 1;
    }
  }

  /** A reader gets the messages before the first oversized one and no others. */
  lemma FramesOfReadablePart(ms: seq<Message>, k: nat)
    requires AllFit(ms) && k <= |ms| && AllReadable(ms[..k])
    requires k < |ms| ==> !Readable(ms[k])
    ensures Frames(WireAll(ms)) == ms[..k]
  {
    hide Frames, WireAll, Readable, Fits;
    if k == |ms| {
      assert ms[..k] == ms;
      FramesOfWire(ms, []);
      FramesOfNothing();
      assert WireAll(ms) + [] == WireAll(ms) && ms + [] == ms;
    } else {
      assert ms == ms[..k] + ([ms[k]] + ms[k + 1..]);
      WireAllAppend(ms[..k], [ms[k]] + ms[k + 1..]);
      WireAllCons(ms[k], ms[k + 1..]);
      FramesStopAtOversized(ms[..k], ms[k], WireAll(ms[k + 1..]));
    }
  }

  lemma WireAllStrictPrefix(ms: seq<Message>, k: nat)
    requires k < |ms|
    ensures |WireAll(ms[..k])| < |WireAll(ms)|
  {
    assert ms == ms[..k] + ([ms[k]] + ms[k + 1..]);
    WireAllAppend(ms[..k], [ms[k]] + ms[k + 1..]);
    WireAllCons(ms[k], ms[k + 1..]);
  }

  /** Reading less of a stream gives a beginning of the messages. */
  lemma {:induction false} FramesMonotone(s: seq<byte>, t: seq<byte>)
    ensures Frames(s) <= Frames(s + t)
    decreases |s|
  {
    hide Read;
    if Read(s).Got? {
      ReadMonotone(s, t);
      FramesMonotone(Read(s).rest, t);
    }
  }

  /**
   * What a reader behind the loop sees, at any moment: a beginning of the processed messages,
   * for every stream whose processed messages fit the length word.
   */
  lemma DownstreamReadsProcessed(f: Processor, s: seq<byte>, seen: seq<byte>)
    requires AllFit(ProcessedAll(f, Frames(s)))
    requires seen <= Forwarded(f, s)
    ensures Frames(seen) <= ProcessedAll(f, Frames(s))
  {
    hide Forwarded, Frames, WireAll, Readable, Fits;
    var ms := ProcessedAll(f, Frames(s));
    var k := ReadablePart(ms);
    ForwardedIsMap(f, s);
    FramesOfReadablePart(ms, k);
    assert Forwarded(f, s) == seen + Forwarded(f, s)[|seen|..];
    FramesMonotone(seen, Forwarded(f, s)[|seen|..]);
  }

  // --------------------------------------------------------------- refusals

  /** The loop will come to an illegal length word, or to a message that cannot be written. */
  predicate Refused(f: Processor, s: seq<byte>)
    decreases |s|
  {
    match Read(s)
    case Failed(e) => e == TooShort || e == TooLarge
    case Got(m, rest) => Serialize(Processed(f, m)).Panic? || Refused(f, rest)
  }

  /** More bytes do not help. */
  lemma {:induction false} RefusedForGood(f: Processor, s: seq<byte>, t: seq<byte>)
    requires Refused(f, s)
    ensures Refused(f, s + t)
    decreases |s|
  {
    hide Serialize;
    if Read(s).Got? {
      ReadMonotone(s, t);
      if !Serialize(Processed(f, Read(s).msg)).Panic? {
        RefusedForGood(f, Read(s).rest, t);
      }
    } else {
      assert (s + t)[..4] == s[..4];
    }
  }

  /** Neither do whole frames in front. */
  lemma {:induction false} RefusedBehind(f: Processor, a: seq<byte>, b: seq<byte>)
    requires Clean(f, a) && Refused(f, b)
    ensures Refused(f, a + b)
    decreases |a|
  {
    hide Read, Serialize;
    if Read(a).Got? {
      ReadMonotone(a, b);
      RefusedBehind(f, Read(a).rest, b);
    } else {
      assert a + b == b;
    }
  }
}
