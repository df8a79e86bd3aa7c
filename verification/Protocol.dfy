/** The libvirt RPC wire format: headers, length-prefixed messages and streams of them. */
module Protocol {
  import opened Bytes
  import opened Buffers

  const REMOTE_PROGRAM: uint32 := 0x20008086
  const REMOTE_PROTOCOL_VERSION: uint32 := 1
  const PROC_DOMAIN_DEFINE_XML: uint32 := 11
  const PROC_DOMAIN_DEFINE_XML_FLAGS: uint32 := 350
  const TYPE_CALL: uint32 := 0

  const LENGTH_PREFIX_SIZE := 4
  const HEADER_SIZE := 24
  const MIN_FRAME := LENGTH_PREFIX_SIZE + HEADER_SIZE
  const MAX_MESSAGE_SIZE := 33554432
  const MAX_FRAME := LENGTH_PREFIX_SIZE + MAX_MESSAGE_SIZE
  const MAX_PAYLOAD := MAX_MESSAGE_SIZE - HEADER_SIZE

  datatype Header = Header(
    program: uint32,
    version: uint32,
    procedure: uint32,
    kind: uint32,
    serial: uint32,
    status: uint32
  )

  datatype Message = Message(header: Header, payload: seq<byte>)

  // ---------------------------------------------------------------- headers

  /** ParseHeader: the six words of the first 24 bytes, or an error on a shorter buffer. */
  function ParseHeader(buf: seq<byte>): (r: Option<Header>)
    ensures r.Some? <==> |buf| >= HEADER_SIZE
  {
    if |buf| < HEADER_SIZE then None
    else Some(Header(
                Uint32(buf[0..4]),
                Uint32(buf[4..8]),
                Uint32(buf[8..12]),
                Uint32(buf[12..16]),
                Uint32(buf[16..20]),
                Uint32(buf[20..24])))
  }

  function MarshalHeader(h: Header): (buf: seq<byte>)
    ensures |buf| == HEADER_SIZE
  {
    PutUint32(h.program) + PutUint32(h.version) + PutUint32(h.procedure)
    + PutUint32(h.kind) + PutUint32(h.serial) + PutUint32(h.status)
  }

  /** The six words of a header, by their places on the wire. */
  lemma HeaderLayout(h: Header)
    ensures var buf := MarshalHeader(h);
            && buf[0..4] == PutUint32(h.program) && buf[4..8] == PutUint32(h.version)
            && buf[8..12] == PutUint32(h.procedure) && buf[12..16] == PutUint32(h.kind)
            && buf[16..20] == PutUint32(h.serial) && buf[20..24] == PutUint32(h.status)
  {
    hide PutUint32;
  }

  lemma ParseMarshal(h: Header)
    ensures ParseHeader(MarshalHeader(h)) == Some(h)
  {
    var buf := MarshalHeader(h);
    assert buf[0..4] == PutUint32(h.program);
    assert buf[4..8] == PutUint32(h.version);
    assert buf[8..12] == PutUint32(h.procedure);
    assert buf[12..16] == PutUint32(h.kind);
    assert buf[16..20] == PutUint32(h.serial);
    assert buf[20..24] == PutUint32(h.status);
  }

  lemma MarshalParse(buf: seq<byte>)
    requires |buf| == HEADER_SIZE
    ensures MarshalHeader(ParseHeader(buf).value) == buf
  {
    PutUint32Uint32(buf[0..4]);
    PutUint32Uint32(buf[4..8]);
    PutUint32Uint32(buf[8..12]);
    PutUint32Uint32(buf[12..16]);
    PutUint32Uint32(buf[16..20]);
    PutUint32Uint32(buf[20..24]);
    assert buf == buf[0..4] + buf[4..8] + buf[8..12] + buf[12..16] + buf[16..20] + buf[20..24];
  }

  /** ParseHeader obtains `h` exactly from bytes that begin with the 24 bytes of `h`. */
  lemma ParseHeaderIff(buf: seq<byte>, h: Header)
    ensures ParseHeader(buf) == Some(h) <==> MarshalHeader(h) <= buf
  {
    if |buf| >= HEADER_SIZE {
      ParseFirst(buf);
      hide ParseHeader, MarshalHeader;
      MarshalParse(buf[..HEADER_SIZE]);
      ParseMarshal(h);
    }
  }

  /** Only the first 24 bytes matter. */
  lemma ParseFirst(buf: seq<byte>)
    requires |buf| >= HEADER_SIZE
    ensures ParseHeader(buf) == ParseHeader(buf[..HEADER_SIZE])
  {
    hide Uint32;
    var first := buf[..HEADER_SIZE];
    assert first[0..4] == buf[0..4] && first[4..8] == buf[4..8] && first[8..12] == buf[8..12];
    assert first[12..16] == buf[12..16] && first[16..20] == buf[16..20] && first[20..24] == buf[20..24];
  }

  /** MarshalHeader as it is written: six words put into a zeroed buffer. */
  method MarshalHeaderBuffer(h: Header) returns (buf: array<byte>)
    ensures fresh(buf)
    ensures buf[..] == MarshalHeader(h)
  {
    hide PutUint32;
    buf := new byte[HEADER_SIZE](_ => 0);
    PutUint32At(buf, 0, h.program);
    PutUint32At(buf, 4, h.version);
    assert buf[..8] == PutUint32(h.program) + PutUint32(h.version);
    PutUint32At(buf, 8, h.procedure);
    PutUint32At(buf, 12, h.kind);
    assert buf[..16] == PutUint32(h.program) + PutUint32(h.version) + PutUint32(h.procedure) + PutUint32(h.kind);
    PutUint32At(buf, 16, h.serial);
    PutUint32At(buf, 20, h.status);
  }

  predicate IsDomainDefineCall(h: Header)
  {
    && h.program == REMOTE_PROGRAM
    && h.version == REMOTE_PROTOCOL_VERSION
    && h.kind == TYPE_CALL
    && (h.procedure == PROC_DOMAIN_DEFINE_XML || h.procedure == PROC_DOMAIN_DEFINE_XML_FLAGS)
  }

  /**
   * On the wire a define call is told by its first sixteen bytes: program 0x20008086, version
   * 1, procedure 11 or 350, type 0, each as a big-endian word.
   */
  lemma DefineCallBytes(h: Header)
    ensures IsDomainDefineCall(h)
            <==> && MarshalHeader(h)[..8] == [0x20, 0x00, 0x80, 0x86, 0, 0, 0, 1]
                 && (MarshalHeader(h)[8..12] == [0, 0, 0, 11] || MarshalHeader(h)[8..12] == [0, 0, 1, 0x5E])
                 && MarshalHeader(h)[12..16] == [0, 0, 0, 0]
  {
    var buf := MarshalHeader(h);
    ParseMarshal(h);
    hide MarshalHeader, PutUint32;
    assert buf[0..4] == buf[..8][0..4] && buf[4..8] == buf[..8][4..8];
    PutUint32Uint32(buf[0..4]);
    PutUint32Uint32(buf[4..8]);
    PutUint32Uint32(buf[8..12]);
    PutUint32Uint32(buf[12..16]);
    WordBytes();
    if IsDomainDefineCall(h) {
      assert buf[..8] == buf[0..4] + buf[4..8];
    }
  }

  lemma WordBytes()
    ensures PutUint32(REMOTE_PROGRAM) == [0x20, 0x00, 0x80, 0x86] && Uint32([0x20, 0x00, 0x80, 0x86]) == REMOTE_PROGRAM
    ensures PutUint32(REMOTE_PROTOCOL_VERSION) == [0, 0, 0, 1] && Uint32([0, 0, 0, 1]) == REMOTE_PROTOCOL_VERSION
    ensures PutUint32(PROC_DOMAIN_DEFINE_XML) == [0, 0, 0, 11] && Uint32([0, 0, 0, 11]) == PROC_DOMAIN_DEFINE_XML
    ensures PutUint32(PROC_DOMAIN_DEFINE_XML_FLAGS) == [0, 0, 1, 0x5E] && Uint32([0, 0, 1, 0x5E]) == PROC_DOMAIN_DEFINE_XML_FLAGS
    ensures PutUint32(TYPE_CALL) == [0, 0, 0, 0] && Uint32([0, 0, 0, 0]) == TYPE_CALL
  {
  }

  // --------------------------------------------------------------- messages

  datatype ReadError = LengthTruncated | TooShort | TooLarge | DataTruncated

  datatype ReadResult = Got(msg: Message, rest: seq<byte>) | Failed(error: ReadError)

  /** The lengths that ReadMessage lets through. */
  predicate LegalLength(total: int)
  {
    MIN_FRAME <= total <= MAX_FRAME
  }

  /** ReadMessage applied to a connection that will deliver exactly `s` and then end. */
  function Read(s: seq<byte>): (r: ReadResult)
    ensures r.Got? ==> |r.rest| <= |s| - MIN_FRAME && s[|s| - |r.rest|..] == r.rest
  {
    if |s| < LENGTH_PREFIX_SIZE then Failed(LengthTruncated)
    else
      var total := Uint32(s[..4]);
      if total < MIN_FRAME then Failed(TooShort)
      else if total - LENGTH_PREFIX_SIZE > MAX_MESSAGE_SIZE then Failed(TooLarge)
      else if |s| < total then Failed(DataTruncated)
      else Got(Message(ParseHeader(s[4..28]).value, s[28..total]), s[total..])
  }

  /** ReadMessage reads in two parts: the length word, then as many bytes as it announces. */
  lemma ReadInTwoParts(s: seq<byte>)
    requires |s| >= 4 && LegalLength(Uint32(s[..4])) && Uint32(s[..4]) <= |s|
    ensures var dataLength, rest := Uint32(s[..4]) - 4, s[4..];
            Read(s) == Got(Message(ParseHeader(rest[..dataLength][..24]).value, rest[..dataLength][24..]), rest[dataLength..])
  {
    hide Uint32, ParseHeader;
    var total := Uint32(s[..4]);
    var data := s[4..][..total - 4];
    assert data == s[4..total];
    assert s[4..28] == data[..24];
    assert s[28..total] == data[24..];
    assert s[total..] == s[4..][total - 4..];
  }

  /** Which length words lead to which result, in numbers. */
  lemma ReadByLength(s: seq<byte>)
    ensures Read(s) == Failed(LengthTruncated) <==> |s| < 4
    ensures Read(s) == Failed(TooShort) <==> |s| >= 4 && Uint32(s[..4]) < 28
    ensures Read(s) == Failed(TooLarge) <==> |s| >= 4 && Uint32(s[..4]) > 33554436
    ensures Read(s) == Failed(DataTruncated) <==> |s| >= 4 && 28 <= Uint32(s[..4]) <= 33554436 && |s| < Uint32(s[..4])
    ensures Read(s).Got? <==> |s| >= 4 && 28 <= Uint32(s[..4]) <= 33554436 && Uint32(s[..4]) <= |s|
  {
    hide Uint32, ParseHeader;
  }

  /** What WriteMessage hands to the connection, or the run-time panic it ends in. */
  datatype Serialized = Buffer(bytes: seq<byte>) | Panic

  /**
   * WriteMessage computes the total length in 32 bits and allocates that many bytes, so a
   * payload of 4 GiB wraps around: the copies are cut short, or slicing the header panics.
   */
  function Serialize(m: Message): (r: Serialized)
    ensures r.Buffer? ==> |r.bytes| >= MIN_FRAME
  {
    var total := (MIN_FRAME + |m.payload|) % TWO_TO_32;
    if total < MIN_FRAME then Panic
    else Buffer((PutUint32(total) + MarshalHeader(m.header) + m.payload)[..total])
  }

  /** The buffer that WriteMessage builds before its single write; None is the panic. */
  method MessageBuffer(m: Message) returns (r: Option<seq<byte>>)
    ensures r.None? <==> Serialize(m).Panic?
    ensures r.Some? ==> r.value == Serialize(m).bytes
  {
    hide PutUint32, MarshalHeader;
    var totalLength := (LENGTH_PREFIX_SIZE + HEADER_SIZE + |m.payload|) % TWO_TO_32;
    if totalLength < LENGTH_PREFIX_SIZE + HEADER_SIZE {
      return None;
    }
    var buf := new byte[totalLength](_ => 0);
    var header := MarshalHeaderBuffer(m.header);
    PutUint32At(buf, 0, totalLength);
    CopyAt(buf, LENGTH_PREFIX_SIZE, header[..]);
    assert buf[..28] == PutUint32(totalLength) + MarshalHeader(m.header);
    CopyAt(buf, LENGTH_PREFIX_SIZE + HEADER_SIZE, m.payload);
    assert buf[..] == PutUint32(totalLength) + MarshalHeader(m.header) + m.payload[..totalLength - MIN_FRAME];
    return Some(buf[..]);
  }

  /** The total length of `m` fits the 32-bit length word. */
  predicate Fits(m: Message)
  {
    MIN_FRAME + |m.payload| < TWO_TO_32
  }

  /** A message that ReadMessage could have produced. */
  predicate Readable(m: Message)
  {
    |m.payload| <= MAX_PAYLOAD
  }

  /** Length word, header, payload: the frame of every message that fits. */
  function Wire(m: Message): (s: seq<byte>)
    ensures |s| == MIN_FRAME + |m.payload|
  {
    PutUint32((MIN_FRAME + |m.payload|) % TWO_TO_32) + MarshalHeader(m.header) + m.payload
  }

  /** Below 4 GiB nothing wraps, and writing panics exactly when the wrapped length is less than 28. */
  lemma SerializeByLength(m: Message)
    ensures Fits(m) <==> |m.payload| < 4294967268
    ensures Serialize(m).Panic? <==> (28 + |m.payload|) % 4294967296 < 28
    ensures Serialize(m).Buffer? ==> |Serialize(m).bytes| == (28 + |m.payload|) % 4294967296
  {
    hide PutUint32, MarshalHeader;
  }

  lemma SerializeIsWire(m: Message)
    requires Fits(m)
    ensures Serialize(m) == Buffer(Wire(m))
  {
    var total := MIN_FRAME + |m.payload|;
    assert Wire(m)[..total] == Wire(m);
  }

  lemma ReadWire(m: Message, tail: seq<byte>)
    requires Fits(m)
    ensures Readable(m) ==> Read(Wire(m) + tail) == Got(m, tail)
    ensures !Readable(m) ==> Read(Wire(m) + tail) == Failed(TooLarge)
  {
    hide PutUint32, Uint32, MarshalHeader, ParseHeader;
    var s := Wire(m) + tail;
    var total := MIN_FRAME + |m.payload|;
    assert s[..4] == PutUint32(total);
    if Readable(m) {
      assert s[4..28] == MarshalHeader(m.header);
      ParseMarshal(m.header);
      assert s[28..total] == m.payload;
      assert s[total..] == tail;
    }
  }

  /** A frame that was read is written back as the very bytes it came from. */
  lemma WireRead(s: seq<byte>)
    requires Read(s).Got?
    ensures Readable(Read(s).msg) && Fits(Read(s).msg)
    ensures s == Wire(Read(s).msg) + Read(s).rest
  {
    hide PutUint32, Uint32, MarshalHeader, ParseHeader;
    var total := Uint32(s[..4]);
    var m := Read(s).msg;
    assert MIN_FRAME + |m.payload| == total;
    PutUint32Uint32(s[..4]);
    MarshalParse(s[4..28]);
    assert Wire(m) == s[..4] + s[4..28] + s[28..total];
    assert s[..4] + s[4..28] + s[28..total] + s[total..] == s;
  }

  /** ReadMessage obtains `m` in front of `rest` exactly from the frame of a readable `m` and `rest`. */
  lemma ReadIff(s: seq<byte>, m: Message, rest: seq<byte>)
    ensures Read(s) == Got(m, rest) <==> Readable(m) && s == Wire(m) + rest
  {
    hide Read, Wire;
    if Read(s) == Got(m, rest) {
      WireRead(s);
    }
    if Readable(m) && s == Wire(m) + rest {
      ReadWire(m, rest);
    }
  }

  /**
   * A written message is read back, with the following bytes untouched, exactly when its
   * payload is at most 33554408 bytes; this covers the payloads whose length wraps around.
   */
  lemma ReadBackIff(m: Message, tail: seq<byte>)
    ensures (Serialize(m).Buffer? && Read(Serialize(m).bytes + tail) == Got(m, tail)) <==> |m.payload| <= 33554408
  {
    if Fits(m) {
      SerializeIsWire(m);
      ReadWire(m, tail);
    } else if Serialize(m).Buffer? {
      var buf := Serialize(m).bytes;
      var total := (MIN_FRAME + |m.payload|) % TWO_TO_32;
      assert (buf + tail)[..4] == PutUint32(total);
      if Read(buf + tail).Got? {
        assert |Read(buf + tail).msg.payload| == total - MIN_FRAME < |m.payload|;
      }
    }
  }

  // ---------------------------------------------------------------- streams

  /** The messages a ReadMessage loop obtains from `s` before its first error. */
  function Frames(s: seq<byte>): seq<Message>
    decreases |s|
  {
    match Read(s)
    case Failed(_) => []
    case Got(m, rest) => [m] + Frames(rest)
  }

  /** The bytes from the first error on. */
  function Leftover(s: seq<byte>): seq<byte>
    decreases |s|
  {
    match Read(s)
    case Failed(_) => s
    case Got(_, rest) => Leftover(rest)
  }

  ghost predicate AllFit(ms: seq<Message>)
  {
    forall i :: 0 <= i < |ms| ==> Fits(ms[i])
  }

  ghost predicate AllReadable(ms: seq<Message>)
  {
    forall i :: 0 <= i < |ms| ==> Readable(ms[i])
  }

  function Wires(ms: seq<Message>): seq<seq<byte>>
  {
    seq(|ms|, i requires 0 <= i < |ms| => Wire(ms[i]))
  }

  function WireAll(ms: seq<Message>): seq<byte>
  {
    Flatten(Wires(ms))
  }

  lemma WireAllAppend(a: seq<Message>, b: seq<Message>)
    ensures WireAll(a + b) == WireAll(a) + WireAll(b)
  {
    hide Wire, Flatten;
    assert Wires(a + b) == Wires(a) + Wires(b);
    FlattenAppend(Wires(a), Wires(b));
  }

  lemma WireAllCons(m: Message, ms: seq<Message>)
    ensures WireAll([m] + ms) == Wire(m) + WireAll(ms)
  {
    hide Wire, Flatten;
    assert Wires([m] + ms) == [Wire(m)] + Wires(ms);
    assert ([Wire(m)] + Wires(ms))[1..] == Wires(ms);
    FlattenFirst([Wire(m)] + Wires(ms));
  }

  /** Reading loses nothing: the frames and the leftover rebuild the stream. */
  lemma {:induction false} FramesRebuild(s: seq<byte>)
    ensures AllReadable(Frames(s))
    ensures s == WireAll(Frames(s)) + Leftover(s)
    ensures Read(Leftover(s)).Failed?
    decreases |s|
  {
    hide Read, Wire, WireAll, Frames, Leftover, Readable;
    OneFrameMore(s);
    match Read(s)
    case Failed(_) =>
      WireAllNone();
    case Got(m, rest) =>
      WireRead(s);
      FramesRebuild(rest);
      WireAllCons(m, Frames(rest));
      Associative(Wire(m), WireAll(Frames(rest)), Leftover(rest));
  }

  lemma OneFrameMore(s: seq<byte>)
    ensures match Read(s)
            case Failed(_) => Frames(s) == [] && Leftover(s) == s
            case Got(m, rest) => Frames(s) == [m] + Frames(rest) && Leftover(s) == Leftover(rest)
  {
    hide Read;
  }

  lemma WireAllNone()
    ensures WireAll([]) == []
  {
  }

  lemma FramesCons(m: Message, s: seq<byte>)
    requires Readable(m)
    ensures Frames(Wire(m) + s) == [m] + Frames(s)
    ensures Leftover(Wire(m) + s) == Leftover(s)
  {
    ReadWire(m, s);
  }

  /** Any sequence of readable messages is read back, whatever bytes follow it. */
  lemma {:induction false} FramesOfWire(ms: seq<Message>, tail: seq<byte>)
    requires AllReadable(ms)
    ensures Frames(WireAll(ms) + tail) == ms + Frames(tail)
    ensures Leftover(WireAll(ms) + tail) == Leftover(tail)
  {
    hide Read, Wire;
    if ms == [] {
      assert WireAll(ms) + tail == tail;
    } else {
      var m, rest := ms[0], ms[1..];
      var more := WireAll(rest) + tail;
      assert WireAll(ms) + tail == Wire(m) + more by {
        assert ms == [m] + rest;
        WireAllCons(m, rest);
      }
      FramesOfWire(rest, tail);
      FramesCons(m, more);
      assert [m] + (rest + Frames(tail)) == ms + Frames(tail);
    }
  }

  /** An oversized message stops the reader: nothing after it is seen. */
  lemma FramesStopAtOversized(ms: seq<Message>, m: Message, tail: seq<byte>)
    requires AllReadable(ms) && Fits(m) && !Readable(m)
    ensures Frames(WireAll(ms) + (Wire(m) + tail)) == ms
  {
    FramesOfWire(ms, Wire(m) + tail);
    ReadWire(m, tail);
  }

  /**
   * Whole legal frames, judged by their length words alone: an account of "complete legal
   * frames" that knows nothing of headers, messages or serialization.
   */
  predicate LegalStream(s: seq<byte>)
    decreases |s|
  {
    || s == []
    || (&& |s| >= 4
        && LegalLength(Uint32(s[..4]))
        && Uint32(s[..4]) <= |s|
        && LegalStream(s[Uint32(s[..4])..]))
  }

  /** One frame is legal if its length word gives its size, between 28 and 33554436 bytes. */
  lemma LegalFrameIff(s: seq<byte>)
    requires |s| >= 4 && Uint32(s[..4]) == |s|
    ensures LegalStream(s) <==> 28 <= |s| <= 33554436
  {
    hide Uint32;
    assert s[|s|..] == [];
    assert LegalStream([]);
  }

  lemma {:induction false} LegalStreamIff(s: seq<byte>)
    ensures LegalStream(s) <==> Leftover(s) == []
    decreases |s|
  {
    match Read(s)
    case Failed(_) =>
    case Got(_, rest) => LegalStreamIff(rest);
  }

  /** Reading a stream that begins with whole frames reads those, then the rest. */
  lemma {:induction false} FramesAppend(a: seq<byte>, b: seq<byte>)
    requires LegalStream(a)
    ensures Frames(a + b) == Frames(a) + Frames(b)
    ensures Leftover(a + b) == Leftover(b)
  {
    FramesRebuild(a);
    LegalStreamIff(a);
    assert a == WireAll(Frames(a));
    FramesOfWire(Frames(a), b);
  }

  /** Reading decides nothing early: more bytes never change the frames already read. */
  lemma {:induction false} ReadMonotone(s: seq<byte>, t: seq<byte>)
    requires Read(s).Got?
    ensures Read(s + t) == Got(Read(s).msg, Read(s).rest + t)
  {
    WireRead(s);
    assert s + t == Wire(Read(s).msg) + (Read(s).rest + t);
    ReadWire(Read(s).msg, Read(s).rest + t);
  }

  /** Of all prefixes of `s` made of whole legal frames, the frames read cover the longest. */
  lemma {:induction false} FramesAreLongestLegalPrefix(s: seq<byte>, k: nat)
    requires k <= |s| && LegalStream(s[..k])
    ensures k <= |WireAll(Frames(s))|
  {
    FramesRebuild(s);
    FramesAppend(s[..k], s[k..]);
    assert s == s[..k] + s[k..];
    FramesRebuild(s[k..]);
    assert |Leftover(s)| <= |s| - k;
  }
}
