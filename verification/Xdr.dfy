/** XDR strings (sections 3 and 4.11 of RFC 4506) and replacing the first one of a payload. */
module Xdr {
  import opened Bytes
  import opened Buffers

  const STRING_MAX := 4194304

  /** Bytes that align `n` to a multiple of four. */
  function Pad(n: nat): (p: nat)
    ensures p < 4 && (n + p) % 4 == 0
  {
    if n % 4 == 0 then 0 else 4 - n % 4
  }

  datatype Decoded = Decoded(str: seq<byte>, consumed: nat) | Rejected

  /** DecodeXDRString; the padding bytes are skipped without being looked at. */
  function Decode(data: seq<byte>): (r: Decoded)
    ensures r.Decoded? ==> r.consumed == 4 + |r.str| + Pad(|r.str|) <= |data| && |r.str| <= STRING_MAX
  {
    if |data| < 4 then Rejected
    else
      var strLen := Uint32(data[..4]);
      if strLen > STRING_MAX then Rejected
      else if |data| < 4 + strLen + Pad(strLen) then Rejected
      else Decoded(data[4..4 + strLen], 4 + strLen + Pad(strLen))
  }

  /** EncodeXDRString; the length word keeps only the low 32 bits of the length. */
  function Encode(s: seq<byte>): (r: seq<byte>)
    ensures |r| == 4 + |s| + Pad(|s|)
  {
    PutUint32(|s| % TWO_TO_32) + s + Zeros(Pad(|s|))
  }

  /** ReplaceXDRString: None stands for the decoding error, which leaves the payload alone. */
  function Replace(payload: seq<byte>, newStr: seq<byte>): Option<seq<byte>>
  {
    match Decode(payload)
    case Rejected => None
    case Decoded(_, consumed) => Some(Encode(newStr) + payload[consumed..])
  }

  /** The bytes behind the first string of a payload. */
  function Tail(payload: seq<byte>): seq<byte>
  {
    match Decode(payload)
    case Rejected => []
    case Decoded(_, consumed) => payload[consumed..]
  }

  /** The padding of the first string is all zeros, as section 3 of RFC 4506 asks. */
  predicate ZeroPadded(payload: seq<byte>)
  {
    match Decode(payload)
    case Rejected => false
    case Decoded(str, consumed) => payload[4 + |str|..consumed] == Zeros(Pad(|str|))
  }

  // ------------------------------------------------------------- round trips

  /** What the decoder accepts: length word and text as encoded, enough bytes for the padding, of any value. */
  lemma DecodeIff(data: seq<byte>, s: seq<byte>, consumed: nat)
    ensures Decode(data) == Decoded(s, consumed)
            <==> && |s| <= 4194304
                 && consumed == 4 + |s| + Pad(|s|) <= |data|
                 && PutUint32(|s|) + s <= data
  {
    hide PutUint32, Uint32;
    if |data| >= 4 {
      PutUint32Uint32(data[..4]);
    }
    if Decode(data) == Decoded(s, consumed) {
      assert data[..4 + |s|] == data[..4] + data[4..4 + |s|];
    }
    if |s| <= STRING_MAX && consumed == 4 + |s| + Pad(|s|) <= |data| && PutUint32(|s|) + s <= data {
      assert data[..4] == (PutUint32(|s|) + s)[..4] == PutUint32(|s|);
      assert data[4..4 + |s|] == (PutUint32(|s|) + s)[4..] == s;
    }
  }

  lemma DecodeEncode(s: seq<byte>, tail: seq<byte>)
    requires |s| <= STRING_MAX
    ensures Decode(Encode(s) + tail) == Decoded(s, |Encode(s)|)
    ensures Tail(Encode(s) + tail) == tail
    ensures ZeroPadded(Encode(s) + tail)
  {
    hide PutUint32, Uint32, Zeros;
    var data := Encode(s) + tail;
    assert data[..4] == PutUint32(|s|);
    assert data[4..4 + |s|] == s;
    assert data[4 + |s|..|Encode(s)|] == Zeros(Pad(|s|));
    assert data[|Encode(s)|..] == tail;
  }

  lemma DecodeRejectsLong(s: seq<byte>, tail: seq<byte>)
    requires 4194304 < |s| < 4294967296
    ensures Decode(Encode(s) + tail) == Rejected
  {
    hide PutUint32, Uint32;
    assert (Encode(s) + tail)[..4] == PutUint32(|s|);
  }

  /**
   * A string survives encoding and decoding, in front of any bytes, exactly when it has at
   * most 4194304 bytes; strings too long for the length word are covered too.
   */
  lemma RoundTripIff(s: seq<byte>, tail: seq<byte>)
    ensures Decode(Encode(s) + tail) == Decoded(s, |Encode(s)|) <==> |s| <= 4194304
  {
    if |s| <= STRING_MAX {
      DecodeEncode(s, tail);
    }
  }

  /** No encoding begins another, so an encoded string ends where its own bytes say. */
  lemma EncodeIsPrefixFree(s: seq<byte>, t: seq<byte>)
    requires |s| < 4294967296 && |t| < 4294967296
    requires Encode(s) <= Encode(t)
    ensures s == t
  {
    hide PutUint32, Uint32, Zeros;
    assert Encode(s)[..4] == PutUint32(|s|) && Encode(t)[..4] == PutUint32(|t|);
    assert Encode(t)[..4] == Encode(s)[..4];
    assert s == Encode(s)[4..4 + |s|] == Encode(t)[4..4 + |t|] == t;
  }

  // --------------------------------------------------------------- lens laws

  /** Put-get: the new string is there, and everything behind the string is as before. */
  lemma ReplaceThenDecode(payload: seq<byte>, newStr: seq<byte>)
    requires Decode(payload).Decoded? && |newStr| <= STRING_MAX
    ensures Replace(payload, newStr).Some?
    ensures Decode(Replace(payload, newStr).value) == Decoded(newStr, |Encode(newStr)|)
    ensures Tail(Replace(payload, newStr).value) == Tail(payload)
  {
    DecodeEncode(newStr, Tail(payload));
  }

  /** Put-put: of two replacements the second wins. */
  lemma ReplaceTwice(payload: seq<byte>, a: seq<byte>, b: seq<byte>)
    requires Decode(payload).Decoded? && |a| <= STRING_MAX
    ensures Replace(Replace(payload, a).value, b) == Replace(payload, b)
  {
    hide Encode;
    ReplaceThenDecode(payload, a);
  }

  /**
   * Get-put: replacing the string with itself gives back the payload exactly when its
   * padding was zero. The decoder accepts other padding and the encoder never writes it.
   */
  lemma ReplaceWithDecodedIff(payload: seq<byte>)
    requires Decode(payload).Decoded?
    ensures Replace(payload, Decode(payload).str) == Some(payload) <==> ZeroPadded(payload)
  {
    hide PutUint32, Uint32, Zeros;
    var Decoded(str, consumed) := Decode(payload);
    PutUint32Uint32(payload[..4]);
    var again := Replace(payload, str).value;
    assert payload[..4] == PutUint32(|str|);
    assert payload == payload[..4] + str + payload[4 + |str|..consumed] + payload[consumed..];
    assert again == payload[..4] + str + Zeros(Pad(|str|)) + payload[consumed..];
    if again == payload {
      assert payload[4 + |str|..consumed] == again[4 + |str|..consumed] == Zeros(Pad(|str|));
    }
  }

  /** A payload that replacing its text by itself does change: its padding is not zero. */
  lemma NonZeroPaddingIsLost()
    ensures var payload := [0, 0, 0, 1, 65, 7, 0, 0];
            && Decode(payload) == Decoded([65], 8)
            && Replace(payload, [65]) == Some([0, 0, 0, 1, 65, 0, 0, 0])
            && !ZeroPadded(payload)
  {
    var payload: seq<byte> := [0, 0, 0, 1, 65, 7, 0, 0];
    assert payload[..4] == [0, 0, 0, 1] && payload[4..5] == [65] && payload[8..] == [];
    assert PutUint32(1) == [0, 0, 0, 1];
    assert Encode([65]) == [0, 0, 0, 1, 65, 0, 0, 0];
    assert Encode([65]) + [] == Encode([65]);
    ReplaceWithDecodedIff(payload);
  }

  /** Replacing never shifts what follows off its alignment. */
  lemma ReplaceKeepsAlignment(payload: seq<byte>, newStr: seq<byte>)
    requires Decode(payload).Decoded?
    ensures |Replace(payload, newStr).value| % 4 == |payload| % 4
  {
    hide Decode, Encode, Pad;
    var Decoded(str, consumed) := Decode(payload);
    AlignedDifference(|payload|, |str| + Pad(|str|), |newStr| + Pad(|newStr|));
  }

  lemma AlignedDifference(n: int, a: int, b: int)
    requires a % 4 == 0 && b % 4 == 0
    ensures (n - a + b) % 4 == n % 4
  {
    assert n - a + b == 4 * (n / 4 - a / 4 + b / 4) + n % 4;
  }

  // ------------------------------------------------------------ the buffers

  /** EncodeXDRString as it is written: a zeroed buffer, a length word, one copy. */
  method EncodeBuffer(s: seq<byte>) returns (buf: array<byte>)
    ensures fresh(buf)
    ensures buf[..] == Encode(s)
  {
    hide PutUint32, Pad;
    var strLen := |s|;
    var pad := Pad(strLen);
    buf := new byte[4 + strLen + pad](_ => 0);
    ghost var zeros := buf[4 + strLen..];
    assert zeros == Zeros(pad);
    hide Zeros;
    PutUint32At(buf, 0, strLen % TWO_TO_32);
    assert buf[..4] == PutUint32(strLen % TWO_TO_32);
    assert buf[4 + strLen..] == zeros;
    CopyAt(buf, 4, s);
    assert buf[..4] == PutUint32(strLen % TWO_TO_32);
    assert buf[4..4 + strLen] == s;
    assert buf[4 + strLen..] == zeros;
    assert buf[..] == buf[..4] + buf[4..4 + strLen] + buf[4 + strLen..];
  }

  /** ReplaceXDRString as it is written: decode, encode, two copies into a new buffer. */
  method ReplaceBuffer(payload: seq<byte>, newStr: seq<byte>) returns (result: seq<byte>, ok: bool)
    ensures ok <==> Replace(payload, newStr).Some?
    ensures result == if ok then Replace(payload, newStr).value else payload
  {
    hide Decode, Encode;
    var decoded := Decode(payload);
    if decoded.Rejected? {
      return payload, false;
    }
    var encoded := EncodeBuffer(newStr);
    var newEncoded := encoded[..];
    var remainder := payload[decoded.consumed..];
    var buf := new byte[|newEncoded| + |remainder|](_ => 0);
    CopyAt(buf, 0, newEncoded);
    assert buf[..|newEncoded|] == newEncoded;
    CopyAt(buf, |newEncoded|, remainder);
    assert buf[..] == newEncoded + remainder;
    return buf[..], true;
  }
}
