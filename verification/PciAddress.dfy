/** Recognising PCI addresses. */
module PciAddress {
  import opened Bytes

  const COLON: byte := 58
  const DOT: byte := 46

  predicate IsHex(b: byte)
  {
    48 <= b <= 57 || 97 <= b <= 102 || 65 <= b <= 70
  }

  /** strings.Split on a one-byte separator. */
  function Split(s: Str, sep: byte): (parts: seq<Str>)
    ensures |parts| >= 1
  {
    if s == [] then [[]]
    else
      var rest := Split(s[1..], sep);
      if s[0] == sep then [[]] + rest else [[s[0]] + rest[0]] + rest[1..]
  }

  predicate IsFixedHex(s: Str, width: nat)
  {
    |s| == width && forall i :: 0 <= i < |s| ==> IsHex(s[i])
  }

  predicate IsPciAddress(addr: Str)
  {
    var parts := Split(addr, COLON);
    && |parts| == 3
    && IsFixedHex(parts[0], 4)
    && IsFixedHex(parts[1], 2)
    && var last := Split(parts[2], DOT);
    && |last| == 2
    && IsFixedHex(last[0], 2)
    && IsFixedHex(last[1], 1)
  }

  function Join(parts: seq<Str>, sep: byte): Str
    requires parts != []
  {
    if |parts| == 1 then parts[0] else parts[0] + [sep] + Join(parts[1..], sep)
  }

  lemma {:induction false} JoinSplit(s: Str, sep: byte)
    ensures Join(Split(s, sep), sep) == s
  {
    if s != [] {
      var rest := Split(s[1..], sep);
      JoinSplit(s[1..], sep);
      if s[0] == sep {
        assert ([[]] + rest)[1..] == rest;
      } else {
        var parts := [[s[0]] + rest[0]] + rest[1..];
        assert parts[1..] == rest[1..];
        if |rest| > 1 {
          assert [s[0]] + rest[0] + [sep] + Join(rest[1..], sep) == [s[0]] + (rest[0] + [sep] + Join(rest[1..], sep));
        }
      }
    }
  }

  lemma {:induction false} SplitPlain(s: Str, sep: byte)
    requires sep !in s
    ensures Split(s, sep) == [s]
  {
    if s != [] {
      SplitPlain(s[1..], sep);
      assert [s[0]] + s[1..] == s;
    }
  }

  lemma {:induction false} SplitFirst(a: Str, sep: byte, rest: Str)
    requires sep !in a
    ensures Split(a + [sep] + rest, sep) == [a] + Split(rest, sep)
  {
    var s := a + [sep] + rest;
    if a == [] {
      assert s[1..] == rest;
    } else {
      assert s[1..] == a[1..] + [sep] + rest;
      SplitFirst(a[1..], sep, rest);
      var tail := Split(s[1..], sep);
      assert tail[0] == a[1..] && tail[1..] == Split(rest, sep);
      assert [a[0]] + a[1..] == a;
    }
  }

  /** dddd:dd:dd.d by position, without any splitting. */
  predicate HasPciShape(s: Str)
  {
    && |s| == 12
    && s[4] == COLON && s[7] == COLON && s[10] == DOT
    && IsFixedHex(s[..4], 4) && IsFixedHex(s[5..7], 2) && IsFixedHex(s[8..10], 2) && IsFixedHex(s[11..], 1)
  }

  lemma HexHasNoSeparator(s: Str, width: nat)
    requires IsFixedHex(s, width)
    ensures COLON !in s && DOT !in s
  {
  }

  lemma PciShapeIsAccepted(s: Str)
    requires HasPciShape(s)
    ensures IsPciAddress(s)
  {
    var a, b, c, d := s[..4], s[5..7], s[8..10], s[11..];
    HexHasNoSeparator(a, 4);
    HexHasNoSeparator(b, 2);
    HexHasNoSeparator(c, 2);
    HexHasNoSeparator(d, 1);
    var last := c + [DOT] + d;
    hide IsHex, IsFixedHex, Split;
    assert s == a + [COLON] + (b + [COLON] + last);
    SplitFirst(a, COLON, b + [COLON] + last);
    SplitFirst(b, COLON, last);
    assert COLON !in last;
    SplitPlain(last, COLON);
    SplitFirst(c, DOT, d);
    SplitPlain(d, DOT);
    assert Split(s, COLON) == [a, b, last];
    assert Split(last, DOT) == [c, d];
  }

  lemma AcceptedHasPciShape(s: Str)
    requires IsPciAddress(s)
    ensures HasPciShape(s)
  {
    var parts := Split(s, COLON);
    var last := Split(parts[2], DOT);
    JoinSplit(s, COLON);
    JoinSplit(parts[2], DOT);
    var a, b, c, d := parts[0], parts[1], last[0], last[1];
    assert parts[1..][1..] == [parts[2]] && last[1..] == [d];
    assert parts[2] == c + [DOT] + d;
    assert Join(parts[1..], COLON) == b + [COLON] + parts[2];
    assert s == a + [COLON] + (b + [COLON] + parts[2]);
    assert s[..4] == a && s[5..7] == b && s[8..10] == c && s[11..] == d;
  }

  /** The split-based test accepts exactly the addresses of the shape dddd:dd:dd.d. */
  lemma PciAddressIff(s: Str)
    ensures IsPciAddress(s) <==> HasPciShape(s)
  {
    if IsPciAddress(s) { AcceptedHasPciShape(s); }
    if HasPciShape(s) { PciShapeIsAccepted(s); }
  }

  predicate IsHexCharacter(b: byte)
  {
    b as char in "0123456789abcdefABCDEF"
  }

  lemma HexCharacters(b: byte)
    ensures IsHex(b) <==> IsHexCharacter(b)
  {
  }

  /** A part of fixed width, by its characters. */
  lemma FixedHexMeans(s: Str, lo: nat, hi: nat)
    requires lo <= hi <= |s|
    ensures IsFixedHex(s[lo..hi], hi - lo) <==> forall i :: lo <= i < hi ==> IsHexCharacter(s[i])
  {
    hide IsHex, IsHexCharacter;
    forall i | lo <= i < hi ensures IsHex(s[lo..hi][i - lo]) <==> IsHexCharacter(s[i]) { HexCharacters(s[i]); }
    forall i | 0 <= i < hi - lo ensures IsHex(s[lo..hi][i]) <==> IsHexCharacter(s[lo + i]) { HexCharacters(s[lo + i]); }
  }

  /** The same in characters: dddd:dd:dd.d with hex digits of either case. */
  lemma PciAddressByCharacters(s: Str)
    ensures IsPciAddress(s)
            <==> && |s| == 12
                 && s[4] as char == ':' && s[7] as char == ':' && s[10] as char == '.'
                 && forall i :: 0 <= i < 12 && i != 4 && i != 7 && i != 10 ==> IsHexCharacter(s[i])
  {
    hide IsPciAddress, IsFixedHex, IsHexCharacter;
    PciAddressIff(s);
    if |s| == 12 {
      FixedHexMeans(s, 0, 4);
      FixedHexMeans(s, 5, 7);
      FixedHexMeans(s, 8, 10);
      FixedHexMeans(s, 11, 12);
      assert s[0..4] == s[..4] && s[11..12] == s[11..];
    }
  }
}
