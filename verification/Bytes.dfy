/** Bytes, big-endian 32-bit words, and byte streams cut into chunks. */
module Bytes {

  datatype Option<+T> = None | Some(value: T)

  type byte = b: int | 0 <= b < 256

  /** A Go string: bytes, in any encoding or none. */
  type Str = seq<byte>

  const TWO_TO_32 := 0x1_0000_0000

  type uint32 = n: int | 0 <= n < 0x1_0000_0000

  /** binary.BigEndian.Uint32 on a four-byte slice. */
  function Uint32(s: seq<byte>): uint32
    requires |s| == 4
  {
    var b0: int, b1: int, b2: int, b3: int := s[0], s[1], s[2], s[3];
    ((b0 * 256 + b1) * 256 + b2) * 256 + b3
  }

  /** binary.BigEndian.PutUint32: the four bytes that read back as `v`. */
  function PutUint32(v: uint32): (s: seq<byte>)
    ensures |s| == 4 && Uint32(s) == v
  {
    [v / 256 / 256 / 256, v / 256 / 256 % 256, v / 256 % 256, v % 256]
  }

  /** No two words share their four bytes: reading and writing again restores them. */
  lemma PutUint32Uint32(s: seq<byte>)
    requires |s| == 4
    ensures PutUint32(Uint32(s)) == s
  {
    var v := Uint32(s);
    var b0: int, b1: int, b2: int, b3: int := s[0], s[1], s[2], s[3];
    assert v / 256 == (b0 * 256 + b1) * 256 + b2 && v % 256 == b3;
    assert v / 256 / 256 == b0 * 256 + b1 && v / 256 % 256 == b2;
  }

  /** The concatenation of a list of chunks. */
  function Flatten(chunks: seq<seq<byte>>): seq<byte>
  {
    if chunks == [] then [] else chunks[0] + Flatten(chunks[1..])
  }

  lemma {:induction false} FlattenAppend(a: seq<seq<byte>>, b: seq<seq<byte>>)
    ensures Flatten(a + b) == Flatten(a) + Flatten(b)
  {
    hide Flatten;
    FlattenFirst(a);
    FlattenFirst(a + b);
    if a == [] {
      assert a + b == b;
    } else {
      FlattenAppend(a[1..], b);
      assert (a + b)[1..] == a[1..] + b;
    }
  }

  lemma FlattenFirst(a: seq<seq<byte>>)
    ensures Flatten(a) == if a == [] then [] else a[0] + Flatten(a[1..])
  {
  }

  lemma Associative<T>(a: seq<T>, b: seq<T>, c: seq<T>)
    ensures a + b + c == a + (b + c)
  {
  }

  /** `n` zero bytes, as Go's make leaves them. */
  function Zeros(n: nat): (s: seq<byte>)
    ensures |s| == n
  {
    seq(n, _ => 0)
  }
}
