/** Filling byte buffers in place, with the meaning of Go's copy and PutUint32. */
module Buffers {
  import opened Bytes

  function Min(a: nat, b: nat): nat
  {
    if a < b then a else b
  }

  /** copy(buf[at:], src): as many bytes as both sides have. */
  method CopyAt(buf: array<byte>, at: nat, src: seq<byte>)
    requires at <= buf.Length
    modifies buf
    ensures var n := Min(|src|, buf.Length - at);
            buf[..] == old(buf[..at]) + src[..n] + old(buf[at + n..])
  {
    var n := Min(|src|, buf.Length - at);
    for i := 0 to n
      invariant forall k :: 0 <= k < at ==> buf[k] == old(buf[k])
      invariant forall k :: 0 <= k < i ==> buf[at + k] == src[k]
      invariant forall k :: at + i <= k < buf.Length ==> buf[k] == old(buf[k])
    {
      buf[at + i] := src[i];
    }
  }

  /** binary.BigEndian.PutUint32(buf[at:at+4], v). */
  method PutUint32At(buf: array<byte>, at: nat, v: uint32)
    requires at + 4 <= buf.Length
    modifies buf
    ensures buf[..] == old(buf[..at]) + PutUint32(v) + old(buf[at + 4..])
  {
    hide PutUint32;
    CopyAt(buf, at, PutUint32(v));
  }
}
