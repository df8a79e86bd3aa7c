/** Connections that deliver bytes in chunks, and the forward loop over two of them. */
module Channel {
  import opened Bytes
  import opened Protocol
  import opened Forwarding

  /**
   * One end of a socket. `pending` is what the peer has sent and the proxy has not read, cut
   * into chunks as the kernel happens to deliver it, with the end of the stream behind it.
   * The connection accepts `room` more bytes before writing fails.
   */
  class Conn {
    var pending: seq<seq<byte>>
    var written: seq<byte>
    var room: nat

    constructor (chunks: seq<seq<byte>>, capacity: nat)
      ensures pending == chunks && written == [] && room == capacity
    {
      pending, written, room := chunks, [], capacity;
    }

    /** The unread bytes, with their division into chunks forgotten. */
    ghost function Unread(): seq<byte>
      reads this
    {
      Flatten(pending)
    }

    /** conn.Read into a buffer of `max` bytes: a piece of the first chunk that has any. */
    method ReadSome(max: nat) returns (data: seq<byte>)
      requires max > 0
      modifies this`pending
      ensures |data| <= max
      ensures data == [] <==> old(Unread()) == []
      ensures data + Unread() == old(Unread())
    {
      while pending != [] && pending[0] == []
        invariant Unread() == old(Unread())
        decreases |pending|
      {
        pending := pending[1..];
      }
      if pending == [] {
        return [];
      }
      var chunk := pending[0];
      if |chunk| <= max {
        data, pending := chunk, pending[1..];
      } else {
        data, pending := chunk[..max], [chunk[max..]] + pending[1..];
        assert chunk == data + chunk[max..];
      }
    }

    /** io.ReadFull: exactly `n` bytes however they are cut, or everything that was left. */
    method ReadFull(n: nat) returns (data: seq<byte>)
      modifies this`pending
      ensures data == if n <= |old(Unread())| then old(Unread())[..n] else old(Unread())
      ensures Unread() == if n <= |old(Unread())| then old(Unread())[n..] else []
    {
      data := [];
      while |data| < n
        invariant |data| <= n
        invariant data + Unread() == old(Unread())
        decreases n - |data|
      {
        label before:
        var more := ReadSome(n - |data|);
        assert data + (more + Unread()) == data + old@before(Unread());
        data := data + more;
        if more == [] {
          assert Unread() == [];
          return;
        }
      }
    }

    /** ReadMessage; an error leaves the stream wherever reading stopped. */
    method ReadMessage() returns (r: Option<Message>)
      modifies this`pending
      ensures r.Some? <==> Read(old(Unread())).Got?
      ensures r.Some? ==> r.value == Read(old(Unread())).msg && Unread() == Read(old(Unread())).rest
    {
      hide Uint32, ParseHeader, Flatten;
      ghost var s := Unread();
      var lengthBuf := ReadFull(LENGTH_PREFIX_SIZE);
      if |lengthBuf| < LENGTH_PREFIX_SIZE {
        return None;
      }
      var totalLength := Uint32(lengthBuf);
      if totalLength < LENGTH_PREFIX_SIZE + HEADER_SIZE {
        return None;
      }
      var dataLength := totalLength - LENGTH_PREFIX_SIZE;
      if dataLength > MAX_MESSAGE_SIZE {
        return None;
      }
      var data := ReadFull(dataLength);
      if |data| < dataLength {
        return None;
      }
      ReadInTwoParts(s);
      return Some(Message(ParseHeader(data[..HEADER_SIZE]).value, data[HEADER_SIZE..]));
    }

    /** conn.Write: all of `buf`, or as much as there is room for and an error. */
    method Write(buf: seq<byte>) returns (ok: bool)
      modifies this`written, this`room
      ensures ok <==> |buf| <= old(room)
      ensures written == old(written) + (if ok then buf else buf[..old(room)])
      ensures room == if ok then old(room) - |buf| else 0
    {
      if |buf| <= room {
        written, room := written + buf, room - |buf|;
        return true;
      }
      written, room := written + buf[..room], 0;
      return false;
    }

    /** WriteMessage; a panic is an error that wrote nothing. */
    method WriteMessage(m: Message) returns (ok: bool)
      modifies this`written, this`room
      ensures ok <==> Serialize(m).Buffer? && |Serialize(m).bytes| <= old(room)
      ensures ok ==> written == old(written) + Serialize(m).bytes && room == old(room) - |Serialize(m).bytes|
      ensures Serialize(m).Panic? ==> written == old(written)
      ensures !ok && Serialize(m).Buffer? ==> written == old(written) + Serialize(m).bytes[..old(room)]
    {
      hide Serialize;
      var buf := MessageBuffer(m);
      if buf.None? {
        return false;
      }
      ok := Write(buf.value);
    }
  }

  /** As much of `s` as `room` admits. */
  function Cut(s: seq<byte>, room: nat): seq<byte>
  {
    if |s| <= room then s else s[..room]
  }

  /** One turn of the loop, as the destination sees it. */
  lemma ForwardStep(f: Processor, s: seq<byte>, room: nat)
    ensures Read(s).Failed? ==> Cut(Forwarded(f, s), room) == []
    ensures Read(s).Got? && Serialize(Processed(f, Read(s).msg)).Panic? ==> Cut(Forwarded(f, s), room) == []
    ensures Read(s).Got? && Serialize(Processed(f, Read(s).msg)).Buffer? ==>
              var buf := Serialize(Processed(f, Read(s).msg)).bytes;
              Cut(Forwarded(f, s), room)
              == if |buf| > room then buf[..room] else buf + Cut(Forwarded(f, Read(s).rest), room - |buf|)
  {
    hide Read, Serialize;
  }

  /**
   * The forward loop. What it writes depends on the bytes of the source alone, never on how
   * they were cut into chunks: it is Forwarded of them, up to where the destination fails.
   */
  method Forward(src: Conn, dst: Conn, processor: Processor)
    requires src != dst
    modifies src`pending, dst`written, dst`room
    ensures dst.written == old(dst.written) + Cut(Forwarded(processor, old(src.Unread())), old(dst.room))
  {
    hide Read, Serialize, Flatten, Forwarded, Cut;
    ghost var all := old(dst.written) + Cut(Forwarded(processor, old(src.Unread())), old(dst.room));
    while true
      invariant all == dst.written + Cut(Forwarded(processor, src.Unread()), dst.room)
      decreases |src.Unread()|
    {
      ForwardStep(processor, src.Unread(), dst.room);
      var m := src.ReadMessage();
      if m.None? {
        return;
      }
      var payload := processor(m.value.header, m.value.payload);
      var ok := dst.WriteMessage(Message(m.value.header, payload));
      if !ok {
        return;
      }
    }
  }

  /**
   * Chunking invariance: two sources that deliver the same bytes, cut in any two ways, into
   * destinations with the same room, leave the same bytes behind.
   */
  method ForwardIgnoresChunking(a: Conn, b: Conn, dstA: Conn, dstB: Conn, processor: Processor)
    requires |{a, b, dstA, dstB}| == 4
    requires a.Unread() == b.Unread() && dstA.room == dstB.room && dstA.written == dstB.written
    modifies a`pending, b`pending, dstA`written, dstA`room, dstB`written, dstB`room
    ensures dstA.written == dstB.written
  {
    assert a != dstA && b != dstB && dstA != dstB && a != b;
    Forward(a, dstA, processor);
    Forward(b, dstB, processor);
  }
}
