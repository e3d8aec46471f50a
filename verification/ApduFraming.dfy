/** APDU packets over a TCP stream: length-prefixed packets in, status-word-aware lengths out. */
module ApduFraming {
  import opened Bytes
  import opened Wrappers

  // ----- the stream and its meaning

  /** All bytes still to be received, however they are split. */
  function Flatten(segments: seq<seq<byte>>): seq<byte> {
    if segments == [] then [] else segments[0] + Flatten(segments[1..])
  }

  /** The first packet of a stream and what follows it; None when the stream ends before the packet does. */
  function ReadPacket(stream: seq<byte>): (r: Option<(seq<byte>, seq<byte>)>)
    ensures r.Some? ==> |r.value.1| < |stream|
  {
    if |stream| < 4 then None
    else
      var size := FromBe32(stream[..4]);
      if |stream| < 4 + size then None else Some((stream[4..4 + size], stream[4 + size..]))
  }

  /** The packets received until the connection ends. */
  function ReadAll(stream: seq<byte>): seq<seq<byte>>
    decreases |stream|
  {
    match ReadPacket(stream)
    case None => []
    case Some((packet, rest)) => [packet] + ReadAll(rest)
  }

  /** A packet as a client sends it. */
  function Framed(packet: seq<byte>): seq<byte>
    requires |packet| < 0x1_0000_0000
  {
    Be32(|packet|) + packet
  }

  predicate Sendable(packets: seq<seq<byte>>) {
    forall p :: p in packets ==> |p| < 0x1_0000_0000
  }

  function FramedAll(packets: seq<seq<byte>>): seq<byte>
    requires Sendable(packets)
  {
    if packets == [] then [] else Framed(packets[0]) + FramedAll(packets[1..])
  }

  lemma ReadFramed(packet: seq<byte>, rest: seq<byte>)
    requires |packet| < 0x1_0000_0000
    ensures ReadPacket(Framed(packet) + rest) == Some((packet, rest))
  {
    var stream := Framed(packet) + rest;
    assert stream[..4] == Be32(|packet|);
    assert stream[4..4 + |packet|] == packet;
    assert stream[4 + |packet|..] == rest;
  }

  /** The packets sent are the packets received, in order; an unfinished one at the end is dropped. */
  lemma {:induction false} ReadAllFramed(packets: seq<seq<byte>>, unfinished: seq<byte>)
    requires Sendable(packets) && ReadPacket(unfinished).None?
    ensures ReadAll(FramedAll(packets) + unfinished) == packets
    decreases |packets|
  {
    if packets == [] {
      assert FramedAll(packets) + unfinished == unfinished;
    } else {
      var rest := FramedAll(packets[1..]) + unfinished;
      assert FramedAll(packets) + unfinished == Framed(packets[0]) + rest;
      ReadFramed(packets[0], rest);
      ReadAllFramed(packets[1..], unfinished);
    }
  }

  /** A packet cut short anywhere is unfinished. */
  lemma CutShort(packet: seq<byte>, n: nat)
    requires |packet| < 0x1_0000_0000 && n < |Framed(packet)|
    ensures ReadPacket(Framed(packet)[..n]).None?
  {
    if n >= 4 {
      assert Framed(packet)[..n][..4] == Be32(|packet|);
    }
  }

  // ----- replies

  /** A reply on the wire: the length field leaves out the two bytes of the status word. */
  function Reply(packet: seq<byte>): seq<byte> {
    Be32((|packet| - 2) % 0x1_0000_0000) + packet
  }

  /** The reply as the HTTP proxy reads it: two bytes more than the length field says. */
  function ProxyRead(stream: seq<byte>): Option<seq<byte>> {
    if |stream| < 4 then None
    else
      var size := FromBe32(stream[..4]) + 2;
      if |stream| < 4 + size then None else Some(stream[4..4 + size])
  }

  /** A reply is read back exactly when it has a status word and its length fits. */
  lemma ReplyIsRecovered(packet: seq<byte>)
    ensures ProxyRead(Reply(packet)) == Some(packet) <==> 2 <= |packet| <= 0x1_0000_0001
  {
    var stream := Reply(packet);
    hide Be32, FromBe32;
    var size := (|packet| - 2) % 0x1_0000_0000;
    assert stream[..4] == Be32(size);
    assert stream[4..] == packet;
    if 2 <= |packet| <= 0x1_0000_0001 {
      assert size == |packet| - 2;
      assert stream[4..4 + (size + 2)] == packet;
    } else {
      assert size + 2 != |packet|;
    }
  }

  // ----- the client

  /** The receiving side of a socket: the segments that will arrive, in order, then the end of the
      connection (or its reset, which the code treats alike). */
  class Socket {
    var segments: seq<seq<byte>>
    var sent: seq<byte>

    ghost predicate Valid()
      reads this
    {
      forall i :: 0 <= i < |segments| ==> |segments[i]| > 0
    }

    ghost function Pending(): seq<byte>
      reads this
    {
      Flatten(segments)
    }

    constructor (segments: seq<seq<byte>>)
      requires forall i :: 0 <= i < |segments| ==> |segments[i]| > 0
      ensures Valid() && Pending() == Flatten(segments) && sent == []
    {
      this.segments := segments;
      sent := [];
    }

    /** Some bytes that have arrived, at most `size`; none at the end of the connection. */
    method Recv(size: nat) returns (data: seq<byte>)
      requires Valid() && size > 0
      modifies this`segments
      ensures Valid() && |data| <= size && old(Pending()) == data + Pending()
      ensures data == [] <==> old(Pending()) == []
    {
      if segments == [] {
        return [];
      }
      var first := segments[0];
      assert |first| > 0;
      if |first| <= size {
        segments := segments[1..];
        return first;
      }
      data := first[..size];
      segments := [first[size..]] + segments[1..];
      assert first == data + first[size..];
    }
  }

  class ApduClient {
    const socket: Socket

    constructor (socket: Socket)
      ensures this.socket == socket
    {
      this.socket := socket;
    }

    /** Exactly `size` bytes, or None when the connection ends first. */
    method RecvAll(size0: nat) returns (r: Option<seq<byte>>)
      requires socket.Valid()
      modifies socket`segments
      ensures socket.Valid()
      ensures r.Some? <==> |old(socket.Pending())| >= size0
      ensures r.Some? ==> r.value == old(socket.Pending())[..size0] && socket.Pending() == old(socket.Pending())[size0..]
      ensures r.None? ==> socket.Pending() == []
    {
      var data := [];
      var size := size0;
      while size > 0
        invariant socket.Valid()
        invariant 0 <= size && |data| + size == size0 && old(socket.Pending()) == data + socket.Pending()
      {
        var tmp := socket.Recv(size);
        if |tmp| == 0 {
          return None;
        }
        data := data + tmp;
        size := size - |tmp|;
      }
      assert old(socket.Pending())[..size0] == data;
      return Some(data);
    }

    /** One packet, never a partial one. */
    method RecvPacket() returns (r: Option<seq<byte>>)
      requires socket.Valid()
      modifies socket`segments
      ensures socket.Valid()
      ensures match ReadPacket(old(socket.Pending()))
        case None => r.None? && socket.Pending() == []
        case Some((packet, rest)) => r == Some(packet) && socket.Pending() == rest
    {
      ghost var stream := socket.Pending();
      var header := RecvAll(4);
      if header.None? {
        return None;
      }
      var size := FromBe32(header.value);
      r := RecvAll(size);
      if |stream| >= 4 + size {
        assert stream[4..][..size] == stream[4..4 + size];
        assert stream[4..][size..] == stream[4 + size..];
      }
    }

    /** The connection served until it ends: every packet is forwarded, in order, however the stream was
        split into segments. */
    method Serve() returns (packets: seq<seq<byte>>)
      requires socket.Valid()
      modifies socket`segments
      ensures packets == ReadAll(old(socket.Pending()))
    {
      packets := [];
      ghost var stream := socket.Pending();
      while true
        invariant socket.Valid()
        invariant ReadAll(stream) == packets + ReadAll(socket.Pending())
        decreases |socket.Pending()|
      {
        var packet := RecvPacket();
        if packet.None? {
          return;
        }
        packets := packets + [packet.value];
      }
    }

    /** Send a reply to the client, which reads the packet back from the bytes that were sent exactly when
        it has a status word and its length fits. */
    method ForwardToClient(packet: seq<byte>)
      modifies socket`sent
      ensures socket.sent == old(socket.sent) + Reply(packet)
      ensures ProxyRead(socket.sent[|old(socket.sent)|..]) == Some(packet) <==> 2 <= |packet| <= 0x1_0000_0001
    {
      var size := (|packet| - 2) % 0x1_0000_0000;
      socket.sent := socket.sent + (Be32(size) + packet);
      ReplyIsRecovered(packet);
      assert socket.sent[|old(socket.sent)|..] == Reply(packet);
      hide Reply, ProxyRead;
    }
  }
}
