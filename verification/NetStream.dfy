/** One direction of a network connection: bytes arrive in order, in pieces of any size. */
module NetStream {
  import opened Wrappers

  function Min(a: int, b: int): int { if a < b then a else b }

  class NetConn {
    var inbox: Bytes   // what the peer sent and this side has not read yet, up to end of stream
    var outbox: Bytes  // what this side has written

    constructor (inbox: Bytes)
      ensures this.inbox == inbox && outbox == []
    {
      this.inbox, outbox := inbox, [];
    }

    /** One Read call of Go's net.Conn: some of the next bytes, the network decides how many; nothing at end
        of stream. */
    method ReadSome(max: nat) returns (chunk: Bytes)
      requires max > 0
      modifies this`inbox
      ensures |chunk| <= max && old(inbox) == chunk + inbox
      ensures chunk == [] <==> old(inbox) == []
    {
      if inbox == [] {
        return [];
      }
      var k: nat :| 1 <= k && k <= max && k <= |inbox|;
      chunk, inbox := inbox[..k], inbox[k..];
    }

    /** io.ReadFull: however the bytes are cut, the result is the next `n` of them, or everything up to end
        of stream. */
    method ReadFull(n: nat) returns (data: Bytes, ok: bool)
      modifies this`inbox
      ensures ok <==> n <= |old(inbox)|
      ensures data == old(inbox)[..Min(n, |old(inbox)|)]
      ensures inbox == old(inbox)[Min(n, |old(inbox)|)..]
    {
      data := [];
      while |data| < n
        invariant |data| <= n
        invariant data + inbox == old(inbox)
        decreases n - |data|
      {
        ghost var before := inbox;
        var chunk := ReadSome(n - |data|);
        if chunk == [] {
          return data, false;
        }
        assert data + before == (data + chunk) + inbox;
        data := data + chunk;
      }
      return data, true;
    }

    /** io.ReadAtLeast: at least `min` bytes and at most `max`; how many depends on how they arrive. */
    method ReadAtLeast(min: nat, max: nat) returns (data: Bytes, ok: bool)
      requires min <= max
      modifies this`inbox
      ensures ok <==> min <= |old(inbox)|
      ensures old(inbox) == data + inbox
      ensures if ok then min <= |data| <= max else inbox == []
    {
      data := [];
      while |data| < min
        invariant |data| <= max
        invariant data + inbox == old(inbox)
        decreases min - |data|
      {
        ghost var before := inbox;
        var chunk := ReadSome(max - |data|);
        if chunk == [] {
          return data, false;
        }
        assert data + before == (data + chunk) + inbox;
        data := data + chunk;
      }
      return data, true;
    }

    method Write(b: Bytes)
      modifies this`outbox
      ensures outbox == old(outbox) + b
    {
      outbox := outbox + b;
    }
  }
}
