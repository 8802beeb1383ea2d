/** A stream socket: the kernel takes and gives bytes in whatever portions it
    likes, in order, at least one at a time. Both programs use it. */
module Socket {
  import opened Bytes

  /** b with the bytes d written at position at. */
  function Splice(b: bytes, at: nat, d: bytes): (r: bytes)
    requires at + |d| <= |b|
    ensures |r| == |b|
  {
    b[..at] + d + b[at + |d|..]
  }

  class Connection {
    /** What the peer has sent and was not read yet. */
    var incoming: bytes
    /** What was sent to the peer. */
    var outgoing: bytes

    constructor (incoming: bytes)
      ensures this.incoming == incoming && outgoing == []
    {
      this.incoming, outgoing := incoming, [];
    }

    method Recv(b: array<byte>, at: nat, count: nat) returns (n: nat)
      requires incoming != [] && 0 < count && at + count <= b.Length
      modifies this`incoming, b
      ensures 0 < n <= count && n <= |old(incoming)|
      ensures incoming == old(incoming)[n..]
      ensures b[..] == Splice(old(b[..]), at, old(incoming)[..n])
    {
      n :| 0 < n <= count && n <= |incoming|;
      forall i | 0 <= i < n {
        b[at + i] := incoming[i];
      }
      incoming := incoming[n..];
    }

    method Send(b: array<byte>, at: nat, count: nat) returns (n: nat)
      requires 0 < count && at + count <= b.Length
      modifies this`outgoing
      ensures 0 < n <= count && outgoing == old(outgoing) + b[at..at + n]
    {
      n :| 0 < n <= count;
      outgoing := outgoing + b[at..at + n];
    }

    /** srecv(): reads on until count bytes have come. */
    method RecvAll(b: array<byte>, at: nat, count: nat)
      requires count <= |incoming| && at + count <= b.Length
      modifies this`incoming, b
      ensures incoming == old(incoming)[count..]
      ensures b[..] == Splice(old(b[..]), at, old(incoming)[..count])
    {
      hide Splice;
      var c := 0;
      NoSplice(b[..], at);
      while c < count
        invariant c <= count && incoming == old(incoming)[c..]
        invariant b[..] == Splice(old(b[..]), at, old(incoming)[..c])
      {
        var n := Recv(b, at + c, count - c);
        SplicesJoin(old(b[..]), at, old(incoming)[..c], old(incoming)[c..c + n]);
        assert old(incoming)[c..][..n] == old(incoming)[c..c + n];
        assert old(incoming)[..c] + old(incoming)[c..c + n] == old(incoming)[..c + n];
        c := c + n;
      }
    }

    /** ssend() and rep_send(): send on until size bytes are gone. */
    method SendAll(b: array<byte>, size: nat)
      requires size <= b.Length
      modifies this`outgoing
      ensures outgoing == old(outgoing) + b[..size]
    {
      var c := 0;
      while c < size
        invariant c <= size && outgoing == old(outgoing) + b[..c]
      {
        var n := Send(b, c, size - c);
        assert b[..c] + b[c..c + n] == b[..c + n];
        c := c + n;
      }
    }
  }

  lemma NoSplice(b: bytes, at: nat)
    requires at <= |b|
    ensures Splice(b, at, []) == b
  {
  }

  // ---------- writing into a buffer ----------

  /** memcpy() into a buffer. */
  method CopyIn(b: array<byte>, at: nat, d: bytes)
    requires at + |d| <= b.Length
    modifies b
    ensures b[..] == Splice(old(b[..]), at, d)
  {
    forall i | 0 <= i < |d| {
      b[at + i] := d[i];
    }
  }

  /** A 32-bit number in network order. */
  method Put32(b: array<byte>, at: nat, x: nat)
    requires x < TWO_32 && at + 4 <= b.Length
    modifies b
    ensures b[..] == Splice(old(b[..]), at, Be32(x))
  {
    CopyIn(b, at, Be32(x));
  }

  method Put16(b: array<byte>, at: nat, x: nat)
    requires x < TWO_16 && at + 2 <= b.Length
    modifies b
    ensures b[..] == Splice(old(b[..]), at, Be16(x))
  {
    CopyIn(b, at, Be16(x));
  }

  /** Two pieces written one behind the other are one piece. */
  lemma SplicesJoin(b: bytes, at: nat, d: bytes, e: bytes)
    requires at + |d| + |e| <= |b|
    ensures Splice(Splice(b, at, d), at + |d|, e) == Splice(b, at, d + e)
  {
  }
}
