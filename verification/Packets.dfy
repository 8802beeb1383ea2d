/** The client's request buffers. */
module Packets {
  import opened Bytes
  import opened Protocol
  import opened Wire
  import opened Framing
  import opened Socket

  /** Room for any reply, for requests whose reply size is not known. */
  const BIG := 69632

  /** A buffer with the common header at the transport's offset moff. */
  method NewPacket(moff: nat, request: nat, flags: nat, size: Option<nat>)
    returns (buf: array<byte>, payload: nat)
    requires request < TWO_16 && flags < TWO_16 && moff <= 4
    ensures fresh(buf) && payload == moff + HEADER
    ensures buf.Length == if size.None? then BIG else moff + HEADER + size.value
    ensures buf[moff..payload] == Header(ID_CODE, request, flags)
  {
    payload := moff + HEADER;
    buf := new byte[if size.None? then BIG else moff + HEADER + size.value];
    ghost var b := buf[..];
    var first := PROTO_VER * 0x1000_0000 + ID_CODE;
    hide Be32, Be16, Splice;
    Put32(buf, moff, first);
    Put16(buf, moff + 4, request);
    Put16(buf, moff + 6, flags);
    SplicesJoin(b, moff, Be32(first), Be16(request));
    SplicesJoin(b, moff, Be32(first) + Be16(request), Be16(flags));
    SpliceReads(b, moff, Header(ID_CODE, request, flags));
  }

  lemma SpliceReads(b: bytes, at: nat, d: bytes)
    requires at + |d| <= |b|
    ensures Splice(b, at, d)[at..at + |d|] == d
    ensures forall i :: 0 <= i <= at ==> Splice(b, at, d)[i..at] == b[i..at]
  {
  }

  method Append1v(buf: array<byte>, at: nat, datum: bytes) returns (size: nat)
    requires |datum| < TWO_32 && at + 4 + |datum| <= buf.Length
    modifies buf
    ensures size == 4 + |datum|
    ensures buf[..] == Splice(old(buf[..]), at, Be32(|datum|) + datum)
  {
    Put32(buf, at, |datum|);
    CopyIn(buf, at + 4, datum);
    SplicesJoin(old(buf[..]), at, Be32(|datum|), datum);
    size := 4 + |datum|;
  }

  method Append2v(buf: array<byte>, at: nat, d1: bytes, d2: bytes) returns (size: nat)
    requires |d1| < TWO_32 && |d2| < TWO_32 && at + 8 + |d1| + |d2| <= buf.Length
    modifies buf
    ensures size == 8 + |d1| + |d2|
    ensures buf[..] == Splice(old(buf[..]), at, Be32(|d1|) + Be32(|d2|) + d1 + d2)
  {
    hide Be32, Splice;
    ghost var b := buf[..];
    Put32(buf, at, |d1|);
    Put32(buf, at + 4, |d2|);
    CopyIn(buf, at + 8, d1);
    CopyIn(buf, at + 8 + |d1|, d2);
    SplicesJoin(b, at, Be32(|d1|), Be32(|d2|));
    SplicesJoin(b, at, Be32(|d1|) + Be32(|d2|), d1);
    SplicesJoin(b, at, Be32(|d1|) + Be32(|d2|) + d1, d2);
    size := 8 + |d1| + |d2|;
  }

  method Append3v(buf: array<byte>, at: nat, d1: bytes, d2: bytes, d3: bytes) returns (size: nat)
    requires |d1| < TWO_32 && |d2| < TWO_32 && |d3| < TWO_32
    requires at + 12 + |d1| + |d2| + |d3| <= buf.Length
    modifies buf
    ensures size == 12 + |d1| + |d2| + |d3|
    ensures buf[..] == Splice(old(buf[..]), at, Be32(|d1|) + Be32(|d2|) + Be32(|d3|) + d1 + d2 + d3)
  {
    hide Be32, Splice;
    ghost var b := buf[..];
    Put32(buf, at, |d1|);
    Put32(buf, at + 4, |d2|);
    Put32(buf, at + 8, |d3|);
    CopyIn(buf, at + 12, d1);
    CopyIn(buf, at + 12 + |d1|, d2);
    CopyIn(buf, at + 12 + |d1| + |d2|, d3);
    SplicesJoin(b, at, Be32(|d1|), Be32(|d2|));
    SplicesJoin(b, at, Be32(|d1|) + Be32(|d2|), Be32(|d3|));
    SplicesJoin(b, at, Be32(|d1|) + Be32(|d2|) + Be32(|d3|), d1);
    SplicesJoin(b, at, Be32(|d1|) + Be32(|d2|) + Be32(|d3|) + d1, d2);
    SplicesJoin(b, at, Be32(|d1|) + Be32(|d2|) + Be32(|d3|) + d1 + d2, d3);
    size := 12 + |d1| + |d2| + |d3|;
  }

  /** The flags that each call keeps: cache-only always, sync for set and del,
      and no others. */
  function Mask(op: Op, flags: nat): (r: nat)
    ensures CacheOnly(r) == CacheOnly(flags)
    ensures Sync(r) == (Sync(flags) && (op.Set? || op.Del?))
    ensures r < 4
  {
    if op.Set? || op.Del? then flags % 4 else flags % 2
  }

  /** The size given to new_packet(): none for a get, whose reply is as large as
      the value. */
  function Room(op: Op): Option<nat> {
    if op.Get? then None else Some(PayloadSize(op))
  }

  /** The payload of a request, by the append function it is written with. */
  method AppendOp(buf: array<byte>, at: nat, op: Op) returns (size: nat)
    requires Encodable(op) && at + PayloadSize(op) <= buf.Length
    modifies buf
    ensures size == PayloadSize(op) && buf[..] == Splice(old(buf[..]), at, Payload(op))
  {
    hide Be32, Splice, Be64;
    match op {
      case Get(k) => size := Append1v(buf, at, k);
      case Set(k, v) => size := Append2v(buf, at, k, v);
      case Del(k) => size := Append1v(buf, at, k);
      case Cas(k, o, n) => size := Append3v(buf, at, k, o, n);
      case Incr(k, i) =>
        size := Append1v(buf, at, k);
        CopyIn(buf, at + size, Be64(i));
        SplicesJoin(old(buf[..]), at, Be32(|k|) + k, Be64(i));
        size := size + 8;
    }
  }

  /** The request part of do_get(), do_set(), do_del(), do_cas() and do_incr(). */
  method Build(moff: nat, op: Op, flags: nat) returns (buf: array<byte>, reqsize: nat)
    requires moff <= 4 && Encodable(op)
    requires op.Get? ==> moff + HEADER + PayloadSize(op) <= BIG
    ensures fresh(buf) && reqsize == moff + HEADER + PayloadSize(op) <= buf.Length
    ensures buf.Length == if op.Get? then BIG else reqsize
    ensures buf[moff..reqsize] == Encode(ID_CODE, Mask(op, flags), op)
  {
    hide Splice, Header, Payload;
    var payload;
    buf, payload := NewPacket(moff, Command(op), Mask(op, flags), Room(op));
    ghost var b := buf[..];
    var n := AppendOp(buf, payload, op);
    reqsize := payload + n;
    SpliceReads(b, payload, Payload(op));
    assert buf[moff..reqsize] == buf[..][moff..payload] + buf[..][payload..reqsize];
  }

  /** A whole request over TCP: the length is written in front, and the kernel
      gets exactly one frame around the encoded request. */
  method TcpRequest(conn: Connection, op: Op, flags: nat) returns (buf: array<byte>)
    requires Encodable(op) && (op.Get? ==> 4 + HEADER + PayloadSize(op) <= BIG)
    modifies conn`outgoing
    ensures fresh(buf) && buf.Length == if op.Get? then BIG else 4 + HEADER + PayloadSize(op)
    ensures conn.outgoing == old(conn.outgoing) + Frame(Encode(ID_CODE, Mask(op, flags), op))
  {
    hide Encode, Be32, Splice;
    var reqsize;
    buf, reqsize := Build(4, op, flags);
    ghost var msg := Encode(ID_CODE, Mask(op, flags), op);
    assert |msg| == HEADER + PayloadSize(op);
    ghost var b := buf[..];
    assert b[4..reqsize] == msg;
    Put32(buf, 0, reqsize);
    SplicePrefix(b, Be32(reqsize), reqsize);
    conn.SendAll(buf, reqsize);
    assert buf[..reqsize] == buf[..][..reqsize];
  }

  lemma SplicePrefix(b: bytes, d: bytes, n: nat)
    requires |d| <= n <= |b|
    ensures Splice(b, 0, d)[..n] == d + b[|d|..n]
  {
  }
}
