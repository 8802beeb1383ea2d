/** Replies over TCP: how the server frames them, and what the client makes of
    one frame, however the kernel cuts it. */
module Replies {
  import opened Bytes
  import opened Protocol
  import opened Wire
  import opened Socket
  import opened Linear
  import Packets

  const REP_ERR := 0x800

  /** The client's "no reply": -1 as an unsigned 32-bit number. */
  const NO_REPLY := 0xFFFF_FFFF

  // ---------- the server's frames ----------

  predicate Codes(body: Body) {
    body.code < TWO_32 && (body.Long? ==> |body.val| + 16 < TWO_32)
  }

  function ReplyFrame(wireId: bytes, body: Body): (f: bytes)
    requires |wireId| == 4 && Codes(body)
    ensures |f| == match body case Mini(_) => 12 case Error(_) => 16 case Long(_, v) => 16 + |v|
  {
    match body
    case Mini(code) => Be32(12) + wireId + Be32(code)
    case Error(code) => Be32(16) + wireId + Be32(REP_ERR) + Be32(code)
    case Long(code, val) => Be32(16 + |val|) + wireId + Be32(code) + Be32(|val|) + val
  }

  /** tcp_reply_mini() */
  method ReplyMini(conn: Connection, wireId: bytes, code: nat)
    requires |wireId| == 4 && code < TWO_32
    modifies conn`outgoing
    ensures conn.outgoing == old(conn.outgoing) + ReplyFrame(wireId, Mini(code))
  {
    hide Be32, Splice;
    var minibuf := new byte[12];
    ghost var b := minibuf[..];
    Put32(minibuf, 0, 12);
    CopyIn(minibuf, 4, wireId);
    Put32(minibuf, 8, code);
    SplicesJoin(b, 0, Be32(12), wireId);
    SplicesJoin(b, 0, Be32(12) + wireId, Be32(code));
    SpliceAll(b, ReplyFrame(wireId, Mini(code)));
    conn.SendAll(minibuf, 12);
    assert minibuf[..12] == minibuf[..];
  }

  lemma SpliceAll(b: bytes, d: bytes)
    requires |d| == |b|
    ensures Splice(b, 0, d) == d
  {
  }

  /** rep_send_error() */
  method ReplyErr(conn: Connection, wireId: bytes, code: nat)
    requires |wireId| == 4 && code < TWO_32
    modifies conn`outgoing
    ensures conn.outgoing == old(conn.outgoing) + ReplyFrame(wireId, Error(code))
  {
    hide Be32, Splice;
    var minibuf := new byte[16];
    ghost var b := minibuf[..];
    Put32(minibuf, 0, 16);
    CopyIn(minibuf, 4, wireId);
    Put32(minibuf, 8, REP_ERR);
    Put32(minibuf, 12, code);
    SplicesJoin(b, 0, Be32(16), wireId);
    SplicesJoin(b, 0, Be32(16) + wireId, Be32(REP_ERR));
    SplicesJoin(b, 0, Be32(16) + wireId + Be32(REP_ERR), Be32(code));
    SpliceAll(b, ReplyFrame(wireId, Error(code)));
    conn.SendAll(minibuf, 16);
    assert minibuf[..16] == minibuf[..];
  }

  /** tcp_reply_long() */
  method ReplyLong(conn: Connection, wireId: bytes, code: nat, val: bytes)
    requires |wireId| == 4 && code < TWO_32 && |val| + 16 < TWO_32
    modifies conn`outgoing
    ensures conn.outgoing == old(conn.outgoing) + ReplyFrame(wireId, Long(code, val))
  {
    hide Be32, Splice;
    var bsize := 4 + 4 + 4 + 4 + |val|;
    var buf := new byte[bsize];
    ghost var b := buf[..];
    Put32(buf, 0, bsize);
    CopyIn(buf, 4, wireId);
    Put32(buf, 8, code);
    Put32(buf, 12, |val|);
    CopyIn(buf, 16, val);
    SplicesJoin(b, 0, Be32(bsize), wireId);
    SplicesJoin(b, 0, Be32(bsize) + wireId, Be32(code));
    SplicesJoin(b, 0, Be32(bsize) + wireId + Be32(code), Be32(|val|));
    SplicesJoin(b, 0, Be32(bsize) + wireId + Be32(code) + Be32(|val|), val);
    SpliceAll(b, ReplyFrame(wireId, Long(code, val)));
    conn.SendAll(buf, bsize);
    assert buf[..bsize] == buf[..];
  }

  // ---------- the client's reading ----------

  /** One whole frame is on its way: it begins with its own length. */
  predicate WholeFrame(s: bytes) {
    |s| >= 4 && Be32At(s, 0) == |s|
  }

  lemma PrefixHeader(b: bytes, s: bytes)
    requires |b| >= 4 && |s| >= 4 && b[..4] == s[..4]
    ensures Be32At(b, 0) == Be32At(s, 0)
  {
    assert forall i :: 0 <= i < 4 ==> b[i] == b[..4][i] && s[i] == s[..4][i];
  }

  /** recv_msg(): whatever portions the kernel gives, the buffer ends up with
      exactly the frame, unless the frame is larger than the buffer. */
  method RecvMsg(conn: Connection, buf: array<byte>) returns (rv: int)
    requires WholeFrame(conn.incoming) && buf.Length >= 4
    modifies conn`incoming, buf
    ensures |old(conn.incoming)| > buf.Length ==> rv == -1
    ensures |old(conn.incoming)| <= buf.Length ==>
      rv == |old(conn.incoming)| && buf[..rv] == old(conn.incoming) && conn.incoming == []
  {
    hide Be32At;
    ghost var s := conn.incoming;
    var got := conn.Recv(buf, 0, buf.Length);
    assert buf[..got] == s[..got];
    if got < 4 {
      conn.RecvAll(buf, got, 4 - got);
      assert s[..got] + s[got..][..4 - got] == s[..4];
      assert buf[..4] == s[..4];
      got := 4;
    }
    assert buf[..got] == s[..got] && conn.incoming == s[got..];
    assert buf[..][..4] == buf[..got][..4] == s[..4];
    PrefixHeader(buf[..], s);
    var msgsize := Be32At(buf[..], 0);
    if msgsize > buf.Length {
      return -1;
    }
    if got < msgsize {
      conn.RecvAll(buf, got, msgsize - got);
      assert s[..got] + s[got..][..msgsize - got] == s;
      assert buf[..msgsize] == s;
    } else {
      assert s[..got] == s;
    }
    rv := msgsize;
  }

  /** tcp_get_rep(): the reply code of a frame with the client's identifier, and
      the size of its payload; a frame with another identifier is no reply. */
  method GetRep(conn: Connection, buf: array<byte>, ghost wireId: bytes, ghost body: Body)
    returns (reply: nat, psize: int)
    requires |wireId| == 4 && Codes(body) && conn.incoming == ReplyFrame(wireId, body) && buf.Length >= 12
    modifies conn`incoming, buf
    ensures |old(conn.incoming)| > buf.Length || Be32At(wireId, 0) != ID_CODE ==> reply == NO_REPLY
    ensures |old(conn.incoming)| <= buf.Length && Be32At(wireId, 0) == ID_CODE ==>
      && psize == |old(conn.incoming)| - 12 && psize <= buf.Length - 12
      && buf[..12 + psize] == old(conn.incoming)
      && reply == (if body.Error? then REP_ERR else body.code)
  {
    hide ReplyFrame, Be32, Be32At, Codes;
    ghost var f := conn.incoming;
    FrameFields(wireId, body);
    psize := 0;
    var rv := RecvMsg(conn, buf);
    if rv <= 0 {
      return NO_REPLY, 0;
    }
    assert buf[..][4..8] == f[4..8] && buf[..][8..12] == f[8..12];
    SameField(buf[..], f, 4);
    SameField(buf[..], f, 8);
    var id := Be32At(buf[..], 4);
    reply := Be32At(buf[..], 8);
    if id != ID_CODE {
      return NO_REPLY, 0;
    }
    psize := rv - 4 - 4 - 4;
  }

  lemma SameField(b: bytes, f: bytes, i: nat)
    requires i + 4 <= |b| && i + 4 <= |f| && b[i..i + 4] == f[i..i + 4]
    ensures Be32At(b, i) == Be32At(f, i)
  {
    assert forall j :: i <= j < i + 4 ==> b[j] == b[i..i + 4][j - i] && f[j] == f[i..i + 4][j - i];
  }

  lemma FrameFields(wireId: bytes, body: Body)
    requires |wireId| == 4 && Codes(body)
    ensures var f := ReplyFrame(wireId, body);
      && WholeFrame(f) && |f| >= 12
      && Be32At(f, 4) == Be32At(wireId, 0)
      && Be32At(f, 8) == (if body.Error? then REP_ERR else body.code)
      && (body.Long? ==> Be32At(f, 12) == |body.val| && f[16..] == body.val)
      && (body.Error? ==> Be32At(f, 12) == body.code)
    ensures wireId == Be32(ID_CODE) ==> Be32At(wireId, 0) == ID_CODE
  {
    hide Be32, Be32At;
    var f := ReplyFrame(wireId, body);
    var n, code := |f|, if body.Error? then REP_ERR else body.code;
    assert f[0..4] == Be32(n);
    Be32Read(f, 0, n);
    assert f[4..8] == wireId == wireId[0..4];
    SameFieldAt(f, wireId);
    assert f[8..12] == Be32(code);
    Be32Read(f, 8, code);
    if body.Long? {
      assert f[12..16] == Be32(|body.val|);
      Be32Read(f, 12, |body.val|);
    } else if body.Error? {
      assert f[12..16] == Be32(body.code);
      Be32Read(f, 12, body.code);
    }
    if wireId == Be32(ID_CODE) {
      assert wireId[0..4] == Be32(ID_CODE);
      Be32Read(wireId, 0, ID_CODE);
    }
  }

  lemma SameFieldAt(f: bytes, w: bytes)
    requires |f| >= 8 && |w| == 4 && f[4..8] == w
    ensures Be32At(f, 4) == Be32At(w, 0)
  {
    assert forall j :: 0 <= j < 4 ==> f[4 + j] == f[4..8][j];
  }

  // ---------- what the calls return ----------

  /** The replies that the server gives to each operation. */
  predicate FromServer(op: Op, body: Body) {
    match body
    case Error(_) => true
    case Long(code, v) =>
      || (op.Get? && (code == REP_OK || code == REP_CACHE_HIT))
      || (op.Incr? && code == REP_OK && |v| == 8)
    case Mini(code) =>
      || (op.Get? && (code == REP_CACHE_MISS || code == REP_NOTIN))
      || (op.Set? && code == REP_OK)
      || (op.Del? && (code == REP_OK || code == REP_NOTIN))
      || (op.Cas? && (code == REP_OK || code == REP_NOTIN || code == REP_NOMATCH))
      || (op.Incr? && (code == REP_NOTIN || code == REP_NOMATCH))
  }

  /** The documented return value of the call for each outcome. The length is
      returned for a get whose value fits the caller's buffer of size room. */
  function CallResult(op: Op, o: Outcome, room: nat): int {
    match op
    case Get(_) => (
      match o
      case Value(v) => if |v| <= room then |v| else -2
      case Missing => -1
      case NotCached => -1
      case _ => -2)
    case Set(_, _) => if o.Done? then 1 else -1
    case Del(_) => if o.Done? then 1 else if o.Missing? then 0 else -1
    case Cas(_, _, _) => if o.Done? then 2 else if o.Mismatch? then 1 else if o.Missing? then 0 else -1
    case Incr(_, _) => if o.Value? then 2 else if o.Mismatch? then 1 else if o.Missing? then 0 else -1
  }

  /** The reply part of do_get(): the exact value, or the documented code. */
  method FinishGet(conn: Connection, buf: array<byte>, val: array<byte>, ghost op: Op, ghost body: Body)
    returns (rv: int)
    requires op.Get? && Codes(body) && FromServer(op, body)
    requires conn.incoming == ReplyFrame(Be32(ID_CODE), body)
    requires 12 <= buf.Length && |conn.incoming| <= buf.Length && val != buf
    modifies conn`incoming, buf, val
    ensures rv == CallResult(op, Observed(body), val.Length)
    ensures rv == match body
      case Long(_, v) => if |v| <= val.Length then |v| else -2
      case Mini(_) => -1
      case Error(_) => -2
    ensures rv >= 0 ==> Observed(body).Value? && rv <= val.Length && val[..rv] == Observed(body).val
  {
    hide ReplyFrame, Be32, Be32At, Codes, Splice;
    ghost var f := conn.incoming;
    FrameFields(Be32(ID_CODE), body);
    var reply, psize := GetRep(conn, buf, Be32(ID_CODE), body);
    if reply == REP_CACHE_MISS || reply == REP_NOTIN {
      return -1;
    } else if reply == REP_ERR {
      return -2;
    } else if reply != REP_OK && reply != REP_CACHE_HIT {
      return -2;
    }
    assert body.Long?;
    assert buf[..][12..16] == f[12..16];
    SameField(buf[..], f, 12);
    var size := Be32At(buf[..], 12);
    // the difference is taken in unsigned 64-bit arithmetic
    if size > (psize - 4) % TWO_64 || size > val.Length {
      return -2;
    }
    assert buf[16..16 + size] == f[16..];
    Packets.SpliceReads(val[..], 0, buf[16..16 + size]);
    CopyIn(val, 0, buf[16..16 + size]);
    assert val[..size] == val[..][0..0 + size];
    rv := size;
  }

  /** The reply part of do_set(), do_del() and do_cas(). */
  method FinishWrite(conn: Connection, buf: array<byte>, op: Op, ghost body: Body) returns (rv: int)
    requires (op.Set? || op.Del? || op.Cas?) && Codes(body) && FromServer(op, body)
    requires conn.incoming == ReplyFrame(Be32(ID_CODE), body)
    requires 12 <= buf.Length && |conn.incoming| <= buf.Length
    modifies conn`incoming, buf
    ensures rv == CallResult(op, Observed(body), 0)
    ensures op.Cas? ==> (rv == 2 <==> body == Mini(REP_OK)) && (rv == 1 <==> body == Mini(REP_NOMATCH))
    ensures !op.Cas? ==> (rv == 1 <==> body == Mini(REP_OK))
    ensures rv == 0 <==> body == Mini(REP_NOTIN)
    ensures rv < 0 <==> body.Error?
  {
    hide ReplyFrame, Be32, Be32At, Codes;
    FrameFields(Be32(ID_CODE), body);
    var reply, _ := GetRep(conn, buf, Be32(ID_CODE), body);
    if op.Cas? {
      if reply == REP_OK {
        return 2;
      } else if reply == REP_NOMATCH {
        return 1;
      } else if reply == REP_NOTIN {
        return 0;
      }
      return -1;
    }
    if reply == REP_OK {
      return 1;
    } else if op.Del? && reply == REP_NOTIN {
      return 0;
    }
    rv := -1;
  }

  /** The reply part of do_incr(). */
  method FinishIncr(conn: Connection, buf: array<byte>, ghost op: Op, ghost body: Body)
    returns (rv: int, newval: int64)
    requires op.Incr? && Codes(body) && FromServer(op, body)
    requires conn.incoming == ReplyFrame(Be32(ID_CODE), body)
    requires 12 <= buf.Length && |conn.incoming| <= buf.Length
    modifies conn`incoming, buf
    ensures rv == CallResult(op, Observed(body), 0)
    ensures rv == 2 <==> body.Long?
    ensures rv == 1 <==> body == Mini(REP_NOMATCH)
    ensures rv == 0 <==> body == Mini(REP_NOTIN)
    ensures rv < 0 <==> body.Error?
    ensures forall n: int64 :: Observed(body) == Value(Be64(n)) ==> newval == n
  {
    hide ReplyFrame, Be32, Be32At, Be64, Be64At, Codes;
    ghost var f := conn.incoming;
    FrameFields(Be32(ID_CODE), body);
    newval := 0;
    var reply, psize := GetRep(conn, buf, Be32(ID_CODE), body);
    if reply == REP_OK {
      rv := 2;
      if psize == 8 + 4 {
        newval := Be64At(buf[..], 16);
        assert buf[..][16..24] == f[16..];
        forall n: int64 | Observed(body) == Value(Be64(n)) ensures newval == n {
          Be64Read(buf[..], 16, n);
        }
      }
    } else if reply == REP_NOMATCH {
      rv := 1;
    } else if reply == REP_NOTIN {
      rv := 0;
    } else {
      rv := -1;
    }
  }

  /** The buffer that the request was built in holds any reply to it: the calls
      reuse it. */
  lemma ReplyFitsRequestBuffer(op: Op, body: Body)
    requires FromServer(op, body) && Codes(body) && (body.Long? ==> |body.val| <= MAX_VALUE)
    ensures |ReplyFrame(Be32(ID_CODE), body)| <=
            match Packets.Room(op) case None => Packets.BIG case Some(n) => 4 + HEADER + n
  {
  }
}
