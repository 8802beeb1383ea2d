/** The server's side of a TCP connection: partial reads are kept, complete
    frames are handed to the parser, leftovers are moved and parsed in turn. */
module TcpSocket {
  import opened Bytes
  import opened Framing
  import opened Socket

  class TcpSocket {
    const mode: Rearm
    /** The buffer of an incomplete frame; null when there is none. */
    var buf: array?<byte>
    var pktsize: nat
    var len: nat
    var excess: nat
    var closed: bool
    /** The messages given to the parser. */
    var delivered: seq<bytes>

    ghost predicate Valid()
      reads this, buf
    {
      && excess == 0
      && (buf != null ==> !closed && buf.Length == SBSIZE && 0 < len < pktsize <= MAX_FRAME)
    }

    /** The messages so far and what the stream has left behind. */
    ghost function Seen(): Outcome
      requires Valid()
      reads this, buf
    {
      Outcome(delivered,
              if closed then Closed else if buf == null then Idle else Partial(buf[..len], pktsize))
    }

    constructor (mode: Rearm)
      ensures Valid() && Seen() == Deframe([]) && this.mode == mode && buf == null
    {
      this.mode := mode;
      buf, pktsize, len, excess, closed, delivered := null, 0, 0, 0, false, [];
    }

    /** The parser's place: takes a message, refuses another version. */
    method ParseMessage(msg: bytes) returns (ok: bool)
      requires |msg| >= 4
      modifies this`delivered
      ensures delivered == old(delivered) + [msg] && ok == Accepts(msg)
    {
      delivered := delivered + [msg];
      ok := msg[0] / 16 == 1;
    }

    method Close()
      modifies this`closed, this`buf, this`excess
      ensures closed && buf == null && excess == 0
    {
      closed, buf, excess := true, null, 0;
    }

    /** Keeps an incomplete frame of size bytes. */
    method Keep(b: array<byte>, size: nat, wanted: nat)
      requires size <= b.Length == SBSIZE && (buf != null ==> buf == b)
      modifies this`buf, this`len, this`pktsize
      ensures buf != null && buf.Length == SBSIZE && buf[..size] == b[..size] && len == size && pktsize == wanted
      ensures buf == old(buf) || fresh(buf)
    {
      if buf == null {
        // the first incomplete recv(): copy out of the common buffer
        var copy := new byte[SBSIZE];
        forall i | 0 <= i < size {
          copy[i] := b[i];
        }
        buf := copy;
      }
      len, pktsize := size, wanted;
    }

    /** memmove() to the front of a buffer. */
    method MoveDown(b: array<byte>, from: nat, count: nat)
      requires from + count <= b.Length
      modifies b
      ensures b[..] == Moved(old(b[..]), from, count)
    {
      forall i | 0 <= i < count {
        b[i] := b[from + i];
      }
    }

    method ProcessBuf(b: array<byte>, size: nat)
      requires 0 < size <= b.Length == SBSIZE
      requires excess == 0 && !closed && (buf != null ==> buf == b)
      modifies this, b
      decreases size
      ensures Valid() && (buf != null ==> buf == old(buf) || fresh(buf))
      ensures Seen() == After(old(delivered), Process(mode, old(b[..]), size))
    {
      hide Be32At, Moved;
      ghost var b0 := b[..];
      var totaltoget := 4;
      if size >= 4 {
        totaltoget := Be32At(b[..], 0);
        if totaltoget > 64 * 1024 || totaltoget <= 8 {
          Close();
          return;
        }
      }
      if totaltoget > size {
        Keep(b, size, totaltoget);
        return;
      }
      if totaltoget < size {
        excess := size - totaltoget;
      }
      var ok := ParseMessage(b[4..totaltoget]);
      assert b[4..totaltoget] == b[..][4..totaltoget];
      if !ok {
        Close();
        return;
      }
      if excess > 0 {
        var left := excess;
        MoveDown(b, totaltoget, left);
        len, excess := left, 0;
        ProcessBuf(b, if mode.AsIntended? then left else totaltoget);
        return;
      }
      if buf != null {
        buf, len, pktsize, excess := null, 0, 0, 0;
      }
    }

    /** One receive event. As intended, the connection then stands as after
        reading so many more bytes of the stream. As written, it does so unless
        the read brought a frame and more than fits the frame's length behind
        it; a read that completes a waiting frame never does. */
    method TcpRecv(conn: Connection, common: array<byte>) returns (n: nat)
      requires Valid() && !closed && conn.incoming != []
      requires common.Length == SBSIZE && buf != common
      modifies this, common, buf, conn
      ensures 0 < n <= |old(conn.incoming)| && conn.incoming == old(conn.incoming)[n..]
      ensures Valid() && (buf != null ==> buf == old(buf) || fresh(buf))
      ensures var seen := Waiting(old(Seen()).ending) + old(conn.incoming)[..n];
        mode.AsIntended? || EachFrameHalves(seen) ==> Seen() == After(old(delivered), Deframe(seen))
    {
      hide Deframe, EachFrameHalves, Process;
      assert mode == AsIntended || mode == AsWritten;
      ghost var avail := conn.incoming;
      if buf == null {
        // new incoming message
        n := conn.Recv(common, 0, SBSIZE);
        assert Waiting(old(Seen()).ending) == [];
        assert common[..][..n] == [] + avail[..n];
        IntendedIsDeframe(common[..], n);
        if EachFrameHalves(common[..][..n]) {
          AsWrittenWhenHalving(common[..], n);
        }
        ProcessBuf(common, n);
      } else {
        // a partial message: complete it, and read no further
        ghost var waiting := buf[..len];
        var maxtoread := pktsize - len;
        n := conn.Recv(buf, len, maxtoread);
        assert waiting == Waiting(old(Seen()).ending);
        assert buf[..][..len + n] == waiting + avail[..n];
        len := len + n;
        IntendedIsDeframe(buf[..], len);
        if EachFrameHalves(buf[..][..len]) {
          AsWrittenWhenHalving(buf[..], len);
        }
        ProcessBuf(buf, len);
      }
    }

    /** All receive events of a stream, cut in whatever way: what is delivered
        and what is left depends on the stream alone. */
    method ReceiveAll(conn: Connection, common: array<byte>)
      requires Valid() && Seen() == Deframe([]) && mode.AsIntended?
      requires common.Length == SBSIZE && buf == null
      modifies this, common, conn
      ensures Valid() && Seen() == Deframe(old(conn.incoming))
    {
      hide Deframe;
      ghost var stream, pos := conn.incoming, 0;
      while conn.incoming != [] && !closed
        invariant pos <= |stream| && conn.incoming == stream[pos..]
        invariant Valid() && Seen() == Deframe(stream[..pos])
        invariant buf != null ==> fresh(buf)
        decreases |stream| - pos
      {
        var n := TcpRecv(conn, common);
        CutsDoNotMatter(stream[..pos], stream[pos..pos + n]);
        assert stream[..pos] + stream[pos..pos + n] == stream[..pos + n];
        assert stream[pos..][..n] == stream[pos..pos + n];
        pos := pos + n;
      }
      CutsDoNotMatter(stream[..pos], stream[pos..]);
      assert stream[..pos] + stream[pos..] == stream;
      if pos == |stream| {
        assert stream[..pos] == stream;
      }
    }
  }
}
