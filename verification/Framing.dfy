/** How a TCP stream is cut back into the messages it carries. */
module Framing {
  import opened Bytes
  import Wire

  /** The limit on a frame, and the size of the receive buffers. */
  const MAX_FRAME := 65536
  const SBSIZE := 69632

  /** What a stream leaves behind: a closed connection, nothing, or the bytes of
      an incomplete frame with the number of bytes wanted. */
  datatype Ending = Closed | Idle | Partial(data: bytes, pktsize: nat)

  datatype Outcome = Outcome(delivered: seq<bytes>, ending: Ending)

  function After(first: seq<bytes>, rest: Outcome): Outcome {
    Outcome(first + rest.delivered, rest.ending)
  }

  /** parse_message() refuses only a message of another version. */
  predicate Accepts(msg: bytes)
    requires |msg| >= 4
  {
    msg[0] / 16 == Wire.PROTO_VER
  }

  lemma RefusedIsBadVersion(mem: bytes, len: nat)
    requires Wire.Decode(mem, len).Ok?
    ensures Accepts(mem) <==> !Wire.Decode(mem, len).msg.BadVersion?
  {
    assert Be32At(mem, 0) / 0x1000_0000 == mem[0] / 16;
  }

  // ---------- the messages of a stream ----------

  predicate ValidLength(n: nat) {
    8 < n <= MAX_FRAME
  }

  /** The messages of a stream, read greedily. */
  function Deframe(s: bytes): Outcome {
    if s == [] then Outcome([], Idle)
    else if |s| < 4 then Outcome([], Partial(s, 4))
    else
      var n := Be32At(s, 0);
      if !ValidLength(n) then Outcome([], Closed)
      else if n > |s| then Outcome([], Partial(s, n))
      else if !Accepts(s[4..n]) then Outcome([s[4..n]], Closed)
      else After([s[4..n]], Deframe(s[n..]))
  }

  function Frame(msg: bytes): bytes
    requires |msg| + 4 < TWO_32
  {
    Be32(|msg| + 4) + msg
  }

  predicate Sendable(msg: bytes) {
    |msg| >= 5 && |msg| + 4 <= MAX_FRAME && Accepts(msg)
  }

  function Stream(msgs: seq<bytes>): bytes
    requires forall i :: 0 <= i < |msgs| ==> Sendable(msgs[i])
  {
    if msgs == [] then []
    else
      assert Sendable(msgs[0]);
      Frame(msgs[0]) + Stream(msgs[1..])
  }

  lemma FirstFrame(msg: bytes, rest: bytes)
    requires Sendable(msg)
    ensures Deframe(Frame(msg) + rest) == After([msg], Deframe(rest))
  {
    hide Be32At, Be32, Accepts;
    var s, n := Frame(msg) + rest, |msg| + 4;
    assert s[0..4] == Be32(n);
    Be32Read(s, 0, n);
    assert s[4..n] == msg && s[n..] == rest;
  }

  /** What was framed comes back, message by message. */
  lemma {:induction false} FramesComeBack(msgs: seq<bytes>)
    requires forall i :: 0 <= i < |msgs| ==> Sendable(msgs[i])
    ensures Deframe(Stream(msgs)) == Outcome(msgs, Idle)
  {
    hide Sendable, Frame;
    if msgs != [] {
      hide Deframe;
      assert Sendable(msgs[0]);
      FramesComeBack(msgs[1..]);
      FirstFrame(msgs[0], Stream(msgs[1..]));
      assert [msgs[0]] + msgs[1..] == msgs;
    } else {
      assert Deframe([]) == Outcome([], Idle);
    }
  }

  /** What becomes of bytes that do not begin with a whole acceptable frame, when
      msgs have been delivered before: they wait for more; or a length out of
      bounds closes the connection, as does a message of another version, which
      is still handed over, since it has to be answered. */
  predicate Stops(rest: bytes, msgs: seq<bytes>, o: Outcome) {
    if |rest| < 4 then o == Outcome(msgs, if rest == [] then Idle else Partial(rest, 4))
    else
      var n := Be32At(rest, 0);
      if n <= 8 || n > 65536 then o == Outcome(msgs, Closed)
      else if n > |rest| then o == Outcome(msgs, Partial(rest, n))
      else rest[4] / 16 != 1 && o == Outcome(msgs + [rest[4..n]], Closed)
  }

  /** s is the stream of msgs and then the rest that stops it. */
  predicate IsReadAs(s: bytes, msgs: seq<bytes>, rest: bytes) {
    && (forall i :: 0 <= i < |msgs| ==> Sendable(msgs[i]))
    && s == Stream(msgs) + rest
    && Stops(rest, msgs, Deframe(s))
  }

  /** Any bytes at all are some framed messages and a rest, and that is how they
      are read: nothing is delivered that was not framed in the stream. */
  lemma {:induction false} EveryStreamIsRead(s: bytes)
    decreases |s|
    ensures exists msgs, rest :: IsReadAs(s, msgs, rest)
  {
    hide Be32At;
    if |s| >= 4 && ValidLength(Be32At(s, 0)) && Be32At(s, 0) <= |s| && Accepts(s[4..Be32At(s, 0)]) {
      var n := Be32At(s, 0);
      EveryStreamIsRead(s[n..]);
      var msgs, rest :| IsReadAs(s[n..], msgs, rest);
      FirstIsRead(s, n, msgs, rest);
    } else {
      assert s == Stream([]) + s;
      assert IsReadAs(s, [], s);
    }
  }

  lemma FirstIsRead(s: bytes, n: nat, msgs: seq<bytes>, rest: bytes)
    requires |s| >= 4 && n == Be32At(s, 0) && ValidLength(n) && n <= |s| && Accepts(s[4..n])
    requires IsReadAs(s[n..], msgs, rest)
    ensures IsReadAs(s, [s[4..n]] + msgs, rest)
  {
    hide Be32At, Stops, Accepts;
    var first := s[4..n];
    var all := [first] + msgs;
    FrameIsRead(s, n);
    assert Deframe(s) == After([first], Deframe(s[n..]));
    StopsLater(first, msgs, rest, Deframe(s[n..]));
    hide Deframe, Frame;
    assert all[1..] == msgs;
    assert Stream(all) == Frame(first) + Stream(msgs);
    assert s == s[..n] + s[n..];
    assert s == Stream(all) + rest;
  }

  lemma FrameIsRead(s: bytes, n: nat)
    requires |s| >= 4 && n == Be32At(s, 0) && ValidLength(n) && n <= |s| && Accepts(s[4..n])
    ensures Sendable(s[4..n]) && Frame(s[4..n]) == s[..n]
  {
    hide Be32At, Be32, Accepts;
    Wire.Be32Writes(s, 0);
  }

  lemma StopsLater(first: bytes, msgs: seq<bytes>, rest: bytes, o: Outcome)
    requires Stops(rest, msgs, o)
    ensures Stops(rest, [first] + msgs, After([first], o))
  {
    hide Be32At;
    if |rest| >= 4 && Be32At(rest, 0) <= |rest| && 8 < Be32At(rest, 0) <= 65536 {
      var last := [rest[4..Be32At(rest, 0)]];
      assert [first] + (msgs + last) == [first] + msgs + last;
    }
  }

  /** The bytes that wait when a stream is cut here. */
  function Waiting(e: Ending): bytes {
    if e.Partial? then e.data else []
  }

  /** Cutting the stream anywhere changes nothing: what is delivered up to the
      cut, and then from the waiting bytes and the rest, is what the whole
      stream delivers. */
  lemma {:induction false} CutsDoNotMatter(s: bytes, t: bytes)
    decreases |s|
    ensures var r := Deframe(s);
      Deframe(s + t) == if r.ending == Closed then r else After(r.delivered, Deframe(Waiting(r.ending) + t))
  {
    hide Be32At, Accepts;
    if s == [] || |s| < 4 {
      assert s == [] ==> s + t == t && [] + t == t;
    } else {
      var n := Be32At(s, 0);
      HeaderStays(s, t);
      if ValidLength(n) && n <= |s| {
        assert (s + t)[4..n] == s[4..n] && (s + t)[n..] == s[n..] + t;
        if Accepts(s[4..n]) {
          CutsDoNotMatter(s[n..], t);
          var r := Deframe(s[n..]);
          var first := [s[4..n]];
          var rest := Deframe(Waiting(r.ending) + t);
          assert first + (r.delivered + rest.delivered) == first + r.delivered + rest.delivered;
        }
      }
    }
  }

  lemma HeaderStays(s: bytes, t: bytes)
    requires |s| >= 4
    ensures Be32At(s + t, 0) == Be32At(s, 0)
  {
  }

  /** While a frame is incomplete, fewer bytes wait than are wanted, and never
      more than a frame's worth. */
  lemma {:induction false} PartialIsBounded(s: bytes)
    decreases |s|
    ensures Deframe(s).ending.Partial? ==>
      0 < |Deframe(s).ending.data| < Deframe(s).ending.pktsize <= MAX_FRAME
  {
    if |s| >= 4 && ValidLength(Be32At(s, 0)) && Be32At(s, 0) <= |s| {
      PartialIsBounded(s[Be32At(s, 0)..]);
    }
  }

  // ---------- processing a buffer in place ----------

  /** The count handed to the recursive call: the length of the frame just
      consumed, as the code is written, or the count of the bytes left over, as
      its comment says. */
  datatype Rearm = AsWritten | AsIntended

  /** memmove(buf, buf + from, count) */
  function Moved(b: bytes, from: nat, count: nat): (r: bytes)
    requires from + count <= |b|
    ensures |r| == |b|
  {
    b[from..from + count] + b[count..]
  }

  /** process_buf() on a buffer of which the first len bytes are taken as
      received. */
  function Process(mode: Rearm, b: bytes, len: nat): Outcome
    requires len <= |b|
    decreases len
  {
    if len < 4 then Outcome([], Partial(b[..len], 4))
    else
      var n := Be32At(b, 0);
      if !ValidLength(n) then Outcome([], Closed)
      else if n > len then Outcome([], Partial(b[..len], n))
      else if !Accepts(b[4..n]) then Outcome([b[4..n]], Closed)
      else if n == len then Outcome([b[4..n]], Idle)
      else After([b[4..n]], Process(mode, Moved(b, n, len - n), if mode.AsIntended? then len - n else n))
  }

  /** As intended, a buffer is processed like the stream it holds, whatever lies
      behind the received bytes. */
  lemma {:induction false} IntendedIsDeframe(b: bytes, len: nat)
    requires 0 < len <= |b|
    decreases len
    ensures Process(AsIntended, b, len) == Deframe(b[..len])
  {
    if len >= 4 {
      var n := Be32At(b, 0);
      HeaderStays(b[..len], b[len..]);
      assert b[..len] + b[len..] == b;
      if ValidLength(n) && n <= len {
        assert b[..len][4..n] == b[4..n];
        if Accepts(b[4..n]) {
          if n < len {
            var m := Moved(b, n, len - n);
            IntendedIsDeframe(m, len - n);
            assert m[..len - n] == b[..len][n..];
          } else {
            assert b[..len][n..] == [];
          }
        }
      }
    }
  }

  // ---------- the code as written ----------

  /** Each frame is exactly as long as all that was received behind it, or
      nothing was. */
  predicate EachFrameHalves(s: bytes) {
    if |s| < 4 then true
    else
      var n := Be32At(s, 0);
      (ValidLength(n) && n < |s| && Accepts(s[4..n])) ==> n == |s| - n && EachFrameHalves(s[n..])
  }

  /** Then the code as written does what is intended. It holds in particular
      whenever a read ends inside or at the end of the first frame. */
  lemma {:induction false} AsWrittenWhenHalving(b: bytes, len: nat)
    requires 0 < len <= |b| && EachFrameHalves(b[..len])
    decreases len
    ensures Process(AsWritten, b, len) == Process(AsIntended, b, len)
  {
    if len >= 4 {
      var n := Be32At(b, 0);
      HeaderStays(b[..len], b[len..]);
      assert b[..len] + b[len..] == b;
      if ValidLength(n) && n < len && Accepts(b[4..n]) {
        assert b[..len][4..n] == b[4..n];
        var m := Moved(b, n, len - n);
        assert m[..len - n] == b[..len][n..];
        AsWrittenWhenHalving(m, len - n);
      }
    }
  }

  /** The bytes are part of a frame, or one whole frame that is accepted. */
  predicate AtMostOneFrame(s: bytes) {
    |s| < 4
    || (ValidLength(Be32At(s, 0))
        && (Be32At(s, 0) > |s| || (Be32At(s, 0) == |s| && Accepts(s[4..]))))
  }

  lemma IdleMeansDelivered(mode: Rearm, b: bytes, len: nat)
    requires len <= |b|
    ensures Process(mode, b, len).ending == Idle ==> Process(mode, b, len).delivered != []
  {
  }

  /** A read that brought one whole frame and then at most one more: the code as
      written does what is intended just when the bytes behind the frame are as
      many as the frame's own, or none. */
  lemma AsWrittenIsRightWhen(b: bytes, len: nat)
    requires 4 <= len <= |b|
    requires var n := Be32At(b, 0);
      ValidLength(n) && n <= len && Accepts(b[4..n]) && AtMostOneFrame(b[n..len])
    ensures Process(AsWritten, b, len) == Process(AsIntended, b, len) <==>
            len == Be32At(b, 0) || len == 2 * Be32At(b, 0)
  {
    var n := Be32At(b, 0);
    if n < len && len != 2 * n {
      var m, e := Moved(b, n, len - n), len - n;
      var right, wrong := Process(AsIntended, m, e), Process(AsWritten, m, n);
      assert m[..e] == b[n..len];
      if e >= 4 {
        HeaderStays(m[..e], m[e..]);
        assert m[..e] + m[e..] == m;
        assert m[4..e] == b[n..len][4..];
      }
      LeftoverMistaken(m, e, n);
      assert right.delivered != wrong.delivered || right.ending != wrong.ending;
      assert Process(AsIntended, b, len) == After([b[4..n]], right);
      assert Process(AsWritten, b, len) == After([b[4..n]], wrong);
      assert ([b[4..n]] + right.delivered)[1..] == right.delivered;
      assert ([b[4..n]] + wrong.delivered)[1..] == wrong.delivered;
    } else if n < len {
      assert b[..len][n..] == b[n..len];
      assert Moved(b, n, len - n)[..n] == b[n..len];
      if Be32At(b[n..len], 0) <= n {
        HeaderStays(b[n..len], b[n..]);
      }
      AsWrittenWhenEqual(b, len);
    }
  }

  /** The leftover m[..e], processed under a wrong count x. */
  lemma LeftoverMistaken(m: bytes, e: nat, x: nat)
    requires 0 < e <= |m| && 8 < x <= |m| && e != x && AtMostOneFrame(m[..e])
    ensures Process(AsIntended, m, e) != Process(AsWritten, m, x)
  {
    var right, wrong := Process(AsIntended, m, e), Process(AsWritten, m, x);
    if e >= 4 {
      HeaderStays(m[..e], m[e..]);
      assert m[..e] + m[e..] == m;
    }
    if e < 4 || Be32At(m, 0) > e {
      assert right.delivered == [] && right.ending.Partial? && |right.ending.data| == e;
      assert wrong.ending.Partial? && wrong.delivered == [] ==> |wrong.ending.data| == x;
    } else {
      assert m[4..e] == m[..e][4..];
      assert right == Outcome([m[4..e]], Idle);
      if e < x {
        var rest := Process(AsWritten, Moved(m, e, x - e), e);
        IdleMeansDelivered(AsWritten, Moved(m, e, x - e), e);
        assert wrong == After([m[4..e]], rest);
        assert rest.delivered != [] ==> |wrong.delivered| > 1;
      }
    }
  }

  lemma AsWrittenWhenEqual(b: bytes, len: nat)
    requires 4 <= len <= |b| && len == 2 * Be32At(b, 0)
    requires var n := Be32At(b, 0); ValidLength(n) && Accepts(b[4..n]) && AtMostOneFrame(b[n..len])
    ensures Process(AsWritten, b, len) == Process(AsIntended, b, len)
  {
    var n := Be32At(b, 0);
    var m := Moved(b, n, n);
    assert m[..n] == b[n..len];
    HeaderStays(m[..n], m[n..]);
    assert m[..n] + m[n..] == m;
  }

  // ---------- two and three frames in one read ----------

  /** A frame at the front of a buffer. */
  lemma FrontFrame(b: bytes, msg: bytes)
    requires Sendable(msg) && |b| >= |msg| + 4 && b[..|msg| + 4] == Frame(msg)
    ensures Be32At(b, 0) == |msg| + 4 && b[4..|msg| + 4] == msg && ValidLength(|msg| + 4)
  {
    assert b[0..4] == b[..|msg| + 4][0..4] == Be32(|msg| + 4);
    Be32Read(b, 0, |msg| + 4);
    assert b[4..|msg| + 4] == b[..|msg| + 4][4..];
  }

  /** Two requests read at once: as written, both are delivered and the
      connection is left clean just when they have the same length. */
  lemma TwoRequestsAtOnce(first: bytes, second: bytes, stale: bytes)
    requires Sendable(first) && Sendable(second)
    ensures var b := Frame(first) + Frame(second) + stale;
      var len := |first| + |second| + 8;
      && Process(AsIntended, b, len) == Outcome([first, second], Idle)
      && (Process(AsWritten, b, len) == Outcome([first, second], Idle) <==> |first| == |second|)
  {
    var b := Frame(first) + Frame(second) + stale;
    var n, len := |first| + 4, |first| + |second| + 8;
    assert b[..n] == Frame(first);
    FrontFrame(b, first);
    assert b[n..len] == Frame(second);
    FrontFrame(b[n..len], second);
    assert Stream([first, second][1..]) == Frame(second) + Stream([]);
    assert b[..len] == Stream([first, second]);
    FramesComeBack([first, second]);
    IntendedIsDeframe(b, len);
    assert b[n..len][4..] == second;
    AsWrittenIsRightWhen(b, len);
  }

  const STATS_REQUEST: bytes := [0x10, 0, 0, 1, 0x01, 0x06, 0, 0]
  const GET_REQUEST: bytes := [0x10, 0, 0, 1, 0x01, 0x01, 0, 0, 0, 0, 0, 1, 97]

  /** For instance, a stats request and a get of the key "a". */
  lemma AsWrittenLosesTheStream(stale: bytes)
    ensures var b := Frame(STATS_REQUEST) + Frame(GET_REQUEST) + stale;
      Process(AsWritten, b, 29) != Process(AsIntended, b, 29)
  {
    TwoRequestsAtOnce(STATS_REQUEST, GET_REQUEST, stale);
  }

  /** With more behind the first frame, the code as written can go wrong and
      still come right again: frames of 27, 9 and 9 bytes. */
  lemma AsWrittenCanRecover(first: bytes, second: bytes, third: bytes, stale: bytes)
    requires Sendable(first) && Sendable(second) && Sendable(third)
    requires |first| == 23 && |second| == 5 && |third| == 5
    ensures var b := Frame(first) + Frame(second) + Frame(third) + stale;
      Process(AsWritten, b, 45) == Outcome([first, second, third], Idle) && !EachFrameHalves(b[..45])
  {
    hide Be32At, Be32;
    var b := Frame(first) + Frame(second) + Frame(third) + stale;
    assert b[..27] == Frame(first);
    FrontFrame(b, first);
    var m := Moved(b, 27, 18);
    assert m[..9] == Frame(second);
    FrontFrame(m, second);
    var m2 := Moved(m, 9, 18);
    assert m[9..18] == Frame(third);
    assert m2[..9] == m[9..18];
    FrontFrame(m2, third);
    assert b[..45][..27] == Frame(first);
    FrontFrame(b[..45], first);
  }
}
