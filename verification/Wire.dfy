/** The request format: what the client library writes and what the server
    makes of any bytes it is given. */
module Wire {
  import opened Bytes
  import opened Protocol

  const PROTO_VER := 1
  const ID_CODE := 1

  const REQ_GET := 0x101
  const REQ_SET := 0x102
  const REQ_DEL := 0x103
  const REQ_CAS := 0x104
  const REQ_INCR := 0x105
  const REQ_STATS := 0x106
  const REQ_FIRSTKEY := 0x107
  const REQ_NEXTKEY := 0x108

  /** The limit on sizes in set, cas and incr. */
  const MAX_SIZE := 65536

  const HEADER := 8

  // ---------- encoding ----------

  function Command(op: Op): (cmd: nat)
    ensures cmd < TWO_16
  {
    match op
    case Get(_) => REQ_GET
    case Set(_, _) => REQ_SET
    case Del(_) => REQ_DEL
    case Cas(_, _, _) => REQ_CAS
    case Incr(_, _) => REQ_INCR
  }

  function PayloadSize(op: Op): nat {
    match op
    case Get(k) => 4 + |k|
    case Set(k, v) => 8 + |k| + |v|
    case Del(k) => 4 + |k|
    case Cas(k, o, n) => 12 + |k| + |o| + |n|
    case Incr(k, _) => 12 + |k|
  }

  /** The request fits a 32-bit length, with the transport's own four bytes. */
  predicate Encodable(op: Op) {
    PayloadSize(op) + HEADER + 4 < TWO_32
  }

  function Payload(op: Op): (p: bytes)
    requires Encodable(op)
    ensures |p| == PayloadSize(op)
  {
    match op
    case Get(k) => Be32(|k|) + k
    case Set(k, v) => Be32(|k|) + Be32(|v|) + k + v
    case Del(k) => Be32(|k|) + k
    case Cas(k, o, n) => Be32(|k|) + Be32(|o|) + Be32(|n|) + k + o + n
    case Incr(k, i) => Be32(|k|) + k + Be64(i)
  }

  function Header(id: nat, cmd: nat, flags: nat): (h: bytes)
    requires id < 0x1000_0000 && cmd < TWO_16 && flags < TWO_16
    ensures |h| == HEADER
  {
    Be32(PROTO_VER * 0x1000_0000 + id) + Be16(cmd) + Be16(flags)
  }

  function Encode(id: nat, flags: nat, op: Op): (m: bytes)
    requires id < 0x1000_0000 && flags < TWO_16 && Encodable(op)
    ensures |m| == HEADER + PayloadSize(op)
  {
    Header(id, Command(op), flags) + Payload(op)
  }

  /** A number that was written behind pre stands there, and the rest behind it. */
  lemma FieldStands(m: bytes, pre: bytes, x: nat, rest: bytes)
    requires x < TWO_32 && m == pre + Be32(x) + rest
    ensures BigEndian(m[|pre|..|pre| + 4]) == x && m[|pre| + 4..] == rest
  {
    hide Be32, BigEndian;
    assert m[|pre|..|pre| + 4] == Be32(x);
    WrittenInNetworkOrder(x, 0);
  }

  lemma HeaderLayout(id: nat, cmd: nat, flags: nat)
    requires id < 0x1000_0000 && cmd < TWO_16 && flags < TWO_16
    ensures var h := Header(id, cmd, flags);
      BigEndian(h[..4]) == 0x1000_0000 + id && BigEndian(h[4..6]) == cmd && BigEndian(h[6..8]) == flags
  {
    hide Be32, Be16, BigEndian;
    var h := Header(id, cmd, flags);
    assert h[..4] == Be32(0x1000_0000 + id) && h[4..6] == Be16(cmd) && h[6..8] == Be16(flags);
    WrittenInNetworkOrder(0x1000_0000 + id, 0);
    WrittenInNetworkOrder(cmd, 0);
    WrittenInNetworkOrder(flags, 0);
  }

  lemma OneSizeLayout(h: bytes, k: bytes, more: bytes)
    requires |h| == HEADER && |k| < TWO_32
    ensures var m := h + (Be32(|k|) + k + more);
      BigEndian(m[8..12]) == |k| && m[12..] == k + more
  {
    hide Be32, BigEndian;
    var m := h + (Be32(|k|) + k + more);
    assert m == h + Be32(|k|) + (k + more);
    FieldStands(m, h, |k|, k + more);
  }

  lemma SetLayout(h: bytes, k: bytes, v: bytes)
    requires |h| == HEADER && Encodable(Set(k, v))
    ensures var m := h + Payload(Set(k, v));
      BigEndian(m[8..12]) == |k| && BigEndian(m[12..16]) == |v| && m[16..] == k + v
  {
    hide Be32, BigEndian;
    var m := h + Payload(Set(k, v));
    assert m == h + Be32(|k|) + (Be32(|v|) + (k + v));
    FieldStands(m, h, |k|, Be32(|v|) + (k + v));
    assert m == (h + Be32(|k|)) + Be32(|v|) + (k + v);
    FieldStands(m, h + Be32(|k|), |v|, k + v);
  }

  lemma CasLayout(h: bytes, k: bytes, o: bytes, n: bytes)
    requires |h| == HEADER && Encodable(Cas(k, o, n))
    ensures var m := h + Payload(Cas(k, o, n));
      && BigEndian(m[8..12]) == |k| && BigEndian(m[12..16]) == |o| && BigEndian(m[16..20]) == |n|
      && m[20..] == k + o + n
  {
    hide Be32, BigEndian;
    var m, data := h + Payload(Cas(k, o, n)), k + o + n;
    assert m == h + Be32(|k|) + (Be32(|o|) + Be32(|n|) + data);
    FieldStands(m, h, |k|, Be32(|o|) + Be32(|n|) + data);
    assert m == (h + Be32(|k|)) + Be32(|o|) + (Be32(|n|) + data);
    FieldStands(m, h + Be32(|k|), |o|, Be32(|n|) + data);
    assert m == (h + Be32(|k|) + Be32(|o|)) + Be32(|n|) + data;
    FieldStands(m, h + Be32(|k|) + Be32(|o|), |n|, data);
  }

  /** Where each field of a payload stands, and what it holds. */
  lemma PayloadLayout(h: bytes, op: Op)
    requires |h| == HEADER && Encodable(op)
    ensures var m := h + Payload(op);
      && BigEndian(m[8..12]) == |op.key|
      && match op
         case Get(k) => m[12..] == k
         case Set(k, v) => BigEndian(m[12..16]) == |v| && m[16..] == k + v
         case Del(k) => m[12..] == k
         case Cas(k, o, n) =>
           BigEndian(m[12..16]) == |o| && BigEndian(m[16..20]) == |n| && m[20..] == k + o + n
         case Incr(k, i) => m[12..] == k + Be64(i)
  {
    hide Be32, Be64, BigEndian;
    match op {
      case Get(k) => NoMore(k); OneSizeLayout(h, k, []);
      case Set(k, v) => SetLayout(h, k, v);
      case Del(k) => NoMore(k); OneSizeLayout(h, k, []);
      case Cas(k, o, n) => CasLayout(h, k, o, n);
      case Incr(k, i) => OneSizeLayout(h, k, Be64(i));
    }
  }

  lemma NoMore(k: bytes)
    requires |k| < TWO_32
    ensures k + [] == k && Be32(|k|) + k + [] == Be32(|k|) + k
  {
  }

  /** A request starts with version and identifier, command and flags, in the
      layout and with the numbers of the protocol. */
  lemma RequestLayout(id: nat, flags: nat, op: Op)
    requires id < 0x1000_0000 && flags < TWO_16 && Encodable(op)
    ensures var m := Encode(id, flags, op);
      && BigEndian(m[..4]) == 0x1000_0000 + id
      && BigEndian(m[4..6]) == (match op
           case Get(_) => 0x101
           case Set(_, _) => 0x102
           case Del(_) => 0x103
           case Cas(_, _, _) => 0x104
           case Incr(_, _) => 0x105)
      && BigEndian(m[6..8]) == flags
  {
    hide Header, Payload, BigEndian;
    var m, h := Encode(id, flags, op), Header(id, Command(op), flags);
    HeaderLayout(id, Command(op), flags);
    assert m[..4] == h[..4] && m[4..6] == h[4..6] && m[6..8] == h[6..8];
  }

  // ---------- decoding ----------

  /** Decoding reads from mem, the memory from the start of the message on;
      Stray means that it would read past mem. Admin stands for the requests
      that are outside this model. */
  datatype Decoded = Ok(msg: Message) | Admin(cmd: nat) | Stray

  /** The length of the payload, in unsigned 64-bit arithmetic. */
  function PayloadLength(len: nat): nat {
    (len - HEADER) % TWO_64
  }

  function Decode(mem: bytes, len: nat): Decoded {
    if |mem| < HEADER then Stray
    else
      var hdr := Be32At(mem, 0);
      var ver, id := hdr / 0x1000_0000, hdr % 0x1000_0000;
      var cmd, flags := Be16At(mem, 4), Be16At(mem, 6);
      if ver != PROTO_VER then Ok(BadVersion(Le32(id)))
      else DecodeCommand(mem, PayloadLength(len), Be32(id), cmd, flags)
  }

  function DecodeCommand(mem: bytes, psize: nat, wireId: bytes, cmd: nat, flags: nat): Decoded {
    if cmd == REQ_GET then DecodeKey(mem, psize, wireId, flags, false)
    else if cmd == REQ_SET then DecodeSet(mem, psize, wireId, flags)
    else if cmd == REQ_DEL then DecodeKey(mem, psize, wireId, flags, true)
    else if cmd == REQ_CAS then DecodeCas(mem, psize, wireId, flags)
    else if cmd == REQ_INCR then DecodeIncr(mem, psize, wireId, flags)
    else if cmd == REQ_STATS || cmd == REQ_FIRSTKEY || cmd == REQ_NEXTKEY then Admin(cmd)
    else Ok(Unknown(wireId))
  }

  function DecodeKey(mem: bytes, psize: nat, wireId: bytes, flags: nat, del: bool): Decoded {
    if |mem| < 12 then Stray
    else
      var ksize := Be32At(mem, 8);
      if psize < ksize then Ok(Broken(wireId))
      else if |mem| < 12 + ksize then Stray
      else
        var key := mem[12..12 + ksize];
        Ok(Request(wireId, flags, if del then Del(key) else Get(key)))
  }

  function DecodeSet(mem: bytes, psize: nat, wireId: bytes, flags: nat): Decoded {
    if |mem| < 16 then Stray
    else
      var ksize, vsize := Be32At(mem, 8), Be32At(mem, 12);
      if psize < ksize || psize < vsize || ksize > MAX_SIZE || vsize > MAX_SIZE || ksize + vsize > MAX_SIZE then
        Ok(Broken(wireId))
      else if |mem| < 16 + ksize + vsize then Stray
      else Ok(Request(wireId, flags, Set(mem[16..16 + ksize], mem[16 + ksize..16 + ksize + vsize])))
  }

  function DecodeCas(mem: bytes, psize: nat, wireId: bytes, flags: nat): Decoded {
    if |mem| < 20 then Stray
    else
      var ksize, ovsize, nvsize := Be32At(mem, 8), Be32At(mem, 12), Be32At(mem, 16);
      if psize < ksize || psize < ovsize || psize < nvsize || ksize > MAX_SIZE || ovsize > MAX_SIZE
         || nvsize > MAX_SIZE || ksize + ovsize + nvsize > MAX_SIZE then
        Ok(Broken(wireId))
      else
        var oldAt, newAt := 20 + ksize, 20 + ksize + ovsize;
        if |mem| < newAt + nvsize then Stray
        else Ok(Request(wireId, flags, Cas(mem[20..oldAt], mem[oldAt..newAt], mem[newAt..newAt + nvsize])))
  }

  /** The sum ksize + 8 is taken in 32 bits. */
  function DecodeIncr(mem: bytes, psize: nat, wireId: bytes, flags: nat): Decoded {
    if |mem| < 12 then Stray
    else
      var ksize := Be32At(mem, 8);
      var need := (ksize + 8) % TWO_32;
      if psize < need || need > MAX_SIZE then Ok(Broken(wireId))
      else if |mem| < 12 + ksize + 8 then Stray
      else Ok(Request(wireId, flags, Incr(mem[12..12 + ksize], Be64At(mem, 12 + ksize))))
  }

  // ---------- properties ----------

  /** The sizes that the server takes. */
  predicate Fits(op: Op) {
    match op
    case Get(_) => true
    case Set(k, v) => |k| + |v| <= MAX_SIZE
    case Del(_) => true
    case Cas(k, o, n) => |k| + |o| + |n| <= MAX_SIZE
    case Incr(k, _) => |k| + 8 <= MAX_SIZE
  }

  lemma HeaderReads(mem: bytes, id: nat, cmd: nat, flags: nat)
    requires id < 0x1000_0000 && cmd < TWO_16 && flags < TWO_16
    requires |mem| >= HEADER && mem[..HEADER] == Header(id, cmd, flags)
    ensures Be32At(mem, 0) == PROTO_VER * 0x1000_0000 + id && Be16At(mem, 4) == cmd && Be16At(mem, 6) == flags
  {
    var h := Header(id, cmd, flags);
    assert forall i :: 0 <= i < HEADER ==> mem[i] == h[i];
    assert mem[0..4] == Be32(PROTO_VER * 0x1000_0000 + id);
    Be32Read(mem, 0, PROTO_VER * 0x1000_0000 + id);
    hide Be32At, Be32;
    assert mem[4] == Be16(cmd)[0] && mem[5] == Be16(cmd)[1];
    assert mem[6] == Be16(flags)[0] && mem[7] == Be16(flags)[1];
  }

  /** A field that was written at offset i is read back there. */
  lemma FieldReads(mem: bytes, pre: bytes, x: nat, rest: bytes)
    requires x < TWO_32 && mem == pre + Be32(x) + rest
    ensures Be32At(mem, |pre|) == x
  {
    assert mem[|pre|..|pre| + 4] == Be32(x);
    Be32Read(mem, |pre|, x);
  }

  lemma KeyRoundTrip(h: bytes, key: bytes, tail: bytes, wireId: bytes, flags: nat, del: bool)
    requires |h| == HEADER && |key| + 16 < TWO_32
    ensures DecodeKey(h + (Be32(|key|) + key) + tail, 4 + |key|, wireId, flags, del)
         == Ok(Request(wireId, flags, if del then Del(key) else Get(key)))
  {
    var mem := h + (Be32(|key|) + key) + tail;
    assert mem == h + Be32(|key|) + (key + tail);
    FieldReads(mem, h, |key|, key + tail);
    hide Be32At, Be32;
    assert mem[12..12 + |key|] == key;
  }

  lemma SetRoundTrip(h: bytes, k: bytes, v: bytes, tail: bytes, wireId: bytes, flags: nat)
    requires |h| == HEADER && Encodable(Set(k, v))
    ensures DecodeSet(h + Payload(Set(k, v)) + tail, 8 + |k| + |v|, wireId, flags)
         == Ok(if Fits(Set(k, v)) then Request(wireId, flags, Set(k, v)) else Broken(wireId))
  {
    hide Be32At, Be32;
    var mem := h + Payload(Set(k, v)) + tail;
    assert mem == h + Be32(|k|) + (Be32(|v|) + k + v + tail);
    FieldReads(mem, h, |k|, Be32(|v|) + k + v + tail);
    assert mem == (h + Be32(|k|)) + Be32(|v|) + (k + v + tail);
    FieldReads(mem, h + Be32(|k|), |v|, k + v + tail);
    assert mem[16..16 + |k|] == k;
    assert mem[16 + |k|..16 + |k| + |v|] == v;
  }

  lemma CasFields(h: bytes, k: bytes, o: bytes, n: bytes, tail: bytes)
    requires |h| == HEADER && Encodable(Cas(k, o, n))
    ensures var mem := h + Payload(Cas(k, o, n)) + tail;
      Be32At(mem, 8) == |k| && Be32At(mem, 12) == |o| && Be32At(mem, 16) == |n| && mem[20..] == k + o + n + tail
  {
    hide Be32At, Be32;
    var data := k + o + n + tail;
    var mem := h + Payload(Cas(k, o, n)) + tail;
    assert mem == h + Be32(|k|) + (Be32(|o|) + Be32(|n|) + data);
    FieldReads(mem, h, |k|, Be32(|o|) + Be32(|n|) + data);
    assert mem == (h + Be32(|k|)) + Be32(|o|) + (Be32(|n|) + data);
    FieldReads(mem, h + Be32(|k|), |o|, Be32(|n|) + data);
    assert mem == (h + Be32(|k|) + Be32(|o|)) + Be32(|n|) + data;
    FieldReads(mem, h + Be32(|k|) + Be32(|o|), |n|, data);
  }

  lemma ThreeSlices(mem: bytes, k: bytes, o: bytes, n: bytes, tail: bytes)
    requires |mem| >= 20 && mem[20..] == k + o + n + tail
    ensures var oldAt, newAt := 20 + |k|, 20 + |k| + |o|;
      && newAt + |n| <= |mem|
      && mem[20..oldAt] == k && mem[oldAt..newAt] == o && mem[newAt..newAt + |n|] == n
  {
    var data := mem[20..];
    var oldAt, newAt := |k|, |k| + |o|;
    assert data[..oldAt] == k && data[oldAt..newAt] == o && data[newAt..newAt + |n|] == n;
  }

  lemma CasRoundTrip(h: bytes, k: bytes, o: bytes, n: bytes, tail: bytes, wireId: bytes, flags: nat)
    requires |h| == HEADER && Encodable(Cas(k, o, n))
    ensures DecodeCas(h + Payload(Cas(k, o, n)) + tail, 12 + |k| + |o| + |n|, wireId, flags)
         == Ok(if Fits(Cas(k, o, n)) then Request(wireId, flags, Cas(k, o, n)) else Broken(wireId))
  {
    hide Be32At, Be32, Payload;
    CasFields(h, k, o, n, tail);
    ThreeSlices(h + Payload(Cas(k, o, n)) + tail, k, o, n, tail);
  }

  lemma IncrRoundTrip(h: bytes, k: bytes, i: int64, tail: bytes, wireId: bytes, flags: nat)
    requires |h| == HEADER && Encodable(Incr(k, i))
    ensures DecodeIncr(h + Payload(Incr(k, i)) + tail, 12 + |k|, wireId, flags)
         == Ok(if Fits(Incr(k, i)) then Request(wireId, flags, Incr(k, i)) else Broken(wireId))
  {
    hide Be32At, Be32, Be64At, Be64;
    var mem := h + Payload(Incr(k, i)) + tail;
    assert mem == h + Be32(|k|) + (k + Be64(i) + tail);
    FieldReads(mem, h, |k|, k + Be64(i) + tail);
    assert mem[12..12 + |k|] == k;
    assert mem[12 + |k|..12 + |k| + 8] == Be64(i);
    Be64Read(mem, 12 + |k|, i);
  }

  /** Every request the client can encode, whatever follows it in the server's
      buffer, decodes to itself when its sizes fit and is called broken when
      they do not. */
  lemma RequestRoundTrip(id: nat, flags: nat, op: Op, tail: bytes)
    requires id < 0x1000_0000 && flags < TWO_16 && Encodable(op)
    ensures var m := Encode(id, flags, op);
      Decode(m + tail, |m|) == Ok(if Fits(op) then Request(Be32(id), flags, op) else Broken(Be32(id)))
  {
    hide Be32At, Be32, Be64At, Be64, Be16At, DecodeSet, DecodeCas, DecodeIncr, DecodeKey;
    var h := Header(id, Command(op), flags);
    var m := Encode(id, flags, op);
    var mem := m + tail;
    assert mem == h + Payload(op) + tail;
    HeaderReads(mem, id, Command(op), flags);
    assert PayloadLength(|m|) == PayloadSize(op);
    match op {
      case Get(k) => KeyRoundTrip(h, k, tail, Be32(id), flags, false);
      case Set(k, v) => SetRoundTrip(h, k, v, tail, Be32(id), flags);
      case Del(k) => KeyRoundTrip(h, k, tail, Be32(id), flags, true);
      case Cas(k, o, n) => CasRoundTrip(h, k, o, n, tail, Be32(id), flags);
      case Incr(k, i) => IncrRoundTrip(h, k, i, tail, Be32(id), flags);
    }
  }

  /** Decoded values never exceed the size limit, so the protocol's traffic is
      sized. */
  lemma DecodedIsSized(mem: bytes, len: nat)
    requires Decode(mem, len).Ok? && Decode(mem, len).msg.Request?
    ensures var op := Decode(mem, len).msg.op;
      && (op.Set? ==> |op.val| <= MAX_VALUE) && (op.Cas? ==> |op.newval| <= MAX_VALUE)
  {
  }

  // ---------- any bytes at all ----------

  /** The sizes in the payload do not fit the payload, or not the limit. */
  predicate SizesWrong(mem: bytes, psize: nat, cmd: nat) {
    if cmd == REQ_GET || cmd == REQ_DEL then
      |mem| >= 12 && psize < Be32At(mem, 8)
    else if cmd == REQ_SET then
      |mem| >= 16 &&
      var k, v := Be32At(mem, 8), Be32At(mem, 12);
      psize < k || psize < v || k + v > 65536
    else if cmd == REQ_CAS then
      |mem| >= 20 &&
      var k, o, n := Be32At(mem, 8), Be32At(mem, 12), Be32At(mem, 16);
      psize < k || psize < o || psize < n || k + o + n > 65536
    else if cmd == REQ_INCR then
      |mem| >= 12 &&
      var k := Be32At(mem, 8);
      // a key size within 8 of 2^32 passes for a small one
      if k < TWO_32 - 8 then psize < k + 8 || k + 8 > 65536 else psize < k + 8 - TWO_32
    else false
  }

  lemma CommandRefusedJustWhen(mem: bytes, psize: nat, wireId: bytes, cmd: nat, flags: nat)
    requires DecodeCommand(mem, psize, wireId, cmd, flags).Ok?
    ensures var m := DecodeCommand(mem, psize, wireId, cmd, flags).msg;
      && !m.BadVersion?
      && (m.Unknown? <==> !(0x101 <= cmd <= 0x108))
      && (m.Broken? <==> SizesWrong(mem, psize, cmd))
  {
    hide Be32At, Be16At, Be64At;
  }

  /** Exactly when a message is refused, and as what: another version, a command
      that does not exist, or sizes that are wrong. */
  lemma RefusedJustWhen(mem: bytes, len: nat)
    requires Decode(mem, len).Ok?
    ensures var m, right, cmd := Decode(mem, len).msg, mem[0] / 16 == 1, Be16At(mem, 4);
      && (m.BadVersion? <==> !right)
      && (m.Unknown? <==> right && !(0x101 <= cmd <= 0x108))
      && (m.Broken? <==> right && SizesWrong(mem, (len - 8) % TWO_64, cmd))
  {
    assert Be32At(mem, 0) / 0x1000_0000 == mem[0] / 16;
    hide Be32At, Be16At, Be32, DecodeCommand, SizesWrong;
    if mem[0] / 16 == 1 {
      var hdr := Be32At(mem, 0);
      CommandRefusedJustWhen(mem, (len - 8) % TWO_64, Be32(hdr % 0x1000_0000), Be16At(mem, 4), Be16At(mem, 6));
    }
  }

  lemma Be32Writes(b: bytes, i: nat)
    requires i + 4 <= |b|
    ensures Be32(Be32At(b, i)) == b[i..i + 4]
  {
    DigitsOfSum(b[i], b[i + 1], b[i + 2], b[i + 3]);
  }

  lemma Be16Writes(b: bytes, i: nat)
    requires i + 2 <= |b|
    ensures Be16(Be16At(b, i)) == b[i..i + 2]
  {
  }

  lemma Be64Writes(b: bytes, i: nat)
    requires i + 8 <= |b|
    ensures Be64(Be64At(b, i)) == b[i..i + 8]
  {
    hide Be32, Be32At;
    Be32Writes(b, i);
    Be32Writes(b, i + 4);
    var hi, lo := Be32At(b, i), Be32At(b, i + 4);
    Halves(lo, hi);
    assert Unsigned64(Be64At(b, i)) == lo + hi * TWO_32;
    assert b[i..i + 8] == b[i..i + 4] + b[i + 4..i + 8];
  }

  lemma HeaderWrites(mem: bytes)
    requires |mem| >= HEADER && Be32At(mem, 0) / 0x1000_0000 == PROTO_VER
    ensures Header(Be32At(mem, 0) % 0x1000_0000, Be16At(mem, 4), Be16At(mem, 6)) == mem[..HEADER]
  {
    hide Be32, Be32At, Be16, Be16At;
    Be32Writes(mem, 0);
    Be16Writes(mem, 4);
    Be16Writes(mem, 6);
  }

  /** mem holds, behind the header, the payload of op. */
  predicate HasPayload(mem: bytes, op: Op) {
    Encodable(op) ==>
      && HEADER + PayloadSize(op) <= |mem|
      && mem[HEADER..HEADER + PayloadSize(op)] == Payload(op)
  }

  lemma Joined(b: bytes, from: nat, mid: nat, to: nat)
    requires from <= mid <= to <= |b|
    ensures b[from..to] == b[from..mid] + b[mid..to]
  {
  }

  lemma KeyWrites(mem: bytes, k: bytes, op: Op)
    requires op == Get(k) || op == Del(k)
    requires 12 + |k| <= |mem| && Be32At(mem, 8) == |k| && mem[12..12 + |k|] == k
    ensures HasPayload(mem, op)
  {
    hide Be32, Be32At;
    Be32Writes(mem, 8);
    Joined(mem, 8, 12, 12 + |k|);
  }

  lemma SetWrites(mem: bytes, k: bytes, v: bytes)
    requires 16 + |k| + |v| <= |mem| && Be32At(mem, 8) == |k| && Be32At(mem, 12) == |v|
    requires mem[16..16 + |k|] == k && mem[16 + |k|..16 + |k| + |v|] == v
    ensures HasPayload(mem, Set(k, v))
  {
    hide Be32, Be32At;
    Be32Writes(mem, 8);
    Be32Writes(mem, 12);
    Joined(mem, 8, 12, 16);
    Joined(mem, 8, 16, 16 + |k|);
    Joined(mem, 8, 16 + |k|, 16 + |k| + |v|);
  }

  lemma CasWrites(mem: bytes, k: bytes, o: bytes, n: bytes)
    requires 20 + |k| + |o| + |n| <= |mem|
    requires Be32At(mem, 8) == |k| && Be32At(mem, 12) == |o| && Be32At(mem, 16) == |n|
    requires mem[20..20 + |k|] == k && mem[20 + |k|..20 + |k| + |o|] == o
    requires mem[20 + |k| + |o|..20 + |k| + |o| + |n|] == n
    ensures HasPayload(mem, Cas(k, o, n))
  {
    hide Be32, Be32At;
    Be32Writes(mem, 8);
    Be32Writes(mem, 12);
    Be32Writes(mem, 16);
    var oldAt, newAt := 20 + |k|, 20 + |k| + |o|;
    Joined(mem, 8, 12, 16);
    Joined(mem, 8, 16, 20);
    Joined(mem, 8, 20, oldAt);
    Joined(mem, 8, oldAt, newAt);
    Joined(mem, 8, newAt, newAt + |n|);
  }

  lemma IncrWrites(mem: bytes, k: bytes)
    requires 20 + |k| <= |mem| && Be32At(mem, 8) == |k| && mem[12..12 + |k|] == k
    ensures HasPayload(mem, Incr(k, Be64At(mem, 12 + |k|)))
  {
    hide Be32, Be32At, Be64, Be64At;
    Be32Writes(mem, 8);
    Be64Writes(mem, 12 + |k|);
    Joined(mem, 8, 12, 12 + |k|);
    Joined(mem, 8, 12 + |k|, 20 + |k|);
  }

  lemma PayloadWrites(mem: bytes, psize: nat, wireId: bytes, cmd: nat, flags: nat)
    requires |mem| >= HEADER
    requires var d := DecodeCommand(mem, psize, wireId, cmd, flags); d.Ok? && d.msg.Request?
    ensures var m := DecodeCommand(mem, psize, wireId, cmd, flags).msg;
      m.wireId == wireId && m.flags == flags && Command(m.op) == cmd && HasPayload(mem, m.op)
  {
    hide Be32, Be32At, Be64, Be64At, HasPayload;
    var op := DecodeCommand(mem, psize, wireId, cmd, flags).msg.op;
    match op {
      case Get(k) => KeyWrites(mem, k, op);
      case Set(k, v) => SetWrites(mem, k, v);
      case Del(k) => KeyWrites(mem, k, op);
      case Cas(k, o, n) => CasWrites(mem, k, o, n);
      case Incr(k, _) => IncrWrites(mem, k);
    }
  }

  /** The other way round: bytes that decode to a request begin with just what a
      client writes for it. Nothing else is taken for that request. */
  lemma DecodedIsEncoded(mem: bytes, len: nat)
    requires Decode(mem, len).Ok? && Decode(mem, len).msg.Request? && Encodable(Decode(mem, len).msg.op)
    ensures var m := Decode(mem, len).msg;
      && m.flags < TWO_16 && m.wireId == SentId(mem)
      && Encode(Be32At(mem, 0) % 0x1000_0000, m.flags, m.op) <= mem
  {
    hide Payload, Header, DecodeCommand, Be32At, Be16At, Be32;
    var id := Be32At(mem, 0) % 0x1000_0000;
    HeaderWrites(mem);
    PayloadWrites(mem, PayloadLength(len), Be32(id), Be16At(mem, 4), Be16At(mem, 6));
    var m := Decode(mem, len).msg;
    var e := Encode(id, m.flags, m.op);
    assert e == mem[..HEADER] + mem[HEADER..|e|];
  }

  // ---------- identifiers ----------

  /** The identifier that a client put into the message, as its four bytes. */
  function SentId(mem: bytes): bytes
    requires |mem| >= 4
  {
    Be32(Be32At(mem, 0) % 0x1000_0000)
  }

  /** A reply carries the identifier sent, except that to a message of another
      version it carries the four bytes in reverse: the same only when they
      read the same from both ends. */
  lemma ReplyIdIsTheOneSent(mem: bytes, len: nat)
    requires Decode(mem, len).Ok?
    ensures var id := SentId(mem);
      Decode(mem, len).msg.wireId == id <==>
        (mem[0] / 16 == PROTO_VER || (id[0] == id[3] && id[1] == id[2]))
  {
    assert Be32At(mem, 0) / 0x1000_0000 == mem[0] / 16;
    var id := Be32At(mem, 0) % 0x1000_0000;
    assert Decode(mem, len).msg.wireId == if mem[0] / 16 == PROTO_VER then Be32(id) else Le32(id);
    assert Be32(id)[0] == Le32(id)[3] && Be32(id)[1] == Le32(id)[2];
    assert Be32(id)[2] == Le32(id)[1] && Be32(id)[3] == Le32(id)[0];
  }

  /** For instance, a get with identifier 1 from a client of version 2. */
  lemma VersionReplyLosesTheId()
    ensures var mem: bytes := [0x20, 0, 0, 1, 0x01, 0x01, 0, 0, 0, 0, 0, 1, 97];
      && Decode(mem, |mem|) == Ok(BadVersion([1, 0, 0, 0]))
      && SentId(mem) == [0, 0, 0, 1]
  {
    var mem: bytes := [0x20, 0, 0, 1, 0x01, 0x01, 0, 0, 0, 0, 0, 1, 97];
    assert Be32At(mem, 0) == 0x2000_0001;
  }

  // ---------- 64-bit order ----------

  /** htonl() on a little-endian host: the four bytes in memory, read from the
      other end. */
  function Htonl(x: nat): (r: nat)
    requires x < TWO_32
    ensures r < TWO_32
  {
    Be32At(Le32(x), 0)
  }

  lemma DigitsOfSum(a: byte, b: byte, c: byte, d: byte)
    ensures var x := (a as int) * 0x100_0000 + (b as int) * 0x1_0000 + (c as int) * 0x100 + d;
      x % 0x100 == d && x / 0x100 % 0x100 == c && x / 0x1_0000 % 0x100 == b && x / 0x100_0000 == a
  {
    var ab: int := (a as int) * 0x100 + b;
    var abc: int := ab * 0x100 + c;
    var x: int := abc * 0x100 + d;
    assert x / 0x100 == abc && abc / 0x100 == ab && ab / 0x100 == a;
    assert x / 0x1_0000 == ab;
    assert x / 0x100_0000 == a;
  }

  /** htonl() leaves the big-endian bytes in memory, and undoes itself. */
  lemma HtonlIsNetworkOrder(x: nat)
    requires x < TWO_32
    ensures Le32(Htonl(x)) == Be32(x) && Htonl(Htonl(x)) == x
  {
    var m := Le32(x);
    DigitsOfSum(m[0], m[1], m[2], m[3]);
    assert Le32(Htonl(x)) == [m[3], m[2], m[1], m[0]] == Be32(x);
    Be32Read(Be32(x), 0, x);
  }

  /** The two halves swapped and each put in network order. */
  function Htonll(x: nat): (r: nat)
    requires x < TWO_64
    ensures r < TWO_64
  {
    Htonl(x / TWO_32) + Htonl(x % TWO_32) * TWO_32
  }

  function Le64(x: nat): bytes
    requires x < TWO_64
  {
    Le32(x % TWO_32) + Le32(x / TWO_32)
  }

  /** What htonll() leaves in memory is the big-endian number, and ntohll(), the
      same computation, takes it back. */
  lemma HtonllIsNetworkOrder(n: int64)
    ensures var u := Unsigned64(n);
      Le64(Htonll(u)) == Be64(n) && Htonll(Htonll(u)) == u
  {
    hide Le32, Be32, Htonl;
    var u := Unsigned64(n);
    var hi, lo := u / TWO_32, u % TWO_32;
    HtonlIsNetworkOrder(hi);
    HtonlIsNetworkOrder(lo);
    Halves(Htonl(hi), Htonl(lo));
    Halves(lo, hi);
  }

  lemma Halves(low: nat, high: nat)
    requires low < TWO_32 && high < TWO_32
    ensures (low + high * TWO_32) % TWO_32 == low && (low + high * TWO_32) / TWO_32 == high
  {
  }
}
