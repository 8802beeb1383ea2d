/** Bytes, and the big-endian integers the protocol is made of. */
module Bytes {

  type byte = x: int | 0 <= x < 256
  type bytes = seq<byte>

  const TWO_16: int := 0x1_0000
  const TWO_32: int := 0x1_0000_0000
  const TWO_63: int := 0x8000_0000_0000_0000
  const TWO_64: int := 0x1_0000_0000_0000_0000

  type int64 = x: int | -0x8000_0000_0000_0000 <= x < 0x8000_0000_0000_0000

  datatype Option<+T> = None | Some(value: T)

  // ---------- 64-bit arithmetic ----------

  /** The two's complement value that a 64-bit signed register holds for x. */
  function WrapI64(x: int): int64 {
    var m := x % TWO_64;
    if m < TWO_63 then m else m - TWO_64
  }

  /** Adding in two wrapped steps is adding in one. */
  lemma WrapAdds(x: int, y: int)
    ensures WrapI64(WrapI64(x) + y) == WrapI64(x + y)
  {
  }

  /** A 64-bit register is exact just when the mathematical value fits it. */
  lemma WrapIsExactWhenItFits(x: int)
    ensures WrapI64(x) == x <==> -TWO_63 <= x < TWO_63
  {
  }

  // ---------- Network byte order ----------

  function Be16(x: nat): (r: bytes)
    requires x < TWO_16
    ensures |r| == 2
  {
    [x / 0x100, x % 0x100]
  }

  function Be32(x: nat): (r: bytes)
    requires x < TWO_32
    ensures |r| == 4
  {
    [x / 0x100_0000, x / 0x1_0000 % 0x100, x / 0x100 % 0x100, x % 0x100]
  }

  /** The bytes of x as a little-endian host keeps them in memory. */
  function Le32(x: nat): (r: bytes)
    requires x < TWO_32
    ensures |r| == 4
  {
    [x % 0x100, x / 0x100 % 0x100, x / 0x1_0000 % 0x100, x / 0x100_0000]
  }

  function Be16At(b: bytes, i: nat): (x: nat)
    requires i + 2 <= |b|
    ensures x < TWO_16
  {
    (b[i] as int) * 0x100 + b[i + 1]
  }

  function Be32At(b: bytes, i: nat): (x: nat)
    requires i + 4 <= |b|
    ensures x < TWO_32
  {
    (b[i] as int) * 0x100_0000 + (b[i + 1] as int) * 0x1_0000 + (b[i + 2] as int) * 0x100 + b[i + 3]
  }

  function Unsigned64(n: int64): (u: nat)
    ensures u < TWO_64
  {
    if n < 0 then n + TWO_64 else n
  }

  function Be64(n: int64): (r: bytes)
    ensures |r| == 8
  {
    var u := Unsigned64(n);
    Be32(u / TWO_32) + Be32(u % TWO_32)
  }

  function Be64At(b: bytes, i: nat): int64
    requires i + 8 <= |b|
  {
    WrapI64(Be32At(b, i) * TWO_32 + Be32At(b, i + 4))
  }

  /** A number is the sum of its four digits in base 256. */
  lemma FourDigits(x: nat)
    requires x < TWO_32
    ensures x == x / 0x100_0000 * 0x100_0000 + x / 0x1_0000 % 0x100 * 0x1_0000 + x / 0x100 % 0x100 * 0x100 + x % 0x100
  {
    var q := x / 0x100;
    var r := q / 0x100;
    assert r == x / 0x1_0000 && r / 0x100 == x / 0x100_0000;
  }

  lemma Be32Read(b: bytes, i: nat, x: nat)
    requires x < TWO_32 && i + 4 <= |b| && b[i..i + 4] == Be32(x)
    ensures Be32At(b, i) == x
  {
    var d := b[i..i + 4];
    assert b[i] == d[0] && b[i + 1] == d[1] && b[i + 2] == d[2] && b[i + 3] == d[3];
    FourDigits(x);
  }

  lemma Be64Read(b: bytes, i: nat, n: int64)
    requires i + 8 <= |b| && b[i..i + 8] == Be64(n)
    ensures Be64At(b, i) == n
  {
    hide Be32, Be32At;
    var u := Unsigned64(n);
    assert b[i..i + 4] == b[i..i + 8][..4];
    assert b[i + 4..i + 8] == b[i..i + 8][4..];
    Be32Read(b, i, u / TWO_32);
    Be32Read(b, i + 4, u % TWO_32);
  }

  // ---------- what the bytes denote ----------

  /** The number that bytes denote, the most significant first. */
  function BigEndian(b: bytes): nat {
    if b == [] then 0 else BigEndian(b[..|b| - 1]) * 0x100 + b[|b| - 1]
  }

  lemma TwoDenote(b: bytes)
    requires |b| == 2
    ensures BigEndian(b) == Be16At(b, 0)
  {
    assert b[..1][..0] == [];
    assert BigEndian(b[..1]) == b[0] as int;
  }

  lemma FourDenote(b: bytes)
    requires |b| == 4
    ensures BigEndian(b) == Be32At(b, 0)
  {
    assert b[..3][..2] == b[..2] && b[..2][..1] == b[..1] && b[..1][..0] == [];
    assert BigEndian(b[..1]) == b[0] as int;
    assert BigEndian(b[..2]) == BigEndian(b[..1]) * 0x100 + b[1];
    assert BigEndian(b[..3]) == BigEndian(b[..2]) * 0x100 + b[2];
  }

  lemma {:induction false} HighAndLow(high: bytes, low: bytes)
    requires |low| == 4
    ensures BigEndian(high + low) == BigEndian(high) * TWO_32 + BigEndian(low)
  {
    var b := high + low;
    FourDenote(low);
    assert b[..|b| - 1][..|b| - 2] == b[..|b| - 2] && b[..|b| - 2][..|b| - 3] == b[..|b| - 3];
    assert b[..|b| - 3][..|b| - 4] == b[..|b| - 4] == high;
    assert BigEndian(b[..|b| - 3]) == BigEndian(high) * 0x100 + low[0];
    assert BigEndian(b[..|b| - 2]) == BigEndian(b[..|b| - 3]) * 0x100 + low[1];
    assert BigEndian(b[..|b| - 1]) == BigEndian(b[..|b| - 2]) * 0x100 + low[2];
  }

  /** Fields of 2, 4 and 8 bytes are written with the most significant byte
      first ... */
  lemma WrittenInNetworkOrder(x: nat, n: int64)
    ensures x < TWO_16 ==> BigEndian(Be16(x)) == x
    ensures x < TWO_32 ==> BigEndian(Be32(x)) == x
    ensures BigEndian(Be64(n)) == if n < 0 then n + TWO_64 else n
  {
    if x < TWO_16 {
      TwoDenote(Be16(x));
    }
    if x < TWO_32 {
      FourDenote(Be32(x));
      Be32Read(Be32(x), 0, x);
    }
    var u := Unsigned64(n);
    WrittenAsHalves(u / TWO_32, u % TWO_32);
  }

  lemma WrittenAsHalves(hi: nat, lo: nat)
    requires hi < TWO_32 && lo < TWO_32
    ensures BigEndian(Be32(hi) + Be32(lo)) == hi * TWO_32 + lo
  {
    hide Be32, Be32At, BigEndian;
    var h, l := Be32(hi), Be32(lo);
    FourDenote(h);
    FourDenote(l);
    assert h[0..4] == h && l[0..4] == l;
    Be32Read(h, 0, hi);
    Be32Read(l, 0, lo);
    HighAndLow(h, l);
  }

  /** ... and read so, wherever they stand. */
  lemma ReadInNetworkOrder(b: bytes, i: nat)
    ensures i + 2 <= |b| ==> Be16At(b, i) == BigEndian(b[i..i + 2])
    ensures i + 4 <= |b| ==> Be32At(b, i) == BigEndian(b[i..i + 4])
    ensures i + 8 <= |b| ==>
      Be64At(b, i) as int == var u := BigEndian(b[i..i + 8]); if u < TWO_63 then u else u - TWO_64
  {
    if i + 2 <= |b| {
      TwoDenote(b[i..i + 2]);
    }
    if i + 4 <= |b| {
      FourRead(b, i);
    }
    if i + 8 <= |b| {
      EightRead(b, i);
    }
  }

  lemma FourRead(b: bytes, i: nat)
    requires i + 4 <= |b|
    ensures Be32At(b, i) == BigEndian(b[i..i + 4])
  {
    FourDenote(b[i..i + 4]);
  }

  lemma EightRead(b: bytes, i: nat)
    requires i + 8 <= |b|
    ensures Be64At(b, i) as int == var u := BigEndian(b[i..i + 8]); if u < TWO_63 then u else u - TWO_64
  {
    hide BigEndian, Be32At;
    FourRead(b, i);
    FourRead(b, i + 4);
    assert b[i..i + 8] == b[i..i + 4] + b[i + 4..i + 8];
    HighAndLow(b[i..i + 4], b[i + 4..i + 8]);
  }
}
