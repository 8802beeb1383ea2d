/** The text form of numbers: strtoll(), the "%23lld" conversion, and the
    increment of a stored value built from the two. */
module Decimal {
  import opened Bytes

  const NUL: byte := 0
  const PLUS: byte := 43
  const MINUS: byte := 45
  const ZERO: byte := 48

  predicate IsSpace(c: byte) {
    c == 32 || 9 <= c <= 13
  }

  predicate IsDigit(c: byte) {
    ZERO <= c <= ZERO + 9
  }

  // ---------- strtoll (section 7.20.1.4 of C99), base 10 ----------

  function SkipSpaces(s: bytes): bytes {
    if s != [] && IsSpace(s[0]) then SkipSpaces(s[1..]) else s
  }

  /** The number read from the leading digits of s, after acc was read. */
  function Digits(s: bytes, acc: nat): nat {
    if s == [] || !IsDigit(s[0]) then acc else Digits(s[1..], acc * 10 + (s[0] - ZERO))
  }

  /** Out-of-range numbers are reported as the nearest limit. */
  function Clamp(n: int): int64 {
    if n < -TWO_63 then -TWO_63 else if n >= TWO_63 then TWO_63 - 1 else n
  }

  function Signed(t: bytes): int {
    if t == [] then 0
    else if t[0] == MINUS then 0 - Digits(t[1..], 0)
    else if t[0] == PLUS then Digits(t[1..], 0)
    else Digits(t, 0)
  }

  function Strtoll(s: bytes): int64 {
    Clamp(Signed(SkipSpaces(s)))
  }

  // ---------- "%23lld" (section 7.19.6.1 of C99) ----------

  function Dec(n: nat): bytes {
    if n < 10 then [ZERO + n] else Dec(n / 10) + [ZERO + n % 10]
  }

  function Magnitude(n: int): nat {
    if n < 0 then -n else n
  }

  function Text(n: int64): bytes {
    if n < 0 then [MINUS] + Dec(Magnitude(n)) else Dec(n)
  }

  function Spaces(n: nat): (r: bytes)
    ensures |r| == n && forall i :: 0 <= i < n ==> r[i] == ' ' as int
  {
    if n == 0 then [] else [32] + Spaces(n - 1)
  }

  /** The 23 characters printed for n, right-justified. */
  function Field23(n: int64): (r: bytes)
    ensures |r| == 23
  {
    TextFits(n);
    Spaces(23 - |Text(n)|) + Text(n)
  }

  function Pow10(k: nat): (r: nat)
    ensures r > 0
  {
    if k == 0 then 1 else 10 * Pow10(k - 1)
  }

  lemma {:induction false} DecLength(n: nat, k: nat)
    requires k > 0 && n < Pow10(k)
    ensures |Dec(n)| <= k
  {
    if n >= 10 {
      DecLength(n / 10, k - 1);
    }
  }

  /** Every 64-bit number takes at most 20 of the 23 columns, so the padding
      never goes negative and the text is never cut. */
  lemma TextFits(n: int64)
    ensures |Text(n)| <= 20
  {
    assert Pow10(5) == 100_000;
    assert Pow10(10) == 10_000_000_000;
    assert Pow10(15) == 1_000_000_000_000_000;
    assert Pow10(19) == 10_000_000_000_000_000_000;
    DecLength(Magnitude(n), 19);
  }

  // ---------- printing, then reading ----------

  lemma {:induction false} DigitsOfDec(n: nat, t: bytes)
    ensures Digits(Dec(n) + t, 0) == Digits(t, n)
  {
    if n >= 10 {
      var d: byte := ZERO + n % 10;
      assert Dec(n) + t == Dec(n / 10) + ([d] + t);
      DigitsOfDec(n / 10, [d] + t);
      assert ([d] + t)[1..] == t;
    } else {
      assert (Dec(n) + t)[1..] == t;
    }
  }

  lemma {:induction false} DecStartsWithDigit(n: nat)
    ensures Dec(n) != [] && IsDigit(Dec(n)[0])
  {
    if n >= 10 {
      DecStartsWithDigit(n / 10);
    }
  }

  lemma {:induction false} SkipsPadding(n: nat, t: bytes)
    requires t != [] && !IsSpace(t[0])
    ensures SkipSpaces(Spaces(n) + t) == t
  {
    if n > 0 {
      assert (Spaces(n) + t)[1..] == Spaces(n - 1) + t;
      SkipsPadding(n - 1, t);
    } else {
      assert Spaces(n) + t == t;
    }
  }

  lemma TextReadsBack(n: int64, rest: bytes)
    ensures var t := Text(n) + ([NUL] + rest);
      !IsSpace(t[0]) && Signed(t) == n
  {
    var m := Magnitude(n);
    var tail: bytes := [NUL] + rest;
    DecStartsWithDigit(m);
    DigitsOfDec(m, tail);
    assert Digits(tail, m) == m;
    if n < 0 {
      assert (Text(n) + tail)[1..] == Dec(m) + tail;
    }
  }

  /** The text of a number reads back as it, with any number of blanks before
      it, or none, and whatever follows its NUL. */
  lemma CounterReadsBack(blanks: nat, n: int64, rest: bytes)
    ensures Strtoll(Spaces(blanks) + Text(n) + [NUL] + rest) == n
  {
    var text := Text(n) + ([NUL] + rest);
    TextReadsBack(n, rest);
    SkipsPadding(blanks, text);
    assert Spaces(blanks) + Text(n) + [NUL] + rest == Spaces(blanks) + text;
  }

  /** What "%23lld" prints, strtoll() reads back, whatever follows the NUL. */
  lemma PrintedNumberReadsBack(n: int64, rest: bytes)
    ensures Strtoll(Field23(n) + [NUL] + rest) == n
  {
    TextFits(n);
    CounterReadsBack(23 - |Text(n)|, n, rest);
  }

  // ---------- what strtoll reads from any text ----------

  predicate AllDigits(d: bytes) {
    forall i :: 0 <= i < |d| ==> '0' as int <= d[i] <= '9' as int
  }

  /** Blank, or one of tab, newline, vertical tab, form feed and return. */
  predicate AllBlank(w: bytes) {
    forall i :: 0 <= i < |w| ==> w[i] == ' ' as int || 9 <= w[i] <= 13
  }

  /** The number that digits denote: each times the power of ten of its place. */
  function Positional(d: bytes): nat
    requires AllDigits(d)
  {
    if d == [] then 0 else (d[0] - '0' as int) * Pow10(|d| - 1) + Positional(d[1..])
  }

  lemma PlaceValue(acc: nat, digit: nat, pow: nat)
    ensures (acc * 10 + digit) * pow == acc * (10 * pow) + digit * pow
  {
  }

  lemma {:induction false} DigitsArePositional(d: bytes, rest: bytes, acc: nat)
    requires AllDigits(d) && (rest == [] || !AllDigits(rest[..1]))
    ensures Digits(d + rest, acc) == acc * Pow10(|d|) + Positional(d)
  {
    if d == [] {
      assert d + rest == rest;
      assert rest != [] ==> !IsDigit(rest[..1][0]);
    } else {
      assert (d + rest)[1..] == d[1..] + rest;
      DigitsArePositional(d[1..], rest, acc * 10 + (d[0] - ZERO));
      PlaceValue(acc, d[0] - ZERO, Pow10(|d| - 1));
    }
  }

  lemma {:induction false} SkipsBlanks(w: bytes, t: bytes)
    requires AllBlank(w) && (t == [] || !AllBlank(t[..1]))
    ensures SkipSpaces(w + t) == t
  {
    if w == [] {
      assert w + t == t;
      assert t != [] ==> !IsSpace(t[..1][0]);
    } else {
      assert (w + t)[1..] == w[1..] + t;
      SkipsBlanks(w[1..], t);
    }
  }

  predicate SignOrNone(sign: bytes) {
    sign == [] || sign == ['+' as int] || sign == ['-' as int]
  }

  /** A text in its four parts. Where there is no sign and no digit, what is
      left starts with neither. */
  predicate Parts(s: bytes, white: bytes, sign: bytes, digits: bytes, rest: bytes) {
    && s == white + sign + digits + rest
    && AllBlank(white) && SignOrNone(sign) && AllDigits(digits)
    && (rest == [] || !AllDigits(rest[..1]))
    && (sign == [] && digits == [] && rest != [] ==> !AllBlank(rest[..1]) && !SignOrNone(rest[..1]))
  }

  /** Every text has such parts ... */
  lemma {:induction false} EveryTextHasParts(s: bytes)
    ensures exists white, sign, digits, rest :: Parts(s, white, sign, digits, rest)
  {
    if s != [] && IsSpace(s[0]) {
      EveryTextHasParts(s[1..]);
      var white, sign, digits, rest :| Parts(s[1..], white, sign, digits, rest);
      assert s == ([s[0]] + white) + sign + digits + rest;
      assert Parts(s, [s[0]] + white, sign, digits, rest);
    } else {
      var sign := if s != [] && SignOrNone(s[..1]) then s[..1] else [];
      var digits, rest := LeadingDigits(s[|sign|..]);
      assert s == [] + sign + digits + rest;
      assert Parts(s, [], sign, digits, rest);
    }
  }

  lemma {:induction false} LeadingDigits(s: bytes) returns (digits: bytes, rest: bytes)
    ensures s == digits + rest && AllDigits(digits) && (rest == [] || !AllDigits(rest[..1]))
  {
    if s != [] && AllDigits(s[..1]) {
      assert IsDigit(s[..1][0]);
      digits, rest := LeadingDigits(s[1..]);
      digits := [s[0]] + digits;
      assert s == [s[0]] + s[1..];
    } else {
      digits, rest := [], s;
    }
  }

  lemma SignIsRead(t: bytes, sign: bytes, number: bytes)
    requires t == sign + number && |sign| == 1 && SignOrNone(sign)
    ensures !AllBlank(t[..1])
    ensures Signed(t) == if sign == ['-' as int] then 0 - Digits(number, 0) else Digits(number, 0)
  {
    hide Digits;
    assert t[..1] == sign && t[1..] == number && t[0] == sign[0];
  }

  lemma NoSignIsRead(t: bytes)
    requires t == [] || !SignOrNone(t[..1])
    ensures Signed(t) == Digits(t, 0)
  {
  }

  lemma UnsignedStart(digits: bytes, rest: bytes)
    requires AllDigits(digits)
    requires digits == [] && rest != [] ==> !AllBlank(rest[..1]) && !SignOrNone(rest[..1])
    ensures var t := digits + rest; t == [] || (!AllBlank(t[..1]) && !SignOrNone(t[..1]))
  {
    if digits == [] {
      assert digits + rest == rest;
    } else {
      var c := (digits + rest)[..1];
      assert c[0] == digits[0];
    }
  }

  lemma SignedParts(sign: bytes, digits: bytes, rest: bytes)
    requires Parts(sign + digits + rest, [], sign, digits, rest)
    ensures var t := sign + digits + rest;
      && (t == [] || !AllBlank(t[..1]))
      && Signed(t) == if sign == ['-' as int] then 0 - Positional(digits) else Positional(digits)
  {
    hide Digits, Signed, Pow10, Positional, AllBlank, AllDigits;
    var t, number := sign + digits + rest, digits + rest;
    DigitsArePositional(digits, rest, 0);
    if sign == [] {
      assert t == number;
      UnsignedStart(digits, rest);
      NoSignIsRead(t);
    } else {
      assert t == sign + number;
      SignIsRead(t, sign, number);
    }
  }

  /** ... and strtoll() reads the signed number that the digits denote, leading
      zeros and all, or the nearest 64-bit number; 0 where there are none. */
  lemma StrtollIsPositional(s: bytes, white: bytes, sign: bytes, digits: bytes, rest: bytes)
    requires Parts(s, white, sign, digits, rest)
    ensures var n := if sign == ['-' as int] then 0 - Positional(digits) else Positional(digits);
      Strtoll(s) == if n < -0x8000_0000_0000_0000 then -0x8000_0000_0000_0000
                    else if n > 0x7FFF_FFFF_FFFF_FFFF then 0x7FFF_FFFF_FFFF_FFFF
                    else n
  {
    var t := sign + digits + rest;
    assert s == white + t;
    SignedParts(sign, digits, rest);
    SkipsBlanks(white, t);
  }

  // ---------- what is printed ----------

  lemma {:induction false} DecIsCanonical(n: nat)
    ensures var d := Dec(n);
      AllDigits(d) && d != [] && (d[0] == '0' as int ==> n == 0 && |d| == 1)
  {
    if n >= 10 {
      DecIsCanonical(n / 10);
    }
  }

  lemma DecIsPositional(n: nat)
    ensures AllDigits(Dec(n)) && Positional(Dec(n)) == n
  {
    DecIsCanonical(n);
    DigitsOfDec(n, []);
    DigitsArePositional(Dec(n), [], 0);
  }

  /** A number is printed as its digits without leading zeros, behind a minus
      sign just when it is negative. */
  lemma TextIsCanonical(n: int64)
    ensures var d := if n < 0 then Text(n)[1..] else Text(n);
      && d != [] && AllDigits(d) && (|d| > 1 ==> d[0] != '0' as int)
      && Positional(d) == (if n < 0 then 0 - n as int else n as int)
      && (n < 0 ==> Text(n)[0] == '-' as int)
  {
    hide Dec, Positional;
    var m := Magnitude(n);
    DecIsCanonical(m);
    DecIsPositional(m);
    assert n < 0 ==> Text(n)[1..] == Dec(m);
  }

  // ---------- reading stops at the first NUL ----------

  lemma {:induction false} SkipSpacesStopsAtNul(s: bytes, n: nat)
    requires 0 < n <= |s| && s[n - 1] == NUL
    ensures SkipSpaces(s[..n]) != [] && SkipSpaces(s[..n])[|SkipSpaces(s[..n])| - 1] == NUL
    ensures SkipSpaces(s) == SkipSpaces(s[..n]) + s[n..]
  {
    if IsSpace(s[0]) {
      assert s[..n][1..] == s[1..][..n - 1];
      SkipSpacesStopsAtNul(s[1..], n - 1);
    } else {
      assert s == s[..n] + s[n..];
    }
  }

  lemma {:induction false} DigitsStopAtNul(t: bytes, rest: bytes, acc: nat)
    requires t != [] && t[|t| - 1] == NUL
    ensures Digits(t + rest, acc) == Digits(t, acc)
  {
    if IsDigit(t[0]) {
      assert (t + rest)[1..] == t[1..] + rest;
      DigitsStopAtNul(t[1..], rest, acc * 10 + (t[0] - ZERO));
    }
  }

  /** strtoll() on a buffer depends only on the bytes up to a NUL: what lies
      after the stored value in a larger buffer does not matter. */
  lemma StrtollStopsAtNul(s: bytes, n: nat)
    requires 0 < n <= |s| && s[n - 1] == NUL
    ensures Strtoll(s) == Strtoll(s[..n])
  {
    SkipSpacesStopsAtNul(s, n);
    var t := SkipSpaces(s[..n]);
    if t[0] == MINUS || t[0] == PLUS {
      assert (t + s[n..])[1..] == t[1..] + s[n..];
      DigitsStopAtNul(t[1..], s[n..], 0);
    } else {
      DigitsStopAtNul(t, s[n..], 0);
    }
  }

  // ---------- the increment of a stored value ----------

  predicate Terminated(val: bytes) {
    val != [] && val[|val| - 1] == NUL
  }

  datatype Increment = NotTerminated | Incremented(number: int64, stored: bytes)

  /** What an increment makes of a stored value: refused unless the last byte
      is NUL; otherwise the sum replaces the first 24 bytes, growing a shorter
      value to 24. The code reads the byte before an empty value; that case is
      totalised here and excluded by the methods. */
  function IncrValue(val: bytes, increment: int64): Increment {
    if !Terminated(val) then NotTerminated
    else
      var n := WrapI64(Strtoll(val) + increment);
      Incremented(n, Field23(n) + [NUL] + if |val| < 24 then [] else val[24..])
  }

  /** An increment is refused just for a value without NUL at its end. A
      successful one leaves the sum, printed right-justified in 23 columns with
      a NUL behind, in the first 24 bytes, and the bytes behind those as they
      were; the value then reads as the number reported. */
  lemma IncrementedValueReadsBack(val: bytes, increment: int64)
    ensures IncrValue(val, increment).Incremented? <==> val != [] && val[|val| - 1] == 0
    ensures var r := IncrValue(val, increment);
      r.Incremented? ==>
        && r.number == WrapI64(Strtoll(val) + increment)
        && Strtoll(r.stored) == r.number
        && |r.stored| == (if |val| < 24 then 24 else |val|)
        && |Text(r.number)| <= 23
        && r.stored[..24] == Spaces(23 - |Text(r.number)|) + Text(r.number) + [0]
        && (|val| > 24 ==> r.stored[24..] == val[24..])
        && Terminated(r.stored)
  {
    hide Strtoll, WrapI64, Text, Spaces;
    var r := IncrValue(val, increment);
    if r.Incremented? {
      TextFits(r.number);
      PrintedNumberReadsBack(r.number, if |val| < 24 then [] else val[24..]);
    }
  }

  /** A counter kept as plain text, padded or not, is incremented to the sum. */
  lemma CounterIncrements(blanks: nat, n: int64, increment: int64)
    ensures var r := IncrValue(Spaces(blanks) + Text(n) + [NUL], increment);
      r.Incremented? && r.number == WrapI64(n + increment) && Strtoll(r.stored) == r.number
  {
    hide Strtoll, IncrValue, WrapI64, Text, Spaces;
    var val := Spaces(blanks) + Text(n) + [NUL];
    CounterReadsBack(blanks, n, []);
    assert val + [] == val;
    IncrementedValueReadsBack(val, increment);
  }

  function Sum(increments: seq<int64>): int {
    if increments == [] then 0 else increments[0] + Sum(increments[1..])
  }

  /** A run of increments on one value. */
  function IncrRun(val: bytes, increments: seq<int64>): Option<bytes>
    decreases increments
  {
    if increments == [] then Some(val)
    else match IncrValue(val, increments[0])
      case NotTerminated => None
      case Incremented(_, stored) => IncrRun(stored, increments[1..])
  }

  /** A run of increments on a terminated value never fails. */
  lemma {:induction false} IncrementsSucceed(val: bytes, increments: seq<int64>)
    requires Terminated(val)
    decreases increments
    ensures IncrRun(val, increments).Some? && Terminated(IncrRun(val, increments).value)
  {
    if increments != [] {
      IncrementedValueReadsBack(val, increments[0]);
      IncrementsSucceed(IncrValue(val, increments[0]).stored, increments[1..]);
    }
  }

  /** One increment, then a sum of others, is the sum of all. */
  lemma SumStep(first: int64, increment: int64, next: int64, more: int, last: int64)
    requires next == WrapI64(first + increment) && last == WrapI64(next + more)
    ensures last == WrapI64(first + (increment + more))
  {
    WrapAdds(first + increment, more);
    assert first + increment + more == first + (increment + more);
  }

  /** ... and it adds up: the stored text then reads as the old number plus the
      sum, exactly unless that leaves the 64-bit range. */
  lemma {:induction false} IncrementsCompose(val: bytes, increments: seq<int64>)
    requires Terminated(val)
    decreases increments
    ensures IncrRun(val, increments).Some?
    ensures Strtoll(IncrRun(val, increments).value) == WrapI64(Strtoll(val) + Sum(increments))
  {
    hide WrapI64, Strtoll, IncrValue;
    IncrementsSucceed(val, increments);
    if increments == [] {
      WrapIsExactWhenItFits(Strtoll(val));
    } else {
      var i, rest := increments[0], increments[1..];
      var next := IncrValue(val, i).stored;
      IncrementedValueReadsBack(val, i);
      IncrementsCompose(next, rest);
      SumStep(Strtoll(val), i, Strtoll(next), Sum(rest), Strtoll(IncrRun(next, rest).value));
    }
  }
}
