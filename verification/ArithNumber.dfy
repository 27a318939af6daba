/** The 64-bit numbers of arithmetic expansion: strtoarith_t of src/arith_yylex.c, the
    decimal text assignment stores, and do_binop of src/arith_yacc.c. */
module ArithNumber {
  import opened Wrappers


  const TWO63 := 0x8000_0000_0000_0000
  const TWO64 := 0x1_0000_0000_0000_0000
  const ARITH_MIN := -TWO63
  const ARITH_MAX := TWO63 - 1

  type Arith = x: int | ARITH_MIN <= x <= ARITH_MAX

  /** The conversion of an unbounded or unsigned result to arith_t. */
  function Wrap(x: int): (r: Arith)
    ensures (r - x) % TWO64 == 0
  {
    var m := x % TWO64;
    if m >= TWO63 then m - TWO64 else m
  }

  function ToUnsigned(x: Arith): (r: nat)
    ensures r < TWO64
  {
    if x < 0 then x + TWO64 else x
  }

  // ----- text to number -----

  function DigitValue(c: char): nat {
    if '0' <= c <= '9' then (c - '0') as nat
    else if 'a' <= c <= 'z' then (c - 'a') as nat + 10
    else if 'A' <= c <= 'Z' then (c - 'A') as nat + 10
    else 99
  }

  /** The digits of the base at the front of `s`, added to `v`, and what follows them. */
  function Digits(base: nat, v: nat, s: string): (r: (nat, string))
    ensures |r.1| <= |s|
    decreases |s|
  {
    if s != "" && DigitValue(s[0]) < base then Digits(base, v * base + DigitValue(s[0]), s[1..])
    else (v, s)
  }

  function BaseOf(s: string): nat {
    if s == "" || s[0] != '0' then 10
    else if |s| > 2 && (s[1] == 'x' || s[1] == 'X') && DigitValue(s[2]) < 16 then 16
    else 8
  }

  /** Magnitude and rest for base 0; without a digit nothing is converted. */
  function Magnitude(s: string): (r: (nat, string))
    ensures |r.1| <= |s|
  {
    var base := BaseOf(s);
    Digits(base, 0, if base == 16 then s[2..] else s)
  }

  /** The value, whether errno was set to ERANGE, and what follows the number. */
  datatype Conversion = Conversion(val: Arith, erange: bool, rest: string)

  predicate IsSpace(c: char) {
    c == ' ' || '\t' <= c <= '\r'
  }

  function SkipSpace(s: string): (r: string)
    ensures |r| <= |s|
  {
    if s != "" && IsSpace(s[0]) then SkipSpace(s[1..]) else s
  }

  function Unsigned(s: string): (r: (nat, bool, string))
    ensures r.0 < TWO64 && |r.2| <= |s|
  {
    var (m, rest) := Magnitude(s);
    if m < TWO64 then (m, false, rest) else (TWO64 - 1, true, rest)
  }

  predicate HasDigit(s: string) {
    s != "" && '0' <= s[0] <= '9'
  }

  function StrToArith(s: string): (r: Conversion)
    ensures |r.rest| <= |s|
  {
    var t := SkipSpace(s);
    if t != "" && t[0] == '-' then
      if !HasDigit(t[1..]) then Conversion(0, false, t)
      else
        var (m, rest) := Magnitude(t[1..]);
        if m <= TWO63 then Conversion(0 - m, false, rest) else Conversion(ARITH_MIN, true, rest)
    else if t != "" && t[0] == '0' then
      var (u, erange, rest) := Unsigned(t);
      Conversion(Wrap(u), erange, rest)
    else
      var digits := if t != "" && t[0] == '+' then t[1..] else t;
      if !HasDigit(digits) then Conversion(0, false, t)
      else
        var (u, erange, rest) := Unsigned(digits);
        if Wrap(u) >= 0 then Conversion(Wrap(u), erange, rest)
        else if Wrap(u) == ARITH_MIN then Conversion(ARITH_MIN, true, rest)
        else Conversion(ARITH_MAX, true, rest)
  }

  // ----- number to text -----

  function DecimalNat(n: nat): string {
    if n < 10 then ['0' + n as char] else DecimalNat(n / 10) + ['0' + (n % 10) as char]
  }

  function Decimal(v: Arith): string {
    if v < 0 then "-" + DecimalNat(0 - v) else DecimalNat(v)
  }

  function Pow10(k: nat): nat {
    if k == 0 then 1 else 10 * Pow10(k - 1)
  }

  lemma {:induction false} DecimalLength(n: nat, k: nat)
    requires k >= 1 && n < Pow10(k)
    ensures 1 <= |DecimalNat(n)| <= k
    decreases k
  {
    if n >= 10 {
      assert k >= 2 by {
        assert Pow10(1) == 10 * Pow10(0);
      }
      assert Pow10(k) == 10 * Pow10(k - 1);
      DecimalLength(n / 10, k - 1);
    }
  }

  lemma {:induction false} DigitsConcat(base: nat, v: nat, s: string, t: string)
    requires Digits(base, v, s).1 == ""
    ensures Digits(base, v, s + t) == Digits(base, Digits(base, v, s).0, t)
    decreases |s|
  {
    if s == "" {
      assert s + t == t;
    } else {
      assert (s + t)[0] == s[0] && (s + t)[1..] == s[1..] + t;
      DigitsConcat(base, v * base + DigitValue(s[0]), s[1..], t);
    }
  }

  lemma {:induction false} DecimalReadsBack(n: nat)
    ensures Digits(10, 0, DecimalNat(n)) == (n, "")
    ensures HasDigit(DecimalNat(n)) && (DecimalNat(n)[0] == '0' ==> n == 0)
    decreases n
  {
    if n < 10 {
      var s := DecimalNat(n);
      assert s[1..] == "" && DigitValue(s[0]) == n;
      assert Digits(10, n, "") == (n, "");
    } else {
      var q, d := DecimalNat(n / 10), ['0' + (n % 10) as char];
      DecimalReadsBack(n / 10);
      DigitsConcat(10, 0, q, d);
      assert d[1..] == "" && DigitValue(d[0]) == n % 10;
      assert Digits(10, n / 10 * 10 + n % 10, "") == (n, "");
    }
  }

  /** sizeof sresult in assignment: DIGITS(result) + 1 bytes. */
  const SRESULT_SIZE := 3 + (2 + 8 * 8) / 3 + 1

  /** Every 64-bit value, the smallest included, fits the buffer with its NUL and is read
      back as itself with nothing left over and no error. */
  lemma DecimalRoundTrip(v: Arith)
    ensures |Decimal(v)| + 1 <= SRESULT_SIZE
    ensures StrToArith(Decimal(v)) == Conversion(v, false, "")
  {
    hide StrToArith;
    var m: nat := if v < 0 then 0 - v else v;
    Pow10Of19();
    DecimalLength(m, 19);
    DecimalReadsBack(m);
    if v == 0 {
      ZeroRoundTrip();
    } else {
      NonZeroRoundTrip(v, m);
    }
  }

  lemma ZeroRoundTrip()
    ensures StrToArith(Decimal(0)) == Conversion(0, false, "")
  {
    DecimalReadsBack(0);
    var d := DecimalNat(0);
    hide DecimalNat;
    assert Digits(10, 0, d) == (0, "");
    ZeroReadsBack(d);
  }

  lemma NonZeroRoundTrip(v: Arith, m: nat)
    requires v != 0 && m == if v < 0 then 0 - v else v
    ensures StrToArith(Decimal(v)) == Conversion(v, false, "")
  {
    DecimalReadsBack(m);
    var s, d := Decimal(v), DecimalNat(m);
    hide DecimalNat, Digits;
    assert SkipSpace(s) == s;
    assert BaseOf(d) == 10;
    assert Magnitude(d) == (m, "");
    hide Magnitude, BaseOf;
    if v < 0 {
      assert s[1..] == d;
    } else {
      assert Wrap(m) == v;
    }
  }

  /** The text of zero is read in base 8. */
  lemma ZeroReadsBack(d: string)
    requires HasDigit(d) && Digits(10, 0, d) == (0, "") && |d| <= 19 && DecimalNat(0) == d
    ensures StrToArith(d) == Conversion(0, false, "")
  {
    assert d == "0" && d[1..] == "";
    assert Digits(8, 0, "0") == Digits(8, 0, "");
    assert Digits(8, 0, "") == (0, "");
    assert Magnitude(d) == (0, "");
  }

  lemma Pow10Of19()
    ensures Pow10(19) > TWO63
  {
    assert Pow10(5) == 100000;
    assert Pow10(10) == 10000000000;
    assert Pow10(15) == 1000000000000000;
  }

  // ----- operators -----

  const ARITH_LE := 8
  const ARITH_GE := 9
  const ARITH_LT := 10
  const ARITH_GT := 11
  const ARITH_EQ := 12
  const ARITH_REM := 13
  const ARITH_BAND := 14
  const ARITH_LSHIFT := 15
  const ARITH_RSHIFT := 16
  const ARITH_MUL := 17
  const ARITH_ADD := 18
  const ARITH_BOR := 19
  const ARITH_SUB := 20
  const ARITH_BXOR := 21
  const ARITH_DIV := 22
  const ARITH_NE := 23

  function Pow2(k: nat): (r: nat)
    ensures r >= 1
  {
    if k == 0 then 1 else 2 * Pow2(k - 1)
  }

  /** Integer division of C, which rounds toward zero. */
  function TruncDiv(a: int, b: int): int
    requires b != 0
  {
    if a >= 0 then if b > 0 then a / b else -(a / -b)
    else if b > 0 then -(-a / b) else -a / -b
  }

  function TruncRem(a: int, b: int): int
    requires b != 0
  {
    a - b * TruncDiv(a, b)
  }

  function BitOf(op: int, x: nat, y: nat): nat {
    if op == ARITH_BAND then if x == 1 && y == 1 then 1 else 0
    else if op == ARITH_BOR then if x == 1 || y == 1 then 1 else 0
    else if x != y then 1 else 0
  }

  /** `n` bits of a bitwise operation on unsigned values. */
  function Bitwise(op: int, n: nat, x: nat, y: nat): (r: nat)
    ensures r < Pow2(n)
  {
    if n == 0 then 0 else BitOf(op, x % 2, y % 2) + 2 * Bitwise(op, n - 1, x / 2, y / 2)
  }

  function Truth(b: bool): Arith {
    if b then 1 else 0
  }

  lemma QuotientBounds(x: nat, y: nat)
    requires y >= 1
    ensures 0 <= x / y <= x && 0 <= x - y * (x / y) < y
    ensures y >= 2 ==> 2 * (x / y) <= x
  {
    var q := x / y;
    assert x == y * q + x % y;
    Multiple(y, q, 1);
    if y >= 2 {
      Multiple(y, q, 2);
    }
  }

  lemma Multiple(y: nat, q: nat, k: nat)
    requires y >= k
    ensures y * q >= k * q
  {
    assert y * q == k * q + (y - k) * q;
  }

  lemma MulSigns(y: int, q: int)
    ensures (0 - y) * (0 - q) == y * q && (0 - y) * q == 0 - y * q && y * (0 - q) == 0 - y * q
  {
  }

  lemma TruncDivInRange(a: Arith, b: Arith)
    requires b != 0 && !(a == ARITH_MIN && b == -1)
    ensures ARITH_MIN <= TruncDiv(a, b) <= ARITH_MAX && ARITH_MIN <= TruncRem(a, b) <= ARITH_MAX
  {
    var x: nat, y: nat := if a >= 0 then a else 0 - a, if b > 0 then b else 0 - b;
    QuotientBounds(x, y);
    MulSigns(y, x / y);
    TruncByMagnitude(a, b, x / y, y * (x / y));
  }

  lemma TruncByMagnitude(a: Arith, b: Arith, q: nat, yq: nat)
    requires b != 0 && !(a == ARITH_MIN && b == -1)
    requires var x, y := if a >= 0 then a else 0 - a, if b > 0 then b else 0 - b;
      && q == x / y && yq == y * q && q <= x && 0 <= x - yq < y && (y >= 2 ==> 2 * q <= x)
    requires var y := if b > 0 then b else 0 - b;
      (0 - y) * (0 - q) == yq && (0 - y) * q == 0 - yq && y * (0 - q) == 0 - yq
    ensures ARITH_MIN <= TruncDiv(a, b) <= ARITH_MAX && ARITH_MIN <= TruncRem(a, b) <= ARITH_MAX
  {
    assert TruncDiv(a, b) == if (a >= 0) == (b > 0) then q else 0 - q;
    assert b * TruncDiv(a, b) == if a >= 0 then yq else 0 - yq;
  }

  lemma MulNonPositive(p: nat, k: int)
    requires p >= 1 && k <= 0
    ensures p * k <= k
  {
    assert p * k == k + (p - 1) * k;
    assert (p - 1) * k <= 0;
  }

  lemma FloorInRange(a: Arith, p: nat)
    requires p >= 1
    ensures ARITH_MIN <= a / p <= ARITH_MAX
  {
    var q := a / p;
    if a >= 0 {
      QuotientBounds(a, p);
    } else {
      assert p * q <= a < p * q + p;
      assert p * q + p == p * (q + 1);
      assert q >= 0 ==> p * q >= 0;
      MulNonPositive(p, q + 1);
    }
  }

  /** do_binop: a division error, or the 64-bit result. */
  function DoBinop(op: int, a: Arith, b: Arith): Option<Arith> {
    if op == ARITH_MUL then Some(Wrap(a * b))
    else if op == ARITH_ADD then Some(Wrap(a + b))
    else if op == ARITH_SUB then Some(Wrap(a - b))
    else if op == ARITH_LSHIFT then Some(Wrap(a * Pow2(b % 64)))
    else if op == ARITH_RSHIFT then FloorInRange(a, Pow2(b % 64)); Some(a / Pow2(b % 64))
    else if op == ARITH_LT then Some(Truth(a < b))
    else if op == ARITH_LE then Some(Truth(a <= b))
    else if op == ARITH_GT then Some(Truth(a > b))
    else if op == ARITH_GE then Some(Truth(a >= b))
    else if op == ARITH_EQ then Some(Truth(a == b))
    else if op == ARITH_NE then Some(Truth(a != b))
    else if op == ARITH_BAND || op == ARITH_BXOR || op == ARITH_BOR then
      Some(Wrap(Bitwise(op, 64, ToUnsigned(a), ToUnsigned(b))))
    else if b == 0 || (a == ARITH_MIN && b == -1) then None
    else TruncDivInRange(a, b); Some(if op == ARITH_REM then TruncRem(a, b) else TruncDiv(a, b))
  }
}
