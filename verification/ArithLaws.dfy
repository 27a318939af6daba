/** Laws of the operators of arithmetic expansion, on all 64-bit operands, and of the expressions
    built with them; src/arith_yacc.c. */
module ArithLaws {
  import opened Wrappers
  import opened ArithNumber
  import opened ArithLex
  import opened ArithGrammar
  import opened ArithEval

  /** The result of an operator that cannot fail. */
  function Op(op: int, a: Arith, b: Arith): Arith {
    if DoBinop(op, a, b).Some? then DoBinop(op, a, b).value else 0
  }

  /** Two 64-bit values that are equal modulo 2^64 are equal. */
  lemma SameModulo(x: Arith, y: Arith)
    requires (x - y) % TWO64 == 0
    ensures x == y
  {
  }

  lemma WrapUnique(x: int, y: int)
    requires (x - y) % TWO64 == 0
    ensures Wrap(x) == Wrap(y)
  {
    SameModulo(Wrap(x), Wrap(y));
  }

  lemma WrapFits(x: Arith)
    ensures Wrap(x) == x
  {
    SameModulo(Wrap(x), x);
  }

  lemma WrapPlus(x: int, y: int)
    ensures Wrap(Wrap(x) + y) == Wrap(x + y)
  {
    WrapUnique(Wrap(x) + y, x + y);
  }

  lemma WrapTwice(x: int)
    ensures Wrap(Wrap(x) * 2) == Wrap(x * 2)
  {
    var q := (Wrap(x) - x) / TWO64;
    assert Wrap(x) - x == TWO64 * q;
    assert Wrap(x) * 2 - x * 2 == TWO64 * (q * 2);
    WrapUnique(Wrap(x) * 2, x * 2);
  }

  lemma ResultIs(a: Arith, b: Arith)
    ensures Op(ARITH_ADD, a, b) == Wrap(a + b) && Op(ARITH_SUB, a, b) == Wrap(a - b) && Op(ARITH_MUL, a, b) == Wrap(a * b)
    ensures Op(ARITH_LSHIFT, a, b) == Wrap(a * Pow2(b % 64))
    ensures b != 0 && !(a == ARITH_MIN && b == -1) ==> Op(ARITH_DIV, a, b) == TruncDiv(a, b) && Op(ARITH_REM, a, b) == TruncRem(a, b)
  {
    hide Pow2, TruncDiv, TruncRem, Wrap;
  }

  // ----- division fails, nothing else does -----

  /** Only a division by zero and the smallest value by -1 are errors. */
  lemma OnlyDivisionFails(op: int, a: Arith, b: Arith)
    requires IsBinop(op)
    ensures DoBinop(op, a, b).None? <==>
      (op == ARITH_DIV || op == ARITH_REM) && (b == 0 || (a == ARITH_MIN && b == -1))
  {
  }

  // ----- sums and products, by recursion on the second operand -----

  lemma WrapOver()
    ensures Wrap(ARITH_MAX + 1) == ARITH_MIN
  {
  }

  /** Addition: zero, the successor, and the wrap from the largest value to the smallest. */
  lemma AdditionLaws(a: Arith, b: Arith)
    ensures Op(ARITH_ADD, a, 0) == a
    ensures Op(ARITH_ADD, a, 1) == if a < ARITH_MAX then a + 1 else ARITH_MIN
    ensures b < ARITH_MAX ==> Op(ARITH_ADD, a, b + 1) == Op(ARITH_ADD, Op(ARITH_ADD, a, b), 1)
  {
    hide DoBinop, Op, Wrap;
    ResultIs(a, 0);
    ResultIs(a, 1);
    ResultIs(a, b);
    WrapFits(a);
    if a < ARITH_MAX {
      WrapFits(a + 1);
    } else {
      WrapOver();
    }
    if b < ARITH_MAX {
      AddOne(a, b);
    }
  }

  lemma AddOne(a: Arith, b: Arith)
    requires b < ARITH_MAX
    ensures Op(ARITH_ADD, a, b + 1) == Op(ARITH_ADD, Op(ARITH_ADD, a, b), 1)
  {
    hide DoBinop, Op, Wrap;
    ResultIs(a, b);
    ResultIs(a, b + 1);
    ResultIs(Wrap(a + b), 1);
    WrapPlus(a + b, 1);
  }

  lemma SubtractionUndoesAddition(a: Arith, b: Arith)
    ensures Op(ARITH_ADD, Op(ARITH_SUB, a, b), b) == a
  {
    hide DoBinop, Op, Wrap;
    ResultIs(a, b);
    ResultIs(Wrap(a - b), b);
    WrapPlus(a - b, b);
    WrapFits(a);
  }

  lemma MultiplicationLaws(a: Arith, b: Arith)
    ensures Op(ARITH_MUL, a, 0) == 0
    ensures b < ARITH_MAX ==> Op(ARITH_MUL, a, b + 1) == Op(ARITH_ADD, Op(ARITH_MUL, a, b), a)
  {
    hide DoBinop, Op, Wrap;
    ResultIs(a, 0);
    WrapFits(0);
    if b < ARITH_MAX {
      ResultIs(a, b);
      ResultIs(a, b + 1);
      TimesNext(a, b);
      var ab := a * b;
      ResultIs(Wrap(ab), a);
      WrapPlus(ab, a);
    }
  }

  lemma TimesNext(a: int, b: int)
    ensures a * 0 == 0 && a * (b + 1) == a * b + a
  {
  }

  /** Division rounds toward zero. */
  lemma DivisionLaws(a: Arith, b: Arith)
    requires b != 0 && !(a == ARITH_MIN && b == -1)
    ensures var q, r := Op(ARITH_DIV, a, b), Op(ARITH_REM, a, b);
      && q * b + r == a && Op(ARITH_ADD, Op(ARITH_MUL, q, b), r) == a
      && -Abs(b) < r < Abs(b) && (r > 0 ==> a > 0) && (r < 0 ==> a < 0)
  {
    var q, r := Op(ARITH_DIV, a, b), Op(ARITH_REM, a, b);
    ResultIs(a, b);
    TruncRemBounds(a, b);
    hide DoBinop, Op, Wrap, TruncDiv;
    assert r == a - b * q;
    var qb := q * b;
    assert b * q == qb;
    ResultIs(q, b);
    ResultIs(Wrap(qb), r);
    WrapPlus(qb, r);
    WrapFits(a);
  }

  function Abs(x: int): int {
    if x < 0 then -x else x
  }

  lemma TruncRemBounds(a: int, b: int)
    requires b != 0
    ensures var r := TruncRem(a, b); -Abs(b) < r < Abs(b) && (r > 0 ==> a > 0) && (r < 0 ==> a < 0)
  {
    var x, y := Abs(a), Abs(b);
    var q := x / y;
    QuotientBounds(x, y);
    DivBySign(a, b);
    var td := TruncDiv(a, b);
    hide TruncDiv;
    SignedProduct(b, td, y, q, (a >= 0) == (b > 0));
  }

  lemma SignedProduct(b: int, d: int, y: int, q: int, same: bool)
    requires (b == y || b == 0 - y) && d == if same then q else 0 - q
    ensures b * d == if (b == y) == same then y * q else 0 - y * q
  {
    MulSigns(y, q);
  }

  lemma DivBySign(a: int, b: int)
    requires b != 0
    ensures TruncDiv(a, b) == if (a >= 0) == (b > 0) then Abs(a) / Abs(b) else 0 - Abs(a) / Abs(b)
  {
  }

  // ----- shifts, whose count is taken modulo 64 -----

  lemma LeftShiftDoubles(a: Arith, n: Arith)
    ensures Op(ARITH_LSHIFT, a, 0) == a
    ensures Op(ARITH_LSHIFT, a, n) == Op(ARITH_LSHIFT, a, n % 64)
    ensures n % 64 < 63 && n < ARITH_MAX ==> Op(ARITH_LSHIFT, a, n + 1) == Op(ARITH_MUL, Op(ARITH_LSHIFT, a, n), 2)
  {
    hide DoBinop, Op, Wrap, Pow2;
    Pow2Doubles(0);
    ResultIs(a, 0);
    ResultIs(a, n);
    ResultIs(a, n % 64);
    WrapFits(a);
    if n % 64 < 63 && n < ARITH_MAX {
      ShiftOne(a, n);
    }
  }

  lemma ShiftOne(a: Arith, n: Arith)
    requires n % 64 < 63 && n < ARITH_MAX
    ensures Op(ARITH_LSHIFT, a, n + 1) == Op(ARITH_MUL, Op(ARITH_LSHIFT, a, n), 2)
  {
    hide DoBinop, Op, Wrap, Pow2;
    var p := Pow2(n % 64);
    Pow2Doubles(n % 64);
    assert (n + 1) % 64 == n % 64 + 1;
    ResultIs(a, n);
    ResultIs(a, n + 1);
    var ap := a * p;
    ResultIs(Wrap(ap), 2);
    TimesTwice(a, p);
    WrapTwice(ap);
  }

  lemma TimesTwice(a: int, p: int)
    ensures a * (2 * p) == (a * p) * 2
  {
  }

  /** The right shift rounds down, also for negative values. */
  lemma RightShiftIsFloor(a: Arith, n: Arith)
    ensures var r, p := Op(ARITH_RSHIFT, a, n), Pow2(n % 64); r * p <= a < (r + 1) * p
  {
    var p := Pow2(n % 64);
    FloorInRange(a, p);
    FloorBounds(a, p);
  }

  lemma FloorBounds(a: int, p: nat)
    requires p >= 1
    ensures a / p * p <= a < (a / p + 1) * p
  {
    assert a == p * (a / p) + a % p;
    assert (a / p + 1) * p == a / p * p + p;
  }

  lemma Pow2Doubles(n: nat)
    ensures Pow2(0) == 1 && Pow2(n + 1) == 2 * Pow2(n)
  {
  }

  // ----- comparisons -----

  /** Exactly one of less, equal and greater holds, in the order of the values; the others are their negations. */
  lemma ComparisonLaws(a: Arith, b: Arith)
    ensures Op(ARITH_LT, a, b) + Op(ARITH_EQ, a, b) + Op(ARITH_GT, a, b) == 1
    ensures Op(ARITH_EQ, a, b) == 1 <==> a == b
    ensures Op(ARITH_LT, a, b) == Op(ARITH_GT, b, a)
    ensures Op(ARITH_LT, a, b) == 1 <==> a < b
    ensures Op(ARITH_LE, a, b) == 1 - Op(ARITH_GT, a, b)
    ensures Op(ARITH_GE, a, b) == 1 - Op(ARITH_LT, a, b)
    ensures Op(ARITH_NE, a, b) == 1 - Op(ARITH_EQ, a, b)
  {
  }

  // ----- bits -----

  /** Bit k of the two's complement form. */
  function Bit(x: Arith, k: nat): nat {
    ToUnsigned(x) / Pow2(k) % 2
  }

  lemma BitwiseLaws(a: Arith, b: Arith, k: nat)
    requires k < 64
    ensures Bit(Op(ARITH_BAND, a, b), k) == 1 <==> Bit(a, k) == 1 && Bit(b, k) == 1
    ensures Bit(Op(ARITH_BOR, a, b), k) == 1 <==> Bit(a, k) == 1 || Bit(b, k) == 1
    ensures Bit(Op(ARITH_BXOR, a, b), k) == 1 <==> Bit(a, k) != Bit(b, k)
  {
    BitOfResult(ARITH_BAND, a, b, k);
    BitOfResult(ARITH_BOR, a, b, k);
    BitOfResult(ARITH_BXOR, a, b, k);
  }

  lemma BitOfResult(op: int, a: Arith, b: Arith, k: nat)
    requires k < 64 && (op == ARITH_BAND || op == ARITH_BOR || op == ARITH_BXOR)
    ensures Bit(Op(op, a, b), k) == BitOf(op, Bit(a, k), Bit(b, k))
  {
    var x, y := ToUnsigned(a), ToUnsigned(b);
    var u := Bitwise(op, 64, x, y);
    assert Op(op, a, b) == Wrap(u);
    hide DoBinop, Op, Bitwise, BitOf;
    BitwiseBit(op, 64, x, y, k);
    Pow2Of64();
    UnsignedAgain(u);
  }

  lemma UnsignedAgain(u: nat)
    requires u < TWO64
    ensures ToUnsigned(Wrap(u)) == u
  {
  }

  lemma {:induction false} Pow2Sum(m: nat, n: nat)
    ensures Pow2(m + n) == Pow2(m) * Pow2(n)
    decreases m
  {
    if m > 0 {
      Pow2Sum(m - 1, n);
      assert Pow2(m - 1 + n) == Pow2(m + n - 1);
      assert 2 * (Pow2(m - 1) * Pow2(n)) == (2 * Pow2(m - 1)) * Pow2(n);
    }
  }

  lemma Pow2Of64()
    ensures Pow2(64) == TWO64
  {
    assert Pow2(4) == 16;
    Pow2Sum(4, 4);
    Pow2Sum(8, 8);
    Pow2Sum(16, 16);
    Pow2Sum(32, 32);
  }

  lemma {:induction false} BitwiseBit(op: int, n: nat, x: nat, y: nat, k: nat)
    requires k < n
    ensures Bitwise(op, n, x, y) / Pow2(k) % 2 == BitOf(op, x / Pow2(k) % 2, y / Pow2(k) % 2)
    decreases n
  {
    var r := Bitwise(op, n - 1, x / 2, y / 2);
    var all := BitOf(op, x % 2, y % 2) + 2 * r;
    assert all / 2 == r && all % 2 == BitOf(op, x % 2, y % 2);
    if k > 0 {
      BitwiseBit(op, n - 1, x / 2, y / 2, k - 1);
      HalveFirst(all, k);
      HalveFirst(x, k);
      HalveFirst(y, k);
    }
  }

  lemma HalveFirst(x: nat, k: nat)
    requires k > 0
    ensures x / Pow2(k) == x / 2 / Pow2(k - 1)
  {
    var p := Pow2(k - 1);
    var q := x / 2 / p;
    FloorBounds(x / 2, p);
    assert 2 * (q * p) <= x < 2 * ((q + 1) * p);
    assert q * (2 * p) <= x < (q + 1) * (2 * p);
    QuotientIs(x, 2 * p, q);
  }

  lemma QuotientIs(x: int, p: nat, q: int)
    requires p >= 1 && q * p <= x < (q + 1) * p
    ensures x / p == q
  {
    FloorBounds(x, p);
    MonotoneTimes(p, x / p + 1, q);
    MonotoneTimes(p, q + 1, x / p);
  }

  lemma MonotoneTimes(p: nat, a: int, b: int)
    requires p >= 1
    ensures a <= b ==> a * p <= b * p
  {
    assert b * p == a * p + (b - a) * p;
  }

  // ----- unary operators -----

  lemma UnaryLaws(a: Arith)
    ensures Op(ARITH_ADD, ApplyUnary(ARITH_SUB, a), a) == 0
    ensures ApplyUnary(ARITH_ADD, a) == a
    ensures ApplyUnary(ARITH_NOT, a) == Op(ARITH_EQ, a, 0)
    ensures ApplyUnary(ARITH_NOT, ApplyUnary(ARITH_NOT, a)) == Op(ARITH_NE, a, 0)
    ensures Op(ARITH_ADD, ApplyUnary(ARITH_BNOT, a), 1) == ApplyUnary(ARITH_SUB, a)
  {
  }

  lemma ComplementFlipsBits(a: Arith, k: nat)
    requires k < 64
    ensures Bit(ApplyUnary(ARITH_BNOT, a), k) == 1 - Bit(a, k)
  {
    var x := ToUnsigned(a);
    assert ToUnsigned(ApplyUnary(ARITH_BNOT, a)) == TWO64 - 1 - x;
    Pow2Of64();
    ComplementBit(64, x, k);
  }

  lemma Complement(x: nat, y: nat, p: nat)
    requires x + y == 2 * p - 1
    ensures y % 2 == 1 - x % 2 && y / 2 == p - 1 - x / 2
  {
  }

  lemma {:induction false} ComplementBit(n: nat, x: nat, k: nat)
    requires k < n && x < Pow2(n)
    ensures (Pow2(n) - 1 - x) / Pow2(k) % 2 == 1 - x / Pow2(k) % 2
    decreases n
  {
    var y: nat := Pow2(n) - 1 - x;
    Pow2Doubles(n - 1);
    var p := Pow2(n - 1);
    Complement(x, y, p);
    Pow2Doubles(0);
    hide Pow2;
    if k > 0 {
      ComplementBit(n - 1, x / 2, k - 1);
      HalveFirst(x, k);
      HalveFirst(y, k);
    }
  }
}
