/** Laws of arithmetic expansion on texts: how numbers are written, what each operator is called and
    how tightly it binds, and which operands are evaluated; src/arith_yylex.c and src/arith_yacc.c. */
module ArithTexts {
  import opened Ascii
  import opened Wrappers
  import opened ArithNumber
  import opened ArithLex
  import opened ArithGrammar
  import opened ArithEval

  // ----- numbers -----

  /** The text goes on with something that is no digit or letter. */
  predicate StopsNumber(t: string) {
    t == "" || DigitValue(t[0]) >= 36
  }

  /** A digit of base 8, 10 or 16. */
  predicate IsDigitOf(base: nat, c: char) {
    if base == 8 then '0' <= c <= '7' else '0' <= c <= '9' || (base == 16 && ('a' <= c <= 'f' || 'A' <= c <= 'F'))
  }

  /** The text goes on with something that is no digit of the base. */
  predicate StopsDigits(base: nat, t: string) {
    t == "" || !IsDigitOf(base, t[0])
  }

  function HexDigit(d: nat, upper: bool): char
    requires d < 16
  {
    if d < 10 then '0' + d as char else (if upper then 'A' else 'a') + (d - 10) as char
  }

  /** The digits of n in a base up to 16. */
  function InBase(base: nat, n: nat, upper: bool): (s: string)
    requires 2 <= base <= 16
    ensures s != ""
    decreases n
  {
    if n < base then [HexDigit(n, upper)]
    else Smaller(base, n); InBase(base, n / base, upper) + [HexDigit(n % base, upper)]
  }

  lemma Smaller(base: nat, n: nat)
    requires 2 <= base <= n
    ensures n / base < n
  {
    QuotientBounds(n, base);
  }

  lemma HexDigitValue(d: nat, upper: bool)
    requires d < 16
    ensures DigitValue(HexDigit(d, upper)) == d
  {
  }

  lemma {:induction false} InBaseIsRead(base: nat, n: nat, upper: bool)
    requires 2 <= base <= 16
    ensures Digits(base, 0, InBase(base, n, upper)) == (n, "")
    decreases n
  {
    hide DigitValue, HexDigit;
    if n < base {
      OneDigit(base, 0, n, upper);
      assert 0 * base + n == n;
    } else {
      Smaller(base, n);
      InBaseIsRead(base, n / base, upper);
      DigitsConcat(base, 0, InBase(base, n / base, upper), [HexDigit(n % base, upper)]);
      OneDigit(base, n / base, n % base, upper);
      Recompose(base, n);
    }
  }

  lemma Recompose(base: nat, n: nat)
    requires base >= 2
    ensures n / base * base + n % base == n
  {
  }

  lemma OneDigit(base: nat, v: nat, d: nat, upper: bool)
    requires d < base <= 16
    ensures Digits(base, v, [HexDigit(d, upper)]) == (v * base + d, "")
  {
    hide HexDigit, DigitValue;
    HexDigitValue(d, upper);
    var s := [HexDigit(d, upper)];
    assert s[1..] == "" && Digits(base, v * base + d, "") == (v * base + d, "");
  }

  lemma InBaseReadsBack(base: nat, n: nat, upper: bool, t: string)
    requires (base == 8 || base == 10 || base == 16) && StopsDigits(base, t)
    ensures Digits(base, 0, InBase(base, n, upper) + t) == (n, t)
  {
    InBaseIsRead(base, n, upper);
    DigitsConcat(base, 0, InBase(base, n, upper), t);
    NoMoreDigits(base, n, t);
  }

  lemma NoMoreDigits(base: nat, v: nat, t: string)
    requires (base == 8 || base == 10 || base == 16) && StopsDigits(base, t)
    ensures Digits(base, v, t) == (v, t)
  {
  }

  lemma {:induction false} FirstDigit(base: nat, n: nat, upper: bool)
    requires 2 <= base <= 16
    ensures DigitValue(InBase(base, n, upper)[0]) < base
    ensures base <= 10 ==> '0' <= InBase(base, n, upper)[0] <= '9'
    decreases n
  {
    hide DigitValue, HexDigit;
    if n < base {
      SmallDigit(base, n, upper);
    } else {
      Smaller(base, n);
      FirstDigit(base, n / base, upper);
      assert InBase(base, n, upper)[0] == InBase(base, n / base, upper)[0];
    }
  }

  lemma SmallDigit(base: nat, d: nat, upper: bool)
    requires d < base <= 16
    ensures DigitValue(HexDigit(d, upper)) == d && (base <= 10 ==> '0' <= HexDigit(d, upper) <= '9')
  {
  }

  /** What a number in hexadecimal or octal digits gives: every 64-bit pattern, or minus one and an error. */
  function FromBits(n: nat, t: string): Conversion {
    if n < TWO64 then Conversion(Wrap(n), false, t) else Conversion(-1, true, t)
  }

  /** A hexadecimal number, in capitals or not; what follows the digits is left. */
  lemma HexadecimalReadsBack(n: nat, upper: bool, x: char, t: string)
    requires (x == 'x' || x == 'X') && StopsDigits(16, t)
    ensures StrToArith(['0', x] + InBase(16, n, upper) + t) == FromBits(n, t)
  {
    hide Digits, DigitValue, InBase, Wrap;
    var d := InBase(16, n, upper);
    var s := ['0', x] + d + t;
    FirstDigit(16, n, upper);
    InBaseReadsBack(16, n, upper, t);
    assert s[1] == x && s[2] == d[0] && s[2..] == d + t;
    assert SkipSpace(s) == s;
    assert BaseOf(s) == 16;
    assert ArithNumber.Magnitude(s) == (n, t);
    FromMagnitude(s, n, t);
  }

  lemma FromMagnitude(s: string, n: nat, t: string)
    requires SkipSpace(s) == s && s != "" && s[0] == '0' && ArithNumber.Magnitude(s) == (n, t)
    ensures StrToArith(s) == FromBits(n, t)
  {
    hide ArithNumber.Magnitude;
    assert Wrap(TWO64 - 1) == -1;
  }

  /** An octal number. */
  lemma OctalReadsBack(n: nat, t: string)
    requires StopsDigits(8, t)
    ensures StrToArith("0" + InBase(8, n, false) + t) == FromBits(n, t)
  {
    hide Digits, InBase, Wrap;
    var d := InBase(8, n, false);
    var s := "0" + d + t;
    FirstDigit(8, n, false);
    InBaseReadsBack(8, n, false, t);
    assert s[1] == d[0] && s[1..] == d + t;
    assert SkipSpace(s) == s;
    assert BaseOf(s) == 8;
    ZeroFirst(s);
    assert ArithNumber.Magnitude(s) == (n, t);
    FromMagnitude(s, n, t);
  }

  lemma ZeroFirst(s: string)
    requires s != "" && s[0] == '0'
    ensures Digits(8, 0, s) == Digits(8, 0, s[1..])
  {
  }

  /** The value of a decimal number: 2^63 is the smallest number and anything above the largest, both with an error. */
  function FromDecimal(n: nat): Arith {
    if n < TWO63 then n else if n == TWO63 then ARITH_MIN else ARITH_MAX
  }

  /** A decimal number, which does not begin with a zero. */
  lemma DecimalReadsOn(n: nat, t: string)
    requires n > 0 && StopsDigits(10, t)
    ensures StrToArith(DecimalNat(n) + t) == Conversion(FromDecimal(n), n >= TWO63, t)
  {
    hide Digits, DecimalNat, Wrap;
    var d := DecimalNat(n);
    DecimalReadsBack(n);
    DigitsConcat(10, 0, d, t);
    NoMoreDigits(10, n, t);
    var s := d + t;
    assert s[0] == d[0];
    assert SkipSpace(s) == s;
    assert BaseOf(s) == 10 && ArithNumber.Magnitude(s) == (n, t);
    DecimalConversion(s, n, t);
  }

  lemma DecimalConversion(s: string, n: nat, t: string)
    requires SkipSpace(s) == s && s != "" && '1' <= s[0] <= '9' && ArithNumber.Magnitude(s) == (n, t)
    ensures StrToArith(s) == Conversion(FromDecimal(n), n >= TWO63, t)
  {
    hide ArithNumber.Magnitude;
  }

  /** A zero, which an x alone does not make hexadecimal. */
  lemma ZeroReadsOn(t: string)
    requires StopsDigits(8, t) && !(|t| > 1 && t[0] in "xX" && IsDigitOf(16, t[1]))
    ensures StrToArith("0" + t) == Conversion(0, false, t)
  {
    var s := "0" + t;
    assert s[1..] == t && SkipSpace(s) == s;
    ZeroFirst(s);
    NoMoreDigits(8, 0, t);
    assert BaseOf(s) == 8 && Wrap(0) == 0;
  }

  /** White space before a number does not matter. */
  lemma SpaceBeforeNumber(c: char, s: string)
    requires c in " \t\n\r" || c == '\U{0B}' || c == '\U{0C}'
    ensures StrToArith([c] + s) == StrToArith(s)
  {
    assert ([c] + s)[1..] == s;
    assert SkipSpace([c] + s) == SkipSpace(s);
  }

  /** A negative number, down to -2^63. */
  lemma NegativeReadsOn(n: nat, t: string)
    requires n > 0 && StopsDigits(10, t)
    ensures StrToArith("-" + DecimalNat(n) + t) == Conversion(if n <= TWO63 then 0 - n else ARITH_MIN, n > TWO63, t)
  {
    hide Digits, DecimalNat, Wrap;
    var d := DecimalNat(n);
    DecimalReadsBack(n);
    DigitsConcat(10, 0, d, t);
    NoMoreDigits(10, n, t);
    var s := "-" + d + t;
    assert s[1..] == d + t && s[1] == d[0];
    assert SkipSpace(s) == s;
    assert BaseOf(d + t) == 10 && ArithNumber.Magnitude(d + t) == (n, t);
  }

  // ----- number to text -----

  predicate AllDigits(s: string) {
    forall i :: 0 <= i < |s| ==> '0' <= s[i] <= '9'
  }

  lemma {:induction false} DigitsWritten(n: nat)
    ensures AllDigits(DecimalNat(n)) && (n > 0 ==> DecimalNat(n)[0] != '0')
    decreases n
  {
    if n >= 10 {
      DigitsWritten(n / 10);
      assert DecimalNat(n)[0] == DecimalNat(n / 10)[0];
    }
  }

  /** A value is written as a zero or as digits of which the first is not zero, behind a minus exactly if it is negative. */
  lemma DecimalForm(v: Arith)
    ensures v == 0 ==> Decimal(v) == "0"
    ensures v > 0 ==> AllDigits(Decimal(v)) && Decimal(v)[0] != '0'
    ensures v < 0 ==> Decimal(v)[0] == '-' && |Decimal(v)| > 1 && AllDigits(Decimal(v)[1..]) && Decimal(v)[1] != '0'
  {
    DigitsWritten(if v < 0 then 0 - v else v);
  }

  // ----- the operators by name -----

  /** The binary operators that have a name below. */
  predicate IsOperator(op: int) {
    || op == ARITH_MUL || op == ARITH_DIV || op == ARITH_REM || op == ARITH_ADD || op == ARITH_SUB
    || op == ARITH_LSHIFT || op == ARITH_RSHIFT || op == ARITH_LT || op == ARITH_LE || op == ARITH_GT || op == ARITH_GE
    || op == ARITH_EQ || op == ARITH_NE || op == ARITH_BAND || op == ARITH_BXOR || op == ARITH_BOR
  }

  /** The binary operators as they are written. */
  function OperatorText(op: int): (s: string)
    requires IsOperator(op)
    ensures 1 <= |s| <= 2
  {
    if op == ARITH_MUL then "*" else if op == ARITH_DIV then "/" else if op == ARITH_REM then "%"
    else if op == ARITH_ADD then "+" else if op == ARITH_SUB then "-"
    else if op == ARITH_LSHIFT then "<<" else if op == ARITH_RSHIFT then ">>"
    else if op == ARITH_LT then "<" else if op == ARITH_LE then "<="
    else if op == ARITH_GT then ">" else if op == ARITH_GE then ">="
    else if op == ARITH_EQ then "==" else if op == ARITH_NE then "!="
    else if op == ARITH_BAND then "&" else if op == ARITH_BXOR then "^" else "|"
  }

  /** How tightly an operator binds, by its name. */
  function Level(text: string): nat {
    if text == "*" || text == "/" || text == "%" then 0
    else if text == "+" || text == "-" then 1
    else if text == "<<" || text == ">>" then 2
    else if text == "<" || text == "<=" || text == ">" || text == ">=" then 3
    else if text == "==" || text == "!=" then 4
    else if text == "&" then 5
    else if text == "^" then 6
    else if text == "|" then 7
    else 8
  }

  /** What comes next does not make the operator longer. */
  predicate EndsOperator(t: string) {
    t != "" && t[0] !in "=<>|&+-"
  }

  lemma LexOperator(op: int, t: string)
    requires IsOperator(op) && EndsOperator(t)
    ensures Lex(OperatorText(op) + t) == (Sym(op), t)
    ensures StopsNumber(OperatorText(op) + t)
  {
    var s := OperatorText(op) + t;
    assert s[|OperatorText(op)|..] == t && s[|OperatorText(op)|] == t[0];
    assert SkipBlank(s) == s;
  }

  /** The error is not looked at where a number stands in an expression. */
  lemma LexNumber(n: nat, t: string)
    requires StopsNumber(t)
    ensures Lex(DecimalNat(n) + t) == (Num(FromDecimal(n)), t)
    ensures EndsOperator(DecimalNat(n) + t)
  {
    hide DecimalNat, StrToArith;
    DecimalReadsBack(n);
    var s := DecimalNat(n) + t;
    assert s[0] == DecimalNat(n)[0];
    assert SkipBlank(s) == s;
    if n > 0 {
      DecimalReadsOn(n, t);
    } else {
      DecimalOfZero();
      ZeroReadsOn(t);
    }
  }

  lemma DecimalOfZero()
    ensures DecimalNat(0) == "0"
  {
  }

  lemma TokensOf(s: string, tok: Token, t: string)
    requires Lex(s) == (tok, t) && tok != Sym(ARITH_END) && tok != Sym(ARITH_BAD)
    ensures Tokens(s) == [tok] + Tokens(t)
  {
  }

  lemma TokensOfNumber(n: nat)
    requires n < TWO63
    ensures Tokens(DecimalNat(n)) == [Num(n)]
  {
    hide DecimalNat, Lex;
    LexNumber(n, "");
    assert DecimalNat(n) + "" == DecimalNat(n);
    NoTokens();
  }

  lemma NoTokens()
    ensures Tokens("") == []
  {
  }

  lemma TokensOfOperand(n: nat, op: int, t: string)
    requires n < TWO63 && IsOperator(op) && EndsOperator(t)
    ensures Tokens(DecimalNat(n) + (OperatorText(op) + t)) == [Num(n), Sym(op)] + Tokens(t)
    ensures EndsOperator(DecimalNat(n) + (OperatorText(op) + t))
  {
    hide DecimalNat, Lex, OperatorText, Tokens;
    LexOperator(op, t);
    LexNumber(n, OperatorText(op) + t);
    TokensOf(OperatorText(op) + t, Sym(op), t);
    TokensOf(DecimalNat(n) + (OperatorText(op) + t), Num(n), OperatorText(op) + t);
    assert [Num(n)] + ([Sym(op)] + Tokens(t)) == [Num(n), Sym(op)] + Tokens(t);
  }

  lemma Accepted(e: Expr)
    requires IsAssignment(e) && Sym(ARITH_END) !in Yield(e)
    ensures ParseAll(Yield(e)) == Some(e)
  {
    ParserIsTheGrammar(Yield(e), e);
  }

  /** An operand that is a number. */
  predicate IsNumber(e: Expr) {
    e.Literal?
  }

  lemma NumberIsBinary(e: Expr, p: nat)
    requires IsNumber(e)
    ensures IsBinary(p, e)
  {
    assert IsPrimary(e);
  }

  lemma JoinIsBinary(op: int, l: Expr, r: Expr, p: nat)
    requires IsBinop(op) && Prec(op) < p && IsBinary(Prec(op) + 1, l) && IsBinary(Prec(op), r)
    ensures IsBinary(p, Binary(op, l, r))
  {
  }

  lemma BinaryTree(op: int, a: Expr, b: Expr)
    requires IsOperator(op) && IsNumber(a) && IsNumber(b)
    ensures ParseAll([Num(a.val), Sym(op)] + [Num(b.val)]) == Some(Binary(op, a, b))
  {
    hide ParseAll;
    var e := Binary(op, a, b);
    NumberIsBinary(a, Prec(op) + 1);
    NumberIsBinary(b, Prec(op));
    JoinIsBinary(op, a, b, ARITH_MAX_PREC);
    WholeBinary(e);
    Accepted(e);
    assert Yield(e) == [Num(a.val), Sym(op)] + [Num(b.val)];
  }

  lemma WholeBinary(e: Expr)
    requires IsBinary(ARITH_MAX_PREC, e)
    ensures IsAssignment(e)
  {
    hide IsBinary;
    assert IsAnd(e);
    assert IsOr(e);
    assert IsConditional(e);
  }

  lemma LeftTree(op1: int, op2: int, a: Expr, b: Expr, c: Expr)
    requires IsOperator(op1) && IsOperator(op2) && IsNumber(a) && IsNumber(b) && IsNumber(c) && Prec(op1) <= Prec(op2)
    ensures ParseAll([Num(a.val), Sym(op1), Num(b.val), Sym(op2), Num(c.val)]) == Some(Binary(op2, Binary(op1, a, b), c))
  {
    hide ParseAll;
    var l := Binary(op1, a, b);
    var e := Binary(op2, l, c);
    NumberIsBinary(a, Prec(op1) + 1);
    NumberIsBinary(b, Prec(op1));
    NumberIsBinary(c, Prec(op2));
    JoinIsBinary(op1, a, b, Prec(op2) + 1);
    JoinIsBinary(op2, l, c, ARITH_MAX_PREC);
    WholeBinary(e);
    YieldOfLeft(op1, op2, a, b, c);
    Accepted(e);
  }

  lemma YieldOfLeft(op1: int, op2: int, a: Expr, b: Expr, c: Expr)
    requires IsNumber(a) && IsNumber(b) && IsNumber(c)
    ensures Yield(Binary(op2, Binary(op1, a, b), c)) == [Num(a.val), Sym(op1), Num(b.val), Sym(op2), Num(c.val)]
    ensures Yield(Binary(op1, a, Binary(op2, b, c))) == [Num(a.val), Sym(op1), Num(b.val), Sym(op2), Num(c.val)]
  {
    var l, r := Binary(op1, a, b), Binary(op2, b, c);
    assert Yield(a) == [Num(a.val)] && Yield(b) == [Num(b.val)] && Yield(c) == [Num(c.val)];
    assert Yield(l) == [Num(a.val), Sym(op1), Num(b.val)] && Yield(r) == [Num(b.val), Sym(op2), Num(c.val)];
  }

  lemma RightTree(op1: int, op2: int, a: Expr, b: Expr, c: Expr)
    requires IsOperator(op1) && IsOperator(op2) && IsNumber(a) && IsNumber(b) && IsNumber(c) && Prec(op2) < Prec(op1)
    ensures ParseAll([Num(a.val), Sym(op1), Num(b.val), Sym(op2), Num(c.val)]) == Some(Binary(op1, a, Binary(op2, b, c)))
  {
    hide ParseAll;
    var r := Binary(op2, b, c);
    var e := Binary(op1, a, r);
    NumberIsBinary(a, Prec(op1) + 1);
    NumberIsBinary(b, Prec(op2) + 1);
    NumberIsBinary(c, Prec(op2));
    JoinIsBinary(op2, b, c, Prec(op1));
    JoinIsBinary(op1, a, r, ARITH_MAX_PREC);
    WholeBinary(e);
    YieldOfLeft(op1, op2, a, b, c);
    Accepted(e);
  }

  /** Two numbers with an operator between them are that operation on them. */
  lemma TextOfBinary(a: nat, op: int, b: nat)
    requires a < TWO63 && b < TWO63 && IsOperator(op)
    ensures ParseAll(Tokens(DecimalNat(a) + (OperatorText(op) + DecimalNat(b)))) == Some(Binary(op, Literal(a), Literal(b)))
  {
    hide DecimalNat, OperatorText, Tokens, ParseAll;
    LexNumber(b, "");
    assert DecimalNat(b) + "" == DecimalNat(b);
    TokensOfOperand(a, op, DecimalNat(b));
    TokensOfNumber(b);
    BinaryTree(op, Literal(a), Literal(b));
  }

  /** Of two operators in a row the tighter one binds first; equal ones group from the left. */
  lemma TextOfTwoBinaries(a: nat, op1: int, b: nat, op2: int, c: nat)
    requires a < TWO63 && b < TWO63 && c < TWO63 && IsOperator(op1) && IsOperator(op2)
    ensures ParseAll(Tokens(DecimalNat(a) + (OperatorText(op1) + (DecimalNat(b) + (OperatorText(op2) + DecimalNat(c)))))) ==
      Some(if Level(OperatorText(op2)) < Level(OperatorText(op1))
           then Binary(op1, Literal(a), Binary(op2, Literal(b), Literal(c)))
           else Binary(op2, Binary(op1, Literal(a), Literal(b)), Literal(c)))
  {
    LevelIsPrec(op1);
    LevelIsPrec(op2);
    hide DecimalNat, OperatorText, Level, Tokens, ParseAll, Prec;
    LexNumber(c, "");
    assert DecimalNat(c) + "" == DecimalNat(c);
    TokensOfOperand(b, op2, DecimalNat(c));
    TokensOfOperand(a, op1, DecimalNat(b) + (OperatorText(op2) + DecimalNat(c)));
    TokensOfNumber(c);
    var ts := [Num(a), Sym(op1), Num(b), Sym(op2), Num(c)];
    assert [Num(a), Sym(op1)] + ([Num(b), Sym(op2)] + [Num(c)]) == ts;
    if Prec(op2) < Prec(op1) {
      RightTree(op1, op2, Literal(a), Literal(b), Literal(c));
    } else {
      LeftTree(op1, op2, Literal(a), Literal(b), Literal(c));
    }
  }

  lemma LevelIsPrec(op: int)
    requires IsOperator(op)
    ensures Level(OperatorText(op)) == Prec(op)
  {
  }

  // ----- the other operators -----

  predicate CanAssign(op: int) {
    op == ARITH_MUL || op == ARITH_DIV || op == ARITH_REM || op == ARITH_ADD || op == ARITH_SUB || op == ARITH_LSHIFT
    || op == ARITH_RSHIFT || op == ARITH_BAND || op == ARITH_BXOR || op == ARITH_BOR
  }

  /** The other operators as they are written. */
  function SymbolText(code: int): (s: string)
    ensures 0 <= |s| <= 2
  {
    if code == ARITH_AND then "&&" else if code == ARITH_OR then "||" else if code == ARITH_QMARK then "?"
    else if code == ARITH_COLON then ":" else if code == ARITH_LPAREN then "(" else if code == ARITH_RPAREN then ")"
    else if code == ARITH_BNOT then "~" else if code == ARITH_NOT then "!" else if code == ARITH_ASS then "=" else ""
  }

  lemma LexSymbol(code: int, t: string)
    requires SymbolText(code) != ""
    requires code == ARITH_NOT || code == ARITH_ASS ==> t == "" || t[0] != '='
    ensures Lex(SymbolText(code) + t) == (Sym(code), t)
  {
    var name := SymbolText(code);
    var s := name + t;
    assert s[0] == name[0] && s[|name|..] == t;
    assert At(s, 1) == if |name| == 2 then name[1] else At(t, 0);
    assert SkipBlank(s) == s;
  }

  /** The compound assignments. */
  lemma CompoundOperators(op: int, t: string)
    requires CanAssign(op)
    ensures IsBinop(op) && Lex(OperatorText(op) + "=" + t) == (Sym(op + 11), t) && IsAssignOp(op + 11)
  {
    var s := OperatorText(op) + "=" + t;
    assert s[|OperatorText(op)|] == '=' && s[|OperatorText(op)| + 1..] == t;
    assert SkipBlank(s) == s;
  }

  /** Only `=` and the ten compound operators assign; in particular no parenthesis does. */
  lemma WhatAssigns(x: string, code: int, v: Arith)
    requires code != ARITH_END
    ensures ParseAll([Var(x), Sym(code), Num(v)]) == Some(Assign(x, code, Literal(v))) <==>
      code == ARITH_ASS || CanAssign(code - 11)
  {
    var e, ts := Assign(x, code, Literal(v)), [Var(x), Sym(code), Num(v)];
    NumberIsAnd(Literal(v));
    assert !IsPrimary(e);
    assert !IsBinary(ARITH_MAX_PREC, e);
    assert !IsAnd(e);
    assert !IsOr(e);
    assert !IsConditional(e);
    assert IsAssignment(e) <==> IsAssignOp(code);
    assert Yield(e) == ts;
    ParserIsTheGrammar(ts, e);
  }

  /** A name goes as far as it can, and blanks between tokens do not matter. */
  lemma NamesAndBlanks(x: string, t: string, c: char)
    requires IsIdentifier(x) && (t == "" || !IsWordByte(t[0]))
    ensures Lex(x + t) == (Var(x), t)
    ensures c in " \t\n" ==> Tokens([c] + t) == Tokens(t)
  {
    IdentifierBytes(x);
    if t != "" {
      WordBytes(t[0]);
    }
    hide IsIdentifier, IsWordByte, Lex, Tokens;
    LexName(x, t);
    if c in " \t\n" {
      BlankBefore(c, t);
    }
  }

  lemma BlankBefore(c: char, t: string)
    requires IsBlank(c)
    ensures Tokens([c] + t) == Tokens(t)
  {
    assert ([c] + t)[1..] == t;
  }

  lemma IdentifierBytes(x: string)
    requires IsIdentifier(x)
    ensures IsNameStart(x[0]) && forall i :: 0 <= i < |x| ==> IsInName(x[i])
  {
    forall i | 0 <= i < |x|
      ensures IsInName(x[i]) && (x[i] in DIGIT <==> '0' <= x[i] <= '9')
    {
      WordBytes(x[i]);
    }
  }

  lemma LexName(x: string, t: string)
    requires x != "" && IsNameStart(x[0]) && (forall i :: 0 <= i < |x| ==> IsInName(x[i])) && (t == "" || !IsInName(t[0]))
    ensures Lex(x + t) == (Var(x), t)
  {
    var s := x + t;
    assert s[0] == x[0] && s[|x|..] == t && s[..|x|] == x;
    assert forall i :: 0 <= i < |x| ==> s[i] == x[i];
    assert NameLen(s) == |x| by {
      assert |x| < |s| ==> s[|x|] == t[0];
    }
    assert SkipBlank(s) == s;
  }

  // ----- trees of the looser operators -----

  lemma NumberIsAnd(e: Expr)
    requires IsNumber(e)
    ensures IsAnd(e) && IsOr(e) && IsConditional(e) && IsAssignment(e)
  {
    NumberIsBinary(e, ARITH_MAX_PREC);
    WholeBinary(e);
  }

  lemma JoinAnd(l: Expr, r: Expr)
    requires IsBinary(ARITH_MAX_PREC, l) && IsAnd(r)
    ensures IsAnd(And(l, r)) && Yield(And(l, r)) == Yield(l) + [Sym(ARITH_AND)] + Yield(r)
  {
  }

  lemma JoinOr(l: Expr, r: Expr)
    requires IsAnd(l) && IsOr(r)
    ensures IsOr(Or(l, r)) && Yield(Or(l, r)) == Yield(l) + [Sym(ARITH_OR)] + Yield(r)
  {
  }

  lemma Loosest(e: Expr)
    ensures IsAnd(e) ==> IsOr(e)
    ensures IsOr(e) ==> IsConditional(e)
    ensures IsConditional(e) ==> IsAssignment(e)
  {
  }

  /** && binds tighter than the or operator, whatever the order. */
  lemma AndBeforeOr(a: Arith, b: Arith, c: Arith)
    ensures ParseAll([Num(a), Sym(ARITH_AND), Num(b), Sym(ARITH_OR), Num(c)]) == Some(Or(And(Literal(a), Literal(b)), Literal(c)))
    ensures ParseAll([Num(a), Sym(ARITH_OR), Num(b), Sym(ARITH_AND), Num(c)]) == Some(Or(Literal(a), And(Literal(b), Literal(c))))
  {
    hide ParseAll, IsAnd, IsOr, IsConditional, IsAssignment;
    var x, y, z := Literal(a), Literal(b), Literal(c);
    NumberIsBinary(x, ARITH_MAX_PREC);
    NumberIsBinary(y, ARITH_MAX_PREC);
    NumberIsAnd(x);
    NumberIsAnd(y);
    NumberIsAnd(z);
    JoinAnd(x, y);
    JoinAnd(y, z);
    Loosest(And(y, z));
    JoinOr(And(x, y), z);
    JoinOr(x, And(y, z));
    WholeOr(Or(And(x, y), z), [Num(a), Sym(ARITH_AND), Num(b), Sym(ARITH_OR), Num(c)]);
    WholeOr(Or(x, And(y, z)), [Num(a), Sym(ARITH_OR), Num(b), Sym(ARITH_AND), Num(c)]);
  }

  lemma WholeOr(e: Expr, ts: seq<Token>)
    requires IsOr(e) && Yield(e) == ts && Sym(ARITH_END) !in ts
    ensures ParseAll(ts) == Some(e)
  {
    hide ParseAll, IsOr, IsConditional, IsAssignment;
    Loosest(e);
    Accepted(e);
  }

  /** && binds looser than every binary operator. */
  lemma BinaryBeforeAnd(a: Arith, op: int, b: Arith, c: Arith)
    requires IsOperator(op)
    ensures ParseAll([Num(a), Sym(op), Num(b), Sym(ARITH_AND), Num(c)]) == Some(And(Binary(op, Literal(a), Literal(b)), Literal(c)))
    ensures ParseAll([Num(a), Sym(ARITH_AND), Num(b), Sym(op), Num(c)]) == Some(And(Literal(a), Binary(op, Literal(b), Literal(c))))
  {
    hide ParseAll, IsAnd, IsOr, IsConditional, IsAssignment;
    var x, y, z := Literal(a), Literal(b), Literal(c);
    SimpleBinary(op, x, y);
    SimpleBinary(op, y, z);
    NumberIsBinary(x, ARITH_MAX_PREC);
    NumberIsAnd(z);
    JoinAnd(Binary(op, x, y), z);
    JoinAnd(x, Binary(op, y, z));
    Loosest(And(Binary(op, x, y), z));
    Loosest(And(x, Binary(op, y, z)));
    WholeOr(And(Binary(op, x, y), z), [Num(a), Sym(op), Num(b), Sym(ARITH_AND), Num(c)]);
    WholeOr(And(x, Binary(op, y, z)), [Num(a), Sym(ARITH_AND), Num(b), Sym(op), Num(c)]);
  }

  lemma SimpleBinary(op: int, a: Expr, b: Expr)
    requires IsOperator(op) && IsNumber(a) && IsNumber(b)
    ensures var e := Binary(op, a, b); IsBinary(ARITH_MAX_PREC, e) && IsAnd(e) && Yield(e) == Yield(a) + [Sym(op)] + Yield(b)
  {
    NumberIsBinary(a, Prec(op) + 1);
    NumberIsBinary(b, Prec(op));
    JoinIsBinary(op, a, b, ARITH_MAX_PREC);
  }

  /** A unary operator binds tighter than every binary one, and parentheses bind tightest. */
  lemma UnaryBeforeBinary(u: int, a: Arith, op: int, b: Arith)
    requires IsOperator(op) && (u == ARITH_ADD || u == ARITH_SUB || u == ARITH_NOT || u == ARITH_BNOT)
    ensures ParseAll([Sym(u), Num(a), Sym(op), Num(b)]) == Some(Binary(op, Unary(u, Literal(a)), Literal(b)))
    ensures ParseAll([Sym(u), Sym(ARITH_LPAREN), Num(a), Sym(op), Num(b), Sym(ARITH_RPAREN)])
         == Some(Unary(u, Paren(Binary(op, Literal(a), Literal(b)))))
  {
    hide ParseAll;
    var x, y := Literal(a), Literal(b);
    var ux := Unary(u, x);
    var e := Binary(op, ux, y);
    assert IsPrimary(x);
    assert IsPrimary(ux);
    assert IsBinary(Prec(op) + 1, ux);
    NumberIsBinary(y, Prec(op));
    JoinIsBinary(op, ux, y, ARITH_MAX_PREC);
    WholeBinary(e);
    assert Yield(ux) == [Sym(u), Num(a)];
    assert Yield(e) == [Sym(u), Num(a), Sym(op), Num(b)];
    Accepted(e);
    UnaryOfParen(u, op, x, y);
  }

  lemma UnaryOfParen(u: int, op: int, x: Expr, y: Expr)
    requires IsOperator(op) && IsUnaryOp(u) && IsNumber(x) && IsNumber(y)
    ensures ParseAll([Sym(u), Sym(ARITH_LPAREN), Num(x.val), Sym(op), Num(y.val), Sym(ARITH_RPAREN)]) == Some(Unary(u, Paren(Binary(op, x, y))))
  {
    hide ParseAll;
    var b := Binary(op, x, y);
    SimpleBinary(op, x, y);
    WholeBinary(b);
    var e := Unary(u, Paren(b));
    assert IsPrimary(Paren(b));
    assert IsPrimary(e);
    assert IsBinary(ARITH_MAX_PREC, e);
    WholeBinary(e);
    var inside := [Num(x.val), Sym(op), Num(y.val)];
    assert Yield(Paren(b)) == [Sym(ARITH_LPAREN)] + inside + [Sym(ARITH_RPAREN)];
    assert Yield(e) == [Sym(u), Sym(ARITH_LPAREN), Num(x.val), Sym(op), Num(y.val), Sym(ARITH_RPAREN)];
    Accepted(e);
  }

  /** The conditional operator groups from the right and binds looser than the or operator. */
  lemma ConditionalFromTheRight(a: Arith, b: Arith, c: Arith, d: Arith, e: Arith)
    ensures ParseAll([Num(a), Sym(ARITH_QMARK), Num(b), Sym(ARITH_COLON), Num(c), Sym(ARITH_QMARK), Num(d), Sym(ARITH_COLON), Num(e)])
         == Some(Cond(Literal(a), Literal(b), Cond(Literal(c), Literal(d), Literal(e))))
    ensures ParseAll([Num(a), Sym(ARITH_OR), Num(b), Sym(ARITH_QMARK), Num(c), Sym(ARITH_COLON), Num(d)])
         == Some(Cond(Or(Literal(a), Literal(b)), Literal(c), Literal(d)))
  {
    hide ParseAll, IsAnd, IsOr, IsConditional, IsAssignment;
    var x, y, z, v, w := Literal(a), Literal(b), Literal(c), Literal(d), Literal(e);
    NumberIsAnd(x);
    NumberIsAnd(y);
    NumberIsAnd(z);
    NumberIsAnd(v);
    NumberIsAnd(w);
    JoinCond(z, v, w);
    JoinCond(x, y, Cond(z, v, w));
    JoinOr(x, y);
    JoinCond(Or(x, y), z, v);
    WholeCond(Cond(x, y, Cond(z, v, w)),
              [Num(a), Sym(ARITH_QMARK), Num(b), Sym(ARITH_COLON), Num(c), Sym(ARITH_QMARK), Num(d), Sym(ARITH_COLON), Num(e)]);
    WholeCond(Cond(Or(x, y), z, v), [Num(a), Sym(ARITH_OR), Num(b), Sym(ARITH_QMARK), Num(c), Sym(ARITH_COLON), Num(d)]);
  }

  lemma JoinCond(c: Expr, a: Expr, b: Expr)
    requires IsOr(c) && IsAssignment(a) && IsConditional(b)
    ensures IsConditional(Cond(c, a, b))
    ensures Yield(Cond(c, a, b)) == Yield(c) + [Sym(ARITH_QMARK)] + Yield(a) + [Sym(ARITH_COLON)] + Yield(b)
  {
  }

  lemma WholeCond(e: Expr, ts: seq<Token>)
    requires IsConditional(e) && Yield(e) == ts && Sym(ARITH_END) !in ts
    ensures ParseAll(ts) == Some(e)
  {
    hide ParseAll, IsConditional, IsAssignment;
    Loosest(e);
    Accepted(e);
  }

  /** Assignments group from the right and bind loosest. */
  lemma AssignmentFromTheRight(x: string, y: string, op: int, a: Arith, b: Arith)
    requires IsAssignOp(op)
    ensures ParseAll([Var(x), Sym(op), Var(y), Sym(ARITH_ASS), Num(a), Sym(ARITH_OR), Num(b)])
         == Some(Assign(x, op, Assign(y, ARITH_ASS, Or(Literal(a), Literal(b)))))
  {
    hide ParseAll, IsAnd, IsOr, IsConditional;
    NumberIsAnd(Literal(a));
    NumberIsAnd(Literal(b));
    JoinOr(Literal(a), Literal(b));
    var r := Or(Literal(a), Literal(b));
    Loosest(r);
    var e := Assign(x, op, Assign(y, ARITH_ASS, r));
    assert IsAssignment(Assign(y, ARITH_ASS, r));
    assert Yield(Assign(y, ARITH_ASS, r)) == [Var(y), Sym(ARITH_ASS)] + Yield(r);
    assert Yield(e) == [Var(x), Sym(op), Var(y), Sym(ARITH_ASS), Num(a), Sym(ARITH_OR), Num(b)];
    Accepted(e);
  }

  // ----- lazy evaluation -----

  /** The right operand of && and of the or operator is evaluated only if it matters, and the value is 0 or 1. */
  lemma ShortCircuits(l: Arith, r: Expr, env: Env)
    ensures Eval(And(Literal(0), r), env) == Value(0, env)
    ensures l != 0 ==> Eval(Or(Literal(l), r), env) == Value(1, env)
    ensures l != 0 ==> Eval(And(Literal(l), r), env) == Eval(Or(Literal(0), r), env)
    ensures match Eval(r, env)
            case Error => Eval(Or(Literal(0), r), env).Error?
            case Value(v, after) => Eval(Or(Literal(0), r), env) == Value(if v == 0 then 0 else 1, after)
  {
  }

  /** Only one branch of the conditional operator is evaluated. */
  lemma OneBranch(c: Arith, a: Expr, b: Expr, env: Env)
    ensures Eval(Cond(Literal(c), a, b), env) == Eval(if c == 0 then b else a, env)
  {
  }

  /** The left operand is evaluated before the right one, whose effects it does not see. */
  lemma LeftBeforeRight(x: string, v: Arith, op: int, env: Env)
    requires x !in env.readonly
    ensures var after := env.(vars := env.vars[x := Decimal(v)]);
      && Eval(Binary(op, Assign(x, ARITH_ASS, Literal(v)), Variable(x)), env) == Eval(Binary(op, Literal(v), Literal(v)), after)
      && match Eval(Variable(x), env)
         case Error => Eval(Binary(op, Variable(x), Assign(x, ARITH_ASS, Literal(v))), env).Error?
         case Value(w, _) => Eval(Binary(op, Variable(x), Assign(x, ARITH_ASS, Literal(v))), env) == Eval(Binary(op, Literal(w), Literal(v)), after)
  {
    hide Decimal, DoBinop, Lookup;
    AssignedValueReadsBack(env, x, v);
    var a := Assign(x, ARITH_ASS, Literal(v));
    EvalBinary(op, a, Variable(x), env);
    EvalBinary(op, Variable(x), a, env);
    var after := env.(vars := env.vars[x := Decimal(v)]);
    assert Eval(a, env) == Value(v, after);
    EvalBinary(op, Literal(v), Literal(v), after);
    if Eval(Variable(x), env).Value? {
      EvalBinary(op, Literal(Eval(Variable(x), env).v), Literal(v), after);
    }
  }

  /** A compound assignment evaluates its right side first, and only then its variable. */
  lemma CompoundIsBinary(x: string, op: int, e: Expr, env: Env)
    requires CanAssign(op)
    ensures match Eval(e, env)
            case Error => Eval(Assign(x, op + 11, e), env).Error?
            case Value(v, after) =>
              Eval(Assign(x, op + 11, e), env) == Eval(Assign(x, ARITH_ASS, Binary(op, Variable(x), Literal(v))), after)
  {
    hide DoBinop, Lookup, Store;
    match Eval(e, env)
    case Error =>
    case Value(v, after) =>
      EvalBinary(op, Variable(x), Literal(v), after);
      assert op + 11 - 11 == op && op + 11 != ARITH_ASS;
      assert Eval(Assign(x, op + 11, e), env) == AssignTo(x, op + 11, v, after);
  }

  /** An assignment has the value assigned and changes no other variable; it fails for a readonly name only. */
  lemma AssignmentChangesOne(x: string, v: Arith, env: Env)
    ensures var r := Eval(Assign(x, ARITH_ASS, Literal(v)), env);
      if x in env.readonly then r.Error?
      else
        && r.Value? && r.v == v && r.env.readonly == env.readonly && r.env.uflag == env.uflag
        && Eval(Variable(x), r.env) == Value(v, r.env)
        && (forall y :: y != x ==> (y in r.env.vars <==> y in env.vars))
        && (forall y :: y != x && y in env.vars ==> r.env.vars[y] == env.vars[y])
  {
    hide Decimal;
    AssignedValueReadsBack(env, x, v);
  }

  predicate AllBlank(s: string) {
    forall i :: 0 <= i < |s| ==> s[i] in " \t\n\r" || s[i] == '\U{0B}' || s[i] == '\U{0C}'
  }

  lemma {:induction false} BlanksSkipped(s: string)
    requires AllBlank(s)
    ensures SkipSpace(s) == ""
    decreases |s|
  {
    if s != "" {
      BlanksSkipped(s[1..]);
    }
  }

  /** An unset, empty or blank variable is 0, unless it is unset and -u is on; a text that is no number is an error. */
  lemma VariableValues(x: string, env: Env)
    ensures x !in env.vars ==> (if env.uflag then Eval(Variable(x), env).Error? else Eval(Variable(x), env) == Value(0, env))
    ensures x in env.vars && env.vars[x] == "" ==> Eval(Variable(x), env) == Value(0, env)
    ensures x in env.vars && env.vars[x] != "" && !(env.vars[x][0] in " \t\n\r+-0123456789" || '\t' <= env.vars[x][0] <= '\r') ==>
      Eval(Variable(x), env).Error?
    ensures x in env.vars && AllBlank(env.vars[x]) ==> Eval(Variable(x), env) == Value(0, env)
  {
    if x in env.vars && AllBlank(env.vars[x]) {
      BlanksSkipped(env.vars[x]);
    }
    assert StrToArith("0") == Conversion(0, false, "") by {
      ZeroReadsOn("");
      assert "0" + "" == "0";
    }
  }
}
