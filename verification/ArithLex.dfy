/** yylex of src/arith_yylex.c: the tokens of an arithmetic expression. */
module ArithLex {
  import opened ArithNumber

  const ARITH_END := 0
  const ARITH_ASS := 1
  const ARITH_OR := 2
  const ARITH_AND := 3
  const ARITH_BAD := 4
  const ARITH_NUM := 5
  const ARITH_VAR := 6
  const ARITH_NOT := 7
  const ARITH_BINOP_MIN := 8
  const ARITH_BINOP_MAX := 24
  const ARITH_ASS_MIN := 24
  const ARITH_ASS_MAX := 34
  const ARITH_LPAREN := 34
  const ARITH_RPAREN := 35
  const ARITH_BNOT := 36
  const ARITH_QMARK := 37
  const ARITH_COLON := 38

  /** A token with the value yylval has when yylex returns it. */
  datatype Token = Num(val: Arith) | Var(name: string) | Sym(code: int)

  predicate IsBlank(c: char) {
    c == ' ' || c == '\t' || c == '\n'
  }

  predicate IsNameStart(c: char) {
    'A' <= c <= 'Z' || 'a' <= c <= 'z' || c == '_'
  }

  predicate IsInName(c: char) {
    IsNameStart(c) || '0' <= c <= '9'
  }

  function NameLen(s: string): (n: nat)
    ensures n <= |s| && (forall i :: 0 <= i < n ==> IsInName(s[i])) && (n < |s| ==> !IsInName(s[n]))
  {
    if s != "" && IsInName(s[0]) then 1 + NameLen(s[1..]) else 0
  }

  function SkipBlank(s: string): (r: string)
    ensures |r| <= |s| && (r != "" ==> !IsBlank(r[0]))
  {
    if s != "" && IsBlank(s[0]) then SkipBlank(s[1..]) else s
  }

  function At(s: string, i: nat): char {
    if i < |s| then s[i] else '\0'
  }

  /** The label checkeqcur: an '=' after `n` bytes turns an operator into its assignment. */
  function CheckEq(s: string, code: int, n: nat): (int, nat) {
    if At(s, n) == '=' then (code + 11, n + 1) else (code, n)
  }

  /** The operator at the front of `s` and its length. */
  function LexSym(s: string): (int, nat)
    requires s != ""
  {
    var c, d := s[0], At(s, 1);
    if c == '=' then CheckEq(s, ARITH_ASS, 1)
    else if c == '>' then
      if d == '=' then (ARITH_GE, 2) else if d == '>' then CheckEq(s, ARITH_RSHIFT, 2) else (ARITH_GT, 1)
    else if c == '<' then
      if d == '=' then (ARITH_LE, 2) else if d == '<' then CheckEq(s, ARITH_LSHIFT, 2) else (ARITH_LT, 1)
    else if c == '|' then if d != '|' then CheckEq(s, ARITH_BOR, 1) else (ARITH_OR, 2)
    else if c == '&' then if d != '&' then CheckEq(s, ARITH_BAND, 1) else (ARITH_AND, 2)
    else if c == '!' then if d != '=' then (ARITH_NOT, 1) else (ARITH_NE, 2)
    else if c == '(' then (ARITH_LPAREN, 1)
    else if c == ')' then (ARITH_RPAREN, 1)
    else if c == '*' then CheckEq(s, ARITH_MUL, 1)
    else if c == '/' then CheckEq(s, ARITH_DIV, 1)
    else if c == '%' then CheckEq(s, ARITH_REM, 1)
    else if c == '+' then if d == '+' then (ARITH_BAD, 0) else CheckEq(s, ARITH_ADD, 1)
    else if c == '-' then if d == '-' then (ARITH_BAD, 0) else CheckEq(s, ARITH_SUB, 1)
    else if c == '~' then (ARITH_BNOT, 1)
    else if c == '^' then CheckEq(s, ARITH_BXOR, 1)
    else if c == '?' then (ARITH_QMARK, 1)
    else if c == ':' then (ARITH_COLON, 1)
    else (ARITH_BAD, 0)
  }

  /** One call of yylex: the token and where arith_buf points afterwards.  At the end and
      before a byte that starts no token it does not move past what it has seen. */
  function Lex(buf: string): (r: (Token, string))
    ensures |r.1| <= |buf|
    ensures r.0 == Sym(ARITH_BAD) ==> r.1 == buf
    ensures r.0 != Sym(ARITH_BAD) && r.0 != Sym(ARITH_END) ==> |r.1| < |buf|
    ensures r.0 == Sym(ARITH_END) ==> r.1 == ""
    ensures r.0.Sym? ==> r.0.code != ARITH_NUM && r.0.code != ARITH_VAR
  {
    var s := SkipBlank(buf);
    if s == "" then (Sym(ARITH_END), "")
    else if '0' <= s[0] <= '9' then
      NumberAdvances(s);
      var c := StrToArith(s);
      (Num(c.val), c.rest)
    else if IsNameStart(s[0]) then (Var(s[..NameLen(s)]), s[NameLen(s)..])
    else
      var (code, n) := LexSym(s);
      if code == ARITH_BAD then (Sym(ARITH_BAD), buf) else (Sym(code), s[n..])
  }

  lemma NumberAdvances(s: string)
    requires s != "" && '0' <= s[0] <= '9'
    ensures |StrToArith(s).rest| < |s|
  {
    var base := BaseOf(s);
    assert SkipSpace(s) == s;
    if base != 16 {
      assert DigitValue(s[0]) < base;
    }
  }

  /** The tokens yylex will return.  It returns ARITH_BAD for ever once it meets a byte
      that starts no token, and the end for ever after the last token. */
  function Tokens(buf: string): seq<Token>
    decreases |buf|
  {
    var (t, rest) := Lex(buf);
    if t == Sym(ARITH_END) then [] else if t == Sym(ARITH_BAD) then [t] else [t] + Tokens(rest)
  }

  function Head(ts: seq<Token>): Token {
    if ts == [] then Sym(ARITH_END) else ts[0]
  }

  function Tail(ts: seq<Token>): (r: seq<Token>)
    ensures |r| <= |ts|
  {
    if ts == [] then [] else if ts[0] == Sym(ARITH_BAD) then ts else ts[1..]
  }

  lemma LexIsNext(buf: string)
    ensures Lex(buf).0 == Head(Tokens(buf)) && Tokens(Lex(buf).1) == Tail(Tokens(buf))
  {
  }

  // ----- maximal munch -----

  /** How an operator is written: one to three characters. */
  datatype Spelling = Spelling(len: nat, c0: char, c1: char, c2: char)

  function SpellingOf(code: int): Spelling {
    if code == ARITH_ASS then Spelling(1, '=', '\0', '\0')
    else if code == ARITH_OR then Spelling(2, '|', '|', '\0')
    else if code == ARITH_AND then Spelling(2, '&', '&', '\0')
    else if code == ARITH_NOT then Spelling(1, '!', '\0', '\0')
    else if code == ARITH_LE then Spelling(2, '<', '=', '\0')
    else if code == ARITH_GE then Spelling(2, '>', '=', '\0')
    else if code == ARITH_LT then Spelling(1, '<', '\0', '\0')
    else if code == ARITH_GT then Spelling(1, '>', '\0', '\0')
    else if code == ARITH_EQ then Spelling(2, '=', '=', '\0')
    else if code == ARITH_REM then Spelling(1, '%', '\0', '\0')
    else if code == ARITH_BAND then Spelling(1, '&', '\0', '\0')
    else if code == ARITH_LSHIFT then Spelling(2, '<', '<', '\0')
    else if code == ARITH_RSHIFT then Spelling(2, '>', '>', '\0')
    else if code == ARITH_MUL then Spelling(1, '*', '\0', '\0')
    else if code == ARITH_ADD then Spelling(1, '+', '\0', '\0')
    else if code == ARITH_BOR then Spelling(1, '|', '\0', '\0')
    else if code == ARITH_SUB then Spelling(1, '-', '\0', '\0')
    else if code == ARITH_BXOR then Spelling(1, '^', '\0', '\0')
    else if code == ARITH_DIV then Spelling(1, '/', '\0', '\0')
    else if code == ARITH_NE then Spelling(2, '!', '=', '\0')
    else if code == ARITH_REM + 11 then Spelling(2, '%', '=', '\0')
    else if code == ARITH_BAND + 11 then Spelling(2, '&', '=', '\0')
    else if code == ARITH_LSHIFT + 11 then Spelling(3, '<', '<', '=')
    else if code == ARITH_RSHIFT + 11 then Spelling(3, '>', '>', '=')
    else if code == ARITH_MUL + 11 then Spelling(2, '*', '=', '\0')
    else if code == ARITH_ADD + 11 then Spelling(2, '+', '=', '\0')
    else if code == ARITH_BOR + 11 then Spelling(2, '|', '=', '\0')
    else if code == ARITH_SUB + 11 then Spelling(2, '-', '=', '\0')
    else if code == ARITH_BXOR + 11 then Spelling(2, '^', '=', '\0')
    else if code == ARITH_DIV + 11 then Spelling(2, '/', '=', '\0')
    else if code == ARITH_LPAREN then Spelling(1, '(', '\0', '\0')
    else if code == ARITH_RPAREN then Spelling(1, ')', '\0', '\0')
    else if code == ARITH_BNOT then Spelling(1, '~', '\0', '\0')
    else if code == ARITH_QMARK then Spelling(1, '?', '\0', '\0')
    else if code == ARITH_COLON then Spelling(1, ':', '\0', '\0')
    else Spelling(0, '\0', '\0', '\0')
  }

  predicate StartsWith(s: string, w: Spelling) {
    && 1 <= w.len <= |s| && s[0] == w.c0
    && (w.len >= 2 ==> At(s, 1) == w.c1) && (w.len >= 3 ==> At(s, 2) == w.c2)
  }

  predicate IsOperator(s: string, code: int) {
    StartsWith(s, SpellingOf(code))
  }

  predicate IsDoubled(s: string) {
    s != "" && (s[0] == '+' || s[0] == '-') && At(s, 1) == s[0]
  }

  lemma FoundIsOperator(s: string)
    requires s != "" && '\0' !in s && LexSym(s).0 != ARITH_BAD
    ensures IsOperator(s, LexSym(s).0) && SpellingOf(LexSym(s).0).len == LexSym(s).1
  {
  }

  lemma OtherIsShorter(s: string, other: int)
    requires s != "" && '\0' !in s && IsOperator(s, other)
    ensures LexSym(s).0 == ARITH_BAD ==> IsDoubled(s)
    ensures LexSym(s).0 != ARITH_BAD ==> SpellingOf(other).len <= LexSym(s).1
  {
  }

  /** An operator token is the longest spelling at the front of the text; there is none
      exactly when no spelling starts the text or it starts with "++" or "--". */
  lemma LongestOperator(s: string)
    requires s != "" && '\0' !in s
    ensures LexSym(s).0 == ARITH_BAD <==> IsDoubled(s) || !(exists code :: IsOperator(s, code))
    ensures LexSym(s).0 != ARITH_BAD ==>
      var (code, n) := LexSym(s);
      IsOperator(s, code) && SpellingOf(code).len == n
      && forall other :: IsOperator(s, other) ==> SpellingOf(other).len <= n
  {
    assert IsDoubled(s) ==> LexSym(s).0 == ARITH_BAD;
    hide LexSym, SpellingOf;
    if LexSym(s).0 != ARITH_BAD {
      FoundIsOperator(s);
    }
    forall other | IsOperator(s, other)
      ensures LexSym(s).0 == ARITH_BAD ==> IsDoubled(s)
      ensures LexSym(s).0 != ARITH_BAD ==> SpellingOf(other).len <= LexSym(s).1
    {
      OtherIsShorter(s, other);
    }
  }
}
