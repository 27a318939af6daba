/** The grammar of arithmetic expressions and the precedence-climbing parser of
    src/arith_yacc.c as a function on tokens, with the proof that they agree. */
module ArithGrammar {
  import opened Wrappers
  import opened ArithNumber
  import opened ArithLex

  // ----- the grammar -----

  datatype Expr =
    | Literal(val: Arith)
    | Variable(name: string)
    | Paren(e: Expr)
    | Unary(uop: int, e: Expr)
    | Binary(op: int, l: Expr, r: Expr)
    | And(l: Expr, r: Expr)
    | Or(l: Expr, r: Expr)
    | Cond(c: Expr, a: Expr, b: Expr)
    | Assign(name: string, aop: int, e: Expr)

  predicate IsUnaryOp(op: int) {
    op == ARITH_ADD || op == ARITH_SUB || op == ARITH_NOT || op == ARITH_BNOT
  }

  predicate IsBinop(op: int) {
    ARITH_BINOP_MIN <= op < ARITH_BINOP_MAX
  }

  predicate IsAssignOp(op: int) {
    op == ARITH_ASS || ARITH_ASS_MIN <= op < ARITH_ASS_MAX
  }

  const ARITH_MAX_PREC := 8

  /** The table prec: the level of a binary operator, tightest first. */
  function Prec(op: int): (p: nat)
    ensures IsBinop(op) ==> p < ARITH_MAX_PREC
  {
    if op == ARITH_MUL || op == ARITH_DIV || op == ARITH_REM then 0
    else if op == ARITH_ADD || op == ARITH_SUB then 1
    else if op == ARITH_LSHIFT || op == ARITH_RSHIFT then 2
    else if op == ARITH_LT || op == ARITH_LE || op == ARITH_GT || op == ARITH_GE then 3
    else if op == ARITH_EQ || op == ARITH_NE then 4
    else if op == ARITH_BAND then 5
    else if op == ARITH_BXOR then 6
    else if op == ARITH_BOR then 7
    else 8
  }

  /** The tokens an expression is written with. */
  function Yield(e: Expr): seq<Token> {
    match e
    case Literal(v) => [Num(v)]
    case Variable(x) => [Var(x)]
    case Paren(e) => [Sym(ARITH_LPAREN)] + Yield(e) + [Sym(ARITH_RPAREN)]
    case Unary(op, e) => [Sym(op)] + Yield(e)
    case Binary(op, l, r) => Yield(l) + [Sym(op)] + Yield(r)
    case And(l, r) => Yield(l) + [Sym(ARITH_AND)] + Yield(r)
    case Or(l, r) => Yield(l) + [Sym(ARITH_OR)] + Yield(r)
    case Cond(c, a, b) => Yield(c) + [Sym(ARITH_QMARK)] + Yield(a) + [Sym(ARITH_COLON)] + Yield(b)
    case Assign(x, op, e) => [Var(x), Sym(op)] + Yield(e)
  }

  predicate IsPrimary(e: Expr)
    decreases e, 0
  {
    match e
    case Literal(_) => true
    case Variable(_) => true
    case Paren(e) => IsAssignment(e)
    case Unary(op, e) => IsUnaryOp(op) && IsPrimary(e)
    case _ => false
  }

  /** Binary operators of levels below `p`, each level associating to the left. */
  predicate IsBinary(p: nat, e: Expr)
    decreases e, 1
  {
    IsPrimary(e) ||
    (e.Binary? && IsBinop(e.op) && Prec(e.op) < p
     && IsBinary(Prec(e.op) + 1, e.l) && IsBinary(Prec(e.op), e.r))
  }

  predicate IsAnd(e: Expr)
    decreases e, 2
  {
    IsBinary(ARITH_MAX_PREC, e) || (e.And? && IsBinary(ARITH_MAX_PREC, e.l) && IsAnd(e.r))
  }

  predicate IsOr(e: Expr)
    decreases e, 3
  {
    IsAnd(e) || (e.Or? && IsAnd(e.l) && IsOr(e.r))
  }

  predicate IsConditional(e: Expr)
    decreases e, 4
  {
    IsOr(e) || (e.Cond? && IsOr(e.c) && IsAssignment(e.a) && IsConditional(e.b))
  }

  /** A whole expression. */
  predicate IsAssignment(e: Expr)
    decreases e, 5
  {
    IsConditional(e) || (e.Assign? && IsAssignOp(e.aop) && IsAssignment(e.e))
  }

  // ----- the parser -----

  datatype Parse = NoParse | Parsed(e: Expr, rest: seq<Token>)

  function Code(t: Token): int {
    match t
    case Num(_) => ARITH_NUM
    case Var(_) => ARITH_VAR
    case Sym(code) => code
  }

  function Next(ts: seq<Token>): int {
    Code(Head(ts))
  }

  /** Whether the parser goes on after an operand with an operator of a level below `p`. */
  predicate Continues(ts: seq<Token>, p: nat) {
    IsBinop(Next(ts)) && Prec(Next(ts)) < p
  }

  function ParsePrimary(ts: seq<Token>): (r: Parse)
    ensures r.Parsed? ==> |r.rest| < |ts|
    decreases |ts|, 0
  {
    match Head(ts)
    case Num(v) => Parsed(Literal(v), Tail(ts))
    case Var(x) => Parsed(Variable(x), Tail(ts))
    case Sym(op) =>
      if op == ARITH_LPAREN then
        match ParseAssignment(Tail(ts))
        case NoParse => NoParse
        case Parsed(e, rest) =>
          if Next(rest) != ARITH_RPAREN then NoParse else Parsed(Paren(e), Tail(rest))
      else if IsUnaryOp(op) then
        match ParsePrimary(Tail(ts))
        case NoParse => NoParse
        case Parsed(e, rest) => Parsed(Unary(op, e), rest)
      else NoParse
  }

  /** binop2: `l` and `op` have been read.  Operators tighter than `op` belong to the right
      operand. */
  function ParseBinop2(l: Expr, op: int, p: nat, ts: seq<Token>): (r: Parse)
    ensures r.Parsed? ==> |r.rest| < |ts|
    decreases |ts|, 1
  {
    match ParsePrimary(ts)
    case NoParse => NoParse
    case Parsed(b, rest) =>
      match Climb(b, Prec(op), rest)
      case NoParse => NoParse
      case Parsed(b2, rest2) => Climb(Binary(op, l, b2), p, rest2)
  }

  /** The end of the loop in binop2: another turn, or the result. */
  function Climb(e: Expr, p: nat, ts: seq<Token>): (r: Parse)
    ensures r.Parsed? ==> |r.rest| <= |ts|
    decreases |ts|, 0
  {
    if Continues(ts, p) then ParseBinop2(e, Next(ts), p, Tail(ts)) else Parsed(e, ts)
  }

  function ParseBinop(ts: seq<Token>): (r: Parse)
    ensures r.Parsed? ==> |r.rest| < |ts|
    decreases |ts|, 2
  {
    match ParsePrimary(ts)
    case NoParse => NoParse
    case Parsed(a, rest) => Climb(a, ARITH_MAX_PREC, rest)
  }

  function ParseAnd(ts: seq<Token>): (r: Parse)
    ensures r.Parsed? ==> |r.rest| < |ts|
    decreases |ts|, 3
  {
    match ParseBinop(ts)
    case NoParse => NoParse
    case Parsed(a, rest) =>
      if Next(rest) != ARITH_AND then Parsed(a, rest)
      else
        match ParseAnd(Tail(rest))
        case NoParse => NoParse
        case Parsed(b, rest2) => Parsed(And(a, b), rest2)
  }

  function ParseOr(ts: seq<Token>): (r: Parse)
    ensures r.Parsed? ==> |r.rest| < |ts|
    decreases |ts|, 4
  {
    match ParseAnd(ts)
    case NoParse => NoParse
    case Parsed(a, rest) =>
      if Next(rest) != ARITH_OR then Parsed(a, rest)
      else
        match ParseOr(Tail(rest))
        case NoParse => NoParse
        case Parsed(b, rest2) => Parsed(Or(a, b), rest2)
  }

  function ParseCond(ts: seq<Token>): (r: Parse)
    ensures r.Parsed? ==> |r.rest| < |ts|
    decreases |ts|, 5
  {
    match ParseOr(ts)
    case NoParse => NoParse
    case Parsed(c, rest) =>
      if Next(rest) != ARITH_QMARK then Parsed(c, rest)
      else
        match ParseAssignment(Tail(rest))
        case NoParse => NoParse
        case Parsed(a, rest2) =>
          if Next(rest2) != ARITH_COLON then NoParse
          else
            match ParseCond(Tail(rest2))
            case NoParse => NoParse
            case Parsed(b, rest3) => Parsed(Cond(c, a, b), rest3)
  }

  function ParseAssignment(ts: seq<Token>): (r: Parse)
    ensures r.Parsed? ==> |r.rest| < |ts|
    decreases |ts|, 6
  {
    if Head(ts).Var? && IsAssignOp(Next(Tail(ts))) then
      match ParseAssignment(Tail(Tail(ts)))
      case NoParse => NoParse
      case Parsed(e, rest) => Parsed(Assign(Head(ts).name, Next(Tail(ts)), e), rest)
    else ParseCond(ts)
  }

  /** The whole text must be one expression. */
  function ParseAll(ts: seq<Token>): Option<Expr> {
    match ParseAssignment(ts)
    case NoParse => None
    case Parsed(e, rest) => if Next(rest) == ARITH_END then Some(e) else None
  }

  // ----- soundness: what is parsed derives from the grammar -----

  lemma Unpop(ts: seq<Token>)
    requires Next(ts) != ARITH_END && Next(ts) != ARITH_BAD
    ensures ts == [Head(ts)] + Tail(ts)
  {
  }

  lemma {:induction false} PrimarySound(ts: seq<Token>)
    ensures var r := ParsePrimary(ts); r.Parsed? ==> IsPrimary(r.e) && ts == Yield(r.e) + r.rest
    decreases |ts|, 0
  {
    var r := ParsePrimary(ts);
    if r.Parsed? {
      Unpop(ts);
      match Head(ts)
      case Num(_) =>
      case Var(_) =>
      case Sym(op) =>
        if op == ARITH_LPAREN {
          AssignmentSound(Tail(ts));
          var inner := ParseAssignment(Tail(ts));
          Unpop(inner.rest);
          assert inner.rest == [Sym(ARITH_RPAREN)] + Tail(inner.rest);
          assert ts == [Sym(op)] + (Yield(inner.e) + ([Sym(ARITH_RPAREN)] + r.rest));
        } else {
          PrimarySound(Tail(ts));
        }
    }
  }

  /** Whatever a left operand of levels up to that of `op` is continued with. */
  lemma {:induction false} Binop2Sound(l: Expr, op: int, p: nat, ts: seq<Token>)
    requires IsBinop(op) && Prec(op) < p && IsBinary(Prec(op) + 1, l)
    ensures var r := ParseBinop2(l, op, p, ts);
      r.Parsed? ==> IsBinary(p, r.e) && !Continues(r.rest, p)
                    && Yield(l) + [Sym(op)] + ts == Yield(r.e) + r.rest
    decreases |ts|, 1
  {
    hide Yield, IsBinary, IsPrimary, Prec, ParsePrimary, Climb;
    PrimarySound(ts);
    var first := ParsePrimary(ts);
    if first.Parsed? {
      var b, rest := first.e, first.rest;
      PrimaryIsBinary(b, Prec(op));
      var right := Climb(b, Prec(op), rest);
      ClimbSound(b, Prec(op), rest);
      if right.Parsed? {
        var e := Binary(op, l, right.e);
        assert ParseBinop2(l, op, p, ts) == Climb(e, p, right.rest);
        hide ParseBinop2;
        BinaryOfParts(op, l, right.e, p);
        ClimbSound(e, p, right.rest);
        assert Yield(l) + [Sym(op)] + (Yield(right.e) + right.rest) == Yield(e) + right.rest;
      }
    }
  }

  lemma BinaryOfParts(op: int, l: Expr, r: Expr, p: nat)
    requires IsBinop(op) && Prec(op) < p && IsBinary(Prec(op) + 1, l) && IsBinary(Prec(op), r)
    ensures IsBinary(p, Binary(op, l, r))
    ensures Yield(Binary(op, l, r)) == Yield(l) + [Sym(op)] + Yield(r)
  {
  }

  lemma PrimaryIsBinary(e: Expr, p: nat)
    requires IsPrimary(e)
    ensures IsBinary(p, e) && !e.Binary?
  {
  }

  /** Among the tokens yylex returns, the code of an operator is that of a Sym. */
  lemma SymOfBinop(ts: seq<Token>)
    requires IsBinop(Next(ts))
    ensures Head(ts) == Sym(Next(ts))
  {
  }

  lemma SymOfCode(ts: seq<Token>)
    requires Next(ts) != ARITH_NUM && Next(ts) != ARITH_VAR
    ensures Head(ts) == Sym(Next(ts))
  {
  }

  lemma {:induction false} ClimbSound(e: Expr, p: nat, ts: seq<Token>)
    requires IsBinary(p, e)
    requires e.Binary? && Continues(ts, p) ==> Prec(e.op) <= Prec(Next(ts))
    ensures var r := Climb(e, p, ts);
      r.Parsed? ==> IsBinary(p, r.e) && !Continues(r.rest, p) && Yield(e) + ts == Yield(r.e) + r.rest
    decreases |ts|, 0
  {
    if Continues(ts, p) {
      assert Climb(e, p, ts) == ParseBinop2(e, Next(ts), p, Tail(ts));
      hide ParseBinop2, Climb, Prec, IsPrimary;
      Unpop(ts);
      SymOfBinop(ts);
      assert IsBinary(Prec(Next(ts)) + 1, e);
      Binop2Sound(e, Next(ts), p, Tail(ts));
      assert Yield(e) + ts == Yield(e) + [Sym(Next(ts))] + Tail(ts);
    }
  }

  lemma {:induction false} BinopSound(ts: seq<Token>)
    ensures var r := ParseBinop(ts);
      r.Parsed? ==> IsBinary(ARITH_MAX_PREC, r.e) && ts == Yield(r.e) + r.rest
    decreases |ts|, 2
  {
    PrimarySound(ts);
    var a := ParsePrimary(ts);
    if a.Parsed? {
      ClimbSound(a.e, ARITH_MAX_PREC, a.rest);
    }
  }

  lemma {:induction false} AndSound(ts: seq<Token>)
    ensures var r := ParseAnd(ts); r.Parsed? ==> IsAnd(r.e) && ts == Yield(r.e) + r.rest
    decreases |ts|, 3
  {
    BinopSound(ts);
    hide ParseBinop, IsBinary, ParseOr, ParseCond, ParseAssignment, ParsePrimary;
    var a := ParseBinop(ts);
    if a.Parsed? && Next(a.rest) == ARITH_AND {
      Unpop(a.rest);
      SymOfCode(a.rest);
      AndSound(Tail(a.rest));
      var b := ParseAnd(Tail(a.rest));
      assert ParseAnd(ts) == if b.Parsed? then Parsed(And(a.e, b.e), b.rest) else NoParse;
      hide ParseAnd;
      if b.Parsed? {
        assert ts == Yield(a.e) + ([Sym(ARITH_AND)] + (Yield(b.e) + b.rest));
        GlueOne(Yield(a.e), Sym(ARITH_AND), Yield(b.e), b.rest);
      }
    }
  }

  lemma {:induction false} OrSound(ts: seq<Token>)
    ensures var r := ParseOr(ts); r.Parsed? ==> IsOr(r.e) && ts == Yield(r.e) + r.rest
    decreases |ts|, 4
  {
    AndSound(ts);
    hide ParseAnd, IsAnd, ParseBinop, ParseCond, ParseAssignment, ParsePrimary;
    var a := ParseAnd(ts);
    if a.Parsed? && Next(a.rest) == ARITH_OR {
      Unpop(a.rest);
      SymOfCode(a.rest);
      OrSound(Tail(a.rest));
      var b := ParseOr(Tail(a.rest));
      assert ParseOr(ts) == if b.Parsed? then Parsed(Or(a.e, b.e), b.rest) else NoParse;
      hide ParseOr;
      if b.Parsed? {
        assert ts == Yield(a.e) + ([Sym(ARITH_OR)] + (Yield(b.e) + b.rest));
        GlueOne(Yield(a.e), Sym(ARITH_OR), Yield(b.e), b.rest);
      }
    }
  }

  lemma GlueOne(x: seq<Token>, s: Token, y: seq<Token>, rest: seq<Token>)
    ensures x + ([s] + (y + rest)) == (x + [s] + y) + rest
  {
  }

  lemma Glue(x: seq<Token>, s: Token, y: seq<Token>, t: Token, z: seq<Token>, rest: seq<Token>)
    ensures x + ([s] + (y + ([t] + (z + rest)))) == (x + [s] + y + [t] + z) + rest
  {
  }

  lemma {:induction false} CondSound(ts: seq<Token>)
    ensures var r := ParseCond(ts); r.Parsed? ==> IsConditional(r.e) && ts == Yield(r.e) + r.rest
    decreases |ts|, 5
  {
    OrSound(ts);
    hide ParseOr, ParseAssignment, IsOr, IsAssignment;
    var c := ParseOr(ts);
    if c.Parsed? && Next(c.rest) == ARITH_QMARK {
      Unpop(c.rest);
      SymOfCode(c.rest);
      AssignmentSound(Tail(c.rest));
      var a := ParseAssignment(Tail(c.rest));
      if a.Parsed? && Next(a.rest) == ARITH_COLON {
        Unpop(a.rest);
        SymOfCode(a.rest);
        CondSound(Tail(a.rest));
        var b := ParseCond(Tail(a.rest));
        assert ParseCond(ts) == if b.Parsed? then Parsed(Cond(c.e, a.e, b.e), b.rest) else NoParse;
        hide ParseCond;
        if b.Parsed? {
          Glue(Yield(c.e), Sym(ARITH_QMARK), Yield(a.e), Sym(ARITH_COLON), Yield(b.e), b.rest);
        }
      }
    }
  }

  lemma {:induction false} AssignmentSound(ts: seq<Token>)
    ensures var r := ParseAssignment(ts); r.Parsed? ==> IsAssignment(r.e) && ts == Yield(r.e) + r.rest
    decreases |ts|, 6
  {
    if Head(ts).Var? && IsAssignOp(Next(Tail(ts))) {
      Unpop(ts);
      Unpop(Tail(ts));
      var rest := Tail(Tail(ts));
      AssignmentSound(rest);
      var e := ParseAssignment(rest);
      if e.Parsed? {
        assert ts == [Head(ts), Head(Tail(ts))] + (Yield(e.e) + e.rest);
      }
    } else {
      CondSound(ts);
    }
  }

  // ----- completeness: what derives from the grammar is parsed -----

  /** Tail drops the head unless it is the end or ARITH_BAD. */
  lemma Pop(t: Token, ts: seq<Token>)
    requires Code(t) != ARITH_END && Code(t) != ARITH_BAD
    ensures Head([t] + ts) == t && Tail([t] + ts) == ts
  {
    assert ([t] + ts)[1..] == ts;
  }

  /** The first operand of a chain of binary operators, and the tokens after it. */
  function Leftmost(e: Expr): Expr {
    if e.Binary? then Leftmost(e.l) else e
  }

  function After(e: Expr): seq<Token> {
    if e.Binary? then After(e.l) + [Sym(e.op)] + Yield(e.r) else []
  }

  lemma {:induction false} FirstOperand(p: nat, e: Expr)
    requires IsBinary(p, e)
    ensures IsPrimary(Leftmost(e)) && Yield(e) == Yield(Leftmost(e)) + After(e)
    ensures Leftmost(e) == e || Leftmost(e) < e
    decreases e
  {
    if e.Binary? {
      FirstOperand(Prec(e.op) + 1, e.l);
    }
  }

  lemma IsBinaryMonotone(p: nat, q: nat, e: Expr)
    requires IsBinary(p, e) && p <= q
    ensures IsBinary(q, e)
  {
  }

  lemma {:induction false} PrimaryComplete(e: Expr, rest: seq<Token>)
    requires IsPrimary(e)
    ensures ParsePrimary(Yield(e) + rest) == Parsed(e, rest)
    decreases e, 0
  {
    var ts := Yield(e) + rest;
    match e
    case Literal(v) => Pop(Num(v), rest);
    case Variable(x) => Pop(Var(x), rest);
    case Paren(i) =>
      var close := [Sym(ARITH_RPAREN)] + rest;
      assert ts == [Sym(ARITH_LPAREN)] + (Yield(i) + close);
      Pop(Sym(ARITH_LPAREN), Yield(i) + close);
      Pop(Sym(ARITH_RPAREN), rest);
      AssignmentComplete(i, close);
    case Unary(op, i) =>
      assert ts == [Sym(op)] + (Yield(i) + rest);
      Pop(Sym(op), Yield(i) + rest);
      PrimaryComplete(i, rest);
  }

  lemma BinaryParts(p: nat, e: Expr)
    requires IsBinary(p, e) && e.Binary?
    ensures IsBinop(e.op) && Prec(e.op) < p && IsBinary(Prec(e.op) + 1, e.l) && IsBinary(Prec(e.op), e.r)
    ensures e.l.Binary? ==> Prec(e.l.op) <= Prec(e.op)
    ensures e.r.Binary? ==> Prec(e.r.op) < Prec(e.op)
  {
    assert !IsPrimary(e);
    assert e.l.Binary? ==> !IsPrimary(e.l);
    assert e.r.Binary? ==> !IsPrimary(e.r);
  }

  /** Climbing from the first operand rebuilds the tree. */
  lemma {:induction false} ClimbComplete(e: Expr, p: nat, rest: seq<Token>)
    requires IsBinary(p, e)
    requires e.Binary? && IsBinop(Next(rest)) ==> Prec(e.op) <= Prec(Next(rest))
    ensures Climb(Leftmost(e), p, After(e) + rest) == Climb(e, p, rest)
    decreases e, 1
  {
    if !e.Binary? {
      assert After(e) + rest == rest;
    } else {
      var op, l, b := e.op, e.l, e.r;
      BinaryParts(p, e);
      hide IsBinary, IsPrimary;
      var more := [Sym(op)] + (Yield(b) + rest);
      assert After(e) + rest == After(l) + more;
      Pop(Sym(op), Yield(b) + rest);
      IsBinaryMonotone(Prec(op) + 1, p, l);
      ClimbComplete(l, p, more);
      assert Climb(l, p, more) == ParseBinop2(l, op, p, Yield(b) + rest);
      RightComplete(op, b, rest);
    }
  }

  lemma {:induction false} RightComplete(op: int, b: Expr, rest: seq<Token>)
    requires IsBinop(op) && IsBinary(Prec(op), b)
    requires IsBinop(Next(rest)) ==> Prec(op) <= Prec(Next(rest))
    requires b.Binary? ==> Prec(b.op) < Prec(op)
    ensures var first := ParsePrimary(Yield(b) + rest);
      first.Parsed? && Climb(first.e, Prec(op), first.rest) == Parsed(b, rest)
    decreases b, 2
  {
    hide IsBinary, IsPrimary, ParsePrimary, Yield, ParseBinop2;
    FirstOperand(Prec(op), b);
    assert Yield(b) + rest == Yield(Leftmost(b)) + (After(b) + rest);
    PrimaryComplete(Leftmost(b), After(b) + rest);
    ClimbComplete(b, Prec(op), rest);
  }

  lemma {:induction false} BinopComplete(e: Expr, rest: seq<Token>)
    requires IsBinary(ARITH_MAX_PREC, e) && !IsBinop(Next(rest))
    ensures ParseBinop(Yield(e) + rest) == Parsed(e, rest)
    decreases e, 3
  {
    hide IsBinary, IsPrimary, ParsePrimary, Yield, ParseBinop2;
    FirstOperand(ARITH_MAX_PREC, e);
    assert Yield(e) + rest == Yield(Leftmost(e)) + (After(e) + rest);
    PrimaryComplete(Leftmost(e), After(e) + rest);
    ClimbComplete(e, ARITH_MAX_PREC, rest);
  }

  lemma {:induction false} AndComplete(e: Expr, rest: seq<Token>)
    requires IsAnd(e) && !IsBinop(Next(rest)) && Next(rest) != ARITH_AND
    ensures ParseAnd(Yield(e) + rest) == Parsed(e, rest)
    decreases e, 4
  {
    hide IsBinary, ParseBinop;
    if e.And? && !IsBinary(ARITH_MAX_PREC, e) {
      var more := [Sym(ARITH_AND)] + (Yield(e.r) + rest);
      assert Yield(e) + rest == Yield(e.l) + more;
      Pop(Sym(ARITH_AND), Yield(e.r) + rest);
      BinopComplete(e.l, more);
      AndComplete(e.r, rest);
    } else {
      BinopComplete(e, rest);
    }
  }

  lemma {:induction false} OrComplete(e: Expr, rest: seq<Token>)
    requires IsOr(e) && !IsBinop(Next(rest)) && Next(rest) != ARITH_AND && Next(rest) != ARITH_OR
    ensures ParseOr(Yield(e) + rest) == Parsed(e, rest)
    decreases e, 5
  {
    hide IsAnd, ParseAnd;
    if e.Or? && !IsAnd(e) {
      var more := [Sym(ARITH_OR)] + (Yield(e.r) + rest);
      assert Yield(e) + rest == Yield(e.l) + more;
      Pop(Sym(ARITH_OR), Yield(e.r) + rest);
      AndComplete(e.l, more);
      OrComplete(e.r, rest);
    } else {
      AndComplete(e, rest);
    }
  }

  /** What may follow an expression. */
  predicate MayFollow(rest: seq<Token>) {
    Next(rest) == ARITH_END || Next(rest) == ARITH_RPAREN || Next(rest) == ARITH_COLON
  }

  lemma {:induction false} CondComplete(e: Expr, rest: seq<Token>)
    requires IsConditional(e) && MayFollow(rest)
    ensures ParseCond(Yield(e) + rest) == Parsed(e, rest)
    decreases e, 6
  {
    hide IsOr, IsAssignment, ParseOr, ParseAssignment;
    if e.Cond? && !IsOr(e) {
      var tail := Yield(e.b) + rest;
      var middle := [Sym(ARITH_COLON)] + tail;
      var more := [Sym(ARITH_QMARK)] + (Yield(e.a) + middle);
      Glue(Yield(e.c), Sym(ARITH_QMARK), Yield(e.a), Sym(ARITH_COLON), Yield(e.b), rest);
      assert Yield(e) + rest == Yield(e.c) + more;
      Pop(Sym(ARITH_QMARK), Yield(e.a) + middle);
      Pop(Sym(ARITH_COLON), tail);
      OrComplete(e.c, more);
      AssignmentComplete(e.a, middle);
      CondComplete(e.b, rest);
    } else {
      OrComplete(e, rest);
    }
  }

  lemma {:induction false} AssignmentComplete(e: Expr, rest: seq<Token>)
    requires IsAssignment(e) && MayFollow(rest)
    ensures ParseAssignment(Yield(e) + rest) == Parsed(e, rest)
    decreases e, 7
  {
    hide IsConditional, ParseCond;
    if e.Assign? && !IsConditional(e) {
      var more := [Sym(e.aop)] + (Yield(e.e) + rest);
      assert Yield(e) + rest == [Var(e.name)] + more;
      Pop(Var(e.name), more);
      Pop(Sym(e.aop), Yield(e.e) + rest);
      AssignmentComplete(e.e, rest);
    } else {
      NoAssignmentStart(e, rest);
      CondComplete(e, rest);
    }
  }

  predicate StartsAssignment(ts: seq<Token>) {
    Head(ts).Var? && IsAssignOp(Next(Tail(ts)))
  }

  lemma AndIsConditional(e: Expr)
    requires IsAnd(e)
    ensures IsConditional(e)
  {
    assert IsOr(e);
  }

  lemma BinaryIsConditional(p: nat, e: Expr)
    requires IsBinary(p, e) && p <= ARITH_MAX_PREC
    ensures IsConditional(e)
  {
    IsBinaryMonotone(p, ARITH_MAX_PREC, e);
    assert IsAnd(e);
    AndIsConditional(e);
  }

  lemma YieldOfCond(e: Expr)
    requires e.Cond?
    ensures Yield(e) == Yield(e.c) + ([Sym(ARITH_QMARK)] + (Yield(e.a) + ([Sym(ARITH_COLON)] + Yield(e.b))))
  {
    Glue(Yield(e.c), Sym(ARITH_QMARK), Yield(e.a), Sym(ARITH_COLON), Yield(e.b), []);
    assert Yield(e.b) + [] == Yield(e.b) && Yield(e) + [] == Yield(e);
  }

  lemma YieldOfTwo(e: Expr)
    requires e.Binary? || e.And? || e.Or?
    ensures Yield(e) == Yield(e.l) + ([Sym(if e.Binary? then e.op else if e.And? then ARITH_AND else ARITH_OR)] + Yield(e.r))
  {
  }

  /** The left part of an operator and the operator's token. */
  lemma LeftPart(e: Expr) returns (l: Expr, code: int, more: seq<Token>)
    requires IsConditional(e) && !IsPrimary(e)
    ensures l < e && IsConditional(l) && Yield(e) == Yield(l) + ([Sym(code)] + more)
    ensures code != ARITH_END && code != ARITH_BAD && !IsAssignOp(code)
  {
    hide Yield, Prec;
    if IsBinary(ARITH_MAX_PREC, e) {
      BinaryParts(ARITH_MAX_PREC, e);
      BinaryIsConditional(Prec(e.op) + 1, e.l);
      YieldOfTwo(e);
      l, code, more := e.l, e.op, Yield(e.r);
    } else if IsAnd(e) {
      BinaryIsConditional(ARITH_MAX_PREC, e.l);
      YieldOfTwo(e);
      l, code, more := e.l, ARITH_AND, Yield(e.r);
    } else if IsOr(e) {
      AndIsConditional(e.l);
      YieldOfTwo(e);
      l, code, more := e.l, ARITH_OR, Yield(e.r);
    } else {
      assert IsConditional(e.c);
      YieldOfCond(e);
      l, code, more := e.c, ARITH_QMARK, Yield(e.a) + ([Sym(ARITH_COLON)] + Yield(e.b));
    }
  }

  /** The first operand of an expression that is not an assignment is not followed by an
      assignment operator. */
  lemma {:induction false} NoAssignmentStart(e: Expr, rest: seq<Token>)
    requires IsConditional(e) && !IsAssignOp(Next(rest))
    ensures !StartsAssignment(Yield(e) + rest)
    decreases e
  {
    if IsPrimary(e) {
      match e
      case Literal(v) => Pop(Num(v), rest);
      case Variable(x) => Pop(Var(x), rest);
      case Paren(i) => assert (Yield(e) + rest)[0] == Sym(ARITH_LPAREN);
      case Unary(op, i) => assert (Yield(e) + rest)[0] == Sym(op);
    } else {
      var l, code, more := LeftPart(e);
      hide Yield, IsConditional, IsPrimary;
      Pop(Sym(code), more + rest);
      assert Yield(e) + rest == Yield(l) + ([Sym(code)] + (more + rest));
      NoAssignmentStart(l, [Sym(code)] + (more + rest));
    }
  }

  // ----- parser and grammar agree -----

  /** A token list is accepted exactly when it derives from the grammar, and then the tree
      is the only one it derives from. */
  lemma ParserIsTheGrammar(ts: seq<Token>, e: Expr)
    requires Sym(ARITH_END) !in ts
    ensures ParseAll(ts) == Some(e) <==> IsAssignment(e) && Yield(e) == ts
  {
    if IsAssignment(e) && Yield(e) == ts {
      AssignmentComplete(e, []);
      assert Yield(e) + [] == ts;
    }
    if ParseAll(ts) == Some(e) {
      AssignmentSound(ts);
      var rest := ParseAssignment(ts).rest;
      assert rest != [] ==> rest[0] == ts[|Yield(e)|];
      assert rest == [];
      assert Yield(e) + [] == Yield(e);
    }
  }
}
