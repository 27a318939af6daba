/** The evaluating parser of src/arith_yacc.c: it works from two tokens of lookahead and
    computes while it parses, so that the parts lazy evaluation leaves out are parsed with
    noeval set. */
module ArithEval {
  import opened Wrappers
  import opened ArithNumber
  import opened ArithLex
  import opened ArithGrammar

  // ----- lazy evaluation of a tree -----

  /** Variables, the names that cannot be assigned, and the -u option. */
  datatype Env = Env(vars: map<string, string>, readonly: set<string>, uflag: bool)

  /** A value and the variables afterwards, or an error. */
  datatype Value = Value(v: Arith, env: Env) | Error

  /** arith_lookupvarint */
  function Lookup(env: Env, name: string): Option<Arith> {
    if name !in env.vars && env.uflag then None
    else
      var text := if name !in env.vars || env.vars[name] == "" then "0" else env.vars[name];
      var c := StrToArith(text);
      if c.erange || c.rest != "" then None else Some(c.val)
  }

  /** setvar of the decimal text; it fails for a read-only name. */
  function Store(env: Env, name: string, v: Arith): Value {
    if name in env.readonly then Error else Value(v, env.(vars := env.vars[name := Decimal(v)]))
  }

  function ApplyUnary(op: int, v: Arith): Arith {
    if op == ARITH_SUB then Wrap(0 - v)
    else if op == ARITH_NOT then Truth(v == 0)
    else if op == ARITH_BNOT then 0 - v - 1
    else v
  }

  function Eval(e: Expr, env: Env): Value {
    match e
    case Literal(v) => Value(v, env)
    case Variable(x) =>
      (match Lookup(env, x)
       case None => Error
       case Some(v) => Value(v, env))
    case Paren(i) => Eval(i, env)
    case Unary(op, i) =>
      (match Eval(i, env)
       case Error => Error
       case Value(v, env1) => Value(ApplyUnary(op, v), env1))
    case Binary(op, l, r) =>
      (match Eval(l, env)
       case Error => Error
       case Value(a, env1) =>
         match Eval(r, env1)
         case Error => Error
         case Value(b, env2) => Combine(op, a, b, env2))
    case And(l, r) =>
      (match Eval(l, env)
       case Error => Error
       case Value(a, env1) =>
         if a == 0 then Value(0, env1)
         else
           match Eval(r, env1)
           case Error => Error
           case Value(b, env2) => Value(Truth(b != 0), env2))
    case Or(l, r) =>
      (match Eval(l, env)
       case Error => Error
       case Value(a, env1) =>
         if a != 0 then Value(1, env1)
         else
           match Eval(r, env1)
           case Error => Error
           case Value(b, env2) => Value(Truth(b != 0), env2))
    case Cond(c, a, b) =>
      (match Eval(c, env)
       case Error => Error
       case Value(v, env1) => if v != 0 then Eval(a, env1) else Eval(b, env1))
    case Assign(x, op, i) =>
      (match Eval(i, env)
       case Error => Error
       case Value(v, env1) => AssignTo(x, op, v, env1))
  }

  /** Assigns the value of the right side; a compound assignment reads the variable only now. */
  function AssignTo(x: string, op: int, v: Arith, env: Env): Value {
    if op == ARITH_ASS then Store(env, x, v)
    else
      match Lookup(env, x)
      case None => Error
      case Some(w) =>
        match DoBinop(op - 11, w, v)
        case None => Error
        case Some(result) => Store(env, x, result)
  }

  function Combine(op: int, a: Arith, b: Arith, env: Env): Value {
    match DoBinop(op, a, b)
    case None => Error
    case Some(v) => Value(v, env)
  }

  /** What was assigned is what the variable evaluates to. */
  lemma AssignedValueReadsBack(env: Env, name: string, v: Arith)
    ensures match Store(env, name, v)
            case Error => name in env.readonly
            case Value(w, env1) => w == v && Lookup(env1, name) == Some(v)
  {
    DecimalRoundTrip(v);
    assert Decimal(v) != "";
  }

  /** && and || group from the right in the parser and from the left in C; for lazy
      evaluation, with its side effects and errors, that is the same. */
  lemma GroupingDoesNotMatter(a: Expr, b: Expr, c: Expr, env: Env)
    ensures Eval(And(And(a, b), c), env) == Eval(And(a, And(b, c)), env)
    ensures Eval(Or(Or(a, b), c), env) == Eval(Or(a, Or(b, c)), env)
  {
  }

  // ----- the code -----

  /** union yystype: a number, or a name whose address read as a number is arbitrary. */
  datatype YyVal = NumVal(n: Arith) | NameVal(s: string)

  /** A token as yylex returns it, with the value of yylval that belongs to it. */
  predicate IsToken(code: int, val: YyVal, t: Token) {
    && code == Code(t)
    && (t.Num? ==> val == NumVal(t.val)) && (t.Var? ==> val == NameVal(t.name))
  }

  datatype Outcome = Done(v: Arith) | Failed

  /** What a parsing routine promises: when it returns, the text up to `p.rest` has been
      parsed and last_token is the token after it; unless noeval is set the value and the
      variables are those of lazy evaluation.  It fails only when there is nothing to
      parse or evaluation fails, and with noeval set it never touches a variable. */
  ghost predicate Agrees(r: Outcome, p: Parse, noeval: bool, before: Env, after: Env,
                         lastToken: int, yylval: YyVal, ahead: seq<Token>) {
    && (noeval ==> after == before)
    && (match r
        case Done(v) =>
          && p.Parsed? && IsToken(lastToken, yylval, Head(p.rest)) && ahead == Tail(p.rest)
          && (!noeval ==> Eval(p.e, before) == Value(v, after))
        case Failed => p.NoParse? || (!noeval && Eval(p.e, before).Error?))
  }

  /** The globals of arith_yacc.c and arith_yylex.c. */
  class Parser {
    var buf: string
    var yylval: YyVal
    var lastToken: int
    var env: Env

    constructor (s: string, env: Env)
      ensures buf == s && this.env == env
    {
      buf, yylval, lastToken, this.env := s, NumVal(0), 0, env;
    }

    method Yylex() returns (code: int)
      modifies this
      ensures IsToken(code, yylval, Head(Tokens(old(buf)))) && Tokens(buf) == Tail(Tokens(old(buf)))
      ensures env == old(env) && lastToken == old(lastToken)
      ensures code == ARITH_NUM <==> Head(Tokens(old(buf))).Num?
      ensures code == ARITH_VAR <==> Head(Tokens(old(buf))).Var?
    {
      LexIsNext(buf);
      hide Tokens;
      var (t, rest) := Lex(buf);
      buf := rest;
      code := Code(t);
      match t
      case Num(v) => yylval := NumVal(v);
      case Var(x) => yylval := NameVal(x);
      case Sym(_) =>
    }

    /** `token` with its value and the lookahead `op` have been read from `ts`. */
    ghost predicate LooksAt(token: int, val: YyVal, op: int, ts: seq<Token>)
      reads this
    {
      && IsToken(token, val, Head(ts)) && (token == ARITH_NUM <==> Head(ts).Num?) && (token == ARITH_VAR <==> Head(ts).Var?)
      && IsToken(op, yylval, Head(Tail(ts))) && (op == ARITH_NUM <==> Head(Tail(ts)).Num?) && (op == ARITH_VAR <==> Head(Tail(ts)).Var?)
      && Tokens(buf) == Tail(Tail(ts))
    }

    /** The state a caller of assignment is in: `token` has been read, yylval is its value. */
    ghost predicate HasRead(token: int, ts: seq<Token>)
      reads this
    {
      && IsToken(token, yylval, Head(ts)) && (token == ARITH_NUM <==> Head(ts).Num?) && (token == ARITH_VAR <==> Head(ts).Var?)
      && Tokens(buf) == Tail(ts)
    }

    method Primary(token: int, val: YyVal, op: int, noeval: bool, ghost ts: seq<Token>) returns (r: Outcome)
      requires LooksAt(token, val, op, ts)
      modifies this
      ensures Agrees(r, ParsePrimary(ts), noeval, old(env), env, lastToken, yylval, Tokens(buf))
      decreases |ts|, 0
    {
      hide Tokens, ParseAssignment;
      if token == ARITH_LPAREN {
        r := Assignment(op, noeval, Tail(ts));
        if r.Failed? {
          return;
        }
        if lastToken != ARITH_RPAREN {
          return Failed;
        }
        lastToken := Yylex();
      } else if token == ARITH_NUM {
        lastToken := op;
        r := Done(val.n);
      } else if token == ARITH_VAR {
        lastToken := op;
        if noeval {
          // The union holds a pointer here; its value as a number is of no consequence.
          var garbage: Arith := *;
          r := Done(garbage);
        } else {
          var v := Lookup(env, val.s);
          r := if v.None? then Failed else Done(v.value);
        }
      } else if IsUnaryOp(token) {
        var v := yylval;
        var next := Yylex();
        r := Primary(op, v, next, noeval, Tail(ts));
        if r.Done? {
          r := Done(ApplyUnary(token, r.v));
        }
      } else {
        r := Failed;
      }
    }

    /** `op` has been read; `l` is the operand before it, which evaluates to `a`. */
    method Binop2(a0: Arith, op0: int, precedence: nat, noeval: bool,
                  ghost l0: Expr, ghost ts: seq<Token>, ghost before: Env) returns (r: Outcome)
      requires IsBinop(op0) && Tokens(buf) == ts
      requires if noeval then env == before else Eval(l0, before) == Value(a0, env)
      modifies this
      ensures Agrees(r, ParseBinop2(l0, op0, precedence, ts), noeval, before, env, lastToken, yylval, Tokens(buf))
      decreases |ts|, 1
    {
      hide Tokens, ParsePrimary, Eval, Climb, Prec, DoBinop;
      var a, op := a0, op0;
      ghost var l, cur := l0, ts;
      while true
        invariant IsBinop(op) && Tokens(buf) == cur
        invariant if noeval then env == before else Eval(l, before) == Value(a, env)
        invariant ParseBinop2(l0, op0, precedence, ts) == ParseBinop2(l, op, precedence, cur)
        invariant |cur| <= |ts|
        decreases |cur|
      {
        ghost var middle, parsed := env, ParseBinop2(l, op, precedence, cur);
        ghost var first := ParsePrimary(cur);
        var token := Yylex();
        var val := yylval;
        var op1 := Yylex();
        var x := Primary(token, val, op1, noeval, cur);
        if x.Failed? {
          FailedOperand(l, op, precedence, cur, noeval, before, middle);
          return Failed;
        }
        var b := x.v;
        ghost var right := Climb(first.e, Prec(op), first.rest);
        ClimbUnfold(first.e, Prec(op), first.rest);
        ghost var rest := first.rest;
        var op2 := lastToken;
        if IsBinop(op2) && Prec(op2) < Prec(op) {
          ghost var more := Tail(rest);
          x := Binop2(b, op2, Prec(op), noeval, first.e, more, middle);
          if x.Failed? {
            FailedRight(l, op, precedence, cur, noeval, before, middle);
            return Failed;
          }
          b := x.v;
          op2 := lastToken;
        }
        ghost var e := Binary(op, l, right.e);
        assert parsed == Climb(e, precedence, right.rest);
        ClimbUnfold(e, precedence, right.rest);
        EvalBinary(op, l, right.e, before);
        if noeval {
          a := b;
        } else {
          var w := DoBinop(op, a, b);
          if w.None? {
            ErrorClimbs(e, precedence, right.rest, before);
            return Failed;
          }
          a := w.value;
        }
        if !IsBinop(op2) || Prec(op2) >= precedence {
          return Done(a);
        }
        l, op, cur := e, op2, Tail(right.rest);
      }
    }

    method Binop(token: int, val: YyVal, op: int, noeval: bool, ghost ts: seq<Token>) returns (r: Outcome)
      requires LooksAt(token, val, op, ts)
      modifies this
      ensures Agrees(r, ParseBinop(ts), noeval, old(env), env, lastToken, yylval, Tokens(buf))
      decreases |ts|, 2
    {
      hide Tokens, ParsePrimary, Eval, Climb;
      ghost var before, first := env, ParsePrimary(ts);
      r := Primary(token, val, op, noeval, ts);
      if r.Failed? {
        if first.Parsed? && !noeval {
          ErrorClimbs(first.e, ARITH_MAX_PREC, first.rest, before);
        }
        return;
      }
      ClimbUnfold(first.e, ARITH_MAX_PREC, first.rest);
      if !IsBinop(lastToken) {
        return;
      }
      r := Binop2(r.v, lastToken, ARITH_MAX_PREC, noeval, first.e, Tail(first.rest), before);
    }

    method And(token: int, val: YyVal, op: int, noeval: bool, ghost ts: seq<Token>) returns (r: Outcome)
      requires LooksAt(token, val, op, ts)
      modifies this
      ensures Agrees(r, ParseAnd(ts), noeval, old(env), env, lastToken, yylval, Tokens(buf))
      decreases |ts|, 3
    {
      hide Tokens, ParseBinop;
      r := Binop(token, val, op, noeval, ts);
      if r.Failed? || lastToken != ARITH_AND {
        return;
      }
      ghost var rest := ParseBinop(ts).rest;
      var a := r.v;
      var token1 := Yylex();
      var val1 := yylval;
      var op1 := Yylex();
      r := And(token1, val1, op1, noeval || a == 0, Tail(rest));
      if r.Done? {
        r := Done(Truth(a != 0 && r.v != 0));
      }
    }

    method Or(token: int, val: YyVal, op: int, noeval: bool, ghost ts: seq<Token>) returns (r: Outcome)
      requires LooksAt(token, val, op, ts)
      modifies this
      ensures Agrees(r, ParseOr(ts), noeval, old(env), env, lastToken, yylval, Tokens(buf))
      decreases |ts|, 4
    {
      hide Tokens, ParseAnd;
      r := And(token, val, op, noeval, ts);
      if r.Failed? || lastToken != ARITH_OR {
        return;
      }
      ghost var rest := ParseAnd(ts).rest;
      var a := r.v;
      var token1 := Yylex();
      var val1 := yylval;
      var op1 := Yylex();
      r := Or(token1, val1, op1, noeval || a != 0, Tail(rest));
      if r.Done? {
        r := Done(Truth(a != 0 || r.v != 0));
      }
    }

    method Cond(token: int, val: YyVal, op: int, noeval: bool, ghost ts: seq<Token>) returns (r: Outcome)
      requires LooksAt(token, val, op, ts)
      modifies this
      ensures Agrees(r, ParseCond(ts), noeval, old(env), env, lastToken, yylval, Tokens(buf))
      decreases |ts|, 5
    {
      hide Tokens, ParseOr, ParseAssignment, IsAssignOp;
      r := Or(token, val, op, noeval, ts);
      if r.Failed? || lastToken != ARITH_QMARK {
        return;
      }
      ghost var rest := ParseOr(ts).rest;
      var a := r.v;
      var token1 := Yylex();
      var rb := Assignment(token1, noeval || a == 0, Tail(rest));
      if rb.Failed? {
        return Failed;
      }
      ghost var rest2 := ParseAssignment(Tail(rest)).rest;
      if lastToken != ARITH_COLON {
        return Failed;
      }
      var token2 := Yylex();
      var val2 := yylval;
      var op2 := Yylex();
      var rc := Cond(token2, val2, op2, noeval || a != 0, Tail(rest2));
      if rc.Failed? {
        return Failed;
      }
      r := Done(if a != 0 then rb.v else rc.v);
    }

    method Assignment(token: int, noeval: bool, ghost ts: seq<Token>) returns (r: Outcome)
      requires HasRead(token, ts)
      modifies this
      ensures Agrees(r, ParseAssignment(ts), noeval, old(env), env, lastToken, yylval, Tokens(buf))
      decreases |ts|, 6
    {
      hide Tokens, ParseCond, AssignTo;
      var val := yylval;
      var op := Yylex();
      if token != ARITH_VAR || !IsAssignOp(op) {
        r := Cond(token, val, op, noeval, ts);
        return;
      }
      var token1 := Yylex();
      r := Assignment(token1, noeval, Tail(Tail(ts)));
      if r.Failed? || noeval {
        return;
      }
      r := AssignVariable(val.s, op, r.v);
    }

    /** The end of assignment: the value goes into the variable. */
    method AssignVariable(name: string, op: int, value: Arith) returns (r: Outcome)
      requires IsAssignOp(op)
      modifies this`env
      ensures var to := AssignTo(name, op, value, old(env));
        if to.Error? then r.Failed? else r == Done(to.v) && env == to.env
    {
      var result := value;
      if op != ARITH_ASS {
        var x := Lookup(env, name);
        if x.None? {
          return Failed;
        }
        var w := DoBinop(op - 11, x.value, result);
        if w.None? {
          return Failed;
        }
        result := w.value;
      }
      var stored := Store(env, name, result);
      if stored.Error? {
        return Failed;
      }
      env := stored.env;
      r := Done(result);
    }

    /** arith: the text must be one expression, and its value and effect on the variables
        are those of lazily evaluating the tree it derives from. */
    method Arith() returns (r: Outcome)
      modifies this
      ensures match ParseAll(Tokens(old(buf)))
              case None => r.Failed?
              case Some(e) =>
                match Eval(e, old(env))
                case Error => r.Failed?
                case Value(v, env1) => r == Done(v) && env == env1
    {
      ghost var ts := Tokens(buf);
      hide Tokens, ParseAssignment, Eval;
      var token := Yylex();
      r := Assignment(token, false, ts);
      if r.Done? && lastToken != ARITH_END {
        r := Failed;
      }
    }
  }

  // ----- how errors in an operand spread -----

  lemma ClimbUnfold(e: Expr, p: nat, ts: seq<Token>)
    ensures Climb(e, p, ts) == if Continues(ts, p) then ParseBinop2(e, Next(ts), p, Tail(ts)) else Parsed(e, ts)
  {
  }

  lemma EvalBinary(op: int, l: Expr, r: Expr, env: Env)
    ensures Eval(Binary(op, l, r), env) ==
      match Eval(l, env)
      case Error => Error
      case Value(a, env1) =>
        match Eval(r, env1)
        case Error => Error
        case Value(b, env2) =>
          match DoBinop(op, a, b)
          case None => Error
          case Some(v) => Value(v, env2)
  {
  }

  /** The first operand is evaluated first: when it fails, so does the expression. */
  lemma {:induction false} ErrorClimbs(e: Expr, p: nat, ts: seq<Token>, env: Env)
    requires Eval(e, env).Error?
    ensures var r := Climb(e, p, ts); r.Parsed? ==> Eval(r.e, env).Error?
    decreases |ts|
  {
    if Continues(ts, p) {
      var op, rest := Next(ts), Tail(ts);
      var first := ParsePrimary(rest);
      if first.Parsed? {
        var right := Climb(first.e, Prec(op), first.rest);
        if right.Parsed? {
          ErrorClimbs(Binary(op, e, right.e), p, right.rest, env);
        }
      }
    }
  }

  lemma FailedRight(l: Expr, op: int, p: nat, ts: seq<Token>, noeval: bool, before: Env, middle: Env)
    requires !noeval ==> Eval(l, before).Value? && Eval(l, before).env == middle
    requires ParsePrimary(ts).Parsed?
    requires var first := ParsePrimary(ts); var right := Climb(first.e, Prec(op), first.rest);
      right.NoParse? || (!noeval && Eval(right.e, middle).Error?)
    ensures var r := ParseBinop2(l, op, p, ts);
      r.NoParse? || (!noeval && Eval(r.e, before).Error?)
  {
    hide Climb, ParsePrimary, Prec;
    var first := ParsePrimary(ts);
    var right := Climb(first.e, Prec(op), first.rest);
    if right.Parsed? {
      EvalBinary(op, l, right.e, before);
      ErrorClimbs(Binary(op, l, right.e), p, right.rest, before);
    }
  }

  lemma FailedOperand(l: Expr, op: int, p: nat, ts: seq<Token>, noeval: bool, before: Env, middle: Env)
    requires !noeval ==> Eval(l, before).Value? && Eval(l, before).env == middle
    requires var first := ParsePrimary(ts); first.NoParse? || (!noeval && Eval(first.e, middle).Error?)
    ensures var r := ParseBinop2(l, op, p, ts);
      r.NoParse? || (!noeval && Eval(r.e, before).Error?)
  {
    hide Climb, ParsePrimary, Prec, Eval;
    var first := ParsePrimary(ts);
    if first.Parsed? {
      ErrorClimbs(first.e, Prec(op), first.rest, middle);
      FailedRight(l, op, p, ts, noeval, before, middle);
    }
  }

  // ----- the whole of it -----

  lemma {:induction false} TokensHaveNoEnd(buf: string)
    ensures Sym(ARITH_END) !in Tokens(buf)
    decreases |buf|
  {
    var (t, rest) := Lex(buf);
    if t != Sym(ARITH_END) && t != Sym(ARITH_BAD) {
      TokensHaveNoEnd(rest);
    }
  }

  /** arith succeeds exactly when its text derives from the grammar and lazy evaluation of
      the tree raises no error; it then gives the value and leaves the variables of that
      evaluation. */
  method Arithmetic(s: string, env: Env) returns (r: Outcome, env1: Env)
    ensures r.Done? <==> exists e :: IsAssignment(e) && Yield(e) == Tokens(s) && Eval(e, env).Value?
    ensures r.Done? ==> forall e :: IsAssignment(e) && Yield(e) == Tokens(s) ==> Eval(e, env) == Value(r.v, env1)
  {
    var p := new Parser(s, env);
    r := p.Arith();
    env1 := p.env;
    TokensHaveNoEnd(s);
    forall e ensures ParseAll(Tokens(s)) == Some(e) <==> IsAssignment(e) && Yield(e) == Tokens(s) {
      ParserIsTheGrammar(Tokens(s), e);
    }
    ghost var parsed := ParseAll(Tokens(s));
    if parsed.Some? {
      assert IsAssignment(parsed.value);
    }
  }
}
