/** What each construct of the shell language runs, and what comes out of it; src/eval.c.  `eval ''` stands for a
    command that succeeds and `! eval ''` for one that fails. */
module ConstructLaws {
  import opened Wrappers
  import opened EvalSem
  import opened EvalFacts
  import opened EvalLaws

  const FAIL := Not(NOP)

  /** The state after a command that does nothing but return a status. */
  function Returned<S, O>(s: State<S, O>, tested: bool, status: int): State<S, O> {
    s.(status := status, trace := s.trace + [Checked(tested, 0, s.w)])
  }

  lemma NopReturns<S, O>(h: Host<S, O>, f: nat, tested: bool, s: State<S, O>)
    ensures Sem(h, f + 1, NOP, tested, s) == Fin(Normal, Returned(s, tested, 0))
  {
    hide Sem;
    NopDoesNothing(h, f, tested, s);
  }

  lemma FailReturns<S, O>(h: Host<S, O>, f: nat, tested: bool, s: State<S, O>)
    ensures Sem(h, f + 2, FAIL, tested, s) == Fin(Normal, Returned(s, true, 1))
  {
    NopReturns(h, f, true, s);
  }

  /** A list runs both of its commands, && the second after a success, the or operator after a failure. */
  lemma Lists<S, O>(h: Host<S, O>, f: nat, t: Node, tested: bool, s: State<S, O>)
    ensures Tail(h, f + 3, Semi(NOP, t), tested, s) == Tail(h, f + 2, t, tested, Returned(s, tested, 0))
    ensures Tail(h, f + 3, Semi(FAIL, t), tested, s) == Tail(h, f + 2, t, tested, Returned(s, true, 1))
    ensures Tail(h, f + 3, AndAnd(NOP, t), tested, s) == Tail(h, f + 2, t, tested, Returned(s, true, 0))
    ensures Tail(h, f + 3, AndAnd(FAIL, t), tested, s) == Fin(Normal, Returned(s, true, 1))
    ensures Tail(h, f + 3, OrOr(NOP, t), tested, s) == Fin(Normal, Returned(s, true, 0))
    ensures Tail(h, f + 3, OrOr(FAIL, t), tested, s) == Tail(h, f + 2, t, tested, Returned(s, true, 1))
  {
    hide Sem, Tail;
    forall test: bool
      ensures Sem(h, f + 2, NOP, test, s) == Fin(Normal, Returned(s, test, 0)) && Sem(h, f + 2, FAIL, test, s) == Fin(Normal, Returned(s, true, 1))
    {
      NopReturns(h, f + 1, test, s);
      FailReturns(h, f, test, s);
    }
    SequenceUnfold(h, f + 2, Semi(NOP, t), tested, s);
    SequenceUnfold(h, f + 2, Semi(FAIL, t), tested, s);
    SequenceUnfold(h, f + 2, AndAnd(NOP, t), tested, s);
    SequenceUnfold(h, f + 2, AndAnd(FAIL, t), tested, s);
    SequenceUnfold(h, f + 2, OrOr(NOP, t), tested, s);
    SequenceUnfold(h, f + 2, OrOr(FAIL, t), tested, s);
  }

  /** Whatever stops the first command stops the list; commands before && and the or operator are in a tested position. */
  lemma ListsStop<S, O>(h: Host<S, O>, f: nat, a: Node, t: Node, tested: bool, s: State<S, O>)
    ensures var r := Sem(h, f, a, tested, s); r.Fin? && r.out != Normal ==> Tail(h, f + 1, Semi(a, t), tested, s) == r
    ensures var r := Sem(h, f, a, true, s);
      r.Fin? && r.out != Normal ==> Tail(h, f + 1, AndAnd(a, t), tested, s) == r && Tail(h, f + 1, OrOr(a, t), tested, s) == r
  {
    hide Sem, Tail;
    SequenceUnfold(h, f, Semi(a, t), tested, s);
    SequenceUnfold(h, f, AndAnd(a, t), tested, s);
    SequenceUnfold(h, f, OrOr(a, t), tested, s);
  }

  /** The same after ! and if. */
  lemma ConditionsStop<S, O>(h: Host<S, O>, f: nat, a: Node, t: Node, e: Node, tested: bool, s: State<S, O>)
    ensures var r := Sem(h, f, a, true, s);
      r.Fin? && r.out != Normal ==> Tail(h, f + 1, Not(a), tested, s) == r && Tail(h, f + 1, If(a, t, e), tested, s) == r
  {
    hide Sem;
  }

  /** A command ends the shell exactly if it exits, or if it fails in a position that is not tested while -e is on. */
  lemma WhenACommandExits<S, O>(h: Host<S, O>, f: nat, name: string, cmd: int, tested: bool, s: State<S, O>)
    requires name !in s.funcs && s.heeds
    ensures var e := h.run(cmd, s.status, s.w);
      var r := Tail(h, f + 1, Simple(name, cmd), tested, s);
      && r.Fin? && r.s.w == e.w && r.s.status == e.status && r.s.funcs == s.funcs - h.unsetfuncs(cmd, s.status, s.w)
      && (r.out == Exit <==> e.kind.Exits? || (!e.kind.Fails? && !tested && e.status != 0 && h.eflag(e.w.sh)))
      && (r.out == Err <==> e.kind.Fails?)
  {
    hide SemCall;
  }

  /** ! turns success into failure and any failure into success. */
  lemma Negation<S, O>(h: Host<S, O>, f: nat, a: Node, tested: bool, s: State<S, O>)
    ensures var r := Sem(h, f, a, true, s);
      r.Fin? && r.out == Normal ==>
        Tail(h, f + 1, Not(a), tested, s) == Fin(Normal, r.s.(status := if r.s.status == 0 then 1 else 0))
  {
    hide Sem;
  }

  /** if runs the branch that its condition selects; without an else branch a failed condition gives 0. */
  lemma Conditional<S, O>(h: Host<S, O>, f: nat, a: Node, b: Node, tested: bool, s: State<S, O>)
    ensures Tail(h, f + 3, If(NOP, a, b), tested, s) == Tail(h, f + 2, a, tested, Returned(s, true, 0))
    ensures !b.Null? ==> Tail(h, f + 3, If(FAIL, a, b), tested, s) == Tail(h, f + 2, b, tested, Returned(s, true, 1))
    ensures b.Null? ==> Tail(h, f + 3, If(FAIL, a, b), tested, s) == Fin(Normal, Returned(s, true, 0))
  {
    NopReturns(h, f + 1, true, s);
    FailReturns(h, f, true, s);
    hide Sem;
  }

  // ----- loops -----

  lemma LoopIs<S, O>(h: Host<S, O>, f: nat, until: bool, cond: Node, body: Node, tested: bool, s: State<S, O>)
    ensures Tail(h, f + 1, Loop(until, cond, body), tested, s) == SemLoop(h, f, until, cond, body, tested, 0, s.(depth := s.depth + 1))
  {
    hide SemLoop;
  }

  /**
   * The condition of a loop is run one loop deeper, in a tested position.  while ends after a failure and until after a
   * success, with the status of the last body, at first 0.
   */
  lemma LoopEnds<S, O>(h: Host<S, O>, f: nat, until: bool, cond: Node, body: Node, tested: bool, acc: int, s: State<S, O>)
    ensures var c := Sem(h, f, cond, true, s);
      c.Fin? && c.out == Normal && (if until then c.s.status == 0 else c.s.status != 0) ==>
        SemLoop(h, f + 1, until, cond, body, tested, acc, s) == Fin(Normal, c.s.(status := acc, depth := c.s.depth - 1))
  {
    hide Sem, SemLoop, AfterCond, AfterBody, Tail;
    LoopUnfold(h, f + 1, until, cond, body, tested, acc, s);
    AfterCondUnfold(h, f, until, cond, body, tested, acc, Sem(h, f, cond, true, s));
  }

  /** Otherwise the body is run, and after it the loop again; what stops the body stops the loop. */
  lemma LoopGoesOn<S, O>(h: Host<S, O>, f: nat, until: bool, cond: Node, body: Node, tested: bool, acc: int, s: State<S, O>)
    requires var c := Sem(h, f, cond, true, s); c.Fin? && c.out == Normal && (if until then c.s.status != 0 else c.s.status == 0)
    ensures var r := Sem(h, f, body, tested, Sem(h, f, cond, true, s).s);
      var q := SemLoop(h, f + 1, until, cond, body, tested, acc, s);
      && (r.Fin? && r.out == Normal ==> q == SemLoop(h, f, until, cond, body, tested, r.s.status, r.s))
      && (r.Fin? && (r.out == Exit || r.out == Err) ==> q == r)
      && (r.Fin? && r.out == Ret ==> q == Fin(Ret, r.s.(depth := r.s.depth - 1)))
  {
    hide Sem, SemLoop, AfterCond, AfterBody, Tail;
    var c := Sem(h, f, cond, true, s);
    LoopUnfold(h, f + 1, until, cond, body, tested, acc, s);
    AfterCondUnfold(h, f, until, cond, body, tested, acc, c);
    AfterBodyUnfold(h, f, until, cond, body, tested, Sem(h, f, body, tested, c.s));
  }

  /** The words of a for loop, assigned in turn. */
  ghost function AllAssigned<S, O>(h: Host<S, O>, x: string, words: seq<string>, w: World<S, O>): World<S, O> {
    if words == [] then w else AllAssigned(h, x, words[1..], h.setvar(x, words[0], w).w)
  }

  /** A for loop runs its body once for each word, first to last. */
  lemma {:induction false} ForTakesEachWord<S(!new), O(!new)>(h: Host<S, O>, f: nat, x: string, words: seq<string>, tested: bool, acc: int, s: State<S, O>)
    requires f >= |words| + 2 && forall word, w :: h.setvar(x, word, w).kind == Returns
    ensures var r := SemFor(h, f, x, words, NOP, tested, acc, s);
      && r.Fin? && r.out == Normal && r.s.w == AllAssigned(h, x, words, s.w) && r.s.depth == s.depth - 1
      && r.s.status == (if words == [] then acc else 0) && |r.s.trace| == |s.trace| + |words|
    decreases |words|
  {
    hide Sem, Tail, SemFor, AfterWord;
    ForUnfold(h, f, x, words, NOP, tested, acc, s);
    if words != [] {
      var s1 := s.(w := h.setvar(x, words[0], s.w).w);
      NopReturns(h, f - 2, tested, s1);
      var s2 := Returned(s1, tested, 0);
      AfterWordUnfold(h, f - 1, x, words[1..], NOP, tested, Fin(Normal, s2));
      ForTakesEachWord(h, f - 1, x, words[1..], tested, 0, s2);
    }
  }

  /** A return in the body ends the loop too, an error or exit leaves it counted. */
  lemma ForStops<S, O>(h: Host<S, O>, f: nat, x: string, words: seq<string>, body: Node, tested: bool, acc: int, s: State<S, O>)
    requires words != [] && h.setvar(x, words[0], s.w).kind == Returns
    ensures var r := Sem(h, f, body, tested, s.(w := h.setvar(x, words[0], s.w).w));
      var q := SemFor(h, f + 1, x, words, body, tested, acc, s);
      && (r.Fin? && r.out == Normal ==> q == SemFor(h, f, x, words[1..], body, tested, r.s.status, r.s))
      && (r.Fin? && (r.out == Exit || r.out == Err) ==> q == r)
      && (r.Fin? && r.out == Ret ==> q == Fin(Ret, r.s.(depth := r.s.depth - 1)))
  {
    hide Sem, Tail, SemFor, AfterWord;
    ForUnfold(h, f + 1, x, words, body, tested, acc, s);
    AfterWordUnfold(h, f, x, words[1..], body, tested, Sem(h, f, body, tested, s.(w := h.setvar(x, words[0], s.w).w)));
  }

  // ----- case -----

  /** The case command with two clauses, the first of which may fall through to the second. */
  lemma CaseSelects<S, O>(h: Host<S, O>, f: nat, subject: int, p: int, a: Node, q: int, b: Node, fall: bool, tested: bool, s: State<S, O>)
    requires var e := h.word(subject, s.status, s.w); e.ok && h.matches(p, e.text, e.status, e.w).ok
    ensures var e := h.word(subject, s.status, s.w);
      var m := h.matches(p, e.text, e.status, e.w);
      var n := h.matches(q, e.text, m.status, m.w);
      var r := Tail(h, f + 2, Case(subject, Clist(p, a, Clist(q, b, Null, false), fall)), tested, s);
      var s1, s2 := s.(w := m.w, status := m.status), s.(w := n.w, status := n.status);
      && (m.found && !fall && !a.Null? ==> r == Tail(h, f + 1, a, tested, s1))
      && (m.found && !fall && a.Null? ==> r == Fin(Normal, s1.(status := 0)))
      && (m.found && fall && a.Null? && !b.Null? ==> r == Tail(h, f + 1, b, tested, s1))
      && (m.found && fall && !a.Null? ==>
            var first := Sem(h, f, a, tested, s1);
            r == if first.NoFuel? || first.out != Normal then first else Tail(h, f, Clist(q, b, Null, false), tested, first.s))
      && (!m.found && n.ok && n.found && !b.Null? ==> r == Tail(h, f + 1, b, tested, s2))
      && (!m.found && n.ok && n.found && b.Null? ==> r == Fin(Normal, s2.(status := 0)))
      && (!m.found && n.ok && !n.found ==> r == Fin(Normal, s2.(status := 0)))
      && (!m.found && !n.ok ==> r == Fin(Err, s2))
  {
    var e := h.word(subject, s.status, s.w);
    var s0 := s.(w := e.w, status := e.status);
    var clauses := Clist(p, a, Clist(q, b, Null, false), fall);
    CaseIs(h, f + 1, subject, clauses, tested, s);
    TwoClauses(h, e.text, p, a, q, b, fall, s0);
    var m := h.matches(p, e.text, e.status, e.w);
    if !a.Null? {
      FallsThrough(h, f, p, a, Clist(q, b, Null, false), tested, s.(w := m.w, status := m.status));
    }
    hide Tail, Sem, SelectCase;
    NothingToRun(h, f + 1, tested);
  }

  lemma NothingToRun<S, O>(h: Host<S, O>, f: nat, tested: bool)
    ensures forall s: State<S, O> :: Tail(h, f, Null, tested, s) == Fin(Normal, s)
  {
  }

  lemma CaseIs<S, O>(h: Host<S, O>, f: nat, subject: int, clauses: Node, tested: bool, s: State<S, O>)
    requires h.word(subject, s.status, s.w).ok
    ensures var e := h.word(subject, s.status, s.w);
      var c := SelectCase(h, e.text, clauses, s.(w := e.w, status := e.status));
      Tail(h, f + 1, Case(subject, clauses), tested, s) ==
        if c.NoClause? then Fin(Normal, c.s.(status := 0))
        else if c.BadPattern? then Fin(Err, c.s)
        else Tail(h, f, c.c, tested, if c.c.Null? then c.s.(status := 0) else c.s)
  {
    hide SelectCase;
  }

  lemma TwoClauses<S, O>(h: Host<S, O>, text: string, p: int, a: Node, q: int, b: Node, fall: bool, s: State<S, O>)
    requires h.matches(p, text, s.status, s.w).ok
    ensures var m := h.matches(p, text, s.status, s.w);
      var n := h.matches(q, text, m.status, m.w);
      var last := Clist(q, b, Null, false);
      var c := SelectCase(h, text, Clist(p, a, last, fall), s);
      var s1, s2 := s.(w := m.w, status := m.status), s.(w := n.w, status := n.status);
      && (m.found ==> c == Selected(if !fall then a else if a.Null? then b else Clist(p, a, last, fall), s1))
      && (!m.found ==> c == if !n.ok then BadPattern(s2) else if n.found then Selected(b, s2) else NoClause(s2))
  {
    var m := h.matches(p, text, s.status, s.w);
    var last := Clist(q, b, Null, false);
    assert SkipEmpty(last) == b;
    if !m.found {
      var s1 := s.(w := m.w, status := m.status);
      assert SelectCase(h, text, Clist(p, a, last, fall), s) == SelectCase(h, text, last, s1);
      OneClause(h, text, q, b, s1);
    }
  }

  lemma OneClause<S, O>(h: Host<S, O>, text: string, q: int, b: Node, s: State<S, O>)
    ensures var n := h.matches(q, text, s.status, s.w);
      var s2 := s.(w := n.w, status := n.status);
      SelectCase(h, text, Clist(q, b, Null, false), s)
      == if !n.ok then BadPattern(s2) else if n.found then Selected(b, s2) else NoClause(s2)
  {
    var n := h.matches(q, text, s.status, s.w);
    var s2 := s.(w := n.w, status := n.status);
    assert SelectCase(h, text, Null, s2) == NoClause(s2);
  }

  /** A clause that falls through runs its body and then the next clause. */
  lemma FallsThrough<S, O>(h: Host<S, O>, f: nat, p: int, a: Node, next: Node, tested: bool, s: State<S, O>)
    requires !a.Null?
    ensures var first := Sem(h, f, a, tested, s);
      Tail(h, f + 1, Clist(p, a, next, true), tested, s) == if first.NoFuel? || first.out != Normal then first else Tail(h, f, next, tested, first.s)
    ensures Tail(h, f + 1, Clist(p, a, next, false), tested, s) == Tail(h, f, a, tested, s)
  {
    hide Sem;
  }

  // ----- functions and return -----

  /** A definition succeeds; from then on the name runs the body, with the variables of the call taken back after it. */
  lemma DefinedThenCalled<S, O>(h: Host<S, O>, f: nat, name: string, body: Node, cmd: int, tested: bool, s: State<S, O>)
    requires h.enter(cmd, s.w).kind == Returns && h.bind(cmd, 0, h.enter(cmd, s.w).w).kind == Returns
    ensures var e := h.enter(cmd, s.w);
      var b := h.bind(cmd, 0, e.w);
      var s1 := s.(funcs := s.funcs[name := body], status := 0);
      var r := Sem(h, f, body, tested, s1.(w := b.w));
      && Tail(h, f + 1, Defun(name, body), tested, s) == Fin(Normal, s1)
      && Tail(h, f + 2, Semi(Defun(name, body), Simple(name, cmd)), tested, s) ==
           Etest(h, tested, CallResult(h, r, s.w.sh))
  {
    hide Sem, SemCall, CallResult, Etest;
    var s1 := s.(funcs := s.funcs[name := body], status := 0);
    DefunIs(h, f, name, body, tested, s);
    SequenceUnfold(h, f + 1, Semi(Defun(name, body), Simple(name, cmd)), tested, s);
    CallIs(h, f, name, cmd, tested, s1);
    CallUnfold(h, f, body, cmd, tested, s1);
  }

  lemma DefunIs<S, O>(h: Host<S, O>, f: nat, name: string, body: Node, tested: bool, s: State<S, O>)
    ensures var s1 := s.(funcs := s.funcs[name := body], status := 0);
      Tail(h, f + 1, Defun(name, body), tested, s) == Fin(Normal, s1) && Sem(h, f + 1, Defun(name, body), tested, s) == Fin(Normal, s1)
  {
  }

  lemma CallIs<S, O>(h: Host<S, O>, f: nat, name: string, cmd: int, tested: bool, s: State<S, O>)
    requires name in s.funcs
    ensures Tail(h, f + 1, Simple(name, cmd), tested, s) == Etest(h, tested, SemCall(h, f, s.funcs[name], cmd, tested, s))
  {
    hide SemCall, Etest;
  }

  /**
   * return gives its status, by default that of the command before, runs nothing after it, and stops at the call of the function or at the dot command, but not
   * at eval: the command after a call is run.
   */
  lemma ReturnStopsAtCall<S, O>(h: Host<S, O>, f: nat, code: int, t: Node, tested: bool, s: State<S, O>)
    requires !h.eflag(s.w.sh)
    ensures var r := Semi(ReturnCmd(Some(code)), t);
      var q := Sem(h, f + 2, r, tested, s);
      && q == Fin(Ret, s.(status := code, trace := s.trace + [Checked(tested, code, s.w)]))
      && CallResult(h, q, s.w.sh).Fin? && CallResult(h, q, s.w.sh).out == Normal && CallResult(h, q, s.w.sh).s.status == code
      && AfterDot(q).Fin? && AfterDot(q).out == Normal && AfterDot(q).s.status == code
      && Catch(true, s.depth, q) == q
    ensures Tail(h, f + 1, ReturnCmd(None), tested, s) == Tail(h, f + 1, ReturnCmd(Some(s.status)), tested, s)
  {
    hide Sem, Tail;
    BuiltinUnfold(h, f, ReturnCmd(None), tested, s);
    BuiltinUnfold(h, f, ReturnCmd(Some(s.status)), tested, s);
    ReturnIs(h, f, code, tested, s);
    SequenceUnfold(h, f + 1, Semi(ReturnCmd(Some(code)), t), tested, s);
    SomethingIsTail(h, f + 2, Semi(ReturnCmd(Some(code)), t), tested, s);
  }

  lemma SomethingIsTail<S, O>(h: Host<S, O>, f: nat, n: Node, tested: bool, s: State<S, O>)
    requires !n.Null?
    ensures Sem(h, f, n, tested, s) == Tail(h, f, n, tested, s)
  {
    hide Tail;
  }

  lemma ReturnIs<S, O>(h: Host<S, O>, f: nat, code: int, tested: bool, s: State<S, O>)
    requires !h.eflag(s.w.sh)
    ensures Sem(h, f + 1, ReturnCmd(Some(code)), tested, s) == Fin(Ret, s.(status := code, trace := s.trace + [Checked(tested, code, s.w)]))
  {
    BuiltinUnfold(h, f, ReturnCmd(Some(code)), tested, s);
    hide Tail;
  }

  /** eval and dot run their commands one after the other, eval in the position it has, dot in an untested one. */
  lemma TextsRunInTurn<S, O>(h: Host<S, O>, f: nat, a: Node, b: Node, tested: bool, any: bool, s: State<S, O>)
    requires !a.Null? && !b.Null?
    ensures var list := SemList(h, f, Cons(a, Cons(b, Nil)), tested, any, s);
      var r := Sem(h, f, a, tested, s);
      list == if r.NoFuel? || r.out != Normal then r else Sem(h, f, b, tested, r.s)
    ensures Tail(h, f + 1, EvalCmd(Cons(a, Nil), false), tested, s) == Etest(h, tested, Sem(h, f, a, tested, s.(status := 0)))
    ensures Tail(h, f + 1, DotCmd(Cons(a, Nil), false), tested, s) == Etest(h, tested, AfterDot(Sem(h, f, a, false, s)))
  {
    hide Sem, SemList, Tail, Etest, AfterDot;
    BuiltinUnfold(h, f, EvalCmd(Cons(a, Nil), false), tested, s);
    BuiltinUnfold(h, f, DotCmd(Cons(a, Nil), false), tested, s);
    OneText(h, f, a, tested, false, s.(status := 0));
    OneText(h, f, a, false, false, s);
    ListUnfold(h, f, Cons(a, Cons(b, Nil)), tested, any, s);
    var r := Sem(h, f, a, tested, s);
    if r.Fin? {
      OneText(h, f, b, tested, true, r.s);
    }
  }

  lemma OneText<S, O>(h: Host<S, O>, f: nat, a: Node, tested: bool, any: bool, s: State<S, O>)
    requires !a.Null?
    ensures SemList(h, f, Cons(a, Nil), tested, any, s) == Sem(h, f, a, tested, s)
  {
    hide Sem, SemList;
    ListUnfold(h, f, Cons(a, Nil), tested, any, s);
    var r := Sem(h, f, a, tested, s);
    if r.Fin? {
      ListUnfold(h, f, Nil, tested, true, r.s);
    }
  }

  // ----- processes -----

  /** Whatever a subshell does to variables, functions and loops, and however it ends, its parent sees the system and the status only. */
  lemma SubshellIsApart<S, O>(h: Host<S, O>, f: nat, redir: int, body: Node, tested: bool, s: State<S, O>)
    ensures var r := SemSubshell(h, f, redir, body, tested, s);
      var x := h.expredir(redir, s.status, s.w);
      r.Fin? ==>
        && r.s.funcs == s.funcs && r.s.depth == s.depth && r.s.heeds == s.heeds && r.s.w.sh == x.w.sh
        && (x.kind == Returns ==> r.out == Normal && 0 <= r.s.status < 256)
  {
    hide Sem, SubshellProcess;
    SubshellUnfold(h, f, redir, body, tested, s);
  }

  /** Inside, there is no loop to break, the functions are those of the parent, and what is returned is its status modulo 256. */
  lemma SubshellRuns<S, O>(h: Host<S, O>, f: nat, redir: int, body: Node, tested: bool, s: State<S, O>)
    requires h.expredir(redir, s.status, s.w).kind == Returns && h.redirect(redir, h.expredir(redir, s.status, s.w).w).kind == Returns
    ensures var x := h.expredir(redir, s.status, s.w);
      var e := h.redirect(redir, x.w);
      var inside := State(e.w, x.status, 0, s.funcs, true, []);
      var p := Sem(h, f, body, tested, inside);
      var r := SemSubshell(h, f, redir, body, tested, s);
      if p.NoFuel? then r.NoFuel? else r.Fin? && r.s.w.os == p.s.w.os && (r.s.status - p.s.status) % 256 == 0
  {
    hide Sem;
    SubshellUnfold(h, f, redir, body, tested, s);
  }

  /** The commands of a pipeline change nothing in the shell; its status is that of the last. */
  lemma {:induction false} PipelineIsApart<S, O>(h: Host<S, O>, f: nat, cmds: NodeList, i: nat, done: seq<O>, last: int, s: State<S, O>)
    ensures var r := SemPipe(h, f, cmds, i, done, last, s);
      r.Fin? ==>
        && r.out == Normal && r.s.funcs == s.funcs && r.s.depth == s.depth && r.s.w.sh == s.w.sh && 0 <= r.s.status < 256
        && r.s.status == WaitStatus(LastStatus(h, f, cmds, i, last, s))
    decreases cmds
  {
    hide Sem, SemPipe;
    PipeUnfold(h, f, cmds, i, done, last, s);
    if cmds.Cons? {
      var r := Sem(h, f, cmds.hd, false, Child(s, h.pipeView(i, s.w), s.status, s.depth));
      if r.Fin? {
        PipelineIsApart(h, f, cmds.tl, i + 1, done + [r.s.w.os], r.s.status, After(s, r));
      }
    }
  }

  /** The status of the last command, each a copy of the shell with the pipe in its place. */
  function LastStatus<S, O>(h: Host<S, O>, f: nat, cmds: NodeList, i: nat, last: int, s: State<S, O>): int
    decreases cmds
  {
    match cmds
    case Nil => last
    case Cons(c, rest) =>
      var r := Sem(h, f, c, false, Child(s, h.pipeView(i, s.w), s.status, s.depth));
      LastStatus(h, f, rest, i + 1, if r.Fin? then r.s.status else last, After(s, r))
  }

  /** A redirected command leaves the redirections as they were, whether or not they could be made and however it ends. */
  lemma RedirectionIsUndone<S(!new), O(!new)>(h: Host<S, O>, f: nat, redir: int, body: Node, tested: bool, s: State<S, O>)
    requires h.expredir(redir, s.status, s.w).kind == Returns && forall before, after :: h.unredirect(before, after) == before
    ensures var r := SemRedir(h, f, redir, body, tested, s);
      r.Fin? ==> r.s.w.sh == h.expredir(redir, s.status, s.w).w.sh
    ensures var x := h.expredir(redir, s.status, s.w);
      var e := h.redirect(redir, x.w);
      var r, p := SemRedir(h, f, redir, body, tested, s), Sem(h, f, body, tested, s.(w := e.w, status := x.status));
      if e.kind != Returns then r.Fin? && r.out == Normal && r.s.status == e.status
      else p.Fin? ==> r.Fin? && r.out == p.out && r.s.status == p.s.status && r.s.w.os == p.s.w.os
  {
    hide Sem;
    RedirUnfold(h, f, redir, body, tested, s);
    var x := h.expredir(redir, s.status, s.w);
    var e := h.redirect(redir, x.w);
    var p := Sem(h, f, body, tested, s.(w := e.w, status := x.status));
    assert h.unredirect(x.w.sh, e.w.sh) == x.w.sh;
    if p.Fin? {
      assert h.unredirect(x.w.sh, p.s.w.sh) == x.w.sh;
    }
  }

  /** A command killed by a signal in an interactive shell acts as a break out of all loops, and outside loops as nothing. */
  lemma SignalBreaksAllLoops<S, O>(h: Host<S, O>, name: string, cmd: int, tested: bool, f: nat, s: State<S, O>)
    requires name !in s.funcs && h.run(cmd, s.status, s.w) == Effect(Signaled, 0, s.w) && h.unsetfuncs(cmd, s.status, s.w) == {}
    ensures s.depth >= 1 ==> Tail(h, f + 1, Simple(name, cmd), tested, s) == Tail(h, f + 1, BreakCmd(false, s.depth), tested, s)
    ensures s.depth == 0 ==> Tail(h, f + 1, Simple(name, cmd), tested, s) == Fin(Normal, Returned(s, tested, 0))
  {
    BuiltinUnfold(h, f, BreakCmd(false, s.depth), tested, s);
    hide SemCall;
  }

  /** A background command gives status 0 at once and runs no commands in the shell itself. */
  lemma BackgroundReturns<S, O>(h: Host<S, O>, f: nat, redir: int, body: Node, cmds: NodeList, tested: bool, s: State<S, O>)
    requires h.expredir(redir, s.status, s.w).kind == Returns
    ensures var r := Tail(h, f + 1, Background(redir, body), tested, s);
      r.Fin? && r.out == Normal && r.s.status == 0 && r.s.w.sh == h.expredir(redir, s.status, s.w).w.sh && r.s.trace == s.trace
    ensures var q := Tail(h, f + 1, Pipe(true, cmds), tested, s);
      q.Fin? && q.out == Normal && q.s.status == 0 && q.s.w.sh == s.w.sh
  {
  }

  // ----- what goes wrong -----

  /** break and continue in the condition of a loop: the one ends it with the status so far, the other starts the next turn. */
  lemma ConditionJumps<S, O>(h: Host<S, O>, f: nat, until: bool, body: Node, tested: bool, acc: int, s: State<S, O>)
    requires s.depth >= 1
    ensures var after := Returned(s, true, 0);
      && SemLoop(h, f + 2, until, BreakCmd(false, 1), body, tested, acc, s) == Fin(Normal, after.(status := acc, depth := s.depth - 1))
      && SemLoop(h, f + 2, until, BreakCmd(true, 1), body, tested, acc, s) == SemLoop(h, f + 1, until, BreakCmd(true, 1), body, tested, acc, after)
  {
    hide Sem, SemLoop, AfterCond, AfterBody, Tail;
    BreakJumps(h, f, false, 1, true, s);
    BreakJumps(h, f, true, 1, true, s);
    LoopUnfold(h, f + 2, until, BreakCmd(false, 1), body, tested, acc, s);
    LoopUnfold(h, f + 2, until, BreakCmd(true, 1), body, tested, acc, s);
    AfterCondUnfold(h, f + 1, until, BreakCmd(false, 1), body, tested, acc, Sem(h, f + 1, BreakCmd(false, 1), true, s));
    AfterCondUnfold(h, f + 1, until, BreakCmd(true, 1), body, tested, acc, Sem(h, f + 1, BreakCmd(true, 1), true, s));
  }

  /** A call whose redirections fail returns their status without running the body; failing assignments are an error. */
  lemma FailingCall<S, O>(h: Host<S, O>, f: nat, body: Node, cmd: int, tested: bool, s: State<S, O>)
    ensures var e := h.enter(cmd, s.w);
      var b := h.bind(cmd, s.status, e.w);
      var r := SemCall(h, f, body, cmd, tested, s);
      && (e.kind != Returns ==> r == Fin(Normal, s.(w := e.w.(sh := h.leave(s.w.sh, e.w.sh)), status := e.status)))
      && (e.kind == Returns && b.kind != Returns ==> r == Fin(Err, s.(w := b.w.(sh := h.leave(s.w.sh, b.w.sh)), status := b.status)))
  {
    hide Sem, SemCall;
    CallUnfold(h, f, body, cmd, tested, s);
  }

  /** What cannot be expanded is an error, and the command is not run. */
  lemma ExpansionErrors<S, O>(h: Host<S, O>, f: nat, id: int, x: string, body: Node, tested: bool, s: State<S, O>)
    ensures var e := h.expredir(id, s.status, s.w);
      var failed := Fin(Err, s.(w := e.w, status := e.status));
      e.kind != Returns ==>
        && Tail(h, f + 1, Redir(id, body), tested, s) == failed && Tail(h, f + 1, Subshell(id, body), tested, s) == failed
        && Tail(h, f + 1, Background(id, body), tested, s) == failed
    ensures var e := h.expand(id, s.status, s.w);
      !e.ok ==> Tail(h, f + 1, For(x, id, body), tested, s) == Fin(Err, s.(w := e.w, status := e.status))
    ensures var e := h.word(id, s.status, s.w);
      !e.ok ==> Tail(h, f + 1, Case(id, body), tested, s) == Fin(Err, s.(w := e.w, status := e.status))
  {
    hide Sem, SemFor, SelectCase, SubshellProcess;
  }

  /** `command` turns an error of eval or dot into its status; without it the error goes on. */
  lemma CommandCatches<S, O>(h: Host<S, O>, f: nat, a: Node, tested: bool, s: State<S, O>)
    requires !a.Null?
    ensures var r := Sem(h, f, a, tested, s.(status := 0));
      r.Fin? && r.out == Err ==>
        && Tail(h, f + 1, EvalCmd(Cons(a, Nil), false), tested, s) == r
        && var q := Tail(h, f + 1, EvalCmd(Cons(a, Nil), true), tested, s);
           && q.Fin? && q.s.w == r.s.w && q.s.status == r.s.status && q.s.funcs == r.s.funcs
           && (q.out == Normal || (q.out == Exit && !tested && r.s.status != 0 && h.eflag(r.s.w.sh)))
  {
    hide Sem, SemList, Tail;
    BuiltinUnfold(h, f, EvalCmd(Cons(a, Nil), false), tested, s);
    BuiltinUnfold(h, f, EvalCmd(Cons(a, Nil), true), tested, s);
    OneText(h, f, a, tested, false, s.(status := 0));
  }

  /** A text without commands gives 0, and empty commands in it are passed over. */
  lemma EmptyTexts<S, O>(h: Host<S, O>, f: nat, trees: NodeList, tested: bool, any: bool, s: State<S, O>)
    ensures SemList(h, f, Nil, tested, false, s) == Fin(Normal, s.(status := 0))
    ensures SemList(h, f, Cons(Null, trees), tested, any, s) == SemList(h, f, trees, tested, any, s)
  {
    hide Sem;
  }
}
