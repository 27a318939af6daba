/** Laws of loops in the semantics of src/eval.c: what break and continue do in any number of
    nested loops, said without looking at how they are encoded. */
module EvalLaws {
  import opened EvalSem
  import opened EvalFacts

  // ----- nested loops with a break or continue -----

  /** `eval ''`, which returns 0 and changes nothing. */
  const NOP := EvalCmd(Nil, false)

  datatype Head = OverWords(x: string, words: int) | While(until: bool, cond: Node)

  function InLoop(head: Head, body: Node): Node {
    match head
    case OverWords(x, words) => For(x, words, body)
    case While(until, cond) => Loop(until, cond, body)
  }

  /** Loops around a body, the outermost first. */
  function Nested(heads: seq<Head>, body: Node): Node {
    if heads == [] then body else InLoop(heads[0], Nested(heads[1..], body))
  }

  /** `b; break n; after`, or with continue.  Leaving no loop is doing nothing. */
  function Leaving(b: Node, isCont: bool, n: nat, after: Node): Node {
    Semi(b, if n == 0 then Semi(NOP, Null) else Semi(BreakCmd(isCont, n), after))
  }

  function Jump(isCont: bool, n: nat): Outcome {
    if isCont then Cnt(n) else Brk(n)
  }

  /** The loops around `b` are run up to the end of a `b` that ends normally. */
  ghost predicate Reached<S, O>(h: Host<S, O>, f: nat, heads: seq<Head>, b: Node, after: Node, tested: bool, s: State<S, O>)
    decreases f, 1
  {
    if heads == [] then
      f >= 3 && (var r := Sem(h, f - 1, b, tested, s); r.Fin? && r.out == Normal)
    else
      f >= 1 &&
      match heads[0]
      case OverWords(x, words) =>
        var e := h.expand(words, s.status, s.w);
        e.ok && ReachedFor(h, f - 1, x, e.words, heads[1..], b, after, tested, s.(w := e.w, status := e.status, depth := s.depth + 1))
      case While(until, cond) =>
        ReachedLoop(h, f - 1, until, cond, heads[1..], b, after, tested, s.(depth := s.depth + 1))
  }

  /** A turn that leaves the inner loops only. */
  ghost function InnerTurn<S, O>(h: Host<S, O>, f: nat, heads: seq<Head>, b: Node, after: Node, tested: bool, s: State<S, O>): Res<S, O> {
    Tail(h, f, Nested(heads, Leaving(b, false, |heads|, after)), tested, s)
  }

  predicate GoesOn<S, O>(r: Res<S, O>) {
    r.Fin? && (r.out == Normal || NextTurn(r.out))
  }

  ghost predicate ReachedFor<S, O>(h: Host<S, O>, f: nat, x: string, words: seq<string>, heads: seq<Head>, b: Node, after: Node,
                                   tested: bool, s: State<S, O>)
    decreases f, 0
  {
    words != [] && f >= 1 &&
    var e := h.setvar(x, words[0], s.w);
    e.kind.Returns? &&
    (Reached(h, f - 1, heads, b, after, tested, s.(w := e.w))
     || ReachedWords(h, f - 1, x, words[1..], heads, b, after, tested, InnerTurn(h, f - 1, heads, b, after, tested, s.(w := e.w))))
  }

  /** In a turn for one of the other words. */
  ghost predicate ReachedWords<S, O>(h: Host<S, O>, f: nat, x: string, words: seq<string>, heads: seq<Head>, b: Node, after: Node,
                                     tested: bool, turn: Res<S, O>)
    decreases f, 2
  {
    GoesOn(turn) && ReachedFor(h, f, x, words, heads, b, after, tested, turn.s)
  }

  ghost predicate ReachedLoop<S, O>(h: Host<S, O>, f: nat, until: bool, cond: Node, heads: seq<Head>, b: Node, after: Node,
                                    tested: bool, s: State<S, O>)
    decreases f, 0
  {
    f >= 1 && ReachedBody(h, f - 1, until, cond, heads, b, after, tested, Sem(h, f - 1, cond, true, s))
  }

  /** Once the condition has been run. */
  ghost predicate ReachedBody<S, O>(h: Host<S, O>, f: nat, until: bool, cond: Node, heads: seq<Head>, b: Node, after: Node,
                                    tested: bool, c: Res<S, O>)
    decreases f, 3
  {
    c.Fin? &&
    if NextTurn(c.out) then ReachedLoop(h, f, until, cond, heads, b, after, tested, c.s)
    else
      c.out == Normal && (c.s.status == 0) != until &&
      (Reached(h, f, heads, b, after, tested, c.s)
       || ReachedAgain(h, f, until, cond, heads, b, after, tested, InnerTurn(h, f, heads, b, after, tested, c.s)))
  }

  /** In a later turn. */
  ghost predicate ReachedAgain<S, O>(h: Host<S, O>, f: nat, until: bool, cond: Node, heads: seq<Head>, b: Node, after: Node,
                                     tested: bool, turn: Res<S, O>)
    decreases f, 2
  {
    GoesOn(turn) && ReachedLoop(h, f, until, cond, heads, b, after, tested, turn.s)
  }

  // ----- the recursive conditions, one step at a time -----

  lemma {:induction false} NoWordReaches<S, O>(h: Host<S, O>, f: nat, x: string, words: seq<string>, heads: seq<Head>, b: Node, after: Node,
    tested: bool, s: State<S, O>)
    requires words == [] || f == 0 || !h.setvar(x, words[0], s.w).kind.Returns?
    ensures !ReachedFor(h, f, x, words, heads, b, after, tested, s)
  {
    hide Sem, Tail, Leaving, Nested, InnerTurn, Reached, ReachedWords, ReachedLoop, ReachedBody, ReachedAgain;
  }

  lemma {:induction false} FirstWordReaches<S, O>(h: Host<S, O>, f: nat, x: string, words: seq<string>, heads: seq<Head>, b: Node, after: Node,
    tested: bool, s: State<S, O>)
    requires words != [] && f >= 1 && h.setvar(x, words[0], s.w).kind.Returns?
    requires Reached(h, f - 1, heads, b, after, tested, s.(w := h.setvar(x, words[0], s.w).w))
    ensures ReachedFor(h, f, x, words, heads, b, after, tested, s)
  {
    hide Sem, Tail, Leaving, Nested, InnerTurn, Reached, ReachedWords, ReachedLoop, ReachedBody, ReachedAgain;
  }

  lemma {:induction false} FirstWordDoesNot<S, O>(h: Host<S, O>, f: nat, x: string, words: seq<string>, heads: seq<Head>, b: Node, after: Node,
    tested: bool, s: State<S, O>)
    requires words != [] && f >= 1 && h.setvar(x, words[0], s.w).kind.Returns?
    requires !Reached(h, f - 1, heads, b, after, tested, s.(w := h.setvar(x, words[0], s.w).w))
    ensures var turn := InnerTurn(h, f - 1, heads, b, after, tested, s.(w := h.setvar(x, words[0], s.w).w));
      ReachedFor(h, f, x, words, heads, b, after, tested, s) == ReachedWords(h, f - 1, x, words[1..], heads, b, after, tested, turn)
  {
    hide Sem, Tail, Leaving, Nested, InnerTurn, Reached, ReachedWords, ReachedLoop, ReachedBody, ReachedAgain;
  }

  lemma {:induction false} WordsReach<S, O>(h: Host<S, O>, f: nat, x: string, words: seq<string>, heads: seq<Head>, b: Node, after: Node,
    tested: bool, turn: Res<S, O>)
    requires GoesOn(turn)
    ensures ReachedWords(h, f, x, words, heads, b, after, tested, turn) == ReachedFor(h, f, x, words, heads, b, after, tested, turn.s)
  {
    hide Sem, Tail, Leaving, Nested, InnerTurn, Reached, ReachedFor, ReachedLoop, ReachedBody, ReachedAgain;
  }

  lemma {:induction false} LoopReaches<S, O>(h: Host<S, O>, f: nat, until: bool, cond: Node, heads: seq<Head>, b: Node, after: Node,
    tested: bool, s: State<S, O>)
    requires f >= 1
    ensures ReachedLoop(h, f, until, cond, heads, b, after, tested, s)
         == ReachedBody(h, f - 1, until, cond, heads, b, after, tested, Sem(h, f - 1, cond, true, s))
  {
    hide Sem, Tail, Leaving, Nested, InnerTurn, Reached, ReachedFor, ReachedWords, ReachedBody, ReachedAgain;
  }

  lemma {:induction false} CondGoesOn<S, O>(h: Host<S, O>, f: nat, until: bool, cond: Node, heads: seq<Head>, b: Node, after: Node,
    tested: bool, c: Res<S, O>)
    requires c.Fin? && NextTurn(c.out)
    ensures ReachedBody(h, f, until, cond, heads, b, after, tested, c) == ReachedLoop(h, f, until, cond, heads, b, after, tested, c.s)
  {
    hide Sem, Tail, Leaving, Nested, InnerTurn, Reached, ReachedFor, ReachedWords, ReachedLoop, ReachedAgain;
  }

  lemma {:induction false} BodyReaches<S, O>(h: Host<S, O>, f: nat, until: bool, cond: Node, heads: seq<Head>, b: Node, after: Node,
    tested: bool, c: Res<S, O>)
    requires c.Fin? && c.out == Normal && (c.s.status == 0) != until
    requires Reached(h, f, heads, b, after, tested, c.s)
    ensures ReachedBody(h, f, until, cond, heads, b, after, tested, c)
  {
    hide Sem, Tail, Leaving, Nested, InnerTurn, Reached, ReachedFor, ReachedWords, ReachedLoop, ReachedAgain;
  }

  lemma {:induction false} BodyDoesNot<S, O>(h: Host<S, O>, f: nat, until: bool, cond: Node, heads: seq<Head>, b: Node, after: Node,
    tested: bool, c: Res<S, O>)
    requires c.Fin? && c.out == Normal && (c.s.status == 0) != until
    requires !Reached(h, f, heads, b, after, tested, c.s)
    ensures ReachedBody(h, f, until, cond, heads, b, after, tested, c) == ReachedAgain(h, f, until, cond, heads, b, after, tested, InnerTurn(h, f, heads, b, after, tested, c.s))
  {
    hide Sem, Tail, Leaving, Nested, InnerTurn, Reached, ReachedFor, ReachedWords, ReachedLoop, ReachedAgain;
  }

  lemma {:induction false} CondEnds<S, O>(h: Host<S, O>, f: nat, until: bool, cond: Node, heads: seq<Head>, b: Node, after: Node,
    tested: bool, c: Res<S, O>)
    requires c.NoFuel? || (!NextTurn(c.out) && (c.out != Normal || (c.s.status == 0) == until))
    ensures !ReachedBody(h, f, until, cond, heads, b, after, tested, c)
  {
    hide Sem, Tail, Leaving, Nested, InnerTurn, Reached, ReachedFor, ReachedWords, ReachedLoop, ReachedAgain;
  }

  lemma {:induction false} AgainReaches<S, O>(h: Host<S, O>, f: nat, until: bool, cond: Node, heads: seq<Head>, b: Node, after: Node,
    tested: bool, turn: Res<S, O>)
    requires GoesOn(turn)
    ensures ReachedAgain(h, f, until, cond, heads, b, after, tested, turn) == ReachedLoop(h, f, until, cond, heads, b, after, tested, turn.s)
  {
    hide Sem, Tail, Leaving, Nested, InnerTurn, Reached, ReachedFor, ReachedWords, ReachedLoop, ReachedBody;
  }

  lemma {:induction false} WordsDoNot<S, O>(h: Host<S, O>, f: nat, x: string, words: seq<string>, heads: seq<Head>, b: Node, after: Node,
    tested: bool, turn: Res<S, O>)
    requires !GoesOn(turn)
    ensures !ReachedWords(h, f, x, words, heads, b, after, tested, turn)
  {
    hide Sem, Tail, Leaving, Nested, InnerTurn, Reached, ReachedFor, ReachedLoop, ReachedBody, ReachedAgain;
  }

  lemma {:induction false} AgainDoesNot<S, O>(h: Host<S, O>, f: nat, until: bool, cond: Node, heads: seq<Head>, b: Node, after: Node,
    tested: bool, turn: Res<S, O>)
    requires !GoesOn(turn)
    ensures !ReachedAgain(h, f, until, cond, heads, b, after, tested, turn)
  {
    hide Sem, Tail, Leaving, Nested, InnerTurn, Reached, ReachedFor, ReachedWords, ReachedLoop, ReachedBody;
  }

  lemma {:induction false} NoTurnReaches<S, O>(h: Host<S, O>, f: nat, until: bool, cond: Node, heads: seq<Head>, b: Node, after: Node,
    tested: bool, s: State<S, O>)
    requires f == 0
    ensures !ReachedLoop(h, f, until, cond, heads, b, after, tested, s)
  {
    hide Sem, Tail, Leaving, Nested, InnerTurn, Reached, ReachedFor, ReachedWords, ReachedBody, ReachedAgain;
  }

  /** `q` is `r`, but for the jump where `r` ends normally after the point was reached. */
  ghost predicate Jumps<S, O>(reached: bool, isCont: bool, k: nat, r: Res<S, O>, q: Res<S, O>) {
    if reached then r.Fin? && r.out == Normal && q == Fin(Jump(isCont, k), r.s) else q == r
  }

  /** Inside k loops more, `break` or `continue` out of the loops and k more leaves all of them and is then
      still to leave k; it does so exactly when it is reached. */
  lemma {:induction false} NestedLeaves<S(!new), O(!new)>(h: Host<S, O>, f: nat, heads: seq<Head>, b: Node, after: Node, isCont: bool,
                                                          k: nat, tested: bool, s: State<S, O>)
    requires 1 <= k <= s.depth
    ensures Jumps(Reached(h, f, heads, b, after, tested, s), isCont, k,
                  Tail(h, f, Nested(heads, Leaving(b, false, |heads|, after)), tested, s),
                  Tail(h, f, Nested(heads, Leaving(b, isCont, |heads| + k, after)), tested, s))
    decreases f, 1
  {
    hide Sem, SemFor, SemLoop, ReachedFor, ReachedLoop, Etest, Leaving;
    if heads == [] {
      BodyLeaves(h, f, b, after, isCont, k, tested, s);
    } else if f > 0 {
      match heads[0]
      case OverWords(x, words) =>
        var e := h.expand(words, s.status, s.w);
        if e.ok {
          ForLeaves(h, f - 1, x, e.words, heads[1..], b, after, isCont, k, tested, 0,
                    s.(w := e.w, status := e.status, depth := s.depth + 1));
        }
      case While(until, cond) =>
        LoopLeaves(h, f - 1, until, cond, heads[1..], b, after, isCont, k, tested, 0, s.(depth := s.depth + 1));
    }
  }

  lemma DepthKept<S(!new), O(!new)>(h: Host<S, O>, f: nat, n: Node, tested: bool, s: State<S, O>)
    requires s.depth >= 0
    ensures var r := Sem(h, f, n, tested, s); r.Fin? && r.out != Exit ==> r.s.depth >= s.depth
    ensures !n.Null? ==> Sem(h, f, n, tested, s) == Tail(h, f, n, tested, s)
  {
    hide Tail, Leaks, AllTested, TidyFuncs, DotFreeFuncs, CanExit;
    SemRuns(h, ANY, f, n, tested, s);
  }

  lemma BodyLeaves<S(!new), O(!new)>(h: Host<S, O>, f: nat, b: Node, after: Node, isCont: bool, k: nat, tested: bool, s: State<S, O>)
    requires 1 <= k <= s.depth
    ensures Jumps(Reached(h, f, [], b, after, tested, s), isCont, k,
                  Tail(h, f, Leaving(b, false, 0, after), tested, s), Tail(h, f, Leaving(b, isCont, k, after), tested, s))
  {
    hide Tail, Sem;
    if f > 0 {
      DepthKept(h, f - 1, b, tested, s);
      SemiUnfold(h, f - 1, b, Semi(NOP, Null), tested, s);
      SemiUnfold(h, f - 1, b, Semi(BreakCmd(isCont, k), after), tested, s);
      var r := Sem(h, f - 1, b, tested, s);
      if r.Fin? && r.out == Normal {
        if f >= 2 {
          JumpsOrNot(h, f - 2, isCont, k, after, tested, r.s);
        } else {
          NoFuelAtAll(h, Semi(NOP, Null), tested, r.s);
          NoFuelAtAll(h, Semi(BreakCmd(isCont, k), after), tested, r.s);
        }
      }
    } else {
      NoFuelAtAll(h, Leaving(b, false, 0, after), tested, s);
      NoFuelAtAll(h, Leaving(b, isCont, k, after), tested, s);
    }
  }

  lemma NoFuelAtAll<S, O>(h: Host<S, O>, n: Node, tested: bool, s: State<S, O>)
    ensures !n.Null? ==> Tail(h, 0, n, tested, s) == NoFuel(s.trace) && Sem(h, 0, n, tested, s) == NoFuel(s.trace)
  {
  }

  lemma SemiUnfold<S, O>(h: Host<S, O>, f: nat, a: Node, b: Node, tested: bool, s: State<S, O>)
    ensures var r := Sem(h, f, a, tested, s);
      Tail(h, f + 1, Semi(a, b), tested, s) == if r.NoFuel? || r.out != Normal then r else Tail(h, f, b, tested, r.s)
  {
    SequenceUnfold(h, f, Semi(a, b), tested, s);
  }

  lemma NopDoesNothing<S, O>(h: Host<S, O>, f: nat, tested: bool, s: State<S, O>)
    ensures var s1 := s.(status := 0); Sem(h, f + 1, NOP, tested, s) == Fin(Normal, Log(s1, Checked(tested, 0, s.w)))
  {
    hide SemList;
    BuiltinUnfold(h, f, NOP, tested, s);
    ListUnfold(h, f, Nil, tested, false, s.(status := 0));
    hide Tail;
  }

  lemma BreakJumps<S, O>(h: Host<S, O>, f: nat, isCont: bool, k: nat, tested: bool, s: State<S, O>)
    requires 1 <= k <= s.depth
    ensures var s1 := s.(status := 0); Sem(h, f + 1, BreakCmd(isCont, k), tested, s) == Fin(Jump(isCont, k), Log(s1, Checked(tested, 0, s.w)))
  {
    BuiltinUnfold(h, f, BreakCmd(isCont, k), tested, s);
    hide Tail;
  }

  lemma JumpsOrNot<S, O>(h: Host<S, O>, f: nat, isCont: bool, k: nat, after: Node, tested: bool, s: State<S, O>)
    requires 1 <= k <= s.depth
    ensures Jumps(f >= 1, isCont, k, Tail(h, f + 1, Semi(NOP, Null), tested, s), Tail(h, f + 1, Semi(BreakCmd(isCont, k), after), tested, s))
  {
    hide Sem, Tail;
    SemiUnfold(h, f, NOP, Null, tested, s);
    SemiUnfold(h, f, BreakCmd(isCont, k), after, tested, s);
    if f >= 1 {
      NopDoesNothing(h, f - 1, tested, s);
      BreakJumps(h, f - 1, isCont, k, tested, s);
      TailOfNothing(h, f, tested, Sem(h, f, NOP, tested, s).s);
    } else {
      NoFuelAtAll(h, NOP, tested, s);
      NoFuelAtAll(h, BreakCmd(isCont, k), tested, s);
    }
  }

  lemma TailOfNothing<S, O>(h: Host<S, O>, f: nat, tested: bool, s: State<S, O>)
    ensures Tail(h, f, Null, tested, s) == Fin(Normal, s)
  {
  }

  /** What one turn does with and without the jump, and what the loop makes of it. */
  lemma {:induction false} TurnLeaves<S(!new), O(!new)>(h: Host<S, O>, f: nat, heads: seq<Head>, b: Node, after: Node, isCont: bool,
                                                        k: nat, tested: bool, s: State<S, O>)
    requires 1 <= k < s.depth
    ensures var reached := Reached(h, f, heads, b, after, tested, s);
      var turn := InnerTurn(h, f, heads, b, after, tested, s);
      && Jumps(reached, false, 1, turn, Sem(h, f, Nested(heads, Leaving(b, false, |heads| + 1, after)), tested, s))
      && Jumps(reached, isCont, k + 1, turn, Sem(h, f, Nested(heads, Leaving(b, isCont, |heads| + 1 + k, after)), tested, s))
      && (turn.Fin? && turn.out != Exit ==> turn.s.depth >= s.depth)
    decreases f, 2
  {
    hide Sem, Tail, Jumps, Leaving, Reached;
    NestedLeaves(h, f, heads, b, after, false, 1, tested, s);
    NestedLeaves(h, f, heads, b, after, isCont, k + 1, tested, s);
    assert |heads| + (k + 1) == |heads| + 1 + k;
    NestedIsSomething(heads, b, false, |heads|, after);
    NestedIsSomething(heads, b, false, |heads| + 1, after);
    NestedIsSomething(heads, b, isCont, |heads| + 1 + k, after);
    DepthKept(h, f, Nested(heads, Leaving(b, false, |heads|, after)), tested, s);
    DepthKept(h, f, Nested(heads, Leaving(b, false, |heads| + 1, after)), tested, s);
    DepthKept(h, f, Nested(heads, Leaving(b, isCont, |heads| + 1 + k, after)), tested, s);
  }

  lemma NestedIsSomething(heads: seq<Head>, b: Node, isCont: bool, n: nat, after: Node)
    ensures !Nested(heads, Leaving(b, isCont, n, after)).Null?
  {
  }

  lemma {:induction false} ForLeaves<S(!new), O(!new)>(h: Host<S, O>, f: nat, x: string, words: seq<string>, heads: seq<Head>, b: Node,
                                                       after: Node, isCont: bool, k: nat, tested: bool, acc: int, s: State<S, O>)
    requires 1 <= k < s.depth
    ensures Jumps(ReachedFor(h, f, x, words, heads, b, after, tested, s), isCont, k,
                  SemFor(h, f, x, words, Nested(heads, Leaving(b, false, |heads| + 1, after)), tested, acc, s), SemFor(h, f, x, words, Nested(heads, Leaving(b, isCont, |heads| + 1 + k, after)), tested, acc, s))
    decreases f, 0
  {
    hide Sem, Tail, Leaving, Nested, Reached, InnerTurn, SemFor, AfterWord, ReachedWords, ReachedFor, Jumps;
    var t, u := Nested(heads, Leaving(b, false, |heads| + 1, after)), Nested(heads, Leaving(b, isCont, |heads| + 1 + k, after));
    ForUnfold(h, f, x, words, t, tested, acc, s);
    ForUnfold(h, f, x, words, u, tested, acc, s);
    if words != [] && f > 0 && h.setvar(x, words[0], s.w).kind.Returns? {
      var s1 := s.(w := h.setvar(x, words[0], s.w).w);
      if Reached(h, f - 1, heads, b, after, tested, s1) {
        FirstWordReaches(h, f, x, words, heads, b, after, tested, s);
        WordLeaves(h, f - 1, x, words[1..], heads, b, after, isCont, k, tested, s1);
      } else {
        FirstWordDoesNot(h, f, x, words, heads, b, after, tested, s);
        WordsLeave(h, f - 1, x, words[1..], heads, b, after, isCont, k, tested, s1);
      }
    } else {
      NoWordReaches(h, f, x, words, heads, b, after, tested, s);
      NoJump(isCont, k, SemFor(h, f, x, words, t, tested, acc, s));
    }
  }

  lemma NoJump<S, O>(isCont: bool, k: nat, r: Res<S, O>)
    ensures Jumps(false, isCont, k, r, r)
  {
  }

  lemma {:induction false} WordLeaves<S(!new), O(!new)>(h: Host<S, O>, f: nat, x: string, words: seq<string>, heads: seq<Head>, b: Node,
                                                        after: Node, isCont: bool, k: nat, tested: bool, s: State<S, O>)
    requires 1 <= k < s.depth && Reached(h, f, heads, b, after, tested, s)
    ensures var t, u := Nested(heads, Leaving(b, false, |heads| + 1, after)), Nested(heads, Leaving(b, isCont, |heads| + 1 + k, after));
      Jumps(true, isCont, k, AfterWord(h, f, x, words, t, tested, Sem(h, f, t, tested, s)), AfterWord(h, f, x, words, u, tested, Sem(h, f, u, tested, s)))
    decreases f, 3
  {
    hide Sem, Tail, Leaving, Nested, Reached, InnerTurn, SemFor, AfterWord;
    var t, u, turn := Nested(heads, Leaving(b, false, |heads| + 1, after)), Nested(heads, Leaving(b, isCont, |heads| + 1 + k, after)), InnerTurn(h, f, heads, b, after, tested, s);
    TurnLeaves(h, f, heads, b, after, isCont, k, tested, s);
    AfterWordUnfold(h, f, x, words, t, tested, Fin(Brk(1), turn.s));
    AfterWordUnfold(h, f, x, words, u, tested, Fin(Jump(isCont, k + 1), turn.s));
  }

  lemma {:induction false} WordsLeave<S(!new), O(!new)>(h: Host<S, O>, f: nat, x: string, words: seq<string>, heads: seq<Head>, b: Node,
                                                        after: Node, isCont: bool, k: nat, tested: bool, s: State<S, O>)
    requires 1 <= k < s.depth && !Reached(h, f, heads, b, after, tested, s)
    ensures var t, u := Nested(heads, Leaving(b, false, |heads| + 1, after)), Nested(heads, Leaving(b, isCont, |heads| + 1 + k, after));
      Jumps(ReachedWords(h, f, x, words, heads, b, after, tested, InnerTurn(h, f, heads, b, after, tested, s)), isCont, k,
            AfterWord(h, f, x, words, t, tested, Sem(h, f, t, tested, s)), AfterWord(h, f, x, words, u, tested, Sem(h, f, u, tested, s)))
    decreases f, 4
  {
    hide Sem, Tail, Leaving, Nested, Reached, ReachedFor, ReachedWords, InnerTurn, SemFor, AfterWord, Jumps;
    var t, u, turn := Nested(heads, Leaving(b, false, |heads| + 1, after)), Nested(heads, Leaving(b, isCont, |heads| + 1 + k, after)), InnerTurn(h, f, heads, b, after, tested, s);
    TurnDoesNot(h, f, heads, b, after, isCont, k, tested, s);
    AfterWordUnfold(h, f, x, words, t, tested, turn);
    AfterWordUnfold(h, f, x, words, u, tested, turn);
    if GoesOn(turn) {
      WordsReach(h, f, x, words, heads, b, after, tested, turn);
      ForLeaves(h, f, x, words, heads, b, after, isCont, k, tested, turn.s.status, turn.s);
    } else {
      WordsDoNot(h, f, x, words, heads, b, after, tested, turn);
      NoJump(isCont, k, AfterWord(h, f, x, words, t, tested, turn));
    }
  }

  lemma {:induction false} TurnDoesNot<S(!new), O(!new)>(h: Host<S, O>, f: nat, heads: seq<Head>, b: Node, after: Node, isCont: bool,
                                                         k: nat, tested: bool, s: State<S, O>)
    requires 1 <= k < s.depth && !Reached(h, f, heads, b, after, tested, s)
    ensures var turn := InnerTurn(h, f, heads, b, after, tested, s);
      && Sem(h, f, Nested(heads, Leaving(b, false, |heads| + 1, after)), tested, s) == turn && Sem(h, f, Nested(heads, Leaving(b, isCont, |heads| + 1 + k, after)), tested, s) == turn
      && (turn.Fin? && turn.out != Exit ==> turn.s.depth >= s.depth)
    decreases f, 3
  {
    hide Sem, Tail, Leaving, Nested, Reached, InnerTurn;
    TurnLeaves(h, f, heads, b, after, isCont, k, tested, s);
  }

  lemma {:induction false} LoopLeaves<S(!new), O(!new)>(h: Host<S, O>, f: nat, until: bool, cond: Node, heads: seq<Head>, b: Node,
                                                        after: Node, isCont: bool, k: nat, tested: bool, acc: int, s: State<S, O>)
    requires 1 <= k < s.depth
    ensures Jumps(ReachedLoop(h, f, until, cond, heads, b, after, tested, s), isCont, k,
                  SemLoop(h, f, until, cond, Nested(heads, Leaving(b, false, |heads| + 1, after)), tested, acc, s), SemLoop(h, f, until, cond, Nested(heads, Leaving(b, isCont, |heads| + 1 + k, after)), tested, acc, s))
    decreases f, 0
  {
    hide Sem, Tail, Leaving, Nested, ReachedBody, SemLoop, AfterCond, ReachedLoop, Jumps;
    LoopUnfold(h, f, until, cond, Nested(heads, Leaving(b, false, |heads| + 1, after)), tested, acc, s);
    LoopUnfold(h, f, until, cond, Nested(heads, Leaving(b, isCont, |heads| + 1 + k, after)), tested, acc, s);
    if f > 0 {
      LoopReaches(h, f, until, cond, heads, b, after, tested, s);
      DepthKept(h, f - 1, cond, true, s);
      CondLeaves(h, f - 1, until, cond, heads, b, after, isCont, k, tested, acc, Sem(h, f - 1, cond, true, s));
    } else {
      NoTurnReaches(h, f, until, cond, heads, b, after, tested, s);
      NoJump(isCont, k, SemLoop(h, f, until, cond, Nested(heads, Leaving(b, false, |heads| + 1, after)), tested, acc, s));
    }
  }

  lemma {:induction false} CondLeaves<S(!new), O(!new)>(h: Host<S, O>, f: nat, until: bool, cond: Node, heads: seq<Head>, b: Node,
                                                        after: Node, isCont: bool, k: nat, tested: bool, acc: int, c: Res<S, O>)
    requires 1 <= k && (c.Fin? && c.out != Exit ==> k < c.s.depth)
    ensures Jumps(ReachedBody(h, f, until, cond, heads, b, after, tested, c), isCont, k,
                  AfterCond(h, f, until, cond, Nested(heads, Leaving(b, false, |heads| + 1, after)), tested, acc, c), AfterCond(h, f, until, cond, Nested(heads, Leaving(b, isCont, |heads| + 1 + k, after)), tested, acc, c))
    decreases f, 5
  {
    hide Sem, Tail, Leaving, Nested, Reached, ReachedAgain, ReachedLoop, ReachedBody, InnerTurn, SemLoop, AfterCond, AfterBody,
      LeaveLoop, Jumps;
    AfterCondUnfold(h, f, until, cond, Nested(heads, Leaving(b, false, |heads| + 1, after)), tested, acc, c);
    AfterCondUnfold(h, f, until, cond, Nested(heads, Leaving(b, isCont, |heads| + 1 + k, after)), tested, acc, c);
    if c.Fin? && NextTurn(c.out) {
      CondGoesOn(h, f, until, cond, heads, b, after, tested, c);
      LoopLeaves(h, f, until, cond, heads, b, after, isCont, k, tested, acc, c.s);
    } else if c.Fin? && c.out == Normal && (c.s.status == 0) != until {
      if Reached(h, f, heads, b, after, tested, c.s) {
        BodyReaches(h, f, until, cond, heads, b, after, tested, c);
        LoopTurnLeaves(h, f, until, cond, heads, b, after, isCont, k, tested, c.s);
      } else {
        BodyDoesNot(h, f, until, cond, heads, b, after, tested, c);
        LoopTurnsLeave(h, f, until, cond, heads, b, after, isCont, k, tested, c.s);
      }
    } else {
      CondEnds(h, f, until, cond, heads, b, after, tested, c);
      NoJump(isCont, k, AfterCond(h, f, until, cond, Nested(heads, Leaving(b, false, |heads| + 1, after)), tested, acc, c));
    }
  }

  lemma {:induction false} LoopTurnLeaves<S(!new), O(!new)>(h: Host<S, O>, f: nat, until: bool, cond: Node, heads: seq<Head>, b: Node,
                                                            after: Node, isCont: bool, k: nat, tested: bool, s: State<S, O>)
    requires 1 <= k < s.depth && Reached(h, f, heads, b, after, tested, s)
    ensures var t, u := Nested(heads, Leaving(b, false, |heads| + 1, after)), Nested(heads, Leaving(b, isCont, |heads| + 1 + k, after));
      Jumps(true, isCont, k, AfterBody(h, f, until, cond, t, tested, Sem(h, f, t, tested, s)),
            AfterBody(h, f, until, cond, u, tested, Sem(h, f, u, tested, s)))
    decreases f, 3
  {
    hide Sem, Tail, Leaving, Nested, Reached, InnerTurn, SemLoop, AfterBody;
    var t, u, turn := Nested(heads, Leaving(b, false, |heads| + 1, after)), Nested(heads, Leaving(b, isCont, |heads| + 1 + k, after)), InnerTurn(h, f, heads, b, after, tested, s);
    TurnLeaves(h, f, heads, b, after, isCont, k, tested, s);
    AfterBodyUnfold(h, f, until, cond, t, tested, Fin(Brk(1), turn.s));
    AfterBodyUnfold(h, f, until, cond, u, tested, Fin(Jump(isCont, k + 1), turn.s));
  }

  lemma {:induction false} LoopTurnsLeave<S(!new), O(!new)>(h: Host<S, O>, f: nat, until: bool, cond: Node, heads: seq<Head>, b: Node,
                                                            after: Node, isCont: bool, k: nat, tested: bool, s: State<S, O>)
    requires 1 <= k < s.depth && !Reached(h, f, heads, b, after, tested, s)
    ensures var t, u := Nested(heads, Leaving(b, false, |heads| + 1, after)), Nested(heads, Leaving(b, isCont, |heads| + 1 + k, after));
      Jumps(ReachedAgain(h, f, until, cond, heads, b, after, tested, InnerTurn(h, f, heads, b, after, tested, s)), isCont, k,
            AfterBody(h, f, until, cond, t, tested, Sem(h, f, t, tested, s)), AfterBody(h, f, until, cond, u, tested, Sem(h, f, u, tested, s)))
    decreases f, 4
  {
    hide Sem, Tail, Leaving, Nested, Reached, ReachedLoop, ReachedAgain, InnerTurn, SemLoop, AfterBody, Jumps;
    var t, u, turn := Nested(heads, Leaving(b, false, |heads| + 1, after)), Nested(heads, Leaving(b, isCont, |heads| + 1 + k, after)), InnerTurn(h, f, heads, b, after, tested, s);
    TurnDoesNot(h, f, heads, b, after, isCont, k, tested, s);
    AfterBodyUnfold(h, f, until, cond, t, tested, turn);
    AfterBodyUnfold(h, f, until, cond, u, tested, turn);
    if GoesOn(turn) {
      AgainReaches(h, f, until, cond, heads, b, after, tested, turn);
      LoopLeaves(h, f, until, cond, heads, b, after, isCont, k, tested, turn.s.status, turn.s);
    } else {
      AgainDoesNot(h, f, until, cond, heads, b, after, tested, turn);
      NoJump(isCont, k, AfterBody(h, f, until, cond, t, tested, turn));
    }
  }

  // ----- the laws -----

  /**
   * continue: with a count of all n loops around it, it leaves the n - 1 inner ones and starts the next turn
   * of the outermost, whatever would have come after it.  With one loop that is doing nothing more.
   */
  lemma ContinueStartsNextTurn<S(!new), O(!new)>(h: Host<S, O>, f: nat, heads: seq<Head>, b: Node, after: Node, tested: bool, s: State<S, O>)
    requires heads != [] && s.depth >= 0
    ensures Tail(h, f, Nested(heads, Leaving(b, true, |heads|, after)), tested, s)
         == Tail(h, f, Nested(heads, Leaving(b, false, |heads| - 1, after)), tested, s)
  {
    hide Sem, SemFor, SemLoop, Leaving;
    if f > 0 {
      match heads[0]
      case OverWords(x, words) =>
        var e := h.expand(words, s.status, s.w);
        if e.ok {
          ForContinues(h, f - 1, x, e.words, heads[1..], b, after, tested, 0, s.(w := e.w, status := e.status, depth := s.depth + 1));
        }
      case While(until, cond) =>
        LoopContinues(h, f - 1, until, cond, heads[1..], b, after, tested, 0, s.(depth := s.depth + 1));
    }
  }

  lemma TurnContinues<S(!new), O(!new)>(h: Host<S, O>, f: nat, heads: seq<Head>, b: Node, after: Node, isCont: bool, tested: bool, s: State<S, O>)
    requires s.depth >= 1
    ensures var turn := Sem(h, f, Nested(heads, Leaving(b, false, |heads|, after)), tested, s);
      && Jumps(Reached(h, f, heads, b, after, tested, s), isCont, 1, turn,
               Sem(h, f, Nested(heads, Leaving(b, isCont, |heads| + 1, after)), tested, s))
      && turn == InnerTurn(h, f, heads, b, after, tested, s)
      && (turn.Fin? && turn.out != Exit ==> turn.s.depth >= s.depth)
  {
    hide Sem, Tail, Jumps, Leaving, Reached;
    NestedLeaves(h, f, heads, b, after, isCont, 1, tested, s);
    NestedIsSomething(heads, b, false, |heads|, after);
    NestedIsSomething(heads, b, isCont, |heads| + 1, after);
    DepthKept(h, f, Nested(heads, Leaving(b, false, |heads|, after)), tested, s);
    DepthKept(h, f, Nested(heads, Leaving(b, isCont, |heads| + 1, after)), tested, s);
  }

  lemma {:induction false} ForContinues<S(!new), O(!new)>(h: Host<S, O>, f: nat, x: string, words: seq<string>, heads: seq<Head>, b: Node,
                                                          after: Node, tested: bool, acc: int, s: State<S, O>)
    requires s.depth >= 1
    ensures SemFor(h, f, x, words, Nested(heads, Leaving(b, true, |heads| + 1, after)), tested, acc, s)
         == SemFor(h, f, x, words, Nested(heads, Leaving(b, false, |heads|, after)), tested, acc, s)
    decreases f
  {
    hide Sem, Tail, Leaving, Nested, Reached, InnerTurn, SemFor, AfterWord;
    var t, u := Nested(heads, Leaving(b, false, |heads|, after)), Nested(heads, Leaving(b, true, |heads| + 1, after));
    ForUnfold(h, f, x, words, t, tested, acc, s);
    ForUnfold(h, f, x, words, u, tested, acc, s);
    if words != [] && f > 0 {
      var e := h.setvar(x, words[0], s.w);
      if e.kind.Returns? {
        var s1 := s.(w := e.w);
        TurnContinues(h, f - 1, heads, b, after, true, tested, s1);
        var turn := Sem(h, f - 1, t, tested, s1);
        AfterWordUnfold(h, f - 1, x, words[1..], t, tested, turn);
        AfterWordUnfold(h, f - 1, x, words[1..], u, tested, Sem(h, f - 1, u, tested, s1));
        if GoesOn(turn) {
          ForContinues(h, f - 1, x, words[1..], heads, b, after, tested, turn.s.status, turn.s);
        }
      }
    }
  }

  lemma {:induction false} LoopContinues<S(!new), O(!new)>(h: Host<S, O>, f: nat, until: bool, cond: Node, heads: seq<Head>, b: Node,
                                                           after: Node, tested: bool, acc: int, s: State<S, O>)
    requires s.depth >= 1
    ensures SemLoop(h, f, until, cond, Nested(heads, Leaving(b, true, |heads| + 1, after)), tested, acc, s)
         == SemLoop(h, f, until, cond, Nested(heads, Leaving(b, false, |heads|, after)), tested, acc, s)
    decreases f, 0
  {
    hide Sem, Tail, Leaving, Nested, SemLoop, AfterCond, AfterBody;
    var t, u := Nested(heads, Leaving(b, false, |heads|, after)), Nested(heads, Leaving(b, true, |heads| + 1, after));
    LoopUnfold(h, f, until, cond, t, tested, acc, s);
    LoopUnfold(h, f, until, cond, u, tested, acc, s);
    if f > 0 {
      var c := Sem(h, f - 1, cond, true, s);
      DepthKept(h, f - 1, cond, true, s);
      AfterCondUnfold(h, f - 1, until, cond, t, tested, acc, c);
      AfterCondUnfold(h, f - 1, until, cond, u, tested, acc, c);
      if c.Fin? && NextTurn(c.out) {
        LoopContinues(h, f - 1, until, cond, heads, b, after, tested, acc, c.s);
      } else if c.Fin? && c.out == Normal && (c.s.status == 0) != until {
        TurnOfLoopContinues(h, f - 1, until, cond, heads, b, after, tested, c.s);
      }
    }
  }

  lemma {:induction false} TurnOfLoopContinues<S(!new), O(!new)>(h: Host<S, O>, f: nat, until: bool, cond: Node, heads: seq<Head>, b: Node,
                                                                 after: Node, tested: bool, s: State<S, O>)
    requires s.depth >= 1
    ensures var t, u := Nested(heads, Leaving(b, false, |heads|, after)), Nested(heads, Leaving(b, true, |heads| + 1, after));
      AfterBody(h, f, until, cond, u, tested, Sem(h, f, u, tested, s)) == AfterBody(h, f, until, cond, t, tested, Sem(h, f, t, tested, s))
    decreases f, 1
  {
    hide Sem, Tail, Leaving, Nested, Reached, InnerTurn, SemLoop, AfterCond, AfterBody;
    var t, u := Nested(heads, Leaving(b, false, |heads|, after)), Nested(heads, Leaving(b, true, |heads| + 1, after));
    TurnContinues(h, f, heads, b, after, true, tested, s);
    var turn := Sem(h, f, t, tested, s);
    AfterBodyUnfold(h, f, until, cond, t, tested, turn);
    AfterBodyUnfold(h, f, until, cond, u, tested, Sem(h, f, u, tested, s));
    if GoesOn(turn) {
      LoopContinues(h, f, until, cond, heads, b, after, tested, turn.s.status, turn.s);
    }
  }

  /** The turns of a for loop up to the first in which the point is reached. */
  ghost function Turns<S, O>(h: Host<S, O>, f: nat, x: string, words: seq<string>, heads: seq<Head>, b: Node, after: Node,
                             tested: bool, s: State<S, O>): (n: nat)
    ensures n <= |words| && (words != [] ==> n >= 1)
    decreases f, 0
  {
    if words == [] then 0
    else if f == 0 then 1
    else
      var s1 := s.(w := h.setvar(x, words[0], s.w).w);
      if Reached(h, f - 1, heads, b, after, tested, s1) then 1
      else 1 + MoreTurns(h, f - 1, x, words[1..], heads, b, after, tested, InnerTurn(h, f - 1, heads, b, after, tested, s1))
  }

  ghost function MoreTurns<S, O>(h: Host<S, O>, f: nat, x: string, words: seq<string>, heads: seq<Head>, b: Node, after: Node,
                                 tested: bool, turn: Res<S, O>): (n: nat)
    ensures n <= |words|
    decreases f, 1
  {
    if GoesOn(turn) then Turns(h, f, x, words, heads, b, after, tested, turn.s) else 0
  }

  /**
   * break: with a count of all n loops, a for loop does its turns up to the first that reaches the break, as if
   * there were no more words, and as if only the n - 1 inner loops were left.
   */
  lemma {:induction false} BreakEndsFor<S(!new), O(!new)>(h: Host<S, O>, f: nat, x: string, words: seq<string>, heads: seq<Head>, b: Node,
                                                          after: Node, tested: bool, acc: int, s: State<S, O>)
    requires s.depth >= 1
    ensures SemFor(h, f, x, words, Nested(heads, Leaving(b, false, |heads| + 1, after)), tested, acc, s)
         == SemFor(h, f, x, words[..Turns(h, f, x, words, heads, b, after, tested, s)], Nested(heads, Leaving(b, false, |heads|, after)), tested, acc, s)
    decreases f, 0
  {
    hide Sem, Tail, Leaving, Nested, Reached, InnerTurn, SemFor, AfterWord, MoreTurns;
    var n := Turns(h, f, x, words, heads, b, after, tested, s);
    var t, u := Nested(heads, Leaving(b, false, |heads|, after)), Nested(heads, Leaving(b, false, |heads| + 1, after));
    ForUnfold(h, f, x, words, u, tested, acc, s);
    ForUnfold(h, f, x, words[..n], t, tested, acc, s);
    if words != [] && f > 0 {
      var e := h.setvar(x, words[0], s.w);
      if e.kind.Returns? {
        assert words[..n][1..] == words[1..][..n - 1];
        TurnBreaks(h, f - 1, x, words[1..], words[..n][1..], heads, b, after, tested, s.(w := e.w));
      }
    }
  }

  /** One turn of that loop. */
  lemma {:induction false} TurnBreaks<S(!new), O(!new)>(h: Host<S, O>, f: nat, x: string, words: seq<string>, rest: seq<string>, heads: seq<Head>,
                                                        b: Node, after: Node, tested: bool, s: State<S, O>)
    requires s.depth >= 1
    requires var turn := InnerTurn(h, f, heads, b, after, tested, s);
      rest == words[..if Reached(h, f, heads, b, after, tested, s) then 0 else MoreTurns(h, f, x, words, heads, b, after, tested, turn)]
    ensures var t, u := Nested(heads, Leaving(b, false, |heads|, after)), Nested(heads, Leaving(b, false, |heads| + 1, after));
      AfterWord(h, f, x, words, u, tested, Sem(h, f, u, tested, s)) == AfterWord(h, f, x, rest, t, tested, Sem(h, f, t, tested, s))
    decreases f, 1
  {
    hide Sem, Tail, Leaving, Nested, Reached, InnerTurn, SemFor, AfterWord, Turns;
    var t, u := Nested(heads, Leaving(b, false, |heads|, after)), Nested(heads, Leaving(b, false, |heads| + 1, after));
    TurnContinues(h, f, heads, b, after, false, tested, s);
    var turn := Sem(h, f, t, tested, s);
    AfterWordUnfold(h, f, x, rest, t, tested, turn);
    AfterWordUnfold(h, f, x, words, u, tested, Sem(h, f, u, tested, s));
    if GoesOn(turn) {
      if Reached(h, f, heads, b, after, tested, s) {
        ForUnfold(h, f, x, [], t, tested, turn.s.status, turn.s);
      } else {
        BreakEndsFor(h, f, x, words, heads, b, after, tested, turn.s.status, turn.s);
      }
    }
  }

  /** The same for while and until: the turn that reaches the break is the last. */
  lemma BreakEndsLoop<S(!new), O(!new)>(h: Host<S, O>, f: nat, until: bool, cond: Node, heads: seq<Head>, b: Node, after: Node,
                                        tested: bool, acc: int, s: State<S, O>)
    requires s.depth >= 1 && f >= 1
    requires var c := Sem(h, f - 1, cond, true, s);
      c.Fin? && c.out == Normal && (c.s.status == 0) != until && Reached(h, f - 1, heads, b, after, tested, c.s)
    ensures var turn := Sem(h, f - 1, Nested(heads, Leaving(b, false, |heads|, after)), tested, Sem(h, f - 1, cond, true, s).s);
      && turn.Fin? && turn.out == Normal
      && SemLoop(h, f, until, cond, Nested(heads, Leaving(b, false, |heads| + 1, after)), tested, acc, s)
         == Fin(Normal, turn.s.(depth := turn.s.depth - 1))
  {
    hide Sem, Tail, Leaving, Nested, Reached, InnerTurn, SemLoop, AfterCond, AfterBody, LeaveLoop;
    var u := Nested(heads, Leaving(b, false, |heads| + 1, after));
    var c := Sem(h, f - 1, cond, true, s);
    LoopUnfold(h, f, until, cond, u, tested, acc, s);
    AfterCondUnfold(h, f - 1, until, cond, u, tested, acc, c);
    DepthKept(h, f - 1, cond, true, s);
    TurnContinues(h, f - 1, heads, b, after, false, tested, c.s);
    BreakAtLast(h, f - 1, until, cond, u, tested, Sem(h, f - 1, Nested(heads, Leaving(b, false, |heads|, after)), tested, c.s).s);
  }

  lemma BreakAtLast<S, O>(h: Host<S, O>, f: nat, until: bool, cond: Node, body: Node, tested: bool, s: State<S, O>)
    ensures AfterBody(h, f, until, cond, body, tested, Fin(Brk(1), s)) == Fin(Normal, s.(depth := s.depth - 1))
  {
    hide AfterBody;
    AfterBodyUnfold(h, f, until, cond, body, tested, Fin(Brk(1), s));
  }

  /** A count above the number of loops acts as that number; outside all loops nothing is left; a count below 1 is an error. */
  lemma BreakCountsLoops<S, O>(h: Host<S, O>, f: nat, isCont: bool, k: int, tested: bool, s: State<S, O>)
    requires s.depth >= 0
    ensures 1 <= s.depth < k ==>
      Tail(h, f, BreakCmd(isCont, k), tested, s) == Tail(h, f, BreakCmd(isCont, s.depth), tested, s)
    ensures s.depth == 0 && k >= 1 ==> Tail(h, f, BreakCmd(isCont, k), tested, s) == Tail(h, f, NOP, tested, s)
    ensures k <= 0 && f > 0 ==> Tail(h, f, BreakCmd(isCont, k), tested, s) == Fin(Err, s.(status := 2))
  {
    hide Sem, Tail;
    if f > 0 {
      BuiltinUnfold(h, f - 1, BreakCmd(isCont, k), tested, s);
      BuiltinUnfold(h, f - 1, BreakCmd(isCont, s.depth), tested, s);
      BuiltinUnfold(h, f - 1, NOP, tested, s);
      ListUnfold(h, f - 1, Nil, tested, false, s.(status := 0));
    } else {
      NoFuelAtAll(h, BreakCmd(isCont, k), tested, s);
      NoFuelAtAll(h, BreakCmd(isCont, s.depth), tested, s);
      NoFuelAtAll(h, NOP, tested, s);
    }
  }

  /** Any simple command that returns 0, changes nothing and is no function can stand for `eval ''`. */
  lemma AnyNopWillDo<S, O>(h: Host<S, O>, f: nat, name: string, cmd: int, tested: bool, s: State<S, O>)
    requires name !in s.funcs && h.run(cmd, s.status, s.w) == Effect(Returns, 0, s.w) && h.unsetfuncs(cmd, s.status, s.w) == {}
    ensures Tail(h, f, Simple(name, cmd), tested, s) == Tail(h, f, NOP, tested, s)
  {
    if f > 0 {
      NopDoesNothing(h, f - 1, tested, s);
    }
    hide SemCall, SemList, Etest;
  }
}
