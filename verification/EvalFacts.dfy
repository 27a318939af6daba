/** Properties of the structured semantics of src/eval.c: the loop count, set -e and fuel. */
module EvalFacts {
  import opened EvalSem

  function TraceOf<S, O>(r: Res<S, O>): seq<Event<S, O>> {
    if r.NoFuel? then r.trace else r.s.trace
  }

  // ----- conditions on trees -----

  /** No dot command, which evaluates its file in an untested position wherever it stands. */
  predicate DotFree(n: Node) {
    match n
    case Semi(l, r) => DotFree(l) && DotFree(r)
    case AndAnd(l, r) => DotFree(l) && DotFree(r)
    case OrOr(l, r) => DotFree(l) && DotFree(r)
    case Not(c) => DotFree(c)
    case If(test, a, b) => DotFree(test) && DotFree(a) && DotFree(b)
    case Loop(_, cond, body) => DotFree(cond) && DotFree(body)
    case For(_, _, body) => DotFree(body)
    case Case(_, clauses) => DotFree(clauses)
    case Clist(_, body, next, _) => DotFree(body) && DotFree(next)
    case Redir(_, body) => DotFree(body)
    case Defun(_, body) => DotFree(body)
    case EvalCmd(trees, _) => DotFreeIn(trees)
    case DotCmd(_, _) => false
    case _ => true
  }

  predicate DotFreeIn(trees: NodeList) {
    trees.Cons? ==> DotFree(trees.hd) && DotFreeIn(trees.tl)
  }

  predicate DotFreeFuncs(funcs: map<string, Node>) {
    forall name :: name in funcs ==> DotFree(funcs[name])
  }

  /**
   * No loop can be reached under eval or dot run through `command`: there are none in the text
   * there (`under`), and the only functions called there are those in `calm`, whose bodies,
   * wherever they are defined, meet the same condition.
   */
  predicate Tidy(calm: set<string>, under: bool, n: Node)
    decreases n
  {
    match n
    case Semi(l, r) => Tidy(calm, under, l) && Tidy(calm, under, r)
    case AndAnd(l, r) => Tidy(calm, under, l) && Tidy(calm, under, r)
    case OrOr(l, r) => Tidy(calm, under, l) && Tidy(calm, under, r)
    case Not(c) => Tidy(calm, under, c)
    case If(test, a, b) => Tidy(calm, under, test) && Tidy(calm, under, a) && Tidy(calm, under, b)
    case Loop(_, cond, body) => !under && Tidy(calm, under, cond) && Tidy(calm, under, body)
    case For(_, _, body) => !under && Tidy(calm, under, body)
    case Case(_, clauses) => Tidy(calm, under, clauses)
    case Clist(_, body, next, _) => Tidy(calm, under, body) && Tidy(calm, under, next)
    case Redir(_, body) => Tidy(calm, under, body)
    case Defun(name, body) => Tidy(calm, name in calm, body)
    case Simple(name, _) => under ==> name in calm
    case EvalCmd(trees, via) => TidyIn(calm, under || via, trees)
    case DotCmd(trees, via) => TidyIn(calm, under || via, trees)
    case _ => true
  }

  predicate TidyIn(calm: set<string>, under: bool, trees: NodeList)
    decreases trees
  {
    trees.Cons? ==> Tidy(calm, under, trees.hd) && TidyIn(calm, under, trees.tl)
  }

  predicate TidyFuncs(calm: set<string>, funcs: map<string, Node>) {
    forall name :: name in funcs ==> Tidy(calm, name in calm, funcs[name])
  }

  lemma {:induction false} TidyOutside(calm: set<string>, n: Node)
    requires Tidy(calm, true, n)
    ensures Tidy(calm, false, n)
  {
    match n
    case Semi(l, r) => TidyOutside(calm, l); TidyOutside(calm, r);
    case AndAnd(l, r) => TidyOutside(calm, l); TidyOutside(calm, r);
    case OrOr(l, r) => TidyOutside(calm, l); TidyOutside(calm, r);
    case Not(c) => TidyOutside(calm, c);
    case If(test, a, b) => TidyOutside(calm, test); TidyOutside(calm, a); TidyOutside(calm, b);
    case Case(_, clauses) => TidyOutside(calm, clauses);
    case Clist(_, body, next, _) => TidyOutside(calm, body); TidyOutside(calm, next);
    case Redir(_, body) => TidyOutside(calm, body);
    case EvalCmd(trees, via) => TidyListOutside(calm, trees);
    case DotCmd(trees, via) => TidyListOutside(calm, trees);
    case _ =>
  }

  lemma {:induction false} TidyListOutside(calm: set<string>, trees: NodeList)
    requires TidyIn(calm, true, trees)
    ensures TidyIn(calm, false, trees)
  {
    if trees.Cons? {
      TidyOutside(calm, trees.hd);
      TidyListOutside(calm, trees.tl);
    }
  }

  // ----- what one run does to the loop count and the trace -----

  /** An error came to `command` out of a loop. */
  predicate LeaksAt<S, O>(e: Event<S, O>) {
    e.Caught? && e.depth > e.before
  }

  predicate Leaks<S, O>(trace: seq<Event<S, O>>, from: int) {
    exists i :: 0 <= i < |trace| && from <= i && LeaksAt(trace[i])
  }

  predicate AllTested<S, O>(trace: seq<Event<S, O>>, from: int) {
    forall i :: 0 <= i < |trace| && from <= i && trace[i].Checked? ==> trace[i].tested
  }

  /** A simple command of the host can end the shell. */
  ghost predicate CanExit<S(!new), O(!new)>(h: Host<S, O>) {
    exists cmd, status, w :: h.run(cmd, status, w).kind.Exits?
  }

  /** What is known of the tree: no loop under `command`; it stands there; all of it is tested. */
  datatype Key = Key(calm: set<string>, tidy: bool, under: bool, plain: bool)

  predicate Suits(k: Key, tested: bool, n: Node) {
    (k.tidy ==> Tidy(k.calm, k.under, n)) && (k.plain ==> tested && DotFree(n))
  }

  predicate SuitsList(k: Key, tested: bool, trees: NodeList) {
    (k.tidy ==> TidyIn(k.calm, k.under, trees)) && (k.plain ==> tested && DotFreeIn(trees))
  }

  /**
   * The result `r` of a run from `s`, inside `e` fewer loops at its end.  Pending breaks and continues
   * count loops that exist; the loop count has grown exactly if an error was caught from a loop.
   */
  ghost predicate Runs<S(!new), O(!new)>(h: Host<S, O>, k: Key, s: State<S, O>, e: int, r: Res<S, O>) {
    && s.trace <= TraceOf(r)
    && (k.plain && DotFreeFuncs(s.funcs) ==> AllTested(TraceOf(r), |s.trace|))
    && (r.Fin? ==>
          && r.s.heeds == s.heeds
          && (r.out == Exit ==> Ended(h, s, r.s))
          && (r.out != Exit ==> Counts(k, s, e, r.out, r.s)))
  }

  /** The last thing a process does is to leave, or to fail where set -e looks. */
  ghost predicate Ended<S(!new), O(!new)>(h: Host<S, O>, s: State<S, O>, t: State<S, O>) {
    && |s.trace| < |t.trace|
    && var last := t.trace[|t.trace| - 1];
       (last.Left? && CanExit(h)) || (s.heeds && Fatal(h, last))
  }

  ghost predicate Counts<S, O>(k: Key, s: State<S, O>, e: int, out: Outcome, t: State<S, O>) {
    && t.depth >= s.depth - e
    && (out.Brk? || out.Cnt? ==> 1 <= out.n <= t.depth)
    && (Leaks(t.trace, |s.trace|) ==> t.depth > s.depth - e)
    && (out != Err && t.depth > s.depth - e ==> Leaks(t.trace, |s.trace|))
    && (k.plain && DotFreeFuncs(s.funcs) ==> DotFreeFuncs(t.funcs))
    && (k.tidy && TidyFuncs(k.calm, s.funcs) ==>
          && !Leaks(t.trace, |s.trace|) && TidyFuncs(k.calm, t.funcs) && (k.under ==> t.depth == s.depth - e))
  }

  lemma RunsStill<S(!new), O(!new)>(h: Host<S, O>, k: Key, s: State<S, O>, out: Outcome, t: State<S, O>)
    requires t.trace == s.trace && t.heeds == s.heeds && t.depth == s.depth && t.funcs == s.funcs
    requires out != Exit && (out.Brk? || out.Cnt? ==> 1 <= out.n <= t.depth)
    ensures Runs(h, k, s, 0, Fin(out, t))
  {
  }

  lemma RunsNoFuel<S(!new), O(!new)>(h: Host<S, O>, k: Key, s: State<S, O>, e: int)
    ensures Runs(h, k, s, e, NoFuel(s.trace))
  {
  }

  lemma RunsWeaken<S(!new), O(!new)>(h: Host<S, O>, k: Key, k': Key, s: State<S, O>, e: int, r: Res<S, O>)
    requires Runs(h, k, s, e, r) && k'.calm == k.calm
    requires k'.tidy && TidyFuncs(k.calm, s.funcs) ==> k.tidy && (k'.under ==> k.under)
    requires k'.plain && DotFreeFuncs(s.funcs) ==> k.plain
    ensures Runs(h, k', s, e, r)
  {
    hide TidyFuncs, DotFreeFuncs, CanExit, Leaks, AllTested;
  }

  /** One run after another. */
  lemma RunsJoin<S(!new), O(!new)>(h: Host<S, O>, k: Key, s: State<S, O>, out: Outcome, s1: State<S, O>,
                                  e: int, r: Res<S, O>)
    requires Runs(h, k, s, 0, Fin(out, s1)) && out != Exit && out != Err
    requires Runs(h, k, s1, e, r)
    ensures Runs(h, k, s, e, r)
  {
    hide TidyFuncs, DotFreeFuncs, CanExit;
    var tr := TraceOf(r);
    assert forall i :: 0 <= i < |s1.trace| ==> s1.trace[i] == tr[i];
    if Leaks(s1.trace, |s.trace|) {
      var i :| 0 <= i < |s1.trace| && |s.trace| <= i && LeaksAt(s1.trace[i]);
      assert LeaksAt(tr[i]);
    }
    if Leaks(tr, |s.trace|) && !Leaks(s1.trace, |s.trace|) {
      var i :| 0 <= i < |tr| && |s.trace| <= i && LeaksAt(tr[i]);
      assert |s1.trace| <= i;
      assert Leaks(tr, |s1.trace|);
    }
    if Leaks(tr, |s1.trace|) {
      var i :| 0 <= i < |tr| && |s1.trace| <= i && LeaksAt(tr[i]);
      assert Leaks(tr, |s.trace|);
    }
  }

  /** Only the shell's variables, the system or the status change at the end; a return may be over. */
  lemma RunsThen<S(!new), O(!new)>(h: Host<S, O>, k: Key, s: State<S, O>, e: int, out: Outcome, t: State<S, O>,
                                  out': Outcome, t': State<S, O>)
    requires Runs(h, k, s, e, Fin(out, t))
    requires out' == out || (out == Ret && out' == Normal)
    requires t' == t.(w := t'.w, status := t'.status)
    ensures Runs(h, k, s, e, Fin(out', t'))
  {
  }

  /** The end of a loop. */
  lemma RunsLeave<S(!new), O(!new)>(h: Host<S, O>, k: Key, s: State<S, O>, out: Outcome, acc: int, t: State<S, O>)
    requires Runs(h, k, s, 0, Fin(out, t)) && s.depth >= 1 && out != Exit && out != Err && !NextTurn(out)
    ensures out != Normal ==> Runs(h, k, s, 1, LeaveLoop(out, acc, t))
    ensures out == Normal ==> Runs(h, k, s, 1, Fin(Normal, t.(status := acc, depth := t.depth - 1)))
  {
    hide TidyFuncs, DotFreeFuncs, CanExit, Leaks, AllTested;
  }

  lemma RunsPass<S(!new), O(!new)>(h: Host<S, O>, k: Key, s: State<S, O>, r: Res<S, O>)
    requires Runs(h, k, s, 0, r) && (r.NoFuel? || r.out == Exit || r.out == Err)
    requires k.tidy ==> !k.under
    ensures Runs(h, k, s, 1, r)
  {
    hide TidyFuncs, DotFreeFuncs, CanExit, Leaks, AllTested;
  }

  lemma LeaksLog<S, O>(trace: seq<Event<S, O>>, e: Event<S, O>, from: int)
    requires 0 <= from <= |trace|
    ensures Leaks(trace + [e], from) <==> Leaks(trace, from) || LeaksAt(e)
    ensures AllTested(trace + [e], from) <==> AllTested(trace, from) && (e.Checked? ==> e.tested)
  {
    var all := trace + [e];
    assert all[|trace|] == e && forall i :: 0 <= i < |trace| ==> all[i] == trace[i];
    if i :| 0 <= i < |trace| && from <= i && LeaksAt(trace[i]) {
      assert LeaksAt(all[i]);
    }
  }

  lemma RunsEtest<S(!new), O(!new)>(h: Host<S, O>, k: Key, s: State<S, O>, tested: bool, r: Res<S, O>)
    requires Runs(h, k, s, 0, r) && (k.plain ==> tested)
    ensures Runs(h, k, s, 0, Etest(h, tested, r))
  {
    hide TidyFuncs, DotFreeFuncs, CanExit, Leaks, AllTested;
    if r.Fin? && r.out != Exit && r.out != Err {
      LeaksLog(r.s.trace, Checked(tested, r.s.status, r.s.w), |s.trace|);
    }
  }

  lemma RunsCatch<S(!new), O(!new)>(h: Host<S, O>, k: Key, s: State<S, O>, via: bool, r: Res<S, O>)
    requires Runs(h, k, s, 0, r) && (via && k.tidy ==> k.under)
    ensures Runs(h, k, s, 0, Catch(via, s.depth, r))
  {
    hide TidyFuncs, DotFreeFuncs, CanExit, Leaks, AllTested;
    if r.Fin? && r.out == Err && via {
      LeaksLog(r.s.trace, Event.Caught(s.depth, r.s.depth), |s.trace|);
    }
  }

  lemma RunsAfter<S(!new), O(!new)>(h: Host<S, O>, k: Key, s: State<S, O>, r: Res<S, O>, t: State<S, O>)
    requires t == After(s, r).(w := t.w, status := t.status)
    ensures Runs(h, k, s, 0, Fin(Normal, t)) && Runs(h, k, s, 0, NoFuel(t.trace))
  {
    hide TidyFuncs, DotFreeFuncs, CanExit, Leaks, AllTested;
    LeaksLog(s.trace, if r.NoFuel? then Unfinished(r.trace) else Process(r.s.trace, r.out), |s.trace|);
    LeaksNone(s.trace);
  }

  lemma LeaksNone<S, O>(trace: seq<Event<S, O>>)
    ensures !Leaks(trace, |trace|) && AllTested(trace, |trace|)
  {
  }

  // ----- every run -----

  lemma {:induction false} SemRuns<S(!new), O(!new)>(h: Host<S, O>, k: Key, fuel: nat, n: Node, tested: bool, s: State<S, O>)
    requires s.depth >= 0 && Suits(k, tested, n)
    ensures Runs(h, k, s, 0, Sem(h, fuel, n, tested, s))
    decreases fuel, 1
  {
    hide Runs, Suits;
    if n.Null? {
      RunsStill(h, k, s, Normal, s.(status := 0));
    } else {
      TailRuns(h, k, fuel, n, tested, s);
    }
  }

  lemma {:induction false} TailRuns<S(!new), O(!new)>(h: Host<S, O>, k: Key, fuel: nat, n: Node, tested: bool, s: State<S, O>)
    requires s.depth >= 0 && Suits(k, tested, n)
    ensures Runs(h, k, s, 0, Tail(h, fuel, n, tested, s))
    decreases fuel, 0
  {
    hide Runs, Suits;
    if n.Null? {
      RunsStill(h, k, s, Normal, s);
    } else if fuel == 0 {
      RunsNoFuel(h, k, s, 0);
    } else if IsSequence(n) {
      SequenceRuns(h, k, fuel, n, tested, s);
    } else if IsCompound(n) {
      CompoundRuns(h, k, fuel, n, tested, s);
    } else {
      CommandRuns(h, k, fuel, n, tested, s);
    }
  }

  /** A part that is run first, and what is run after it. */
  lemma {:induction false} ThenRuns<S(!new), O(!new)>(h: Host<S, O>, k: Key, f: nat, a: Node, ta: bool, b: Node, tb: bool, s: State<S, O>)
    requires s.depth >= 0 && Suits(k, ta, a) && Suits(k, tb, b)
    ensures Runs(h, k, s, 0, Sem(h, f, a, ta, s))
    ensures var r := Sem(h, f, a, ta, s); r.Fin? && r.out == Normal ==>
      && Runs(h, k, s, 0, Tail(h, f, b, tb, r.s))
      && (forall st :: Runs(h, k, s, 0, Fin(Normal, r.s.(status := st))))
    decreases f, 3
  {
    hide Sem, Tail, Runs, Suits;
    SemRuns(h, k, f, a, ta, s);
    var r := Sem(h, f, a, ta, s);
    if r.Fin? && r.out == Normal {
      RunsDepth(h, k, s, r);
      TailRuns(h, k, f, b, tb, r.s);
      RunsJoin(h, k, s, Normal, r.s, 0, Tail(h, f, b, tb, r.s));
      forall st
        ensures Runs(h, k, s, 0, Fin(Normal, r.s.(status := st)))
      {
        RunsThen(h, k, s, 0, Normal, r.s, Normal, r.s.(status := st));
      }
    }
  }

  lemma RunsDepth<S(!new), O(!new)>(h: Host<S, O>, k: Key, s: State<S, O>, r: Res<S, O>)
    requires Runs(h, k, s, 0, r)
    ensures r.Fin? && r.out != Exit ==> r.s.depth >= s.depth
    ensures r.Fin? && r.out == Normal && k.tidy && k.under && TidyFuncs(k.calm, s.funcs) ==> r.s.depth == s.depth
  {
    hide TidyFuncs, DotFreeFuncs, CanExit, Leaks, AllTested;
  }

  lemma {:induction false} SequenceRuns<S(!new), O(!new)>(h: Host<S, O>, k: Key, fuel: nat, n: Node, tested: bool, s: State<S, O>)
    requires s.depth >= 0 && Suits(k, tested, n) && IsSequence(n) && fuel > 0
    ensures Runs(h, k, s, 0, Tail(h, fuel, n, tested, s))
    decreases fuel - 1, 4
  {
    hide Sem, Runs, SemLoop, SemFor, SelectCase, SemRedir, SemSubshell, SemPipe, SemCall, SemList, SemBreak, Etest, Catch, AfterDot;
    var f := fuel - 1;
    match n {
      case Semi(l, r) => ThenRuns(h, k, f, l, tested, r, tested, s);
      case AndAnd(l, r) => ThenRuns(h, k, f, l, true, r, tested, s);
      case OrOr(l, r) => ThenRuns(h, k, f, l, true, r, tested, s);
      case Not(c) => ThenRuns(h, k, f, c, true, Null, true, s);
      case If(test, a, b) =>
        ThenRuns(h, k, f, test, true, a, tested, s);
        ThenRuns(h, k, f, test, true, b, tested, s);
    }
  }

  lemma {:induction false} CompoundRuns<S(!new), O(!new)>(h: Host<S, O>, k: Key, fuel: nat, n: Node, tested: bool, s: State<S, O>)
    requires s.depth >= 0 && Suits(k, tested, n) && IsCompound(n) && fuel > 0
    ensures Runs(h, k, s, 0, Tail(h, fuel, n, tested, s))
    decreases fuel - 1, 4
  {
    hide Sem, Runs, SemLoop, AfterCond, SemFor, AfterWord, SelectCase, SemRedir, SemSubshell, SemPipe, SemCall, SemList, SemBreak,
      Etest, Catch, AfterDot;
    var f := fuel - 1;
    match n {
      case Loop(until, cond, body) =>
        var s1 := s.(depth := s.depth + 1);
        LoopRuns(h, k, f, until, cond, body, tested, 0, s1);
        RunsInside(h, k, s, s1, SemLoop(h, f, until, cond, body, tested, 0, s1));
      case For(x, words, body) =>
        var e := h.expand(words, s.status, s.w);
        var s0 := s.(w := e.w, status := e.status);
        RunsStill(h, k, s, Err, s0);
        if e.ok {
          var s1 := s0.(depth := s.depth + 1);
          ForRuns(h, k, f, x, e.words, body, tested, 0, s1);
          RunsInside(h, k, s, s1, SemFor(h, f, x, e.words, body, tested, 0, s1));
        }
      case Case(subject, clauses) =>
        CaseRuns(h, k, f, subject, clauses, tested, s);
      case Clist(_, body, next, fall) =>
        TailRuns(h, k, f, body, tested, s);
        TailRuns(h, k, f, next, tested, s);
        ThenRuns(h, k, f, body, tested, next, tested, s);
    }
  }

  /** A loop, seen from outside. */
  lemma RunsInside<S(!new), O(!new)>(h: Host<S, O>, k: Key, s: State<S, O>, s1: State<S, O>, r: Res<S, O>)
    requires Runs(h, k, s1, 1, r) && s1 == s.(w := s1.w, status := s1.status, depth := s.depth + 1)
    ensures Runs(h, k, s, 0, r)
  {
    hide TidyFuncs, DotFreeFuncs, CanExit, Leaks, AllTested;
  }

  lemma {:induction false} CaseRuns<S(!new), O(!new)>(h: Host<S, O>, k: Key, f: nat, subject: int, clauses: Node, tested: bool, s: State<S, O>)
    requires s.depth >= 0 && Suits(k, tested, Case(subject, clauses))
    ensures Runs(h, k, s, 0, Tail(h, f + 1, Case(subject, clauses), tested, s))
    decreases f, 3
  {
    hide Sem, Runs, SelectCase;
    var e := h.word(subject, s.status, s.w);
    var s1 := s.(w := e.w, status := e.status);
    RunsStill(h, k, s, Err, s1);
    if e.ok {
      SelectStays(h, k, e.text, clauses, tested, s1);
      var c := SelectCase(h, e.text, clauses, s1);
      var s2 := if c.NoClause? || (c.Selected? && c.c.Null?) then c.s.(status := 0) else c.s;
      RunsStill(h, k, s, Normal, s2);
      RunsStill(h, k, s, Err, s2);
      if c.Selected? {
        TailRuns(h, k, f, c.c, tested, s2);
        RunsJoin(h, k, s, Normal, s2, 0, Tail(h, f, c.c, tested, s2));
      }
    }
  }

  /** Selecting a clause changes at most the world and the status; what is selected is part of the clauses. */
  lemma {:induction false} SelectStays<S(!new), O(!new)>(h: Host<S, O>, k: Key, text: string, c: Node, tested: bool, s: State<S, O>)
    requires Suits(k, tested, c)
    ensures var r := SelectCase(h, text, c, s);
      && r.s == s.(w := r.s.w, status := r.s.status)
      && (r.Selected? ==> Suits(k, tested, r.c))
    decreases c
  {
    if c.Clist? {
      var m := h.matches(c.pattern, text, s.status, s.w);
      if m.found {
        SkipSuits(k, tested, c);
      } else {
        SelectStays(h, k, text, c.next, tested, s.(w := m.w, status := m.status));
      }
    }
  }

  lemma {:induction false} SkipSuits(k: Key, tested: bool, c: Node)
    requires c.Clist? && Suits(k, tested, c)
    ensures Suits(k, tested, SkipEmpty(c))
    decreases c
  {
    if c.next.Clist? && c.fall && c.body.Null? {
      SkipSuits(k, tested, c.next);
    }
  }

  lemma {:induction false} LoopRuns<S(!new), O(!new)>(h: Host<S, O>, k: Key, fuel: nat, until: bool, cond: Node, body: Node,
                                                     tested: bool, acc: int, s: State<S, O>)
    requires s.depth >= 1 && Suits(k, tested, Loop(until, cond, body))
    ensures Runs(h, k, s, 1, SemLoop(h, fuel, until, cond, body, tested, acc, s))
    decreases fuel, 0
  {
    hide Sem, Runs, SemLoop, AfterCond, AfterBody, LeaveLoop;
    LoopUnfold(h, fuel, until, cond, body, tested, acc, s);
    if fuel == 0 {
      RunsNoFuel(h, k, s, 1);
    } else {
      var f := fuel - 1;
      var r := Sem(h, f, cond, true, s);
      SemRuns(h, k, f, cond, true, s);
      AfterCondUnfold(h, f, until, cond, body, tested, acc, r);
      RunsDepth(h, k, s, r);
      if r.NoFuel? || r.out == Exit || r.out == Err {
        RunsPass(h, k, s, r);
      } else if NextTurn(r.out) {
        LoopRuns(h, k, f, until, cond, body, tested, acc, r.s);
        RunsJoin(h, k, s, r.out, r.s, 1, SemLoop(h, f, until, cond, body, tested, acc, r.s));
      } else {
        RunsLeave(h, k, s, r.out, acc, r.s);
        if r.out == Normal {
          BodyRuns(h, k, f, until, cond, body, tested, r.s);
          RunsJoin(h, k, s, Normal, r.s, 1, AfterBody(h, f, until, cond, body, tested, Sem(h, f, body, tested, r.s)));
        }
      }
    }
  }

  lemma {:induction false} BodyRuns<S(!new), O(!new)>(h: Host<S, O>, k: Key, f: nat, until: bool, cond: Node, body: Node,
                                                     tested: bool, s: State<S, O>)
    requires s.depth >= 1 && Suits(k, tested, Loop(until, cond, body))
    ensures Runs(h, k, s, 1, AfterBody(h, f, until, cond, body, tested, Sem(h, f, body, tested, s)))
    decreases f, 2
  {
    hide Sem, Runs, SemLoop, LeaveLoop;
    var r := Sem(h, f, body, tested, s);
    SemRuns(h, k, f, body, tested, s);
    RunsDepth(h, k, s, r);
    if r.NoFuel? || r.out == Exit || r.out == Err {
      RunsPass(h, k, s, r);
    } else if r.out == Normal || NextTurn(r.out) {
      LoopRuns(h, k, f, until, cond, body, tested, r.s.status, r.s);
      RunsJoin(h, k, s, r.out, r.s, 1, SemLoop(h, f, until, cond, body, tested, r.s.status, r.s));
    } else {
      RunsLeave(h, k, s, r.out, r.s.status, r.s);
    }
  }

  lemma {:induction false} ForRuns<S(!new), O(!new)>(h: Host<S, O>, k: Key, fuel: nat, x: string, words: seq<string>, body: Node,
                                                    tested: bool, acc: int, s: State<S, O>)
    requires s.depth >= 1 && (k.tidy ==> !k.under) && Suits(k, tested, body)
    ensures Runs(h, k, s, 1, SemFor(h, fuel, x, words, body, tested, acc, s))
    decreases fuel, 0
  {
    hide Sem, Runs, SemFor, AfterWord, LeaveLoop, Suits;
    ForUnfold(h, fuel, x, words, body, tested, acc, s);
    RunsStill(h, k, s, Normal, s);
    RunsLeave(h, k, s, Normal, acc, s);
    if words != [] && fuel == 0 {
      RunsNoFuel(h, k, s, 1);
    } else if words != [] {
      var e := h.setvar(x, words[0], s.w);
      RunsStill(h, k, s, Err, s.(w := e.w, status := e.status));
      RunsPass(h, k, s, Fin(Err, s.(w := e.w, status := e.status)));
      RunsStill(h, k, s, Normal, s.(w := e.w));
      WordRuns(h, k, fuel - 1, x, words[1..], body, tested, s.(w := e.w));
      RunsJoin(h, k, s, Normal, s.(w := e.w), 1,
               AfterWord(h, fuel - 1, x, words[1..], body, tested, Sem(h, fuel - 1, body, tested, s.(w := e.w))));
    }
  }

  lemma {:induction false} WordRuns<S(!new), O(!new)>(h: Host<S, O>, k: Key, f: nat, x: string, words: seq<string>, body: Node,
                                                     tested: bool, s: State<S, O>)
    requires s.depth >= 1 && (k.tidy ==> !k.under) && Suits(k, tested, body)
    ensures Runs(h, k, s, 1, AfterWord(h, f, x, words, body, tested, Sem(h, f, body, tested, s)))
    decreases f, 2
  {
    hide Sem, Runs, SemFor, LeaveLoop, Suits;
    var r := Sem(h, f, body, tested, s);
    SemRuns(h, k, f, body, tested, s);
    RunsDepth(h, k, s, r);
    if r.NoFuel? || r.out == Exit || r.out == Err {
      RunsPass(h, k, s, r);
    } else if r.out == Normal || NextTurn(r.out) {
      ForRuns(h, k, f, x, words, body, tested, r.s.status, r.s);
      RunsJoin(h, k, s, r.out, r.s, 1, SemFor(h, f, x, words, body, tested, r.s.status, r.s));
    } else {
      RunsLeave(h, k, s, r.out, r.s.status, r.s);
    }
  }

  lemma {:induction false} CommandRuns<S(!new), O(!new)>(h: Host<S, O>, k: Key, fuel: nat, n: Node, tested: bool, s: State<S, O>)
    requires s.depth >= 0 && Suits(k, tested, n) && !IsSequence(n) && !IsCompound(n) && !n.Null? && fuel > 0
    ensures Runs(h, k, s, 0, Tail(h, fuel, n, tested, s))
    decreases fuel - 1, 4
  {
    hide Sem, Runs, RunCommand, SemRedir, SemSubshell, SemPipe, SemCall, SemList, SemBreak, Etest, Catch, AfterDot;
    var f := fuel - 1;
    match n {
      case Redir(redir, body) => RedirRuns(h, k, f, redir, body, tested, s);
      case Subshell(redir, body) =>
        SubshellRuns(h, k, f, redir, body, tested, s);
        RunsEtest(h, k, s, tested, SemSubshell(h, f, redir, body, tested, s));
      case Background(redir, _) =>
        var e := h.expredir(redir, s.status, s.w);
        RunsStill(h, k, s, Err, s.(w := e.w, status := e.status));
        RunsStill(h, k, s, Normal, s.(w := e.w.(os := h.spawn(n, e.w)), status := 0));
      case Pipe(backgnd, cmds) =>
        var t := s.(w := s.w.(os := h.spawn(n, s.w)), status := 0);
        RunsStill(h, k, s, Normal, t);
        PipeRuns(h, k, f, cmds, 0, [], 0, s);
        RunsEtest(h, k, s, tested, if backgnd then Fin(Normal, t) else SemPipe(h, f, cmds, 0, [], 0, s));
      case Defun(name, body) => DefunRuns(h, k, name, body, tested, s);
      case Simple(name, cmd) =>
        if name in s.funcs {
          CallRuns(h, k, f, name, cmd, tested, s);
        }
        RunCommandRuns(h, k, cmd, s);
        RunsEtest(h, k, s, tested, if name in s.funcs then SemCall(h, f, s.funcs[name], cmd, tested, s) else RunCommand(h, cmd, s));
      case BreakCmd(isCont, c) =>
        BreakRuns(h, k, isCont, c, s);
        RunsEtest(h, k, s, tested, SemBreak(isCont, c, s));
      case ReturnCmd(arg) =>
        var t := s.(status := if arg.Some? then arg.value else s.status);
        RunsStill(h, k, s, Ret, t);
        RunsEtest(h, k, s, tested, Fin(Ret, t));
      case EvalCmd(trees, via) =>
        CatchRuns(h, k, f, trees, via, tested, s, s.(status := 0));
        RunsEtest(h, k, s, tested, Catch(via, s.depth, SemList(h, f, trees, tested, false, s.(status := 0))));
      case DotCmd(trees, via) =>
        CatchRuns(h, k, f, trees, via, false, s, s);
        RunsEtest(h, k, s, tested, Catch(via, s.depth, AfterDot(SemList(h, f, trees, false, false, s))));
    }
  }

  lemma RunCommandRuns<S(!new), O(!new)>(h: Host<S, O>, k: Key, cmd: int, s: State<S, O>)
    requires s.depth >= 0
    ensures Runs(h, k, s, 0, RunCommand(h, cmd, s))
  {
    hide TidyFuncs, DotFreeFuncs, Leaks, AllTested;
    FewerFuncs(k.calm, s.funcs, h.unsetfuncs(cmd, s.status, s.w));
    LeaksLog(s.trace, Left, |s.trace|);
    LeaksNone(s.trace);
  }

  lemma FewerFuncs(calm: set<string>, funcs: map<string, Node>, gone: set<string>)
    ensures TidyFuncs(calm, funcs) ==> TidyFuncs(calm, funcs - gone)
    ensures DotFreeFuncs(funcs) ==> DotFreeFuncs(funcs - gone)
  {
  }

  lemma BreakRuns<S(!new), O(!new)>(h: Host<S, O>, k: Key, isCont: bool, c: int, s: State<S, O>)
    requires s.depth >= 0
    ensures Runs(h, k, s, 0, SemBreak(isCont, c, s))
  {
    hide TidyFuncs, DotFreeFuncs, Leaks, AllTested, CanExit;
    LeaksNone(s.trace);
  }

  lemma DefunRuns<S(!new), O(!new)>(h: Host<S, O>, k: Key, name: string, body: Node, tested: bool, s: State<S, O>)
    requires Suits(k, tested, Defun(name, body))
    ensures Runs(h, k, s, 0, Fin(Normal, s.(funcs := s.funcs[name := body], status := 0)))
  {
    hide Leaks, AllTested, CanExit;
    LeaksNone(s.trace);
  }

  lemma {:induction false} RedirRuns<S(!new), O(!new)>(h: Host<S, O>, k: Key, f: nat, redir: int, body: Node, tested: bool, s: State<S, O>)
    requires s.depth >= 0 && Suits(k, tested, body)
    ensures Runs(h, k, s, 0, SemRedir(h, f, redir, body, tested, s))
    decreases f, 2
  {
    hide Sem, Runs, Suits;
    var x := h.expredir(redir, s.status, s.w);
    var e := h.redirect(redir, x.w);
    RunsStill(h, k, s, Err, s.(w := x.w, status := x.status));
    RunsStill(h, k, s, Normal, s.(w := e.w.(sh := h.unredirect(x.w.sh, e.w.sh)), status := e.status));
    var s1 := s.(w := e.w, status := x.status);
    RunsStill(h, k, s, Normal, s1);
    SemRuns(h, k, f, body, tested, s1);
    var r := Sem(h, f, body, tested, s1);
    RunsJoin(h, k, s, Normal, s1, 0, r);
    if r.Fin? {
      RunsThen(h, k, s, 0, r.out, r.s, r.out, r.s.(w := r.s.w.(sh := h.unredirect(x.w.sh, r.s.w.sh))));
    }
  }

  lemma SubshellRuns<S(!new), O(!new)>(h: Host<S, O>, k: Key, f: nat, redir: int, body: Node, tested: bool, s: State<S, O>)
    requires s.depth >= 0
    ensures Runs(h, k, s, 0, SemSubshell(h, f, redir, body, tested, s))
  {
    hide SubshellProcess, Runs;
    var x := h.expredir(redir, s.status, s.w);
    RunsStill(h, k, s, Err, s.(w := x.w, status := x.status));
    var r := SubshellProcess(h, f, redir, body, tested, Child(s, x.w, x.status, s.depth));
    RunsAfter(h, k, s, r, After(s, r));
    if r.Fin? {
      RunsAfter(h, k, s, r, After(s, r).(w := x.w.(os := r.s.w.os), status := WaitStatus(r.s.status)));
    }
  }

  lemma {:induction false} PipeRuns<S(!new), O(!new)>(h: Host<S, O>, k: Key, f: nat, cmds: NodeList, i: nat, done: seq<O>, last: int,
                                                     s: State<S, O>)
    requires s.depth >= 0
    ensures Runs(h, k, s, 0, SemPipe(h, f, cmds, i, done, last, s))
    decreases cmds
  {
    hide Sem, Runs;
    if cmds.Nil? {
      RunsStill(h, k, s, Normal, s.(w := s.w.(os := h.pipeJoin(s.w, done)), status := WaitStatus(last)));
    } else {
      var r := Sem(h, f, cmds.hd, false, Child(s, h.pipeView(i, s.w), s.status, s.depth));
      var s1 := After(s, r);
      RunsAfter(h, k, s, r, s1);
      if r.Fin? {
        PipeRuns(h, k, f, cmds.tl, i + 1, done + [r.s.w.os], r.s.status, s1);
        RunsJoin(h, k, s, Normal, s1, 0, SemPipe(h, f, cmds.tl, i + 1, done + [r.s.w.os], r.s.status, s1));
      }
    }
  }

  lemma {:induction false} CallRuns<S(!new), O(!new)>(h: Host<S, O>, k: Key, f: nat, name: string, cmd: int, tested: bool, s: State<S, O>)
    requires s.depth >= 0 && name in s.funcs && Suits(k, tested, Simple(name, cmd))
    ensures Runs(h, k, s, 0, SemCall(h, f, s.funcs[name], cmd, tested, s))
    decreases f, 2
  {
    hide Sem, Runs;
    var body := s.funcs[name];
    var e := h.enter(cmd, s.w);
    var b := h.bind(cmd, s.status, e.w);
    RunsStill(h, k, s, Normal, s.(w := e.w.(sh := h.leave(s.w.sh, e.w.sh)), status := e.status));
    RunsStill(h, k, s, Err, s.(w := b.w.(sh := h.leave(s.w.sh, b.w.sh)), status := b.status));
    var kb := Key(k.calm, k.tidy && TidyFuncs(k.calm, s.funcs), k.under, k.plain && DotFreeFuncs(s.funcs));
    if kb.tidy && !k.under && name in k.calm {
      TidyOutside(k.calm, body);
    }
    var s1 := s.(w := b.w);
    SemRuns(h, kb, f, body, tested, s1);
    var r := Sem(h, f, body, tested, s1);
    RunsStill(h, kb, s, Normal, s1);
    RunsJoin(h, kb, s, Normal, s1, 0, r);
    RunsWeaken(h, kb, k, s, 0, r);
    if r.Fin? {
      RunsThen(h, k, s, 0, r.out, r.s, if r.out == Ret then Normal else r.out,
               r.s.(w := r.s.w.(sh := h.leave(s.w.sh, r.s.w.sh))));
    }
  }

  lemma {:induction false} ListRuns<S(!new), O(!new)>(h: Host<S, O>, k: Key, f: nat, trees: NodeList, tested: bool, any: bool,
                                                     s: State<S, O>)
    requires s.depth >= 0 && SuitsList(k, tested, trees)
    ensures Runs(h, k, s, 0, SemList(h, f, trees, tested, any, s))
    decreases f, 2, trees
  {
    hide Sem, Runs;
    if trees.Nil? {
      RunsStill(h, k, s, Normal, if any then s else s.(status := 0));
    } else if trees.hd.Null? {
      ListRuns(h, k, f, trees.tl, tested, any, s);
    } else {
      SemRuns(h, k, f, trees.hd, tested, s);
      var r := Sem(h, f, trees.hd, tested, s);
      RunsDepth(h, k, s, r);
      if r.Fin? && r.out == Normal {
        ListRuns(h, k, f, trees.tl, tested, true, r.s);
        RunsJoin(h, k, s, Normal, r.s, 0, SemList(h, f, trees.tl, tested, true, r.s));
      }
    }
  }

  /** eval and dot, through `command` or not; `s1` is the state in which the text is run. */
  lemma {:induction false} CatchRuns<S(!new), O(!new)>(h: Host<S, O>, k: Key, f: nat, trees: NodeList, via: bool, tested: bool,
                                                      s: State<S, O>, s1: State<S, O>)
    requires s.depth >= 0 && s1 == s.(status := s1.status)
    requires (k.tidy ==> TidyIn(k.calm, k.under || via, trees)) && (k.plain ==> tested && DotFreeIn(trees))
    ensures var r := SemList(h, f, trees, tested, false, s1);
      Runs(h, k, s, 0, Catch(via, s.depth, r)) && Runs(h, k, s, 0, Catch(via, s.depth, AfterDot(r)))
    decreases f, 3
  {
    hide Sem, SemList, Runs;
    var kv := k.(under := k.under || via);
    ListRuns(h, kv, f, trees, tested, false, s1);
    var r := SemList(h, f, trees, tested, false, s1);
    RunsStill(h, kv, s, Normal, s1);
    RunsJoin(h, kv, s, Normal, s1, 0, r);
    if r.Fin? && r.out == Ret {
      RunsThen(h, kv, s, 0, Ret, r.s, Normal, r.s);
    }
    RunsCatch(h, kv, s, via, r);
    RunsCatch(h, kv, s, via, AfterDot(r));
    RunsWeaken(h, kv, k, s, 0, Catch(via, s.depth, r));
    RunsWeaken(h, kv, k, s, 0, Catch(via, s.depth, AfterDot(r)));
  }

  // ----- breaks stay inside loops -----

  /** `command` catches an error that comes out of a loop. */
  predicate CatchesFromLoop<S, O>(h: Host<S, O>, fuel: nat, n: Node, tested: bool, s: State<S, O>) {
    Leaks(TraceOf(Sem(h, fuel, n, tested, s)), |s.trace|)
  }

  /**
   * The loop count is restored exactly if `command` has caught no error that came out of a loop.  A
   * pending break or continue then counts at most the loops around the command.
   */
  lemma LoopCountRestored<S(!new), O(!new)>(h: Host<S, O>, fuel: nat, n: Node, tested: bool, s: State<S, O>)
    requires s.depth >= 0
    ensures var r := Sem(h, fuel, n, tested, s);
      r.Fin? && r.out != Exit && r.out != Err ==>
        && (r.s.depth == s.depth <==> !CatchesFromLoop(h, fuel, n, tested, s))
        && r.s.depth >= s.depth
        && (r.out.Brk? || r.out.Cnt? ==> 1 <= r.out.n <= r.s.depth)
  {
    hide Sem, Leaks, AllTested, TidyFuncs, DotFreeFuncs, CanExit;
    SemRuns(h, Key({}, false, false, false), fuel, n, tested, s);
  }

  /** No such error can be caught when no loop can be reached under `command`. */
  lemma TidyCatchesNothing<S(!new), O(!new)>(h: Host<S, O>, fuel: nat, calm: set<string>, n: Node, tested: bool, s: State<S, O>)
    requires s.depth >= 0 && Tidy(calm, false, n) && TidyFuncs(calm, s.funcs)
    ensures var r := Sem(h, fuel, n, tested, s);
      r.Fin? && r.out != Exit ==> !CatchesFromLoop(h, fuel, n, tested, s)
  {
    hide Sem, Tidy, Leaks, AllTested, TidyFuncs, DotFreeFuncs, CanExit;
    SemRuns(h, Key(calm, true, false, false), fuel, n, tested, s);
  }

  // ----- two runs of one tree -----

  function WithoutErrexit<S, O>(h: Host<S, O>): Host<S, O> {
    h.(eflag := _ => false)
  }

  /**
   * How the second run differs: it has at least the fuel of the first; or this process does not heed
   * set -e, while the processes it starts do; or set -e is off everywhere.
   */
  datatype Mode = Fuel | Deaf | Off

  datatype Pair<!S, !O> = Pair(h: Host<S, O>, k: Host<S, O>, mode: Mode)

  ghost predicate Paired<S, O>(p: Pair<S, O>, f: nat, g: nat, s: State<S, O>) {
    match p.mode
    case Fuel => p.k == p.h && f <= g
    case Deaf => p.k == p.h && f == g && s.heeds
    case Off => p.k == WithoutErrexit(p.h) && f == g && s.heeds
  }

  /** The state of the second run. */
  function Other<S, O>(p: Pair<S, O>, s: State<S, O>): State<S, O> {
    if p.mode.Deaf? then s.(heeds := false) else s
  }

  function OtherRes<S, O>(p: Pair<S, O>, r: Res<S, O>): Res<S, O> {
    if r.NoFuel? then r else Fin(r.out, Other(p, r.s))
  }

  /** A fatal check in a process, or in one that it started, at any depth. */
  predicate AnyFatal<S, O>(h: Host<S, O>, events: seq<Event<S, O>>) {
    exists i :: 0 <= i < |events| && DeepFatal(h, events[i])
  }

  predicate DeepFatal<S, O>(h: Host<S, O>, e: Event<S, O>) {
    match e
    case Process(events, _) => AnyFatal(h, events)
    case Unfinished(events) => AnyFatal(h, events)
    case _ => Fatal(h, e)
  }

  /** The event at which the two runs of the pair part. */
  predicate Parts<S, O>(p: Pair<S, O>, e: Event<S, O>) {
    if p.mode.Off? then DeepFatal(p.h, e) else p.mode.Deaf? && Fatal(p.h, e)
  }

  predicate NoParting<S, O>(p: Pair<S, O>, trace: seq<Event<S, O>>, from: nat, to: int) {
    forall i :: 0 <= i < |trace| && from <= i < to ==> !Parts(p, trace[i])
  }

  /** The two runs have done the same. */
  ghost predicate Alike<S, O>(p: Pair<S, O>, from: nat, r: Res<S, O>, q: Res<S, O>) {
    && q == OtherRes(p, r) && (p.mode.Fuel? ==> r.Fin?)
    && NoParting(p, TraceOf(r), from, |TraceOf(r)|)
    && (r.Fin? && !p.mode.Fuel? ==> r.s.heeds)
  }

  /** Set -e has ended the first run at its last event, the first fatal check; the second has gone on. */
  ghost predicate CutShort<S, O>(p: Pair<S, O>, from: nat, r: Res<S, O>, q: Res<S, O>) {
    && !p.mode.Fuel? && r.Fin? && r.out == Exit && from < |r.s.trace| && r.s.trace <= TraceOf(q)
    && var last := r.s.trace[|r.s.trace| - 1];
       && Fatal(p.h, last) && last.status == r.s.status && last.w.os == r.s.w.os
       && NoParting(p, r.s.trace, from, |r.s.trace| - 1)
       && (q.Fin? && q.out == Exit ==> |r.s.trace| < |TraceOf(q)|)
  }

  /** The first event that differs is a process in which set -e has struck. */
  ghost predicate DiffersAt<S, O>(p: Pair<S, O>, from: nat, i: int, r: seq<Event<S, O>>, q: seq<Event<S, O>>) {
    && 0 <= from <= i < |r| && i < |q| && r[..i] == q[..i] && r[i] != q[i]
    && !r[i].Checked? && DeepFatal(p.h, r[i]) && NoParting(p, r, from, i)
  }

  ghost predicate ChildCut<S, O>(p: Pair<S, O>, from: nat, r: Res<S, O>, q: Res<S, O>) {
    p.mode.Off? && exists i :: DiffersAt(p, from, i, TraceOf(r), TraceOf(q))
  }

  ghost predicate Meets<S, O>(p: Pair<S, O>, from: nat, r: Res<S, O>, q: Res<S, O>) {
    || Alike(p, from, r, q)
    || (p.mode.Fuel? && r.NoFuel?)
    || CutShort(p, from, r, q)
    || ChildCut(p, from, r, q)
  }

  /** `b` is `a` with more done after it. */
  ghost predicate Follows<S, O>(a: Res<S, O>, b: Res<S, O>) {
    && TraceOf(a) <= TraceOf(b)
    && (a.NoFuel? ==> b.NoFuel?)
    && (a.Fin? && a.out == Exit ==>
          b.Fin? && b.out == Exit && b.s.trace == a.s.trace && b.s.status == a.s.status && b.s.w.os == a.s.w.os)
    && (b.Fin? && b.out == Exit ==> (a.Fin? && a.out == Exit) || |TraceOf(a)| < |TraceOf(b)|)
  }

  /** Runs that agree up to some point agree, or part, as they do from there on. */
  lemma MeetsGoOn<S, O>(p: Pair<S, O>, from: nat, r1: Res<S, O>, q1: Res<S, O>, r: Res<S, O>, q: Res<S, O>)
    requires 0 <= from <= |TraceOf(r1)| && Meets(p, from, r1, q1)
    requires Follows(r1, r) && Follows(q1, q)
    requires Alike(p, from, r1, q1) ==> Meets(p, |TraceOf(r1)|, r, q)
    ensures Meets(p, from, r, q)
  {
    if Alike(p, from, r1, q1) {
      AlikeGoOn(p, from, TraceOf(r1), r, q);
    } else if CutShort(p, from, r1, q1) {
      assert CutShort(p, from, r, q);
    } else if ChildCut(p, from, r1, q1) {
      var i :| DiffersAt(p, from, i, TraceOf(r1), TraceOf(q1));
      DiffersStill(p, from, i, TraceOf(r1), TraceOf(q1), TraceOf(r), TraceOf(q));
    }
  }

  lemma DiffersStill<S, O>(p: Pair<S, O>, from: nat, i: int, r1: seq<Event<S, O>>, q1: seq<Event<S, O>>,
                           r: seq<Event<S, O>>, q: seq<Event<S, O>>)
    requires DiffersAt(p, from, i, r1, q1) && r1 <= r && q1 <= q
    ensures DiffersAt(p, from, i, r, q)
  {
    assert r[..i] == r1[..i] && q[..i] == q1[..i];
  }

  lemma AlikeGoOn<S, O>(p: Pair<S, O>, from: nat, t: seq<Event<S, O>>, r: Res<S, O>, q: Res<S, O>)
    requires 0 <= from <= |t| && t <= TraceOf(r) && NoParting(p, t, from, |t|)
    requires Meets(p, |t|, r, q)
    ensures Meets(p, from, r, q)
  {
    var tr := TraceOf(r);
    forall i, to | 0 <= i < |tr| && from <= i < to && NoParting(p, tr, |t|, to)
      ensures !Parts(p, tr[i])
    {
      if i < |t| {
        assert tr[i] == t[i];
      }
    }
    if ChildCut(p, |t|, r, q) {
      var i :| DiffersAt(p, |t|, i, tr, TraceOf(q));
      assert NoParting(p, tr, |t|, i);
      assert DiffersAt(p, from, i, tr, TraceOf(q));
    }
  }

  lemma MeetsStill<S, O>(p: Pair<S, O>, out: Outcome, t: State<S, O>)
    requires !p.mode.Fuel? ==> t.heeds
    ensures Meets(p, |t.trace|, Fin(out, t), Fin(out, Other(p, t)))
  {
  }

  lemma MeetsNoFuel<S, O>(p: Pair<S, O>, t: State<S, O>, q: Res<S, O>)
    requires !p.mode.Fuel? ==> q == NoFuel(t.trace)
    ensures Meets(p, |t.trace|, NoFuel(t.trace), q)
  {
  }

  lemma FollowsSelf<S, O>(r: Res<S, O>)
    ensures Follows(r, r)
  {
  }

  const ANY := Key({}, false, false, false)

  lemma FollowsRuns<S(!new), O(!new)>(h: Host<S, O>, r1: Res<S, O>, e: int, r: Res<S, O>)
    requires r1.Fin? && r1.out != Exit && Runs(h, ANY, r1.s, e, r)
    ensures Follows(r1, r)
  {
    hide TidyFuncs, DotFreeFuncs, CanExit, Leaks, AllTested;
  }

  lemma TailFollows<S(!new), O(!new)>(h: Host<S, O>, f: nat, b: Node, tested: bool, r1: Res<S, O>)
    requires r1.Fin? && r1.out != Exit && r1.s.depth >= 0
    ensures Follows(r1, Tail(h, f, b, tested, r1.s))
    ensures forall st :: Follows(r1, Fin(Normal, r1.s.(status := st)))
  {
    hide Tail, Runs;
    TailRuns(h, ANY, f, b, tested, r1.s);
    FollowsRuns(h, r1, 0, Tail(h, f, b, tested, r1.s));
  }

  /** A change of the shell's variables, the system or the status at the end of both runs. */
  lemma MeetsThen<S, O>(p: Pair<S, O>, from: nat, r: Res<S, O>, q: Res<S, O>, r': Res<S, O>, q': Res<S, O>)
    requires from <= |TraceOf(r)| && Meets(p, from, r, q)
    requires Follows(r, r') && Follows(q, q') && TraceOf(r') == TraceOf(r)
    requires q == OtherRes(p, r) ==> q' == OtherRes(p, r')
    requires (r.Fin? <==> r'.Fin?) && (r.Fin? ==> r'.s.heeds == r.s.heeds)
    ensures Meets(p, from, r', q')
  {
    if Alike(p, from, r, q) {
      assert Alike(p, from, r', q');
    } else {
      MeetsGoOn(p, from, r, q, r', q');
    }
  }

  lemma NoPartingLog<S, O>(p: Pair<S, O>, trace: seq<Event<S, O>>, e: Event<S, O>, from: nat)
    requires NoParting(p, trace, from, |trace|)
    ensures NoParting(p, trace + [e], from, |trace|)
    ensures !Parts(p, e) ==> NoParting(p, trace + [e], from, |trace| + 1)
  {
    var all := trace + [e];
    assert forall i :: 0 <= i < |trace| ==> all[i] == trace[i];
    assert all[|trace|] == e;
  }

  lemma MeetsEtest<S, O>(p: Pair<S, O>, from: nat, tested: bool, r: Res<S, O>, q: Res<S, O>)
    requires from <= |TraceOf(r)| && Meets(p, from, r, q)
    requires p.mode.Off? ==> p.k == WithoutErrexit(p.h)
    requires !p.mode.Off? ==> p.k == p.h
    ensures Meets(p, from, Etest(p.h, tested, r), Etest(p.k, tested, q))
  {
    hide AnyFatal;
    var r', q' := Etest(p.h, tested, r), Etest(p.k, tested, q);
    EtestFollows(p.h, tested, r);
    EtestFollows(p.k, tested, q);
    if Alike(p, from, r, q) {
      if r.Fin? && r.out != Exit && r.out != Err {
        NoPartingLog(p, r.s.trace, Checked(tested, r.s.status, r.s.w), from);
        if !p.mode.Fuel? && Fatal(p.h, Checked(tested, r.s.status, r.s.w)) {
          assert CutShort(p, from, r', q');
        } else {
          assert Alike(p, from, r', q');
        }
      }
    } else {
      MeetsGoOn(p, from, r, q, r', q');
    }
  }

  lemma EtestFollows<S, O>(h: Host<S, O>, tested: bool, r: Res<S, O>)
    ensures Follows(r, Etest(h, tested, r))
  {
    hide AnyFatal;
  }

  lemma MeetsCatch<S, O>(p: Pair<S, O>, from: nat, via: bool, before: int, r: Res<S, O>, q: Res<S, O>)
    requires from <= |TraceOf(r)| && Meets(p, from, r, q)
    ensures Meets(p, from, Catch(via, before, r), Catch(via, before, q))
  {
    hide AnyFatal;
    var r', q' := Catch(via, before, r), Catch(via, before, q);
    if Alike(p, from, r, q) {
      if r.Fin? && r.out == Err && via {
        NoPartingLog(p, r.s.trace, Event.Caught(before, r.s.depth), from);
        assert Alike(p, from, r', q');
      }
    } else {
      MeetsGoOn(p, from, r, q, r', q');
    }
  }

  function EventOf<S, O>(r: Res<S, O>): Event<S, O> {
    if r.NoFuel? then Unfinished(r.trace) else Process(r.s.trace, r.out)
  }

  /** What the parents of two processes log. */
  lemma ProcessEvents<S, O>(p: Pair<S, O>, r: Res<S, O>, q: Res<S, O>)
    requires p.mode.Off? && Meets(p, 0, r, q)
    ensures if q == r then !DeepFatal(p.h, EventOf(r)) else EventOf(q) != EventOf(r) && DeepFatal(p.h, EventOf(r))
  {
    var tr, tq := TraceOf(r), TraceOf(q);
    if Alike(p, 0, r, q) {
      assert forall i :: 0 <= i < |tr| ==> !Parts(p, tr[i]);
    } else if CutShort(p, 0, r, q) {
      assert DeepFatal(p.h, tr[|tr| - 1]);
    } else {
      var i :| DiffersAt(p, 0, i, tr, tq);
      assert DeepFatal(p.h, tr[i]);
      assert tr[i] != tq[i];
    }
  }

  /** The parents part when their processes do, whatever comes after. */
  lemma ParentsPart<S, O>(p: Pair<S, O>, s: State<S, O>, e: Event<S, O>, e': Event<S, O>, r: Res<S, O>, q: Res<S, O>)
    requires p.mode.Off? && e != e' && DeepFatal(p.h, e) && !e.Checked?
    requires s.trace + [e] <= TraceOf(r) && s.trace + [e'] <= TraceOf(q)
    ensures Meets(p, |s.trace|, r, q)
  {
    var tr, tq, i := TraceOf(r), TraceOf(q), |s.trace|;
    assert tr[i] == (s.trace + [e])[i] && tq[i] == (s.trace + [e'])[i];
    assert tr[..i] == (s.trace + [e])[..i] == s.trace && tq[..i] == (s.trace + [e'])[..i] == s.trace;
    assert DiffersAt(p, |s.trace|, i, tr, tq);
  }

  /** The parents of processes that did the same. */
  lemma ParentsAlike<S, O>(p: Pair<S, O>, s: State<S, O>, r: Res<S, O>, t: State<S, O>, out: Outcome)
    requires p.mode.Off? ==> !DeepFatal(p.h, EventOf(r))
    requires t == After(s, r).(w := t.w, status := t.status) && (!p.mode.Fuel? ==> s.heeds)
    ensures Alike(p, |s.trace|, Fin(out, t), Fin(out, Other(p, t)))
    ensures !p.mode.Fuel? ==> Meets(p, |s.trace|, NoFuel(t.trace), NoFuel(t.trace))
  {
    hide AnyFatal;
  }

  // ----- every pair of runs -----

  lemma {:induction false} SemMeets<S(!new), O(!new)>(p: Pair<S, O>, f: nat, g: nat, n: Node, t: bool, s: State<S, O>)
    requires Paired(p, f, g, s) && s.depth >= 0
    ensures Meets(p, |s.trace|, Sem(p.h, f, n, t, s), Sem(p.k, g, n, t, Other(p, s)))
    ensures Follows(Fin(Normal, s), Sem(p.h, f, n, t, s)) && Follows(Fin(Normal, Other(p, s)), Sem(p.k, g, n, t, Other(p, s)))
    decreases f, 1
  {
    hide Meets, Follows, Runs;
    SemRuns(p.h, ANY, f, n, t, s);
    SemRuns(p.k, ANY, g, n, t, Other(p, s));
    FollowsRuns(p.h, Fin(Normal, s), 0, Sem(p.h, f, n, t, s));
    FollowsRuns(p.k, Fin(Normal, Other(p, s)), 0, Sem(p.k, g, n, t, Other(p, s)));
    if n.Null? {
      MeetsStill(p, Normal, s.(status := 0));
    } else {
      TailMeets(p, f, g, n, t, s);
    }
  }

  lemma {:induction false} TailMeets<S(!new), O(!new)>(p: Pair<S, O>, f: nat, g: nat, n: Node, t: bool, s: State<S, O>)
    requires Paired(p, f, g, s) && s.depth >= 0
    ensures Meets(p, |s.trace|, Tail(p.h, f, n, t, s), Tail(p.k, g, n, t, Other(p, s)))
    decreases f, 0
  {
    hide Meets, Follows, Runs;
    if n.Null? {
      MeetsStill(p, Normal, s);
    } else if f == 0 {
      MeetsNoFuel(p, s, Tail(p.k, g, n, t, Other(p, s)));
    } else if n.Not? || n.If? {
      ChoiceMeets(p, f, g, n, t, s);
    } else if IsSequence(n) {
      SequenceMeets(p, f, g, n, t, s);
    } else if n.Loop? || n.For? {
      LoopingMeets(p, f, g, n, t, s);
    } else if n.Case? || n.Clist? {
      CaseMeets(p, f, g, n, t, s);
    } else if IsBuiltin(n) {
      BuiltinMeets(p, f, g, n, t, s);
    } else {
      CommandMeets(p, f, g, n, t, s);
    }
  }

  /** What is run first, with what the runs may go on with. */
  lemma {:induction false} FirstMeets<S(!new), O(!new)>(p: Pair<S, O>, f: nat, g: nat, a: Node, t: bool, s: State<S, O>)
    requires Paired(p, f, g, s) && s.depth >= 0
    ensures var r, q := Sem(p.h, f, a, t, s), Sem(p.k, g, a, t, Other(p, s));
      && Meets(p, |s.trace|, r, q) && |s.trace| <= |TraceOf(r)| && Follows(r, r) && Follows(q, q)
      && (r.Fin? && r.out != Exit ==> r.s.depth >= s.depth) && (q.Fin? && q.out != Exit ==> q.s.depth >= s.depth)
      && (Alike(p, |s.trace|, r, q) ==>
            q == OtherRes(p, r) && Meets(p, |TraceOf(r)|, r, q) && (r.Fin? ==> Paired(p, f, g, r.s)))
    decreases f, 2
  {
    hide Sem, Meets, Follows, Runs, NoParting, Alike;
    var r, q := Sem(p.h, f, a, t, s), Sem(p.k, g, a, t, Other(p, s));
    SemMeets(p, f, g, a, t, s);
    SemRuns(p.h, ANY, f, a, t, s);
    SemRuns(p.k, ANY, g, a, t, Other(p, s));
    FirstEnds(p, f, g, s, r, q);
  }

  lemma FirstEnds<S(!new), O(!new)>(p: Pair<S, O>, f: nat, g: nat, s: State<S, O>, r: Res<S, O>, q: Res<S, O>)
    requires Paired(p, f, g, s)
    requires Runs(p.h, ANY, s, 0, r) && Runs(p.k, ANY, Other(p, s), 0, q)
    ensures |s.trace| <= |TraceOf(r)| && Follows(r, r) && Follows(q, q)
    ensures (r.Fin? && r.out != Exit ==> r.s.depth >= s.depth) && (q.Fin? && q.out != Exit ==> q.s.depth >= s.depth)
    ensures Alike(p, |s.trace|, r, q) ==>
            q == OtherRes(p, r) && Meets(p, |TraceOf(r)|, r, q) && (r.Fin? ==> Paired(p, f, g, r.s))
  {
    hide TidyFuncs, DotFreeFuncs, CanExit, Leaks, AllTested, Parts;
  }

  lemma {:induction false} SequenceMeets<S(!new), O(!new)>(p: Pair<S, O>, f: nat, g: nat, n: Node, t: bool, s: State<S, O>)
    requires Paired(p, f, g, s) && s.depth >= 0 && (n.Semi? || n.AndAnd? || n.OrOr?) && f > 0
    ensures Meets(p, |s.trace|, Tail(p.h, f, n, t, s), Tail(p.k, g, n, t, Other(p, s)))
    decreases f - 1, 4
  {
    hide Sem, Tail, Meets, Follows, Runs, Alike, Paired;
    var f1, g1, t1 := f - 1, Less(p, f, g, s), if n.Semi? then t else true;
    SequenceUnfold(p.h, f1, n, t, s);
    SequenceUnfold(p.k, g1, n, t, Other(p, s));
    FirstMeets(p, f1, g1, n.l, t1, s);
    var r1, q1 := Sem(p.h, f1, n.l, t1, s), Sem(p.k, g1, n.l, t1, Other(p, s));
    if r1.Fin? && r1.out == Normal {
      TailFollows(p.h, f1, n.r, t, r1);
      if Alike(p, |s.trace|, r1, q1) {
        TailMeets(p, f1, g1, n.r, t, r1.s);
      }
    }
    if q1.Fin? && q1.out == Normal {
      TailFollows(p.k, g1, n.r, t, q1);
    }
    MeetsGoOn(p, |s.trace|, r1, q1, Tail(p.h, f, n, t, s), Tail(p.k, g, n, t, Other(p, s)));
  }

  /** One fuel less on both sides. */
  function Less<S, O>(p: Pair<S, O>, f: nat, g: nat, s: State<S, O>): (g1: nat)
    requires f > 0 && Paired(p, f, g, s)
    ensures g == g1 + 1 && Paired(p, f - 1, g1, s)
  {
    g - 1
  }

  lemma {:induction false} ChoiceMeets<S(!new), O(!new)>(p: Pair<S, O>, f: nat, g: nat, n: Node, t: bool, s: State<S, O>)
    requires Paired(p, f, g, s) && s.depth >= 0 && (n.Not? || n.If?) && f > 0
    ensures Meets(p, |s.trace|, Tail(p.h, f, n, t, s), Tail(p.k, g, n, t, Other(p, s)))
    decreases f - 1, 4
  {
    hide Sem, Meets, Follows, Runs, Alike, Paired;
    var f1, g1, first := f - 1, Less(p, f, g, s), if n.Not? then n.c else n.test;
    FirstMeets(p, f1, g1, first, true, s);
    var r1, q1 := Sem(p.h, f1, first, true, s), Sem(p.k, g1, first, true, Other(p, s));
    var r, q := Tail(p.h, f, n, t, s), Tail(p.k, g, n, t, Other(p, s));
    var a, b := if n.If? then n.ifPart else Null, if n.If? then n.elsePart else Null;
    if r1.Fin? && r1.out == Normal {
      TailFollows(p.h, f1, a, t, r1);
      TailFollows(p.h, f1, b, t, r1);
      if Alike(p, |s.trace|, r1, q1) {
        TailMeets(p, f1, g1, a, t, r1.s);
        TailMeets(p, f1, g1, b, t, r1.s);
        StatusMeets(p, f1, g1, r1.s);
      }
    }
    if q1.Fin? && q1.out == Normal {
      TailFollows(p.k, g1, a, t, q1);
      TailFollows(p.k, g1, b, t, q1);
    }
    MeetsGoOn(p, |s.trace|, r1, q1, r, q);
  }

  lemma StatusMeets<S, O>(p: Pair<S, O>, f: nat, g: nat, s: State<S, O>)
    requires Paired(p, f, g, s)
    ensures forall st :: Meets(p, |s.trace|, Fin(Normal, s.(status := st)), Fin(Normal, Other(p, s).(status := st)))
  {
    forall st
      ensures Meets(p, |s.trace|, Fin(Normal, s.(status := st)), Fin(Normal, Other(p, s).(status := st)))
    {
      MeetsStill(p, Normal, s.(status := st));
    }
  }

  lemma {:induction false} LoopingMeets<S(!new), O(!new)>(p: Pair<S, O>, f: nat, g: nat, n: Node, t: bool, s: State<S, O>)
    requires Paired(p, f, g, s) && s.depth >= 0 && (n.Loop? || n.For?) && f > 0
    ensures Meets(p, |s.trace|, Tail(p.h, f, n, t, s), Tail(p.k, g, n, t, Other(p, s)))
    decreases f - 1, 4
  {
    hide Sem, SemLoop, SemFor, Meets, Follows, Runs;
    var f1, g1 := f - 1, Less(p, f, g, s);
    match n {
      case Loop(until, cond, body) => LoopMeets(p, f1, g1, until, cond, body, t, 0, s.(depth := s.depth + 1));
      case For(x, words, body) =>
        var e := p.h.expand(words, s.status, s.w);
        var s0 := s.(w := e.w, status := e.status);
        MeetsStill(p, Err, s0);
        ForMeets(p, f1, g1, x, e.words, body, t, 0, s0.(depth := s.depth + 1));
    }
  }

  lemma {:induction false} LoopMeets<S(!new), O(!new)>(p: Pair<S, O>, f: nat, g: nat, until: bool, cond: Node, body: Node,
                                                      t: bool, acc: int, s: State<S, O>)
    requires Paired(p, f, g, s) && s.depth >= 1
    ensures Meets(p, |s.trace|, SemLoop(p.h, f, until, cond, body, t, acc, s), SemLoop(p.k, g, until, cond, body, t, acc, Other(p, s)))
    decreases f, 0
  {
    hide Sem, SemLoop, AfterCond, AfterBody, Meets, Follows, Runs, Alike, LeaveLoop, Paired;
    var r, q := SemLoop(p.h, f, until, cond, body, t, acc, s), SemLoop(p.k, g, until, cond, body, t, acc, Other(p, s));
    LoopUnfold(p.h, f, until, cond, body, t, acc, s);
    LoopUnfold(p.k, g, until, cond, body, t, acc, Other(p, s));
    if f == 0 {
      NoFuelMeets(p, f, g, s, q);
    } else {
      var f1, g1 := f - 1, Less(p, f, g, s);
      FirstMeets(p, f1, g1, cond, true, s);
      var r1, q1 := Sem(p.h, f1, cond, true, s), Sem(p.k, g1, cond, true, Other(p, s));
      CondFollows(p.h, f1, until, cond, body, t, acc, r1);
      CondFollows(p.k, g1, until, cond, body, t, acc, q1);
      if Alike(p, |s.trace|, r1, q1) {
        CondMeets(p, f1, g1, until, cond, body, t, acc, r1);
      }
      MeetsGoOn(p, |s.trace|, r1, q1, r, q);
    }
  }

  lemma NoFuelMeets<S, O>(p: Pair<S, O>, f: nat, g: nat, s: State<S, O>, q: Res<S, O>)
    requires Paired(p, f, g, s) && (f == g ==> q == NoFuel(s.trace))
    ensures Meets(p, |s.trace|, NoFuel(s.trace), q)
  {
    MeetsNoFuel(p, s, q);
  }

  lemma LeaveFollows<S, O>(out: Outcome, acc: int, r: Res<S, O>)
    requires r.Fin? && r.out == out && out != Exit && out != Err && !NextTurn(out)
    ensures out != Normal ==> Follows(r, LeaveLoop(out, acc, r.s))
    ensures out == Normal ==> Follows(r, Fin(Normal, r.s.(status := acc, depth := r.s.depth - 1)))
  {
  }

  lemma CondFollows<S(!new), O(!new)>(h: Host<S, O>, f: nat, until: bool, cond: Node, body: Node, t: bool, acc: int, r: Res<S, O>)
    requires r.Fin? && r.out != Exit ==> r.s.depth >= 1
    ensures Follows(r, AfterCond(h, f, until, cond, body, t, acc, r))
  {
    hide Sem, Tail, SemLoop, AfterCond, AfterBody, Runs, LeaveLoop, Follows, NextTurn, Suits;
    AfterCondUnfold(h, f, until, cond, body, t, acc, r);
    if r.NoFuel? || r.out == Exit || r.out == Err {
      FollowsSelf(r);
    } else if NextTurn(r.out) {
      GoOnFollows(h, f, until, cond, body, t, acc, r);
    } else {
      LeaveFollows(r.out, acc, r);
      if r.out == Normal {
        GoOnFollows(h, f, until, cond, body, t, acc, r);
      }
    }
  }

  lemma GoOnFollows<S(!new), O(!new)>(h: Host<S, O>, f: nat, until: bool, cond: Node, body: Node, t: bool, acc: int, r: Res<S, O>)
    requires r.Fin? && r.out != Exit && r.s.depth >= 1
    ensures Follows(r, SemLoop(h, f, until, cond, body, t, acc, r.s))
    ensures Follows(r, AfterBody(h, f, until, cond, body, t, Sem(h, f, body, t, r.s)))
  {
    hide Sem, Tail, SemLoop, AfterBody, Runs, Follows;
    LoopRuns(h, ANY, f, until, cond, body, t, acc, r.s);
    FollowsRuns(h, r, 1, SemLoop(h, f, until, cond, body, t, acc, r.s));
    BodyRuns(h, ANY, f, until, cond, body, t, r.s);
    FollowsRuns(h, r, 1, AfterBody(h, f, until, cond, body, t, Sem(h, f, body, t, r.s)));
  }

  lemma {:induction false} CondMeets<S(!new), O(!new)>(p: Pair<S, O>, f: nat, g: nat, until: bool, cond: Node, body: Node,
                                                      t: bool, acc: int, r: Res<S, O>)
    requires r.Fin? ==> Paired(p, f, g, r.s) && (r.out != Exit ==> r.s.depth >= 1)
    requires Meets(p, |TraceOf(r)|, r, OtherRes(p, r))
    ensures Meets(p, |TraceOf(r)|, AfterCond(p.h, f, until, cond, body, t, acc, r), AfterCond(p.k, g, until, cond, body, t, acc, OtherRes(p, r)))
    decreases f, 4
  {
    hide Sem, Tail, SemLoop, AfterCond, AfterBody, Meets, Runs, Paired, Follows, LeaveLoop, NextTurn;
    AfterCondUnfold(p.h, f, until, cond, body, t, acc, r);
    AfterCondUnfold(p.k, g, until, cond, body, t, acc, OtherRes(p, r));
    if r.Fin? && r.out != Exit && r.out != Err {
      if NextTurn(r.out) {
        LoopMeets(p, f, g, until, cond, body, t, acc, r.s);
      } else {
        LeaveMeets(p, f, g, r.out, acc, r.s);
        if r.out == Normal {
          BodyMeets(p, f, g, until, cond, body, t, r.s);
        }
      }
    }
  }

  lemma LeaveMeets<S, O>(p: Pair<S, O>, f: nat, g: nat, out: Outcome, acc: int, s: State<S, O>)
    requires Paired(p, f, g, s) && out != Exit && out != Err
    ensures out != Normal ==> Meets(p, |s.trace|, LeaveLoop(out, acc, s), LeaveLoop(out, acc, Other(p, s)))
    ensures out == Normal ==>
      Meets(p, |s.trace|, Fin(Normal, s.(status := acc, depth := s.depth - 1)), Fin(Normal, Other(p, s).(status := acc, depth := s.depth - 1)))
  {
    hide Meets;
    if out == Normal {
      MeetsStill(p, Normal, s.(status := acc, depth := s.depth - 1));
    } else {
      var l := LeaveLoop(out, acc, s);
      MeetsStill(p, l.out, l.s);
    }
  }

  lemma {:induction false} BodyMeets<S(!new), O(!new)>(p: Pair<S, O>, f: nat, g: nat, until: bool, cond: Node, body: Node,
                                                      t: bool, s: State<S, O>)
    requires Paired(p, f, g, s) && s.depth >= 1
    ensures Meets(p, |s.trace|, AfterBody(p.h, f, until, cond, body, t, Sem(p.h, f, body, t, s)),
                                AfterBody(p.k, g, until, cond, body, t, Sem(p.k, g, body, t, Other(p, s))))
    decreases f, 3
  {
    hide Sem, SemLoop, AfterBody, Meets, Follows, Runs, Alike, Paired, Other, OtherRes;
    FirstMeets(p, f, g, body, t, s);
    var r1, q1 := Sem(p.h, f, body, t, s), Sem(p.k, g, body, t, Other(p, s));
    BodyFollows(p.h, f, until, cond, body, t, r1);
    OtherDepth(p, s);
    BodyFollows(p.k, g, until, cond, body, t, q1);
    if Alike(p, |s.trace|, r1, q1) {
      BodyGoesOn(p, f, g, until, cond, body, t, r1);
    }
    MeetsGoOn(p, |s.trace|, r1, q1, AfterBody(p.h, f, until, cond, body, t, r1), AfterBody(p.k, g, until, cond, body, t, q1));
  }

  lemma OtherDepth<S, O>(p: Pair<S, O>, s: State<S, O>)
    ensures Other(p, s).depth == s.depth
  {
  }

  lemma {:induction false} BodyGoesOn<S(!new), O(!new)>(p: Pair<S, O>, f: nat, g: nat, until: bool, cond: Node, body: Node,
                                                       t: bool, r: Res<S, O>)
    requires r.Fin? ==> Paired(p, f, g, r.s) && (r.out != Exit ==> r.s.depth >= 1)
    requires Meets(p, |TraceOf(r)|, r, OtherRes(p, r))
    ensures Meets(p, |TraceOf(r)|, AfterBody(p.h, f, until, cond, body, t, r), AfterBody(p.k, g, until, cond, body, t, OtherRes(p, r)))
    decreases f, 2
  {
    hide Sem, SemLoop, AfterBody, Meets, Runs, Paired, LeaveLoop, NextTurn;
    AfterBodyUnfold(p.h, f, until, cond, body, t, r);
    AfterBodyUnfold(p.k, g, until, cond, body, t, OtherRes(p, r));
    if r.Fin? && r.out != Exit && r.out != Err {
      if r.out == Normal || NextTurn(r.out) {
        LoopMeets(p, f, g, until, cond, body, t, r.s.status, r.s);
      } else {
        LeaveMeets(p, f, g, r.out, r.s.status, r.s);
      }
    }
  }

  lemma BodyFollows<S(!new), O(!new)>(h: Host<S, O>, f: nat, until: bool, cond: Node, body: Node, t: bool, r: Res<S, O>)
    requires r.Fin? && r.out != Exit ==> r.s.depth >= 1
    ensures Follows(r, AfterBody(h, f, until, cond, body, t, r))
  {
    hide Sem, SemLoop, AfterBody, Runs, LeaveLoop, Follows, NextTurn;
    AfterBodyUnfold(h, f, until, cond, body, t, r);
    if r.NoFuel? || r.out == Exit || r.out == Err {
      FollowsSelf(r);
    } else if r.out == Normal || NextTurn(r.out) {
      GoOnFollows(h, f, until, cond, body, t, r.s.status, r);
    } else {
      LeaveFollows(r.out, r.s.status, r);
    }
  }

  lemma {:induction false} ForMeets<S(!new), O(!new)>(p: Pair<S, O>, f: nat, g: nat, x: string, words: seq<string>, body: Node,
                                                     t: bool, acc: int, s: State<S, O>)
    requires Paired(p, f, g, s) && s.depth >= 1
    ensures Meets(p, |s.trace|, SemFor(p.h, f, x, words, body, t, acc, s), SemFor(p.k, g, x, words, body, t, acc, Other(p, s)))
    decreases f, 0
  {
    hide Sem, SemFor, AfterWord, Meets, Runs, Paired;
    ForUnfold(p.h, f, x, words, body, t, acc, s);
    ForUnfold(p.k, g, x, words, body, t, acc, Other(p, s));
    LeaveMeets(p, f, g, Normal, acc, s);
    if words != [] && f == 0 {
      NoFuelMeets(p, f, g, s, SemFor(p.k, g, x, words, body, t, acc, Other(p, s)));
    } else if words != [] {
      SetvarMeets(p, f, g, x, words[0], s);
      WordMeets(p, f - 1, Less(p, f, g, s), x, words[1..], body, t, s.(w := p.h.setvar(x, words[0], s.w).w));
    }
  }

  lemma SetvarMeets<S, O>(p: Pair<S, O>, f: nat, g: nat, x: string, word: string, s: State<S, O>)
    requires Paired(p, f, g, s) && f > 0
    ensures p.k.setvar == p.h.setvar
    ensures var e := p.h.setvar(x, word, s.w);
      && Paired(p, f - 1, Less(p, f, g, s), s.(w := e.w))
      && Meets(p, |s.trace|, Fin(Err, s.(w := e.w, status := e.status)), Fin(Err, Other(p, s).(w := e.w, status := e.status)))
  {
    var e := p.h.setvar(x, word, s.w);
    MeetsStill(p, Err, s.(w := e.w, status := e.status));
  }

  lemma {:induction false} WordMeets<S(!new), O(!new)>(p: Pair<S, O>, f: nat, g: nat, x: string, words: seq<string>, body: Node,
                                                      t: bool, s: State<S, O>)
    requires Paired(p, f, g, s) && s.depth >= 1
    ensures Meets(p, |s.trace|, AfterWord(p.h, f, x, words, body, t, Sem(p.h, f, body, t, s)),
                                AfterWord(p.k, g, x, words, body, t, Sem(p.k, g, body, t, Other(p, s))))
    decreases f, 3
  {
    hide Sem, SemFor, AfterWord, Meets, Follows, Runs, Alike, LeaveLoop, Paired, NextTurn;
    FirstMeets(p, f, g, body, t, s);
    var r1, q1 := Sem(p.h, f, body, t, s), Sem(p.k, g, body, t, Other(p, s));
    WordFollows(p.h, f, x, words, body, t, r1);
    WordFollows(p.k, g, x, words, body, t, q1);
    AfterWordUnfold(p.h, f, x, words, body, t, r1);
    AfterWordUnfold(p.k, g, x, words, body, t, q1);
    if Alike(p, |s.trace|, r1, q1) && r1.Fin? && r1.out != Exit && r1.out != Err {
      if r1.out == Normal || NextTurn(r1.out) {
        ForMeets(p, f, g, x, words, body, t, r1.s.status, r1.s);
      } else {
        LeaveMeets(p, f, g, r1.out, r1.s.status, r1.s);
      }
    }
    MeetsGoOn(p, |s.trace|, r1, q1, AfterWord(p.h, f, x, words, body, t, r1), AfterWord(p.k, g, x, words, body, t, q1));
  }

  lemma WordFollows<S(!new), O(!new)>(h: Host<S, O>, f: nat, x: string, words: seq<string>, body: Node, t: bool, r: Res<S, O>)
    requires r.Fin? && r.out != Exit ==> r.s.depth >= 1
    ensures Follows(r, AfterWord(h, f, x, words, body, t, r))
  {
    hide Sem, SemFor, AfterWord, Runs, LeaveLoop, Follows, NextTurn;
    AfterWordUnfold(h, f, x, words, body, t, r);
    if r.NoFuel? || r.out == Exit || r.out == Err {
      FollowsSelf(r);
    } else if r.out == Normal || NextTurn(r.out) {
      ForRuns(h, ANY, f, x, words, body, t, r.s.status, r.s);
      FollowsRuns(h, r, 1, SemFor(h, f, x, words, body, t, r.s.status, r.s));
    } else {
      LeaveFollows(r.out, r.s.status, r);
    }
  }

  lemma {:induction false} CaseMeets<S(!new), O(!new)>(p: Pair<S, O>, f: nat, g: nat, n: Node, t: bool, s: State<S, O>)
    requires Paired(p, f, g, s) && s.depth >= 0 && (n.Case? || n.Clist?) && f > 0
    ensures Meets(p, |s.trace|, Tail(p.h, f, n, t, s), Tail(p.k, g, n, t, Other(p, s)))
    decreases f - 1, 5
  {
    hide Sem, SelectCase, Meets, Follows, Runs, Alike, Paired;
    var f1, g1 := f - 1, Less(p, f, g, s);
    if n.Case? {
      SelectionMeets(p, f1, g1, n.subject, n.clauses, t, s);
    } else if !n.fall {
      TailMeets(p, f1, g1, n.body, t, s);
    } else if n.body.Null? {
      TailMeets(p, f1, g1, n.next, t, s);
    } else {
      ClauseMeets(p, f1, g1, n.body, n.next, t, s);
    }
  }

  lemma {:induction false} SelectionMeets<S(!new), O(!new)>(p: Pair<S, O>, f: nat, g: nat, subject: int, clauses: Node, t: bool, s: State<S, O>)
    requires Paired(p, f, g, s) && s.depth >= 0
    ensures Meets(p, |s.trace|, Tail(p.h, f + 1, Case(subject, clauses), t, s), Tail(p.k, g + 1, Case(subject, clauses), t, Other(p, s)))
    decreases f, 4
  {
    hide Sem, SelectCase, Meets, Follows, Runs, Alike;
    var e := p.h.word(subject, s.status, s.w);
    var s1 := s.(w := e.w, status := e.status);
    MeetsStill(p, Err, s1);
    SelectOther(p, e.text, clauses, s1);
    SelectStays(p.h, ANY, e.text, clauses, t, s1);
    var c := SelectCase(p.h, e.text, clauses, s1);
    MeetsStill(p, Normal, c.s.(status := 0));
    MeetsStill(p, Err, c.s);
    if c.Selected? {
      TailMeets(p, f, g, c.c, t, if c.c.Null? then c.s.(status := 0) else c.s);
    }
  }

  /** A clause that falls through. */
  lemma {:induction false} ClauseMeets<S(!new), O(!new)>(p: Pair<S, O>, f: nat, g: nat, body: Node, next: Node, t: bool, s: State<S, O>)
    requires Paired(p, f, g, s) && s.depth >= 0
    ensures var r1, q1 := Sem(p.h, f, body, t, s), Sem(p.k, g, body, t, Other(p, s));
      Meets(p, |s.trace|, if r1.NoFuel? || r1.out != Normal then r1 else Tail(p.h, f, next, t, r1.s),
                          if q1.NoFuel? || q1.out != Normal then q1 else Tail(p.k, g, next, t, q1.s))
    decreases f, 3
  {
    hide Sem, Tail, Meets, Follows, Runs, Alike, Paired;
    FirstMeets(p, f, g, body, t, s);
    var r1, q1 := Sem(p.h, f, body, t, s), Sem(p.k, g, body, t, Other(p, s));
    if r1.Fin? && r1.out == Normal {
      TailFollows(p.h, f, next, t, r1);
      if Alike(p, |s.trace|, r1, q1) {
        TailMeets(p, f, g, next, t, r1.s);
      }
    }
    if q1.Fin? && q1.out == Normal {
      TailFollows(p.k, g, next, t, q1);
    }
    MeetsGoOn(p, |s.trace|, r1, q1, if r1.NoFuel? || r1.out != Normal then r1 else Tail(p.h, f, next, t, r1.s),
              if q1.NoFuel? || q1.out != Normal then q1 else Tail(p.k, g, next, t, q1.s));
  }

  lemma {:induction false} SelectOther<S, O>(p: Pair<S, O>, text: string, c: Node, s: State<S, O>)
    requires p.k.matches == p.h.matches
    ensures var r, q := SelectCase(p.h, text, c, s), SelectCase(p.k, text, c, Other(p, s));
      q.s == Other(p, r.s) && (q.Selected? <==> r.Selected?) && (q.NoClause? <==> r.NoClause?) && (r.Selected? ==> q.c == r.c)
    decreases c
  {
    if c.Clist? {
      var m := p.h.matches(c.pattern, text, s.status, s.w);
      SelectOther(p, text, c.next, s.(w := m.w, status := m.status));
    }
  }

  lemma {:induction false} CommandMeets<S(!new), O(!new)>(p: Pair<S, O>, f: nat, g: nat, n: Node, t: bool, s: State<S, O>)
    requires Paired(p, f, g, s) && s.depth >= 0 && !IsSequence(n) && !IsCompound(n) && !n.Null? && !IsBuiltin(n) && f > 0
    ensures Meets(p, |s.trace|, Tail(p.h, f, n, t, s), Tail(p.k, g, n, t, Other(p, s)))
    decreases f - 1, 5
  {
    hide Sem, Meets, Runs, RunCommand, SemRedir, SemSubshell, SemPipe, SemCall, SemList, SemBreak, Etest, SemLoop, SemFor,
      SelectCase, Catch, AfterDot;
    var f1, g1 := f - 1, Less(p, f, g, s);
    var o := Other(p, s);
    match n {
      case Redir(redir, body) => RedirMeets(p, f1, g1, redir, body, t, s);
      case Subshell(redir, body) =>
        SubshellMeets(p, f1, g1, redir, body, t, s);
        CheckedMeets(p, f1, g1, t, s, SemSubshell(p.h, f1, redir, body, t, s), SemSubshell(p.k, g1, redir, body, t, o));
      case Background(redir, _) =>
        var e := p.h.expredir(redir, s.status, s.w);
        MeetsStill(p, Err, s.(w := e.w, status := e.status));
        MeetsStill(p, Normal, s.(w := e.w.(os := p.h.spawn(n, e.w)), status := 0));
      case Pipe(backgnd, cmds) =>
        var w := s.w.(os := p.h.spawn(n, s.w));
        MeetsStill(p, Normal, s.(w := w, status := 0));
        PipeMeets(p, f1, g1, cmds, 0, [], 0, s);
        CheckedMeets(p, f1, g1, t, s,
          if backgnd then Fin(Normal, s.(w := w, status := 0)) else SemPipe(p.h, f1, cmds, 0, [], 0, s),
          if backgnd then Fin(Normal, o.(w := w, status := 0)) else SemPipe(p.k, g1, cmds, 0, [], 0, o));
      case Defun(name, body) => MeetsStill(p, Normal, s.(funcs := s.funcs[name := body], status := 0));
      case Simple(name, cmd) =>
        if name in s.funcs {
          CallMeets(p, f1, g1, s.funcs[name], cmd, t, s);
          CheckedMeets(p, f1, g1, t, s, SemCall(p.h, f1, s.funcs[name], cmd, t, s), SemCall(p.k, g1, s.funcs[name], cmd, t, o));
        } else {
          RunCommandMeets(p, f1, g1, cmd, s);
          CheckedMeets(p, f1, g1, t, s, RunCommand(p.h, cmd, s), RunCommand(p.k, cmd, o));
        }
    }
  }

  /** break, continue, return, eval and dot. */
  lemma {:induction false} BuiltinMeets<S(!new), O(!new)>(p: Pair<S, O>, f: nat, g: nat, n: Node, t: bool, s: State<S, O>)
    requires Paired(p, f, g, s) && s.depth >= 0 && IsBuiltin(n) && f > 0
    ensures Meets(p, |s.trace|, Tail(p.h, f, n, t, s), Tail(p.k, g, n, t, Other(p, s)))
    decreases f - 1, 6
  {
    hide Sem, Tail, Meets, Runs, BuiltinResult, Etest;
    var f1, g1 := f - 1, Less(p, f, g, s);
    BuiltinUnfold(p.h, f1, n, t, s);
    BuiltinUnfold(p.k, g1, n, t, Other(p, s));
    ResultMeets(p, f1, g1, n, t, s);
    CheckedMeets(p, f1, g1, t, s, BuiltinResult(p.h, f1, n, t, s), BuiltinResult(p.k, g1, n, t, Other(p, s)));
  }

  lemma ReturnedMeets<S, O>(p: Pair<S, O>, f: nat, g: nat, status: int, s: State<S, O>)
    requires Paired(p, f, g, s)
    ensures Meets(p, |s.trace|, Fin(Ret, s.(status := status)), Fin(Ret, Other(p, s).(status := status)))
  {
    hide Meets;
    MeetsStill(p, Ret, s.(status := status));
  }

  lemma {:induction false} ResultMeets<S(!new), O(!new)>(p: Pair<S, O>, f: nat, g: nat, n: Node, t: bool, s: State<S, O>)
    requires Paired(p, f, g, s) && s.depth >= 0 && IsBuiltin(n)
    ensures var r := BuiltinResult(p.h, f, n, t, s);
      Meets(p, |s.trace|, r, BuiltinResult(p.k, g, n, t, Other(p, s))) && s.trace <= TraceOf(r)
    decreases f, 5
  {
    hide Meets, Runs, SemList, SemBreak, Catch, AfterDot, Paired;
    match n {
      case BreakCmd(isCont, c) => BreakMeets(p, f, g, isCont, c, s);
      case ReturnCmd(arg) => ReturnedMeets(p, f, g, if arg.Some? then arg.value else s.status, s);
      case EvalCmd(trees, via) => CaughtMeets(p, f, g, trees, via, t, s, s.(status := 0));
      case DotCmd(trees, via) => CaughtMeets(p, f, g, trees, via, false, s, s);
    }
  }

  lemma CheckedMeets<S, O>(p: Pair<S, O>, f: nat, g: nat, t: bool, s: State<S, O>, r: Res<S, O>, q: Res<S, O>)
    requires Paired(p, f, g, s) && Meets(p, |s.trace|, r, q) && s.trace <= TraceOf(r)
    ensures Meets(p, |s.trace|, Etest(p.h, t, r), Etest(p.k, t, q))
  {
    hide Meets, Etest;
    MeetsEtest(p, |s.trace|, t, r, q);
  }

  lemma RunCommandMeets<S, O>(p: Pair<S, O>, f: nat, g: nat, cmd: int, s: State<S, O>)
    requires Paired(p, f, g, s)
    ensures Meets(p, |s.trace|, RunCommand(p.h, cmd, s), RunCommand(p.k, cmd, Other(p, s))) && s.trace <= TraceOf(RunCommand(p.h, cmd, s))
  {
    hide Meets;
    var e := p.h.run(cmd, s.status, s.w);
    var s1 := s.(w := e.w, status := e.status, funcs := s.funcs - p.h.unsetfuncs(cmd, s.status, s.w));
    MeetsStill(p, Normal, s1);
    MeetsStill(p, Err, s1);
    MeetsStill(p, Brk(s.depth), s1);
    LeftMeets(p, s1);
  }

  lemma LeftMeets<S, O>(p: Pair<S, O>, s: State<S, O>)
    requires !p.mode.Fuel? ==> s.heeds
    ensures Meets(p, |s.trace|, Fin(Exit, Log(s, Left)), Fin(Exit, Log(Other(p, s), Left)))
  {
    NoPartingLog(p, s.trace, Left, |s.trace|);
    assert Alike(p, |s.trace|, Fin(Exit, Log(s, Left)), Fin(Exit, Log(Other(p, s), Left)));
  }

  lemma BreakMeets<S, O>(p: Pair<S, O>, f: nat, g: nat, isCont: bool, c: int, s: State<S, O>)
    requires Paired(p, f, g, s)
    ensures var r: Res<S, O> := SemBreak(isCont, c, s); Meets(p, |s.trace|, r, SemBreak(isCont, c, Other(p, s))) && s.trace <= TraceOf(r)
  {
    hide Meets;
    var r: Res<S, O> := SemBreak(isCont, c, s);
    MeetsStill(p, r.out, r.s);
  }

  lemma {:induction false} RedirMeets<S(!new), O(!new)>(p: Pair<S, O>, f: nat, g: nat, redir: int, body: Node, t: bool, s: State<S, O>)
    requires Paired(p, f, g, s) && s.depth >= 0
    ensures Meets(p, |s.trace|, SemRedir(p.h, f, redir, body, t, s), SemRedir(p.k, g, redir, body, t, Other(p, s)))
    decreases f, 3
  {
    hide Sem, SemRedir, MapShell, Meets, Follows, Runs;
    RedirUnfold(p.h, f, redir, body, t, s);
    RedirUnfold(p.k, g, redir, body, t, Other(p, s));
    var x := p.h.expredir(redir, s.status, s.w);
    var e := p.h.redirect(redir, x.w);
    if !x.kind.Returns? {
      MeetsStill(p, Err, s.(w := x.w, status := x.status));
    } else if !e.kind.Returns? {
      MeetsStill(p, Normal, s.(w := e.w.(sh := p.h.unredirect(x.w.sh, e.w.sh)), status := e.status));
    } else {
      var s1 := s.(w := e.w, status := x.status);
      FirstMeets(p, f, g, body, t, s1);
      ShellMeets(p, |s.trace|, Sem(p.h, f, body, t, s1), Sem(p.k, g, body, t, Other(p, s1)), sh => p.h.unredirect(x.w.sh, sh));
    }
  }

  lemma ShellMeets<S, O>(p: Pair<S, O>, from: nat, r: Res<S, O>, q: Res<S, O>, m: S -> S)
    requires from <= |TraceOf(r)| && Meets(p, from, r, q)
    ensures Meets(p, from, MapShell(r, m), MapShell(q, m))
  {
    hide Meets;
    MeetsThen(p, from, r, q, MapShell(r, m), MapShell(q, m));
  }

  lemma ReturnMeets<S, O>(p: Pair<S, O>, from: nat, r: Res<S, O>, q: Res<S, O>, before: S)
    requires p.k.leave == p.h.leave
    requires from <= |TraceOf(r)| && Meets(p, from, r, q)
    ensures Meets(p, from, CallResult(p.h, r, before), CallResult(p.k, q, before)) && TraceOf(CallResult(p.h, r, before)) == TraceOf(r)
  {
    hide Meets;
    MeetsThen(p, from, r, q, CallResult(p.h, r, before), CallResult(p.k, q, before));
  }

  lemma {:induction false} CallMeets<S(!new), O(!new)>(p: Pair<S, O>, f: nat, g: nat, body: Node, cmd: int, t: bool, s: State<S, O>)
    requires Paired(p, f, g, s) && s.depth >= 0
    ensures Meets(p, |s.trace|, SemCall(p.h, f, body, cmd, t, s), SemCall(p.k, g, body, cmd, t, Other(p, s)))
    ensures s.trace <= TraceOf(SemCall(p.h, f, body, cmd, t, s))
    decreases f, 3
  {
    hide Sem, SemCall, CallResult, MapShell, Meets, Follows, Runs;
    CallUnfold(p.h, f, body, cmd, t, s);
    CallUnfold(p.k, g, body, cmd, t, Other(p, s));
    var e := p.h.enter(cmd, s.w);
    var b := p.h.bind(cmd, s.status, e.w);
    if !e.kind.Returns? {
      MeetsStill(p, Normal, s.(w := e.w.(sh := p.h.leave(s.w.sh, e.w.sh)), status := e.status));
    } else if !b.kind.Returns? {
      MeetsStill(p, Err, s.(w := b.w.(sh := p.h.leave(s.w.sh, b.w.sh)), status := b.status));
    } else {
      var s1 := s.(w := b.w);
      FirstMeets(p, f, g, body, t, s1);
      FirstGrows(p.h, f, body, t, s1);
      ReturnMeets(p, |s.trace|, Sem(p.h, f, body, t, s1), Sem(p.k, g, body, t, Other(p, s1)), s.w.sh);
    }
  }

  lemma FirstGrows<S(!new), O(!new)>(h: Host<S, O>, f: nat, n: Node, t: bool, s: State<S, O>)
    requires s.depth >= 0
    ensures s.trace <= TraceOf(Sem(h, f, n, t, s))
  {
    hide Sem, TidyFuncs, DotFreeFuncs, CanExit, Leaks, AllTested;
    SemRuns(h, ANY, f, n, t, s);
  }

  lemma {:induction false} ListMeets<S(!new), O(!new)>(p: Pair<S, O>, f: nat, g: nat, trees: NodeList, t: bool, any: bool, s: State<S, O>)
    requires Paired(p, f, g, s) && s.depth >= 0
    ensures Meets(p, |s.trace|, SemList(p.h, f, trees, t, any, s), SemList(p.k, g, trees, t, any, Other(p, s)))
    decreases f, 3, trees
  {
    hide Sem, Meets, Follows, Runs, Alike;
    if trees.Nil? {
      MeetsStill(p, Normal, if any then s else s.(status := 0));
    } else if trees.hd.Null? {
      ListMeets(p, f, g, trees.tl, t, any, s);
    } else {
      FirstMeets(p, f, g, trees.hd, t, s);
      var r1, q1 := Sem(p.h, f, trees.hd, t, s), Sem(p.k, g, trees.hd, t, Other(p, s));
      if r1.Fin? && r1.out == Normal {
        ListFollows(p.h, f, trees.tl, t, r1);
        if Alike(p, |s.trace|, r1, q1) {
          ListMeets(p, f, g, trees.tl, t, true, r1.s);
        }
      }
      if q1.Fin? && q1.out == Normal {
        ListFollows(p.k, g, trees.tl, t, q1);
      }
      MeetsGoOn(p, |s.trace|, r1, q1, SemList(p.h, f, trees, t, any, s), SemList(p.k, g, trees, t, any, Other(p, s)));
    }
  }

  lemma ListFollows<S(!new), O(!new)>(h: Host<S, O>, f: nat, trees: NodeList, t: bool, r: Res<S, O>)
    requires r.Fin? && r.out != Exit && r.s.depth >= 0
    ensures Follows(r, SemList(h, f, trees, t, true, r.s))
  {
    hide SemList, Runs;
    ListRuns(h, ANY, f, trees, t, true, r.s);
    FollowsRuns(h, r, 0, SemList(h, f, trees, t, true, r.s));
  }

  /** eval and dot, through `command` or not. */
  lemma {:induction false} CaughtMeets<S(!new), O(!new)>(p: Pair<S, O>, f: nat, g: nat, trees: NodeList, via: bool, t: bool,
                                                        s: State<S, O>, s1: State<S, O>)
    requires Paired(p, f, g, s) && s.depth >= 0 && s1 == s.(status := s1.status)
    ensures var r, q := SemList(p.h, f, trees, t, false, s1), SemList(p.k, g, trees, t, false, Other(p, s1));
      && Meets(p, |s.trace|, Catch(via, s.depth, r), Catch(via, s.depth, q))
      && Meets(p, |s.trace|, Catch(via, s.depth, AfterDot(r)), Catch(via, s.depth, AfterDot(q)))
      && s.trace <= TraceOf(Catch(via, s.depth, r)) && s.trace <= TraceOf(Catch(via, s.depth, AfterDot(r)))
    decreases f, 4
  {
    hide SemList, Meets, Runs;
    var r, q := SemList(p.h, f, trees, t, false, s1), SemList(p.k, g, trees, t, false, Other(p, s1));
    ListMeets(p, f, g, trees, t, false, s1);
    ListGrows(p.h, f, trees, t, s1);
    MeetsThen(p, |s.trace|, r, q, AfterDot(r), AfterDot(q));
    MeetsCatch(p, |s.trace|, via, s.depth, r, q);
    MeetsCatch(p, |s.trace|, via, s.depth, AfterDot(r), AfterDot(q));
  }

  lemma ListGrows<S(!new), O(!new)>(h: Host<S, O>, f: nat, trees: NodeList, t: bool, s: State<S, O>)
    requires s.depth >= 0
    ensures s.trace <= TraceOf(SemList(h, f, trees, t, false, s))
  {
    hide SemList, TidyFuncs, DotFreeFuncs, CanExit, Leaks, AllTested;
    ListRuns(h, ANY, f, trees, t, false, s);
  }

  /** The two processes of a subshell or of a command in a pipeline. */
  ghost predicate ProcessesMeet<S, O>(p: Pair<S, O>, r: Res<S, O>, q: Res<S, O>) {
    || (q == r && (p.mode.Off? ==> !DeepFatal(p.h, EventOf(r))))
    || (p.mode.Off? && EventOf(q) != EventOf(r) && DeepFatal(p.h, EventOf(r)))
    || (p.mode.Fuel? && r.NoFuel?)
  }

  lemma {:induction false} ProcessMeets<S(!new), O(!new)>(p: Pair<S, O>, f: nat, g: nat, n: Node, t: bool, s: State<S, O>, c: State<S, O>)
    requires Paired(p, f, g, s) && c.depth >= 0 && c.heeds && c.trace == []
    ensures ProcessesMeet(p, Sem(p.h, f, n, t, c), Sem(p.k, g, n, t, c))
    decreases f, 2
  {
    hide Sem, Meets, Follows, AnyFatal;
    var r, q := Sem(p.h, f, n, t, c), Sem(p.k, g, n, t, c);
    if !p.mode.Deaf? {
      SemMeets(p, f, g, n, t, c);
      if p.mode.Off? {
        ProcessEvents(p, r, q);
      } else {
        FuelMeets(p, r, q);
      }
    }
  }

  lemma FuelMeets<S, O>(p: Pair<S, O>, r: Res<S, O>, q: Res<S, O>)
    requires p.mode.Fuel? && Meets(p, 0, r, q)
    ensures r.Fin? ==> q == r
  {
  }

  lemma QuietProcess<S, O>(p: Pair<S, O>, r: Res<S, O>)
    requires TraceOf(r) == []
    ensures ProcessesMeet(p, r, r)
  {
  }

  lemma {:induction false} SubshellMeets<S(!new), O(!new)>(p: Pair<S, O>, f: nat, g: nat, redir: int, body: Node, t: bool, s: State<S, O>)
    requires Paired(p, f, g, s) && s.depth >= 0
    ensures Meets(p, |s.trace|, SemSubshell(p.h, f, redir, body, t, s), SemSubshell(p.k, g, redir, body, t, Other(p, s)))
    ensures s.trace <= TraceOf(SemSubshell(p.h, f, redir, body, t, s))
    decreases f, 3
  {
    hide Sem, SemSubshell, Meets, AnyFatal, ProcessesMeet;
    SubshellUnfold(p.h, f, redir, body, t, s);
    SubshellUnfold(p.k, g, redir, body, t, Other(p, s));
    var x := p.h.expredir(redir, s.status, s.w);
    if !x.kind.Returns? {
      MeetsStill(p, Err, s.(w := x.w, status := x.status));
    } else {
      var c := Child(s, x.w, x.status, s.depth);
      var e := p.h.redirect(redir, c.w);
      ProcessMeets(p, f, g, body, t, s, c.(w := e.w, depth := 0));
      QuietProcess(p, Fin(Err, c.(w := e.w, status := e.status)));
      var r, q := SubshellProcess(p.h, f, redir, body, t, c), SubshellProcess(p.k, g, redir, body, t, c);
      ParentsMeet(p, f, g, s, r, q, SemSubshell(p.h, f, redir, body, t, s), SemSubshell(p.k, g, redir, body, t, Other(p, s)));
    }
  }

  /** A parent that waits for the process, and goes on only if the two processes did not do the same. */
  lemma ParentsMeet<S, O>(p: Pair<S, O>, f: nat, g: nat, s: State<S, O>, r: Res<S, O>, q: Res<S, O>, r': Res<S, O>, q': Res<S, O>)
    requires Paired(p, f, g, s) && ProcessesMeet(p, r, q)
    requires After(s, r).trace <= TraceOf(r') && After(s, q).trace <= TraceOf(q')
    requires r.NoFuel? ==> r' == NoFuel(After(s, r).trace)
    requires q == r && r.Fin? ==> r'.Fin? && r' == Fin(Normal, After(s, r).(w := r'.s.w, status := r'.s.status))
    requires q == r ==> q' == OtherRes(p, r')
    ensures Meets(p, |s.trace|, r', q')
  {
    hide AnyFatal;
    if q == r && (p.mode.Off? ==> !DeepFatal(p.h, EventOf(r))) {
      if r.Fin? {
        ParentsAlike(p, s, r, r'.s, Normal);
      } else {
        ParentsAlike(p, s, r, After(s, r), Normal);
      }
    } else if p.mode.Off? {
      ParentsPart(p, s, EventOf(r), EventOf(q), r', q');
    }
  }

  lemma {:induction false} PipeMeets<S(!new), O(!new)>(p: Pair<S, O>, f: nat, g: nat, cmds: NodeList, i: nat, done: seq<O>, last: int,
                                                      s: State<S, O>)
    requires Paired(p, f, g, s) && s.depth >= 0
    ensures Meets(p, |s.trace|, SemPipe(p.h, f, cmds, i, done, last, s), SemPipe(p.k, g, cmds, i, done, last, Other(p, s)))
    ensures s.trace <= TraceOf(SemPipe(p.h, f, cmds, i, done, last, s))
    decreases f, 3, cmds
  {
    hide Sem, Meets, AnyFatal;
    if cmds.Nil? {
      MeetsStill(p, Normal, s.(w := s.w.(os := p.h.pipeJoin(s.w, done)), status := WaitStatus(last)));
    } else {
      var c := Child(s, p.h.pipeView(i, s.w), s.status, s.depth);
      var r, q := Sem(p.h, f, cmds.hd, false, c), Sem(p.k, g, cmds.hd, false, c);
      ProcessMeets(p, f, g, cmds.hd, false, s, c);
      PipeGoesOn(p.h, f, cmds, i, done, last, s, r);
      PipeGoesOn(p.k, g, cmds, i, done, last, Other(p, s), q);
      var r', q' := SemPipe(p.h, f, cmds, i, done, last, s), SemPipe(p.k, g, cmds, i, done, last, Other(p, s));
      if p.mode.Off? && EventOf(q) != EventOf(r) {
        ParentsPart(p, s, EventOf(r), EventOf(q), r', q');
      } else if q == r && r.Fin? {
        var s1 := After(s, r);
        PipeMeets(p, f, g, cmds.tl, i + 1, done + [r.s.w.os], r.s.status, s1);
        ParentsAlike(p, s, r, s1, Normal);
        AlikeGoOn(p, |s.trace|, s1.trace, r', q');
      } else {
        ParentsMeet(p, f, g, s, r, q, r', q');
      }
    }
  }

  lemma PipeGoesOn<S(!new), O(!new)>(h: Host<S, O>, f: nat, cmds: NodeList, i: nat, done: seq<O>, last: int, s: State<S, O>, r: Res<S, O>)
    requires cmds.Cons? && s.depth >= 0
    requires r == Sem(h, f, cmds.hd, false, Child(s, h.pipeView(i, s.w), s.status, s.depth))
    ensures After(s, r).trace <= TraceOf(SemPipe(h, f, cmds, i, done, last, s))
  {
    hide Sem, TidyFuncs, DotFreeFuncs, CanExit, Leaks, AllTested;
    if r.Fin? {
      PipeRuns(h, ANY, f, cmds.tl, i + 1, done + [r.s.w.os], r.s.status, After(s, r));
    }
  }

  // ----- fuel and set -e -----

  /** The fuel only bounds the run: a result, once there, does not change with more of it. */
  lemma FuelMonotone<S(!new), O(!new)>(h: Host<S, O>, f: nat, g: nat, n: Node, tested: bool, s: State<S, O>)
    requires f <= g && s.depth >= 0 && Sem(h, f, n, tested, s).Fin?
    ensures Sem(h, g, n, tested, s) == Sem(h, f, n, tested, s)
  {
    hide Sem, NoParting;
    SemMeets(Pair(h, h, Fuel), f, g, n, tested, s);
  }

  /** The same process, if it did not heed set -e. */
  function Deafened<S, O>(s: State<S, O>): State<S, O> {
    s.(heeds := false)
  }

  /** The first check of this process that set -e acts on. */
  predicate FirstFatal<S, O>(h: Host<S, O>, trace: seq<Event<S, O>>, from: nat, i: nat) {
    from <= i < |trace| && Fatal(h, trace[i]) && NoFatal(h, trace[..i], from)
  }

  predicate NoFatal<S, O>(h: Host<S, O>, trace: seq<Event<S, O>>, from: nat) {
    forall i :: 0 <= i < |trace| && from <= i ==> !Fatal(h, trace[i])
  }

  /**
   * set -e, process by process: what a process does is what it would do without heeding set -e, cut
   * right after the first checked command that fails in an untested position while the option is on.
   * If there is none, the two runs are the same, and otherwise they are not.
   */
  lemma ErrexitCuts<S(!new), O(!new)>(h: Host<S, O>, fuel: nat, n: Node, tested: bool, s: State<S, O>)
    requires s.depth >= 0 && s.heeds
    ensures var r, q := Sem(h, fuel, n, tested, s), Sem(h, fuel, n, tested, Deafened(s));
      && (forall i: nat :: FirstFatal(h, TraceOf(q), |s.trace|, i) ==>
            && r.Fin? && r.out == Exit && r.s.trace == TraceOf(q)[..i + 1]
            && r.s.status == TraceOf(q)[i].status && r.s.w.os == TraceOf(q)[i].w.os)
      && (NoFatal(h, TraceOf(q), |s.trace|) <==> q == if r.NoFuel? then r else Fin(r.out, Deafened(r.s)))
  {
    hide Sem;
    var p := Pair(h, h, Deaf);
    var r, q := Sem(h, fuel, n, tested, s), Sem(h, fuel, n, tested, Deafened(s));
    SemMeets(p, fuel, fuel, n, tested, s);
    var tr, tq, from := TraceOf(r), TraceOf(q), |s.trace|;
    if Alike(p, from, r, q) {
      assert forall i :: 0 <= i < |tr| && from <= i ==> !Parts(p, tr[i]);
    } else {
      assert CutShort(p, from, r, q);
      var at := |tr| - 1;
      assert tq[at] == tr[at] && tq[..at] == tr[..at];
      assert forall i :: 0 <= i < at && from <= i ==> !Parts(p, tr[i]);
      assert FirstFatal(h, tq, from, at);
      forall i: nat | FirstFatal(h, tq, from, i)
        ensures i == at
      {
        OneFirstFatal(h, tq, from, i, at);
      }
      assert tr == tq[..at + 1];
    }
  }

  lemma OneFirstFatal<S, O>(h: Host<S, O>, trace: seq<Event<S, O>>, from: nat, i: nat, j: nat)
    requires FirstFatal(h, trace, from, i) && FirstFatal(h, trace, from, j)
    ensures i == j
  {
    hide Fatal;
    assert forall k :: 0 <= k < i ==> trace[..i][k] == trace[k];
    assert forall k :: 0 <= k < j ==> trace[..j][k] == trace[k];
  }

  predicate NoFatalAnywhere<S, O>(h: Host<S, O>, trace: seq<Event<S, O>>, from: nat) {
    forall i :: 0 <= i < |trace| && from <= i ==> !DeepFatal(h, trace[i])
  }

  /** set -e changes nothing, in this process or in one it starts, exactly if no process comes to a fatal check. */
  lemma ErrexitChangesNothing<S(!new), O(!new)>(h: Host<S, O>, fuel: nat, n: Node, tested: bool, s: State<S, O>)
    requires s.depth >= 0 && s.heeds
    ensures var r := Sem(h, fuel, n, tested, s);
      r == Sem(WithoutErrexit(h), fuel, n, tested, s) <==> NoFatalAnywhere(h, TraceOf(r), |s.trace|)
  {
    hide Sem, AnyFatal;
    var p := Pair(h, WithoutErrexit(h), Off);
    var r, q := Sem(h, fuel, n, tested, s), Sem(WithoutErrexit(h), fuel, n, tested, s);
    SemMeets(p, fuel, fuel, n, tested, s);
    if Alike(p, |s.trace|, r, q) {
      assert forall i :: 0 <= i < |TraceOf(r)| && |s.trace| <= i ==> !Parts(p, TraceOf(r)[i]);
    } else if CutShort(p, |s.trace|, r, q) {
      assert DeepFatal(h, r.s.trace[|r.s.trace| - 1]);
    } else {
      var i :| DiffersAt(p, |s.trace|, i, TraceOf(r), TraceOf(q));
      assert DeepFatal(h, TraceOf(r)[i]);
    }
  }

  /**
   * In a tested position set -e never acts on this process, whatever pipelines and subshells it runs;
   * so it reaches exitshell only through a command that exits.
   */
  lemma TestedNeverExits<S(!new), O(!new)>(h: Host<S, O>, fuel: nat, n: Node, s: State<S, O>)
    requires s.depth >= 0 && s.heeds && DotFree(n) && DotFreeFuncs(s.funcs)
    ensures var r := Sem(h, fuel, n, true, s);
      && Sem(h, fuel, n, true, Deafened(s)) == (if r.NoFuel? then r else Fin(r.out, Deafened(r.s)))
      && (r.Fin? && r.out == Exit ==> CanExit(h))
  {
    hide Sem, DotFree, DotFreeFuncs, TidyFuncs, CanExit, Leaks;
    var k := Key({}, false, false, true);
    SemRuns(h, k, fuel, n, true, s);
    SemRuns(h, k, fuel, n, true, Deafened(s));
    ErrexitCuts(h, fuel, n, true, s);
    var q := Sem(h, fuel, n, true, Deafened(s));
    assert AllTested(TraceOf(q), |s.trace|);
    assert NoFatal(h, TraceOf(q), |s.trace|);
  }

  /** What the parent of a process sees of it. */
  ghost predicate SeenAlike<S, O>(os: O, status: int, t: State<S, O>) {
    os == t.w.os && WaitStatus(status) == WaitStatus(t.status)
  }

  /**
   * A parent sees a difference exactly if the process had something left to do that shows: at its
   * first fatal check, the system or the exit status was not yet that of its end.
   */
  lemma CutIsUnseen<S(!new), O(!new)>(h: Host<S, O>, fuel: nat, n: Node, tested: bool, s: State<S, O>)
    requires s.depth >= 0 && s.heeds && Sem(h, fuel, n, tested, Deafened(s)).Fin?
    ensures var r, q := Sem(h, fuel, n, tested, s), Sem(h, fuel, n, tested, Deafened(s));
      r.Fin? &&
      (SeenAlike(r.s.w.os, r.s.status, q.s) <==>
        NoFatal(h, q.s.trace, |s.trace|)
        || exists i: nat :: FirstFatal(h, q.s.trace, |s.trace|, i) && SeenAlike(q.s.trace[i].w.os, q.s.trace[i].status, q.s))
  {
    hide Sem, Fatal;
    ErrexitCuts(h, fuel, n, tested, s);
    var q := Sem(h, fuel, n, tested, Deafened(s));
    if !NoFatal(h, q.s.trace, |s.trace|) {
      var at :| 0 <= at < |q.s.trace| && |s.trace| <= at && Fatal(h, q.s.trace[at]);
      var i := FindFirst(h, q.s.trace, |s.trace|, at);
      assert FirstFatal(h, q.s.trace, |s.trace|, i);
      forall j: nat | FirstFatal(h, q.s.trace, |s.trace|, j)
        ensures j == i
      {
        OneFirstFatal(h, q.s.trace, |s.trace|, i, j);
      }
    }
  }

  lemma {:induction false} FindFirst<S, O>(h: Host<S, O>, trace: seq<Event<S, O>>, from: nat, at: nat) returns (i: nat)
    requires from <= at < |trace| && Fatal(h, trace[at])
    ensures FirstFatal(h, trace, from, i)
    decreases at
  {
    hide Fatal;
    if NoFatal(h, trace[..at], from) {
      i := at;
    } else {
      var j :| 0 <= j < at && from <= j && Fatal(h, trace[..at][j]);
      i := FindFirst(h, trace, from, j);
    }
  }

  /** Every command is a simple one that is no function. */
  predicate Simples(cmds: NodeList, funcs: map<string, Node>) {
    cmds.Cons? ==> cmds.hd.Simple? && cmds.hd.name !in funcs && Simples(cmds.tl, funcs)
  }

  function Forget<S, O>(r: Res<S, O>): Res<S, O> {
    if r.NoFuel? then NoFuel([]) else Fin(r.out, r.s.(trace := []))
  }

  /** In a pipeline of simple commands set -e has nothing to cut: a tested one gives the same without it. */
  lemma SimplePipelineIgnoresErrexit<S, O>(h: Host<S, O>, fuel: nat, cmds: NodeList, s: State<S, O>)
    requires Simples(cmds, s.funcs)
    ensures Forget(Sem(h, fuel, Pipe(false, cmds), true, s)) == Forget(Sem(WithoutErrexit(h), fuel, Pipe(false, cmds), true, s))
  {
    hide Sem, SemPipe;
    if fuel > 0 {
      SimplesIgnoreErrexit(h, fuel - 1, cmds, 0, [], 0, s, s);
      PipeOf(h, fuel - 1, cmds, s);
      PipeOf(WithoutErrexit(h), fuel - 1, cmds, s);
    } else {
      NoFuelForPipe(h, cmds, s);
      NoFuelForPipe(WithoutErrexit(h), cmds, s);
    }
  }

  lemma NoFuelForPipe<S, O>(h: Host<S, O>, cmds: NodeList, s: State<S, O>)
    ensures Sem(h, 0, Pipe(false, cmds), true, s) == NoFuel(s.trace)
  {
  }

  lemma PipeOf<S, O>(h: Host<S, O>, f: nat, cmds: NodeList, s: State<S, O>)
    ensures Forget(Sem(h, f + 1, Pipe(false, cmds), true, s)) == Forget(SemPipe(h, f, cmds, 0, [], 0, s))
  {
    hide SemPipe;
  }

  lemma {:induction false} SimplesIgnoreErrexit<S, O>(h: Host<S, O>, f: nat, cmds: NodeList, i: nat, done: seq<O>, last: int,
                                                     s: State<S, O>, t: State<S, O>)
    requires Simples(cmds, s.funcs) && t == s.(trace := t.trace)
    ensures Forget(SemPipe(h, f, cmds, i, done, last, s)) == Forget(SemPipe(WithoutErrexit(h), f, cmds, i, done, last, t))
    decreases cmds
  {
    hide Sem, SemPipe, Simples, Forget;
    var k := WithoutErrexit(h);
    PipeUnfold(h, f, cmds, i, done, last, s);
    PipeUnfold(k, f, cmds, i, done, last, t);
    if cmds.Nil? {
      ForgetFin(Normal, s.(w := s.w.(os := h.pipeJoin(s.w, done)), status := WaitStatus(last)), t.trace);
    } else {
      SimplesUnfold(cmds, s.funcs);
      var c := Child(s, h.pipeView(i, s.w), s.status, s.depth);
      var r, q := Sem(h, f, cmds.hd, false, c), Sem(k, f, cmds.hd, false, c);
      SimpleSeenAlike(h, f, cmds.hd, c);
      if r.Fin? {
        SimplesIgnoreErrexit(h, f, cmds.tl, i + 1, done + [r.s.w.os], r.s.status, After(s, r), After(t, q));
      } else {
        ForgetNoFuel(After(s, r).trace, After(t, q).trace);
      }
    }
  }

  lemma SimplesUnfold(cmds: NodeList, funcs: map<string, Node>)
    requires Simples(cmds, funcs) && cmds.Cons?
    ensures cmds.hd.Simple? && cmds.hd.name !in funcs && Simples(cmds.tl, funcs)
  {
  }

  lemma ForgetFin<S, O>(out: Outcome, s: State<S, O>, trace: seq<Event<S, O>>)
    ensures Forget(Fin(out, s)) == Forget(Fin(out, s.(trace := trace)))
  {
  }

  lemma ForgetNoFuel<S, O>(a: seq<Event<S, O>>, b: seq<Event<S, O>>)
    ensures Forget<S, O>(NoFuel(a)) == Forget<S, O>(NoFuel(b))
  {
  }

  lemma SimpleSeenAlike<S, O>(h: Host<S, O>, f: nat, n: Node, c: State<S, O>)
    requires n.Simple? && n.name !in c.funcs
    ensures var r, q := Sem(h, f, n, false, c), Sem(WithoutErrexit(h), f, n, false, c);
      if r.NoFuel? then q == r else q.Fin? && q.s == r.s
  {
  }

  // ----- where the simple claims fail -----

  /** `command eval` catches an error raised inside a loop, and the loop stays counted: a
      break that stands in no loop at all is then taken for one that does. */
  lemma CaughtErrorLeavesLoopCounted<S, O>(h: Host<S, O>, x: string, words: int, cmd: int, name: string, s: State<S, O>)
    requires s.depth == 0 && name !in s.funcs
    requires var e := h.expand(words, 0, s.w);
      && e.ok && |e.words| > 0
      && (var v := h.setvar(x, e.words[0], e.w); v.kind.Returns? && h.run(cmd, e.status, v.w).kind.Fails?)
    ensures var body := For(x, words, Simple(name, cmd));
      var n := Semi(EvalCmd(Cons(body, Nil), true), BreakCmd(false, 1));
      var r := Sem(h, 5, n, true, s);
      r.Fin? && r.out == Brk(1) && r.s.depth == 1 && CatchesFromLoop(h, 5, n, true, s)
  {
    var e := h.expand(words, 0, s.w);
    var v := h.setvar(x, e.words[0], e.w);
    var body := For(x, words, Simple(name, cmd));
    var s0 := s.(status := 0);
    var s1 := s0.(w := e.w, status := e.status, depth := 1);
    var r := FailingBody(h, x, e.words, cmd, name, s1);
    assert Sem(h, 3, body, true, s0) == r;
    assert SemList(h, 3, Cons(body, Nil), true, false, s0) == r;
    hide SemFor, SemList;
    var s2 := Log(r.s, Event.Caught(0, 1));
    var s3 := Log(s2, Checked(true, s2.status, s2.w));
    assert Sem(h, 4, EvalCmd(Cons(body, Nil), true), true, s) == Fin(Normal, s3);
    BreakAfter(h, s3);
    assert Sem(h, 5, Semi(EvalCmd(Cons(body, Nil), true), BreakCmd(false, 1)), true, s) == Tail(h, 4, BreakCmd(false, 1), true, s3);
    var t := s3.trace + [Checked(true, 0, s3.w)];
    assert TraceOf(Sem(h, 5, Semi(EvalCmd(Cons(body, Nil), true), BreakCmd(false, 1)), true, s)) == t;
    assert t[|s.trace|] == Event.Caught(0, 1) && LeaksAt(t[|s.trace|]);
  }

  /** A loop whose first command raises an error. */
  lemma FailingBody<S, O>(h: Host<S, O>, x: string, words: seq<string>, cmd: int, name: string, s: State<S, O>) returns (r: Res<S, O>)
    requires name !in s.funcs && words != []
    requires var v := h.setvar(x, words[0], s.w); v.kind.Returns? && h.run(cmd, s.status, v.w).kind.Fails?
    ensures r == SemFor(h, 2, x, words, Simple(name, cmd), true, 0, s)
    ensures r.Fin? && r.out == Err && r.s.depth == s.depth && r.s.trace == s.trace
  {
    hide SemLoop, SemList, SemCall, SemPipe, SemSubshell, SemRedir;
    var v := h.setvar(x, words[0], s.w);
    r := Sem(h, 1, Simple(name, cmd), true, s.(w := v.w));
  }

  lemma BreakAfter<S, O>(h: Host<S, O>, s: State<S, O>)
    requires s.depth == 1
    ensures var t := s.(status := 0);
      Tail(h, 4, BreakCmd(false, 1), true, s) == Fin(Brk(1), Log(t, Checked(true, 0, t.w)))
  {
  }

  function FailingPipeline(a: int, b: int, c: int): Node {
    Pipe(false, Cons(Semi(Simple("a", a), Simple("b", b)), Cons(Simple("c", c), Nil)))
  }

  /**
   * `{ a; b; } | c` in a tested position: where a fails, set -e does end the first process before b.
   * What b does, as far as it shows at the end of the pipeline, is then missing.
   */
  lemma PipelineForgetsTested<S, O>(h: Host<S, O>, a: int, b: int, c: int, s: State<S, O>)
    requires "a" !in s.funcs && "b" !in s.funcs && "c" !in s.funcs
    requires var e := h.run(a, s.status, h.pipeView(0, s.w));
      var e2, l := h.run(b, e.status, e.w), h.run(c, s.status, h.pipeView(1, s.w));
      && e.kind.Returns? && e.status != 0 && h.eflag(e.w.sh)
      && h.pipeJoin(s.w, [e.w.os, l.w.os]) != h.pipeJoin(s.w, [e2.w.os, l.w.os])
    ensures var n, e := FailingPipeline(a, b, c), h.run(a, s.status, h.pipeView(0, s.w));
      var e2, l := h.run(b, e.status, e.w), h.run(c, s.status, h.pipeView(1, s.w));
      var r, q := Sem(h, 4, n, true, s), Sem(WithoutErrexit(h), 4, n, true, s);
      && r.Fin? && r.out == Normal && r.s.w.os == h.pipeJoin(s.w, [e.w.os, l.w.os])
      && q.Fin? && q.out == Normal && q.s.w.os == h.pipeJoin(s.w, [e2.w.os, l.w.os])
      && Forget(r) != Forget(q)
  {
    hide Sem;
    PipelineRun(h, a, b, c, s);
    PipelineRun(WithoutErrexit(h), a, b, c, s);
  }

  /** That pipeline, with and without set -e. */
  lemma PipelineRun<S, O>(h: Host<S, O>, a: int, b: int, c: int, s: State<S, O>)
    requires "a" !in s.funcs && "b" !in s.funcs && "c" !in s.funcs
    requires var e := h.run(a, s.status, h.pipeView(0, s.w)); e.kind.Returns? && e.status != 0
    ensures var e, l := h.run(a, s.status, h.pipeView(0, s.w)), h.run(c, s.status, h.pipeView(1, s.w));
      var first := if h.eflag(e.w.sh) then e else h.run(b, e.status, e.w);
      Forget(Sem(h, 4, FailingPipeline(a, b, c), true, s)) ==
        Forget(Fin(Normal, s.(w := s.w.(os := h.pipeJoin(s.w, [first.w.os, l.w.os])), status := WaitStatus(l.status))))
  {
    hide Sem, SemPipe;
    var both, third := Semi(Simple("a", a), Simple("b", b)), Simple("c", c);
    var r := TwoCommands(h, a, b, Child(s, h.pipeView(0, s.w), s.status, s.depth));
    var s1 := After(s, r);
    var q := OneCommand(h, c, Child(s1, h.pipeView(1, s1.w), s1.status, s1.depth));
    PipeOf(h, 3, Cons(both, Cons(third, Nil)), s);
    PipeUnfold(h, 3, Cons(both, Cons(third, Nil)), 0, [], 0, s);
    PipeUnfold(h, 3, Cons(third, Nil), 1, [] + [r.s.w.os], r.s.status, s1);
    PipeUnfold(h, 3, Nil, 2, [] + [r.s.w.os] + [q.s.w.os], q.s.status, After(s1, q));
    assert [] + [r.s.w.os] + [q.s.w.os] == [r.s.w.os, q.s.w.os];
  }

  /** Its second process. */
  lemma OneCommand<S, O>(h: Host<S, O>, cmd: int, c: State<S, O>) returns (r: Res<S, O>)
    requires "c" !in c.funcs
    ensures r == Sem(h, 3, Simple("c", cmd), false, c) && r.Fin?
    ensures var l := h.run(cmd, c.status, c.w); r.s.w.os == l.w.os && r.s.status == l.status
  {
    r := Sem(h, 3, Simple("c", cmd), false, c);
  }

  /** Its first process. */
  lemma TwoCommands<S, O>(h: Host<S, O>, a: int, b: int, c: State<S, O>) returns (r: Res<S, O>)
    requires "a" !in c.funcs && "b" !in c.funcs && c.heeds
    requires var e := h.run(a, c.status, c.w); e.kind.Returns? && e.status != 0
    ensures r == Sem(h, 3, Semi(Simple("a", a), Simple("b", b)), false, c) && r.Fin?
    ensures var e := h.run(a, c.status, c.w);
      var last := if h.eflag(e.w.sh) then e else h.run(b, e.status, e.w);
      r.s.w.os == last.w.os && r.s.status == last.status
  {
    hide SemLoop, SemFor, SemList, SemCall, SemPipe, SemSubshell, SemRedir;
    var first, second := Simple("a", a), Simple("b", b);
    r := Sem(h, 3, Semi(first, second), false, c);
    var r1 := Sem(h, 2, first, false, c);
    var e := h.run(a, c.status, c.w);
    assert r1.Fin? && r1.s.w == e.w && r1.s.status == e.status;
    if !h.eflag(e.w.sh) {
      assert r == Tail(h, 2, second, false, r1.s);
    }
  }

  /** A command that fails in a file read by the dot command ends the shell under set -e
      even where the dot command itself is tested. */
  lemma DotForgetsTested<S, O>(h: Host<S, O>, a: int, s: State<S, O>)
    requires "a" !in s.funcs && s.heeds
    requires var e := h.run(a, s.status, s.w); e.kind.Returns? && e.status != 0 && h.eflag(e.w.sh)
    ensures var r := Sem(h, 3, DotCmd(Cons(Simple("a", a), Nil), false), true, s); r.Fin? && r.out == Exit
  {
    var r := Sem(h, 2, Simple("a", a), false, s);
    assert r.Fin? && r.out == Exit;
    assert SemList(h, 2, Cons(Simple("a", a), Nil), false, false, s) == r;
  }
}
