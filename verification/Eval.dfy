/** The evaluator of src/eval.c with its flags: evalskip, skipcount and loopnest carry
    break, continue and return, EV_TESTED and EV_EXIT are passed down, and errors and exits
    are exceptions.  Every routine is proved against the structured semantics. */
module Eval {
  import opened Wrappers
  import opened EvalSem

  datatype Skip = NoSkip | SkipBreak | SkipCont | SkipReturn

  /** How a routine ends: it returns, or raises EXERROR or EXEXIT; the model also stops
      when the fuel of the semantics is used up. */
  datatype Ending = OutOfFuel | Returned | Threw(error: bool)

  /** What can be seen of a process once it has ended. */
  ghost predicate SameExit<S, O>(s: State<S, O>, t: State<S, O>) {
    s.w.os == t.w.os && WaitStatus(s.status) == WaitStatus(t.status)
  }

  /** The flags and the state `s` after a routine say what the semantics says. */
  ghost predicate Encodes<S, O>(res: Res<S, O>, r: Ending, s: State<S, O>, skip: Skip, count: int) {
    match res
    case NoFuel(_) => r.OutOfFuel?
    case Fin(out, t) =>
      match out
      case Normal => r.Returned? && skip == NoSkip && s == t
      case Brk(k) => r.Returned? && skip == SkipBreak && count == k && s == t
      case Cnt(k) => r.Returned? && skip == SkipCont && count == k && s == t
      case Ret => r.Returned? && skip == SkipReturn && s == t
      case Exit => r == Threw(false) && SameExit(s, t)
      case Err => r == Threw(true) && skip == NoSkip && s == t
  }

  /** The same for a process that is about to end: EV_EXIT is set and nothing comes after. */
  ghost predicate EncodesExit<S, O>(res: Res<S, O>, r: Ending, s: State<S, O>) {
    match res
    case NoFuel(_) => r.OutOfFuel?
    case Fin(_, t) => r.Threw? && SameExit(s, t)
  }

  /** Either of the two, for a routine called with EV_EXIT that may still return. */
  ghost predicate Ends<S, O>(res: Res<S, O>, exit: bool, r: Ending, s: State<S, O>, skip: Skip, count: int) {
    if exit && r.Threw? then EncodesExit(res, r, s) else Encodes(res, r, s, skip, count)
  }

  class Shell<S, O> {
    const h: Host<S, O>
    var w: World<S, O>
    var exitstatus: int
    var loopnest: int
    var funcs: map<string, Node>
    var evalskip: Skip
    var skipcount: int
    var rootshell: bool
    ghost var trace: seq<Event<S, O>>

    ghost function Value(): State<S, O>
      reads this
    {
      State(w, exitstatus, loopnest, funcs, true, trace)
    }

    /** A forked child. */
    constructor Fork(parent: Shell<S, O>, w: World<S, O>, loopnest: int, exitstatus: int)
      requires parent.evalskip == NoSkip
      ensures h == parent.h && evalskip == NoSkip
      ensures Value() == Child(parent.Value(), w, exitstatus, loopnest)
    {
      h := parent.h;
      this.w, this.loopnest, this.exitstatus := w, loopnest, exitstatus;
      funcs, evalskip, skipcount, rootshell := parent.funcs, NoSkip, 0, false;
      trace := [];
    }

    /** evaltree: the loop follows tail positions. */
    method EvalTree(n: Node, tested: bool, exit: bool, fuel: nat) returns (r: Ending)
      requires evalskip == NoSkip
      modifies this
      ensures if exit then EncodesExit(Sem(h, fuel, n, tested, old(Value())), r, Value())
              else Encodes(Sem(h, fuel, n, tested, old(Value())), r, Value(), evalskip, skipcount)
      decreases fuel, 1
    {
      hide Tail;
      ghost var res := Sem(h, fuel, n, tested, Value());
      ghost var last: Res<S, O> := Fin(Normal, Value());
      var doEtest := false;
      if n.Null? {
        exitstatus := 0;
        last := Fin(Normal, Value());
      } else {
        var n', f := n, fuel;
        while true
          invariant 0 <= f <= fuel && !n'.Null? && evalskip == NoSkip
          invariant res == Tail(h, f, n', tested, Value())
          decreases f
        {
          if f == 0 {
            assert res.NoFuel? by { NoFuelLeft(h, n', tested, Value()); }
            return OutOfFuel;
          }
          f := f - 1;
          var next;
          r, next, doEtest, last := Step(n', tested, exit, f);
          if !r.Returned? {
            return;
          }
          if next.Null? {
            break;
          }
          n' := next;
        }
      }
      r := EndTree(doEtest, tested, exit, last, res);
    }

    /** The end of evaltree, where set -e and EV_EXIT are looked at. */
    method EndTree(doEtest: bool, tested: bool, exit: bool, ghost last: Res<S, O>, ghost res: Res<S, O>) returns (r: Ending)
      requires Encodes(last, Returned, Value(), evalskip, skipcount)
      requires res == if doEtest then Etest(h, tested, last) else last
      modifies this`trace
      ensures if exit then EncodesExit(res, r, Value()) else Encodes(res, r, Value(), evalskip, skipcount)
    {
      if doEtest {
        trace := trace + [Checked(tested, exitstatus, w)];
      }
      if doEtest && exitstatus != 0 && h.eflag(w.sh) && !tested {
        return Threw(false);
      }
      if exit {
        return Threw(false);
      }
      r := Returned;
    }

    /** One turn of the switch. */
    method Step(n: Node, tested: bool, exit: bool, f: nat)
      returns (r: Ending, next: Node, etest: bool, ghost last: Res<S, O>)
      requires evalskip == NoSkip && !n.Null?
      modifies this
      ensures Turn(h, f, n, tested, exit, old(Value()), r, next, etest, last, Value(), evalskip, skipcount)
      decreases f, 6
    {
      hide Turn, Tail;
      if n.Not? || n.If? {
        r, next, etest, last := StepChoice(n, tested, exit, f);
      } else if IsSequence(n) {
        r, next, etest, last := StepSequence(n, tested, exit, f);
      } else if n.Loop? || n.For? {
        r, next, etest, last := StepLoop(n, tested, exit, f);
      } else if n.Case? || n.Clist? {
        r, next, etest, last := StepCase(n, tested, exit, f);
      } else if IsBuiltin(n) {
        r, next, etest, last := StepBuiltin(n, tested, exit, f);
      } else {
        r, next, etest, last := StepCommand(n, tested, exit, f);
      }
    }

    /** NWHILE, NUNTIL and NFOR. */
    method StepLoop(n: Node, tested: bool, exit: bool, f: nat)
      returns (r: Ending, next: Node, etest: bool, ghost last: Res<S, O>)
      requires evalskip == NoSkip && (n.Loop? || n.For?)
      modifies this
      ensures Turn(h, f, n, tested, exit, old(Value()), r, next, etest, last, Value(), evalskip, skipcount)
      decreases f, 5
    {
      hide Sem, SemLoop, SemFor;
      r, next, etest := Returned, Null, false;
      last := Fin(Normal, Value());
      match n {
        case Loop(until, cond, body) =>
          r := EvalLoop(until, cond, body, tested, f);
          last := SemLoop(h, f, until, cond, body, tested, 0, old(Value()).(depth := old(loopnest) + 1));
        case For(x, words, body) =>
          var e := h.expand(words, exitstatus, w);
          w, exitstatus := e.w, e.status;
          if !e.ok {
            r := Threw(true);
          } else {
            ghost var s := Value();
            r := EvalFor(x, e.words, body, tested, f);
            last := SemFor(h, f, x, e.words, body, tested, 0, s.(depth := s.depth + 1));
          }
      }
    }

    /** NCASE, and NCLIST and NCLISTFALLTHRU, to which it leads. */
    method StepCase(n: Node, tested: bool, exit: bool, f: nat)
      returns (r: Ending, next: Node, etest: bool, ghost last: Res<S, O>)
      requires evalskip == NoSkip && (n.Case? || n.Clist?)
      modifies this
      ensures Turn(h, f, n, tested, exit, old(Value()), r, next, etest, last, Value(), evalskip, skipcount)
      decreases f, 5
    {
      hide Sem, SemLoop, SemFor, SelectCase;
      r, next, etest := Returned, Null, false;
      last := Fin(Normal, Value());
      match n {
        case Case(subject, clauses) =>
          r, next := EvalCase(subject, clauses);
          TailOfNull(h, f, tested, Value());
          last := Fin(Normal, Value());
        case Clist(_, body, rest, fall) =>
          if !fall {
            next := body;
            TailOfNull(h, f, tested, Value());
          } else {
            if !body.Null? {
              r := EvalTree(body, tested, false, f);
              last := Sem(h, f, body, tested, old(Value()));
              if !r.Returned? || evalskip != NoSkip {
                return;
              }
            }
            next := rest;
            TailOfNull(h, f, tested, Value());
            last := Fin(Normal, Value());
          }
      }
    }

    method EvalLoop(until: bool, cond: Node, body: Node, tested: bool, fuel: nat) returns (r: Ending)
      requires evalskip == NoSkip
      modifies this
      ensures Encodes(SemLoop(h, fuel, until, cond, body, tested, 0, old(Value()).(depth := old(loopnest) + 1)),
                      r, Value(), evalskip, skipcount)
      decreases fuel, 3
    {
      hide Sem, SemLoop, AfterCond, AfterBody, Encodes, LeaveLoop, LoopHead, LoopPoint;
      ghost var res := SemLoop(h, fuel, until, cond, body, tested, 0, Value().(depth := loopnest + 1));
      loopnest := loopnest + 1;
      var status, f, again := 0, fuel, true;
      AtHead(h, f, until, cond, body, tested, status, res, Value(), evalskip, skipcount);
      while true
        invariant 0 <= f <= fuel
        invariant LoopHead(h, f, until, cond, body, tested, status, res, Value(), evalskip, skipcount)
        decreases f, if evalskip == NoSkip then 0 else 1
      {
        if evalskip == NoSkip {
          r := LoopCond(until, cond, body, tested, f, status, res);
          if !r.Returned? {
            return;
          }
          f := f - 1;
        }
        if evalskip != NoSkip {
          again, status := LoopPending(status, f, until, cond, body, tested, res);
          if again {
            continue;
          }
          break;
        }
        if (exitstatus == 0) == until {
          break;
        }
        r := LoopBody(until, cond, body, tested, f, res);
        if !r.Returned? {
          return;
        }
        status := exitstatus;
      }
      loopnest := loopnest - 1;
      exitstatus := status;
      r := Returned;
    }

    /** Looks at evalskip in evalloop. */
    method LoopPending(status0: int, ghost f: nat, ghost until: bool, ghost cond: Node, ghost body: Node,
                       ghost tested: bool, ghost res: Res<S, O>)
      returns (again: bool, status: int)
      requires evalskip != NoSkip && LoopHead(h, f, until, cond, body, tested, status0, res, Value(), evalskip, skipcount)
      modifies this`evalskip, this`skipcount
      ensures again ==>
        evalskip == NoSkip && LoopHead(h, f, until, cond, body, tested, status, res, Value(), evalskip, skipcount)
      ensures !again ==>
        Encodes(res, Returned, Value().(status := status, depth := loopnest - 1), evalskip, skipcount)
    {
      hide SemLoop, Encodes, LoopPoint;
      again, status := LoopSkip(status0, SemLoop(h, f, until, cond, body, tested, status0, Value()), res);
      AtHead(h, f, until, cond, body, tested, status, res, Value(), evalskip, skipcount);
    }

    /** Runs the condition in a tested position. */
    method LoopCond(until: bool, cond: Node, body: Node, tested: bool, f: nat, status: int, ghost res: Res<S, O>)
      returns (r: Ending)
      requires evalskip == NoSkip
      requires LoopHead(h, f, until, cond, body, tested, status, res, Value(), evalskip, skipcount)
      modifies this
      ensures f == 0 ==> r.OutOfFuel?
      ensures !r.Returned? ==> Encodes(res, r, Value(), evalskip, skipcount)
      ensures r.Returned? && evalskip != NoSkip ==>
        LoopHead(h, f - 1, until, cond, body, tested, status, res, Value(), evalskip, skipcount)
      ensures r.Returned? && evalskip == NoSkip && (exitstatus == 0) == until ==>
        Encodes(res, Returned, Value().(status := status, depth := loopnest - 1), evalskip, skipcount)
      ensures r.Returned? && evalskip == NoSkip && (exitstatus == 0) != until ==>
        res == AfterBody(h, f - 1, until, cond, body, tested, Sem(h, f - 1, body, tested, Value()))
      decreases f, 2
    {
      hide Sem, SemLoop, AfterCond, AfterBody, Encodes, LeaveLoop, LoopHead, LoopPoint;
      ghost var top := Value();
      AtHead(h, f, until, cond, body, tested, status, res, top, evalskip, skipcount);
      LoopUnfold(h, f, until, cond, body, tested, status, top);
      if f == 0 {
        EncodesNoFuel(res, Value(), evalskip, skipcount);
        return OutOfFuel;
      }
      r := EvalTree(cond, true, false, f - 1);
      CondDone(h, f - 1, until, cond, body, tested, status, Sem(h, f - 1, cond, true, top), r, Value(), evalskip, skipcount);
      if r.Returned? && evalskip == NoSkip && (exitstatus == 0) == until {
        EncodesNormal(res);
      }
    }

    method LoopBody(until: bool, cond: Node, body: Node, tested: bool, f: nat, ghost res: Res<S, O>) returns (r: Ending)
      requires evalskip == NoSkip
      requires res == AfterBody(h, f, until, cond, body, tested, Sem(h, f, body, tested, Value()))
      modifies this
      ensures !r.Returned? ==> Encodes(res, r, Value(), evalskip, skipcount)
      ensures r.Returned? ==>
        LoopHead(h, f, until, cond, body, tested, exitstatus, res, Value(), evalskip, skipcount)
      decreases f, 2
    {
      hide Sem, SemLoop, AfterCond, AfterBody, Encodes, LeaveLoop;
      ghost var middle := Value();
      r := EvalTree(body, tested, false, f);
      BodyDone(h, f, until, cond, body, tested, Sem(h, f, body, tested, middle), r, Value(), evalskip, skipcount);
    }

    /** The part of evalloop and evalfor that looks at evalskip: whether the loop goes on,
        and otherwise the status it ends with. */
    method LoopSkip(status0: int, ghost goOn: Res<S, O>, ghost res: Res<S, O>) returns (again: bool, status: int)
      requires evalskip != NoSkip
      requires LoopPoint(goOn, status0, res, Value(), evalskip, skipcount)
      modifies this`evalskip, this`skipcount
      ensures again ==> evalskip == NoSkip && status == status0 && res == goOn
      ensures !again ==>
        Encodes(res, Returned, Value().(status := status, depth := loopnest - 1), evalskip, skipcount)
    {
      again, status := false, status0;
      if evalskip == SkipCont {
        skipcount := skipcount - 1;
        if skipcount <= 0 {
          evalskip := NoSkip;
          again := true;
          return;
        }
      }
      if evalskip == SkipBreak {
        skipcount := skipcount - 1;
        if skipcount <= 0 {
          evalskip := NoSkip;
        }
      }
      if evalskip == SkipReturn {
        status := exitstatus;
      }
    }

    /** NFOR: the words have been expanded. */
    method EvalFor(x: string, words: seq<string>, body: Node, tested: bool, fuel: nat) returns (r: Ending)
      requires evalskip == NoSkip
      modifies this
      ensures Encodes(SemFor(h, fuel, x, words, body, tested, 0, old(Value()).(depth := old(loopnest) + 1)),
                      r, Value(), evalskip, skipcount)
      decreases fuel, 3
    {
      hide Sem, SemFor, AfterWord, Encodes, LeaveLoop, LoopPoint;
      ghost var res := SemFor(h, fuel, x, words, body, tested, 0, Value().(depth := loopnest + 1));
      loopnest := loopnest + 1;
      var status, f, i, again := 0, fuel, 0, true;
      assert words[0..] == words;
      while i < |words|
        invariant 0 <= f <= fuel && 0 <= i <= |words| && evalskip == NoSkip && again
        invariant res == SemFor(h, f, x, words[i..], body, tested, status, Value())
        decreases |words| - i
      {
        ForUnfold(h, f, x, words[i..], body, tested, status, Value());
        assert words[i..][0] == words[i] && words[i..][1..] == words[i + 1..];
        if f == 0 {
          EncodesNoFuel(res, Value(), evalskip, skipcount);
          return OutOfFuel;
        }
        f := f - 1;
        var e := h.setvar(x, words[i], w);
        w := e.w;
        if !e.kind.Returns? {
          exitstatus := e.status;
          EncodesErr(res, skipcount);
          return Threw(true);
        }
        i := i + 1;
        r := ForBody(x, words[i..], body, tested, f, res);
        if !r.Returned? {
          return;
        }
        status := exitstatus;
        PointGoesOn(SemFor(h, f, x, words[i..], body, tested, status, Value()), status, res, Value(), skipcount);
        if evalskip != NoSkip {
          again, status := LoopSkip(status, SemFor(h, f, x, words[i..], body, tested, status, Value()), res);
          if again {
            continue;
          }
          break;
        }
      }
      if again {
        ForUnfold(h, f, x, words[i..], body, tested, status, Value());
        EncodesNormal(res);
      }
      loopnest := loopnest - 1;
      exitstatus := status;
      r := Returned;
    }

    method ForBody(x: string, ghost words: seq<string>, body: Node, tested: bool, f: nat, ghost res: Res<S, O>)
      returns (r: Ending)
      requires evalskip == NoSkip
      requires res == AfterWord(h, f, x, words, body, tested, Sem(h, f, body, tested, Value()))
      modifies this
      ensures !r.Returned? ==> Encodes(res, r, Value(), evalskip, skipcount)
      ensures r.Returned? ==>
        LoopPoint(SemFor(h, f, x, words, body, tested, exitstatus, Value()), exitstatus, res, Value(), evalskip, skipcount)
      decreases f, 2
    {
      hide Sem, SemFor, AfterWord, Encodes, LeaveLoop;
      ghost var middle := Value();
      r := EvalTree(body, tested, false, f);
      WordDone(h, f, x, words, body, tested, Sem(h, f, body, tested, middle), r, Value(), evalskip, skipcount);
    }

    /** evalcase: expands the word, then the patterns of each clause until one matches. */
    method EvalCase(subject: int, clauses: Node) returns (r: Ending, next: Node)
      modifies this`w, this`exitstatus
      ensures var e := h.word(subject, old(exitstatus), old(w));
        var s := old(Value()).(w := e.w, status := e.status);
        if !e.ok then r == Threw(true) && Value() == s
        else
          var c := SelectCase(h, e.text, clauses, s);
          && r == (if c.BadPattern? then Threw(true) else Returned)
          && next == (if c.Selected? then c.c else Null)
          && Value() == if r.Returned? && next.Null? then c.s.(status := 0) else c.s
    {
      next := Null;
      var e := h.word(subject, exitstatus, w);
      w, exitstatus := e.w, e.status;
      if !e.ok {
        return Threw(true), Null;
      }
      ghost var s := Value();
      var cp := clauses;
      while cp.Clist?
        invariant SelectCase(h, e.text, clauses, s) == SelectCase(h, e.text, cp, Value())
        decreases cp
      {
        var m := h.matches(cp.pattern, e.text, exitstatus, w);
        w, exitstatus := m.w, m.status;
        if !m.ok {
          return Threw(true), Null;
        }
        if m.found {
          next := SelectBody(cp);
          if next.Null? {
            exitstatus := 0;
          }
          return Returned, next;
        }
        cp := cp.next;
      }
      exitstatus := 0;
      r := Returned;
    }

    /** The inner loop of evalcase, over empty clauses that fall through. */
    method SelectBody(clause: Node) returns (next: Node)
      requires clause.Clist?
      ensures next == SkipEmpty(clause)
    {
      var cp := clause;
      while cp.next.Clist? && cp.fall && cp.body.Null?
        invariant cp.Clist? && SkipEmpty(cp) == SkipEmpty(clause)
        decreases cp
      {
        cp := cp.next;
      }
      next := if cp.next.Clist? && cp.fall then cp else cp.body;
    }

    /** Redirections, other processes, function definitions and simple commands. */
    method StepCommand(n: Node, tested: bool, exit: bool, f: nat)
      returns (r: Ending, next: Node, etest: bool, ghost last: Res<S, O>)
      requires evalskip == NoSkip && !n.Null? && !IsSequence(n) && !IsCompound(n) && !IsBuiltin(n)
      modifies this
      ensures Turn(h, f, n, tested, exit, old(Value()), r, next, etest, last, Value(), evalskip, skipcount)
      decreases f, 5
    {
      hide Sem, SemRedir, SemSubshell, SemPipe, SemCall, SemList;
      ghost var s := Value();
      r, next, etest := Returned, Null, false;
      last := Fin(Normal, s);
      match n {
        case Redir(redir, body) =>
          r := EvalRedir(redir, body, tested, exit, f);
          last := SemRedir(h, f, redir, body, tested, s);
        case Subshell(redir, body) =>
          r := EvalSubshell(redir, body, tested, exit, f);
          etest, last := true, SemSubshell(h, f, redir, body, tested, s);
        case Background(redir, _) =>
          var e := h.expredir(redir, exitstatus, w);
          w, exitstatus := e.w, e.status;
          if !e.kind.Returns? {
            r := Threw(true);
          } else {
            w := w.(os := h.spawn(n, w));
            exitstatus := 0;
            last := Fin(Normal, Value());
          }
        case Pipe(backgnd, cmds) =>
          etest := true;
          if backgnd {
            w := w.(os := h.spawn(n, w));
            exitstatus := 0;
            last := Fin(Normal, Value());
          } else {
            r := EvalPipe(cmds, f);
            last := SemPipe(h, f, cmds, 0, [], 0, s);
          }
        case Defun(name, body) =>
          funcs := funcs[name := body];
          exitstatus := 0;
          last := Fin(Normal, Value());
        case Simple(name, cmd) =>
          etest := true;
          if name in funcs {
            r := EvalFunction(funcs[name], cmd, tested, exit, f);
            last := SemCall(h, f, s.funcs[name], cmd, tested, s);
          } else {
            r := RunSimple(cmd);
            last := RunCommand(h, cmd, s);
          }
      }
    }

    /** The rest of evalcommand, for anything but a function or the builtins below. */
    method RunSimple(cmd: int) returns (r: Ending)
      requires evalskip == NoSkip
      modifies this
      ensures Encodes(RunCommand(h, cmd, old(Value())), r, Value(), evalskip, skipcount)
    {
      var e := h.run(cmd, exitstatus, w);
      funcs := funcs - h.unsetfuncs(cmd, exitstatus, w);
      w, exitstatus := e.w, e.status;
      r := Returned;
      match e.kind {
        case Returns =>
        case Exits =>
          trace := trace + [Left];
          r := Threw(false);
        case Fails =>
          r := Threw(true);
        case Signaled =>
          if loopnest > 0 {
            evalskip, skipcount := SkipBreak, loopnest;
          }
      }
    }

    /** break, continue, return, eval and dot. */
    method StepBuiltin(n: Node, tested: bool, exit: bool, f: nat)
      returns (r: Ending, next: Node, etest: bool, ghost last: Res<S, O>)
      requires evalskip == NoSkip && IsBuiltin(n)
      modifies this
      ensures Turn(h, f, n, tested, exit, old(Value()), r, next, etest, last, Value(), evalskip, skipcount)
      decreases f, 5
    {
      hide Sem, SemList, SemBreak, Catch, AfterDot, Tail;
      ghost var s := Value();
      BuiltinUnfold(h, f, n, tested, s);
      r, next, etest := Returned, Null, true;
      last := Fin(Normal, s);
      match n {
        case BreakCmd(isCont, k) =>
          r := BreakBuiltin(isCont, k);
          last := SemBreak(isCont, k, s);
        case ReturnCmd(arg) =>
          exitstatus := if arg.Some? then arg.value else exitstatus;
          evalskip, skipcount := SkipReturn, 1;
          last := Fin(Ret, Value());
        case EvalCmd(trees, via) =>
          r := EvalBuiltin(trees, via, tested, exit, f);
          last := Catch(via, s.depth, SemList(h, f, trees, tested, false, s.(status := 0)));
        case DotCmd(trees, via) =>
          r := DotBuiltin(trees, via, f);
          last := Catch(via, s.depth, AfterDot(SemList(h, f, trees, false, false, s)));
      }
    }

    /** evalcmd, possibly run through `command`. */
    method EvalBuiltin(trees: NodeList, via: bool, tested: bool, exit: bool, f: nat) returns (r: Ending)
      requires evalskip == NoSkip
      modifies this
      ensures Ends(Catch(via, old(loopnest), SemList(h, f, trees, tested, false, old(Value()).(status := 0))),
                   exit, r, Value(), evalskip, skipcount)
      decreases f, 3
    {
      hide Sem, SemList;
      ghost var s := Value();
      exitstatus := 0;
      r := EvalString(trees, tested, exit, f);
      r := CatchError(via, exit, r, s.depth, SemList(h, f, trees, tested, false, s.(status := 0)));
    }

    /** dotcmd, possibly run through `command`: a return ends the file. */
    method DotBuiltin(trees: NodeList, via: bool, f: nat) returns (r: Ending)
      requires evalskip == NoSkip
      modifies this
      ensures Ends(Catch(via, old(loopnest), AfterDot(SemList(h, f, trees, false, false, old(Value())))),
                   false, r, Value(), evalskip, skipcount)
      decreases f, 3
    {
      hide Sem, SemList;
      ghost var s := Value();
      r := EvalString(trees, false, false, f);
      if r.Returned? && evalskip == SkipReturn {
        evalskip := NoSkip;
      }
      r := CatchError(via, false, r, s.depth, AfterDot(SemList(h, f, trees, false, false, s)));
    }

    /** breakcmd, for break and continue. */
    method BreakBuiltin(isCont: bool, k: int) returns (r: Ending)
      requires evalskip == NoSkip
      modifies this
      ensures Encodes(SemBreak(isCont, k, old(Value())), r, Value(), evalskip, skipcount)
    {
      if k <= 0 {
        exitstatus := 2;
        return Threw(true);
      }
      var m := if k > loopnest then loopnest else k;
      if m > 0 {
        evalskip := if isCont then SkipCont else SkipBreak;
        skipcount := m;
      }
      exitstatus := 0;
      r := Returned;
    }

    /** The end of a builtin run through `command`: an error is caught.  With EV_EXIT the
        shell ends next in any case. */
    method CatchError(via: bool, exit: bool, r0: Ending, ghost before: int, ghost res: Res<S, O>) returns (r: Ending)
      requires Ends(res, exit, r0, Value(), evalskip, skipcount)
      modifies this`trace
      ensures Ends(Catch(via, before, res), exit, r, Value(), evalskip, skipcount)
    {
      r := r0;
      if via && r0 == Threw(true) {
        r := if exit then Threw(false) else Returned;
        trace := trace + [Event.Caught(before, loopnest)];
      }
    }

    method EvalRedir(redir: int, body: Node, tested: bool, exit: bool, f: nat) returns (r: Ending)
      requires evalskip == NoSkip
      modifies this
      ensures Ends(SemRedir(h, f, redir, body, tested, old(Value())), exit, r, Value(), evalskip, skipcount)
      decreases f, 2
    {
      hide Sem, Encodes, EncodesExit, SemRedir;
      ghost var s := Value();
      RedirUnfold(h, f, redir, body, tested, s);
      var x := h.expredir(redir, exitstatus, w);
      w, exitstatus := x.w, x.status;
      if !x.kind.Returns? {
        EncodesErr(SemRedir(h, f, redir, body, tested, s), skipcount);
        ErrEnds(SemRedir(h, f, redir, body, tested, s), exit, skipcount);
        return Threw(true);
      }
      var before := w.sh;
      var e := h.redirect(redir, w);
      w := e.w;
      if !e.kind.Returns? {
        exitstatus := e.status;
        w := w.(sh := h.unredirect(before, w.sh));
        EncodesNormal(SemRedir(h, f, redir, body, tested, s));
        return Returned;
      }
      ghost var c := Sem(h, f, body, tested, Value());
      r := EvalTree(body, tested, exit, f);
      NewShell(c, exit, r, Value(), evalskip, skipcount, sh => h.unredirect(before, sh));
      w := w.(sh := h.unredirect(before, w.sh));
    }

    /** evalsubshell; with EV_EXIT, and no traps to run, the process itself becomes the subshell. */
    method EvalSubshell(redir: int, body: Node, tested: bool, exit: bool, f: nat) returns (r: Ending)
      requires evalskip == NoSkip
      modifies this
      ensures Ends(SemSubshell(h, f, redir, body, tested, old(Value())), exit, r, Value(), evalskip, skipcount)
      decreases f, 4
    {
      hide Sem, SubshellProcess, SemSubshell, Ends;
      ghost var res := SemSubshell(h, f, redir, body, tested, Value());
      SubshellUnfold(h, f, redir, body, tested, Value());
      var x := h.expredir(redir, exitstatus, w);
      w, exitstatus := x.w, x.status;
      if !x.kind.Returns? {
        ErrEnds(res, exit, skipcount);
        return Threw(true);
      }
      ghost var s := Value();
      ghost var process := SubshellProcess(h, f, redir, body, tested, Child(s, w, exitstatus, loopnest));
      assert Child(s, w, exitstatus, loopnest) == Child(old(Value()), w, exitstatus, loopnest);
      var noTraps: bool := *;
      if exit && !rootshell && noTraps {
        trace := [];
        r := RunChild(redir, body, tested, f);
        BecameSubshell(s, process, r, Value(), skipcount, evalskip, res);
        return;
      }
      r := ForkSubshell(redir, body, tested, f, process);
      ForkedSubshell(s, process, r, exit, Value(), skipcount, res);
    }

    /** The parent of a subshell, once it has forked. */
    method ForkSubshell(redir: int, body: Node, tested: bool, f: nat, ghost process: Res<S, O>) returns (r: Ending)
      requires evalskip == NoSkip
      requires process == SubshellProcess(h, f, redir, body, tested, Child(Value(), w, exitstatus, loopnest))
      modifies this
      ensures evalskip == NoSkip && (process.NoFuel? <==> r.OutOfFuel?) && (process.Fin? ==> r.Returned?)
      ensures process.Fin? ==>
        Value() == After(old(Value()), process).(w := old(w).(os := process.s.w.os), status := WaitStatus(process.s.status))
      decreases f, 3
    {
      hide Sem, SubshellProcess;
      var child := new Shell<S, O>.Fork(this, w, loopnest, exitstatus);
      r := child.RunChild(redir, body, tested, f);
      if r.OutOfFuel? {
        return;
      }
      w := w.(os := child.w.os);
      exitstatus := WaitStatus(child.exitstatus);
      trace := After(Value(), process).trace;
      r := Returned;
    }

    /** A subshell, to the end of its process. */
    method RunChild(redir: int, body: Node, tested: bool, f: nat) returns (r: Ending)
      requires evalskip == NoSkip
      modifies this
      ensures EncodesExit(SubshellProcess(h, f, redir, body, tested, old(Value())), r, Value())
      decreases f, 2
    {
      hide Sem;
      var e := h.redirect(redir, w);
      w := e.w;
      if !e.kind.Returns? {
        exitstatus := e.status;
        return Threw(true);
      }
      loopnest := 0;
      r := EvalTree(body, tested, true, f);
    }

    method EvalPipe(cmds: NodeList, f: nat) returns (r: Ending)
      requires evalskip == NoSkip
      modifies this
      ensures Ends(SemPipe(h, f, cmds, 0, [], 0, old(Value())), false, r, Value(), evalskip, skipcount)
      decreases f, 2
    {
      hide Sem, SemPipe;
      ghost var res := SemPipe(h, f, cmds, 0, [], 0, Value());
      var lp, i, done, status := cmds, 0, [], 0;
      ghost var last := 0;
      while lp.Cons?
        invariant evalskip == NoSkip && w == old(w) && WaitStatus(status) == WaitStatus(last)
        invariant res == SemPipe(h, f, lp, i, done, last, Value())
        decreases lp
      {
        PipeUnfold(h, f, lp, i, done, last, Value());
        var view := h.pipeView(i, w);
        var child := new Shell<S, O>.Fork(this, view, loopnest, exitstatus);
        ghost var process := Sem(h, f, lp.hd, false, child.Value());
        r := child.EvalTree(lp.hd, false, true, f);
        if r.OutOfFuel? {
          return;
        }
        trace := After(Value(), process).trace;
        done, status, last := done + [child.w.os], child.exitstatus, process.s.status;
        lp, i := lp.tl, i + 1;
      }
      PipeUnfold(h, f, lp, i, done, last, Value());
      w := w.(os := h.pipeJoin(w, done));
      exitstatus := WaitStatus(status);
      r := Returned;
    }

    /** The function-call part of evalcommand. */
    method EvalFunction(body: Node, cmd: int, tested: bool, exit: bool, f: nat) returns (r: Ending)
      requires evalskip == NoSkip
      modifies this
      ensures Ends(SemCall(h, f, body, cmd, tested, old(Value())), exit, r, Value(), evalskip, skipcount)
      decreases f, 3
    {
      hide Sem, SemCall, Encodes, Ends, CallResult;
      ghost var res := SemCall(h, f, body, cmd, tested, Value());
      CallUnfold(h, f, body, cmd, tested, Value());
      var before := w.sh;
      var e := h.enter(cmd, w);
      w := e.w;
      if !e.kind.Returns? {
        exitstatus := e.status;
        w := w.(sh := h.leave(before, w.sh));
        NormalEnds(res, exit, skipcount);
        return Returned;
      }
      var b := h.bind(cmd, exitstatus, w);
      w := b.w;
      if !b.kind.Returns? {
        exitstatus := b.status;
        w := w.(sh := h.leave(before, w.sh));
        ErrEnds(res, exit, skipcount);
        return Threw(true);
      }
      r := RunFunction(body, before, tested, exit, f);
    }

    /** The body of a function, and what comes after it in any case. */
    method RunFunction(body: Node, before: S, tested: bool, exit: bool, f: nat) returns (r: Ending)
      requires evalskip == NoSkip
      modifies this
      ensures Ends(CallResult(h, Sem(h, f, body, tested, old(Value())), before), exit, r, Value(), evalskip, skipcount)
      decreases f, 2
    {
      hide Sem;
      ghost var c := Sem(h, f, body, tested, Value());
      r := EvalTree(body, tested, exit, f);
      NewShell(c, exit, r, Value(), evalskip, skipcount, sh => h.leave(before, sh));
      w := w.(sh := h.leave(before, w.sh));
      if r.Returned? && evalskip == SkipReturn {
        evalskip, skipcount := NoSkip, 0;
      }
    }

    /** evalstring on a string that has been parsed, and the loop of dotcmd.  Whether the
        end of the text is noticed before the last command is evaluated is left open. */
    method EvalString(trees: NodeList, tested: bool, exit: bool, f: nat) returns (r: Ending)
      requires evalskip == NoSkip
      modifies this
      ensures Ends(SemList(h, f, trees, tested, false, old(Value())), exit, r, Value(), evalskip, skipcount)
      decreases f, 2
    {
      hide Sem, SemList;
      ghost var res := SemList(h, f, trees, tested, false, Value());
      var list, any := trees, false;
      while list.Cons? && evalskip == NoSkip
        invariant evalskip == NoSkip ==> res == SemList(h, f, list, tested, any, Value())
        invariant evalskip != NoSkip ==> any && Encodes(res, Returned, Value(), evalskip, skipcount)
        decreases list
      {
        ListUnfold(h, f, list, tested, any, Value());
        var n, atEof: bool := list.hd, *;
        list := list.tl;
        if n.Null? {
          continue;
        }
        if list.Cons? {
          atEof := false;
        }
        ghost var c := Sem(h, f, n, tested, Value());
        if c.Fin? {
          ListUnfold(h, f, list, tested, true, c.s);
        }
        r := EvalTree(n, tested, exit && atEof, f);
        if !r.Returned? {
          return;
        }
        any := true;
      }
      ListUnfold(h, f, list, tested, any, Value());
      if !any {
        exitstatus := 0;
      }
      r := if exit then Threw(false) else Returned;
    }

    /** NSEMI, NAND and NOR. */
    method StepSequence(n: Node, tested: bool, exit: bool, f: nat)
      returns (r: Ending, next: Node, etest: bool, ghost last: Res<S, O>)
      requires evalskip == NoSkip && (n.Semi? || n.AndAnd? || n.OrOr?)
      modifies this
      ensures Turn(h, f, n, tested, exit, old(Value()), r, next, etest, last, Value(), evalskip, skipcount)
      decreases f, 5
    {
      hide Sem, Tail;
      SequenceUnfold(h, f, n, tested, Value());
      next, etest := Null, false;
      match n {
        case Semi(left, right) =>
          r := EvalTree(left, tested, false, f);
          last := Sem(h, f, left, tested, old(Value()));
          if r.Returned? && evalskip == NoSkip {
            next := right;
            TailOfNull(h, f, tested, Value());
            last := Fin(Normal, Value());
          }
        case AndAnd(left, right) =>
          r := EvalTree(left, true, false, f);
          last := Sem(h, f, left, true, old(Value()));
          if r.Returned? && evalskip == NoSkip && exitstatus == 0 {
            next := right;
            TailOfNull(h, f, tested, Value());
            last := Fin(Normal, Value());
          }
        case OrOr(left, right) =>
          r := EvalTree(left, true, false, f);
          last := Sem(h, f, left, true, old(Value()));
          if r.Returned? && evalskip == NoSkip && exitstatus != 0 {
            next := right;
            TailOfNull(h, f, tested, Value());
            last := Fin(Normal, Value());
          }
      }
    }

    /** NNOT and NIF. */
    method StepChoice(n: Node, tested: bool, exit: bool, f: nat)
      returns (r: Ending, next: Node, etest: bool, ghost last: Res<S, O>)
      requires evalskip == NoSkip && (n.Not? || n.If?)
      modifies this
      ensures Turn(h, f, n, tested, exit, old(Value()), r, next, etest, last, Value(), evalskip, skipcount)
      decreases f, 5
    {
      hide Sem;
      next, etest := Null, false;
      match n {
        case Not(c) =>
          r := EvalTree(c, true, false, f);
          last := Sem(h, f, c, true, old(Value()));
          if r.Returned? && evalskip == NoSkip {
            exitstatus := if exitstatus == 0 then 1 else 0;
            last := Fin(Normal, Value());
          }
        case If(test, ifPart, elsePart) =>
          r := EvalTree(test, true, false, f);
          last := Sem(h, f, test, true, old(Value()));
          if r.Returned? && evalskip == NoSkip {
            TailOfNull(h, f, tested, Value());
            if exitstatus == 0 {
              next := ifPart;
            } else if !elsePart.Null? {
              next := elsePart;
            } else {
              exitstatus := 0;
            }
            last := Fin(Normal, Value());
          }
      }
    }
  }

  /** What one turn of the loop in evaltree does with a node: it ends the evaluation, or it
      leaves the tree in tail position.  When that is null, `last` is the result before the
      test for set -e, which is due when `etest`. */
  ghost predicate Turn<S, O>(h: Host<S, O>, f: nat, n: Node, tested: bool, exit: bool, before: State<S, O>,
                             r: Ending, next: Node, etest: bool, last: Res<S, O>,
                             s: State<S, O>, skip: Skip, count: int) {
    var res := Tail(h, f + 1, n, tested, before);
    if !r.Returned? then
      if exit then EncodesExit(res, r, s) else Encodes(res, r, s, skip, count)
    else if next.Null? then
      (res == if etest then Etest(h, tested, last) else last) && Encodes(last, r, s, skip, count)
    else
      skip == NoSkip && res == Tail(h, f, next, tested, s)
  }

  /** Where evalskip is looked at in a loop: `goOn` is the result if the loop goes on, and
      what is pending decides whether it does. */
  ghost predicate LoopPoint<S, O>(goOn: Res<S, O>, status: int, res: Res<S, O>, s: State<S, O>, skip: Skip, count: int) {
    match skip
    case NoSkip => res == goOn
    case SkipCont => if count <= 1 then res == goOn else res == LeaveLoop(Cnt(count), status, s)
    case SkipBreak => res == LeaveLoop(Brk(count), status, s)
    case SkipReturn => res == LeaveLoop(Ret, status, s)
  }

  lemma PointGoesOn<S, O>(goOn: Res<S, O>, status: int, res: Res<S, O>, s: State<S, O>, count: int)
    ensures LoopPoint(goOn, status, res, s, NoSkip, count) <==> res == goOn
  {
  }

  /** The same at the head of the loop in evalloop. */
  ghost predicate LoopHead<S, O>(h: Host<S, O>, f: nat, until: bool, cond: Node, body: Node, tested: bool,
                                 status: int, res: Res<S, O>, s: State<S, O>, skip: Skip, count: int) {
    LoopPoint(SemLoop(h, f, until, cond, body, tested, status, s), status, res, s, skip, count)
  }

  lemma AtHead<S, O>(h: Host<S, O>, f: nat, until: bool, cond: Node, body: Node, tested: bool,
                     status: int, res: Res<S, O>, s: State<S, O>, skip: Skip, count: int)
    ensures LoopHead(h, f, until, cond, body, tested, status, res, s, skip, count)
       <==> LoopPoint(SemLoop(h, f, until, cond, body, tested, status, s), status, res, s, skip, count)
    ensures skip == NoSkip ==>
      (LoopHead(h, f, until, cond, body, tested, status, res, s, skip, count)
       <==> res == SemLoop(h, f, until, cond, body, tested, status, s))
  {
    hide SemLoop;
  }

  lemma EncodesNoFuel<S, O>(res: Res<S, O>, s: State<S, O>, skip: Skip, count: int)
    requires res.NoFuel?
    ensures Encodes(res, OutOfFuel, s, skip, count)
  {
  }

  lemma EncodesNormal<S, O>(res: Res<S, O>)
    requires res.Fin? && res.out == Normal
    ensures forall count :: Encodes(res, Returned, res.s, NoSkip, count)
  {
  }

  lemma EncodesErr<S, O>(res: Res<S, O>, count: int)
    requires res.Fin? && res.out == Err
    ensures Encodes(res, Threw(true), res.s, NoSkip, count)
  {
  }

  lemma ErrEnds<S, O>(res: Res<S, O>, exit: bool, count: int)
    requires res.Fin? && res.out == Err
    ensures Ends(res, exit, Threw(true), res.s, NoSkip, count)
  {
  }

  /** The evaluator's view of AfterCond. */
  lemma CondDone<S, O>(h: Host<S, O>, f: nat, until: bool, cond: Node, body: Node, tested: bool, status: int,
                       c: Res<S, O>, r: Ending, s: State<S, O>, skip: Skip, count: int)
    requires Encodes(c, r, s, skip, count)
    ensures var res := AfterCond(h, f, until, cond, body, tested, status, c);
      if !r.Returned? then Encodes(res, r, s, skip, count)
      else if skip != NoSkip then
        LoopHead(h, f, until, cond, body, tested, status, res, s, skip, count)
      else
        res == if (s.status == 0) == until then Fin(Normal, s.(status := status, depth := s.depth - 1))
               else AfterBody(h, f, until, cond, body, tested, Sem(h, f, body, tested, s))
  {
    hide Sem, SemLoop, AfterCond, AfterBody;
    AfterCondUnfold(h, f, until, cond, body, tested, status, c);
  }

  lemma BodyDone<S, O>(h: Host<S, O>, f: nat, until: bool, cond: Node, body: Node, tested: bool,
                       c: Res<S, O>, r: Ending, s: State<S, O>, skip: Skip, count: int)
    requires Encodes(c, r, s, skip, count)
    ensures var res := AfterBody(h, f, until, cond, body, tested, c);
      if !r.Returned? then Encodes(res, r, s, skip, count)
      else LoopHead(h, f, until, cond, body, tested, s.status, res, s, skip, count)
  {
    hide Sem, SemLoop;
  }

  lemma WordDone<S, O>(h: Host<S, O>, f: nat, x: string, words: seq<string>, body: Node, tested: bool,
                       c: Res<S, O>, r: Ending, s: State<S, O>, skip: Skip, count: int)
    requires Encodes(c, r, s, skip, count)
    ensures var res := AfterWord(h, f, x, words, body, tested, c);
      if !r.Returned? then Encodes(res, r, s, skip, count)
      else LoopPoint(SemFor(h, f, x, words, body, tested, s.status, s), s.status, res, s, skip, count)
  {
    hide Sem, SemFor;
  }

  lemma NewShell<S, O>(c: Res<S, O>, exit: bool, r: Ending, s: State<S, O>, skip: Skip, count: int, g: S -> S)
    requires if exit then EncodesExit(c, r, s) else Encodes(c, r, s, skip, count)
    ensures Ends(MapShell(c, g), exit, r, s.(w := s.w.(sh := g(s.w.sh))), skip, count)
  {
  }

  lemma NormalEnds<S, O>(res: Res<S, O>, exit: bool, count: int)
    requires res.Fin? && res.out == Normal
    ensures Ends(res, exit, Returned, res.s, NoSkip, count)
  {
  }

  /** What SemSubshell makes of the process. */
  ghost function Waited<S, O>(s: State<S, O>, process: Res<S, O>): Res<S, O> {
    if process.NoFuel? then NoFuel(After(s, process).trace)
    else Fin(Normal, After(s, process).(w := s.w.(os := process.s.w.os), status := WaitStatus(process.s.status)))
  }

  lemma BecameSubshell<S, O>(s: State<S, O>, process: Res<S, O>, r: Ending, t: State<S, O>, count: int, skip: Skip, res: Res<S, O>)
    requires EncodesExit(process, r, t) && res == Waited(s, process)
    ensures Ends(res, true, r, t, skip, count)
  {
  }

  lemma ForkedSubshell<S, O>(s: State<S, O>, process: Res<S, O>, r: Ending, exit: bool, t: State<S, O>, count: int, res: Res<S, O>)
    requires res == Waited(s, process)
    requires if process.NoFuel? then r.OutOfFuel? else r.Returned? && t == res.s
    ensures Ends(res, exit, r, t, NoSkip, count)
  {
  }

  lemma TailOfNull<S, O>(h: Host<S, O>, f: nat, tested: bool, s: State<S, O>)
    ensures Tail(h, f, Null, tested, s) == Fin(Normal, s)
  {
  }

  lemma NoFuelLeft<S, O>(h: Host<S, O>, n: Node, tested: bool, s: State<S, O>)
    requires !n.Null?
    ensures Tail(h, 0, n, tested, s).NoFuel?
  {
  }
}
