/** A structured big-step semantics for the parse trees of src/eval.c.  Where the evaluator
    sets flags and skips, the semantics returns an outcome.  What single commands and
    expansions do to the shell's variables and to the system is a parameter. */
module EvalSem {
  import opened Wrappers

  datatype NodeList = Nil | Cons(hd: Node, tl: NodeList)

  /** Parse trees.  Null is a null pointer; Clist is NCLIST, or NCLISTFALLTHRU when `fall`. */
  datatype Node =
    | Null
    | Semi(l: Node, r: Node)
    | AndAnd(l: Node, r: Node)
    | OrOr(l: Node, r: Node)
    | Not(c: Node)
    | If(test: Node, ifPart: Node, elsePart: Node)
    | Loop(until: bool, cond: Node, body: Node)
    | For(variable: string, words: int, body: Node)
    | Case(subject: int, clauses: Node)
    | Clist(pattern: int, body: Node, next: Node, fall: bool)
    | Redir(redir: int, body: Node)
    | Subshell(redir: int, body: Node)
    | Background(redir: int, body: Node)
    | Pipe(backgnd: bool, cmds: NodeList)
    | Defun(name: string, body: Node)
    | Simple(name: string, cmd: int)
    | BreakCmd(isCont: bool, n: int)
    | ReturnCmd(arg: Option<int>)
    | EvalCmd(trees: NodeList, viaCommand: bool)
    | DotCmd(trees: NodeList, viaCommand: bool)

  // ----- the parameters -----

  /** What belongs to one shell process, and what all processes share. */
  datatype World<S, O> = World(sh: S, os: O)

  /** How something that is run ends; Signaled is a foreground process killed by a signal
      in an interactive shell. */
  datatype Kind = Returns | Exits | Fails | Signaled

  datatype Effect<S, O> = Effect(kind: Kind, status: int, w: World<S, O>)

  datatype Words<S, O> = Words(ok: bool, words: seq<string>, status: int, w: World<S, O>)

  datatype Text<S, O> = Text(ok: bool, text: string, status: int, w: World<S, O>)

  datatype Match<S, O> = Match(ok: bool, found: bool, status: int, w: World<S, O>)

  /** A simple command may return, exit the shell or raise an error, and remove functions; an
      expansion or an assignment may raise an error; a redirection may fail. */
  datatype Host<!S, !O> = Host(
    run: (int, int, World<S, O>) -> Effect<S, O>,
    unsetfuncs: (int, int, World<S, O>) -> set<string>,
    expredir: (int, int, World<S, O>) -> Effect<S, O>,
    redirect: (int, World<S, O>) -> Effect<S, O>,
    unredirect: (S, S) -> S,
    expand: (int, int, World<S, O>) -> Words<S, O>,
    setvar: (string, string, World<S, O>) -> Effect<S, O>,
    word: (int, int, World<S, O>) -> Text<S, O>,
    matches: (int, string, int, World<S, O>) -> Match<S, O>,
    enter: (int, World<S, O>) -> Effect<S, O>,
    bind: (int, int, World<S, O>) -> Effect<S, O>,
    leave: (S, S) -> S,
    spawn: (Node, World<S, O>) -> O,
    pipeView: (nat, World<S, O>) -> World<S, O>,
    pipeJoin: (World<S, O>, seq<O>) -> O,
    eflag: S -> bool)

  /** Brk(n) and Cnt(n) still have n loops to leave; Err carries an error to a handler. */
  datatype Outcome = Normal | Brk(n: int) | Cnt(n: int) | Ret | Exit | Err

  /**
   * What a process does that matters to set -e and to the loop count: it looks at set -e, `command`
   * catches an error that comes up at `depth` where `before` loops were counted, the process is ended
   * by a command, or a process of a subshell or pipeline runs.
   */
  datatype Event<S, O> =
    | Checked(tested: bool, status: int, w: World<S, O>)
    | Caught(before: int, depth: int)
    | Left
    | Process(events: seq<Event<S, O>>, out: Outcome)
    | Unfinished(events: seq<Event<S, O>>)

  /**
   * `depth` is the number of loops around the command being run.  `heeds` tells whether this process
   * heeds set -e, which every shell does; a process that does not serves for comparison.
   */
  datatype State<S, O> = State(w: World<S, O>, status: int, depth: int, funcs: map<string, Node>,
                               heeds: bool, trace: seq<Event<S, O>>)

  datatype Res<S, O> = NoFuel(trace: seq<Event<S, O>>) | Fin(out: Outcome, s: State<S, O>)

  // ----- pieces -----

  /** The check that ends the shell. */
  predicate Fatal<S, O>(h: Host<S, O>, e: Event<S, O>) {
    e.Checked? && !e.tested && e.status != 0 && h.eflag(e.w.sh)
  }

  function Log<S, O>(s: State<S, O>, e: Event<S, O>): State<S, O> {
    s.(trace := s.trace + [e])
  }

  /** set -e: a failing command in a position that is not tested ends the shell. */
  function Etest<S, O>(h: Host<S, O>, tested: bool, r: Res<S, O>): Res<S, O> {
    match r
    case NoFuel(_) => r
    case Fin(out, s) =>
      if out == Exit || out == Err then r
      else
        var e := Checked(tested, s.status, s.w);
        Fin(if s.heeds && Fatal(h, e) then Exit else out, Log(s, e))
  }

  /** The exit status a parent process sees. */
  function WaitStatus(status: int): int {
    status % 256
  }

  /** What a case command selects. */
  datatype Selection<S, O> = Selected(c: Node, s: State<S, O>) | NoClause(s: State<S, O>) | BadPattern(s: State<S, O>)

  /** The clauses are tried in turn; expanding their patterns may change the state. */
  function SelectCase<S, O>(h: Host<S, O>, text: string, c: Node, s: State<S, O>): Selection<S, O> {
    if !c.Clist? then NoClause(s)
    else
      var m := h.matches(c.pattern, text, s.status, s.w);
      var s1 := s.(w := m.w, status := m.status);
      if !m.ok then BadPattern(s1)
      else if m.found then Selected(SkipEmpty(c), s1)
      else SelectCase(h, text, c.next, s1)
  }

  /** Empty clauses that fall through are passed over; a clause that falls through is
      returned as such, any other as its body. */
  function SkipEmpty(c: Node): Node
    requires c.Clist?
  {
    if c.next.Clist? && c.fall then
      if c.body.Null? then SkipEmpty(c.next) else c
    else c.body
  }

  /** A continue that is for this loop. */
  predicate NextTurn(out: Outcome) {
    out.Cnt? && out.n <= 1
  }

  /** A loop sees the end of its condition or body: what it does with an outcome. */
  function LeaveLoop<S, O>(out: Outcome, acc: int, s: State<S, O>): Res<S, O>
    requires out.Brk? || out.Cnt? || out.Ret?
  {
    match out
    case Ret => Fin(Ret, s.(depth := s.depth - 1))
    case Brk(k) => Fin(if k <= 1 then Normal else Brk(k - 1), s.(depth := s.depth - 1, status := acc))
    case Cnt(k) => Fin(Cnt(k - 1), s.(depth := s.depth - 1, status := acc))
  }

  // ----- the semantics -----

  function Sem<S, O>(h: Host<S, O>, fuel: nat, n: Node, tested: bool, s: State<S, O>): Res<S, O>
    decreases fuel, 1
  {
    if n.Null? then Fin(Normal, s.(status := 0))
    else Tail(h, fuel, n, tested, s)
  }

  /** A tree in tail position: a null one leaves everything as it is. */
  function Tail<S, O>(h: Host<S, O>, fuel: nat, n: Node, tested: bool, s: State<S, O>): Res<S, O>
    decreases fuel, 0
  {
    if n.Null? then Fin(Normal, s)
    else if fuel == 0 then NoFuel(s.trace)
    else
      var f := fuel - 1;
      match n
      case Null => Fin(Normal, s)
      case Semi(l, r) =>
        (match Sem(h, f, l, tested, s)
         case NoFuel(t) => NoFuel(t)
         case Fin(out, s1) => if out != Normal then Fin(out, s1) else Tail(h, f, r, tested, s1))
      case AndAnd(l, r) =>
        (match Sem(h, f, l, true, s)
         case NoFuel(t) => NoFuel(t)
         case Fin(out, s1) => if out != Normal || s1.status != 0 then Fin(out, s1) else Tail(h, f, r, tested, s1))
      case OrOr(l, r) =>
        (match Sem(h, f, l, true, s)
         case NoFuel(t) => NoFuel(t)
         case Fin(out, s1) => if out != Normal || s1.status == 0 then Fin(out, s1) else Tail(h, f, r, tested, s1))
      case Not(c) =>
        (match Sem(h, f, c, true, s)
         case NoFuel(t) => NoFuel(t)
         case Fin(out, s1) =>
           if out != Normal then Fin(out, s1) else Fin(Normal, s1.(status := if s1.status == 0 then 1 else 0)))
      case If(test, ifPart, elsePart) =>
        (match Sem(h, f, test, true, s)
         case NoFuel(t) => NoFuel(t)
         case Fin(out, s1) =>
           if out != Normal then Fin(out, s1)
           else if s1.status == 0 then Tail(h, f, ifPart, tested, s1)
           else if elsePart.Null? then Fin(Normal, s1.(status := 0))
           else Tail(h, f, elsePart, tested, s1))
      case Loop(until, cond, body) =>
        SemLoop(h, f, until, cond, body, tested, 0, s.(depth := s.depth + 1))
      case For(x, words, body) =>
        var e := h.expand(words, s.status, s.w);
        if !e.ok then Fin(Err, s.(w := e.w, status := e.status))
        else SemFor(h, f, x, e.words, body, tested, 0, s.(w := e.w, status := e.status, depth := s.depth + 1))
      case Case(subject, clauses) =>
        var e := h.word(subject, s.status, s.w);
        var s1 := s.(w := e.w, status := e.status);
        if !e.ok then Fin(Err, s1)
        else
          (match SelectCase(h, e.text, clauses, s1)
           case NoClause(s2) => Fin(Normal, s2.(status := 0))
           case BadPattern(s2) => Fin(Err, s2)
           case Selected(c, s2) => Tail(h, f, c, tested, if c.Null? then s2.(status := 0) else s2))
      case Clist(_, body, next, fall) =>
        if !fall then Tail(h, f, body, tested, s)
        else if body.Null? then Tail(h, f, next, tested, s)
        else
          (match Sem(h, f, body, tested, s)
           case NoFuel(t) => NoFuel(t)
           case Fin(out, s1) => if out != Normal then Fin(out, s1) else Tail(h, f, next, tested, s1))
      case Redir(redir, body) => SemRedir(h, f, redir, body, tested, s)
      case Subshell(redir, body) => Etest(h, tested, SemSubshell(h, f, redir, body, tested, s))
      case Background(redir, body) =>
        var e := h.expredir(redir, s.status, s.w);
        if !e.kind.Returns? then Fin(Err, s.(w := e.w, status := e.status))
        else Fin(Normal, s.(w := e.w.(os := h.spawn(n, e.w)), status := 0))
      case Pipe(backgnd, cmds) =>
        Etest(h, tested,
          if backgnd then Fin(Normal, s.(w := s.w.(os := h.spawn(n, s.w)), status := 0))
          else SemPipe(h, f, cmds, 0, [], 0, s))
      case Defun(name, body) => Fin(Normal, s.(funcs := s.funcs[name := body], status := 0))
      case Simple(name, cmd) =>
        Etest(h, tested,
          if name in s.funcs then SemCall(h, f, s.funcs[name], cmd, tested, s)
          else RunCommand(h, cmd, s))
      case BreakCmd(isCont, k) => Etest(h, tested, SemBreak(isCont, k, s))
      case ReturnCmd(arg) =>
        Etest(h, tested, Fin(Ret, s.(status := if arg.Some? then arg.value else s.status)))
      case EvalCmd(trees, via) =>
        Etest(h, tested, Catch(via, s.depth, SemList(h, f, trees, tested, false, s.(status := 0))))
      case DotCmd(trees, via) =>
        Etest(h, tested, Catch(via, s.depth, AfterDot(SemList(h, f, trees, false, false, s))))
  }

  /** A simple command that is no function.  An interrupted one breaks out of all loops. */
  function RunCommand<S, O>(h: Host<S, O>, cmd: int, s: State<S, O>): Res<S, O> {
    var e := h.run(cmd, s.status, s.w);
    var s1 := s.(w := e.w, status := e.status, funcs := s.funcs - h.unsetfuncs(cmd, s.status, s.w));
    match e.kind
    case Returns => Fin(Normal, s1)
    case Signaled => Fin(if s.depth > 0 then Brk(s.depth) else Normal, s1)
    case Exits => Fin(Exit, Log(s1, Left))
    case Fails => Fin(Err, s1)
  }

  /** break and continue never count more loops than there are. */
  function SemBreak<S, O>(isCont: bool, k: int, s: State<S, O>): Res<S, O> {
    var m := if k > s.depth then s.depth else k;
    if k <= 0 then Fin(Err, s.(status := 2))
    else if m <= 0 then Fin(Normal, s.(status := 0))
    else Fin(if isCont then Cnt(m) else Brk(m), s.(status := 0))
  }

  function SemLoop<S, O>(h: Host<S, O>, fuel: nat, until: bool, cond: Node, body: Node, tested: bool,
                         acc: int, s: State<S, O>): Res<S, O>
    decreases fuel, 0
  {
    if fuel == 0 then NoFuel(s.trace)
    else AfterCond(h, fuel - 1, until, cond, body, tested, acc, Sem(h, fuel - 1, cond, true, s))
  }

  /** The loop once its condition has been run; `acc` is the status of the last body. */
  function AfterCond<S, O>(h: Host<S, O>, fuel: nat, until: bool, cond: Node, body: Node, tested: bool,
                           acc: int, r: Res<S, O>): Res<S, O>
    decreases fuel, 4
  {
    if r.NoFuel? || r.out == Exit || r.out == Err then r
    else if NextTurn(r.out) then SemLoop(h, fuel, until, cond, body, tested, acc, r.s)
    else if r.out != Normal then LeaveLoop(r.out, acc, r.s)
    else if (r.s.status == 0) == until then Fin(Normal, r.s.(status := acc, depth := r.s.depth - 1))
    else AfterBody(h, fuel, until, cond, body, tested, Sem(h, fuel, body, tested, r.s))
  }

  /** The loop once its body has been run. */
  function AfterBody<S, O>(h: Host<S, O>, fuel: nat, until: bool, cond: Node, body: Node, tested: bool,
                           r: Res<S, O>): Res<S, O>
    decreases fuel, 3
  {
    if r.NoFuel? || r.out == Exit || r.out == Err then r
    else if r.out == Normal || NextTurn(r.out) then SemLoop(h, fuel, until, cond, body, tested, r.s.status, r.s)
    else LeaveLoop(r.out, r.s.status, r.s)
  }

  function SemFor<S, O>(h: Host<S, O>, fuel: nat, x: string, words: seq<string>, body: Node, tested: bool,
                        acc: int, s: State<S, O>): Res<S, O>
    decreases fuel, 0
  {
    if words == [] then Fin(Normal, s.(status := acc, depth := s.depth - 1))
    else if fuel == 0 then NoFuel(s.trace)
    else
      var e := h.setvar(x, words[0], s.w);
      if !e.kind.Returns? then Fin(Err, s.(w := e.w, status := e.status))
      else AfterWord(h, fuel - 1, x, words[1..], body, tested, Sem(h, fuel - 1, body, tested, s.(w := e.w)))
  }

  /** A for loop once its body has been run for a word; `words` are the ones to come. */
  function AfterWord<S, O>(h: Host<S, O>, fuel: nat, x: string, words: seq<string>, body: Node, tested: bool,
                           r: Res<S, O>): Res<S, O>
    decreases fuel, 3
  {
    if r.NoFuel? || r.out == Exit || r.out == Err then r
    else if r.out == Normal || NextTurn(r.out) then SemFor(h, fuel, x, words, body, tested, r.s.status, r.s)
    else LeaveLoop(r.out, r.s.status, r.s)
  }

  function SemRedir<S, O>(h: Host<S, O>, fuel: nat, redir: int, body: Node, tested: bool, s: State<S, O>): Res<S, O>
    decreases fuel, 2
  {
    var x := h.expredir(redir, s.status, s.w);
    if !x.kind.Returns? then Fin(Err, s.(w := x.w, status := x.status))
    else
      var e := h.redirect(redir, x.w);
      var before := x.w.sh;
      if !e.kind.Returns? then
        Fin(Normal, s.(w := e.w.(sh := h.unredirect(before, e.w.sh)), status := e.status))
      else
        match Sem(h, fuel, body, tested, s.(w := e.w, status := x.status))
        case NoFuel(t) => NoFuel(t)
        case Fin(out, s1) => Fin(out, s1.(w := s1.w.(sh := h.unredirect(before, s1.w.sh))))
  }

  /** The state of a new process of this shell. */
  function Child<S, O>(s: State<S, O>, w: World<S, O>, status: int, depth: int): State<S, O> {
    State(w, status, depth, s.funcs, true, [])
  }

  /** The parent once a process of it has ended. */
  function After<S, O>(s: State<S, O>, r: Res<S, O>): State<S, O> {
    Log(s, if r.NoFuel? then Unfinished(r.trace) else Process(r.s.trace, r.out))
  }

  /** What a subshell does; its redirections are expanded by the parent. */
  function SubshellProcess<S, O>(h: Host<S, O>, fuel: nat, redir: int, body: Node, tested: bool, c: State<S, O>): Res<S, O>
    decreases fuel, 2
  {
    var e := h.redirect(redir, c.w);
    if !e.kind.Returns? then Fin(Err, c.(w := e.w, status := e.status))
    else Sem(h, fuel, body, tested, c.(w := e.w, depth := 0))
  }

  /** A subshell is a copy of the shell outside all loops; its parent sees its exit status
      and what it has done to the system. */
  function SemSubshell<S, O>(h: Host<S, O>, fuel: nat, redir: int, body: Node, tested: bool, s: State<S, O>): Res<S, O>
    decreases fuel, 3
  {
    var x := h.expredir(redir, s.status, s.w);
    if !x.kind.Returns? then Fin(Err, s.(w := x.w, status := x.status))
    else
      var r := SubshellProcess(h, fuel, redir, body, tested, Child(s, x.w, x.status, s.depth));
      var s1 := After(s, r);
      if r.NoFuel? then NoFuel(s1.trace)
      else Fin(Normal, s1.(w := x.w.(os := r.s.w.os), status := WaitStatus(r.s.status)))
  }

  /** The commands of a pipeline are copies of the shell, none in a tested position; the
      status is that of the last one. */
  function SemPipe<S, O>(h: Host<S, O>, fuel: nat, cmds: NodeList, i: nat, done: seq<O>,
                         last: int, s: State<S, O>): Res<S, O>
    decreases fuel, 2, cmds
  {
    match cmds
    case Nil => Fin(Normal, s.(w := s.w.(os := h.pipeJoin(s.w, done)), status := WaitStatus(last)))
    case Cons(c, rest) =>
      var r := Sem(h, fuel, c, false, Child(s, h.pipeView(i, s.w), s.status, s.depth));
      var s1 := After(s, r);
      if r.NoFuel? then NoFuel(s1.trace)
      else SemPipe(h, fuel, rest, i + 1, done + [r.s.w.os], r.s.status, s1)
  }

  /** A function call: its redirections, which may fail, its local variables, and its body. */
  function SemCall<S, O>(h: Host<S, O>, fuel: nat, body: Node, cmd: int, tested: bool, s: State<S, O>): Res<S, O>
    decreases fuel, 2
  {
    var e := h.enter(cmd, s.w);
    var before := s.w.sh;
    if !e.kind.Returns? then Fin(Normal, s.(w := e.w.(sh := h.leave(before, e.w.sh)), status := e.status))
    else
      var b := h.bind(cmd, s.status, e.w);
      if !b.kind.Returns? then Fin(Err, s.(w := b.w.(sh := h.leave(before, b.w.sh)), status := b.status))
      else
        match Sem(h, fuel, body, tested, s.(w := b.w))
        case NoFuel(t) => NoFuel(t)
        case Fin(out, s1) =>
          Fin(if out == Ret then Normal else out, s1.(w := s1.w.(sh := h.leave(before, s1.w.sh))))
  }

  /** The commands of a string or file, until one of them skips or there are no more. */
  function SemList<S, O>(h: Host<S, O>, fuel: nat, trees: NodeList, tested: bool, any: bool, s: State<S, O>): Res<S, O>
    decreases fuel, 2, trees
  {
    match trees
    case Nil => Fin(Normal, if any then s else s.(status := 0))
    case Cons(n, rest) =>
      if n.Null? then SemList(h, fuel, rest, tested, any, s)
      else
        match Sem(h, fuel, n, tested, s)
        case NoFuel(t) => NoFuel(t)
        case Fin(out, s1) => if out != Normal then Fin(out, s1) else SemList(h, fuel, rest, tested, true, s1)
  }

  /** A return in a file read by the dot command ends the file. */
  function AfterDot<S, O>(r: Res<S, O>): Res<S, O> {
    if r.Fin? && r.out == Ret then Fin(Normal, r.s) else r
  }

  /** `command` turns an error of the builtin into its exit status.  The loops the error
      came out of are still counted. */
  function Catch<S, O>(via: bool, before: int, r: Res<S, O>): Res<S, O> {
    if r.Fin? && r.out == Err && via then Fin(Normal, Log(r.s, Event.Caught(before, r.s.depth))) else r
  }

  predicate IsSequence(n: Node) {
    n.Semi? || n.AndAnd? || n.OrOr? || n.Not? || n.If?
  }

  predicate IsCompound(n: Node) {
    n.Loop? || n.For? || n.Case? || n.Clist?
  }

  lemma SequenceUnfold<S, O>(h: Host<S, O>, f: nat, n: Node, tested: bool, s: State<S, O>)
    requires n.Semi? || n.AndAnd? || n.OrOr?
    ensures var first := Sem(h, f, n.l, if n.Semi? then tested else true, s);
      Tail(h, f + 1, n, tested, s) ==
        if first.NoFuel? || first.out != Normal then first
        else if (n.AndAnd? && first.s.status != 0) || (n.OrOr? && first.s.status == 0) then first
        else Tail(h, f, n.r, tested, first.s)
  {
    hide Sem;
  }

  predicate IsBuiltin(n: Node) {
    n.BreakCmd? || n.ReturnCmd? || n.EvalCmd? || n.DotCmd?
  }

  /** A builtin before the test for set -e. */
  ghost function BuiltinResult<S, O>(h: Host<S, O>, f: nat, n: Node, tested: bool, s: State<S, O>): Res<S, O>
    requires IsBuiltin(n)
  {
    match n
    case BreakCmd(isCont, k) => SemBreak(isCont, k, s)
    case ReturnCmd(arg) => Fin(Ret, s.(status := if arg.Some? then arg.value else s.status))
    case EvalCmd(trees, via) => Catch(via, s.depth, SemList(h, f, trees, tested, false, s.(status := 0)))
    case DotCmd(trees, via) => Catch(via, s.depth, AfterDot(SemList(h, f, trees, false, false, s)))
  }

  lemma BuiltinUnfold<S, O>(h: Host<S, O>, f: nat, n: Node, tested: bool, s: State<S, O>)
    requires IsBuiltin(n)
    ensures Tail(h, f + 1, n, tested, s) == Etest(h, tested, BuiltinResult(h, f, n, tested, s))
  {
    hide Sem, SemList, Etest, Catch, AfterDot, SemBreak;
  }

  // ----- the loop equations -----

  lemma LoopUnfold<S, O>(h: Host<S, O>, f: nat, until: bool, cond: Node, body: Node, tested: bool,
                         acc: int, s: State<S, O>)
    ensures SemLoop(h, f, until, cond, body, tested, acc, s) ==
      if f == 0 then NoFuel(s.trace)
      else AfterCond(h, f - 1, until, cond, body, tested, acc, Sem(h, f - 1, cond, true, s))
  {
    hide Sem, AfterCond;
  }

  lemma AfterCondUnfold<S, O>(h: Host<S, O>, f: nat, until: bool, cond: Node, body: Node, tested: bool,
                              acc: int, c: Res<S, O>)
    ensures AfterCond(h, f, until, cond, body, tested, acc, c) ==
      if c.NoFuel? || c.out == Exit || c.out == Err then c
      else if NextTurn(c.out) then SemLoop(h, f, until, cond, body, tested, acc, c.s)
      else if c.out != Normal then LeaveLoop(c.out, acc, c.s)
      else if (c.s.status == 0) == until then Fin(Normal, c.s.(status := acc, depth := c.s.depth - 1))
      else AfterBody(h, f, until, cond, body, tested, Sem(h, f, body, tested, c.s))
  {
    hide Sem, Tail, SemLoop, AfterBody, LeaveLoop, NextTurn, SemFor, AfterWord, SemList, SemCall, SemPipe, SemSubshell,
      SubshellProcess, SemRedir, Etest, Catch;
  }

  lemma AfterBodyUnfold<S, O>(h: Host<S, O>, f: nat, until: bool, cond: Node, body: Node, tested: bool, r: Res<S, O>)
    ensures AfterBody(h, f, until, cond, body, tested, r) ==
      if r.NoFuel? || r.out == Exit || r.out == Err then r
      else if r.out == Normal || NextTurn(r.out) then SemLoop(h, f, until, cond, body, tested, r.s.status, r.s)
      else LeaveLoop(r.out, r.s.status, r.s)
  {
    hide Sem, Tail, SemLoop, AfterCond, LeaveLoop, NextTurn, SemFor, AfterWord, SemList, SemCall, SemPipe, SemSubshell,
      SubshellProcess, SemRedir, Etest, Catch;
  }

  lemma AfterWordUnfold<S, O>(h: Host<S, O>, f: nat, x: string, words: seq<string>, body: Node, tested: bool, r: Res<S, O>)
    ensures AfterWord(h, f, x, words, body, tested, r) ==
      if r.NoFuel? || r.out == Exit || r.out == Err then r
      else if r.out == Normal || NextTurn(r.out) then SemFor(h, f, x, words, body, tested, r.s.status, r.s)
      else LeaveLoop(r.out, r.s.status, r.s)
  {
    hide Sem, Tail, SemLoop, AfterCond, AfterBody, LeaveLoop, NextTurn, SemFor, SemList, SemCall, SemPipe, SemSubshell,
      SubshellProcess, SemRedir, Etest, Catch;
  }

  lemma ForUnfold<S, O>(h: Host<S, O>, f: nat, x: string, words: seq<string>, body: Node, tested: bool,
                        acc: int, s: State<S, O>)
    ensures words == [] ==>
      SemFor(h, f, x, words, body, tested, acc, s) == Fin(Normal, s.(status := acc, depth := s.depth - 1))
    ensures words != [] && f == 0 ==> SemFor(h, f, x, words, body, tested, acc, s) == NoFuel(s.trace)
    ensures words != [] && f > 0 ==>
      var e := h.setvar(x, words[0], s.w);
      SemFor(h, f, x, words, body, tested, acc, s) ==
        if !e.kind.Returns? then Fin(Err, s.(w := e.w, status := e.status))
        else AfterWord(h, f - 1, x, words[1..], body, tested, Sem(h, f - 1, body, tested, s.(w := e.w)))
  {
    hide Sem, AfterWord;
  }

  // ----- the other equations -----

  /** The result with the variables of the shell replaced. */
  ghost function MapShell<S, O>(c: Res<S, O>, g: S -> S): Res<S, O> {
    if c.NoFuel? then c else Fin(c.out, c.s.(w := c.s.w.(sh := g(c.s.w.sh))))
  }

  /** What a function call makes of the result of its body. */
  ghost function CallResult<S, O>(h: Host<S, O>, r: Res<S, O>, before: S): Res<S, O> {
    var c := MapShell(r, sh => h.leave(before, sh));
    if c.Fin? && c.out == Ret then Fin(Normal, c.s) else c
  }

  lemma RedirUnfold<S, O>(h: Host<S, O>, f: nat, redir: int, body: Node, tested: bool, s: State<S, O>)
    ensures var x := h.expredir(redir, s.status, s.w);
      var e := h.redirect(redir, x.w);
      SemRedir(h, f, redir, body, tested, s) ==
        if !x.kind.Returns? then Fin(Err, s.(w := x.w, status := x.status))
        else if !e.kind.Returns? then
          Fin(Normal, s.(w := e.w.(sh := h.unredirect(x.w.sh, e.w.sh)), status := e.status))
        else MapShell(Sem(h, f, body, tested, s.(w := e.w, status := x.status)), sh => h.unredirect(x.w.sh, sh))
  {
    hide Sem;
  }

  lemma SubshellUnfold<S, O>(h: Host<S, O>, f: nat, redir: int, body: Node, tested: bool, s: State<S, O>)
    ensures var x := h.expredir(redir, s.status, s.w);
      var r := SubshellProcess(h, f, redir, body, tested, Child(s, x.w, x.status, s.depth));
      SemSubshell(h, f, redir, body, tested, s) ==
        if !x.kind.Returns? then Fin(Err, s.(w := x.w, status := x.status))
        else if r.NoFuel? then NoFuel(After(s, r).trace)
        else Fin(Normal, After(s, r).(w := x.w.(os := r.s.w.os), status := WaitStatus(r.s.status)))
  {
    hide SubshellProcess;
  }

  lemma CallUnfold<S, O>(h: Host<S, O>, f: nat, body: Node, cmd: int, tested: bool, s: State<S, O>)
    ensures var e := h.enter(cmd, s.w);
      var b := h.bind(cmd, s.status, e.w);
      SemCall(h, f, body, cmd, tested, s) ==
        if !e.kind.Returns? then Fin(Normal, s.(w := e.w.(sh := h.leave(s.w.sh, e.w.sh)), status := e.status))
        else if !b.kind.Returns? then Fin(Err, s.(w := b.w.(sh := h.leave(s.w.sh, b.w.sh)), status := b.status))
        else CallResult(h, Sem(h, f, body, tested, s.(w := b.w)), s.w.sh)
  {
    hide Sem;
  }

  lemma PipeUnfold<S, O>(h: Host<S, O>, f: nat, cmds: NodeList, i: nat, done: seq<O>, last: int, s: State<S, O>)
    ensures cmds.Nil? ==>
      SemPipe(h, f, cmds, i, done, last, s)
      == Fin(Normal, s.(w := s.w.(os := h.pipeJoin(s.w, done)), status := WaitStatus(last)))
    ensures cmds.Cons? ==>
      var r := Sem(h, f, cmds.hd, false, Child(s, h.pipeView(i, s.w), s.status, s.depth));
      SemPipe(h, f, cmds, i, done, last, s) ==
        if r.NoFuel? then NoFuel(After(s, r).trace)
        else SemPipe(h, f, cmds.tl, i + 1, done + [r.s.w.os], r.s.status, After(s, r))
  {
    hide Sem;
  }

  lemma ListUnfold<S, O>(h: Host<S, O>, f: nat, trees: NodeList, tested: bool, any: bool, s: State<S, O>)
    ensures trees.Nil? ==>
      SemList(h, f, trees, tested, any, s) == Fin(Normal, if any then s else s.(status := 0))
    ensures trees.Cons? && trees.hd.Null? ==>
      SemList(h, f, trees, tested, any, s) == SemList(h, f, trees.tl, tested, any, s)
    ensures trees.Cons? && !trees.hd.Null? ==>
      var r := Sem(h, f, trees.hd, tested, s);
      SemList(h, f, trees, tested, any, s) ==
        if r.NoFuel? || r.out != Normal then r else SemList(h, f, trees.tl, tested, true, r.s)
  {
    hide Sem;
  }
}
