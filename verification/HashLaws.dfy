/** What a command name stands for, and what a run of commands changes about it; src/exec.c. */
module HashLaws {
  import opened Wrappers
  import opened CommandHash

  // ---- PATH ----

  function Joined(es: seq<string>): string
    requires es != []
  {
    if |es| == 1 then es[0] else es[0] + ":" + Joined(es[1..])
  }

  /** A PATH put together from elements comes apart into them. */
  lemma {:induction false} ElementsOfJoined(es: seq<string>)
    requires es != [] && forall i :: 0 <= i < |es| ==> ':' !in es[i]
    ensures Elements(Joined(es)) == es
    decreases |es|
  {
    if |es| == 1 {
      OneElement(es[0]);
      assert es == [es[0]];
    } else {
      ElementsOfJoined(es[1..]);
      FirstElement(es[0], Joined(es[1..]));
      assert es == [es[0]] + es[1..];
    }
  }

  lemma {:induction false} OneElement(e: string)
    requires ':' !in e
    ensures Elements(e) == [e]
  {
    if e != "" {
      assert e[0] in e && forall c :: c in e[1..] ==> c in e;
      OneElement(e[1..]);
      assert [e[0]] + e[1..] == e;
    }
  }

  lemma {:induction false} FirstElement(e: string, rest: string)
    requires ':' !in e
    ensures Elements(e + ":" + rest) == [e] + Elements(rest)
  {
    var p := e + ":" + rest;
    if e == "" {
      assert p[0] == ':' && p[1..] == rest;
    } else {
      assert e[0] in e && forall c :: c in e[1..] ==> c in e;
      assert p[0] == e[0] && p[1..] == e[1..] + ":" + rest;
      FirstElement(e[1..], rest);
      assert [e[0]] + e[1..] == e;
    }
  }

  /** The file an element stands for: relative to the working directory unless it is absolute. */
  function At(w: World, element: string, name: string): Stat {
    var file := if element == "" then name else element + "/" + name;
    if file != "" && file[0] == '/' then w.files.absolute(file) else w.files.relative(w.cwd, file)
  }

  /** What is wrong with a file, where a missing one is nothing to speak of. */
  function Trouble(s: Stat): Option<nat> {
    match s
    case Regular => None
    case NotRegular => Some(13)
    case StatError(errno) => if errno == 2 || errno == 20 then None else Some(errno)
  }

  predicate NoneRegular(w: World, es: seq<string>, name: string, from: nat, to: nat) {
    forall k :: from <= k < to && k < |es| ==> At(w, es[k], name) != Regular
  }

  predicate NoTrouble(w: World, es: seq<string>, name: string, from: nat) {
    forall k :: from <= k < |es| ==> Trouble(At(w, es[k], name)) == None
  }

  predicate LastTrouble(w: World, es: seq<string>, name: string, k: nat, e: nat) {
    k < |es| && Trouble(At(w, es[k], name)) == Some(e) && NoTrouble(w, es, name, k + 1)
  }

  /** A search finds the first regular file; otherwise it reports the last trouble, or that there is no such file. */
  lemma SearchFindsFirst(w: World, es: seq<string>, name: string)
    ensures var r := SearchFrom(w.files, w.cwd, es, name, 0, ENOENT);
      if r.Found? then r.index < |es| && At(w, es[r.index], name) == Regular && NoneRegular(w, es, name, 0, r.index)
      else
        && NoneRegular(w, es, name, 0, |es|)
        && (if NoTrouble(w, es, name, 0) then r.errno == 2 else exists k: nat :: LastTrouble(w, es, name, k, r.errno))
  {
    SearchFromFinds(w, es, name, 0, ENOENT);
  }

  lemma {:induction false} SearchFromFinds(w: World, es: seq<string>, name: string, i: nat, e0: nat)
    requires i <= |es|
    ensures var r := SearchFrom(w.files, w.cwd, es, name, i, e0);
      if r.Found? then i <= r.index < |es| && At(w, es[r.index], name) == Regular && NoneRegular(w, es, name, i, r.index)
      else
        && NoneRegular(w, es, name, i, |es|)
        && (if NoTrouble(w, es, name, i) then r.errno == e0 else exists k: nat :: i <= k && LastTrouble(w, es, name, k, r.errno))
    decreases |es| - i
  {
    if i < |es| {
      var s := At(w, es[i], name);
      assert s == w.files.Stat(w.cwd, FullName(es[i], name));
      if s != Regular {
        var e1 := if Trouble(s).Some? then Trouble(s).value else e0;
        SearchFromFinds(w, es, name, i + 1, e1);
        assert SearchFrom(w.files, w.cwd, es, name, i, e0) == SearchFrom(w.files, w.cwd, es, name, i + 1, e1);
        if NoTrouble(w, es, name, i + 1) && Trouble(s).Some? {
          assert LastTrouble(w, es, name, i, e1);
        }
      }
    }
  }

  // ---- What a name stands for ----

  predicate FirstRow(rows: seq<BuiltinRow>, name: string, i: nat) {
    i < |rows| && rows[i].name == name && forall k :: 0 <= k < i ==> rows[k].name != name
  }

  /** The first row of the builtin table with the name. */
  lemma {:induction false} BuiltinIsFirst(rows: seq<BuiltinRow>, name: string) returns (i: nat)
    ensures match FindBuiltin(rows, name)
            case None => forall k :: 0 <= k < |rows| ==> rows[k].name != name
            case Some(row) => FirstRow(rows, name, i) && rows[i] == row
  {
    i := 0;
    if rows != [] && rows[0].name != name {
      i := BuiltinIsFirst(rows[1..], name);
      assert forall k :: 1 <= k < |rows| ==> rows[k] == rows[1..][k - 1];
      i := i + 1;
    }
  }

  /**
   * A name with a slash is a file; then a function, unless functions are left out; then a builtin; then the first
   * regular file along PATH.
   */
  lemma OrderOfLookup(w: World, known: Option<nat>, name: string, noFunc: bool)
    ensures var r := Resolve(w, known, name, noFunc);
      && ('/' in name ==> r == Runs(Normal(0)))
      && ('/' !in name && known.Some? && !noFunc ==> r == Runs(Function(known.value)))
      && ('/' !in name && (known.None? || noFunc) ==>
            var row, search := FindBuiltin(w.builtins, name), SearchFrom(w.files, w.cwd, Elements(w.path), name, 0, ENOENT);
            if row.Some? then r == Runs(Builtin(row.value.code, row.value.special))
            else r == if search.Found? then Runs(Normal(search.index)) else Missing(search.errno))
  {
  }

  // ---- Runs ----

  /** The function that a name has after the operations. */
  function LastDefinition(ops: seq<Op>, name: string, before: Option<nat>): Option<nat> {
    if ops == [] then before
    else
      var rest, last := ops[..|ops| - 1], ops[|ops| - 1];
      if last.Define? && last.name == name then Some(last.body)
      else if last.Unset? && last.name == name then None
      else LastDefinition(rest, name, before)
  }

  function LastPath(ops: seq<Op>, before: string): string {
    if ops == [] then before
    else if ops[|ops| - 1].SetPath? then ops[|ops| - 1].value
    else LastPath(ops[..|ops| - 1], before)
  }

  function LastDir(ops: seq<Op>, before: string): string {
    if ops == [] then before
    else if ops[|ops| - 1].ChangeDir? then ops[|ops| - 1].dir
    else LastDir(ops[..|ops| - 1], before)
  }

  /** The world and the functions after a run, and what a find at its end answers. */
  lemma {:induction false} AnswerAtEnd(w: World, functions: map<string, nat>, ops: seq<Op>, name: string, noFunc: bool)
    ensures var after := w.(path := LastPath(ops, w.path), cwd := LastDir(ops, w.cwd));
      Answers(w, functions, ops + [Find(name, noFunc)])
      == Answers(w, functions, ops) + [Resolve(after, LastDefinition(ops, name, Lookup(functions, name)), name, noFunc)]
    decreases |ops|
  {
    hide Resolve;
    var find := [Find(name, noFunc)];
    if ops == [] {
      assert ops + find == find && find[1..] == [];
      assert Answers(w, functions, find) == Answer(w, functions, find[0]) + Answers(w, functions, []);
      assert w.(path := w.path, cwd := w.cwd) == w;
    } else {
      var w1, f1 := WorldAfter(w, ops[0]), FunctionsAfter(functions, ops[0]);
      assert (ops + find)[0] == ops[0] && (ops + find)[1..] == ops[1..] + find;
      AnswerAtEnd(w1, f1, ops[1..], name, noFunc);
      FirstOp(ops, name, Lookup(functions, name));
      FirstPlaces(ops, w.path, w.cwd);
      LookupAfter(functions, ops[0], name);
    }
  }

  lemma LookupAfter(functions: map<string, nat>, op: Op, name: string)
    ensures Lookup(FunctionsAfter(functions, op), name) == LastDefinition([op], name, Lookup(functions, name))
  {
    assert [op][..0] == [];
  }

  lemma {:induction false} FirstOp(ops: seq<Op>, name: string, before: Option<nat>)
    requires ops != []
    ensures LastDefinition(ops, name, before) == LastDefinition(ops[1..], name, LastDefinition([ops[0]], name, before))
    decreases |ops|
  {
    if |ops| == 1 {
      assert ops == [ops[0]] && ops[1..] == [];
    } else {
      FirstOp(ops[..|ops| - 1], name, before);
      assert ops[..|ops| - 1][1..] == ops[1..][..|ops| - 2];
    }
  }

  lemma {:induction false} FirstPlaces(ops: seq<Op>, path: string, dir: string)
    requires ops != []
    ensures LastPath(ops, path) == LastPath(ops[1..], if ops[0].SetPath? then ops[0].value else path)
    ensures LastDir(ops, dir) == LastDir(ops[1..], if ops[0].ChangeDir? then ops[0].dir else dir)
    decreases |ops|
  {
    if |ops| == 1 {
      assert ops[..0] == [] && ops[1..] == [];
    } else {
      FirstPlaces(ops[..|ops| - 1], path, dir);
      assert ops[..|ops| - 1][1..] == ops[1..][..|ops| - 2];
    }
  }
}
