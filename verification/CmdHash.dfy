/**
 * src/exec.c: looking up a command, and the hash table that remembers what was found.
 *
 * The file system is fixed; only the working directory, PATH and the functions change.  The table
 * holds the shell's functions and caches builtins and PATH searches.
 */
module CommandHash {
  import opened Wrappers

  /** What stat answers. */
  datatype Stat = Regular | NotRegular | StatError(errno: nat)

  const ENOENT: nat := 2
  const EACCES: nat := 13
  const ENOTDIR: nat := 20

  const CMDTABLESIZE: nat := 31

  /** cmdtype with the part of the union it selects. */
  datatype What = Unknown | Normal(index: nat) | Builtin(code: nat, special: bool) | Function(body: nat)

  datatype Entry = Entry(name: string, what: What)

  datatype BuiltinRow = BuiltinRow(name: string, code: nat, special: bool)

  // ---- PATH ----

  /** The elements of a PATH value; an empty value has one empty element. */
  function Elements(path: string): (es: seq<string>)
    ensures es != []
  {
    if path == "" then [""]
    else if path[0] == ':' then [""] + Elements(path[1..])
    else
      var es := Elements(path[1..]);
      [[path[0]] + es[0]] + es[1..]
  }

  lemma NextElement(path: string, p: nat)
    requires p <= |path|
    ensures var es := Elements(path[p..]);
      if p == |path| then es == [""]
      else if path[p] == ':' then es[0] == "" && es[1..] == Elements(path[p + 1..])
      else es[0] == [path[p]] + Elements(path[p + 1..])[0] && es[1..] == Elements(path[p + 1..])[1..]
  {
    assert p < |path| ==> path[p..][1..] == path[p + 1..];
  }

  function FullName(element: string, name: string): string {
    if element == "" then name else element + "/" + name
  }

  predicate Absolute(file: string) {
    file != "" && file[0] == '/'
  }

  /** The files by absolute name, and by working directory and relative name. */
  datatype Files = Files(absolute: string -> Stat, relative: (string, string) -> Stat)
  {
    function Stat(cwd: string, file: string): Stat {
      if Absolute(file) then absolute(file) else relative(cwd, file)
    }
  }

  /** The outcome of a PATH search: the element, or the error to report. */
  datatype Search = Found(index: nat) | NotFound(errno: nat)

  /** The first element that holds a regular file, searching from element `i`. */
  function SearchFrom(files: Files, cwd: string, es: seq<string>, name: string, i: nat, e: nat): Search
    decreases |es| - i
  {
    if i >= |es| then NotFound(e)
    else
      match files.Stat(cwd, FullName(es[i], name))
      case Regular => Found(i)
      case NotRegular => SearchFrom(files, cwd, es, name, i + 1, EACCES)
      case StatError(errno) =>
        SearchFrom(files, cwd, es, name, i + 1, if errno == ENOENT || errno == ENOTDIR then e else errno)
  }

  function FindBuiltin(rows: seq<BuiltinRow>, name: string): Option<BuiltinRow> {
    if rows == [] then None
    else if rows[0].name == name then Some(rows[0])
    else FindBuiltin(rows[1..], name)
  }

  /** What the shell knows besides the cache. */
  datatype World = World(files: Files, builtins: seq<BuiltinRow>, path: string, cwd: string)

  datatype Resolution = Runs(what: What) | Missing(errno: nat)

  /** The builtin or program a name stands for. */
  function Outside(w: World, name: string): Resolution {
    match FindBuiltin(w.builtins, name)
    case Some(row) => Runs(Builtin(row.code, row.special))
    case None =>
      match SearchFrom(w.files, w.cwd, Elements(w.path), name, 0, ENOENT)
      case Found(i) => Runs(Normal(i))
      case NotFound(e) => Missing(e)
  }

  /** What an uncached search gives: functions first, then builtins, then PATH. */
  function Resolve(w: World, known: Option<nat>, name: string, noFunc: bool): Resolution {
    if '/' in name then Runs(Normal(0))
    else if known.Some? && !noFunc then Runs(Function(known.value))
    else Outside(w, name)
  }

  // ---- Independence of the working directory ----

  /** No element up to and including `i` is looked up relative to the working directory. */
  predicate Anchored(es: seq<string>, name: string, i: int) {
    forall k :: 0 <= k <= i && k < |es| ==> Absolute(FullName(es[k], name))
  }

  lemma {:induction false} FoundIsFirst(files: Files, cwd: string, es: seq<string>, name: string, i: nat, e: nat)
    requires SearchFrom(files, cwd, es, name, i, e).Found?
    ensures var at := SearchFrom(files, cwd, es, name, i, e).index;
      && i <= at < |es| && files.Stat(cwd, FullName(es[at], name)) == Regular
      && forall k :: i <= k < at ==> files.Stat(cwd, FullName(es[k], name)) != Regular
    decreases |es| - i
  {
    match files.Stat(cwd, FullName(es[i], name))
    case Regular =>
    case NotRegular => FoundIsFirst(files, cwd, es, name, i + 1, EACCES);
    case StatError(errno) =>
      FoundIsFirst(files, cwd, es, name, i + 1, if errno == ENOENT || errno == ENOTDIR then e else errno);
  }

  /** A search that met absolute elements only gives the same answer from every directory. */
  lemma {:induction false} AnchoredSearch(files: Files, cwd: string, cwd': string, es: seq<string>, name: string, i: nat, e: nat)
    requires SearchFrom(files, cwd, es, name, i, e).Found?
    requires Anchored(es, name, SearchFrom(files, cwd, es, name, i, e).index)
    ensures SearchFrom(files, cwd', es, name, i, e) == SearchFrom(files, cwd, es, name, i, e)
    decreases |es| - i
  {
    FoundIsFirst(files, cwd, es, name, i, e);
    assert Absolute(FullName(es[i], name));
    match files.Stat(cwd, FullName(es[i], name))
    case Regular =>
    case NotRegular => AnchoredSearch(files, cwd, cwd', es, name, i + 1, EACCES);
    case StatError(errno) =>
      AnchoredSearch(files, cwd, cwd', es, name, i + 1, if errno == ENOENT || errno == ENOTDIR then e else errno);
  }

  // ---- Hash chains ----

  function Byte(c: char): int {
    if c as int % 256 < 128 then c as int % 256 else c as int % 256 - 256
  }

  function Sum(name: string): int {
    if name == "" then 0 else Byte(name[0]) + Sum(name[1..])
  }

  /** hashname, with a signed char and a 32-bit unsigned sum. */
  function HashName(name: string): (h: nat)
    ensures h < CMDTABLESIZE
  {
    var first := if name == "" then 0 else name[0] as int % 256 * 16;
    (first + Sum(name)) % 0x1_0000_0000 % CMDTABLESIZE
  }

  /** The position of a name in a chain, or the chain's length. */
  function Position(chain: seq<Entry>, name: string): (i: nat)
    ensures i <= |chain|
    ensures i < |chain| ==> chain[i].name == name
    ensures forall k :: 0 <= k < i ==> chain[k].name != name
  {
    if chain == [] || chain[0].name == name then 0 else 1 + Position(chain[1..], name)
  }

  function Get(chain: seq<Entry>, name: string): Option<What> {
    var i := Position(chain, name);
    if i < |chain| then Some(chain[i].what) else None
  }

  predicate Distinct(chain: seq<Entry>) {
    forall i, j :: 0 <= i < j < |chain| ==> chain[i].name != chain[j].name
  }

  lemma GetAt(chain: seq<Entry>, i: nat)
    requires i < |chain| && Distinct(chain)
    ensures Position(chain, chain[i].name) == i
  {
  }

  /** Overwriting, removing and appending an entry change the answer for its name alone. */
  lemma GetAfterUpdate(chain: seq<Entry>, i: nat, what: What, n: string)
    requires i < |chain| && Distinct(chain)
    ensures var next := chain[i := Entry(chain[i].name, what)];
      Distinct(next) && Get(next, n) == if n == chain[i].name then Some(what) else Get(chain, n)
  {
    var next := chain[i := Entry(chain[i].name, what)];
    assert forall k :: 0 <= k < |chain| ==> next[k].name == chain[k].name;
    var p, q := Position(chain, n), Position(next, n);
    assert p == q;
  }

  lemma GetAfterDelete(chain: seq<Entry>, i: nat, n: string)
    requires i < |chain| && Distinct(chain)
    ensures var next := chain[..i] + chain[i + 1..];
      Distinct(next) && Get(next, n) == if n == chain[i].name then None else Get(chain, n)
  {
    var next := chain[..i] + chain[i + 1..];
    assert forall k :: 0 <= k < |next| ==> next[k] == chain[if k < i then k else k + 1];
    var p, q := Position(chain, n), Position(next, n);
    if n != chain[i].name && p < |chain| {
      assert next[if p < i then p else p - 1] == chain[p];
    }
  }

  lemma GetAfterAppend(chain: seq<Entry>, name: string, what: What, n: string)
    requires Distinct(chain) && Get(chain, name) == None
    ensures var next := chain + [Entry(name, what)];
      Distinct(next) && Get(next, n) == if n == name then Some(what) else Get(chain, n)
  {
    var next := chain + [Entry(name, what)];
    assert forall k :: 0 <= k < |chain| ==> next[k] == chain[k];
    var p, q := Position(chain, n), Position(next, n);
    assert next[|chain|].name == name;
  }

  // ---- When a table entry is right ----

  predicate Fits(w: World, cd: bool, n: string, entry: Option<What>) {
    match entry
    case None => true
    case Some(Function(_)) => true
    case Some(Unknown) => false
    case Some(Builtin(_, _)) => '/' !in n && Outside(w, n) == Runs(entry.value)
    case Some(Normal(i)) => '/' !in n && Outside(w, n) == Runs(entry.value) && (!cd ==> Anchored(Elements(w.path), n, i))
  }

  /** The bit suffices: while it is clear, a change of directory leaves every entry right. */
  lemma FitsElsewhere(w: World, cwd: string, n: string, entry: Option<What>)
    requires Fits(w, false, n, entry)
    ensures Fits(w.(cwd := cwd), false, n, entry)
  {
    match entry
    case Some(Normal(i)) =>
      FoundIsFirst(w.files, w.cwd, Elements(w.path), n, 0, ENOENT);
      AnchoredSearch(w.files, w.cwd, cwd, Elements(w.path), n, 0, ENOENT);
    case _ =>
  }

  /** The functions a table holds. */
  function AsFunction(entry: Option<What>): Option<nat> {
    if entry.Some? && entry.value.Function? then Some(entry.value.body) else None
  }

  function WithoutNormals(chain: seq<Entry>): seq<Entry> {
    if chain == [] then []
    else if chain[0].what.Normal? then WithoutNormals(chain[1..])
    else [chain[0]] + WithoutNormals(chain[1..])
  }

  lemma {:induction false} GetWithoutNormals(chain: seq<Entry>, n: string)
    requires Distinct(chain)
    ensures var next := WithoutNormals(chain);
      && Distinct(next)
      && (Get(chain, n) == None ==> Get(next, n) == None)
      && Get(next, n) == (if Get(chain, n).Some? && Get(chain, n).value.Normal? then None else Get(chain, n))
  {
    if chain != [] {
      var rest := chain[1..];
      assert forall i :: 0 <= i < |rest| ==> rest[i] == chain[i + 1];
      GetWithoutNormals(rest, n);
      GetWithoutNormals(rest, chain[0].name);
      var next := WithoutNormals(rest);
      GetOfMore(chain[0], rest, n);
      GetOfMore(chain[0], next, n);
      assert chain == [chain[0]] + rest;
    }
  }

  /** A chain with one more entry in front, of another name than all others. */
  lemma GetOfMore(e: Entry, rest: seq<Entry>, n: string)
    requires Distinct(rest) && Get(rest, e.name) == None
    ensures Distinct([e] + rest)
    ensures Get([e] + rest, n) == if n == e.name then Some(e.what) else Get(rest, n)
  {
    var all := [e] + rest;
    assert all[1..] == rest;
    assert forall i :: 0 <= i < |rest| ==> all[i + 1] == rest[i];
    assert Position(all, n) == if e.name == n then 0 else 1 + Position(rest, n);
    assert Position(rest, e.name) == |rest|;
  }

  class CommandTable {
    const files: Files
    const builtins: seq<BuiltinRow>
    const cmdtable: array<seq<Entry>>
    var cmdtableCd: bool
    var lastChain: nat
    var lastPosition: nat
    var path: string
    var cwd: string

    ghost predicate Valid()
      reads this, cmdtable
    {
      && cmdtable.Length == CMDTABLESIZE
      && '%' !in path
      && (forall b :: 0 <= b < CMDTABLESIZE ==> Distinct(cmdtable[b]))
      && (forall n :: Fits(Here(), cmdtableCd, n, Look(n)))
    }

    function Here(): World
      reads this
    {
      World(files, builtins, path, cwd)
    }

    /** The table's entry for a name. */
    function Look(n: string): Option<What>
      requires cmdtable.Length == CMDTABLESIZE
      reads cmdtable
    {
      Get(cmdtable[HashName(n)], n)
    }

    function FunctionOf(n: string): Option<nat>
      requires cmdtable.Length == CMDTABLESIZE
      reads cmdtable
    {
      AsFunction(Look(n))
    }

    /** Everything but the entry for `name` is as it was. */
    twostate predicate OnlyChanges(name: string, what: Option<What>)
      reads cmdtable
      requires cmdtable.Length == CMDTABLESIZE
    {
      && (forall b :: 0 <= b < CMDTABLESIZE ==> Distinct(cmdtable[b]))
      && (forall n :: Look(n) == if n == name then what else old(Look(n)))
    }

    /** cmdlookup; the result is whether an entry exists afterwards. */
    method CmdLookup(name: string, add: bool) returns (found: bool)
      requires cmdtable.Length == CMDTABLESIZE && forall b :: 0 <= b < CMDTABLESIZE ==> Distinct(cmdtable[b])
      modifies this`lastChain, this`lastPosition, cmdtable
      ensures found == (add || old(Look(name)).Some?)
      ensures lastChain == HashName(name) && lastPosition == Position(cmdtable[lastChain], name)
      ensures OnlyChanges(name, if add && old(Look(name)) == None then Some(Unknown) else old(Look(name)))
    {
      var h := HashName(name);
      var chain := cmdtable[h];
      var i := 0;
      while i < |chain| && chain[i].name != name
        invariant 0 <= i <= |chain|
        invariant forall k :: 0 <= k < i ==> chain[k].name != name
      {
        i := i + 1;
      }
      assert i == Position(chain, name);
      found := i < |chain|;
      if add && !found {
        cmdtable[h] := chain + [Entry(name, Unknown)];
        found := true;
        forall n
          ensures Distinct(cmdtable[h])
          ensures Get(cmdtable[h], n) == if n == name then Some(Unknown) else Get(chain, n)
        {
          GetAfterAppend(chain, name, Unknown, n);
        }
        GetAt(cmdtable[h], i);
      }
      lastChain, lastPosition := h, i;
    }

    /** The assignments to the fields of the entry looked up last. */
    method SetEntry(name: string, what: What)
      requires cmdtable.Length == CMDTABLESIZE && forall b :: 0 <= b < CMDTABLESIZE ==> Distinct(cmdtable[b])
      requires lastChain == HashName(name) && lastPosition == Position(cmdtable[lastChain], name) && Look(name).Some?
      modifies cmdtable
      ensures OnlyChanges(name, Some(what))
    {
      var chain := cmdtable[lastChain];
      cmdtable[lastChain] := chain[lastPosition := Entry(chain[lastPosition].name, what)];
      forall n
        ensures Distinct(cmdtable[lastChain])
        ensures Get(cmdtable[lastChain], n) == if n == name then Some(what) else Get(chain, n)
      {
        GetAfterUpdate(chain, lastPosition, what, n);
      }
    }

    method DeleteCmdEntry(ghost name: string)
      requires cmdtable.Length == CMDTABLESIZE && forall b :: 0 <= b < CMDTABLESIZE ==> Distinct(cmdtable[b])
      requires lastChain == HashName(name) && lastPosition == Position(cmdtable[lastChain], name) && Look(name).Some?
      modifies cmdtable
      ensures OnlyChanges(name, None)
    {
      var chain := cmdtable[lastChain];
      cmdtable[lastChain] := chain[..lastPosition] + chain[lastPosition + 1..];
      forall n
        ensures Distinct(cmdtable[lastChain])
        ensures Get(cmdtable[lastChain], n) == if n == name then None else Get(chain, n)
      {
        GetAfterDelete(chain, lastPosition, n);
      }
    }

    /** The inner loop of clearcmdentry. */
    method ClearChain(b: nat)
      requires b < cmdtable.Length
      modifies cmdtable
      ensures cmdtable[b] == WithoutNormals(old(cmdtable[b]))
      ensures forall k :: 0 <= k < cmdtable.Length && k != b ==> cmdtable[k] == old(cmdtable[k])
    {
      var i := 0;
      while i < |cmdtable[b]|
        invariant 0 <= i <= |cmdtable[b]|
        invariant WithoutNormals(old(cmdtable[b])) == cmdtable[b][..i] + WithoutNormals(cmdtable[b][i..])
        invariant forall k :: 0 <= k < cmdtable.Length && k != b ==> cmdtable[k] == old(cmdtable[k])
        decreases |cmdtable[b]| - i
      {
        ghost var chain := cmdtable[b];
        assert chain[i..][1..] == chain[i + 1..];
        if cmdtable[b][i].what.Normal? {
          cmdtable[b] := cmdtable[b][..i] + cmdtable[b][i + 1..];
          assert cmdtable[b][..i] == chain[..i] && cmdtable[b][i..] == chain[i + 1..];
        } else {
          assert chain[..i + 1] == chain[..i] + [chain[i]];
          i := i + 1;
        }
      }
      assert cmdtable[b][i..] == [];
    }

    method ClearCmdEntry()
      requires Valid()
      modifies this`cmdtableCd, cmdtable
      ensures Valid() && !cmdtableCd
      ensures forall n :: FunctionOf(n) == old(FunctionOf(n))
      ensures forall n :: Look(n).Some? ==> !Look(n).value.Normal?
    {
      hide Outside, WithoutNormals, Get, HashName;
      var b := 0;
      while b < CMDTABLESIZE
        invariant 0 <= b <= CMDTABLESIZE
        invariant forall k :: 0 <= k < b ==> cmdtable[k] == WithoutNormals(old(cmdtable[k]))
        invariant forall k :: b <= k < CMDTABLESIZE ==> cmdtable[k] == old(cmdtable[k])
      {
        ClearChain(b);
        b := b + 1;
      }
      cmdtableCd := false;
      forall k | 0 <= k < CMDTABLESIZE
        ensures Distinct(cmdtable[k])
      {
        GetWithoutNormals(old(cmdtable[k]), "");
      }
      forall k, n: string | 0 <= k < CMDTABLESIZE
        ensures var was := old(cmdtable[k]);
          Get(cmdtable[k], n) == if Get(was, n).Some? && Get(was, n).value.Normal? then None else Get(was, n)
      {
        GetWithoutNormals(old(cmdtable[k]), n);
      }
      forall n
        ensures Look(n) == if old(Look(n)).Some? && old(Look(n)).value.Normal? then None else old(Look(n))
      {
      }
    }

    /** padvance for a value without options: the next full name and the rest of the path. */
    method Padvance(rest: string, name: string, ghost es: seq<string>) returns (fullname: string, next: Option<string>)
      requires es == Elements(rest)
      ensures fullname == FullName(es[0], name)
      ensures es[1..] == if next.Some? then Elements(next.value) else []
      ensures next.Some? ==> |next.value| < |rest|
    {
      hide Elements;
      var p := 0;
      while p < |rest| && rest[p] != ':'
        invariant 0 <= p <= |rest|
        invariant es[0] == rest[..p] + Elements(rest[p..])[0]
        invariant es[1..] == Elements(rest[p..])[1..]
      {
        NextElement(rest, p);
        assert rest[..p + 1] == rest[..p] + [rest[p]];
        p := p + 1;
      }
      NextElement(rest, p);
      fullname := if p != 0 then rest[..p] + "/" + name else name;
      if p < |rest| {
        next := Some(rest[p + 1..]);
      } else {
        next := None;
      }
    }

    /** The loop of find_command over PATH; `cd` tells that a relative name was tried. */
    method SearchPath(name: string) returns (found: Search, cd: bool)
      ensures found == SearchFrom(files, cwd, Elements(path), name, 0, ENOENT)
      ensures found.Found? && !cd ==> Anchored(Elements(path), name, found.index)
    {
      hide Absolute;
      var e, idx := ENOENT, -1;
      cd := false;
      var rest := Some(path);
      ghost var es := Elements(path);
      while rest.Some?
        invariant -1 <= idx < |es|
        invariant es[idx + 1..] == if rest.Some? then Elements(rest.value) else []
        invariant SearchFrom(files, cwd, es, name, 0, ENOENT) == SearchFrom(files, cwd, es, name, idx + 1, e)
        invariant !cd ==> Anchored(es, name, idx)
        decreases if rest.Some? then |rest.value| + 1 else 0
      {
        var fullname;
        fullname, rest := Padvance(rest.value, name, es[idx + 1..]);
        assert es[idx + 1..][1..] == es[idx + 2..];
        idx := idx + 1;
        if !Absolute(fullname) {
          cd := true;
        }
        match files.Stat(cwd, fullname) {
          case StatError(errno) =>
            if errno != ENOENT && errno != ENOTDIR {
              e := errno;
            }
          case NotRegular =>
            e := EACCES;
          case Regular =>
            return Found(idx), cd;
        }
      }
      found := NotFound(e);
    }

    method FindBuiltinRow(name: string) returns (row: Option<BuiltinRow>)
      ensures row == FindBuiltin(builtins, name)
    {
      var i := 0;
      while i < |builtins|
        invariant 0 <= i <= |builtins|
        invariant FindBuiltin(builtins, name) == FindBuiltin(builtins[i..], name)
      {
        assert builtins[i..][1..] == builtins[i + 1..];
        if builtins[i].name == name {
          return Some(builtins[i]);
        }
        i := i + 1;
      }
      row := None;
    }

    /** Caches what was found, unless the name's entry is a function. */
    method Remember(name: string, what: What)
      requires Valid()
      requires '/' !in name && Outside(Here(), name) == Runs(what)
      requires what.Builtin? || (what.Normal? && (!cmdtableCd ==> Anchored(Elements(path), name, what.index)))
      modifies this`lastChain, this`lastPosition, cmdtable
      ensures Valid() && Look(name).Some? && forall n :: FunctionOf(n) == old(FunctionOf(n))
    {
      hide Outside, HashName, Distinct;
      var _ := CmdLookup(name, true);
      if cmdtable[lastChain][lastPosition].what.Function? {
        return;
      }
      SetEntry(name, what);
    }

    /** find_command with shmode off. */
    method FindCommand(name: string, noFunc: bool) returns (r: Resolution)
      requires Valid()
      modifies this`lastChain, this`lastPosition, this`cmdtableCd, cmdtable
      ensures Valid() && forall n :: FunctionOf(n) == old(FunctionOf(n))
      ensures r == Resolve(Here(), FunctionOf(name), name, noFunc)
      ensures '/' !in name && r.Runs? ==> Look(name).Some?
    {
      hide HashName, Distinct, Anchored, SearchFrom, Elements, FindBuiltin;
      if '/' in name {
        return Runs(Normal(0));
      }
      var found := CmdLookup(name, false);
      if found {
        var cmdp := cmdtable[lastChain][lastPosition];
        if !(cmdp.what.Function? && noFunc) {
          return Runs(cmdp.what);
        }
      }
      var row := FindBuiltinRow(name);
      if row.Some? {
        var what := Builtin(row.value.code, row.value.special);
        Remember(name, what);
        return Runs(what);
      }
      var search, cd := SearchPath(name);
      if search.NotFound? {
        return Missing(search.errno);
      }
      if cd {
        cmdtableCd := true;
      }
      Remember(name, Normal(search.index));
      r := Runs(Normal(search.index));
    }

    constructor (files: Files, builtins: seq<BuiltinRow>, path: string, cwd: string)
      requires '%' !in path
      ensures Valid() && Here() == World(files, builtins, path, cwd)
      ensures forall n :: FunctionOf(n) == None
      ensures fresh(cmdtable)
    {
      this.files, this.builtins, this.path, this.cwd := files, builtins, path, cwd;
      cmdtableCd, lastChain, lastPosition := false, 0, 0;
      cmdtable := new seq<Entry>[CMDTABLESIZE](_ => []);
    }

    /** addcmdentry as defun calls it. */
    method Defun(name: string, body: nat)
      requires Valid()
      modifies this`lastChain, this`lastPosition, cmdtable
      ensures Valid()
      ensures forall n :: FunctionOf(n) == if n == name then Some(body) else old(FunctionOf(n))
    {
      hide Outside, HashName, Distinct, Anchored;
      var _ := CmdLookup(name, true);
      SetEntry(name, Function(body));
    }

    method UnsetFunc(name: string)
      requires Valid()
      modifies this`lastChain, this`lastPosition, cmdtable
      ensures Valid()
      ensures forall n :: FunctionOf(n) == if n == name then None else old(FunctionOf(n))
    {
      hide Outside, HashName, Distinct, Anchored;
      var found := CmdLookup(name, false);
      if found && cmdtable[lastChain][lastPosition].what.Function? {
        DeleteCmdEntry(name);
      }
    }

    /** The working directory changes, then hashcd runs. */
    method Cd(dir: string)
      requires Valid()
      modifies this`cwd, this`cmdtableCd, cmdtable
      ensures Valid() && cwd == dir
      ensures forall n :: FunctionOf(n) == old(FunctionOf(n))
    {
      hide Outside, HashName, Distinct, Anchored;
      if cmdtableCd {
        ClearCmdEntry();
      }
      forall n
        ensures Fits(Here().(cwd := dir), false, n, Look(n))
      {
        FitsElsewhere(Here(), dir, n, Look(n));
      }
      cwd := dir;
    }

    /** changepath, then the assignment to PATH it announces. */
    method ChangePath(value: string)
      requires Valid() && '%' !in value
      modifies this`path, this`cmdtableCd, cmdtable
      ensures Valid() && path == value
      ensures forall n :: FunctionOf(n) == old(FunctionOf(n))
    {
      hide HashName, Distinct, Anchored;
      ClearCmdEntry();
      forall n
        ensures Fits(Here().(path := value), false, n, Look(n))
      {
      }
      path := value;
    }

    /** hash fails for a name that is not found, and with -v for one that is never in the table. */
    predicate HashFails(name: string, verbose: bool)
      requires cmdtable.Length == CMDTABLESIZE
      reads this, cmdtable
    {
      Resolve(Here(), FunctionOf(name), name, false).Missing? || (verbose && '/' in name && FunctionOf(name) == None)
    }

    /** hashcmd for one name: what the table knows of a program is forgotten first. */
    method HashOne(name: string, verbose: bool) returns (error: bool)
      requires Valid()
      modifies this`lastChain, this`lastPosition, this`cmdtableCd, cmdtable
      ensures Valid()
      ensures forall n :: FunctionOf(n) == old(FunctionOf(n))
      ensures error == HashFails(name, verbose)
    {
      hide Outside, HashName, Distinct, Anchored, Resolve;
      var found := CmdLookup(name, false);
      if found && cmdtable[lastChain][lastPosition].what.Normal? {
        DeleteCmdEntry(name);
      }
      var entry := FindCommand(name, false);
      error := entry.Missing?;
      assert Fits(Here(), cmdtableCd, name, Look(name));
      if !error && verbose {
        error := NotInTable(name);
      }
    }

    /** The second lookup of hash -v; the result is whether nothing was found. */
    method NotInTable(name: string) returns (missing: bool)
      requires Valid()
      modifies this`lastChain, this`lastPosition, cmdtable
      ensures Valid() && missing == Look(name).None? && Look(name) == old(Look(name))
      ensures forall n :: FunctionOf(n) == old(FunctionOf(n))
    {
      hide Fits, HashName, Distinct;
      var found := CmdLookup(name, false);
      missing := !found;
    }

    method HashCmd(reset: bool, verbose: bool, names: seq<string>) returns (errors: bool)
      requires Valid()
      modifies this`lastChain, this`lastPosition, this`cmdtableCd, cmdtable
      ensures Valid()
      ensures forall n :: FunctionOf(n) == old(FunctionOf(n))
      ensures errors <==> exists i :: 0 <= i < |names| && HashFails(names[i], verbose)
    {
      hide Outside, HashName, Distinct, Anchored, Resolve, Fits, Look;
      if reset {
        ClearCmdEntry();
      }
      errors := false;
      var i := 0;
      while i < |names|
        invariant 0 <= i <= |names| && Valid()
        invariant forall n :: FunctionOf(n) == old(FunctionOf(n))
        invariant errors <==> exists k :: 0 <= k < i && HashFails(names[k], verbose)
      {
        var error := HashOne(names[i], verbose);
        if error {
          errors := true;
        }
        i := i + 1;
      }
    }

    ghost predicate Has(functions: map<string, nat>)
      requires cmdtable.Length == CMDTABLESIZE
      reads this, cmdtable
    {
      forall n :: FunctionOf(n) == Lookup(functions, n)
    }

    /** One operation, against a shell whose functions are a map. */
    method Do(op: Op, ghost functions: map<string, nat>) returns (answer: seq<Resolution>)
      requires Valid() && Has(functions)
      requires op.SetPath? ==> '%' !in op.value
      modifies this, cmdtable
      ensures Valid() && Has(FunctionsAfter(functions, op))
      ensures Here() == WorldAfter(old(Here()), op) && answer == Answer(old(Here()), functions, op)
    {
      hide Outside, HashName, Distinct, Anchored, Resolve, Fits, Look;
      answer := [];
      match op {
        case Find(name, noFunc) =>
          var r := FindCommand(name, noFunc);
          answer := [r];
        case Define(name, body) => Defun(name, body);
        case Unset(name) => UnsetFunc(name);
        case ChangeDir(dir) => Cd(dir);
        case SetPath(value) => ChangePath(value);
        case Hash(reset, verbose, names) => var _ := HashCmd(reset, verbose, names);
      }
    }

    /** Any session of the shell: the answers are those of a shell without a table. */
    method Session(ops: seq<Op>, ghost functions: map<string, nat>) returns (answers: seq<Resolution>)
      requires Valid() && Has(functions)
      requires forall o :: o in ops && o.SetPath? ==> '%' !in o.value
      modifies this, cmdtable
      ensures Valid() && answers == Answers(old(Here()), functions, ops)
    {
      hide Answer, WorldAfter, FunctionsAfter, Has, Fits;
      answers := [];
      ghost var now := functions;
      var i := 0;
      while i < |ops|
        invariant 0 <= i <= |ops| && Valid() && Has(now)
        invariant Answers(old(Here()), functions, ops) == answers + Answers(Here(), now, ops[i..])
      {
        assert ops[i..][0] == ops[i] && ops[i..][1..] == ops[i + 1..];
        assert ops[i] in ops;
        var answer := Do(ops[i], now);
        answers := answers + answer;
        now := FunctionsAfter(now, ops[i]);
        i := i + 1;
      }
    }
  }

  datatype Op =
    | Find(name: string, noFunc: bool)
    | Define(name: string, body: nat)
    | Unset(name: string)
    | ChangeDir(dir: string)
    | SetPath(value: string)
    | Hash(reset: bool, verbose: bool, names: seq<string>)

  function Answer(w: World, functions: map<string, nat>, op: Op): seq<Resolution> {
    if op.Find? then [Resolve(w, Lookup(functions, op.name), op.name, op.noFunc)] else []
  }

  function WorldAfter(w: World, op: Op): World {
    match op
    case ChangeDir(dir) => w.(cwd := dir)
    case SetPath(value) => w.(path := value)
    case _ => w
  }

  function FunctionsAfter(functions: map<string, nat>, op: Op): map<string, nat> {
    match op
    case Define(name, body) => functions[name := body]
    case Unset(name) => functions - {name}
    case _ => functions
  }

  /** What finds answer when nothing is cached: the functions are a map and every find searches. */
  function Answers(w: World, functions: map<string, nat>, ops: seq<Op>): seq<Resolution>
    decreases |ops|
  {
    if ops == [] then []
    else Answer(w, functions, ops[0]) + Answers(WorldAfter(w, ops[0]), FunctionsAfter(functions, ops[0]), ops[1..])
  }

  function Lookup(functions: map<string, nat>, name: string): Option<nat> {
    if name in functions then Some(functions[name]) else None
  }
}
