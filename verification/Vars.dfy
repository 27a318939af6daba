/**
 * src/var.c: shell variables and the records that make them local to a function call.
 *
 * Texts and variable structures are addresses into memory, since the point of the flags is who may
 * free what: a record keeps the text a variable had, and a structure that a record refers to must
 * stay in the table.
 */
module Variables {
  import opened Wrappers

  datatype Flag = Export | ReadOnly | StrFixed | TextFixed | Unset | NoSet

  type Flags = set<Flag>

  datatype Var = Var(flags: Flags, nameLen: nat, text: nat)

  /** struct localvar; `text` is absent when there was no such variable. */
  datatype LocalVar =
    | SavedOptions(optval: string)
    | SavedVar(vp: nat, flags: Flags, text: Option<nat>)

  /** Texts by address, variable structures by address, and the hash table by name. */
  datatype Store = Store(memory: map<nat, string>, vars: map<nat, Var>, vartab: map<string, nat>)

  /** What a caller can see of a variable that is set. */
  datatype Shown = Shown(value: string, exported: bool, readOnly: bool)

  /** An error leaves the store as it is at that moment. */
  datatype Outcome = Ok(store: Store) | IsReadOnly(store: Store) | BadName(store: Store)

  function NameOf(text: string): (n: string)
    ensures '=' !in n && n <= text
    ensures |n| < |text| ==> text[|n|] == '='
  {
    if text == "" || text[0] == '=' then "" else [text[0]] + NameOf(text[1..])
  }

  predicate IsNameStart(c: char) {
    'a' <= c <= 'z' || 'A' <= c <= 'Z' || c == '_'
  }

  predicate IsName(n: string) {
    n != "" && IsNameStart(n[0]) && forall c :: c in n ==> IsNameStart(c) || '0' <= c <= '9'
  }

  /** The text of a variable named `n`. */
  predicate Named(text: string, n: string) {
    |n| < |text| && NameOf(text) == n
  }

  lemma {:induction false} NameOfJoined(n: string, value: string)
    requires '=' !in n
    ensures NameOf(n + "=" + value) == n && Named(n + "=" + value, n)
  {
    var t := n + "=" + value;
    if n != "" {
      assert t[1..] == n[1..] + "=" + value;
      NameOfJoined(n[1..], value);
    }
  }

  // ---- Looking at a store ----

  predicate Known(s: Store, n: string) {
    n in s.vartab && s.vartab[n] in s.vars
  }

  function FlagsOf(s: Store, n: string): Flags {
    if Known(s, n) then s.vars[s.vartab[n]].flags else {}
  }

  function TextOf(s: Store, n: string): Option<nat> {
    if Known(s, n) then Some(s.vars[s.vartab[n]].text) else None
  }

  function ValueIn(text: string, n: string): string {
    if |n| < |text| then text[|n| + 1..] else ""
  }

  function Show(s: Store, flags: Flags, text: Option<nat>, n: string): Option<Shown> {
    if Unset in flags || text == None || text.value !in s.memory then None
    else Some(Shown(ValueIn(s.memory[text.value], n), Export in flags, ReadOnly in flags))
  }

  /** lookupvar, with the flags of a variable that is set. */
  function View(s: Store, n: string): Option<Shown> {
    Show(s, FlagsOf(s, n), TextOf(s, n), n)
  }

  /** The name of the variable a structure stands for. */
  function NameAt(s: Store, v: nat): string {
    if v in s.vars && s.vars[v].text in s.memory then NameOf(s.memory[s.vars[v].text]) else ""
  }

  /** What popping a record brings back. */
  datatype Item = Options(optval: string) | Value(name: string, was: Option<Shown>)

  function ItemOf(s: Store, r: LocalVar): Item {
    match r
    case SavedOptions(optval) => Options(optval)
    case SavedVar(vp, flags, text) => Value(NameAt(s, vp), Show(s, flags, text, NameAt(s, vp)))
  }

  function Items(s: Store, rs: seq<LocalVar>): (items: seq<Item>)
    ensures |items| == |rs| && forall i :: 0 <= i < |rs| ==> items[i] == ItemOf(s, rs[i])
  {
    if rs == [] then [] else [ItemOf(s, rs[0])] + Items(s, rs[1..])
  }

  // ---- Who owns what ----

  predicate VarOk(s: Store, n: string) {
    n in s.vartab ==>
      var v := s.vartab[n];
      v in s.vars && s.vars[v].text in s.memory && Named(s.memory[s.vars[v].text], n) && s.vars[v].nameLen == |n|
  }

  /** A variable whose text may be freed shares it with no other variable. */
  predicate VarApart(s: Store, n: string, m: string) {
    Known(s, n) && Known(s, m) && n != m && TextFixed !in FlagsOf(s, n) ==> TextOf(s, n) != TextOf(s, m)
  }

  /** A variable whose text may be freed shares it with no record. */
  predicate RecordApart(s: Store, n: string, r: LocalVar) {
    Known(s, n) && r.SavedVar? && TextFixed !in FlagsOf(s, n) ==> r.text != TextOf(s, n)
  }

  /** The structure a record refers to is in the table and will not be freed; the saved text is there. */
  predicate Linked(s: Store, r: LocalVar) {
    r.SavedVar? ==>
      var n := NameAt(s, r.vp);
      && n in s.vartab && s.vartab[n] == r.vp && StrFixed in FlagsOf(s, n)
      && if r.text.None? then Unset in r.flags && StrFixed !in r.flags
         else r.text.value in s.memory && Named(s.memory[r.text.value], n)
  }

  /** A text that a record will hand back as free-able belongs to no other variable. */
  predicate Reserved(s: Store, r: LocalVar, m: string) {
    r.SavedVar? && r.text.Some? && TextFixed !in r.flags && Known(s, m) && s.vartab[m] != r.vp ==>
      TextOf(s, m) != r.text
  }

  /** `a` is newer than `b`. */
  predicate Stacked(a: LocalVar, b: LocalVar) {
    a.SavedVar? && b.SavedVar? ==>
      && (a.vp == b.vp ==> StrFixed in a.flags)
      && (a.text.Some? && (TextFixed !in a.flags || (a.vp != b.vp && TextFixed !in b.flags)) ==> a.text != b.text)
  }

  ghost predicate VarsSane(s: Store) {
    && (forall n :: VarOk(s, n))
    && (forall n, m :: VarApart(s, n, m))
  }

  ghost predicate RecordsSane(s: Store, rs: seq<LocalVar>) {
    && (forall i :: 0 <= i < |rs| ==> Linked(s, rs[i]))
    && (forall i, n :: 0 <= i < |rs| ==> RecordApart(s, n, rs[i]))
    && (forall i, n :: 0 <= i < |rs| ==> Reserved(s, rs[i], n))
    && (forall i, j :: 0 <= i < j < |rs| ==> Stacked(rs[i], rs[j]))
  }

  ghost predicate Sane(s: Store, rs: seq<LocalVar>) {
    VarsSane(s) && RecordsSane(s, rs)
  }

  // ---- The operations on a store ----

  function Release(memory: map<nat, string>, text: nat, flags: Flags): map<nat, string> {
    if TextFixed in flags then memory else memory - {text}
  }

  /** A variable gets another text; its own is freed unless the flags forbid it. */
  function Retext(s: Store, v: nat, flags: Flags, text: nat): Store
    requires v in s.vars
  {
    var was := s.vars[v];
    Store(Release(s.memory, was.text, was.flags), s.vars[v := Var(flags, was.nameLen, text)], s.vartab)
  }

  /** A text in newly allocated memory. */
  function Allocate(s: Store, text: string): (r: (Store, nat))
    ensures r.1 !in s.memory && r.0 == s.(memory := s.memory[r.1 := text])
  {
    var t := LowestNotIn(s.memory.Keys, 0);
    (s.(memory := s.memory[t := text]), t)
  }

  function Reflag(s: Store, v: nat, flags: Flags): Store
    requires v in s.vars
  {
    s.(vars := s.vars[v := s.vars[v].(flags := flags)])
  }

  /** The end of unsetvar: a structure that is not fixed goes, with its text. */
  function Remove(s: Store, n: string): Store
    requires Known(s, n)
  {
    var v := s.vars[s.vartab[n]];
    Store(Release(s.memory, v.text, v.flags), s.vars - {s.vartab[n]}, s.vartab - {n})
  }

  // ---- Each change of the store keeps the records' meaning ----

  ghost predicate Unreferenced(s: Store, rs: seq<LocalVar>, t: nat) {
    && (forall n :: TextOf(s, n) != Some(t))
    && (forall i :: 0 <= i < |rs| && rs[i].SavedVar? ==> rs[i].text != Some(t))
  }

  /** The same records mean the same, and every variable but `n` shows the same. */
  ghost predicate OnlyShows(s: Store, s': Store, rs: seq<LocalVar>, n: string) {
    && Sane(s', rs)
    && Items(s', rs) == Items(s, rs)
    && (forall m :: m != n ==> View(s', m) == View(s, m) && FlagsOf(s', m) == FlagsOf(s, m))
  }

  lemma AllocateKeeps(s: Store, rs: seq<LocalVar>, text: string)
    requires Sane(s, rs)
    ensures var r := Allocate(s, text);
      && Sane(r.0, rs) && Items(r.0, rs) == Items(s, rs) && Unreferenced(r.0, rs, r.1)
      && forall n :: View(r.0, n) == View(s, n) && FlagsOf(r.0, n) == FlagsOf(s, n)
  {
    var (s', t) := Allocate(s, text);
    forall n
      ensures VarOk(s', n) && TextOf(s', n) != Some(t) && View(s', n) == View(s, n)
    {
      assert VarOk(s, n);
    }
    forall i | 0 <= i < |rs|
      ensures Linked(s', rs[i]) && ItemOf(s', rs[i]) == ItemOf(s, rs[i])
      ensures rs[i].SavedVar? ==> rs[i].text != Some(t)
    {
      assert Linked(s, rs[i]);
      if rs[i].SavedVar? {
        assert VarOk(s, NameAt(s, rs[i].vp));
      }
    }
    forall n, m
      ensures VarApart(s', n, m)
    {
      assert VarApart(s, n, m);
    }
    forall i, n | 0 <= i < |rs|
      ensures RecordApart(s', n, rs[i]) && Reserved(s', rs[i], n)
    {
      assert RecordApart(s, n, rs[i]) && Reserved(s, rs[i], n);
    }
  }

  /** Variable `m` is the same in both stores, text and all. */
  predicate SameVar(s: Store, s': Store, m: string) {
    && (m in s.vartab <==> m in s'.vartab)
    && (Known(s, m) ==>
          && Known(s', m) && s'.vartab[m] == s.vartab[m]
          && s'.vars[s.vartab[m]] == s.vars[s.vartab[m]]
          && SameText(s, s', s.vars[s.vartab[m]].text))
  }

  predicate SameText(s: Store, s': Store, t: nat) {
    t in s.memory ==> t in s'.memory && s'.memory[t] == s.memory[t]
  }

  /** What a changed variable `n` owes to the other variables. */
  ghost predicate FitsVars(s: Store, n: string) {
    VarOk(s, n) && forall m :: VarApart(s, n, m) && VarApart(s, m, n)
  }

  /** What a changed variable `n` owes to a record. */
  predicate FitsRecord(s: Store, s': Store, n: string, r: LocalVar) {
    && RecordApart(s', n, r) && Reserved(s', r, n)
    && (r.SavedVar? && NameAt(s, r.vp) == n ==> n in s'.vartab && s'.vartab[n] == r.vp && StrFixed in FlagsOf(s', n))
    && (r.SavedVar? && r.text.Some? ==> SameText(s, s', r.text.value))
  }

  lemma TransferVar(s: Store, s': Store, m: string)
    requires VarOk(s, m) && SameVar(s, s', m)
    ensures VarOk(s', m) && View(s', m) == View(s, m) && FlagsOf(s', m) == FlagsOf(s, m) && TextOf(s', m) == TextOf(s, m)
  {
  }

  lemma TransferRecord(s: Store, s': Store, r: LocalVar, n: string)
    requires VarsSane(s) && Linked(s, r)
    requires forall m :: m != n ==> SameVar(s, s', m)
    requires VarOk(s', n) && FitsRecord(s, s', n, r)
    ensures Linked(s', r) && ItemOf(s', r) == ItemOf(s, r)
  {
    if r.SavedVar? {
      var k := NameAt(s, r.vp);
      assert VarOk(s, k) && (k != n ==> SameVar(s, s', k));
    }
  }

  /** A change of one variable that frees nothing still in use. */
  lemma Transfer(s: Store, s': Store, rs: seq<LocalVar>, n: string)
    requires Sane(s, rs)
    requires forall m :: m != n ==> SameVar(s, s', m)
    requires FitsVars(s', n)
    requires forall i :: 0 <= i < |rs| ==> FitsRecord(s, s', n, rs[i])
    ensures OnlyShows(s, s', rs, n)
  {
    hide Show, NameAt, Linked, ItemOf;
    forall m
      ensures VarOk(s', m)
      ensures m != n ==> View(s', m) == View(s, m) && FlagsOf(s', m) == FlagsOf(s, m) && TextOf(s', m) == TextOf(s, m)
    {
      assert VarOk(s, m);
      if m != n {
        TransferVar(s, s', m);
      }
    }
    forall a, b
      ensures VarApart(s', a, b)
    {
      assert VarApart(s, a, b);
      assert a != n ==> SameVar(s, s', a);
      assert b != n ==> SameVar(s, s', b);
      assert VarOk(s', a) && VarOk(s', b);
    }
    forall i | 0 <= i < |rs|
      ensures Linked(s', rs[i]) && ItemOf(s', rs[i]) == ItemOf(s, rs[i])
    {
      TransferRecord(s, s', rs[i], n);
    }
    forall i, m | 0 <= i < |rs|
      ensures RecordApart(s', m, rs[i]) && Reserved(s', rs[i], m)
    {
      assert RecordApart(s, m, rs[i]) && Reserved(s, rs[i], m) && FitsRecord(s, s', n, rs[i]);
      assert VarOk(s, m) && (m != n ==> SameVar(s, s', m));
    }
  }

  lemma DropKeeps(s: Store, rs: seq<LocalVar>, t: nat, flags: Flags, n: string)
    requires Sane(s, rs) && Unreferenced(s, rs, t)
    ensures var s' := s.(memory := Release(s.memory, t, flags));
      OnlyShows(s, s', rs, n) && View(s', n) == View(s, n) && FlagsOf(s', n) == FlagsOf(s, n)
  {
    var s' := s.(memory := Release(s.memory, t, flags));
    forall m
      ensures SameVar(s, s', m) && VarOk(s', m)
    {
      assert VarOk(s, m);
      assert TextOf(s, m) != Some(t);
    }
    forall a, b
      ensures VarApart(s', a, b)
    {
      assert VarApart(s, a, b);
    }
    forall i | 0 <= i < |rs|
      ensures FitsRecord(s, s', n, rs[i])
    {
      assert Linked(s, rs[i]) && RecordApart(s, n, rs[i]) && Reserved(s, rs[i], n);
    }
    Transfer(s, s', rs, n);
  }

  /** A known variable gets a text that no one else uses. */
  lemma RetextKeeps(s: Store, rs: seq<LocalVar>, n: string, flags: Flags, t: nat)
    requires Sane(s, rs) && n in s.vartab
    requires Unreferenced(s, rs, t) && t in s.memory && Named(s.memory[t], n)
    requires StrFixed in FlagsOf(s, n) ==> StrFixed in flags
    ensures VarOk(s, n)
    ensures var s' := Retext(s, s.vartab[n], flags, t);
      && OnlyShows(s, s', rs, n)
      && FlagsOf(s', n) == flags && View(s', n) == Show(s, flags, Some(t), n)
  {
    assert VarOk(s, n);
    var v := s.vartab[n];
    var s' := Retext(s, v, flags, t);
    var u := s.vars[v].text;
    assert TextOf(s, n) == Some(u);
    forall m | m != n
      ensures SameVar(s, s', m) && VarApart(s', n, m) && VarApart(s', m, n)
    {
      assert VarOk(s, m) && VarApart(s, n, m);
      assert TextOf(s, m) != Some(t);
    }
    forall i | 0 <= i < |rs|
      ensures FitsRecord(s, s', n, rs[i])
    {
      assert Linked(s, rs[i]) && RecordApart(s, n, rs[i]);
    }
    Transfer(s, s', rs, n);
  }

  lemma AddVarKeeps(s: Store, rs: seq<LocalVar>, n: string, flags: Flags, t: nat)
    requires Sane(s, rs) && n !in s.vartab
    requires Unreferenced(s, rs, t) && t in s.memory && Named(s.memory[t], n)
    ensures var v := LowestNotIn(s.vars.Keys, 0);
      var s' := Store(s.memory, s.vars[v := Var(flags, |n|, t)], s.vartab[n := v]);
      && OnlyShows(s, s', rs, n)
      && FlagsOf(s', n) == flags && View(s', n) == Show(s, flags, Some(t), n)
      && forall i :: 0 <= i < |rs| && rs[i].SavedVar? ==> rs[i].vp != v
  {
    var v := LowestNotIn(s.vars.Keys, 0);
    var s' := Store(s.memory, s.vars[v := Var(flags, |n|, t)], s.vartab[n := v]);
    forall m | m != n
      ensures SameVar(s, s', m) && VarApart(s', n, m) && VarApart(s', m, n)
    {
      assert VarOk(s, m);
      assert TextOf(s, m) != Some(t);
    }
    forall i | 0 <= i < |rs|
      ensures FitsRecord(s, s', n, rs[i]) && (rs[i].SavedVar? ==> rs[i].vp != v)
    {
      assert Linked(s, rs[i]);
      assert rs[i].SavedVar? ==> VarOk(s, NameAt(s, rs[i].vp));
    }
    Transfer(s, s', rs, n);
  }

  lemma ReflagKeeps(s: Store, rs: seq<LocalVar>, n: string, flags: Flags)
    requires Sane(s, rs) && n in s.vartab
    requires (FlagsOf(s, n) * {StrFixed, TextFixed}) <= flags
    ensures VarOk(s, n)
    ensures var s' := Reflag(s, s.vartab[n], flags);
      && OnlyShows(s, s', rs, n)
      && FlagsOf(s', n) == flags && TextOf(s', n) == TextOf(s, n) && View(s', n) == Show(s, flags, TextOf(s, n), n)
  {
    assert VarOk(s, n);
    var v := s.vartab[n];
    var s' := Reflag(s, v, flags);
    forall m | m != n
      ensures SameVar(s, s', m) && VarApart(s', n, m) && VarApart(s', m, n)
    {
      assert VarOk(s, m) && VarApart(s, n, m) && VarApart(s, m, n);
    }
    assert TextFixed in FlagsOf(s, n) ==> TextFixed in FlagsOf(s, n) * {StrFixed, TextFixed};
    assert StrFixed in FlagsOf(s, n) ==> StrFixed in FlagsOf(s, n) * {StrFixed, TextFixed};
    forall i | 0 <= i < |rs|
      ensures FitsRecord(s, s', n, rs[i])
    {
      assert Linked(s, rs[i]) && RecordApart(s, n, rs[i]) && Reserved(s, rs[i], n);
    }
    Transfer(s, s', rs, n);
  }

  lemma RemoveKeeps(s: Store, rs: seq<LocalVar>, n: string)
    requires Sane(s, rs) && n in s.vartab && StrFixed !in FlagsOf(s, n)
    ensures Known(s, n)
    ensures OnlyShows(s, Remove(s, n), rs, n) && View(Remove(s, n), n) == None
  {
    assert VarOk(s, n);
    var s' := Remove(s, n);
    assert TextOf(s, n) == Some(s.vars[s.vartab[n]].text);
    forall m | m != n
      ensures SameVar(s, s', m)
    {
      assert VarOk(s, m) && VarApart(s, n, m);
    }
    forall i | 0 <= i < |rs|
      ensures FitsRecord(s, s', n, rs[i])
    {
      assert Linked(s, rs[i]) && RecordApart(s, n, rs[i]);
    }
    Transfer(s, s', rs, n);
  }

  /** The record mklocal makes of a known variable. */
  lemma SaveKeeps(s: Store, rs: seq<LocalVar>, n: string)
    requires Sane(s, rs) && n in s.vartab
    ensures VarOk(s, n)
    ensures var v := s.vartab[n];
      var s' := Reflag(s, v, FlagsOf(s, n) + {StrFixed, TextFixed});
      var r := SavedVar(v, FlagsOf(s, n), TextOf(s, n));
      && Sane(s', [r] + rs) && Items(s', [r] + rs) == [Value(n, View(s, n))] + Items(s, rs)
      && (forall m :: View(s', m) == View(s, m))
  {
    assert VarOk(s, n);
    var v := s.vartab[n];
    var s' := Reflag(s, v, FlagsOf(s, n) + {StrFixed, TextFixed});
    var r := SavedVar(v, FlagsOf(s, n), TextOf(s, n));
    ReflagKeeps(s, rs, n, FlagsOf(s, n) + {StrFixed, TextFixed});
    var all := [r] + rs;
    forall i | 0 <= i < |rs|
      ensures Stacked(r, rs[i])
    {
      assert Linked(s, rs[i]) && RecordApart(s, n, rs[i]) && Reserved(s, rs[i], n);
    }
    forall m
      ensures RecordApart(s', m, r) && Reserved(s', r, m)
    {
      assert VarOk(s, m) && VarApart(s, n, m) && VarApart(s, m, n);
    }
    RecordsOfBoth(s', r, rs);
  }

  lemma RecordsOfBoth(s: Store, r: LocalVar, rs: seq<LocalVar>)
    requires Sane(s, rs) && Linked(s, r)
    requires forall m :: RecordApart(s, m, r) && Reserved(s, r, m)
    requires forall i :: 0 <= i < |rs| ==> Stacked(r, rs[i])
    ensures Sane(s, [r] + rs)
  {
    var all := [r] + rs;
    forall i, m | 0 <= i < |all|
      ensures Linked(s, all[i]) && RecordApart(s, m, all[i]) && Reserved(s, all[i], m)
    {
      if i > 0 {
        assert all[i] == rs[i - 1];
      }
    }
    forall i, j | 0 <= i < j < |all|
      ensures Stacked(all[i], all[j])
    {
      assert all[j] == rs[j - 1];
      assert i > 0 ==> all[i] == rs[i - 1];
    }
  }

  lemma RecordsOfTail(s: Store, rs: seq<LocalVar>)
    requires Sane(s, rs) && rs != []
    ensures Sane(s, rs[1..])
    ensures Items(s, rs) == [ItemOf(s, rs[0])] + Items(s, rs[1..])
    ensures forall i :: 0 <= i < |rs| - 1 ==> Stacked(rs[0], rs[1..][i])
  {
    forall i, j | 0 <= i < j < |rs| - 1
      ensures Stacked(rs[1..][i], rs[1..][j])
    {
      assert Stacked(rs[i + 1], rs[j + 1]);
    }
    assert forall i :: 0 <= i < |rs| - 1 ==> rs[1..][i] == rs[i + 1];
  }

  /** Handing a record's text back, in the branch of poplocalvars for a variable that existed. */
  lemma RestoreKeeps(s: Store, rs: seq<LocalVar>)
    requires Sane(s, rs) && rs != [] && rs[0].SavedVar? && rs[0].text.Some?
    ensures var r := rs[0];
      var n := NameAt(s, r.vp);
      && r.vp in s.vars
      && var s' := Retext(s, r.vp, r.flags, r.text.value);
         && OnlyShows(s, s', rs[1..], n)
         && FlagsOf(s', n) == r.flags && View(s', n) == Show(s, r.flags, r.text, n)
  {
    var r := rs[0];
    var n := NameAt(s, r.vp);
    assert Linked(s, r);
    assert VarOk(s, n);
    var s' := Retext(s, r.vp, r.flags, r.text.value);
    RecordsOfTail(s, rs);
    var u := s.vars[r.vp].text;
    assert TextOf(s, n) == Some(u) && RecordApart(s, n, r);
    forall m | m != n
      ensures SameVar(s, s', m) && VarApart(s', n, m) && VarApart(s', m, n)
    {
      assert VarOk(s, m) && VarApart(s, n, m) && Reserved(s, r, m) && RecordApart(s, m, r);
    }
    forall i | 0 <= i < |rs| - 1
      ensures FitsRecord(s, s', n, rs[1..][i])
    {
      assert rs[1..][i] == rs[i + 1];
      assert Linked(s, rs[i + 1]) && RecordApart(s, n, rs[i + 1]) && Stacked(r, rs[i + 1]);
    }
    Transfer(s, s', rs[1..], n);
  }

  // ---- The routines of var.c as functions of the store ----

  predicate TableOk(s: Store) {
    forall n :: n in s.vartab ==> VarOk(s, n)
  }

  /** setvareq with forcelocal clear, for the text at address `t`. */
  function SetVarEq(s: Store, t: nat, flags: Flags, aflag: bool): Outcome
    requires t in s.memory && TableOk(s)
  {
    var n := NameOf(s.memory[t]);
    var all := if aflag then flags + {Export} else flags;
    var dropped := s.(memory := Release(s.memory, t, all));
    if n in s.vartab then
      assert VarOk(s, n);
      var v := s.vartab[n];
      if ReadOnly in s.vars[v].flags then IsReadOnly(dropped)
      else if NoSet in all then Ok(dropped)
      else Ok(Retext(s, v, s.vars[v].flags - {TextFixed, Unset} + all, t))
    else if NoSet in all then Ok(dropped)
    else
      var v := LowestNotIn(s.vars.Keys, 0);
      Ok(Store(s.memory, s.vars[v := Var(all, |n|, t)], s.vartab[n := v]))
  }

  /** What a variable shows after an assignment of `value` with these flags. */
  function Assigned(s: Store, n: string, value: string, flags: Flags, aflag: bool): Option<Shown> {
    if Unset in flags then None
    else Some(Shown(value, aflag || Export in FlagsOf(s, n) + flags, ReadOnly in flags))
  }

  lemma SetVarEqKeeps(s: Store, rs: seq<LocalVar>, t: nat, flags: Flags, aflag: bool)
    requires Sane(s, rs) && Unreferenced(s, rs, t)
    requires t in s.memory && Named(s.memory[t], NameOf(s.memory[t]))
    ensures var n := NameOf(s.memory[t]);
      var o := SetVarEq(s, t, flags, aflag);
      && !o.BadName? && OnlyShows(s, o.store, rs, n)
      && (o.IsReadOnly? <==> ReadOnly in FlagsOf(s, n))
      && if o.IsReadOnly? || NoSet in flags
         then View(o.store, n) == View(s, n) && FlagsOf(o.store, n) == FlagsOf(s, n)
         else
           && n in o.store.vartab && View(o.store, n) == Assigned(s, n, ValueIn(s.memory[t], n), flags, aflag)
           && flags <= FlagsOf(o.store, n)
           && (n !in s.vartab ==> forall i :: 0 <= i < |rs| && rs[i].SavedVar? ==> rs[i].vp != o.store.vartab[n])
           && (n in s.vartab ==> o.store.vartab[n] == s.vartab[n])
  {
    hide OnlyShows, Sane, Unreferenced;
    var n := NameOf(s.memory[t]);
    var all := if aflag then flags + {Export} else flags;
    assert NoSet in all <==> NoSet in flags;
    SaneVar(s, rs, n);
    if n in s.vartab {
      if ReadOnly in FlagsOf(s, n) || NoSet in flags {
        DropKeeps(s, rs, t, all, n);
      } else {
        RetextKeeps(s, rs, n, FlagsOf(s, n) - {TextFixed, Unset} + all, t);
      }
    } else if NoSet in flags {
      DropKeeps(s, rs, t, all, n);
    } else {
      AddVarKeeps(s, rs, n, all, t);
    }
  }

  lemma SaneVar(s: Store, rs: seq<LocalVar>, n: string)
    requires Sane(s, rs)
    ensures VarOk(s, n) && TableOk(s)
  {
  }

  /** setvar; `val` is absent for a null pointer. */
  function SetVar(s: Store, arg: string, val: Option<string>, flags: Flags, aflag: bool): Outcome
    requires TableOk(s)
  {
    var n := NameOf(arg);
    if !IsName(n) then BadName(s)
    else
      var (s1, t) := Allocate(s, n + "=" + if val.Some? then val.value else "");
      assert forall m :: m in s1.vartab ==> VarOk(s, m);
      SetVarEq(s1, t, if val.Some? then flags else flags + {Unset}, aflag)
  }

  lemma SetVarKeeps(s: Store, rs: seq<LocalVar>, arg: string, val: Option<string>, flags: Flags, aflag: bool)
    requires Sane(s, rs) && NoSet !in flags && (val.None? || Unset !in flags)
    ensures TableOk(s)
    ensures var n := NameOf(arg);
      var o := SetVar(s, arg, val, flags, aflag);
      && OnlyShows(s, o.store, rs, n)
      && (o.BadName? <==> !IsName(n))
      && (o.IsReadOnly? <==> IsName(n) && ReadOnly in FlagsOf(s, n))
      && (!o.Ok? ==> View(o.store, n) == View(s, n) && FlagsOf(o.store, n) == FlagsOf(s, n))
      && (o.Ok? ==>
            && n in o.store.vartab && flags <= FlagsOf(o.store, n)
            && View(o.store, n) == (if val.Some? then Assigned(s, n, val.value, flags, aflag) else None)
            && (n !in s.vartab ==> forall i :: 0 <= i < |rs| && rs[i].SavedVar? ==> rs[i].vp != o.store.vartab[n])
            && (n in s.vartab ==> o.store.vartab[n] == s.vartab[n]))
  {
    hide Sane, Unreferenced, SetVarEq;
    SaneVar(s, rs, "");
    var n := NameOf(arg);
    if IsName(n) {
      var value := if val.Some? then val.value else "";
      var (s1, t) := Allocate(s, n + "=" + value);
      AllocateKeeps(s, rs, n + "=" + value);
      NameOfJoined(n, value);
      assert ValueIn(n + "=" + value, n) == value;
      SetVarEqKeeps(s1, rs, t, if val.Some? then flags else flags + {Unset}, aflag);
    } else {
      assert OnlyShows(s, s, rs, n);
    }
  }

  /** unsetvar; `arg` may be the variable's own text. */
  function UnsetVar(s: Store, arg: string, aflag: bool): Outcome
    requires TableOk(s)
  {
    var n := NameOf(arg);
    if n !in s.vartab then Ok(s)
    else
      assert VarOk(s, n);
      var v := s.vartab[n];
      if ReadOnly in s.vars[v].flags then IsReadOnly(s)
      else
        var o := if ValueIn(s.memory[s.vars[v].text], n) != "" then SetVar(s, arg, Some(""), {}, aflag) else Ok(s);
        if !o.Ok? || !Known(o.store, n) then o
        else
          var s1 := Reflag(o.store, o.store.vartab[n], FlagsOf(o.store, n) - {Export} + {Unset});
          if StrFixed in FlagsOf(s1, n) then Ok(s1) else Ok(Remove(s1, n))
  }

  /** The guard of the branch that fails: a value to clear under a name that setvar does not take. */
  predicate CannotClear(s: Store, n: string) {
    && Known(s, n) && s.vars[s.vartab[n]].text in s.memory
    && ValueIn(s.memory[s.vars[s.vartab[n]].text], n) != "" && !IsName(n)
  }

  lemma UnsetVarKeeps(s: Store, rs: seq<LocalVar>, arg: string, aflag: bool)
    requires Sane(s, rs)
    ensures TableOk(s)
    ensures var n := NameOf(arg);
      var o := UnsetVar(s, arg, aflag);
      && OnlyShows(s, o.store, rs, n)
      && (o.IsReadOnly? <==> ReadOnly in FlagsOf(s, n))
      && (o.BadName? <==> ReadOnly !in FlagsOf(s, n) && CannotClear(s, n))
      && (if o.Ok? then View(o.store, n) == None else View(o.store, n) == View(s, n))
  {
    hide Sane, OnlyShows;
    var n := NameOf(arg);
    SaneVar(s, rs, n);
    OnlyShowsSelf(s, rs, n);
    if n in s.vartab && ReadOnly !in FlagsOf(s, n) {
      SetVarKeeps(s, rs, arg, Some(""), {}, aflag);
      var o := if ValueIn(s.memory[s.vars[s.vartab[n]].text], n) != "" then SetVar(s, arg, Some(""), {}, aflag) else Ok(s);
      if o.Ok? {
        var flags := FlagsOf(o.store, n) - {Export} + {Unset};
        OnlyShowsIsSane(s, o.store, rs, n);
        ReflagKeeps(o.store, rs, n, flags);
        var s1 := Reflag(o.store, o.store.vartab[n], flags);
        OnlyShowsTwice(s, o.store, s1, rs, n);
        if StrFixed !in flags {
          OnlyShowsIsSane(s, s1, rs, n);
          RemoveKeeps(s1, rs, n);
          OnlyShowsTwice(s, s1, Remove(s1, n), rs, n);
        }
      }
    }
  }

  lemma OnlyShowsSelf(s: Store, rs: seq<LocalVar>, n: string)
    requires Sane(s, rs)
    ensures OnlyShows(s, s, rs, n)
  {
  }

  lemma OnlyShowsIsSane(s: Store, s': Store, rs: seq<LocalVar>, n: string)
    requires OnlyShows(s, s', rs, n)
    ensures Sane(s', rs)
  {
  }

  lemma OnlyShowsOthers(s: Store, s': Store, rs: seq<LocalVar>, n: string)
    requires OnlyShows(s, s', rs, n)
    ensures Items(s', rs) == Items(s, rs)
    ensures forall m :: m != n ==> View(s', m) == View(s, m) && FlagsOf(s', m) == FlagsOf(s, m)
  {
  }

  lemma OnlyShowsTwice(s: Store, s': Store, s'': Store, rs: seq<LocalVar>, n: string)
    requires OnlyShows(s, s', rs, n) && OnlyShows(s', s'', rs, n)
    ensures OnlyShows(s, s'', rs, n)
  {
  }

  // ---- Local variables ----

  datatype Made = Made(outcome: Outcome, record: LocalVar)

  /** mklocal for a name other than "-", up to linking the record. */
  function MkLocal(s: Store, arg: string, aflag: bool): Made
    requires TableOk(s)
  {
    var n := NameOf(arg);
    if n in s.vartab then
      assert VarOk(s, n);
      var v := s.vartab[n];
      var r := SavedVar(v, s.vars[v].flags, Some(s.vars[v].text));
      var s1 := Reflag(s, v, s.vars[v].flags + {StrFixed, TextFixed});
      if n == arg then Made(Ok(s1), r)
      else
        var (s2, t) := Allocate(s1, arg);
        assert forall m :: m in s2.vartab ==> VarOk(s, m);
        Made(SetVarEq(s2, t, {}, aflag), r)
    else
      var o := if n == arg then SetVar(s, arg, None, {StrFixed}, aflag)
               else
                 var (s1, t) := Allocate(s, arg);
                 assert forall m :: m in s1.vartab ==> VarOk(s, m);
                 SetVarEq(s1, t, {StrFixed}, aflag);
      Made(o, SavedVar(if n in o.store.vartab then o.store.vartab[n] else 0, {Unset}, None))
  }

  lemma NameOfWithValue(arg: string)
    requires NameOf(arg) != arg
    ensures Named(arg, NameOf(arg))
  {
  }

  lemma MkLocalOfKnown(s: Store, rs: seq<LocalVar>, arg: string, aflag: bool)
    requires Sane(s, rs) && NameOf(arg) in s.vartab
    ensures TableOk(s)
    ensures var n := NameOf(arg);
      var m := MkLocal(s, arg, aflag);
      && !m.outcome.BadName?
      && OnlyShows(s, m.outcome.store, rs, n)
      && (m.outcome.IsReadOnly? ==> View(m.outcome.store, n) == View(s, n))
      && (m.outcome.IsReadOnly? <==> arg != n && ReadOnly in FlagsOf(s, n))
      && (m.outcome.Ok? ==>
            && Sane(m.outcome.store, [m.record] + rs)
            && Items(m.outcome.store, [m.record] + rs) == [Value(n, View(s, n))] + Items(s, rs)
            && View(m.outcome.store, n) == if arg == n then View(s, n) else Assigned(s, n, ValueIn(arg, n), {}, aflag))
  {
    hide Sane;
    var n := NameOf(arg);
    SaneVar(s, rs, n);
    var v := s.vartab[n];
    var r := SavedVar(v, FlagsOf(s, n), TextOf(s, n));
    var s1 := Reflag(s, v, FlagsOf(s, n) + {StrFixed, TextFixed});
    ReflagKeeps(s, rs, n, FlagsOf(s, n) + {StrFixed, TextFixed});
    SaveKeeps(s, rs, n);
    if arg != n {
      var (s2, t) := Allocate(s1, arg);
      var all := [r] + rs;
      NameOfWithValue(arg);
      AllocateKeeps(s1, all, arg);
      AllocateKeeps(s1, rs, arg);
      SetVarEqKeeps(s2, all, t, {}, aflag);
      UnreferencedTail(s2, all, t);
      assert all[1..] == rs;
      SetVarEqKeeps(s2, rs, t, {}, aflag);
    }
  }

  lemma UnreferencedTail(s: Store, rs: seq<LocalVar>, t: nat)
    requires Unreferenced(s, rs, t) && rs != []
    ensures Unreferenced(s, rs[1..], t)
  {
  }

  lemma MkLocalOfNew(s: Store, rs: seq<LocalVar>, arg: string, aflag: bool)
    requires Sane(s, rs) && NameOf(arg) !in s.vartab
    ensures TableOk(s)
    ensures var n := NameOf(arg);
      var m := MkLocal(s, arg, aflag);
      && (m.outcome.BadName? <==> n == arg && !IsName(n)) && !m.outcome.IsReadOnly?
      && OnlyShows(s, m.outcome.store, rs, n)
      && (m.outcome.BadName? ==> View(m.outcome.store, n) == View(s, n))
      && (m.outcome.Ok? ==>
            && Sane(m.outcome.store, [m.record] + rs)
            && Items(m.outcome.store, [m.record] + rs) == [Value(n, View(s, n))] + Items(s, rs)
            && View(m.outcome.store, n) == if arg == n then None else Assigned(s, n, ValueIn(arg, n), {}, aflag))
  {
    hide Sane;
    var n := NameOf(arg);
    SaneVar(s, rs, n);
    assert FlagsOf(s, n) == {} && View(s, n) == None;
    var m := MkLocal(s, arg, aflag);
    if arg == n {
      SetVarKeeps(s, rs, arg, None, {StrFixed}, aflag);
    } else {
      var (s1, t) := Allocate(s, arg);
      NameOfWithValue(arg);
      AllocateKeeps(s, rs, arg);
      SetVarEqKeeps(s1, rs, t, {StrFixed}, aflag);
    }
    if m.outcome.Ok? {
      NewRecord(m.outcome.store, rs, n);
    }
  }

  /** The record of a variable that did not exist. */
  lemma NewRecord(s: Store, rs: seq<LocalVar>, n: string)
    requires Sane(s, rs) && n in s.vartab && StrFixed in FlagsOf(s, n)
    requires forall i :: 0 <= i < |rs| && rs[i].SavedVar? ==> rs[i].vp != s.vartab[n]
    ensures var r := SavedVar(s.vartab[n], {Unset}, None);
      Sane(s, [r] + rs) && Items(s, [r] + rs) == [Value(n, None)] + Items(s, rs)
  {
    assert VarOk(s, n);
    RecordsOfBoth(s, SavedVar(s.vartab[n], {Unset}, None), rs);
  }

  /** mklocal: a new record on top keeps what the variable showed. */
  lemma MkLocalKeeps(s: Store, rs: seq<LocalVar>, arg: string, aflag: bool)
    requires Sane(s, rs)
    ensures TableOk(s)
    ensures var n := NameOf(arg);
      var m := MkLocal(s, arg, aflag);
      && OnlyShows(s, m.outcome.store, rs, n)
      && (m.outcome.IsReadOnly? <==> arg != n && ReadOnly in FlagsOf(s, n))
      && (m.outcome.BadName? <==> n !in s.vartab && n == arg && !IsName(n))
      && (!m.outcome.Ok? ==> View(m.outcome.store, n) == View(s, n))
      && (m.outcome.Ok? ==>
            && Sane(m.outcome.store, [m.record] + rs)
            && Items(m.outcome.store, [m.record] + rs) == [Value(n, View(s, n))] + Items(s, rs)
            && View(m.outcome.store, n) == if arg == n then View(s, n) else Assigned(s, n, ValueIn(arg, n), {}, aflag))
  {
    hide Sane, OnlyShows;
    SaneVar(s, rs, NameOf(arg));
    if NameOf(arg) in s.vartab {
      MkLocalOfKnown(s, rs, arg, aflag);
    } else {
      assert View(s, NameOf(arg)) == None && FlagsOf(s, NameOf(arg)) == {};
      MkLocalOfNew(s, rs, arg, aflag);
    }
  }

  /** mklocal raises no error: an assignment meets no readonly variable, a bare new name is a name. */
  predicate MayBeLocal(s: Store, arg: string) {
    var n := NameOf(arg);
    if n in s.vartab then arg == n || ReadOnly !in FlagsOf(s, n) else arg != n || IsName(n)
  }

  lemma MkLocalShows(s: Store, rs: seq<LocalVar>, arg: string, aflag: bool)
    requires Sane(s, rs)
    ensures TableOk(s)
    ensures var n := NameOf(arg);
      var m := MkLocal(s, arg, aflag);
      var s' := m.outcome.store;
      && (m.outcome.Ok? <==> MayBeLocal(s, arg))
      && (forall k :: k != n ==> View(s', k) == View(s, k))
      && if m.outcome.Ok? then
           && Sane(s', [m.record] + rs)
           && Items(s', [m.record] + rs) == [Value(n, View(s, n))] + Items(s, rs)
           && View(s', n) == if arg == n then View(s, n) else Assigned(s, n, ValueIn(arg, n), {}, aflag)
         else Sane(s', rs) && Items(s', rs) == Items(s, rs) && View(s', n) == View(s, n)
  {
    hide Sane, OnlyShows, MkLocal, Assigned;
    MkLocalKeeps(s, rs, arg, aflag);
    OnlyShowsIsSane(s, MkLocal(s, arg, aflag).outcome.store, rs, NameOf(arg));
    OnlyShowsOthers(s, MkLocal(s, arg, aflag).outcome.store, rs, NameOf(arg));
  }

  /** Whether poplocalvars unsets the variable instead of giving its text back. */
  predicate WasUnset(r: LocalVar) {
    r.SavedVar? && Unset in r.flags && StrFixed !in r.flags
  }

  /** One turn of poplocalvars for a record of a variable. */
  function PopOne(s: Store, r: LocalVar, aflag: bool): Outcome
    requires r.SavedVar? && TableOk(s)
    requires r.vp in s.vars && s.vars[r.vp].text in s.memory && (r.text.None? ==> WasUnset(r))
  {
    if WasUnset(r) then
      var s1 := Reflag(s, r.vp, s.vars[r.vp].flags - {ReadOnly});
      assert forall m :: m in s1.vartab ==> VarOk(s, m);
      UnsetVar(s1, s.memory[s.vars[r.vp].text], aflag)
    else Ok(Retext(s, r.vp, r.flags, r.text.value))
  }

  /** Popping brings back what the record saved and touches nothing else, or stops with an error. */
  lemma PopOneKeeps(s: Store, rs: seq<LocalVar>, aflag: bool)
    requires Sane(s, rs) && rs != [] && rs[0].SavedVar?
    ensures var r := rs[0];
      var n := NameAt(s, r.vp);
      && TableOk(s) && r.vp in s.vars && s.vars[r.vp].text in s.memory && (r.text.None? ==> WasUnset(r))
      && var o := PopOne(s, r, aflag);
         && OnlyShows(s, o.store, rs[1..], n) && !o.IsReadOnly?
         && (o.BadName? <==> WasUnset(r) && CannotClear(s, n))
         && (o.Ok? ==> View(o.store, n) == ItemOf(s, r).was)
         && (o.Ok? && (Unset !in r.flags || StrFixed in r.flags) ==> FlagsOf(o.store, n) == r.flags)
  {
    var r := rs[0];
    var n := NameAt(s, r.vp);
    assert Linked(s, r) && VarOk(s, n);
    RecordsOfTail(s, rs);
    if WasUnset(r) {
      PopUnset(s, rs[1..], n, aflag);
    } else {
      RestoreKeeps(s, rs);
    }
  }

  lemma PopUnset(s: Store, rs: seq<LocalVar>, n: string, aflag: bool)
    requires Sane(s, rs) && n in s.vartab
    ensures VarOk(s, n) && TableOk(s)
    ensures var v := s.vartab[n];
      var s1 := Reflag(s, v, s.vars[v].flags - {ReadOnly});
      TableOk(s1) &&
      var o := UnsetVar(s1, s.memory[s.vars[v].text], aflag);
      && OnlyShows(s, o.store, rs, n) && !o.IsReadOnly?
      && (o.BadName? <==> CannotClear(s, n))
      && View(o.store, n) == if o.Ok? then None else Show(s, FlagsOf(s, n) - {ReadOnly}, TextOf(s, n), n)
  {
    hide Sane, OnlyShows;
    SaneVar(s, rs, n);
    var v := s.vartab[n];
    var s1 := Reflag(s, v, s.vars[v].flags - {ReadOnly});
    ReflagKeeps(s, rs, n, s.vars[v].flags - {ReadOnly});
    OnlyShowsIsSane(s, s1, rs, n);
    SaneVar(s1, rs, n);
    UnsetVarKeeps(s1, rs, s.memory[s.vars[v].text], aflag);
    OnlyShowsTwice(s, s1, UnsetVar(s1, s.memory[s.vars[v].text], aflag).store, rs, n);
  }

  /** The failing pop is real: `local 1x=5` makes a variable that unsetvar cannot clear. */
  lemma BadLocalNameStaysSet()
    ensures var s := Store(map[], map[], map[]);
      var m := MkLocal(s, "1x=5", false);
      && m.outcome.Ok? && m.record.SavedVar? && WasUnset(m.record)
      && TableOk(m.outcome.store) && m.record.vp in m.outcome.store.vars
      && m.outcome.store.vars[m.record.vp].text in m.outcome.store.memory
      && var o := PopOne(m.outcome.store, m.record, false);
         o.BadName? && View(s, "1x") == None && View(o.store, "1x") == Some(Shown("5", false, false))
  {
    hide MkLocal, PopOne, Sane;
    var s := Store(map[], map[], map[]);
    var arg := "1x=5";
    assert arg == "1x" + "=" + "5";
    NameOfJoined("1x", "5");
    assert !IsName("1x");
    EmptyIsSane();
    MkLocalKeeps(s, [], arg, false);
    RecordOfNew(s, arg, false);
    var m := MkLocal(s, arg, false);
    assert [m.record] + [] == [m.record];
    StuckPop(m.outcome.store, m.record, "1x");
  }

  lemma EmptyIsSane()
    ensures Sane(Store(map[], map[], map[]), [])
  {
  }

  lemma RecordOfNew(s: Store, arg: string, aflag: bool)
    requires TableOk(s) && NameOf(arg) !in s.vartab
    ensures var m := MkLocal(s, arg, aflag); m.record.SavedVar? && WasUnset(m.record)
  {
    hide SetVar, SetVarEq;
  }

  /** A variable whose value cannot be cleared keeps it when its record is popped. */
  lemma StuckPop(s: Store, r: LocalVar, n: string)
    requires Sane(s, [r]) && r.SavedVar? && WasUnset(r)
    requires !IsName(n) && View(s, n).Some? && View(s, n).value.value != "" && Items(s, [r]) == [Value(n, None)]
    ensures TableOk(s) && r.vp in s.vars && s.vars[r.vp].text in s.memory
    ensures var o := PopOne(s, r, false); o.BadName? && View(o.store, n) == Some(View(s, n).value.(readOnly := false))
  {
    hide Sane, OnlyShows;
    assert ItemOf(s, [r][0]) == Value(n, None);
    assert NameAt(s, r.vp) == n;
    PopOneKeeps(s, [r], false);
    SaneVar(s, [r], n);
    SaneRecord(s, [r]);
    PopUnset(s, [], n, false);
    assert [r][1..] == [];
  }

  // ---- Scopes ----

  /** What variable `n` shows once the items are popped, when it shows `now` before. */
  function Undone(items: seq<Item>, n: string, now: Option<Shown>): Option<Shown> {
    if items == [] then now
    else Undone(items[1..], n, if items[0].Value? && items[0].name == n then items[0].was else now)
  }

  predicate IsLocal(items: seq<Item>, n: string) {
    exists i :: 0 <= i < |items| && items[i].Value? && items[i].name == n
  }

  /** However often a name was made local, popping gives what it showed before the first time. */
  lemma {:induction false} UndoneIsOldest(items: seq<Item>, n: string, now: Option<Shown>, k: nat)
    requires k < |items| && items[k].Value? && items[k].name == n
    requires forall i :: k < i < |items| && items[i].Value? ==> items[i].name != n
    ensures Undone(items, n, now) == items[k].was
  {
    if k == 0 {
      UndoneOfOthers(items[1..], n, items[0].was);
    } else {
      UndoneIsOldest(items[1..], n, if items[0].Value? && items[0].name == n then items[0].was else now, k - 1);
    }
  }

  lemma {:induction false} UndoneOfOthers(items: seq<Item>, n: string, now: Option<Shown>)
    requires !IsLocal(items, n)
    ensures Undone(items, n, now) == now
  {
    if items != [] {
      assert items[0].Value? ==> items[0].name != n;
      assert forall i :: 0 <= i < |items| - 1 ==> items[1..][i] == items[i + 1];
      UndoneOfOthers(items[1..], n, now);
    }
  }

  lemma UndoneOfLocal(items: seq<Item>, n: string, a: Option<Shown>, b: Option<Shown>)
    requires IsLocal(items, n)
    ensures Undone(items, n, a) == Undone(items, n, b)
    decreases |items|
  {
    if !(items[0].Value? && items[0].name == n) {
      var i :| 0 <= i < |items| && items[i].Value? && items[i].name == n;
      assert items[1..][i - 1] == items[i];
      UndoneOfLocal(items[1..], n, a, b);
    }
  }

  /** What export and readonly set. */
  type MarkFlag = f: Flag | f == Export || f == ReadOnly witness Export

  type Marks = s: Flags | s <= {Export, ReadOnly} witness {}

  /** What a function body does to variables. */
  datatype Op =
    | Assign(name: string, value: string, marks: Marks)
    | Forget(name: string)
    | Mark(name: string, flag: MarkFlag)
    | Local(arg: string)
    | LocalOptions
    | SetOptions(optval: string)
    | Call(args: seq<string>, body: seq<Op>)

  predicate Among(args: seq<string>, n: string) {
    exists i :: 0 <= i < |args| && NameOf(args[i]) == n
  }

  /** The operation leaves `n` as it is: it does not touch it, or is a call that makes it local first. */
  predicate Returns(op: Op, n: string) {
    match op
    case Assign(name, _, _) => NameOf(name) != n
    case Forget(name) => NameOf(name) != n
    case Mark(name, _) => NameOf(name) != n
    case Local(arg) => NameOf(arg) != n
    case Call(args, body) => Among(args, n) || Shielded(body, n)
    case _ => true
  }

  /** The first operation that touches `n`, if any, makes it local. */
  predicate Shielded(body: seq<Op>, n: string) {
    body == [] ||
    (body[0].Local? && NameOf(body[0].arg) == n) ||
    (Returns(body[0], n) && Shielded(body[1..], n))
  }

  // ---- What a call does, as a function ----

  /** The store, the records of the running call, the options, and whether there was no error. */
  datatype Calling = Calling(s: Store, locals: seq<LocalVar>, optval: string, aflag: bool, ok: bool)

  /** assignment, unset, and export or readonly */
  function DoneOne(s: Store, op: Op, aflag: bool): Outcome
    requires TableOk(s) && (op.Assign? || op.Forget? || op.Mark?)
  {
    match op
    case Assign(name, value, marks) => SetVar(s, name, Some(value), marks, aflag)
    case Forget(name) => UnsetVar(s, name, aflag)
    case Mark(name, flag) =>
      var n := NameOf(name);
      if n in s.vartab then
        assert VarOk(s, n);
        Ok(Reflag(s, s.vartab[n], FlagsOf(s, n) + {flag}))
      else SetVar(s, name, None, {flag}, aflag)
  }

  /** local */
  ghost function Localized(c: Calling, arg: string): Calling {
    if arg == "-" then c.(locals := [SavedOptions(c.optval)] + c.locals)
    else if !TableOk(c.s) then c
    else
      var m := MkLocal(c.s, arg, c.aflag);
      c.(s := m.outcome.store, locals := if m.outcome.Ok? then [m.record] + c.locals else c.locals, ok := m.outcome.Ok?)
  }

  ghost function LocalizedAll(c: Calling, args: seq<string>): Calling
    decreases args
  {
    if args == [] || !c.ok then c else LocalizedAll(Localized(c, args[0]), args[1..])
  }

  ghost function Exec(c: Calling, op: Op): Calling
    decreases op, 0
  {
    if !TableOk(c.s) then c
    else
      match op
      case Local(arg) => Localized(c, arg)
      case LocalOptions => Localized(c, "-")
      case SetOptions(optval) => c.(optval := optval)
      case Call(args, body) => Called(c, args, body)
      case _ => var o := DoneOne(c.s, op, c.aflag); c.(s := o.store, ok := o.Ok?)
  }

  ghost function ExecAll(c: Calling, body: seq<Op>): Calling
    decreases body, 0
  {
    if body == [] || !c.ok then c else ExecAll(Exec(c, body[0]), body[1..])
  }

  /** The prefix assignments and the body, beginning with no records, up to the first error. */
  ghost function BodyEnd(c: Calling, args: seq<string>, body: seq<Op>): Calling
    decreases body, 1
  {
    ExecAll(LocalizedAll(c.(locals := []), args), body)
  }

  /** After the body all records are popped. */
  ghost function Called(c: Calling, args: seq<string>, body: seq<Op>): Calling
    decreases body, 2
  {
    var end := BodyEnd(c, args, body);
    Calling(AllTurns(end.s, end.locals, end.aflag), c.locals, OptionsAfter(end.locals, end.optval), end.aflag,
            end.ok && !AnyStuck(end.s, end.locals, end.aflag))
  }

  /** The store after all turns of poplocalvars. */
  ghost function AllTurns(s: Store, records: seq<LocalVar>, aflag: bool): Store
    decreases |records|
  {
    if records == [] then s else AllTurns(Turn(s, records[0], aflag), records[1..], aflag)
  }

  function OptionsAfter(records: seq<LocalVar>, now: string): string
    decreases |records|
  {
    if records == [] then now
    else OptionsAfter(records[1..], if records[0].SavedOptions? then records[0].optval else now)
  }

  class Shell {
    var memory: map<nat, string>
    var vars: map<nat, Var>
    var vartab: map<string, nat>
    var localvars: seq<LocalVar>
    var optval: string
    var aflag: bool

    function S(): Store
      reads this
    {
      Store(memory, vars, vartab)
    }

    /** `outer` are the records of the calls that are still running. */
    ghost predicate Valid(outer: seq<LocalVar>)
      reads this
    {
      Sane(S(), localvars + outer)
    }

    ghost function Saved(outer: seq<LocalVar>): seq<Item>
      reads this
    {
      Items(S(), localvars + outer)
    }

    /** All that a call can see and change. */
    ghost function Now(ok: bool): Calling
      reads this
    {
      Calling(S(), localvars, optval, aflag, ok)
    }

    /** savestr */
    method SaveStr(text: string) returns (t: nat)
      modifies this`memory
      ensures (S(), t) == Allocate(old(S()), text)
    {
      t := LowestNotIn(memory.Keys, 0);
      memory := memory[t := text];
    }

    method CkFree(t: nat)
      requires t in memory
      modifies this`memory
      ensures memory == old(memory) - {t}
    {
      memory := memory - {t};
    }

    method SetVarEqText(t: nat, flags: Flags, ghost outer: seq<LocalVar>) returns (o: Outcome)
      requires Valid(outer) && Unreferenced(S(), localvars + outer, t)
      requires t in memory && Named(memory[t], NameOf(memory[t]))
      modifies this`memory, this`vars, this`vartab
      ensures TableOk(old(S())) && o == SetVarEq(old(S()), t, flags, aflag) && o.store == S()
    {
      SaneVar(S(), localvars + outer, NameOf(memory[t]));
      var all := if aflag then flags + {Export} else flags;
      var n := NameOf(memory[t]);
      if n in vartab {
        var vp := vartab[n];
        if ReadOnly in vars[vp].flags {
          if TextFixed !in all {
            CkFree(t);
          }
          return IsReadOnly(S());
        }
        if NoSet in all {
          if TextFixed !in all {
            CkFree(t);
          }
          return Ok(S());
        }
        if TextFixed !in vars[vp].flags {
          CkFree(vars[vp].text);
        }
        vars := vars[vp := Var(vars[vp].flags - {TextFixed, Unset} + all, vars[vp].nameLen, t)];
        return Ok(S());
      }
      if NoSet in all {
        if TextFixed !in all {
          CkFree(t);
        }
        return Ok(S());
      }
      var vp := LowestNotIn(vars.Keys, 0);
      vars := vars[vp := Var(all, |n|, t)];
      vartab := vartab[n := vp];
      o := Ok(S());
    }

    method SetVarNamed(arg: string, val: Option<string>, flags: Flags, ghost outer: seq<LocalVar>) returns (o: Outcome)
      requires Valid(outer)
      modifies this`memory, this`vars, this`vartab
      ensures TableOk(old(S())) && o == SetVar(old(S()), arg, val, flags, aflag) && o.store == S()
    {
      hide OnlyShows, Sane, Unreferenced;
      ghost var rs := localvars + outer;
      SaneVar(S(), rs, "");
      var n := NameOf(arg);
      if !IsName(n) {
        return BadName(S());
      }
      var text := n + "=" + if val.Some? then val.value else "";
      AllocateKeeps(S(), rs, text);
      NameOfJoined(n, if val.Some? then val.value else "");
      var t := SaveStr(text);
      o := SetVarEqText(t, if val.Some? then flags else flags + {Unset}, outer);
    }

    method UnsetVarNamed(arg: string, ghost outer: seq<LocalVar>) returns (o: Outcome)
      requires Valid(outer)
      modifies this`memory, this`vars, this`vartab
      ensures TableOk(old(S())) && o == UnsetVar(old(S()), arg, aflag) && o.store == S()
    {
      hide OnlyShows, Sane, View, Items, SetVar;
      ghost var rs := localvars + outer;
      var n := NameOf(arg);
      SaneVar(S(), rs, n);
      if n !in vartab {
        return Ok(S());
      }
      var vp := vartab[n];
      if ReadOnly in vars[vp].flags {
        return IsReadOnly(S());
      }
      if ValueIn(memory[vars[vp].text], n) != "" {
        SetVarKeeps(S(), rs, arg, Some(""), {}, aflag);
        o := SetVarNamed(arg, Some(""), {}, outer);
        OnlyShowsIsSane(old(S()), S(), rs, n);
        SaneVar(S(), rs, n);
        if !o.Ok? {
          return;
        }
      }
      var flags := vars[vp].flags - {Export} + {Unset};
      vars := vars[vp := vars[vp].(flags := flags)];
      if StrFixed !in flags {
        if TextFixed !in flags {
          CkFree(vars[vp].text);
        }
        vartab := vartab - {n};
        vars := vars - {vp};
      }
      o := Ok(S());
    }

    /** mklocal for a variable, up to linking the record. */
    method SaveVar(arg: string, ghost outer: seq<LocalVar>) returns (o: Outcome, r: LocalVar)
      requires Valid(outer)
      modifies this`memory, this`vars, this`vartab
      ensures TableOk(old(S())) && Made(o, r) == MkLocal(old(S()), arg, aflag) && o.store == S()
    {
      hide OnlyShows, Sane, Unreferenced;
      ghost var rs := localvars + outer;
      var n := NameOf(arg);
      SaneVar(S(), rs, n);
      if n !in vartab {
        if n != arg {
          AllocateKeeps(S(), rs, arg);
          NameOfWithValue(arg);
          var t := SaveStr(arg);
          o := SetVarEqText(t, {StrFixed}, outer);
        } else {
          o := SetVarNamed(arg, None, {StrFixed}, outer);
        }
        r := SavedVar(if n in vartab then vartab[n] else 0, {Unset}, None);
        return;
      }
      var vp := vartab[n];
      r := SavedVar(vp, vars[vp].flags, Some(vars[vp].text));
      ReflagKeeps(S(), rs, n, vars[vp].flags + {StrFixed, TextFixed});
      vars := vars[vp := vars[vp].(flags := vars[vp].flags + {StrFixed, TextFixed})];
      o := Ok(S());
      if n != arg {
        OnlyShowsIsSane(old(S()), S(), rs, n);
        AllocateKeeps(S(), rs, arg);
        NameOfWithValue(arg);
        var t := SaveStr(arg);
        o := SetVarEqText(t, {}, outer);
      }
    }

    /** mklocal */
    method MakeLocal(arg: string, ghost outer: seq<LocalVar>) returns (ok: bool)
      requires Valid(outer)
      modifies this`memory, this`vars, this`vartab, this`localvars
      ensures Valid(outer)
      ensures arg == "-" ==> ok && localvars == [SavedOptions(optval)] + old(localvars) && S() == old(S())
      ensures arg == "-" ==> Saved(outer) == [Options(optval)] + old(Saved(outer))
      ensures arg != "-" ==>
        var n := NameOf(arg);
        && (ok <==> old(MayBeLocal(S(), arg)))
        && (forall m :: m != n ==> View(S(), m) == old(View(S(), m)))
        && (if ok then Saved(outer) == [Value(n, old(View(S(), n)))] + old(Saved(outer))
            else localvars == old(localvars) && Saved(outer) == old(Saved(outer)) && View(S(), n) == old(View(S(), n)))
      ensures Now(ok) == Localized(old(Now(true)), arg)
      ensures ok ==> |localvars| == |old(localvars)| + 1 && localvars[1..] == old(localvars)
      ensures ok && arg != "-" && arg != NameOf(arg) ==>
        View(S(), NameOf(arg)) == old(Assigned(S(), NameOf(arg), ValueIn(arg, NameOf(arg)), {}, aflag))
    {
      hide OnlyShows, Sane, MkLocal, Assigned, View, FlagsOf, MayBeLocal, Items;
      ghost var rs := localvars + outer;
      if arg == "-" {
        localvars := [SavedOptions(optval)] + localvars;
        assert localvars + outer == [SavedOptions(optval)] + rs;
        OptionsRecord(S(), optval, rs);
        return true;
      }
      ghost var n := NameOf(arg);
      SaneVar(S(), rs, n);
      MkLocalShows(S(), rs, arg, aflag);
      var o, r := SaveVar(arg, outer);
      if !o.Ok? {
        return false;
      }
      localvars := [r] + localvars;
      assert localvars + outer == [r] + rs;
      ok := true;
    }

    /** One turn of poplocalvars for a record of a variable. */
    method PopVar(r: LocalVar, ghost outer: seq<LocalVar>) returns (o: Outcome)
      requires r.SavedVar? && Sane(S(), [r] + (localvars + outer))
      modifies this`memory, this`vars, this`vartab
      ensures TableOk(old(S())) && r.vp in old(vars) && old(vars[r.vp].text in memory) && (r.text.None? ==> WasUnset(r))
      ensures o == PopOne(old(S()), r, aflag) && o.store == S()
    {
      hide Sane, OnlyShows, View, Items, UnsetVar;
      ghost var rs := localvars + outer;
      ghost var n := NameAt(S(), r.vp);
      assert ([r] + rs)[0] == r && ([r] + rs)[1..] == rs;
      PopOneKeeps(S(), [r] + rs, aflag);
      SaneRecord(S(), [r] + rs);
      if WasUnset(r) {
        PopUnsetReflags(S(), rs, n);
        vars := vars[r.vp := vars[r.vp].(flags := vars[r.vp].flags - {ReadOnly})];
        assert S() == Reflag(old(S()), r.vp, old(vars[r.vp].flags) - {ReadOnly});
        o := UnsetVarNamed(memory[vars[r.vp].text], outer);
      } else {
        var vp := vars[r.vp];
        if TextFixed !in vp.flags {
          CkFree(vp.text);
        }
        vars := vars[r.vp := Var(r.flags, vp.nameLen, r.text.value)];
        o := Ok(S());
      }
    }

    /** One turn of poplocalvars; it fails at a variable that cannot be cleared. */
    method PopRecord(ghost outer: seq<LocalVar>) returns (ok: bool)
      requires Valid(outer) && localvars != []
      modifies this`memory, this`vars, this`vartab, this`localvars, this`optval
      ensures Valid(outer) && localvars == old(localvars)[1..]
      ensures Saved(outer) == old(Saved(outer))[1..]
      ensures S() == Turn(old(S()), old(localvars)[0], aflag) && (ok <==> !Stuck(old(S()), old(localvars)[0]))
      ensures var r := old(localvars)[0]; optval == if r.SavedOptions? then r.optval else old(optval)
      ensures var item := old(Saved(outer))[0];
        && (ok ==> optval == UndoneOptions([item], old(optval)))
        && (forall n :: ok || IsName(n) ==> View(S(), n) == Undone([item], n, old(View(S(), n))))
        && (forall n :: (item.Value? && item.name == n) || View(S(), n) == old(View(S(), n)))
    {
      hide Sane, OnlyShows, View, PopOne, Items;
      var lvp := localvars[0];
      ghost var s, rs := S(), localvars + outer;
      RecordsOfTail(s, rs);
      localvars := localvars[1..];
      assert rs == [lvp] + (localvars + outer) && rs[1..] == localvars + outer;
      ghost var item := ItemOf(s, lvp);
      assert [item][1..] == [];
      match lvp {
        case SavedOptions(text) =>
          optval := text;
          ok := true;
        case SavedVar(_, _, _) =>
          ghost var n := NameAt(s, lvp.vp);
          PopOneKeeps(s, rs, aflag);
          var o := PopVar(lvp, outer);
          OnlyShowsIsSane(s, S(), rs[1..], n);
          OnlyShowsOthers(s, S(), rs[1..], n);
          ok := o.Ok?;
      }
    }

    /**
     * poplocalvars.  It fails exactly if a variable cannot be cleared in its turn; the records after
     * that one are still there.
     */
    method PopLocalVars(ghost outer: seq<LocalVar>) returns (ok: bool)
      requires Valid(outer)
      modifies this`memory, this`vars, this`vartab, this`localvars, this`optval
      ensures Valid(outer) && (ok <==> !AnyStuck(old(S()), old(localvars), aflag))
      ensures if ok then localvars == [] else |localvars| < |old(localvars)|
      ensures AllTurns(S(), localvars, aflag) == AllTurns(old(S()), old(localvars), aflag)
      ensures OptionsAfter(localvars, optval) == OptionsAfter(old(localvars), old(optval))
      ensures Rest(outer) == old(Rest(outer))
      ensures ok ==> optval == UndoneOptions(old(Scope(outer)), old(optval))
      ensures forall n :: ok || IsName(n) ==> Later(n, outer) == old(Later(n, outer))
      ensures forall n :: IsLocal(old(Scope(outer)), n) || (View(S(), n) == old(View(S(), n)) && !IsLocal(Scope(outer), n))
    {
      hide Sane, View, Items, IsName, Undone, UndoneOptions, Stuck, Turn, AllTurns, OptionsAfter, AnyStuck, IsLocal;
      ghost var k, scope, all := 0, |localvars|, Saved(outer);
      ghost var items := all[..scope];
      while localvars != []
        invariant 0 <= k <= scope && localvars == old(localvars)[k..]
        invariant Valid(outer) && Saved(outer) == all[k..]
        invariant AnyStuck(S(), localvars, aflag) == AnyStuck(old(S()), old(localvars), aflag)
        invariant AllTurns(S(), localvars, aflag) == AllTurns(old(S()), old(localvars), aflag)
        invariant OptionsAfter(localvars, optval) == OptionsAfter(old(localvars), old(optval))
        invariant UndoneOptions(items[k..], optval) == UndoneOptions(items, old(optval))
        invariant forall n :: Undone(items[k..], n, View(S(), n)) == Undone(items, n, old(View(S(), n)))
        invariant forall n :: IsLocal(items, n) || View(S(), n) == old(View(S(), n))
        decreases |localvars|
      {
        assert all[k..][0] == items[k] && all[k..][1..] == all[k + 1..] && items[k..] == all[k..][..scope - k];
        ghost var options, s := optval, S();
        NextTurn(s, localvars, options, aflag);
        LocalAt(items, k);
        ok := PopRecord(outer);
        UndoneFirst(items, k, options);
        forall n
          ensures Undone(items[k..], n, View(s, n)) == Undone(items[k + 1..], n, Undone([items[k]], n, View(s, n)))
        {
          UndoneOne(items, k, n, View(s, n));
        }
        k := k + 1;
        if !ok {
          assert Scope(outer) == items[k..] && Rest(outer) == all[scope..];
          LocalsOfRest(items, k);
          return;
        }
      }
      NoTurn(S(), localvars, optval, aflag);
      LocalsOfRest(items, k);
      UndoneNone(items[k..]);
      assert Scope(outer) == items[k..] && Rest(outer) == all[scope..];
      ok := true;
    }

    /** The handler of evalcommand, which goes on popping when a pop has failed. */
    method PopAll(ghost outer: seq<LocalVar>) returns (popped: bool)
      requires Valid(outer)
      modifies this`memory, this`vars, this`vartab, this`localvars, this`optval
      ensures Valid(outer) && localvars == [] && Rest(outer) == old(Rest(outer)) && popped == !old(AnyStuck(S(), localvars, aflag))
      ensures S() == AllTurns(old(S()), old(localvars), aflag) && optval == OptionsAfter(old(localvars), old(optval))
      ensures forall n :: IsName(n) || !old(AnyStuck(S(), localvars, aflag)) ==> View(S(), n) == old(Later(n, outer))
      ensures forall n :: IsLocal(old(Scope(outer)), n) || View(S(), n) == old(View(S(), n))
    {
      hide Sane, View, Items, IsName, AnyStuck, IsLocal, AllTurns, OptionsAfter;
      var ok := PopLocalVars(outer);
      popped := ok;
      while !ok
        invariant Valid(outer) && Rest(outer) == old(Rest(outer)) && (ok ==> localvars == [])
        invariant AllTurns(S(), localvars, aflag) == AllTurns(old(S()), old(localvars), aflag)
        invariant OptionsAfter(localvars, optval) == OptionsAfter(old(localvars), old(optval))
        invariant popped == !old(AnyStuck(S(), localvars, aflag)) && (popped ==> ok)
        invariant popped ==> forall n :: Later(n, outer) == old(Later(n, outer))
        invariant forall n :: IsLocal(old(Scope(outer)), n) || (View(S(), n) == old(View(S(), n)) && !IsLocal(Scope(outer), n))
        invariant forall n :: IsName(n) ==> Later(n, outer) == old(Later(n, outer))
        decreases !ok, |localvars|
      {
        ok := PopLocalVars(outer);
      }
      assert Scope(outer) == [];
      NoTurn(S(), localvars, optval, aflag);
    }

    /** The items of the calls around the running one. */
    ghost function Rest(outer: seq<LocalVar>): seq<Item>
      reads this
    {
      Saved(outer)[|localvars|..]
    }

    /** The items of the running call. */
    ghost function Scope(outer: seq<LocalVar>): seq<Item>
      reads this
    {
      Saved(outer)[..|localvars|]
    }

    /** An operation other than local and call, on one variable. */
    method DoOne(op: Op, ghost outer: seq<LocalVar>) returns (ok: bool)
      requires Valid(outer) && (op.Assign? || op.Forget? || op.Mark?)
      modifies this`memory, this`vars, this`vartab
      ensures Valid(outer) && Saved(outer) == old(Saved(outer))
      ensures TableOk(old(S())) && S() == DoneOne(old(S()), op, aflag).store && ok == DoneOne(old(S()), op, aflag).Ok?
      ensures forall n :: Returns(op, n) ==> View(S(), n) == old(View(S(), n))
    {
      hide Sane, OnlyShows, View, Items;
      SaneVar(S(), localvars + outer, NameOf(op.name));
      ghost var s, rs, n := S(), localvars + outer, NameOf(op.name);
      var o;
      match op {
        case Assign(name, value, marks) =>
          SetVarKeeps(s, rs, name, Some(value), marks, aflag);
          o := SetVarNamed(name, Some(value), marks, outer);
        case Forget(name) =>
          UnsetVarKeeps(s, rs, name, aflag);
          o := UnsetVarNamed(name, outer);
        case Mark(name, flag) =>
          SaneVar(s, rs, n);
          if NameOf(name) in vartab {
            ReflagKeeps(s, rs, n, FlagsOf(s, n) + {flag});
            var vp := vartab[NameOf(name)];
            vars := vars[vp := vars[vp].(flags := vars[vp].flags + {flag})];
            o := Ok(S());
          } else {
            SetVarKeeps(s, rs, name, None, {flag}, aflag);
            o := SetVarNamed(name, None, {flag}, outer);
          }
      }
      OnlyShowsIsSane(s, S(), rs, n);
      OnlyShowsOthers(s, S(), rs, n);
      ok := o.Ok?;
    }

    /** What `n` shows once the running call's locals are popped. */
    ghost function Later(n: string, outer: seq<LocalVar>): Option<Shown>
      reads this
    {
      Undone(Scope(outer), n, View(S(), n))
    }

    /** The records from before are still there, under new ones. */
    twostate predicate Extends(outer: seq<LocalVar>)
      reads this
    {
      var p := |localvars| - |old(localvars)|;
      && 0 <= p && localvars[p..] == old(localvars) && Saved(outer)[p..] == old(Saved(outer))
      && forall n :: IsLocal(old(Scope(outer)), n) ==> IsLocal(Scope(outer), n)
    }

    method DoLocal(arg: string, ghost outer: seq<LocalVar>) returns (ok: bool)
      requires Valid(outer)
      modifies this`memory, this`vars, this`vartab, this`localvars
      ensures Valid(outer) && Extends(outer)
      ensures forall n :: Later(n, outer) == old(Later(n, outer))
      ensures arg != "-" && ok ==> IsLocal(Scope(outer), NameOf(arg))
      ensures forall n :: IsLocal(Scope(outer), n) ==> old(IsLocal(Scope(outer), n)) || (arg != "-" && NameOf(arg) == n)
      ensures Now(ok) == Localized(old(Now(true)), arg)
    {
      hide Sane, View, Localized, IsLocal, Undone;
      ghost var s := S();
      ghost var before := Scope(outer);
      ok := MakeLocal(arg, outer);
      ghost var after := Scope(outer);
      if ok {
        ghost var item := if arg == "-" then Options(optval) else Value(NameOf(arg), View(s, NameOf(arg)));
        assert Saved(outer) == [item] + old(Saved(outer));
        assert after == [item] + before;
        PushedItem(item, before);
      } else {
        assert after == before;
      }
    }

    /** An operation that leaves the records alone. */
    method DoOther(op: Op, ghost outer: seq<LocalVar>) returns (ok: bool)
      requires Valid(outer) && !op.Local? && !op.LocalOptions? && !op.Call?
      modifies this
      ensures Valid(outer) && Extends(outer)
      ensures forall n :: old(IsLocal(Scope(outer), n)) || Returns(op, n) ==> Later(n, outer) == old(Later(n, outer))
      ensures Now(ok) == Exec(old(Now(true)), op) && Scope(outer) == old(Scope(outer))
    {
      hide Sane, View, Items, Undone, Shielded, Among, DoneOne;
      SaneVar(S(), localvars + outer, "");
      ok := true;
      if op.SetOptions? {
        optval := op.optval;
      } else {
        ok := DoOne(op, outer);
      }
      LocalsAreSafe(outer);
    }

    /** What is local already shows the same later while the records stay as they are. */
    twostate lemma LocalsAreSafe(outer: seq<LocalVar>)
      requires Scope(outer) == old(Scope(outer))
      ensures forall n :: old(IsLocal(Scope(outer), n)) ==> Later(n, outer) == old(Later(n, outer))
    {
      hide Undone, View;
      forall n | old(IsLocal(Scope(outer), n))
        ensures Later(n, outer) == old(Later(n, outer))
      {
        UndoneOfLocal(Scope(outer), n, View(S(), n), old(View(S(), n)));
      }
    }

    /** local as an operation. */
    method DoMaking(op: Op, ghost outer: seq<LocalVar>) returns (ok: bool)
      requires Valid(outer) && (op.Local? || op.LocalOptions?)
      modifies this
      ensures Valid(outer) && Extends(outer)
      ensures forall n :: IsName(n) && (old(IsLocal(Scope(outer), n)) || Returns(op, n) || Touches(op, n)) ==>
        Later(n, outer) == old(Later(n, outer))
      ensures forall n :: ok && MakesLocal(op, n) ==> IsLocal(Scope(outer), n)
      ensures Now(ok) == Exec(old(Now(true)), op)
      ensures forall n :: IsLocal(Scope(outer), n) ==> old(IsLocal(Scope(outer), n)) || MakesLocal(op, n)
    {
      hide Sane, View, Items, IsName, Undone, Shielded, Among, DoneOne, Localized, Called;
      SaneVar(S(), localvars + outer, "");
      ok := DoLocal(if op.Local? then op.arg else "-", outer);
    }

    /** A call as an operation. */
    method DoCall(op: Op, ghost outer: seq<LocalVar>) returns (ok: bool)
      requires Valid(outer) && op.Call?
      modifies this
      ensures Valid(outer) && Extends(outer)
      ensures forall n :: IsName(n) && (old(IsLocal(Scope(outer), n)) || Returns(op, n) || Touches(op, n)) ==>
        Later(n, outer) == old(Later(n, outer))
      ensures forall n :: ok && MakesLocal(op, n) ==> IsLocal(Scope(outer), n)
      ensures Now(ok) == Exec(old(Now(true)), op)
      ensures forall n :: IsLocal(Scope(outer), n) ==> old(IsLocal(Scope(outer), n)) || MakesLocal(op, n)
      decreases op, 0
    {
      hide Sane, View, Items, IsName, Undone, Shielded, Among, DoneOne, Localized, Called;
      SaneVar(S(), localvars + outer, "");
      ok := CallFunction(op.args, op.body, outer);
      LocalsAreSafe(outer);
    }

    /** Any operation. */
    method Do(op: Op, ghost outer: seq<LocalVar>) returns (ok: bool)
      requires Valid(outer)
      modifies this
      ensures Valid(outer) && Extends(outer)
      ensures forall n :: IsName(n) && (old(IsLocal(Scope(outer), n)) || Returns(op, n) || Touches(op, n)) ==>
        Later(n, outer) == old(Later(n, outer))
      ensures forall n :: ok && MakesLocal(op, n) ==> IsLocal(Scope(outer), n)
      ensures Now(ok) == Exec(old(Now(true)), op)
      ensures forall n :: IsLocal(Scope(outer), n) ==> old(IsLocal(Scope(outer), n)) || MakesLocal(op, n)
      decreases op, 1
    {
      hide Sane, View, Items, IsName, IsLocal, Returns, Exec;
      if op.Local? || op.LocalOptions? {
        ok := DoMaking(op, outer);
      } else if op.Call? {
        ok := DoCall(op, outer);
      } else {
        ok := DoOther(op, outer);
      }
    }

    /** A function body, up to the first error. */
    method RunBody(body: seq<Op>, ghost outer: seq<LocalVar>) returns (ok: bool)
      requires Valid(outer)
      modifies this
      ensures Valid(outer) && Extends(outer)
      ensures forall n :: IsName(n) && (old(IsLocal(Scope(outer), n)) || Shielded(body, n)) ==> Later(n, outer) == old(Later(n, outer))
      ensures Now(ok) == ExecAll(old(Now(true)), body)
      ensures forall n :: IsLocal(Scope(outer), n) ==> old(IsLocal(Scope(outer), n)) || SomeLocal(body, n)
      decreases body, 0
    {
      hide Sane, View, Items, Returns, IsName, Exec;
      NoNameIsDash();
      var i := 0;
      ok := true;
      while i < |body| && ok
        invariant 0 <= i <= |body|
        invariant Valid(outer) && Extends(outer)
        invariant forall n :: IsName(n) && (old(IsLocal(Scope(outer), n)) || Shielded(body, n)) ==>
          Later(n, outer) == old(Later(n, outer)) && (ok ==> IsLocal(Scope(outer), n) || Shielded(body[i..], n))
        invariant ExecAll(Now(ok), body[i..]) == ExecAll(old(Now(true)), body)
        invariant forall n :: IsLocal(Scope(outer), n) ==> old(IsLocal(Scope(outer), n)) || SomeLocal(body[..i], n)
      {
        assert body[i..][0] == body[i] && body[i..][1..] == body[i + 1..];
        OneMore(body, i);
        ok := Do(body[i], outer);
        i := i + 1;
      }
      OneMore(body, i);
    }

    /** The prefix assignments of a function call, up to the first error. */
    method LocalArgs(args: seq<string>, ghost outer: seq<LocalVar>) returns (ok: bool)
      requires Valid(outer)
      modifies this`memory, this`vars, this`vartab, this`localvars
      ensures Valid(outer) && Extends(outer)
      ensures forall n :: Later(n, outer) == old(Later(n, outer))
      ensures ok ==> forall n :: IsName(n) && Among(args, n) ==> IsLocal(Scope(outer), n)
      ensures Now(ok) == LocalizedAll(old(Now(true)), args)
      ensures forall n :: IsLocal(Scope(outer), n) ==> old(IsLocal(Scope(outer), n)) || Among(args, n)
    {
      hide Sane, View, Items, Undone, IsName, Localized;
      NoNameIsDash();
      ok := true;
      var i := 0;
      while i < |args| && ok
        invariant 0 <= i <= |args|
        invariant Valid(outer) && Extends(outer)
        invariant forall n :: Later(n, outer) == old(Later(n, outer))
        invariant ok ==> forall k :: 0 <= k < i && args[k] != "-" ==> IsLocal(Scope(outer), NameOf(args[k]))
        invariant LocalizedAll(Now(ok), args[i..]) == LocalizedAll(old(Now(true)), args)
        invariant forall n :: IsLocal(Scope(outer), n) ==> old(IsLocal(Scope(outer), n)) || Among(args, n)
      {
        assert args[i..][0] == args[i] && args[i..][1..] == args[i + 1..];
        ok := DoLocal(args[i], outer);
        i := i + 1;
      }
    }

    /**
     * A function call of evalcommand: the prefix assignments become local, the body runs, and
     * whether or not it ends with an error the locals are popped.
     */
    method CallFunction(args: seq<string>, body: seq<Op>, ghost outer: seq<LocalVar>) returns (ok: bool)
      requires Valid(outer)
      modifies this
      ensures Valid(outer) && localvars == old(localvars) && Saved(outer) == old(Saved(outer))
      ensures forall n :: IsName(n) && (Among(args, n) || Shielded(body, n)) ==> View(S(), n) == old(View(S(), n))
      ensures Now(ok) == Called(old(Now(true)), args, body)
      ensures forall n :: !Among(args, n) && !SomeLocal(body, n) ==> View(S(), n) == View(BodyEnd(old(Now(true)), args, body).s, n)
      decreases body, 1
    {
      hide Sane, View, Items, Shielded, Among, IsName, SomeLocal, ExecAll, LocalizedAll, AllTurns, AnyStuck, OptionsAfter;
      var savelocalvars := localvars;
      ghost var below := localvars + outer;
      localvars := [];
      assert localvars + below == below;
      assert Scope(below) == [];
      label entry:
      ok := LocalArgs(args, below);
      if ok {
        ok := RunBody(body, below);
      } else {
        NothingRuns(Now(ok), body);
      }
      assert Now(ok) == BodyEnd(old(Now(true)), args, body);
      assert forall n :: IsLocal(Scope(below), n) ==> Among(args, n) || SomeLocal(body, n);
      ghost var end := S();
      assert forall n :: IsName(n) && (Among(args, n) || Shielded(body, n)) ==> Later(n, below) == old@entry(Later(n, below));
      assert Rest(below) == old(Saved(outer));
      var popped := PopAll(below);
      ok := ok && popped;
      assert localvars + below == below;
      assert forall n :: !Among(args, n) && !SomeLocal(body, n) ==> View(S(), n) == View(end, n);
      localvars := savelocalvars;
    }
  }

  /** `local` of this name, in the body itself. */
  predicate MakesLocal(op: Op, n: string) {
    op.Local? && op.arg != "-" && NameOf(op.arg) == n
  }

  predicate SomeLocal(body: seq<Op>, n: string) {
    exists i :: 0 <= i < |body| && MakesLocal(body[i], n)
  }

  lemma OneMore(body: seq<Op>, i: nat)
    requires i <= |body|
    ensures i < |body| ==> forall n :: SomeLocal(body[..i], n) || MakesLocal(body[i], n) ==> SomeLocal(body[..i + 1], n)
    ensures forall n :: SomeLocal(body[..i], n) ==> SomeLocal(body, n)
  {
    forall n | SomeLocal(body[..i], n)
      ensures SomeLocal(body, n) && (i < |body| ==> SomeLocal(body[..i + 1], n))
    {
      var k :| 0 <= k < i && MakesLocal(body[..i][k], n);
      assert MakesLocal(body[k], n);
      assert i < |body| ==> body[..i + 1][k] == body[k];
    }
    if i < |body| {
      assert body[..i + 1][i] == body[i];
    }
  }

  lemma NothingRuns(c: Calling, body: seq<Op>)
    requires !c.ok
    ensures ExecAll(c, body) == c
  {
  }

  lemma NextTurn(s: Store, records: seq<LocalVar>, options: string, aflag: bool)
    requires records != []
    ensures AllTurns(s, records, aflag) == AllTurns(Turn(s, records[0], aflag), records[1..], aflag)
    ensures AnyStuck(s, records, aflag) <==> Stuck(s, records[0]) || AnyStuck(Turn(s, records[0], aflag), records[1..], aflag)
    ensures var r := records[0];
      OptionsAfter(records, options) == OptionsAfter(records[1..], if r.SavedOptions? then r.optval else options)
  {
    hide Turn, Stuck;
  }

  lemma NoTurn(s: Store, records: seq<LocalVar>, options: string, aflag: bool)
    requires records == []
    ensures AllTurns(s, records, aflag) == s && !AnyStuck(s, records, aflag) && OptionsAfter(records, options) == options
  {
  }

  lemma LocalAt(items: seq<Item>, k: nat)
    requires k < |items|
    ensures items[k].Value? ==> IsLocal(items, items[k].name)
  {
  }

  /** One item more on top. */
  lemma PushedItem(item: Item, items: seq<Item>)
    ensures forall n :: IsLocal([item] + items, n) <==> IsLocal(items, n) || (item.Value? && item.name == n)
    ensures forall n, now :: Undone([item] + items, n, now) == Undone(items, n, if item.Value? && item.name == n then item.was else now)
  {
    var all := [item] + items;
    assert all[1..] == items;
    forall n
      ensures IsLocal(all, n) <==> IsLocal(items, n) || (item.Value? && item.name == n)
    {
      if i :| 0 <= i < |items| && items[i].Value? && items[i].name == n {
        assert all[i + 1] == items[i];
      }
      if i :| 0 <= i < |all| && all[i].Value? && all[i].name == n {
        assert i > 0 ==> items[i - 1] == all[i];
      }
      if item.Value? && item.name == n {
        assert all[0] == item;
      }
    }
  }

  lemma LocalsOfRest(items: seq<Item>, k: nat)
    requires k <= |items|
    ensures forall n :: IsLocal(items[k..], n) ==> IsLocal(items, n)
  {
    forall n | IsLocal(items[k..], n)
      ensures IsLocal(items, n)
    {
      var i :| 0 <= i < |items| - k && items[k..][i].Value? && items[k..][i].name == n;
      assert items[k + i] == items[k..][i];
    }
  }

  lemma NoNameIsDash()
    ensures !IsName("-") && NameOf("-") == "-"
  {
  }

  predicate Touches(op: Op, n: string) {
    op.Local? && NameOf(op.arg) == n
  }

  /** The guard under which a record cannot be popped. */
  predicate Stuck(s: Store, r: LocalVar) {
    r.SavedVar? && WasUnset(r) && CannotClear(s, NameAt(s, r.vp))
  }

  /** The store after one turn of poplocalvars, whether or not it fails. */
  ghost function Turn(s: Store, r: LocalVar, aflag: bool): Store {
    if r.SavedVar? && TableOk(s) && r.vp in s.vars && s.vars[r.vp].text in s.memory && (r.text.None? ==> WasUnset(r))
    then PopOne(s, r, aflag).store
    else s
  }

  /** Some record cannot be popped in its turn. */
  ghost predicate AnyStuck(s: Store, records: seq<LocalVar>, aflag: bool)
    decreases |records|
  {
    records != [] && (Stuck(s, records[0]) || AnyStuck(Turn(s, records[0], aflag), records[1..], aflag))
  }

  function UndoneOptions(items: seq<Item>, now: string): string {
    if items == [] then now
    else UndoneOptions(items[1..], if items[0].Options? then items[0].optval else now)
  }

  lemma UndoneFirst(items: seq<Item>, k: nat, options: string)
    requires k < |items|
    ensures UndoneOptions(items[k..], options) == UndoneOptions(items[k + 1..], UndoneOptions([items[k]], options))
  {
    assert items[k..][1..] == items[k + 1..] && [items[k]][1..] == [];
  }

  lemma UndoneOne(items: seq<Item>, k: nat, n: string, now: Option<Shown>)
    requires k < |items|
    ensures Undone(items[k..], n, now) == Undone(items[k + 1..], n, Undone([items[k]], n, now))
  {
    assert items[k..][1..] == items[k + 1..] && [items[k]][1..] == [];
  }

  lemma UndoneNone(items: seq<Item>)
    requires items == []
    ensures forall o :: UndoneOptions(items, o) == o
    ensures forall n, now :: Undone(items, n, now) == now
  {
  }

  lemma SaneRecord(s: Store, rs: seq<LocalVar>)
    requires Sane(s, rs) && rs != [] && rs[0].SavedVar?
    ensures Sane(s, rs[1..])
    ensures var n := NameAt(s, rs[0].vp); n in s.vartab && s.vartab[n] == rs[0].vp
  {
    assert Linked(s, rs[0]);
    RecordsOfTail(s, rs);
  }

  lemma PopUnsetReflags(s: Store, rs: seq<LocalVar>, n: string)
    requires Sane(s, rs) && n in s.vartab
    ensures VarOk(s, n)
    ensures Sane(Reflag(s, s.vartab[n], s.vars[s.vartab[n]].flags - {ReadOnly}), rs)
  {
    assert VarOk(s, n);
    ReflagKeeps(s, rs, n, s.vars[s.vartab[n]].flags - {ReadOnly});
  }

  lemma OptionsRecord(s: Store, optval: string, rs: seq<LocalVar>)
    requires Sane(s, rs)
    ensures Sane(s, [SavedOptions(optval)] + rs)
    ensures Items(s, [SavedOptions(optval)] + rs) == [Options(optval)] + Items(s, rs)
  {
    RecordsOfBoth(s, SavedOptions(optval), rs);
  }
}
