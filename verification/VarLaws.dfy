/** What assignments, unset, export, readonly and local show of a variable; src/var.c. */
module VarLaws {
  import opened Ascii
  import opened Wrappers
  import opened Variables

  /** A variable keeps its marks also while it is unset. */
  predicate Exported(s: Store, n: string) {
    Export in FlagsOf(s, n)
  }

  predicate IsReadonly(s: Store, n: string) {
    ReadOnly in FlagsOf(s, n)
  }

  /** No other variable, and nothing saved, looks different. */
  ghost predicate Untouched(s: Store, s': Store, rs: seq<LocalVar>, n: string) {
    && Sane(s', rs) && Items(s', rs) == Items(s, rs)
    && forall m :: m != n ==> View(s', m) == View(s, m) && FlagsOf(s', m) == FlagsOf(s, m)
  }

  lemma OthersUntouched(s: Store, s': Store, rs: seq<LocalVar>, n: string)
    requires OnlyShows(s, s', rs, n)
    ensures Untouched(s, s', rs, n)
  {
    hide OnlyShows, View, Items;
    OnlyShowsIsSane(s, s', rs, n);
    OnlyShowsOthers(s, s', rs, n);
  }

  lemma NamesAreIdentifiers(n: string)
    ensures IsName(n) <==> IsIdentifier(n)
  {
    forall c | c in n
      ensures IsNameStart(c) || '0' <= c <= '9' <==> IsWordByte(c)
      ensures c in DIGIT <==> '0' <= c <= '9'
    {
      WordBytes(c);
    }
    if IsName(n) {
      assert forall i :: 0 <= i < |n| ==> n[i] in n;
    }
  }

  /**
   * An assignment is refused for a name that is none and for a readonly variable; otherwise the variable has the
   * value, is exported if it was, if asked for, or under -a, and is readonly if asked for.
   */
  lemma AssignmentShows(s: Store, rs: seq<LocalVar>, arg: string, value: string, marks: Marks, aflag: bool)
    requires Sane(s, rs)
    ensures TableOk(s)
    ensures var n, o := NameOf(arg), DoneOne(s, Assign(arg, value, marks), aflag);
      && Untouched(s, o.store, rs, n)
      && (o.Ok? <==> IsIdentifier(n) && !IsReadonly(s, n))
      && View(o.store, n) == (if o.Ok? then Some(Shown(value, aflag || Export in marks || Exported(s, n), ReadOnly in marks)) else View(s, n))
  {
    hide Sane, OnlyShows, View, Items;
    NamesAreIdentifiers(NameOf(arg));
    SetVarKeeps(s, rs, arg, Some(value), marks, aflag);
    OthersUntouched(s, DoneOne(s, Assign(arg, value, marks), aflag).store, rs, NameOf(arg));
  }

  /** What is shown agrees with the marks. */
  lemma ShownMarks(s: Store, n: string)
    requires View(s, n).Some?
    ensures View(s, n).value.exported == Exported(s, n) && View(s, n).value.readOnly == IsReadonly(s, n)
  {
  }

  /** unset leaves the variable without value, export and readonly marks; it is refused for a readonly variable. */
  lemma UnsetShows(s: Store, rs: seq<LocalVar>, arg: string, aflag: bool)
    requires Sane(s, rs) && IsIdentifier(NameOf(arg))
    ensures TableOk(s)
    ensures var n, o := NameOf(arg), DoneOne(s, Forget(arg), aflag);
      && Untouched(s, o.store, rs, n) && (o.Ok? <==> !IsReadonly(s, n))
      && (if o.Ok? then View(o.store, n) == None && !Exported(o.store, n) else View(o.store, n) == View(s, n))
  {
    hide Sane, OnlyShows, View, Items;
    NamesAreIdentifiers(NameOf(arg));
    UnsetVarKeeps(s, rs, arg, aflag);
    OthersUntouched(s, DoneOne(s, Forget(arg), aflag).store, rs, NameOf(arg));
    UnsetIsNotExported(s, arg, aflag);
  }

  lemma UnsetIsNotExported(s: Store, arg: string, aflag: bool)
    requires TableOk(s)
    ensures var o := UnsetVar(s, arg, aflag); o.Ok? ==> !Exported(o.store, NameOf(arg))
  {
    hide SetVar;
    var n := NameOf(arg);
    assert n in s.vartab ==> VarOk(s, n);
  }

  /** export and readonly set their mark and leave value and other marks, set or unset. */
  lemma MarkShows(s: Store, rs: seq<LocalVar>, arg: string, flag: MarkFlag, aflag: bool)
    requires Sane(s, rs) && IsIdentifier(NameOf(arg))
    ensures TableOk(s)
    ensures var n, o := NameOf(arg), DoneOne(s, Mark(arg, flag), aflag);
      && Untouched(s, o.store, rs, n)
      && (n in s.vartab ==> o.Ok?) && (o.Ok? ==> flag in FlagsOf(o.store, n))
      && (n in s.vartab ==> forall f: MarkFlag :: f != flag ==> (f in FlagsOf(o.store, n) <==> f in FlagsOf(s, n)))
      && (match View(s, n)
          case None => View(o.store, n) == None
          case Some(x) =>
            o.Ok? ==> View(o.store, n) == Some(if flag == Export then x.(exported := true) else x.(readOnly := true)))
  {
    hide Sane, OnlyShows, Items, SetVar;
    var n := NameOf(arg);
    NamesAreIdentifiers(n);
    hide IsName, IsIdentifier;
    SaneVar(s, rs, n);
    if n in s.vartab {
      ReflagKeeps(s, rs, n, FlagsOf(s, n) + {flag});
    } else {
      SetVarKeeps(s, rs, arg, None, {flag}, aflag);
    }
    OthersUntouched(s, DoneOne(s, Mark(arg, flag), aflag).store, rs, n);
  }

  /** `local` without a value leaves what the variable shows; with one it is assigned. */
  lemma LocalShows(c: Calling, outer: seq<LocalVar>, arg: string)
    requires Sane(c.s, c.locals + outer) && arg != "-" && c.ok
    ensures var n, d := NameOf(arg), Localized(c, arg);
      && (d.ok <==> MayBeLocal(c.s, arg)) && Sane(d.s, d.locals + outer) && d.optval == c.optval
      && (forall m :: m != n ==> View(d.s, m) == View(c.s, m))
      && (if !d.ok then d.locals == c.locals && View(d.s, n) == View(c.s, n)
          else
            && |d.locals| == |c.locals| + 1 && d.locals[1..] == c.locals
            && View(d.s, n) == if arg == n then View(c.s, n)
                               else Some(Shown(ValueIn(arg, n), c.aflag || Exported(c.s, n), false)))
  {
    hide Sane, OnlyShows, View, Items, MkLocal, MayBeLocal;
    MkLocalShows(c.s, c.locals + outer, arg, c.aflag);
    var m := MkLocal(c.s, arg, c.aflag);
    assert [m.record] + c.locals + outer == [m.record] + (c.locals + outer);
  }

  /** `local -` keeps the options for the end of the call; otherwise what the body sets stays. */
  lemma OptionsOfCall(c: Calling, args: seq<string>, text: string)
    requires TableOk(c.s) && c.ok
    ensures Called(c, [], [LocalOptions, SetOptions(text)]).optval == c.optval
    ensures Called(c, [], [SetOptions(text)]).optval == text
  {
    var start := c.(locals := []);
    var kept := start.(locals := [SavedOptions(c.optval)]);
    assert LocalizedAll(start, []) == start;
    var both, one := [LocalOptions, SetOptions(text)], [SetOptions(text)];
    assert both[1..] == one && one[1..] == [];
    assert Exec(start, LocalOptions) == kept by {
      assert [SavedOptions(c.optval)] + [] == [SavedOptions(c.optval)];
    }
    assert ExecAll(start, one) == ExecAll(start.(optval := text), []);
    assert ExecAll(start, both) == ExecAll(kept, one) == ExecAll(kept.(optval := text), []);
    assert OptionsAfter([SavedOptions(c.optval)], text) == OptionsAfter([], c.optval);
  }
}
