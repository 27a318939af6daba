/** The splitting loop of the read builtin, src/miscbltin.c, whose one pass over the line
    must give what splitting the line into fields and distributing them would. */
module ReadCmd {
  import opened FieldSplit

  // ----- what read assigns, in terms of field splitting -----

  /** The bytes of the line as split events: an escaped byte is never a delimiter. */
  datatype Line = Line(items: seq<Event>, terminated: bool, next: nat)

  /** The input from `i` up to the first delimiter that is not escaped.  NUL bytes are
      skipped, and without -r a backslash escapes the next byte or removes a newline. */
  function ScanLine(input: string, i: nat, rflag: bool, delim: char, backslash: bool): Line
    requires i <= |input|
    decreases |input| - i
  {
    if i == |input| then Line([], false, i)
    else
      var c := input[i];
      if c == '\0' then ScanLine(input, i + 1, rflag, delim, backslash)
      else if backslash then
        var rest := ScanLine(input, i + 1, rflag, delim, false);
        if c == '\n' then rest else rest.(items := [Text(c)] + rest.items)
      else if !rflag && c == '\\' then ScanLine(input, i + 1, rflag, delim, true)
      else if c == delim then Line([], true, i + 1)
      else
        var rest := ScanLine(input, i + 1, rflag, delim, false);
        rest.(items := [Exp(c)] + rest.items)
  }

  /** The line after its first `k` fields and the delimiters that end them. */
  function Remainder(ifs: string, es: seq<Event>, k: nat): seq<Event>
    decreases k
  {
    var d := DropWs(ifs, es);
    if k == 0 || d == [] then d
    else Remainder(ifs, DropDelim(ifs, DropField(ifs, d)), k - 1)
  }

  function DropTrailingWs(ifs: string, es: seq<Event>): seq<Event> {
    if es != [] && IsW(ifs, es[|es| - 1]) then DropTrailingWs(ifs, es[..|es| - 1]) else es
  }

  function Blank(n: nat): (r: seq<string>)
    ensures |r| == n
  {
    seq(n, _ => "")
  }

  /** The values of n variables: one field each and empty strings for the rest, or the
      first n - 1 fields and the untouched remainder without trailing white space. */
  function Assigned(ifs: string, n: nat, es: seq<Event>): (r: seq<string>)
    requires n >= 1
    ensures |r| == n
  {
    var fs := Fields(ifs, es);
    if |fs| <= n then fs + Blank(n - |fs|)
    else fs[..n - 1] + [FieldBytes(DropTrailingWs(ifs, Remainder(ifs, es, n - 1)))]
  }

  // ----- the loop state -----

  /** `vals` are the variables already set, `buf` the stack string. */
  datatype State = State(vals: seq<string>, buf: string, startword: int, saveall: int,
                         lastnonifs: int, lastnonifsws: int)

  const BEGIN := State([], "", 2, 0, -1, -1)

  function Store(st: State, c: char): State {
    st.(buf := st.buf + [c])
  }

  /** One byte that is not the line delimiter, through the cases of the loop in order. */
  function ReadStep(ifs: string, n: nat, st: State, e: Event): State
    requires !e.Mark?
  {
    var here := |st.buf|;
    if e.Text? then Store(st.(startword := 0, lastnonifs := here, lastnonifsws := here), e.c)
    else
      var isIfs := if e.c in ifs then if IsWhite(e.c) then 1 else 2 else 0;
      if st.startword != 0 && isIfs == 1 then
        if st.saveall != 0 then Store(st, e.c) else st
      else if st.startword == 1 && isIfs == 2 then
        if st.saveall != 0 then Store(st.(startword := 2, lastnonifsws := here), e.c)
        else st.(startword := 2)
      else if isIfs == 0 then
        Store(st.(startword := 0, saveall := if st.saveall != 0 then st.saveall + 1 else 0,
                  lastnonifs := here, lastnonifsws := here), e.c)
      else if |st.vals| + 1 == n then
        Store(st.(startword := isIfs, saveall := st.saveall + 1,
                  lastnonifsws := if isIfs == 2 then here else st.lastnonifsws), e.c)
      else State(st.vals + [st.buf], "", isIfs, st.saveall, -1, -1)
  }

  // ----- the loop state follows the splitter -----

  predicate NoMarks(es: seq<Event>) {
    forall i :: 0 <= i < |es| ==> !es[i].Mark?
  }

  /** startword says where the splitter is. */
  predicate InStep(st: State, s: Split) {
    && !s.state.QuoteMark? && 0 <= st.startword <= 2 && st.saveall >= 0
    && (st.startword == 0 <==> s.word != "")
    && (s.word == "" ==> (st.startword == 1 <==> s.state.WsDelimited?))
  }

  /** Before the last variable the two machines hold the same words. */
  predicate Before(n: nat, st: State, s: Split) {
    && |st.vals| < n - 1 && st.vals == s.words && st.buf == s.word
    && st.saveall == 0 && st.lastnonifs == st.lastnonifsws == |st.buf| - 1
  }

  /** In the last variable `z` is what has been stored.  saveall counts delimiters and
      the unescaped bytes after the first of them, as far as the final trim needs it. */
  predicate Last(ifs: string, n: nat, st: State, s: Split, z: seq<Event>) {
    && |st.vals| == n - 1 <= |s.words| && s.words[..n - 1] == st.vals
    && NoMarks(z) && st.buf == FieldBytes(z) && |st.buf| == |z|
    && -1 <= st.lastnonifs < |z| && -1 <= st.lastnonifsws < |z|
    && (st.lastnonifsws >= 0 ==> !IsW(ifs, z[st.lastnonifsws]))
    && (forall j :: st.lastnonifsws < j < |z| ==> IsW(ifs, z[j]))
    && (st.saveall == 0 ==>
         s.words == st.vals && st.buf == s.word && st.lastnonifs == st.lastnonifsws == |z| - 1)
    && (st.saveall == 1 ==>
         && z != [] && |s.words| == n
         && (if s.word == "" then s.words[n - 1] == st.buf[..st.lastnonifs + 1]
             else st.lastnonifs == st.lastnonifsws))
    && (st.saveall >= 2 ==> z != [] && |Finish(s)| > n)
  }

  lemma {:induction false} FieldBytesSnoc(z: seq<Event>, e: Event)
    requires NoMarks(z) && !e.Mark?
    ensures FieldBytes(z + [e]) == FieldBytes(z) + [e.c] && |FieldBytes(z)| == |z|
    decreases |z|
  {
    if z == [] {
      assert FieldBytes([e]) == [e.c] + FieldBytes([e][1..]);
    } else {
      assert (z + [e])[1..] == z[1..] + [e];
      FieldBytesSnoc(z[1..], e);
    }
  }

  lemma StepBefore(ifs: string, n: nat, st: State, s: Split, e: Event)
    requires !e.Mark? && InStep(st, s) && Before(n, st, s)
    ensures var st', s' := ReadStep(ifs, n, st, e), Step(ifs, s, e);
      InStep(st', s') && (Before(n, st', s') || Last(ifs, n, st', s', []))
  {
  }

  /** Whether the byte goes into the string kept for the last variable. */
  predicate Stored(ifs: string, st: State, e: Event)
    requires !e.Mark?
  {
    st.saveall != 0 || e.Text? || !(e.c in ifs) || st.startword == 0 || (st.startword == 2 && !IsWhite(e.c))
  }

  lemma StepLastW(ifs: string, n: nat, st: State, s: Split, z: seq<Event>, e: Event)
    requires n >= 1 && !e.Mark? && InStep(st, s) && Last(ifs, n, st, s, z) && IsW(ifs, e)
    ensures var st', s' := ReadStep(ifs, n, st, e), Step(ifs, s, e);
      InStep(st', s') && Last(ifs, n, st', s', if Stored(ifs, st, e) then z + [e] else z)
  {
    hide FieldBytes;
    FieldBytesSnoc(z, e);
    var st', s' := ReadStep(ifs, n, st, e), Step(ifs, s, e);
    if Stored(ifs, st, e) {
      assert st'.buf == st.buf + [e.c];
      assert s.words <= s'.words;
    }
  }

  lemma StepLastN(ifs: string, n: nat, st: State, s: Split, z: seq<Event>, e: Event)
    requires n >= 1 && !e.Mark? && InStep(st, s) && Last(ifs, n, st, s, z) && IsN(ifs, e)
    ensures var st', s' := ReadStep(ifs, n, st, e), Step(ifs, s, e);
      InStep(st', s') && Last(ifs, n, st', s', if Stored(ifs, st, e) then z + [e] else z)
  {
    hide FieldBytes;
    FieldBytesSnoc(z, e);
    var st', s' := ReadStep(ifs, n, st, e), Step(ifs, s, e);
    assert s'.words == if st.startword == 1 then s.words else s.words + [s.word];
    assert s'.word == "" && st'.startword == 2 && st'.vals == st.vals;
    if Stored(ifs, st, e) {
      assert st'.buf == st.buf + [e.c] && st'.lastnonifsws == |z|;
      assert st.lastnonifs >= 0 ==> st'.buf[..st.lastnonifs + 1] == st.buf[..st.lastnonifs + 1];
    }
  }

  lemma StepLastByte(ifs: string, n: nat, st: State, s: Split, z: seq<Event>, e: Event)
    requires n >= 1 && !e.Mark? && InStep(st, s) && Last(ifs, n, st, s, z) && !IsDelim(ifs, e)
    ensures var st', s' := ReadStep(ifs, n, st, e), Step(ifs, s, e);
      InStep(st', s') && Last(ifs, n, st', s', if Stored(ifs, st, e) then z + [e] else z)
  {
    hide FieldBytes;
    FieldBytesSnoc(z, e);
    var st', s' := ReadStep(ifs, n, st, e), Step(ifs, s, e);
    if Stored(ifs, st, e) {
      assert st'.buf == st.buf + [e.c];
      assert s.words <= s'.words;
    }
  }

  lemma StepLast(ifs: string, n: nat, st: State, s: Split, z: seq<Event>, e: Event)
    requires n >= 1 && !e.Mark? && InStep(st, s) && Last(ifs, n, st, s, z)
    ensures var st', s' := ReadStep(ifs, n, st, e), Step(ifs, s, e);
      InStep(st', s') && Last(ifs, n, st', s', if Stored(ifs, st, e) then z + [e] else z)
  {
    hide InStep, Last, ReadStep, Step, Stored;
    if IsW(ifs, e) {
      StepLastW(ifs, n, st, s, z, e);
    } else if IsN(ifs, e) {
      StepLastN(ifs, n, st, s, z, e);
    } else {
      StepLastByte(ifs, n, st, s, z, e);
    }
  }

  // ----- where the remainder starts -----

  /** The part of Remainder(ifs, ., k) still ahead of a splitter that stands before `es`. */
  function RemainderAt(ifs: string, s: Split, es: seq<Event>, k: int): seq<Event>
    requires k >= |s.words| && (s.word != "" ==> k > |s.words|)
  {
    if s.word != "" then Remainder(ifs, DropDelim(ifs, DropField(ifs, es)), k - |s.words| - 1)
    else if s.state.WsDelimited? then Remainder(ifs, DropDelim(ifs, es), k - |s.words|)
    else Remainder(ifs, es, k - |s.words|)
  }

  lemma RemainderOfDropped(ifs: string, es: seq<Event>, k: nat)
    ensures Remainder(ifs, DropWs(ifs, es), k) == Remainder(ifs, es, k)
  {
    DropWsIdempotent(ifs, es);
  }

  lemma RemainderField(ifs: string, es: seq<Event>, k: nat)
    requires k > 0 && es != [] && !IsW(ifs, es[0])
    ensures Remainder(ifs, es, k) == Remainder(ifs, DropDelim(ifs, DropField(ifs, es)), k - 1)
  {
  }

  lemma StepRemainderW(ifs: string, s: Split, es: seq<Event>, k: int)
    requires es != [] && IsW(ifs, es[0]) && !s.state.QuoteMark? && k > |s.words|
    ensures var t := Step(ifs, s, es[0]);
      k >= |t.words| && (t.word != "" ==> k > |t.words|) && !t.state.QuoteMark?
      && RemainderAt(ifs, t, es[1..], k) == RemainderAt(ifs, s, es, k)
  {
    var rest := es[1..];
    assert DropField(ifs, es) == es;
    assert DropWs(ifs, es) == DropWs(ifs, rest) && DropDelim(ifs, es) == DropDelim(ifs, rest);
    RemainderOfDropped(ifs, rest, k - |s.words|);
    RemainderOfDropped(ifs, es, k - |s.words|);
  }

  lemma StepRemainderN(ifs: string, s: Split, es: seq<Event>, k: int)
    requires es != [] && IsN(ifs, es[0]) && !s.state.QuoteMark? && k > |s.words|
    ensures var t := Step(ifs, s, es[0]);
      k >= |t.words| && (t.word != "" ==> k > |t.words|) && !t.state.QuoteMark?
      && RemainderAt(ifs, t, es[1..], k) == RemainderAt(ifs, s, es, k)
  {
    var rest := es[1..];
    assert DropField(ifs, es) == es && DropDelim(ifs, es) == DropWs(ifs, rest);
    RemainderField(ifs, es, k - |s.words|);
    RemainderOfDropped(ifs, rest, k - |s.words|);
    RemainderOfDropped(ifs, rest, k - |s.words| - 1);
  }

  lemma StepRemainder(ifs: string, s: Split, es: seq<Event>, k: int)
    requires es != [] && !es[0].Mark? && !s.state.QuoteMark? && k > |s.words|
    ensures var t := Step(ifs, s, es[0]);
      k >= |t.words| && (t.word != "" ==> k > |t.words|) && !t.state.QuoteMark?
      && RemainderAt(ifs, t, es[1..], k) == RemainderAt(ifs, s, es, k)
  {
    if IsW(ifs, es[0]) {
      StepRemainderW(ifs, s, es, k);
    } else if IsN(ifs, es[0]) {
      StepRemainderN(ifs, s, es, k);
    } else {
      assert DropField(ifs, es) == DropField(ifs, es[1..]) && DropDelim(ifs, es) == es;
      RemainderField(ifs, es, k - |s.words|);
    }
  }

  /** Bytes skipped before the last variable has stored anything. */
  lemma SkipRemainder(ifs: string, s: Split, es: seq<Event>)
    requires es != [] && s.word == "" && !s.state.QuoteMark?
    requires IsW(ifs, es[0]) || (IsN(ifs, es[0]) && s.state.WsDelimited?)
    ensures var t := Step(ifs, s, es[0]);
      t.words == s.words && t.word == "" && !t.state.QuoteMark?
      && RemainderAt(ifs, t, es[1..], |s.words|) == RemainderAt(ifs, s, es, |s.words|)
  {
    var rest := es[1..];
    assert DropWs(ifs, es) == if IsW(ifs, es[0]) then DropWs(ifs, rest) else es;
    DropWsIdempotent(ifs, rest);
  }

  /** The first byte the last variable stores is where the remainder starts. */
  lemma RemainderStarts(ifs: string, s: Split, es: seq<Event>)
    requires es != [] && s.word == "" && !IsW(ifs, es[0])
    requires s.state.WsDelimited? ==> !IsN(ifs, es[0])
    ensures RemainderAt(ifs, s, es, |s.words|) == es
  {
  }

  // ----- the loop invariant -----

  /** All that relates the loop to the line `es`, of which the first `i` bytes are done. */
  ghost predicate Inv(ifs: string, n: nat, es: seq<Event>, i: nat, st: State, s: Split, z: seq<Event>) {
    && n >= 1 && i <= |es| && NoMarks(es)
    && Run(ifs, START, es) == Run(ifs, s, es[i..]) && InStep(st, s)
    && (if |st.vals| < n - 1 then Before(n, st, s) && z == [] else Last(ifs, n, st, s, z))
    && (if z == [] then
          |s.words| < n && (s.word == "" || |s.words| < n - 1)
          && RemainderAt(ifs, s, es[i..], n - 1) == Remainder(ifs, es, n - 1)
        else Remainder(ifs, es, n - 1) == z + es[i..])
  }

  lemma InvInit(ifs: string, n: nat, es: seq<Event>)
    requires n >= 1 && NoMarks(es)
    ensures Inv(ifs, n, es, 0, BEGIN, START, [])
  {
    assert es[0..] == es;
  }

  lemma InvStepBefore(ifs: string, n: nat, es: seq<Event>, i: nat, st: State, s: Split)
    requires Inv(ifs, n, es, i, st, s, []) && i < |es| && |st.vals| < n - 1
    ensures Inv(ifs, n, es, i + 1, ReadStep(ifs, n, st, es[i]), Step(ifs, s, es[i]), [])
  {
    hide Fields, Finish, FieldBytes, DropDelim;
    assert es[i..][0] == es[i] && es[i..][1..] == es[i + 1..];
    StepBefore(ifs, n, st, s, es[i]);
    StepRemainder(ifs, s, es[i..], n - 1);
  }

  lemma InvStepSkip(ifs: string, n: nat, es: seq<Event>, i: nat, st: State, s: Split, z: seq<Event>)
    requires Inv(ifs, n, es, i, st, s, z) && i < |es| && |st.vals| == n - 1 && !Stored(ifs, st, es[i])
    ensures Inv(ifs, n, es, i + 1, ReadStep(ifs, n, st, es[i]), Step(ifs, s, es[i]), z)
  {
    assert es[i..][0] == es[i] && es[i..][1..] == es[i + 1..];
    assert z == [];
    StepLast(ifs, n, st, s, z, es[i]);
    SkipRemainder(ifs, s, es[i..]);
  }

  lemma InvStepStore(ifs: string, n: nat, es: seq<Event>, i: nat, st: State, s: Split, z: seq<Event>)
    requires Inv(ifs, n, es, i, st, s, z) && i < |es| && |st.vals| == n - 1 && Stored(ifs, st, es[i])
    ensures Inv(ifs, n, es, i + 1, ReadStep(ifs, n, st, es[i]), Step(ifs, s, es[i]), z + [es[i]])
  {
    hide Fields, Finish, FieldBytes, Remainder, DropDelim;
    assert es[i..][0] == es[i] && es[i..][1..] == es[i + 1..];
    StepLast(ifs, n, st, s, z, es[i]);
    assert (z + [es[i]]) + es[i + 1..] == z + es[i..];
    if z == [] {
      RemainderStarts(ifs, s, es[i..]);
    }
  }

  lemma InvStep(ifs: string, n: nat, es: seq<Event>, i: nat, st: State, s: Split, z: seq<Event>)
    returns (z': seq<Event>)
    requires Inv(ifs, n, es, i, st, s, z) && i < |es|
    ensures Inv(ifs, n, es, i + 1, ReadStep(ifs, n, st, es[i]), Step(ifs, s, es[i]), z')
  {
    z' := z;
    if |st.vals| < n - 1 {
      InvStepBefore(ifs, n, es, i, st, s);
    } else if !Stored(ifs, st, es[i]) {
      InvStepSkip(ifs, n, es, i, st, s, z);
    } else {
      InvStepStore(ifs, n, es, i, st, s, z);
      z' := z + [es[i]];
    }
  }

  lemma {:induction false} TrailingWs(ifs: string, z: seq<Event>, k: int)
    requires -1 <= k < |z| && (k >= 0 ==> !IsW(ifs, z[k])) && (forall j :: k < j < |z| ==> IsW(ifs, z[j]))
    ensures DropTrailingWs(ifs, z) == z[..k + 1]
    decreases |z|
  {
    if k + 1 < |z| {
      TrailingWs(ifs, z[..|z| - 1], k);
      assert z[..|z| - 1][..k + 1] == z[..k + 1];
    }
  }

  lemma {:induction false} FieldBytesPrefix(z: seq<Event>, k: nat)
    requires NoMarks(z) && k <= |z|
    ensures |FieldBytes(z)| == |z| && FieldBytes(z[..k]) == FieldBytes(z)[..k]
    decreases |z|
  {
    if z != [] {
      FieldBytesPrefix(z[1..], if k > 0 then k - 1 else 0);
      if k > 0 {
        assert z[..k][1..] == z[1..][..k - 1];
      }
    }
  }

  /** The value the final trim leaves in the current variable. */
  function Trimmed(st: State): string
    requires -1 <= st.lastnonifs < |st.buf| && -1 <= st.lastnonifsws < |st.buf|
  {
    st.buf[..(if st.saveall <= 1 then st.lastnonifs else st.lastnonifsws) + 1]
  }

  lemma EndBefore(n: nat, st: State, s: Split)
    requires n >= 1 && InStep(st, s) && Before(n, st, s)
    ensures st.vals + [Trimmed(st)] + Blank(n - 1 - |st.vals|) == Finish(s) + Blank(n - |Finish(s)|)
  {
    assert Trimmed(st) == s.word;
    assert Blank(n - |s.words|) == [""] + Blank(n - 1 - |s.words|);
    assert s.words + [""] + Blank(n - 1 - |s.words|) == s.words + ([""] + Blank(n - 1 - |s.words|));
  }

  lemma EndLastFew(ifs: string, n: nat, st: State, s: Split, z: seq<Event>)
    requires n >= 1 && InStep(st, s) && Last(ifs, n, st, s, z) && |Finish(s)| <= n
    ensures st.vals + [Trimmed(st)] == Finish(s) + Blank(n - |Finish(s)|)
  {
    assert st.saveall <= 1;
    if st.saveall == 0 {
      assert Trimmed(st) == s.word;
    } else {
      assert s.word == "" && s.words == st.vals + [s.words[n - 1]];
    }
  }

  lemma EndLastMany(ifs: string, n: nat, st: State, s: Split, z: seq<Event>)
    requires n >= 1 && InStep(st, s) && Last(ifs, n, st, s, z) && |Finish(s)| > n
    ensures Finish(s)[..n - 1] == st.vals && Trimmed(st) == FieldBytes(DropTrailingWs(ifs, z))
  {
    TrailingWs(ifs, z, st.lastnonifsws);
    FieldBytesPrefix(z, st.lastnonifsws + 1);
  }

  /** At the end of the line the variables set so far, the trimmed buffer and empty
      strings are what splitting the whole line assigns. */
  lemma InvEnd(ifs: string, n: nat, es: seq<Event>, st: State, s: Split, z: seq<Event>)
    requires Inv(ifs, n, es, |es|, st, s, z)
    ensures -1 <= st.lastnonifs < |st.buf| && -1 <= st.lastnonifsws < |st.buf| && |st.vals| < n
    ensures st.vals + [Trimmed(st)] + Blank(n - 1 - |st.vals|) == Assigned(ifs, n, es)
  {
    assert es[|es|..] == [];
    MachineSplitsFields(ifs, es);
    assert Fields(ifs, es) == Finish(s);
    if |st.vals| < n - 1 {
      EndBefore(n, st, s);
    } else if |Finish(s)| <= n {
      EndLastFew(ifs, n, st, s, z);
    } else {
      assert z != [];
      assert z + [] == z;
      EndLastMany(ifs, n, st, s, z);
    }
  }

  lemma {:induction false} ScanHasNoMarks(input: string, i: nat, rflag: bool, delim: char, backslash: bool)
    requires i <= |input|
    ensures NoMarks(ScanLine(input, i, rflag, delim, backslash).items)
    decreases |input| - i
  {
    if i < |input| {
      ScanHasNoMarks(input, i + 1, rflag, delim, false);
      ScanHasNoMarks(input, i + 1, rflag, delim, true);
    }
  }

  // ----- the builtin -----

  /** The loop body after the delimiter test, on the variables of readcmd. */
  method ReadByte(ifs: string, n: nat, e: Event, vals0: seq<string>, p0: string, startword0: int,
                  saveall0: int, lastnonifs0: int, lastnonifsws0: int)
    returns (vals: seq<string>, p: string, startword: int, saveall: int, lastnonifs: int, lastnonifsws: int)
    requires !e.Mark?
    ensures State(vals, p, startword, saveall, lastnonifs, lastnonifsws)
         == ReadStep(ifs, n, State(vals0, p0, startword0, saveall0, lastnonifs0, lastnonifsws0), e)
  {
    vals, p, startword, saveall := vals0, p0, startword0, saveall0;
    lastnonifs, lastnonifsws := lastnonifs0, lastnonifsws0;
    var c := e.c;
    if e.Text? {
      startword := 0;
      lastnonifs, lastnonifsws := |p|, |p|;
      p := p + [c];
      return;
    }
    var isIfs := 0;
    if c in ifs {
      isIfs := if c == ' ' || c == '\t' || c == '\n' then 1 else 2;
    }
    if startword != 0 {
      if isIfs == 1 {
        // Ignore leading IFS white space.
        if saveall != 0 {
          p := p + [c];
        }
        return;
      }
      if isIfs == 2 && startword == 1 {
        // Only one other IFS byte per word.
        startword := 2;
        if saveall != 0 {
          lastnonifsws := |p|;
          p := p + [c];
        }
        return;
      }
    }
    if isIfs == 0 {
      startword := 0;
      if saveall != 0 {
        saveall := saveall + 1;
      }
      lastnonifs, lastnonifsws := |p|, |p|;
      p := p + [c];
      return;
    }
    startword := isIfs;
    if |vals| + 1 == n {
      // The last variable needs all IFS bytes.
      saveall := saveall + 1;
      if isIfs == 2 {
        lastnonifsws := |p|;
      }
      p := p + [c];
      return;
    }
    vals := vals + [p];
    p := "";
    lastnonifs, lastnonifsws := -1, -1;
  }

  /** What is left of the line when `used` bytes of the input are consumed. */
  ghost predicate Ahead(input: string, rflag: bool, delim: char, used: nat, backslash: bool,
                        es: seq<Event>, i: nat)
    requires used <= |input|
  {
    var line, rest := ScanLine(input, 0, rflag, delim, false), ScanLine(input, used, rflag, delim, backslash);
    && es == line.items && i <= |es| && rest.items == es[i..]
    && rest.terminated == line.terminated && rest.next == line.next
  }

  lemma AheadByte(input: string, rflag: bool, delim: char, used: nat, backslash: bool, es: seq<Event>, i: nat, e: Event)
    requires used < |input| && Ahead(input, rflag, delim, used, backslash, es, i)
    requires ScanLine(input, used, rflag, delim, backslash)
          == var r := ScanLine(input, used + 1, rflag, delim, false); r.(items := [e] + r.items)
    ensures i < |es| && es[i] == e && Ahead(input, rflag, delim, used + 1, false, es, i + 1)
  {
    assert es[i] == es[i..][0] == e && es[i + 1..] == es[i..][1..];
  }

  /** `vals` are the values given to the n operands, in order; `used` is how much of the
      input has been consumed. */
  method ReadCmd(input: string, rflag: bool, delim: char, ifs: string, n: nat)
    returns (vals: seq<string>, status: int, used: nat)
    requires n >= 1
    ensures var line := ScanLine(input, 0, rflag, delim, false);
      vals == Assigned(ifs, n, line.items) && used == line.next && status == if line.terminated then 0 else 1
  {
    hide Inv, Step, ReadStep;
    ghost var es := ScanLine(input, 0, rflag, delim, false).items;
    ghost var i, s, z := 0, START, [];
    ScanHasNoMarks(input, 0, rflag, delim, false);
    InvInit(ifs, n, es);
    assert es[0..] == es;
    used, status, vals := 0, 1, [];
    var p, backslash := "", false;
    var startword, saveall, lastnonifs, lastnonifsws := 2, 0, -1, -1;
    while used < |input|
      invariant 0 <= used <= |input|
      invariant Inv(ifs, n, es, i, State(vals, p, startword, saveall, lastnonifs, lastnonifsws), s, z)
      invariant Ahead(input, rflag, delim, used, backslash, es, i)
    {
      var c := input[used];
      used := used + 1;
      if c == '\0' {
        continue;
      }
      var e := Exp(c);
      if backslash {
        backslash := false;
        if c == '\n' {
          continue;
        }
        e := Text(c);
        AheadByte(input, rflag, delim, used - 1, true, es, i, e);
      } else if !rflag && c == '\\' {
        backslash := true;
        continue;
      } else if c == delim {
        status := 0;
        break;
      } else {
        AheadByte(input, rflag, delim, used - 1, false, es, i, e);
      }
      z := InvStep(ifs, n, es, i, State(vals, p, startword, saveall, lastnonifs, lastnonifsws), s, z);
      vals, p, startword, saveall, lastnonifs, lastnonifsws :=
        ReadByte(ifs, n, e, vals, p, startword, saveall, lastnonifs, lastnonifsws);
      s, i := Step(ifs, s, e), i + 1;
    }
    assert i == |es| by { assert |es[i..]| == |es| - i; }
    InvEnd(ifs, n, es, State(vals, p, startword, saveall, lastnonifs, lastnonifsws), s, z);
    // Trailing white space always goes, another delimiter only when it was naked.
    if saveall <= 1 {
      lastnonifsws := lastnonifs;
    }
    vals := vals + [p[..lastnonifsws + 1]];
    while |vals| < n
      invariant |vals| <= n && vals + Blank(n - |vals|) == Assigned(ifs, n, es)
    {
      assert Blank(n - |vals|) == [""] + Blank(n - |vals| - 1);
      assert vals + ([""] + Blank(n - |vals| - 1)) == (vals + [""]) + Blank(n - |vals| - 1);
      vals := vals + [""];
    }
  }
}
