/** Field splitting of src/expand.c: nextword, stputs_split and the parts of argstr and
    expandarg that touch the word under construction, with pathname expansion off.
    The grammar is that of section 2.6.5 of IEEE Std 1003.1-2024 (XCU). */
module FieldSplit {

  /** What reaches the word under construction, in order: a byte of an unquoted expansion,
      a byte that is never a delimiter, or the mark at the start of a quoted part. */
  datatype Event = Exp(c: char) | Text(c: char) | Mark

  const DEFAULT_IFS := " \t\n"

  predicate IsWhite(c: char) {
    c == '\t' || c == '\n' || c == ' '
  }

  /** An IFS white space delimiter event, and any other IFS delimiter event. */
  predicate IsW(ifs: string, e: Event) {
    e.Exp? && e.c in ifs && IsWhite(e.c)
  }

  predicate IsN(ifs: string, e: Event) {
    e.Exp? && e.c in ifs && !IsWhite(e.c)
  }

  predicate IsDelim(ifs: string, e: Event) {
    e.Exp? && e.c in ifs
  }

  // ----- the grammar -----

  function DropWs(ifs: string, es: seq<Event>): (r: seq<Event>)
    ensures |r| <= |es| && (r != [] ==> !IsW(ifs, r[0]))
  {
    if es != [] && IsW(ifs, es[0]) then DropWs(ifs, es[1..]) else es
  }

  /** One delimiter: W* N W* or W+. */
  function DropDelim(ifs: string, es: seq<Event>): (r: seq<Event>)
    ensures |r| <= |es| && (r != [] ==> !IsW(ifs, r[0]))
    ensures es != [] && IsDelim(ifs, es[0]) ==> |r| < |es|
  {
    var d := DropWs(ifs, es);
    if d != [] && IsN(ifs, d[0]) then DropWs(ifs, d[1..]) else d
  }

  function Bytes(e: Event): string {
    if e.Mark? then "" else [e.c]
  }

  /** The field at the front, which may be empty, and what follows it. */
  function TakeField(ifs: string, es: seq<Event>): string {
    if es == [] || IsDelim(ifs, es[0]) then "" else Bytes(es[0]) + TakeField(ifs, es[1..])
  }

  function DropField(ifs: string, es: seq<Event>): (r: seq<Event>)
    ensures |r| <= |es| && (r != [] ==> IsDelim(ifs, r[0]))
    ensures es != [] && !IsDelim(ifs, es[0]) ==> |r| < |es|
  {
    if es == [] || IsDelim(ifs, es[0]) then es else DropField(ifs, es[1..])
  }

  /** Leading white space is dropped, fields are separated by one delimiter each, and a
      delimiter at the end makes no empty field. */
  function Fields(ifs: string, es: seq<Event>): seq<string>
    decreases |es|
  {
    var d := DropWs(ifs, es);
    if d == [] then []
    else [TakeField(ifs, d)] + Fields(ifs, DropDelim(ifs, DropField(ifs, d)))
  }

  // ----- the three-state machine as a function -----

  datatype WordState = Idle | WsDelimited | QuoteMark

  /** The words produced so far, the word under construction, and dst->state. */
  datatype Split = Split(words: seq<string>, word: string, state: WordState)

  const START := Split([], "", Idle)

  function NextWordStep(s: Split, c: char): Split {
    if s.word != "" || (if IsWhite(c) then s.state.QuoteMark? else !s.state.WsDelimited?) then
      Split(s.words + [s.word], "", if IsWhite(c) then WsDelimited else Idle)
    else if !IsWhite(c) && s.state.WsDelimited? then s.(state := Idle)
    else s
  }

  function Step(ifs: string, s: Split, e: Event): Split {
    match e
    case Mark => if s.word == "" then s.(state := QuoteMark) else s
    case Text(c) => s.(word := s.word + [c])
    case Exp(c) => if c in ifs then NextWordStep(s, c) else s.(word := s.word + [c])
  }

  function Run(ifs: string, s: Split, es: seq<Event>): Split
    decreases |es|
  {
    if es == [] then s else Run(ifs, Step(ifs, s, es[0]), es[1..])
  }

  /** The end of expandarg. */
  function Finish(s: Split): seq<string> {
    if s.word != "" || s.state.QuoteMark? then s.words + [s.word] else s.words
  }

  // ----- the machine implements the grammar -----

  /** The fields still to come from the middle of a word, after white space, or elsewhere. */
  function ToCome(ifs: string, s: Split, es: seq<Event>): seq<string> {
    if s.word != "" || s.state.QuoteMark? then
      [s.word + TakeField(ifs, es)] + Fields(ifs, DropDelim(ifs, DropField(ifs, es)))
    else if s.state.WsDelimited? then Fields(ifs, DropDelim(ifs, es))
    else Fields(ifs, es)
  }

  lemma DropWsIdempotent(ifs: string, es: seq<Event>)
    ensures DropWs(ifs, DropWs(ifs, es)) == DropWs(ifs, es)
    ensures Fields(ifs, DropWs(ifs, es)) == Fields(ifs, es)
    ensures DropDelim(ifs, DropWs(ifs, es)) == DropDelim(ifs, es)
  {
  }

  lemma FieldsAt(ifs: string, es: seq<Event>)
    requires es != [] && !IsW(ifs, es[0])
    ensures Fields(ifs, es) == [TakeField(ifs, es)] + Fields(ifs, DropDelim(ifs, DropField(ifs, es)))
  {
  }

  lemma StepW(ifs: string, s: Split, es: seq<Event>)
    requires es != [] && IsW(ifs, es[0])
    ensures var t := Step(ifs, s, es[0]);
      if t.words == s.words then ToCome(ifs, s, es) == ToCome(ifs, t, es[1..])
      else t.words == s.words + [s.word] && ToCome(ifs, s, es) == [s.word] + ToCome(ifs, t, es[1..])
  {
    assert s.word + "" == s.word;
    assert TakeField(ifs, es) == "" && DropField(ifs, es) == es;
    assert DropDelim(ifs, es) == DropDelim(ifs, es[1..]);
    assert DropWs(ifs, es) == DropWs(ifs, es[1..]);
  }

  lemma StepN(ifs: string, s: Split, es: seq<Event>)
    requires es != [] && IsN(ifs, es[0])
    ensures var t := Step(ifs, s, es[0]);
      if t.words == s.words then ToCome(ifs, s, es) == ToCome(ifs, t, es[1..])
      else t.words == s.words + [s.word] && ToCome(ifs, s, es) == [s.word] + ToCome(ifs, t, es[1..])
  {
    assert s.word + "" == s.word;
    assert TakeField(ifs, es) == "" && DropField(ifs, es) == es;
    assert DropDelim(ifs, es) == DropWs(ifs, es[1..]);
    DropWsIdempotent(ifs, es[1..]);
    FieldsAt(ifs, es);
  }

  /** A delimiter byte either completes the word under construction or adds no field. */
  lemma StepDelim(ifs: string, s: Split, es: seq<Event>)
    requires es != [] && IsDelim(ifs, es[0])
    ensures var t := Step(ifs, s, es[0]);
      if t.words == s.words then ToCome(ifs, s, es) == ToCome(ifs, t, es[1..])
      else t.words == s.words + [s.word] && ToCome(ifs, s, es) == [s.word] + ToCome(ifs, t, es[1..])
  {
    if IsW(ifs, es[0]) {
      StepW(ifs, s, es);
    } else {
      StepN(ifs, s, es);
    }
  }

  /** Before a byte that is no delimiter a field is going on or about to start. */
  lemma ToComeNonDelim(ifs: string, s: Split, es: seq<Event>)
    requires es != [] && !IsDelim(ifs, es[0])
    ensures ToCome(ifs, s, es)
         == [s.word + TakeField(ifs, es)] + Fields(ifs, DropDelim(ifs, DropField(ifs, es)))
  {
    FieldsAt(ifs, es);
    assert DropDelim(ifs, es) == es;
    if s.word == "" {
      assert s.word + TakeField(ifs, es) == TakeField(ifs, es);
    }
  }

  lemma StepNonDelim(ifs: string, s: Split, es: seq<Event>)
    requires es != [] && !IsDelim(ifs, es[0])
    ensures Step(ifs, s, es[0]).words == s.words
    ensures ToCome(ifs, s, es) == ToCome(ifs, Step(ifs, s, es[0]), es[1..])
  {
    ToComeNonDelim(ifs, s, es);
    TakeOne(ifs, s.word, es);
  }

  lemma TakeOne(ifs: string, word: string, es: seq<Event>)
    requires es != [] && !IsDelim(ifs, es[0])
    ensures word + TakeField(ifs, es) == (word + Bytes(es[0])) + TakeField(ifs, es[1..])
    ensures DropField(ifs, es) == DropField(ifs, es[1..])
    ensures es[0].Mark? ==> word + Bytes(es[0]) == word
  {
    var b, rest := Bytes(es[0]), TakeField(ifs, es[1..]);
    assert TakeField(ifs, es) == b + rest;
    assert word + (b + rest) == (word + b) + rest;
  }

  lemma {:induction false} RunToCome(ifs: string, s: Split, es: seq<Event>)
    ensures Finish(Run(ifs, s, es)) == s.words + ToCome(ifs, s, es)
    decreases |es|
  {
    if es == [] {
      assert s.word + "" == s.word;
    } else {
      var t := Step(ifs, s, es[0]);
      if IsDelim(ifs, es[0]) {
        StepDelim(ifs, s, es);
        var tail := ToCome(ifs, t, es[1..]);
        assert (s.words + [s.word]) + tail == s.words + ([s.word] + tail);
      } else {
        StepNonDelim(ifs, s, es);
      }
      RunToCome(ifs, Step(ifs, s, es[0]), es[1..]);
    }
  }

  /** For every IFS and every sequence of events the machine produces the fields of the grammar. */
  lemma MachineSplitsFields(ifs: string, es: seq<Event>)
    ensures Finish(Run(ifs, START, es)) == Fields(ifs, es)
  {
    RunToCome(ifs, START, es);
  }

  /** Expanding two values in turn is expanding their concatenation. */
  lemma {:induction false} RunConcat(ifs: string, s: Split, a: seq<Event>, b: seq<Event>)
    ensures Run(ifs, s, a + b) == Run(ifs, Run(ifs, s, a), b)
    decreases |a|
  {
    if a == [] {
      assert a + b == b;
    } else {
      assert (a + b)[1..] == a[1..] + b;
      RunConcat(ifs, Step(ifs, s, a[0]), a[1..], b);
    }
  }

  // ----- fields put together come apart again -----

  predicate IsFieldText(ifs: string, f: seq<Event>) {
    forall i :: 0 <= i < |f| ==> !IsDelim(ifs, f[i])
  }

  predicate AllW(ifs: string, d: seq<Event>) {
    forall i :: 0 <= i < |d| ==> IsW(ifs, d[i])
  }

  /** W* N W*, or W+. */
  datatype Delimiter = Delimiter(before: seq<Event>, n: seq<Event>, after: seq<Event>)

  function Unfold(d: Delimiter): seq<Event> {
    d.before + d.n + d.after
  }

  predicate IsDelimiter(ifs: string, d: Delimiter) {
    && AllW(ifs, d.before) && AllW(ifs, d.after)
    && (if d.n == [] then d.before != [] && d.after == [] else |d.n| == 1 && IsN(ifs, d.n[0]))
  }

  function FieldBytes(f: seq<Event>): string {
    if f == [] then "" else Bytes(f[0]) + FieldBytes(f[1..])
  }

  /** Fields with the delimiter after each of them.  An empty field is followed at once by
      its N, and white space alone does not delimit an empty field that follows. */
  predicate Joinable(ifs: string, fs: seq<(seq<Event>, Delimiter)>) {
    forall i :: 0 <= i < |fs| ==>
      && IsFieldText(ifs, fs[i].0) && IsDelimiter(ifs, fs[i].1)
      && (fs[i].0 == [] ==> fs[i].1.before == [])
      && (i + 1 < |fs| && fs[i].1.n == [] ==> fs[i + 1].0 != [])
  }

  function Join(fs: seq<(seq<Event>, Delimiter)>): seq<Event> {
    if fs == [] then [] else fs[0].0 + Unfold(fs[0].1) + Join(fs[1..])
  }

  function Texts(fs: seq<(seq<Event>, Delimiter)>): seq<string> {
    if fs == [] then [] else [FieldBytes(fs[0].0)] + Texts(fs[1..])
  }

  lemma {:induction false} FieldThenDelimiter(ifs: string, f: seq<Event>, rest: seq<Event>)
    requires IsFieldText(ifs, f) && (rest != [] ==> IsDelim(ifs, rest[0]))
    ensures TakeField(ifs, f + rest) == FieldBytes(f) && DropField(ifs, f + rest) == rest
    decreases |f|
  {
    if f == [] {
      assert f + rest == rest;
    } else {
      assert (f + rest)[0] == f[0] && (f + rest)[1..] == f[1..] + rest;
      FieldThenDelimiter(ifs, f[1..], rest);
    }
  }

  lemma {:induction false} DropAllW(ifs: string, d: seq<Event>, rest: seq<Event>)
    requires AllW(ifs, d)
    ensures DropWs(ifs, d + rest) == DropWs(ifs, rest)
    decreases |d|
  {
    if d == [] {
      assert d + rest == rest;
    } else {
      assert (d + rest)[0] == d[0] && (d + rest)[1..] == d[1..] + rest;
      DropAllW(ifs, d[1..], rest);
    }
  }

  lemma DropOneDelimiter(ifs: string, d: Delimiter, rest: seq<Event>)
    requires IsDelimiter(ifs, d)
    requires rest != [] ==> !IsW(ifs, rest[0]) && (d.n == [] ==> !IsN(ifs, rest[0]))
    ensures DropDelim(ifs, Unfold(d) + rest) == rest
  {
    assert Unfold(d) + rest == d.before + (d.n + (d.after + rest));
    DropAllW(ifs, d.before, d.n + (d.after + rest));
    DropAllW(ifs, d.after, rest);
    if d.n == [] {
      assert d.n + (d.after + rest) == rest;
    } else {
      assert (d.n + (d.after + rest))[1..] == d.after + rest;
    }
  }

  lemma JoinStart(ifs: string, fs: seq<(seq<Event>, Delimiter)>)
    requires Joinable(ifs, fs) && fs != []
    ensures Join(fs) != [] && !IsW(ifs, Join(fs)[0])
    ensures fs[0].0 != [] ==> !IsDelim(ifs, Join(fs)[0])
  {
    var (f, d) := fs[0];
    if f != [] {
      assert Join(fs)[0] == f[0];
    } else {
      assert Join(fs)[0] == d.n[0];
    }
  }

  lemma JoinedFirst(ifs: string, fs: seq<(seq<Event>, Delimiter)>)
    requires Joinable(ifs, fs) && fs != []
    ensures Fields(ifs, Join(fs)) == [FieldBytes(fs[0].0)] + Fields(ifs, Join(fs[1..]))
  {
    JoinStart(ifs, fs);
    if |fs| > 1 {
      JoinStart(ifs, fs[1..]);
    }
    FieldsAt(ifs, Join(fs));
    JoinSplitsFirst(ifs, fs[0].0, fs[0].1, Join(fs[1..]));
  }

  lemma JoinSplitsFirst(ifs: string, f: seq<Event>, d: Delimiter, rest: seq<Event>)
    requires IsFieldText(ifs, f) && IsDelimiter(ifs, d)
    requires rest != [] ==> !IsW(ifs, rest[0]) && (d.n == [] ==> !IsN(ifs, rest[0]))
    ensures var es := f + Unfold(d) + rest;
      TakeField(ifs, es) == FieldBytes(f) && DropDelim(ifs, DropField(ifs, es)) == rest
  {
    assert f + Unfold(d) + rest == f + (Unfold(d) + rest);
    assert Unfold(d) != [] && IsDelim(ifs, Unfold(d)[0]);
    FieldThenDelimiter(ifs, f, Unfold(d) + rest);
    DropOneDelimiter(ifs, d, rest);
  }

  /** Whatever the leading white space, fields joined by delimiters split into themselves;
      in particular the delimiter after the last one adds nothing. */
  lemma {:induction false} SplitOfJoined(ifs: string, lead: seq<Event>, fs: seq<(seq<Event>, Delimiter)>)
    requires AllW(ifs, lead) && Joinable(ifs, fs)
    ensures Fields(ifs, lead + Join(fs)) == Texts(fs)
    decreases |fs|
  {
    DropAllW(ifs, lead, Join(fs));
    DropWsIdempotent(ifs, lead + Join(fs));
    DropWsIdempotent(ifs, Join(fs));
    if fs != [] {
      SplitOfJoined(ifs, [], fs[1..]);
      assert [] + Join(fs[1..]) == Join(fs[1..]);
      JoinedFirst(ifs, fs);
    }
  }

  // ----- the code -----

  function Expansion(data: string): (r: seq<Event>)
    ensures |r| == |data|
  {
    seq(|data|, i requires 0 <= i < |data| => Exp(data[i]))
  }

  /** struct worddest together with the stack string it builds words in. */
  class WordDest {
    var list: seq<string>
    var state: WordState
    var p: string

    ghost function Value(): Split
      reads this
    {
      Split(list, p, state)
    }

    constructor ()
      ensures Value() == START
    {
      list, state, p := [], Idle, "";
    }

    method NextWord(c: char)
      modifies this
      ensures Value() == NextWordStep(old(Value()), c)
    {
      var isWs := c == '\t' || c == '\n' || c == ' ';
      if p != "" || (if isWs then state.QuoteMark? else !state.WsDelimited?) {
        list := list + [p];
        state := if isWs then WsDelimited else Idle;
      } else if !isWs && state.WsDelimited? {
        state := Idle;
      }
      p := "";
    }

    /** An unquoted expansion with the given IFS. */
    method StputsSplit(data: string, ifs: string)
      modifies this
      ensures Value() == Run(ifs, old(Value()), Expansion(data))
    {
      var i := 0;
      while i < |data|
        invariant 0 <= i <= |data|
        invariant Run(ifs, old(Value()), Expansion(data)) == Run(ifs, Value(), Expansion(data[i..]))
      {
        var c := data[i];
        assert Expansion(data[i..])[0] == Exp(c);
        assert Expansion(data[i..])[1..] == Expansion(data[i + 1..]);
        i := i + 1;
        if c in ifs {
          NextWord(c);
          continue;
        }
        p := p + [c];
      }
    }

    /** A byte of argstr that is not subject to splitting. */
    method PutText(c: char)
      modifies this
      ensures forall ifs :: Value() == Step(ifs, old(Value()), Text(c))
    {
      p := p + [c];
    }

    /** CTLQUOTEMARK in argstr. */
    method PutQuoteMark()
      modifies this
      ensures forall ifs :: Value() == Step(ifs, old(Value()), Mark)
    {
      if p == "" {
        state := QuoteMark;
      }
    }

    /** The end of expandarg, when splitting was asked for. */
    method FinishWord() returns (words: seq<string>)
      modifies this
      ensures words == Finish(old(Value()))
    {
      if p != "" || state.QuoteMark? {
        list := list + [p];
        p := "";
      }
      words := list;
    }
  }

  /** The expansions $a$b: two unquoted values in turn, IFS fixed. */
  method ExpandTwo(a: string, b: string, ifs: string) returns (words: seq<string>)
    ensures words == Fields(ifs, Expansion(a + b))
  {
    var dst := new WordDest();
    dst.StputsSplit(a, ifs);
    dst.StputsSplit(b, ifs);
    assert Expansion(a + b) == Expansion(a) + Expansion(b);
    RunConcat(ifs, START, Expansion(a), Expansion(b));
    MachineSplitsFields(ifs, Expansion(a + b));
    words := dst.FinishWord();
  }
}
