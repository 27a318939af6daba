/** What patterns written out as bytes match: laws of the syntax that patmatch of src/expand.c reads,
    said without its scanning functions. */
module PatLaws {
  import opened Ascii
  import opened PatMatch

  /** One byte matches one element. */
  lemma OneElement(p: string, e: Elem, c: char)
    requires Elems(p, 0) == [e] && e != Star
    ensures Matches(Elems(p, 0), [c]) <==> Accepts(e, c)
  {
    assert [e][1..] == [] && [c][1..] == "";
  }

  lemma ElemsOfOne(p: string)
    requires p != "" && ParseElem(p, 0).1 == |p|
    ensures Elems(p, 0) == [ParseElem(p, 0).0]
  {
    assert Elems(p, |p|) == [];
  }

  // ----- bracket expressions -----

  /** A byte that stands for itself inside brackets. */
  predicate IsPlainMember(c: char) {
    c != ']' && c != '-' && c != CTLESC && c != NUL
  }

  /** Plain bytes; a `[` among them begins no class and no symbol. */
  predicate PlainMembers(s: string) {
    && (forall i :: 0 <= i < |s| ==> IsPlainMember(s[i]))
    && (forall i :: 0 <= i < |s| - 1 && s[i] == '[' ==> s[i + 1] !in ":.=")
  }

  lemma InItemsOfMore(item: Item, items: seq<Item>, c: char)
    ensures InItems([item] + items, c) <==> InItem(item, c) || InItems(items, c)
  {
    var all := [item] + items;
    if InItem(item, c) {
      assert InItem(all[0], c);
    }
    if i :| 0 <= i < |items| && InItem(items[i], c) {
      assert InItem(all[i + 1], c);
    }
    if i :| 0 <= i < |all| && InItem(all[i], c) {
      assert i > 0 ==> InItem(items[i - 1], c);
    }
  }

  lemma InItemsOfOne(item: Item, c: char)
    ensures InItems([item], c) <==> InItem(item, c)
  {
    assert InItem([item][0], c) <==> InItem(item, c);
  }

  /** One plain byte. */
  lemma PlainItem(p: string, i: nat)
    requires i + 1 < |p| && p[i] != CTLESC && p[i + 1] != '-' && (p[i] == '[' ==> p[i + 1] !in ":.=")
    ensures ParseItem(p, i) == One(Single(p[i]), i + 1)
  {
  }

  /** Plain bytes up to the closing bracket, after a first byte that may be a bracket itself. */
  lemma {:induction false} PlainItems(p: string, i: nat, end: nat)
    requires i < end < |p| && p[end] == ']' && (p[i] == ']' || IsPlainMember(p[i]))
    requires forall j :: i < j < end ==> IsPlainMember(p[j])
    requires forall j :: i <= j < end && p[j] == '[' ==> p[j + 1] !in ":.="
    ensures ParseItems(p, i).Closed? && ParseItems(p, i).next == end + 1
    ensures forall c :: InItems(ParseItems(p, i).items, c) <==> c in p[i..end]
    decreases end - i
  {
    hide ParseItem, InItems;
    PlainItem(p, i);
    if i + 1 < end {
      PlainItems(p, i + 1, end);
    }
    forall c
      ensures InItems(ParseItems(p, i).items, c) <==> c in p[i..end]
    {
      assert p[i..end] == [p[i]] + p[i + 1..end];
      if i + 1 == end {
        InItemsOfOne(Single(p[i]), c);
      } else {
        InItemsOfMore(Single(p[i]), ParseItems(p, i + 1).items, c);
      }
    }
  }

  /** `[s]`, `[!s]` and `[^s]` for plain bytes, of which the first may also be a `]`. */
  lemma BracketIsASet(s: string, c: char)
    requires s != "" && PlainMembers(s[1..]) && (s[0] == ']' || PlainMembers(s))
    ensures s[0] != '!' && s[0] != '^' ==> (Matches(Elems("[" + s + "]", 0), [c]) <==> c in s)
    ensures Matches(Elems("[!" + s + "]", 0), [c]) <==> c !in s
    ensures Matches(Elems("[^" + s + "]", 0), [c]) <==> c !in s
  {
    if s[0] != '!' && s[0] != '^' {
      BracketOf("[", s, c);
    }
    BracketOf("[!", s, c);
    BracketOf("[^", s, c);
  }

  lemma BracketOf(open: string, s: string, c: char)
    requires open == "[!" || open == "[^" || (open == "[" && s != "" && s[0] != '!' && s[0] != '^')
    requires s != "" && PlainMembers(s[1..]) && (s[0] == ']' || PlainMembers(s))
    ensures Matches(Elems(open + s + "]", 0), [c]) <==> (c in s) == (open == "[")
  {
    hide ParseItems, InItems, Elems, Matches, PlainMembers;
    var p := open + s + "]";
    var i, end := |open|, |open| + |s|;
    assert p[0] == '[' && p[end] == ']' && p[i..end] == s;
    assert p[1] == if i == 2 then open[1] else s[0];
    InsideBrackets(p, i, s);
    PlainItems(p, i, end);
    var e := ParseElem(p, 0).0;
    assert e == Bracket(open != "[", ParseItems(p, i).items) && ParseElem(p, 0).1 == |p|;
    ElemsOfOne(p);
    OneElement(p, e, c);
  }

  /** Plain members where they stand in a pattern. */
  lemma InsideBrackets(p: string, i: nat, s: string)
    requires s != "" && PlainMembers(s[1..]) && (s[0] == ']' || PlainMembers(s))
    requires i + |s| < |p| && p[i..i + |s|] == s && p[i + |s|] == ']'
    ensures p[i] == ']' || IsPlainMember(p[i])
    ensures forall j :: i < j < i + |s| ==> IsPlainMember(p[j])
    ensures forall j :: i <= j < i + |s| && p[j] == '[' ==> p[j + 1] !in ":.="
  {
    assert p[i] == p[i..i + |s|][0];
    forall j | i <= j < i + |s|
      ensures j > i ==> IsPlainMember(p[j])
      ensures p[j] == '[' ==> p[j + 1] !in ":.="
    {
      var k := j - i;
      assert p[j] == p[i..i + |s|][k] == s[k];
      assert k > 0 ==> s[1..][k - 1] == s[k];
      if k + 1 < |s| {
        assert p[j + 1] == p[i..i + |s|][k + 1] == s[k + 1];
        assert s[1..][k] == s[k + 1];
      }
    }
  }

  /** `[lo-hi]` */
  lemma BracketIsARange(lo: char, hi: char, c: char)
    requires lo != '!' && lo != '^' && lo != CTLESC && lo != NUL && hi != ']' && hi != CTLESC && hi != NUL
    ensures Matches(Elems(['[', lo, '-', hi, ']'], 0), [c]) <==> lo <= c <= hi
  {
    var p := ['[', lo, '-', hi, ']'];
    assert ParseItem(p, 1) == One(Range(lo, hi), 4);
    assert ParseItems(p, 1) == Closed([Range(lo, hi)], 5);
    var e := Bracket(false, [Range(lo, hi)]);
    assert ParseElem(p, 0) == (e, 5);
    ElemsOfOne(p);
    OneElement(p, e, c);
    InItemsOfOne(Range(lo, hi), c);
  }

  predicate IsPunct(c: char) {
    c in "!\"#$%&'()*+,-./" || c in ":;<=>?@" || c in "[\\]^_`" || c in "{|}~"
  }

  /** The bytes of each character class of the C locale. */
  predicate IsOf(name: string, c: char) {
    match name
    case "upper" => c in UPPER
    case "lower" => c in LOWER
    case "alpha" => c in UPPER || c in LOWER
    case "digit" => c in DIGIT
    case "alnum" => c in UPPER || c in LOWER || c in DIGIT
    case "xdigit" => c in DIGIT || c in "ABCDEFabcdef"
    case "space" => c in " \t\n\r" || c == '\U{0B}' || c == '\U{0C}'
    case "blank" => c in " \t"
    case "cntrl" => c as int < 32 || c as int == 127
    case "print" => c == ' ' || c in UPPER || c in LOWER || c in DIGIT || IsPunct(c)
    case "graph" => c in UPPER || c in LOWER || c in DIGIT || IsPunct(c)
    case "punct" => IsPunct(c)
    case _ => false
  }

  lemma Punctuation(c: char)
    ensures IsPunct(c) <==> '!' <= c <= '/' || ':' <= c <= '@' || '[' <= c <= '`' || '{' <= c <= '~'
  {
    InRow("!\"#$%&'()*+,-./", '!', c);
    InRow(":;<=>?@", ':', c);
    InRow("[\\]^_`", '[', c);
    InRow("{|}~", '{', c);
  }

  /** A string of consecutive bytes. */
  lemma InRow(s: string, first: char, c: char)
    requires |s| < 1000 && first < '\U{80}' && forall i :: 0 <= i < |s| ==> s[i] as int == first as int + i
    ensures c in s <==> first <= c && (c as int) < first as int + |s|
  {
    if first <= c && (c as int) < first as int + |s| {
      assert s[c as int - first as int] == c;
    }
  }

  lemma ClassesByRange(name: string, c: char, upper: bool, lower: bool, digit: bool, punct: bool)
    requires upper == ('A' <= c <= 'Z') && lower == ('a' <= c <= 'z') && digit == ('0' <= c <= '9')
    requires punct == ('!' <= c <= '/' || ':' <= c <= '@' || '[' <= c <= '`' || '{' <= c <= '~')
    ensures InClass(name, c) <==>
      match name
      case "upper" => upper
      case "lower" => lower
      case "alpha" => upper || lower
      case "digit" => digit
      case "alnum" => upper || lower || digit
      case "xdigit" => digit || c in "ABCDEFabcdef"
      case "space" => c in " \t\n\r" || c == '\U{0B}' || c == '\U{0C}'
      case "blank" => c in " \t"
      case "cntrl" => c as int < 32 || c as int == 127
      case "print" => c == ' ' || upper || lower || digit || punct
      case "graph" => upper || lower || digit || punct
      case "punct" => punct
      case _ => false
  {
  }

  lemma ClassesAgree(name: string, c: char)
    ensures InClass(name, c) <==> IsOf(name, c)
  {
    UpperLetters(c);
    LowerLetters(c);
    DecimalDigits(c);
    Punctuation(c);
    ClassesByRange(name, c, c in UPPER, c in LOWER, c in DIGIT, IsPunct(c));
  }

  lemma ClassText(name: string)
    ensures PatternText([Bracket(false, [Class(name)])]) == "[[:" + name + ":]]"
  {
    var e := Bracket(false, [Class(name)]);
    assert [e][1..] == [] && [Class(name)][1..] == [];
    assert PatternText([e]) == ElemText(e) + "";
    assert ItemsText([Class(name)]) == ItemText(Class(name)) + "";
  }

  /** `[[:name:]]`; a name that is none has no members. */
  lemma BracketIsAClass(name: string, c: char)
    requires 0 < |name| < 20 && ':' !in name
    ensures Matches(Elems("[[:" + name + ":]]", 0), [c]) <==> IsOf(name, c)
  {
    hide Elems, Matches, InClass, IsOf, Accepts;
    var e := Bracket(false, [Class(name)]);
    ClassText(name);
    assert [Class(name)][0] == Class(name);
    PatternReadsBack([e]);
    OneElement(PatternText([e]), e, c);
    ClassAccepts(name, c);
  }

  lemma ClassAccepts(name: string, c: char)
    ensures Accepts(Bracket(false, [Class(name)]), c) <==> IsOf(name, c)
  {
    hide InClass, IsOf;
    InItemsOfOne(Class(name), c);
    ClassesAgree(name, c);
  }

  /** What a class may be named here: no byte that means something in brackets. */
  predicate IsClassName(name: string) {
    forall i :: 0 <= i < |name| ==> IsPlainMember(name[i]) && name[i] != '[' && name[i] != ':'
  }

  /** An empty name and one of 20 bytes or more begin no class: the brackets hold the bytes up to the first `]`. */
  lemma NoClassName(name: string, s: string)
    requires IsClassName(name) && (name == "" || |name| >= 20)
    ensures Matches(Elems("[[:" + name + ":]]", 0), s) <==> |s| == 2 && s[0] in "[:" + name && s[1] == ']'
  {
    hide ParseElem, Elems, Matches, Accepts;
    var p, end := "[[:" + name + ":]]", |name| + 4;
    assert p[end + 1] == ']';
    var items := NoClassItems(p, name);
    assert ParseElem(p, end + 1) == (Lit(']'), end + 2) by {
      LiteralHere(p, end + 1);
    }
    TwoElements(p, Bracket(false, items), Lit(']'), end + 1, s);
    if s != "" {
      BracketAccepts(items, s[0]);
    }
  }

  lemma BracketAccepts(items: seq<Item>, c: char)
    ensures Accepts(Bracket(false, items), c) <==> InItems(items, c)
  {
  }

  lemma LiteralHere(p: string, i: nat)
    requires i < |p| && p[i] == ']'
    ensures ParseElem(p, i) == (Lit(']'), i + 1)
  {
  }

  lemma NoClassItems(p: string, name: string) returns (items: seq<Item>)
    requires IsClassName(name) && (name == "" || |name| >= 20) && p == "[[:" + name + ":]]"
    ensures ParseElem(p, 0) == (Bracket(false, items), |name| + 5)
    ensures forall c :: InItems(items, c) <==> c in "[:" + name
  {
    hide InItems, ParseItem;
    var end := |name| + 4;
    assert p[0] == '[' && p[1] == '[' && p[2] == ':' && p[end - 1] == ':' && p[end] == ']';
    assert forall j :: 3 <= j < end - 1 ==> p[j] == name[j - 3];
    NoClassHere(p, name);
    PlainItems(p, 2, end);
    var more := ParseItems(p, 2).items;
    items := [Single('[')] + more;
    assert ParseItems(p, 1) == Closed(items, end + 1);
    forall c
      ensures InItems(items, c) <==> c in "[:" + name
    {
      InItemsOfMore(Single('['), more, c);
      assert p[2..end] == ":" + name + ":";
    }
  }

  lemma NoClassHere(p: string, name: string)
    requires IsClassName(name) && (name == "" || |name| >= 20) && p == "[[:" + name + ":]]"
    ensures ClassEnd(p, 2) == 0 && ParseItem(p, 1) == One(Single('['), 2)
  {
    assert p[1] == '[' && p[2] == ':' && p[|name| + 3] == ':' && p[|name| + 4] == ']';
    assert p[3..|name| + 3] == name;
    FirstColon(p, 3, name);
  }

  lemma TwoElements(p: string, e: Elem, f: Elem, i: nat, s: string)
    requires p != "" && 0 < i < |p| && ParseElem(p, 0) == (e, i) && ParseElem(p, i) == (f, |p|) && e.Bracket? && f.Lit?
    ensures Matches(Elems(p, 0), s) <==> |s| == 2 && Accepts(e, s[0]) && s[1] == f.c
  {
    assert Elems(p, |p|) == [] && Elems(p, i) == [f] && Elems(p, 0) == [e, f];
    assert [e, f][1..] == [f] && [f][1..] == [];
    if s != "" {
      assert Matches([e, f], s) <==> Accepts(e, s[0]) && Matches([f], s[1..]);
      assert s[1..] != "" ==> (Matches([f], s[1..]) <==> Accepts(f, s[1]) && Matches([], s[1..][1..]));
    }
  }

  // ----- every pattern -----

  /** A member that can be written in brackets. */
  predicate IsGoodItem(it: Item) {
    match it
    case Single(c) => c != NUL
    case Range(lo, hi) => lo != NUL && hi != NUL
    case Class(name) => 0 < |name| < CLASS_NAME_SIZE && ':' !in name
  }

  /** What an item can begin with. */
  predicate IsStart(c: char) {
    c == CTLESC || c == '['
  }

  function ItemText(it: Item): (t: string)
    ensures t != "" && IsStart(t[0])
  {
    match it
    case Single(c) => [CTLESC, c]
    case Range(lo, hi) => [CTLESC, lo, '-', CTLESC, hi]
    case Class(name) => "[:" + name + ":]"
  }

  function ItemsText(its: seq<Item>): string {
    if its == [] then "" else ItemText(its[0]) + ItemsText(its[1..])
  }

  predicate IsGood(e: Elem) {
    match e
    case Star => true
    case Any => true
    case Lit(c) => c != NUL
    case Bracket(_, items) => items != [] && forall i :: 0 <= i < |items| ==> IsGoodItem(items[i])
    case _ => false
  }

  /** How an element is written: quoted bytes have a CTLESC before them. */
  function ElemText(e: Elem): string {
    match e
    case Star => "*"
    case Any => "?"
    case Lit(c) => if c == '\\' then [CTLESC, '\\', CTLESC, '\\'] else [CTLESC, c]
    case Bracket(invert, items) => (if invert then "[!" else "[") + ItemsText(items) + "]"
    case _ => ""
  }

  function PatternText(es: seq<Elem>): string {
    if es == [] then "" else ElemText(es[0]) + PatternText(es[1..])
  }

  /** `t` stands in `p` at `i`. */
  predicate StandsAt(p: string, i: nat, t: string) {
    i + |t| <= |p| && p[i..i + |t|] == t
  }

  lemma StandAtBoth(p: string, i: nat, t: string, u: string)
    requires StandsAt(p, i, t + u)
    ensures StandsAt(p, i, t) && StandsAt(p, i + |t|, u)
  {
    assert p[i..i + |t|] == (t + u)[..|t|] && p[i + |t|..i + |t| + |u|] == (t + u)[|t|..];
  }

  lemma StandsAtEach(p: string, i: nat, t: string, k: nat)
    requires StandsAt(p, i, t) && k < |t|
    ensures p[i + k] == t[k]
  {
  }

  lemma ItemReadsBack(p: string, i: nat, it: Item)
    requires IsGoodItem(it) && StandsAt(p, i, ItemText(it)) && (var c := At(p, i + |ItemText(it)|); c == ']' || IsStart(c))
    ensures ParseItem(p, i) == One(it, i + |ItemText(it)|)
  {
    var t := ItemText(it);
    StandsAtEach(p, i, t, 0);
    StandsAtEach(p, i, t, 1);
    match it
    case Single(c) =>
    case Range(lo, hi) =>
      StandsAtEach(p, i, t, 2);
      StandsAtEach(p, i, t, 3);
      StandsAtEach(p, i, t, 4);
    case Class(name) => ClassReadsBack(p, i, name);
  }

  lemma FirstColon(p: string, i: nat, name: string)
    requires StandsAt(p, i, name) && ':' !in name && i + |name| + 1 < |p| && p[i + |name|] == ':' && p[i + |name| + 1] == ']'
    ensures Find2(p, i, ':', ']') == i + |name|
  {
    assert forall k :: 0 <= k < |name| ==> p[i..i + |name|][k] == name[k];
    assert forall j :: i <= j < i + |name| ==> p[j] == name[j - i];
  }

  lemma ClassReadsBack(p: string, i: nat, name: string)
    requires 0 < |name| < CLASS_NAME_SIZE && ':' !in name && StandsAt(p, i, "[:" + name + ":]")
    ensures ParseItem(p, i) == One(Class(name), i + |name| + 4)
  {
    hide Find2, ParseSymbol, ParseRange;
    var end := i + 2 + |name|;
    StandAtBoth(p, i, "[:" + name, ":]");
    StandAtBoth(p, i, "[:", name);
    StandsAtEach(p, i, "[:", 0);
    StandsAtEach(p, i, "[:", 1);
    StandsAtEach(p, end, ":]", 0);
    StandsAtEach(p, end, ":]", 1);
    assert p[i + 2..end] == name;
    FirstColon(p, i + 2, name);
  }

  /** One turn of the bracket loop. */
  lemma ItemsGoOn(p: string, i: nat, item: Item, j: nat)
    requires i < |p| && ParseItem(p, i) == One(item, j)
    ensures j <= |p|
    ensures ParseItems(p, i) == if At(p, j) == ']' then Closed([item], j + 1)
                                else if ParseItems(p, j).Closed? then Closed([item] + ParseItems(p, j).items, ParseItems(p, j).next)
                                else ParseItems(p, j)
  {
    hide ParseItem;
  }

  lemma {:induction false} ItemsReadBack(p: string, i: nat, its: seq<Item>)
    requires its != [] && (forall k :: 0 <= k < |its| ==> IsGoodItem(its[k])) && StandsAt(p, i, ItemsText(its) + "]")
    ensures ParseItems(p, i) == Closed(its, i + |ItemsText(its)| + 1)
    decreases |its|
  {
    hide ParseItem, ParseItems, ItemText, IsGoodItem, StandsAt;
    var t, rest := ItemText(its[0]), ItemsText(its[1..]) + "]";
    assert ItemsText(its) + "]" == t + rest;
    StandAtBoth(p, i, t, rest);
    StandsAtEach(p, i + |t|, rest, 0);
    assert |its| > 1 ==> rest[0] == ItemText(its[1])[0];
    assert |its| == 1 ==> rest == "]";
    ItemReadsBack(p, i, its[0]);
    StandsAtEach(p, i, t, 0);
    ItemsGoOn(p, i, its[0], i + |t|);
    assert its == [its[0]] + its[1..];
    if |its| > 1 {
      ItemsReadBack(p, i + |t|, its[1..]);
    }
  }

  lemma ElemReadsBack(p: string, i: nat, e: Elem)
    requires IsGood(e) && StandsAt(p, i, ElemText(e))
    ensures i < |p| && ParseElem(p, i) == (e, i + |ElemText(e)|)
  {
    hide ParseItems;
    var t := ElemText(e);
    StandsAtEach(p, i, t, 0);
    if e.Lit? {
      StandsAtEach(p, i, t, 1);
      if e.c == '\\' {
        StandsAtEach(p, i, t, 2);
        StandsAtEach(p, i, t, 3);
      }
    } else if e.Bracket? {
      var open, rest := if e.invert then "[!" else "[", ItemsText(e.items) + "]";
      assert t == open + rest;
      StandAtBoth(p, i, open, rest);
      StandsAtEach(p, i, t, 1);
      assert !e.invert ==> t[1] == ItemText(e.items[0])[0];
      ItemsReadBack(p, i + |open|, e.items);
    }
  }

  /** A pattern written from a list of elements is read as that list. */
  lemma PatternReadsBack(es: seq<Elem>)
    requires forall i :: 0 <= i < |es| ==> IsGood(es[i])
    ensures Elems(PatternText(es), 0) == es
  {
    ElemsReadBack(PatternText(es), 0, es);
  }

  lemma {:induction false} ElemsReadBack(p: string, i: nat, es: seq<Elem>)
    requires (forall k :: 0 <= k < |es| ==> IsGood(es[k])) && StandsAt(p, i, PatternText(es)) && i + |PatternText(es)| == |p|
    ensures Elems(p, i) == es
    decreases |es|
  {
    hide ParseElem, IsGood, ElemText, StandsAt;
    if es == [] {
      assert i == |p|;
    } else {
      StandAtBoth(p, i, ElemText(es[0]), PatternText(es[1..]));
      ElemReadsBack(p, i, es[0]);
      ElemsReadBack(p, i + |ElemText(es[0])|, es[1..]);
      assert es == [es[0]] + es[1..];
    }
  }

  // ----- bytes outside brackets -----

  /** A byte that stands for itself in a pattern. */
  predicate IsOrdinaryByte(c: char) {
    c != '*' && c != '?' && c != '[' && c != CTLESC && c != NUL
  }

  /** A string of ordinary bytes matches itself and nothing else. */
  lemma OrdinaryBytesMatchThemselves(s: string, t: string)
    requires forall k :: 0 <= k < |s| ==> IsOrdinaryByte(s[k])
    ensures Matches(Elems(s, 0), t) <==> t == s
  {
    OrdinaryFrom(s, 0, t);
  }

  /** `?` matches any one byte, `*` everything. */
  lemma WildBytes(s: string)
    ensures Matches(Elems("?", 0), s) <==> |s| == 1
    ensures Matches(Elems("*", 0), s)
  {
    ElemsOfOne("?");
    ElemsOfOne("*");
    assert [Any][1..] == [] && [Star][1..] == [];
    StarMatchesSomeSuffix([], s);
    assert [Star] + [] == [Star] && s[|s|..] == "";
  }

  /** A bracket that is never closed stands for itself. */
  lemma OpenBracketIsLiteral(s: string, t: string)
    requires forall k :: 0 <= k < |s| ==> IsOrdinaryByte(s[k]) && IsPlainMember(s[k])
    ensures Matches(Elems("[" + s, 0), t) <==> t == "[" + s
  {
    var p := "[" + s;
    assert forall k :: 1 <= k < |p| ==> p[k] == s[k - 1];
    NeverCloses(p, 1);
    if s != "" && Inverted(p, 1) {
      NeverCloses(p, 2);
    }
    assert ParseElem(p, 0) == (Lit('['), 1);
    assert Elems(p, 0)[1..] == Elems(p, 1);
    if t != "" {
      OrdinaryFrom(p, 1, t[1..]);
      assert p[1..] == s && t == [t[0]] + t[1..];
    }
  }

  lemma {:induction false} NeverCloses(p: string, i: nat)
    requires 1 <= i <= |p| && forall k :: i <= k < |p| ==> IsPlainMember(p[k])
    ensures ParseItems(p, i).Unterminated?
    decreases |p| - i
  {
    if i < |p| {
      assert ParseItem(p, i) == One(Single(p[i]), i + 1);
      NeverCloses(p, i + 1);
    }
  }

  lemma {:induction false} OrdinaryFrom(p: string, i: nat, t: string)
    requires i <= |p| && forall k :: i <= k < |p| ==> IsOrdinaryByte(p[k])
    ensures Matches(Elems(p, i), t) <==> t == p[i..]
    decreases |p| - i
  {
    if i < |p| {
      assert ParseElem(p, i) == (Lit(p[i]), i + 1);
      assert Elems(p, i)[1..] == Elems(p, i + 1) && p[i..] == [p[i]] + p[i + 1..];
      if t != "" {
        OrdinaryFrom(p, i + 1, t[1..]);
        assert t == [t[0]] + t[1..];
      }
    }
  }

  /** A byte after a CTLESC matches itself. */
  lemma QuotedByteMatchesItself(c: char, s: string)
    requires c != NUL
    ensures Matches(Elems(ElemText(Lit(c)), 0), s) <==> s == [c]
  {
    assert [Lit(c)][1..] == [] && PatternText([Lit(c)]) == ElemText(Lit(c)) + "";
    PatternReadsBack([Lit(c)]);
  }

  /** `[[.c.]]` and `[[=c=]]` */
  lemma BracketIsASymbol(marker: char, c: char, d: char)
    requires (marker == '.' || marker == '=') && c != NUL
    ensures Matches(Elems(['[', '[', marker, c, marker, ']', ']'], 0), [d]) <==> d == c
  {
    var p := ['[', '[', marker, c, marker, ']', ']'];
    assert Find2(p, 3, marker, ']') == 4;
    assert ParseItem(p, 1) == One(Single(c), 6);
    assert ParseItems(p, 1) == Closed([Single(c)], 7);
    var e := Bracket(false, [Single(c)]);
    ElemsOfOne(p);
    OneElement(p, e, d);
    InItemsOfOne(Single(c), d);
  }

  /** Two patterns one after the other match what consists of a match of each. */
  lemma {:induction false} MatchesInParts(a: seq<Elem>, b: seq<Elem>, s: string)
    ensures Matches(a + b, s) <==> exists k: nat :: SplitAt(a, b, s, k)
    decreases |a| + |s|
  {
    if a == [] {
      assert a + b == b && s[..0] == "" && s[0..] == s;
      assert Matches(b, s) ==> SplitAt(a, b, s, 0);
      assert forall k: nat :: SplitAt(a, b, s, k) ==> k == 0;
    } else {
      assert (a + b)[0] == a[0] && (a + b)[1..] == a[1..] + b;
      if a[0].Star? {
        MatchesInParts(a[1..], b, s);
        if s != "" {
          MatchesInParts(a, b, s[1..]);
        }
        StarInParts(a, b, s);
      } else if s != "" {
        MatchesInParts(a[1..], b, s[1..]);
        ByteInParts(a, b, s);
      }
    }
  }

  predicate SplitAt(a: seq<Elem>, b: seq<Elem>, s: string, k: nat) {
    k <= |s| && Matches(a, s[..k]) && Matches(b, s[k..])
  }

  lemma StarInParts(a: seq<Elem>, b: seq<Elem>, s: string)
    requires a != [] && a[0].Star?
    ensures (exists k: nat :: SplitAt(a, b, s, k)) <==>
      (exists k: nat :: SplitAt(a[1..], b, s, k)) || (s != "" && exists k: nat :: SplitAt(a, b, s[1..], k))
  {
    forall k: nat | SplitAt(a, b, s, k)
      ensures SplitAt(a[1..], b, s, k) || (s != "" && k >= 1 && SplitAt(a, b, s[1..], k - 1))
    {
      if !Matches(a[1..], s[..k]) {
        assert s[..k][1..] == s[1..][..k - 1] && s[1..][k - 1..] == s[k..];
      }
    }
    forall k: nat | s != "" && SplitAt(a, b, s[1..], k)
      ensures SplitAt(a, b, s, k + 1)
    {
      assert s[..k + 1][1..] == s[1..][..k] && s[1..][k..] == s[k + 1..];
    }
    forall k: nat | SplitAt(a[1..], b, s, k)
      ensures SplitAt(a, b, s, k)
    {
    }
  }

  lemma ByteInParts(a: seq<Elem>, b: seq<Elem>, s: string)
    requires a != [] && !a[0].Star? && s != ""
    ensures (exists k: nat :: SplitAt(a, b, s, k)) <==> Accepts(a[0], s[0]) && exists k: nat :: SplitAt(a[1..], b, s[1..], k)
  {
    forall k: nat | SplitAt(a, b, s, k)
      ensures k >= 1 && Accepts(a[0], s[0]) && SplitAt(a[1..], b, s[1..], k - 1)
    {
      assert s[..k][1..] == s[1..][..k - 1] && s[1..][k - 1..] == s[k..];
    }
    forall k: nat | Accepts(a[0], s[0]) && SplitAt(a[1..], b, s[1..], k)
      ensures SplitAt(a, b, s, k + 1)
    {
      assert s[..k + 1][1..] == s[1..][..k] && s[1..][k..] == s[k + 1..];
    }
  }

  /** A dash in last place is a member. */
  lemma DashInLastPlace(s: string, c: char)
    requires s != "" && PlainMembers(s) && s[0] != '!' && s[0] != '^'
    ensures Matches(Elems("[" + s + "-]", 0), [c]) <==> c in s || c == '-'
  {
    var p := "[" + s + "-]";
    var end := |s| + 1;
    assert p[0] == '[' && p[end] == '-' && p[end + 1] == ']' && p[1..end] == s;
    assert forall j :: 0 <= j < |s| ==> p[j + 1] == s[j];
    assert p[1] == s[0];
    DashLast(p, 1, end);
    var e := ParseElem(p, 0).0;
    assert e == Bracket(false, ParseItems(p, 1).items) && ParseElem(p, 0).1 == |p|;
    ElemsOfOne(p);
    OneElement(p, e, c);
  }

  lemma {:induction false} DashLast(p: string, i: nat, end: nat)
    requires 1 <= i <= end && end + 2 == |p| && p[end] == '-' && p[end + 1] == ']'
    requires forall j :: i <= j < end ==> IsPlainMember(p[j])
    requires forall j :: i <= j < end && p[j] == '[' ==> p[j + 1] !in ":.="
    ensures ParseItems(p, i).Closed? && ParseItems(p, i).next == end + 2
    ensures forall c :: InItems(ParseItems(p, i).items, c) <==> c in p[i..end] || c == '-'
    decreases end - i
  {
    hide InItems;
    DashItem(p, i, end);
    hide ParseItem;
    if i < end {
      DashLast(p, i + 1, end);
    }
    forall c
      ensures InItems(ParseItems(p, i).items, c) <==> c in p[i..end] || c == '-'
    {
      if i == end {
        assert p[i..end] == "";
        InItemsOfOne(Single('-'), c);
      } else {
        assert p[i..end] == [p[i]] + p[i + 1..end];
        InItemsOfMore(Single(p[i]), ParseItems(p, i + 1).items, c);
      }
    }
  }

  lemma DashItem(p: string, i: nat, end: nat)
    requires 1 <= i <= end && end + 2 == |p| && p[end] == '-' && p[end + 1] == ']'
    requires forall j :: i <= j < end ==> IsPlainMember(p[j])
    requires forall j :: i <= j < end && p[j] == '[' ==> p[j + 1] !in ":.="
    ensures ParseItem(p, i) == One(Single(p[i]), i + 1)
  {
  }

  /** The ends of a range may be symbols; an end that is written as one and is none makes a pattern that matches nothing. */
  lemma RangeOfSymbols(marker: char, lo: char, hi: char, c: char)
    requires (marker == '.' || marker == '=') && lo != NUL && hi != NUL
    ensures Matches(Elems(['[', '[', marker, lo, marker, ']', '-', '[', marker, hi, marker, ']', ']'], 0), [c]) <==> lo <= c <= hi
  {
    hide Find2, Elems, Matches;
    var p := ['[', '[', marker, lo, marker, ']', '-', '[', marker, hi, marker, ']', ']'];
    SymbolIn(p, 2);
    SymbolIn(p, 8);
    assert ParseItem(p, 1) == One(Range(lo, hi), 12);
    assert ParseItems(p, 1) == Closed([Range(lo, hi)], 13);
    var e := Bracket(false, [Range(lo, hi)]);
    ElemsOfOne(p);
    OneElement(p, e, c);
    InItemsOfOne(Range(lo, hi), c);
  }

  lemma SymbolIn(p: string, i: nat)
    requires i + 3 < |p| && p[i + 2] == p[i] && p[i + 3] == ']' && p[i] != ']'
    ensures ParseSymbol(p, i) == Symbol(p[i + 1], i + 4)
  {
    assert Find2(p, i + 1, p[i], ']') == i + 2;
  }

  lemma BadRangeMatchesNothing(lo: char, s: string)
    requires IsPlainMember(lo) && lo != '[' && lo != '!' && lo != '^'
    ensures !Matches(Elems(['[', lo, '-', '[', '.', ']', ']'], 0), s)
  {
    var p := ['[', lo, '-', '[', '.', ']', ']'];
    assert Find2(p, 5, '.', ']') == |p|;
    assert ParseSymbol(p, 4) == NoSymbol;
    assert ParseItem(p, 1) == BadRange;
    ElemsOfOne(p);
  }

  /** After a quoted backslash the next byte is quoted too. */
  lemma AfterQuotedBackslash(c: char, s: string)
    requires c != NUL && c != CTLESC
    ensures Matches(Elems([CTLESC, '\\', c], 0), s) <==> s == [c]
    ensures Matches(Elems([CTLESC, '\\'], 0), s) <==> s == "\\"
  {
    assert ParseElem([CTLESC, '\\', c], 0) == (Lit(c), 3);
    assert ParseElem([CTLESC, '\\'], 0) == (Lit('\\'), 2);
    ElemsOfOne([CTLESC, '\\', c]);
    ElemsOfOne([CTLESC, '\\']);
    assert [Lit(c)][1..] == [] && [Lit('\\')][1..] == [];
  }
}
