/** patmatch of src/expand.c: the iterative pattern matcher, in a single-byte locale that
    collates by byte value.  Strings are sequences of nonzero bytes (a C string without
    its terminating NUL). */
module PatMatch {

  const CTLESC: char := '\U{C0}'
  const NUL: char := '\0'
  /** sizeof(name) in match_charclass */
  const CLASS_NAME_SIZE := 20

  /** The byte a C pointer at offset `i` of `s` reads; the terminator is at |s|. */
  function At(s: string, i: nat): char {
    if i < |s| then s[i] else NUL
  }

  predicate IsCString(s: string) {
    NUL !in s
  }

  /** strstr for a two-byte needle: the first offset at or after `i`, or |s|. */
  function Find2(s: string, i: nat, a: char, b: char): (j: nat)
    requires i <= |s|
    ensures i <= j <= |s|
    ensures j < |s| ==> j + 1 < |s| && s[j] == a && s[j + 1] == b
    ensures forall k :: i <= k < j && k + 1 < |s| ==> !(s[k] == a && s[k + 1] == b)
    decreases |s| - i
  {
    if i + 1 >= |s| then |s|
    else if s[i] == a && s[i + 1] == b then i
    else Find2(s, i + 1, a, b)
  }

  // ----- bracket expressions -----

  datatype Item = Single(c: char) | Range(lo: char, hi: char) | Class(name: string)

  /** iswctype in the C locale, as 0 or 1; an unknown class has no members. */
  predicate InClass(name: string, c: char) {
    match name
    case "upper" => 'A' <= c <= 'Z'
    case "lower" => 'a' <= c <= 'z'
    case "alpha" => 'A' <= c <= 'Z' || 'a' <= c <= 'z'
    case "digit" => '0' <= c <= '9'
    case "alnum" => 'A' <= c <= 'Z' || 'a' <= c <= 'z' || '0' <= c <= '9'
    case "xdigit" => '0' <= c <= '9' || 'A' <= c <= 'F' || 'a' <= c <= 'f'
    case "space" => c == ' ' || '\t' <= c <= '\r'
    case "blank" => c == ' ' || c == '\t'
    case "cntrl" => c < ' ' || c == '\U{7F}'
    case "print" => ' ' <= c <= '~'
    case "graph" => '!' <= c <= '~'
    case "punct" => '!' <= c <= '/' || ':' <= c <= '@' || '[' <= c <= '`' || '{' <= c <= '~'
    case _ => false
  }

  predicate InItem(it: Item, c: char) {
    match it
    case Single(d) => c == d
    case Range(lo, hi) => lo <= c <= hi
    case Class(name) => InClass(name, c)
  }

  predicate InItems(its: seq<Item>, c: char) {
    exists i :: 0 <= i < |its| && InItem(its[i], c)
  }

  /** A collating symbol or equivalence class "[.x.]", "[=x=]"; `i` is at the marker. */
  datatype Symbol = NoSymbol | Symbol(c: char, next: nat)

  function ParseSymbol(p: string, i: nat): (r: Symbol)
    ensures r.Symbol? ==> i + 3 < r.next <= |p|
  {
    var marker := At(p, i);
    if i + 1 > |p| then NoSymbol
    else
      var end := Find2(p, i + 1, marker, ']');
      if end == |p| || end != i + 2 then NoSymbol else Symbol(p[i + 1], end + 2)
  }

  /** A class name "[:name:]"; `i` is at the first colon.  The result is the offset after
      the closing bracket, or 0 when this is not a class. */
  function ClassEnd(p: string, i: nat): (r: nat)
    ensures r != 0 ==> i + 3 < r <= |p|
  {
    if i + 1 > |p| then 0
    else
      var end := Find2(p, i + 1, ':', ']');
      if end == |p| || end - (i + 1) >= CLASS_NAME_SIZE || end == i + 1 then 0 else end + 2
  }

  datatype ScanItem =
    | One(item: Item, next: nat)
    | BadRange      // a range whose end is not a valid symbol: patmatch gives up
    | PastEnd       // the scan would step over the terminating NUL

  /** The range tail of a bracket element whose first character is `lo`; `i` is after it. */
  function ParseRange(p: string, lo: char, i: nat): (r: ScanItem)
    requires i <= |p|
    ensures r.One? ==> i <= r.next <= |p|
  {
    if At(p, i) == '-' && At(p, i + 1) != ']' then
      var j := if At(p, i + 1) == CTLESC then i + 2 else i + 1;
      if At(p, j) == '[' && (At(p, j + 1) == '.' || At(p, j + 1) == '=') then
        match ParseSymbol(p, j + 1)
        case NoSymbol => BadRange
        case Symbol(hi, next) => One(Range(lo, hi), next)
      else if j >= |p| then PastEnd
      else One(Range(lo, p[j]), j + 1)
    else One(Single(lo), i)
  }

  /** One turn of the bracket loop, with the current character at `i`. */
  function ParseItem(p: string, i: nat): (r: ScanItem)
    requires i < |p|
    ensures r.One? ==> i < r.next <= |p|
  {
    var c := p[i];
    if c == '[' && At(p, i + 1) == ':' && ClassEnd(p, i + 1) != 0 then
      var end := ClassEnd(p, i + 1);
      One(Class(p[i + 2..end - 2]), end)
    else if c == '[' && (At(p, i + 1) == '.' || At(p, i + 1) == '=')
            && ParseSymbol(p, i + 1).Symbol? then
      var sym := ParseSymbol(p, i + 1);
      ParseRange(p, sym.c, sym.next)
    else if c == CTLESC then
      if i + 1 >= |p| then PastEnd else ParseRange(p, p[i + 1], i + 2)
    else ParseRange(p, c, i + 1)
  }

  datatype Scan =
    | Closed(items: seq<Item>, next: nat)
    | Unterminated
    | GiveUp
    | Overrun

  /** The items from `i` to the closing bracket, of which there is at least one. */
  function ParseItems(p: string, i: nat): (r: Scan)
    requires i <= |p|
    ensures r.Closed? ==> i < r.next <= |p|
    decreases |p| - i
  {
    if i == |p| then Unterminated
    else
      match ParseItem(p, i)
      case BadRange => GiveUp
      case PastEnd => Overrun
      case One(item, j) =>
        if At(p, j) == ']' then Closed([item], j + 1)
        else
          match ParseItems(p, j)
          case Closed(items, next) => Closed([item] + items, next)
          case other => other
  }

  predicate Inverted(p: string, i: nat) {
    At(p, i) == '!' || At(p, i) == '^'
  }

  // ----- patterns as lists of elements -----

  datatype Elem =
    | Star
    | Any
    | Lit(c: char)
    | Bracket(invert: bool, items: seq<Item>)
    | Nothing         // matches no byte
    | IllFormed       // scanning it reads past the end of the pattern

  /** The element at `i` and the offset after it. */
  function ParseElem(p: string, i: nat): (r: (Elem, nat))
    requires i < |p|
    ensures i < r.1 <= |p|
  {
    var c := p[i];
    if c == '*' then (Star, i + 1)
    else if c == '?' then (Any, i + 1)
    else if c == CTLESC then
      if At(p, i + 1) == '\\' && At(p, i + 2) != NUL then
        var j := if p[i + 2] == CTLESC then i + 3 else i + 2;
        if At(p, j) == NUL then (IllFormed, |p|) else (Lit(p[j]), j + 1)
      else if At(p, i + 1) == NUL then (IllFormed, |p|)
      else (Lit(p[i + 1]), i + 2)
    else if c == '[' then
      var k := if Inverted(p, i + 1) then i + 2 else i + 1;
      match ParseItems(p, k)
      case Closed(items, next) => (Bracket(Inverted(p, i + 1), items), next)
      case Unterminated => (Lit('['), i + 1)
      case GiveUp => (Nothing, |p|)
      case Overrun => (IllFormed, |p|)
    else (Lit(c), i + 1)
  }

  function Elems(p: string, i: nat): seq<Elem>
    requires i <= |p|
    decreases |p| - i
  {
    if i == |p| then [] else [ParseElem(p, i).0] + Elems(p, ParseElem(p, i).1)
  }

  predicate WellFormed(p: string) {
    IsCString(p) && IllFormed !in Elems(p, 0)
  }

  // ----- patterns that are read past their end -----

  /** The end of a range is looked for at the terminating NUL or behind it. */
  lemma RangeStepsPastEnd(p: string, lo: char, i: nat)
    requires i <= |p|
    ensures ParseRange(p, lo, i).PastEnd? <==>
      i < |p| && p[i] == '-' && (i + 1 == |p| || (i + 2 == |p| && p[i + 1] == CTLESC))
  {
  }

  predicate EndsOpen(p: string) {
    p != "" && (p[|p| - 1] == '-' || p[|p| - 1] == CTLESC)
  }

  lemma {:induction false} OverrunEndsOpen(p: string, i: nat)
    requires i <= |p| && ParseItems(p, i).Overrun?
    ensures EndsOpen(p)
    decreases |p| - i
  {
    hide ParseRange, ParseSymbol, ClassEnd;
    match ParseItem(p, i)
    case PastEnd => PastEndEndsOpen(p, i);
    case One(_, j) => OverrunEndsOpen(p, j);
  }

  lemma PastEndEndsOpen(p: string, i: nat)
    requires i < |p| && ParseItem(p, i).PastEnd?
    ensures EndsOpen(p)
  {
    forall lo, j: nat | j <= |p|
      ensures ParseRange(p, lo, j).PastEnd? ==> EndsOpen(p)
    {
      RangeStepsPastEnd(p, lo, j);
    }
  }

  /** Only a pattern whose last byte is a CTLESC or a `-` can be read past its end. */
  lemma {:induction false} IllFormedEndsOpen(p: string, i: nat)
    requires IsCString(p) && i <= |p| && IllFormed in Elems(p, i)
    ensures EndsOpen(p)
    decreases |p| - i
  {
    var (e, next) := ParseElem(p, i);
    if e.IllFormed? {
      if p[i] == '[' {
        OverrunEndsOpen(p, if Inverted(p, i + 1) then i + 2 else i + 1);
      }
    } else {
      IllFormedEndsOpen(p, next);
    }
  }

  /** Such patterns exist: after `[a-` the scan takes the NUL for the end of the range and goes on behind it. */
  lemma OpenRangeOverruns()
    ensures ParseRange("[a-", 'a', 2).PastEnd? && ParseItems("[a-", 1).Overrun? && !WellFormed("[a-")
  {
    assert Elems("[a-", 0)[0] == IllFormed;
  }

  predicate Accepts(e: Elem, c: char) {
    match e
    case Any => true
    case Lit(d) => c == d
    case Bracket(invert, items) => InItems(items, c) != invert
    case _ => false
  }

  /** The match relation: a '*' stands for any bytes, any other element for one byte. */
  predicate Matches(es: seq<Elem>, s: string)
    decreases |es| + |s|
  {
    if es == [] then s == []
    else if es[0].Star? then Matches(es[1..], s) || (s != [] && Matches(es, s[1..]))
    else s != [] && Accepts(es[0], s[0]) && Matches(es[1..], s[1..])
  }

  // ----- facts about the match relation -----

  predicate StarFree(es: seq<Elem>) {
    forall i :: 0 <= i < |es| ==> !es[i].Star?
  }

  /** A '*' matches exactly when the rest matches some suffix. */
  lemma {:induction false} StarMatchesSomeSuffix(es: seq<Elem>, s: string)
    ensures Matches([Star] + es, s) <==> exists k :: 0 <= k <= |s| && Matches(es, s[k..])
    decreases |s|
  {
    assert ([Star] + es)[1..] == es;
    assert s[0..] == s;
    if s != [] {
      StarMatchesSomeSuffix(es, s[1..]);
      if Matches([Star] + es, s) && !Matches(es, s) {
        var k :| 0 <= k <= |s[1..]| && Matches(es, s[1..][k..]);
        assert s[1..][k..] == s[k + 1..];
      }
      if k :| 0 < k <= |s| && Matches(es, s[k..]) {
        assert s[1..][k - 1..] == s[k..];
      }
    }
  }

  lemma {:induction false} StarAbsorbs(es: seq<Elem>, s: string, j: nat, k: nat)
    requires es != [] && es[0].Star?
    requires j <= k <= |s| && Matches(es, s[k..])
    ensures Matches(es, s[j..])
    decreases k - j
  {
    if j < k {
      StarAbsorbs(es, s, j + 1, k);
      assert s[j..][1..] == s[j + 1..];
    }
  }

  /** Elements other than '*' consume one byte each. */
  lemma {:induction false} StarFreeConsumes(seg: seq<Elem>, es: seq<Elem>, s: string)
    requires StarFree(seg) && Matches(seg + es, s)
    ensures |seg| <= |s| && Matches(es, s[|seg|..])
    decreases |seg|
  {
    if seg == [] {
      assert seg + es == es && s[0..] == s;
    } else {
      assert (seg + es)[1..] == seg[1..] + es;
      StarFreeConsumes(seg[1..], es, s[1..]);
      assert s[1..][|seg[1..]|..] == s[|seg|..];
    }
  }

  /** Some later attempt: `es` matches a suffix that starts at or after `from`. */
  ghost predicate Later(es: seq<Elem>, s: string, from: nat) {
    exists k :: from <= k <= |s| && Matches(es, s[k..])
  }

  /** With the earlier '*' at most one byte further on, the later '*' can still cover what
      it needs to: the earlier one can be forgotten. */
  lemma ForgetEarlierStar(seg: seq<Elem>, es: seq<Elem>, s: string, bq: nat, q: nat)
    requires es != [] && es[0].Star? && StarFree(seg) && q == bq + |seg| && q <= |s|
    requires Later(seg + es, s, bq + 1)
    ensures Matches(es, s[q..])
  {
    hide Matches, StarFree;
    var k :| bq + 1 <= k <= |s| && Matches(seg + es, s[k..]);
    StarFreeConsumes(seg, es, s[k..]);
    assert s[k..][|seg|..] == s[k + |seg|..];
    StarAbsorbs(es, s, q, k + |seg|);
  }

  /** Once the string has run out under an element that needs a byte, a longer match of
      the remembered '*' leaves even fewer bytes. */
  lemma StringRanOut(seg: seq<Elem>, es: seq<Elem>, s: string, bq: nat)
    requires es != [] && !es[0].Star? && StarFree(seg) && |s| == bq + |seg|
    ensures !Later(seg + es, s, bq + 1)
  {
    if Later(seg + es, s, bq + 1) {
      var k :| bq + 1 <= k <= |s| && Matches(seg + es, s[k..]);
      StarFreeConsumes(seg, es, s[k..]);
    }
  }

  // ----- patmatch -----

  datatype BracketResult = Found(found: bool, next: nat) | Literal | Fail

  /** What a whole bracket says about one byte. */
  function BracketOutcome(scan: Scan, chr: char): BracketResult {
    match scan
    case Closed(items, next) => Found(InItems(items, chr), next)
    case Unterminated => Literal
    case _ => Fail
  }

  function OrFound(found: bool, r: BracketResult): BracketResult {
    match r
    case Found(f, next) => Found(found || f, next)
    case other => other
  }

  lemma OutcomeOfItems(item: Item, items: seq<Item>, next: nat, chr: char)
    ensures BracketOutcome(Closed([item] + items, next), chr)
         == OrFound(InItem(item, chr), BracketOutcome(Closed(items, next), chr))
  {
    var all := [item] + items;
    if InItem(item, chr) {
      assert InItem(all[0], chr);
    }
    if i :| 0 <= i < |items| && InItem(items[i], chr) {
      assert InItem(all[i + 1], chr);
    }
    if i :| 0 <= i < |all| && InItem(all[i], chr) {
      assert i > 0 ==> all[i] == items[i - 1];
    }
  }

  lemma OutcomeStep(p: string, i: nat, chr: char)
    requires i < |p| && ParseItem(p, i).One?
    ensures var r := ParseItem(p, i);
      BracketOutcome(ParseItems(p, i), chr) ==
        if At(p, r.next) == ']' then Found(InItem(r.item, chr), r.next + 1)
        else OrFound(InItem(r.item, chr), BracketOutcome(ParseItems(p, r.next), chr))
  {
    var r := ParseItem(p, i);
    if At(p, r.next) == ']' {
      assert [r.item] == [r.item] + [];
      OutcomeOfItems(r.item, [], r.next + 1, chr);
    } else {
      match ParseItems(p, r.next)
      case Closed(items, next) => OutcomeOfItems(r.item, items, next, chr);
      case _ =>
    }
  }

  /** The do-while loop of the '[' case; `p0` is after the optional '!' or '^'. */
  method MatchBracket(pattern: string, p0: nat, chr: char) returns (r: BracketResult)
    requires IsCString(pattern) && p0 <= |pattern| && !ParseItems(pattern, p0).Overrun?
    ensures r == BracketOutcome(ParseItems(pattern, p0), chr)
  {
    var p, found := p0, false;
    while true
      invariant p0 <= p <= |pattern| && !ParseItems(pattern, p).Overrun?
      invariant BracketOutcome(ParseItems(pattern, p0), chr)
             == OrFound(found, BracketOutcome(ParseItems(pattern, p), chr))
      decreases |pattern| - p
    {
      if At(pattern, p) == NUL {
        return Literal;
      }
      var item := ParseItem(pattern, p);
      if item.BadRange? {
        return Fail;
      }
      OutcomeStep(pattern, p, chr);
      found := found || InItem(item.item, chr);
      p := item.next;
      if At(pattern, p) == ']' {
        return Found(found, p + 1);
      }
    }
  }

  /** What remains to be decided when the matcher stands at `p` in the pattern and `q` in
      the string and remembers a '*' with the pattern after it at `bp`. */
  ghost predicate Open(pattern: string, s: string, p: nat, q: nat, saved: bool, bp: nat, bq: nat)
    requires p <= |pattern| && bp <= |pattern| && q <= |s|
  {
    Matches(Elems(pattern, p), s[q..]) || (saved && Later(Elems(pattern, bp), s, bq + 1))
  }

  /** How the remembered '*' relates to the present position: the elements between are
      free of '*' and have consumed the bytes between. */
  ghost predicate Remembered(pattern: string, s: string, p: nat, q: nat, bp: nat, bq: nat, seg: seq<Elem>)
    requires p <= |pattern| && bp <= |pattern|
  {
    && bq <= q <= |s| && StarFree(seg) && q == bq + |seg|
    && Elems(pattern, bp) == seg + Elems(pattern, p)
  }

  /** The state after one element other than '*' has accepted a byte. */
  lemma Advance(pattern: string, s: string, p: nat, q: nat, saved: bool, bp: nat, bq: nat, seg: seq<Elem>)
    requires p < |pattern| && bp <= |pattern| && q < |s|
    requires saved ==> Remembered(pattern, s, p, q, bp, bq, seg)
    requires var (e, p') := ParseElem(pattern, p); !e.Star? && Accepts(e, s[q])
    ensures var (e, p') := ParseElem(pattern, p);
      && (Open(pattern, s, p, q, saved, bp, bq) <==> Open(pattern, s, p', q + 1, saved, bp, bq))
      && (saved ==> Remembered(pattern, s, p', q + 1, bp, bq, seg + [e]))
  {
    var (e, p') := ParseElem(pattern, p);
    var es := Elems(pattern, p);
    assert es == [e] + Elems(pattern, p') && es[1..] == Elems(pattern, p');
    assert s[q..][0] == s[q] && s[q..][1..] == s[q + 1..];
    assert seg + es == (seg + [e]) + es[1..];
  }

  /** A byte that is not accepted leaves only the remembered '*'. */
  lemma Mismatch(pattern: string, s: string, p: nat, q: nat, saved: bool, bp: nat, bq: nat)
    requires p <= |pattern| && bp <= |pattern| && q <= |s| && (saved ==> bq <= |s|)
    requires if p == |pattern| then q < |s|
             else var e := ParseElem(pattern, p).0; !e.Star? && (q < |s| ==> !Accepts(e, s[q]))
    ensures Open(pattern, s, p, q, saved, bp, bq) <==>
      saved && bq < |s| && Open(pattern, s, bp, bq + 1, true, bp, bq + 1)
  {
    assert q < |s| ==> s[q..][0] == s[q];
    if saved && Later(Elems(pattern, bp), s, bq + 1) {
      var k :| bq + 1 <= k <= |s| && Matches(Elems(pattern, bp), s[k..]);
      assert k > bq + 1 ==> Later(Elems(pattern, bp), s, bq + 2);
    }
  }

  /** At the end of the string under an element that needs a byte the answer is no. */
  lemma RanOut(pattern: string, s: string, p: nat, saved: bool, bp: nat, bq: nat, seg: seq<Elem>)
    requires p < |pattern| && bp <= |pattern| && !ParseElem(pattern, p).0.Star?
    requires saved ==> Remembered(pattern, s, p, |s|, bp, bq, seg)
    ensures !Open(pattern, s, p, |s|, saved, bp, bq)
  {
    if saved {
      StringRanOut(seg, Elems(pattern, p), s, bq);
    }
  }

  /** A new '*' makes the remembered one superfluous. */
  lemma NewStar(pattern: string, s: string, p: nat, q: nat, saved: bool, bp: nat, bq: nat, seg: seq<Elem>)
    requires p < |pattern| && bp <= |pattern| && q <= |s| && pattern[p] == '*'
    requires saved ==> Remembered(pattern, s, p, q, bp, bq, seg)
    ensures Open(pattern, s, p, q, saved, bp, bq) <==> Open(pattern, s, p + 1, q, true, p + 1, q)
    ensures Remembered(pattern, s, p + 1, q, p + 1, q, [])
    ensures IllFormed in Elems(pattern, p + 1) ==> IllFormed in Elems(pattern, p)
  {
    var es := Elems(pattern, p);
    assert es == [Star] + Elems(pattern, p + 1);
    if saved && Later(Elems(pattern, bp), s, bq + 1) {
      ForgetEarlierStar(seg, es, s, bq, q);
    }
    var rest, t := Elems(pattern, p + 1), s[q..];
    StarMatchesSomeSuffix(rest, t);
    if Matches(es, t) {
      var k :| 0 <= k <= |t| && Matches(rest, t[k..]);
      assert t[k..] == s[q + k..];
      assert k == 0 || Later(rest, s, q + 1);
    }
    if Open(pattern, s, p + 1, q, true, p + 1, q) {
      var k :| q <= k <= |s| && Matches(rest, s[k..]);
      assert t[k - q..] == s[k..];
    }
    assert [] + rest == rest;
  }

  /** Skipping repeated '*'; and a final '*' matches whatever is left. */
  lemma StarStar(pattern: string, s: string, p: nat, q: nat)
    requires p <= |pattern| && q <= |s|
    ensures p == |pattern| ==> Open(pattern, s, p, q, true, p, q)
    ensures p < |pattern| && pattern[p] == '*' ==>
      (Open(pattern, s, p, q, true, p, q) <==> Open(pattern, s, p + 1, q, true, p + 1, q))
      && (IllFormed in Elems(pattern, p + 1) ==> IllFormed in Elems(pattern, p))
  {
    var es := Elems(pattern, p);
    if p == |pattern| {
      assert s[|s|..] == "";
      assert q < |s| ==> Later(es, s, q + 1);
    } else if pattern[p] == '*' {
      NewStar(pattern, s, p, q, false, p, q, []);
      assert es[0].Star?;
      if Later(es, s, q + 1) {
        var k :| q + 1 <= k <= |s| && Matches(es, s[k..]);
        StarAbsorbs(es, s, q, k);
      }
    }
  }

  /** A bracket that accepts nothing at all: no choice for an earlier '*' helps. */
  lemma NothingLeft(pattern: string, s: string, p: nat, q: nat, saved: bool, bp: nat, bq: nat, seg: seq<Elem>)
    requires p < |pattern| && bp <= |pattern| && q <= |s| && ParseElem(pattern, p).0.Nothing?
    requires saved ==> Remembered(pattern, s, p, q, bp, bq, seg)
    ensures !Open(pattern, s, p, q, saved, bp, bq)
  {
    if saved && Later(Elems(pattern, bp), s, bq + 1) {
      var k :| bq + 1 <= k <= |s| && Matches(Elems(pattern, bp), s[k..]);
      StarFreeConsumes(seg, Elems(pattern, p), s[k..]);
    }
  }

  lemma NoneLeft(pattern: string, s: string, p: nat, q: nat, saved: bool, bp: nat, bq: nat, seg: seq<Elem>)
    requires p < |pattern| && bp <= |pattern| && q <= |s| && !ParseElem(pattern, p).0.Star?
    requires q == |s| || ParseElem(pattern, p).0.Nothing?
    requires saved ==> Remembered(pattern, s, p, q, bp, bq, seg)
    ensures !Open(pattern, s, p, q, saved, bp, bq)
  {
    if q == |s| {
      RanOut(pattern, s, p, saved, bp, bq, seg);
    } else {
      NothingLeft(pattern, s, p, q, saved, bp, bq, seg);
    }
  }

  /** The cases of the switch for an element that takes one byte.  `giveUp` is a `return 0`
      in the case, neither flag a jump to the backtracking code. */
  method MatchOne(pattern: string, s: string, p0: nat, q: nat)
    returns (accepted: bool, giveUp: bool, p: nat)
    requires IsCString(pattern) && IsCString(s) && p0 < |pattern| && q <= |s| && pattern[p0] != '*'
    requires !ParseElem(pattern, p0).0.IllFormed?
    ensures giveUp ==> q == |s| || ParseElem(pattern, p0).0.Nothing?
    ensures accepted ==> q < |s| && p == ParseElem(pattern, p0).1
    ensures !giveUp ==>
      (accepted <==> q < |s| && Accepts(ParseElem(pattern, p0).0, s[q]))
  {
    accepted, giveUp := false, false;
    p := p0 + 1;
    var c := pattern[p0];
    if c == CTLESC {
      c := At(pattern, p);
      p := p + 1;
      if c == '\\' && At(pattern, p) != NUL {
        if At(pattern, p) == CTLESC {
          p := p + 1;
        }
        c := At(pattern, p);
        p := p + 1;
      }
      accepted := At(s, q) == c;
      return;
    }
    if c == '?' {
      giveUp := q == |s|;
      accepted := !giveUp;
      return;
    }
    if c == '[' {
      if q == |s| {
        giveUp := true;
        return;
      }
      var invert := Inverted(pattern, p);
      var r := MatchBracket(pattern, if invert then p + 1 else p, s[q]);
      match r
      case Fail =>
        giveUp := true;
        return;
      case Found(found, next) =>
        accepted, p := found != invert, next;
        return;
      case Literal =>
    }
    giveUp := q == |s|;
    accepted := At(s, q) == c;
  }

  /** The '*' case: skips repeated '*'.  When the pattern ends there the string matches;
      otherwise the position after them becomes the backtrack point. */
  method SkipStars(pattern: string, s: string, p0: nat, q: nat, ghost saved: bool, ghost bp: nat,
                   ghost bq: nat, ghost seg: seq<Elem>)
    returns (p: nat)
    requires IsCString(pattern) && p0 < |pattern| && bp <= |pattern| && q <= |s|
    requires pattern[p0] == '*' && IllFormed !in Elems(pattern, p0)
    requires saved ==> Remembered(pattern, s, p0, q, bp, bq, seg)
    ensures p0 < p <= |pattern| && IllFormed !in Elems(pattern, p)
    ensures Open(pattern, s, p0, q, saved, bp, bq) <==> Open(pattern, s, p, q, true, p, q)
    ensures Remembered(pattern, s, p, q, p, q, [])
    ensures p == |pattern| ==> Open(pattern, s, p0, q, saved, bp, bq)
  {
    hide Matches, Elems, Open, Later;
    NewStar(pattern, s, p0, q, saved, bp, bq, seg);
    p := p0 + 1;
    while At(pattern, p) == '*'
      invariant p0 < p <= |pattern| && IllFormed !in Elems(pattern, p)
      invariant Open(pattern, s, p0, q, saved, bp, bq) <==> Open(pattern, s, p, q, true, p, q)
      decreases |pattern| - p
    {
      StarStar(pattern, s, p, q);
      p := p + 1;
    }
    StarStar(pattern, s, p, q);
    assert [] + Elems(pattern, p) == Elems(pattern, p);
  }

  /** The matcher keeps one backtrack point and gives up as soon as the string ends, and
      still decides the match relation. */
  method PatMatch(pattern: string, s: string) returns (r: bool)
    requires WellFormed(pattern) && IsCString(s)
    ensures r == Matches(Elems(pattern, 0), s)
  {
    hide Later, ParseItems;
    var p: nat, q: nat := 0, 0;
    var saved, bp: nat, bq: nat := false, 0, 0;
    ghost var seg: seq<Elem> := [];
    assert s[0..] == s;
    while true
      invariant p <= |pattern| && q <= |s| && bp <= |pattern| && (saved ==> bq <= |s|)
      invariant IllFormed !in Elems(pattern, p) && IllFormed !in Elems(pattern, bp)
      invariant saved ==> Remembered(pattern, s, p, q, bp, bq, seg)
      invariant Matches(Elems(pattern, 0), s) <==> Open(pattern, s, p, q, saved, bp, bq)
      decreases if saved then |s| - bq else |s| + 1, |pattern| - p
    {
      var c := At(pattern, p);
      var accepted, giveUp, next: nat := false, false, 0;
      if c == NUL {
        if q == |s| {
          return true;
        }
      } else if c == '*' {
        p := SkipStars(pattern, s, p, q, saved, bp, bq, seg);
        if At(pattern, p) == NUL {
          return true;
        }
        saved, bp, bq, seg := true, p, q, [];
        continue;
      } else {
        accepted, giveUp, next := MatchOne(pattern, s, p, q);
      }
      if giveUp {
        NoneLeft(pattern, s, p, q, saved, bp, bq, seg);
        return false;
      } else if accepted {
        Advance(pattern, s, p, q, saved, bp, bq, seg);
        seg := seg + [ParseElem(pattern, p).0];
        p, q := next, q + 1;
      } else {
        Mismatch(pattern, s, p, q, saved, bp, bq);
        if !saved || bq == |s| {
          return false;
        }
        bq := bq + 1;
        p, q, seg := bp, bq, [];
        assert [] + Elems(pattern, p) == Elems(pattern, p);
      }
    }
  }
}
