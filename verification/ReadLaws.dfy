/** What the read builtin of src/miscbltin.c makes of a line, said about the bytes of the input. */
module ReadLaws {
  import opened FieldSplit
  import opened ReadCmd

  /** Bytes that are never delimiters. */
  function Literal(s: string): (es: seq<Event>)
    ensures |es| == |s| && forall i :: 0 <= i < |s| ==> es[i] == Text(s[i])
  {
    seq(|s|, i requires 0 <= i < |s| => Text(s[i]))
  }

  // ----- which bytes make up the line -----

  /** read -r: the bytes before the delimiter, all of them open to splitting. */
  lemma RawLine(l: string, rest: string, delim: char)
    requires '\0' !in l && delim !in l && delim != '\0'
    ensures ScanLine(l + [delim] + rest, 0, true, delim, false) == Line(Expansion(l), true, |l| + 1)
  {
    RawFrom(l, rest, delim, 0);
    assert l[0..] == l;
  }

  lemma {:induction false} RawFrom(l: string, rest: string, delim: char, i: nat)
    requires '\0' !in l && delim !in l && delim != '\0' && i <= |l|
    ensures ScanLine(l + [delim] + rest, i, true, delim, false) == Line(Expansion(l[i..]), true, |l| + 1)
    decreases |l| - i
  {
    var input := l + [delim] + rest;
    if i < |l| {
      assert input[i] == l[i] && l[i] in l;
      RawFrom(l, rest, delim, i + 1);
      assert Expansion(l[i..]) == [Exp(l[i])] + Expansion(l[i + 1..]);
    } else {
      assert input[i] == delim && Expansion(l[i..]) == [];
    }
  }

  /** A backslash before each byte. */
  function Backslashed(s: string): string {
    if s == "" then "" else ['\\', s[0]] + Backslashed(s[1..])
  }

  /** Without -r a byte after a backslash is itself, and no delimiter of any kind. */
  lemma EscapedLine(l: string, rest: string, delim: char)
    requires '\0' !in l && '\n' !in l && delim != '\0' && delim != '\\'
    ensures ScanLine(Backslashed(l) + [delim] + rest, 0, false, delim, false) == Line(Literal(l), true, |Backslashed(l)| + 1)
  {
    EscapedFrom(Backslashed(l) + [delim] + rest, l, rest, delim, 0);
  }

  lemma {:induction false} EscapedFrom(input: string, l: string, rest: string, delim: char, i: nat)
    requires '\0' !in l && '\n' !in l && delim != '\0' && delim != '\\'
    requires i <= |input| && input[i..] == Backslashed(l) + [delim] + rest
    ensures ScanLine(input, i, false, delim, false) == Line(Literal(l), true, i + |Backslashed(l)| + 1)
    decreases |l|
  {
    var tail := input[i..];
    assert tail[0] == input[i];
    if l == "" {
      assert Literal(l) == [];
    } else {
      assert tail == ['\\', l[0]] + (Backslashed(l[1..]) + [delim] + rest);
      assert input[i + 1] == tail[1] && input[i + 2..] == tail[2..];
      assert l[0] in l && (forall c :: c in l[1..] ==> c in l);
      EscapedFrom(input, l[1..], rest, delim, i + 2);
      assert Literal(l) == [Text(l[0])] + Literal(l[1..]);
    }
  }

  /** With one variable its value is then the bytes themselves, whatever IFS is. */
  lemma EscapedValue(l: string, ifs: string)
    ensures Assigned(ifs, 1, Literal(l)) == [l]
  {
    var es := Literal(l);
    if l == "" {
      assert es == [] && Fields(ifs, []) == [] && [] + Blank(1) == [l];
    } else {
      assert es[0] == Text(l[0]) && DropWs(ifs, es) == es;
      WholeField(ifs, l);
      assert DropDelim(ifs, []) == [] && Fields(ifs, []) == [];
      assert Fields(ifs, es) == [l] + [];
      assert [l] + Blank(0) == [l];
    }
  }

  lemma {:induction false} WholeField(ifs: string, l: string)
    ensures TakeField(ifs, Literal(l)) == l && DropField(ifs, Literal(l)) == []
  {
    if l != "" {
      var es := Literal(l);
      assert es[0] == Text(l[0]) && es[1..] == Literal(l[1..]);
      WholeField(ifs, l[1..]);
    }
  }

  // ----- where the line ends -----

  /** The backslashes right before byte k. */
  function BackslashesBefore(input: string, k: nat): nat
    requires k <= |input|
  {
    if k > 0 && input[k - 1] == '\\' then 1 + BackslashesBefore(input, k - 1) else 0
  }

  predicate IsEscaped(input: string, rflag: bool, k: nat)
    requires k <= |input|
  {
    !rflag && BackslashesBefore(input, k) % 2 == 1
  }

  /** A delimiter that ends the line. */
  predicate EndsLine(input: string, rflag: bool, delim: char, k: nat)
    requires k < |input|
  {
    input[k] == delim && (rflag || delim != '\\') && !IsEscaped(input, rflag, k)
  }

  /**
   * The line ends at the first delimiter that is not escaped, that is, has an even number of backslashes before
   * it; there is none exactly if the input ends first.
   */
  lemma LineEndsAtFirstDelimiter(input: string, rflag: bool, delim: char)
    requires '\0' !in input && delim != '\0'
    ensures var line := ScanLine(input, 0, rflag, delim, false);
      && (line.terminated <==> exists k :: 0 <= k < |input| && EndsLine(input, rflag, delim, k))
      && line.next <= |input|
      && (line.terminated ==> line.next > 0 && EndsLine(input, rflag, delim, line.next - 1))
      && (forall k :: 0 <= k < (if line.terminated then line.next - 1 else |input|) ==> !EndsLine(input, rflag, delim, k))
  {
    LineEndsFrom(input, rflag, delim, 0);
  }

  lemma {:induction false} LineEndsFrom(input: string, rflag: bool, delim: char, i: nat)
    requires '\0' !in input && delim != '\0' && i <= |input|
    ensures var line := ScanLine(input, i, rflag, delim, IsEscaped(input, rflag, i));
      && i <= line.next <= |input|
      && (line.terminated ==> line.next > i && EndsLine(input, rflag, delim, line.next - 1))
      && (forall k :: i <= k < (if line.terminated then line.next - 1 else |input|) ==> !EndsLine(input, rflag, delim, k))
    decreases |input| - i
  {
    if i < |input| {
      assert input[i] in input;
      LineEndsFrom(input, rflag, delim, i + 1);
    }
  }

  // ----- what disappears -----

  function WithoutNuls(s: string): string {
    if s == "" then "" else if s[0] == '\0' then WithoutNuls(s[1..]) else [s[0]] + WithoutNuls(s[1..])
  }

  /** The same line, up to how much of the input it takes. */
  predicate SameLine(a: Line, b: Line) {
    a.items == b.items && a.terminated == b.terminated
  }

  lemma {:induction false} ScanTail(input: string, i: nat, rflag: bool, delim: char, backslash: bool)
    requires i <= |input|
    ensures var a, b := ScanLine(input, i, rflag, delim, backslash), ScanLine(input[i..], 0, rflag, delim, backslash);
      SameLine(a, b) && a.next == b.next + i
    decreases |input| - i
  {
    if i < |input| {
      var s := input[i..];
      assert s[0] == input[i] && s[1..] == input[i + 1..];
      forall b: bool
        ensures var x, y := ScanLine(input, i + 1, rflag, delim, b), ScanLine(s, 1, rflag, delim, b);
          SameLine(x, y) && x.next == y.next + i
      {
        ScanTail(input, i + 1, rflag, delim, b);
        ScanTail(s, 1, rflag, delim, b);
      }
    }
  }

  /** NUL bytes disappear, wherever they are. */
  lemma {:induction false} NulsDisappear(s: string, rflag: bool, delim: char, backslash: bool)
    ensures SameLine(ScanLine(s, 0, rflag, delim, backslash), ScanLine(WithoutNuls(s), 0, rflag, delim, backslash))
    decreases |s|
  {
    if s != "" {
      forall b: bool
        ensures SameLine(ScanLine(s, 1, rflag, delim, b), ScanLine(WithoutNuls(s[1..]), 0, rflag, delim, b))
      {
        ScanTail(s, 1, rflag, delim, b);
        NulsDisappear(s[1..], rflag, delim, b);
      }
      if s[0] != '\0' {
        var t := WithoutNuls(s);
        assert t[0] == s[0] && t[1..] == WithoutNuls(s[1..]);
        forall b: bool
          ensures SameLine(ScanLine(t, 1, rflag, delim, b), ScanLine(s, 1, rflag, delim, b))
        {
          ScanTail(t, 1, rflag, delim, b);
        }
      }
    }
  }

  /** A NUL never ends the line. */
  lemma {:induction false} NulIsNoDelimiter(input: string, i: nat, rflag: bool, backslash: bool)
    requires i <= |input|
    ensures !ScanLine(input, i, rflag, '\0', backslash).terminated
    decreases |input| - i
  {
    if i < |input| {
      NulIsNoDelimiter(input, i + 1, rflag, false);
      NulIsNoDelimiter(input, i + 1, rflag, true);
    }
  }

  // ----- the line in parts -----

  /** What comes after a part that neither ends the line nor escapes the next byte. */
  lemma {:induction false} ScanInParts(a: string, b: string, i: nat, rflag: bool, delim: char)
    requires '\0' !in a && delim != '\0' && i <= |a|
    requires forall k :: i <= k < |a| ==> !EndsLine(a, rflag, delim, k)
    requires !IsEscaped(a, rflag, |a|)
    ensures var first := ScanLine(a, i, rflag, delim, IsEscaped(a, rflag, i));
      var second := ScanLine(b, 0, rflag, delim, false);
      SameLine(ScanLine(a + b, i, rflag, delim, IsEscaped(a, rflag, i)), second.(items := first.items + second.items))
    decreases |a| - i
  {
    if i == |a| {
      ScanTail(a + b, i, rflag, delim, false);
      assert (a + b)[i..] == b;
      assert [] + ScanLine(b, 0, rflag, delim, false).items == ScanLine(b, 0, rflag, delim, false).items;
    } else {
      assert a[i] in a && (a + b)[i] == a[i];
      assert !EndsLine(a, rflag, delim, i);
      ScanInParts(a, b, i + 1, rflag, delim);
      var x, y := ScanLine(a, i + 1, rflag, delim, IsEscaped(a, rflag, i + 1)).items, ScanLine(b, 0, rflag, delim, false).items;
      assert ([Exp(a[i])] + x) + y == [Exp(a[i])] + (x + y);
      assert ([Text(a[i])] + x) + y == [Text(a[i])] + (x + y);
    }
  }

  lemma ScanPair(c: char, b: string, delim: char)
    requires c != '\0' && delim != '\0'
    ensures var second := ScanLine(b, 0, false, delim, false);
      SameLine(ScanLine(['\\', c] + b, 0, false, delim, false), second.(items := (if c == '\n' then [] else [Text(c)]) + second.items))
  {
    var pair := ['\\', c] + b;
    ScanTail(pair, 2, false, delim, false);
    assert pair[2..] == b && ScanLine(pair, 0, false, delim, false) == ScanLine(pair, 1, false, delim, true);
    assert [] + ScanLine(b, 0, false, delim, false).items == ScanLine(b, 0, false, delim, false).items;
  }

  /** Without -r, a backslash and a newline disappear, and any other byte after a backslash, the delimiter
      included, is itself and ends nothing. */
  lemma EscapedPair(a: string, c: char, b: string, delim: char)
    requires '\0' !in a && delim != '\0' && c != '\0' && !IsEscaped(a, false, |a|)
    requires forall k :: 0 <= k < |a| ==> !EndsLine(a, false, delim, k)
    ensures var first, second := ScanLine(a, 0, false, delim, false), ScanLine(b, 0, false, delim, false);
      SameLine(ScanLine(a + ['\\', c] + b, 0, false, delim, false),
               second.(items := first.items + (if c == '\n' then [] else [Text(c)]) + second.items))
  {
    hide EndsLine;
    var pair, it := ['\\', c] + b, if c == '\n' then [] else [Text(c)];
    assert a + ['\\', c] + b == a + pair;
    ScanInParts(a, pair, 0, false, delim);
    ScanPair(c, b, delim);
    hide ScanLine;
    var first, second := ScanLine(a, 0, false, delim, false), ScanLine(b, 0, false, delim, false);
    assert first.items + (it + second.items) == first.items + it + second.items;
  }

  // ----- what the variables get -----

  /** White space before the first field does not matter. */
  lemma LeadingWhiteSpace(ifs: string, n: nat, lead: seq<Event>, es: seq<Event>)
    requires n >= 1 && AllW(ifs, lead)
    ensures Assigned(ifs, n, lead + es) == Assigned(ifs, n, es)
  {
    DropAllW(ifs, lead, es);
    DropWsIdempotent(ifs, lead + es);
    DropWsIdempotent(ifs, es);
  }

  lemma FieldAndRest(ifs: string, n: nat, f: seq<Event>, d: Delimiter, rest: seq<Event>)
    requires n >= 2 && IsFieldText(ifs, f) && IsDelimiter(ifs, d) && (f == [] ==> d.before == [])
    requires rest != [] ==> !IsW(ifs, rest[0]) && (d.n == [] ==> !IsN(ifs, rest[0]))
    ensures var es := f + Unfold(d) + rest;
      Fields(ifs, es) == [FieldBytes(f)] + Fields(ifs, rest) && Remainder(ifs, es, n - 1) == Remainder(ifs, rest, n - 2)
  {
    var es := f + Unfold(d) + rest;
    JoinSplitsFirst(ifs, f, d, rest);
    assert es != [] && !IsW(ifs, es[0]) by {
      if f != [] {
        assert es[0] == f[0];
      } else {
        assert es[0] == d.n[0];
      }
    }
    FieldsAt(ifs, es);
    hide Fields, Unfold;
  }

  /** While there is another variable, the next one gets the field up to the first delimiter. */
  lemma NextField(ifs: string, n: nat, f: seq<Event>, d: Delimiter, rest: seq<Event>)
    requires n >= 2 && IsFieldText(ifs, f) && IsDelimiter(ifs, d) && (f == [] ==> d.before == [])
    requires rest != [] ==> !IsW(ifs, rest[0]) && (d.n == [] ==> !IsN(ifs, rest[0]))
    ensures Assigned(ifs, n, f + Unfold(d) + rest) == [FieldBytes(f)] + Assigned(ifs, n - 1, rest)
  {
    hide Fields, Remainder, Unfold, IsFieldText, IsDelimiter, DropTrailingWs;
    FieldAndRest(ifs, n, f, d, rest);
    var fs, gs := Fields(ifs, f + Unfold(d) + rest), Fields(ifs, rest);
    if |fs| <= n {
      assert fs + Blank(n - |fs|) == [FieldBytes(f)] + (gs + Blank(n - 1 - |gs|));
    } else {
      assert fs[..n - 1] == [FieldBytes(f)] + gs[..n - 2];
    }
  }

  /** The last variable gets the rest of the line as it is, from its first to its last byte that is no delimiter. */
  lemma LastVariable(ifs: string, mid: seq<Event>, trail: seq<Event>)
    requires mid != [] && NoMarks(mid) && !IsDelim(ifs, mid[0]) && !IsDelim(ifs, mid[|mid| - 1]) && AllW(ifs, trail)
    ensures Assigned(ifs, 1, mid + trail) == [FieldBytes(mid)]
  {
    var es := mid + trail;
    assert es[0] == mid[0] && DropWs(ifs, es) == es;
    DropTrailing(ifs, mid, trail);
    FieldsAt(ifs, es);
    if |Fields(ifs, es)| <= 1 {
      OneField(ifs, mid, trail);
      assert [FieldBytes(mid)] + Blank(0) == [FieldBytes(mid)];
    } else {
      assert Remainder(ifs, es, 0) == es;
      assert Fields(ifs, es)[..0] == [];
    }
  }

  lemma {:induction false} DropTrailing(ifs: string, mid: seq<Event>, trail: seq<Event>)
    requires mid != [] && !IsDelim(ifs, mid[|mid| - 1]) && AllW(ifs, trail)
    ensures DropTrailingWs(ifs, mid + trail) == mid
    decreases |trail|
  {
    var es := mid + trail;
    if trail == [] {
      assert es == mid;
    } else {
      var less := trail[..|trail| - 1];
      assert es[|es| - 1] == trail[|trail| - 1] && es[..|es| - 1] == mid + less;
      DropTrailing(ifs, mid, less);
    }
  }

  lemma OneField(ifs: string, mid: seq<Event>, trail: seq<Event>)
    requires mid != [] && !IsDelim(ifs, mid[0]) && !IsDelim(ifs, mid[|mid| - 1]) && AllW(ifs, trail)
    requires |Fields(ifs, mid + trail)| <= 1
    ensures Fields(ifs, mid + trail) == [FieldBytes(mid)]
  {
    hide Fields, TakeField, DropField, DropDelim;
    var es := mid + trail;
    assert es[0] == mid[0];
    FieldsAt(ifs, es);
    var k := FirstDelim(ifs, mid);
    var head, tail := mid[..k], mid[k..] + trail;
    assert es == head + tail;
    assert tail != [] ==> tail[0] == if k < |mid| then mid[k] else trail[0];
    FieldThenDelimiter(ifs, head, tail);
    if k < |mid| {
      SomethingLeft(ifs, mid[k..], trail);
      SomeField(ifs, DropDelim(ifs, tail));
    } else {
      assert head == mid && tail == trail;
      NoField(ifs, trail);
    }
  }

  lemma SomeField(ifs: string, es: seq<Event>)
    requires DropWs(ifs, es) != []
    ensures Fields(ifs, es) != []
  {
  }

  lemma {:induction false} NoField(ifs: string, trail: seq<Event>)
    requires AllW(ifs, trail)
    ensures DropDelim(ifs, trail) == [] && Fields(ifs, DropDelim(ifs, trail)) == []
  {
    DropAllW(ifs, trail, []);
    assert trail + [] == trail;
  }

  lemma {:induction false} FirstDelim(ifs: string, es: seq<Event>) returns (k: nat)
    ensures k <= |es| && IsFieldText(ifs, es[..k]) && (k < |es| ==> IsDelim(ifs, es[k]))
  {
    k := 0;
    while k < |es| && !IsDelim(ifs, es[k])
      invariant k <= |es| && IsFieldText(ifs, es[..k])
    {
      assert es[..k + 1] == es[..k] + [es[k]];
      k := k + 1;
    }
  }

  /** A delimiter does not reach past a byte that is none. */
  lemma {:induction false} SomethingLeft(ifs: string, es: seq<Event>, trail: seq<Event>)
    requires es != [] && !IsDelim(ifs, es[|es| - 1])
    ensures DropWs(ifs, es + trail) != [] && DropWs(ifs, DropDelim(ifs, es + trail)) != []
    decreases |es|
  {
    assert (es + trail)[0] == es[0] && (es + trail)[1..] == es[1..] + trail;
    if |es| > 1 {
      SomethingLeft(ifs, es[1..], trail);
    }
  }

  // ----- the same in bytes -----

  const WHITE := " \t\n"

  predicate NoneIn(s: string, bytes: string) {
    forall c :: c in s ==> c !in bytes
  }

  predicate AllIn(s: string, bytes: string) {
    forall c :: c in s ==> c in bytes
  }

  /**
   * A word, its delimiter (white space of IFS, or one other byte of IFS) and the rest of the line: the word goes
   * to the first of several variables, and the rest to the others.
   */
  lemma WordByWord(ifs: string, n: nat, w: string, d: string, rest: string)
    requires n >= 2 && NoneIn(w, ifs) && w != ""
    requires (d != "" && AllIn(d, ifs) && AllIn(d, WHITE)) || (|d| == 1 && d[0] in ifs && d[0] !in WHITE)
    requires rest != "" ==> rest[0] !in ifs
    ensures Assigned(ifs, n, Expansion(w + d + rest)) == [w] + Assigned(ifs, n - 1, Expansion(rest))
  {
    var f, r := Expansion(w), Expansion(rest);
    var dd := if d[0] in WHITE then Delimiter(Expansion(d), [], []) else Delimiter([], Expansion(d), []);
    assert forall i :: 0 <= i < |w| ==> w[i] in w;
    assert forall i :: 0 <= i < |d| ==> d[i] in d;
    assert Expansion(w + d + rest) == f + Unfold(dd) + r;
    BytesOfExpansion(w);
    NextField(ifs, n, f, dd, r);
  }

  lemma {:induction false} BytesOfExpansion(s: string)
    ensures FieldBytes(Expansion(s)) == s
  {
    if s != "" {
      assert Expansion(s)[0] == Exp(s[0]) && Expansion(s)[1..] == Expansion(s[1..]);
      BytesOfExpansion(s[1..]);
    }
  }

  /** One variable gets the line without the IFS white space around it. */
  lemma TrimmedLine(ifs: string, lead: string, mid: string, trail: string)
    requires AllIn(lead, ifs) && AllIn(lead, WHITE) && AllIn(trail, ifs) && AllIn(trail, WHITE)
    requires mid != "" && mid[0] !in ifs && mid[|mid| - 1] !in ifs
    ensures Assigned(ifs, 1, Expansion(lead + mid + trail)) == [mid]
  {
    var a, m, z := Expansion(lead), Expansion(mid), Expansion(trail);
    assert forall i :: 0 <= i < |lead| ==> lead[i] in lead;
    assert forall i :: 0 <= i < |trail| ==> trail[i] in trail;
    assert Expansion(lead + mid + trail) == a + (m + z);
    BytesOfExpansion(mid);
    LeadingWhiteSpace(ifs, 1, a, m + z);
    LastVariable(ifs, m, z);
  }

  /** One delimiter after the only field is dropped with it. */
  lemma OneTrailingDelimiter(ifs: string, w: string, c: char)
    requires w != "" && NoneIn(w, ifs) && c in ifs
    ensures Assigned(ifs, 1, Expansion(w + [c])) == [w]
  {
    var f, dd := Expansion(w), if c in WHITE then Delimiter(Expansion([c]), [], []) else Delimiter([], Expansion([c]), []);
    assert forall i :: 0 <= i < |w| ==> w[i] in w;
    var es := f + Unfold(dd) + [];
    assert Expansion(w + [c]) == es && es[0] == f[0];
    BytesOfExpansion(w);
    JoinSplitsFirst(ifs, f, dd, []);
    FieldsAt(ifs, es);
    assert Fields(ifs, []) == [];
    assert [w] + Blank(0) == [w];
  }

  /** Two of them that are not white space are kept: the second makes an empty field. */
  lemma TwoTrailingDelimiters(ifs: string, w: string, c: char, d: char)
    requires w != "" && NoneIn(w, ifs) && c in ifs && d in ifs && c !in WHITE && d !in WHITE
    ensures Assigned(ifs, 1, Expansion(w + [c, d])) == [w + [c, d]]
  {
    var f, dd, rest := Expansion(w), Delimiter([], Expansion([c]), []), Expansion([d]);
    assert forall i :: 0 <= i < |w| ==> w[i] in w;
    var es := f + Unfold(dd) + rest;
    assert Expansion(w + [c, d]) == es && es[0] == f[0];
    assert rest[0] == Exp(d) && es[|es| - 1] == Exp(d);
    JoinSplitsFirst(ifs, f, dd, rest);
    FieldsAt(ifs, es);
    FieldsAt(ifs, rest);
    assert Remainder(ifs, es, 0) == es && DropTrailingWs(ifs, es) == es;
    BytesOfExpansion(w + [c, d]);
    assert Fields(ifs, es)[..0] == [];
  }
}
