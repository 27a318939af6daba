/** Where a substitution starts, the escapes that name a character by number or by letter, what word texts can hold,
    and the look of what is printed for re-input: the rest of readtoken1, readcstyleesc and outqstr. */
module QuoteTexts {
  import opened Ascii
  import opened PatMatch
  import opened Quote
  import opened QuoteLaws

  // ----- the dollar sign -----

  /** A byte behind a `$` that starts a substitution. */
  predicate Substitutes(c: char) {
    c in "({_#?$!-*@" || c in DIGIT || c in LOWER || c in UPPER
  }

  /** Lines that are continued at once. */
  function Continued(k: nat): string {
    if k == 0 then "" else "\\\n" + Continued(k - 1)
  }

  lemma {:induction false} ContinuationsPassed(k: nat, rest: string)
    requires !(|rest| > 1 && rest[0] == '\\' && rest[1] == '\n')
    ensures AfterContinuations(Continued(k) + rest) == rest
    decreases k
  {
    if k == 0 {
      assert Continued(0) + rest == rest;
    } else {
      var s := Continued(k) + rest;
      assert s == "\\\n" + (Continued(k - 1) + rest);
      assert s[2..] == Continued(k - 1) + rest;
      ContinuationsPassed(k - 1, rest);
    }
  }

  lemma StartsAtByte(s: string)
    requires s != ""
    ensures StartsSubstitution(s) <==> Substitutes(s[0])
  {
    WordBytes(s[0]);
    UpperLetters(s[0]);
    LowerLetters(s[0]);
  }

  lemma DollarRead(q: bool, out: string, k: nat, rest: string)
    requires rest != "" && !(|rest| > 1 && rest[0] == '\\' && rest[1] == '\n')
    ensures ReadWord(Dq, false, q, out, "$" + Continued(k) + rest)
         == if Substitutes(rest[0]) then Other else ReadWord(Dq, false, q, out + "$", rest)
  {
    hide Substitutes, StartsSubstitution, AfterContinuations, Continued;
    var s := "$" + Continued(k) + rest;
    assert s[0] == '$' && s[1..] == Continued(k) + rest;
    ContinuationsPassed(k, rest);
    StartsAtByte(rest);
  }

  /**
   * In double quotes a `$` starts a substitution exactly if a letter, a digit or one of ten other bytes follows, where
   * continued lines between the two do not count; it stands for itself otherwise.
   */
  lemma DollarInDoubleQuotes(s: string, k: nat, t: string)
    requires NulFree(s) && NulFree(t)
    ensures var text := "\"" + (InDouble(s) + "$" + Continued(k) + InDouble(t)) + "\"";
      if t != "" && t[0] != '$' && Substitutes(t[0]) then ReadToken(text + "\n") == Other else ReadsAs(text, s + "$" + t)
  {
    hide ReadWord, ReadsAs, ReadToken, InDouble, Continued, ProtectAll, Substitutes, NeedsBackslash;
    var end := "\"\n";
    var body, rest := InDouble(s) + "$" + Continued(k) + InDouble(t), InDouble(t) + end;
    Regroup(InDouble(s), Continued(k), InDouble(t));
    var q := ReadDouble(s, false, [CTLQUOTEMARK], "$" + Continued(k) + rest);
    var out := [CTLQUOTEMARK] + ProtectAll(s);
    FirstInDouble(t);
    DollarRead(q, out, k, rest);
    if t != "" && t[0] != '$' && Substitutes(t[0]) {
      ReadDoubleStart(body + end);
    } else {
      DollarStays(s, q, body, t);
    }
  }

  lemma Regroup(a: string, b: string, c: string)
    ensures a + "$" + b + c + "\"\n" == a + ("$" + b + (c + "\"\n"))
    ensures "\"" + (a + "$" + b + c) + "\"" + "\n" == "\"" + (a + "$" + b + c + "\"\n")
  {
  }

  lemma DollarStays(s: string, q: bool, body: string, t: string)
    requires NulFree(s) && NulFree(t)
    requires ReadWord(Dq, false, false, [CTLQUOTEMARK], body + "\"\n")
          == ReadWord(Dq, false, q, [CTLQUOTEMARK] + ProtectAll(s) + "$", InDouble(t) + "\"\n")
    ensures ReadsAs("\"" + body + "\"", s + "$" + t)
  {
    hide ReadWord, StandsFor, ReadsAs, InDouble, ProtectAll;
    var q' := ReadDouble(t, q, [CTLQUOTEMARK] + ProtectAll(s) + "$", "\"\n");
    var w := ProtectAll(s) + "$" + ProtectAll(t);
    assert [CTLQUOTEMARK] + ProtectAll(s) + "$" + ProtectAll(t) == [CTLQUOTEMARK] + w;
    ProtectAllStandsFor(s);
    PlainStandsFor('$');
    ProtectAllStandsFor(t);
    StandsForBoth(ProtectAll(s), s, "$", "$");
    StandsForBoth(ProtectAll(s) + "$", s + "$", ProtectAll(t), t);
    DoubleQuoted(body, q', w, s + "$" + t);
  }

  lemma FirstInDouble(t: string)
    ensures var rest := InDouble(t) + "\"\n";
      && rest != "" && (|rest| > 1 && rest[0] == '\\' ==> rest[1] != '\n')
      && (Substitutes(rest[0]) <==> t != "" && t[0] != '$' && Substitutes(t[0]))
  {
    hide Substitutes;
    QuotedBytes('\\');
    QuotedBytes('"');
    if t != "" {
      QuotedBytes(t[0]);
      var piece := if NeedsBackslash(t[0]) then ['\\', t[0]] else [t[0]];
      assert InDouble(t) + "\"\n" == piece + (InDouble(t[1..]) + "\"\n");
    } else {
      assert InDouble(t) + "\"\n" == "\"\n";
    }
  }

  lemma QuotedBytes(c: char)
    ensures NeedsBackslash(c) ==> (Substitutes(c) <==> c == '$')
  {
    WordBytes(c);
    UpperLetters(c);
    LowerLetters(c);
  }

  // ----- redirections -----

  /** A single digit directly before `<` or `>` belongs to the redirection, unless it is quoted; longer numbers are words. */
  lemma NumberBeforeRedirection(d: char, c: char, rest: string)
    requires d in DIGIT && (c == '<' || c == '>')
    ensures ReadToken([d, c] + rest) == Other && ReadToken([c] + rest) == Other
    ensures ReadToken(['\\', d, c] + rest) == Word([CTLQUOTEMARK, d], true, [c] + rest)
    ensures ReadToken([d, d, c] + rest) == Word([d, d], false, [c] + rest)
  {
    hide ReadWord, ReadToken;
    DecimalDigits(d);
    var end := [c] + rest;
    assert [d, c] + rest == [d] + end && [d, d, c] + rest == [d, d] + end && ['\\', d, c] + rest == ['\\', d] + end;
    BareBefore([d], c, rest);
    BareBefore([d, d], c, rest);
    BareBefore("", c, rest);
    assert "" + end == end;
    QuotedBefore(d, c, rest);
  }

  lemma BareBefore(w: string, c: char, rest: string)
    requires (forall i :: 0 <= i < |w| ==> '0' <= w[i] <= '9') && (c == '<' || c == '>')
    ensures ReadToken(w + ([c] + rest)) == if |w| <= 1 then Other else Word(w, false, [c] + rest)
  {
    hide ReadWord, PlainByte, ReadToken;
    var s := w + ([c] + rest);
    forall i | 0 <= i < |w|
      ensures PlainByte(w[i]) && Starts(w[i])
    {
      DigitIsPlain(w[i]);
    }
    assert Starts(c);
    hide Starts;
    assert s[0] == if w == "" then c else w[0];
    WordStarts(s);
    ReadBareBytes(w, "", [c] + rest);
    assert "" + w == w;
    RedirectionEnds(false, w, c, rest);
  }

  predicate Starts(c: char) {
    c !in " \t#\n&|;()\\"
  }

  lemma DigitIsPlain(c: char)
    requires '0' <= c <= '9'
    ensures PlainByte(c) && Starts(c)
  {
  }

  lemma QuotedBefore(d: char, c: char, rest: string)
    requires '0' <= d <= '9' && (c == '<' || c == '>')
    ensures ReadToken(['\\', d] + ([c] + rest)) == Word([CTLQUOTEMARK, d], true, [c] + rest)
  {
    hide ReadWord;
    var s := ['\\', d] + ([c] + rest);
    assert s[0] == '\\' && s[1] == d;
    WordStarts(s);
    ReadOneBackslashed(d, false, "", [c] + rest);
    assert Protect(d) == [d] && "" + ([CTLQUOTEMARK] + [d]) == [CTLQUOTEMARK, d];
    RedirectionEnds(true, [CTLQUOTEMARK, d], c, rest);
  }

  lemma RedirectionEnds(q: bool, out: string, c: char, rest: string)
    requires c == '<' || c == '>'
    ensures ReadWord(Base, false, q, out, [c] + rest)
         == if !q && (out == "" || (|out| == 1 && '0' <= out[0] <= '9')) then Other else Word(out, q, [c] + rest)
  {
    assert ([c] + rest)[0] == c;
  }

  lemma WordStarts(s: string)
    requires s != "" && (Starts(s[0]) || (|s| > 1 && s[0] == '\\' && s[1] != '\n'))
    ensures ReadToken(s) == ReadWord(Base, false, false, "", s)
  {
    hide ReadWord;
  }

  // ----- escapes by number -----

  predicate AllHex(s: string) {
    forall i :: 0 <= i < |s| ==> HexOf(s[i]) >= 0
  }

  /** The number written in hexadecimal digits. */
  function HexNumber(s: string): int {
    if s == "" then 0 else 16 * HexNumber(s[..|s| - 1]) + HexOf(s[|s| - 1])
  }

  /** The byte of a character of the C locale. */
  function CharOf(v: int): char {
    if 0 <= v < 128 then v as char else '?'
  }

  lemma {:induction false} NumberIsNat(s: string)
    requires AllHex(s)
    ensures HexNumber(s) >= 0
    decreases |s|
  {
    if s != "" {
      NumberIsNat(s[..|s| - 1]);
    }
  }

  lemma AppendDigit(a: string, c: char)
    ensures HexNumber(a + [c]) == 16 * HexNumber(a) + HexOf(c)
  {
    assert (a + [c])[..|a|] == a;
  }

  lemma OneMoreDigit(n: nat, v: nat, c: char, rest: string)
    requires n > 0 && HexOf(c) >= 0
    ensures UniDigits(n, v, [c] + rest) == UniDigits(n - 1, v * 16 + HexOf(c), rest)
  {
    hide HexOf, IsHex, HexValue;
    HexDigitIs(c);
    assert ([c] + rest)[1..] == rest;
  }

  lemma {:induction false} DigitsRead(n: nat, a: string, s: string, rest: string)
    requires AllHex(a) && AllHex(s) && |s| <= n
    ensures HexNumber(a) >= 0 && HexNumber(a + s) >= 0
    ensures UniDigits(n, HexNumber(a), s + rest) == UniDigits(n - |s|, HexNumber(a + s), rest)
    decreases |s|
  {
    hide HexOf, HexNumber, UniDigits;
    NumberIsNat(a);
    NumberIsNat(a + s);
    if s == "" {
      assert a + s == a && s + rest == rest;
    } else {
      var b, more := a + [s[0]], s[1..] + rest;
      AppendDigit(a, s[0]);
      assert s + rest == [s[0]] + more && b + s[1..] == a + s;
      OneMoreDigit(n, HexNumber(a), s[0], more);
      DigitsRead(n - 1, b, s[1..], rest);
    }
  }

  lemma NoHexDigit(c: char)
    requires HexOf(c) < 0
    ensures !IsHex(c)
  {
  }

  /** What CStyleEscape makes of `u` and `U`. */
  lemma UnicodeStored(d: string, rest: string)
    requires AllHex(d) && (|d| == 4 || |d| == 8)
    ensures var e, v := (if |d| == 4 then "u" else "U") + d, HexNumber(d);
      CStyleEscape(e + rest) == if v == 0 || 0xD800 <= v <= 0xDFFF then BadEscape else Escape(Protect(CharOf(v)), rest)
  {
    hide AllHex, HexNumber, CStyleEscape, UniDigits, Protect, CharOf;
    var s := (if |d| == 4 then "u" else "U") + d + rest;
    assert s[0] == (if |d| == 4 then 'u' else 'U') && s[1..] == d + rest;
    NumberRead(d, rest);
    NumberStored(s, HexNumber(d), rest);
  }

  lemma NumberRead(d: string, rest: string)
    requires AllHex(d)
    ensures HexNumber(d) >= 0 && UniDigits(|d|, 0, d + rest) == (HexNumber(d), rest)
  {
    hide UniDigits, HexOf;
    DigitsRead(|d|, "", d, rest);
    NumberIsNat(d);
    assert "" + d == d;
    hide HexNumber;
    NumberOfNothing();
    NoDigitsLeft(HexNumber(d), rest);
  }

  lemma NumberStored(s: string, v: nat, rest: string)
    requires s != "" && (s[0] == 'u' || s[0] == 'U') && UniDigits(if s[0] == 'U' then 8 else 4, 0, s[1..]) == (v, rest)
    ensures CStyleEscape(s) == if v == 0 || 0xD800 <= v <= 0xDFFF then BadEscape else Escape(Protect(CharOf(v)), rest)
  {
    hide Protect, SkipToQuote, HexDigits, OctalDigits, UniDigits;
    var b: nat := if v > 127 then 63 else v;
    assert b % 256 == b;
  }

  lemma NumberOfNothing()
    ensures HexNumber("") == 0
  {
  }

  lemma NoDigitsLeft(v: nat, rest: string)
    ensures UniDigits(0, v, rest) == (v, rest)
  {
  }

  /**
   * `\u` with four and `\U` with eight digits: a character below 128 is its byte, any other a question mark, and zero and
   * the surrogates are a syntax error.
   */
  lemma UnicodeEscapes(p: string, d: string, q: string)
    requires PlainInSingle(p) && PlainInSingle(q) && AllHex(d) && (|d| == 4 || |d| == 8)
    ensures var text, v := "$'" + (p + "\\" + ((if |d| == 4 then "u" else "U") + d) + q) + "'", HexNumber(d);
      if v == 0 || 0xD800 <= v <= 0xDFFF then ReadToken(text + "\n") == SyntaxError
      else ReadsAs(text, p + [CharOf(v)] + q)
  {
    hide ReadsAs, CStyleEscape;
    NumberIsNat(d);
    var v := HexNumber(d);
    hide HexNumber;
    UnicodeStored(d, q + "'\n");
    var e := (if |d| == 4 then "u" else "U") + d;
    if v == 0 || 0xD800 <= v <= 0xDFFF {
      BadEscapeInWord(p, e, q);
    } else {
      EscapeInWord(p, e, CharOf(v), q);
    }
  }

  lemma BadEscapeInWord(p: string, e: string, q: string)
    requires PlainInSingle(p) && CStyleEscape(e + (q + "'\n")) == BadEscape
    ensures ReadToken("$'" + (p + "\\" + e + q) + "'" + "\n") == SyntaxError
  {
    hide ReadWord, CStyleEscape;
    var body, end := p + "\\" + e + q, "'\n";
    assert "$'" + body + "'" + "\n" == "$'" + (body + end);
    assert body + end == p + ("\\" + (e + (q + end)));
    ReadSingleStart(true, body + end);
    ReadPlainBytes(p, true, false, [CTLQUOTEMARK], "\\" + (e + (q + end)));
    FailedEscape(e + (q + end), [CTLQUOTEMARK] + ProtectAll(p));
  }

  lemma FailedEscape(s: string, out: string)
    requires CStyleEscape(s) == BadEscape
    ensures ReadWord(Sq, true, false, out, "\\" + s) == SyntaxError
  {
    hide CStyleEscape;
    assert ("\\" + s)[1..] == s;
  }

  lemma EscapeInWord(p: string, e: string, c: char, q: string)
    requires PlainInSingle(p) && PlainInSingle(q) && CStyleEscape(e + (q + "'\n")) == Escape(Protect(c), q + "'\n")
    ensures ReadsAs("$'" + (p + "\\" + e + q) + "'", p + [c] + q)
  {
    hide ReadWord, StandsFor, ReadsAs, CStyleEscape;
    var end := "'\n";
    var rest := q + end;
    assert p + "\\" + e + q + end == p + ("\\" + (e + rest));
    ReadPlainBytes(p, true, false, [CTLQUOTEMARK], "\\" + (e + rest));
    var out := [CTLQUOTEMARK] + ProtectAll(p);
    ReadEscape(e, c, out, rest);
    ReadPlainBytes(q, true, false, out + Protect(c), end);
    var w := ProtectAll(p) + Protect(c) + ProtectAll(q);
    assert out + Protect(c) + ProtectAll(q) == [CTLQUOTEMARK] + w;
    ProtectAllStandsFor(p);
    ProtectStandsFor(c);
    ProtectAllStandsFor(q);
    StandsForBoth(ProtectAll(p), p, Protect(c), [c]);
    StandsForBoth(ProtectAll(p) + Protect(c), p + [c], ProtectAll(q), q);
    SingleQuoted(true, p + "\\" + e + q, w, p + [c] + q);
  }

  /** Too few digits, and a byte that is no control character's name, are syntax errors. */
  lemma FailingEscapes(p: string, d: string, c: char, q: string)
    requires PlainInSingle(p) && AllHex(d) && HexOf(c) < 0
    ensures |d| < 4 ==> ReadToken("$'" + (p + "\\" + ("u" + d + [c]) + q) + "'" + "\n") == SyntaxError
    ensures |d| < 8 ==> ReadToken("$'" + (p + "\\" + ("U" + d + [c]) + q) + "'" + "\n") == SyntaxError
  {
    var rest := q + "'\n";
    if |d| < 4 {
      ShortNumber('u', d, c, rest);
      BadEscapeInWord(p, "u" + d + [c], q);
    }
    if |d| < 8 {
      ShortNumber('U', d, c, rest);
      BadEscapeInWord(p, "U" + d + [c], q);
    }
  }

  lemma ShortNumber(u: char, d: string, c: char, rest: string)
    requires AllHex(d) && HexOf(c) < 0 && ((u == 'u' && |d| < 4) || (u == 'U' && |d| < 8))
    ensures CStyleEscape([u] + d + [c] + rest) == BadEscape
  {
    hide Protect, SkipToQuote, HexDigits, OctalDigits, HexOf, IsHex, HexValue, HexNumber, UniDigits;
    var s := [u] + d + [c] + rest;
    assert s[1..] == d + ([c] + rest);
    NumberOfNothing();
    var n := if u == 'U' then 8 else 4;
    DigitsRead(n, "", d, [c] + rest);
    NoHexDigit(c);
    StopsShort(n - |d|, HexNumber("" + d), c, rest);
  }

  lemma StopsShort(n: nat, v: nat, c: char, rest: string)
    requires n > 0 && !IsHex(c)
    ensures UniDigits(n, v, [c] + rest) == (-1, [c] + rest)
  {
  }

  /** `\c` before a byte that is neither a letter nor one of seven others. */
  lemma FailingControlEscapes(p: string, c: char, q: string)
    requires PlainInSingle(p) && c !in UPPER && c !in LOWER && c !in "@[\\]^_?"
    ensures ReadToken("$'" + (p + "\\" + ['c', c] + q) + "'" + "\n") == SyntaxError
  {
    UpperLetters(c);
    LowerLetters(c);
    var s := ['c', c] + (q + "'\n");
    assert s[1..][0] == c;
    assert CStyleEscape(s) == BadEscape;
    BadEscapeInWord(p, ['c', c], q);
  }

  // ----- what word texts can hold -----

  /** The bytes that mean something to expansion. */
  const MARKS := "\U{C0}\U{C1}\U{F9}\U{FA}\U{FB}\U{FC}\U{FD}\U{FE}\U{FF}"

  /** No such byte stands unprotected but the quote mark. */
  predicate Guarded(t: string) {
    t == "" || (if t[0] == CTLESC then |t| > 1 && Guarded(t[2..]) else (t[0] == CTLQUOTEMARK || t[0] !in MARKS) && Guarded(t[1..]))
  }

  lemma {:induction false} GuardedBoth(a: string, b: string)
    requires Guarded(a) && Guarded(b)
    ensures Guarded(a + b)
    decreases |a|
  {
    if a == "" {
      assert a + b == b;
    } else {
      var k := if a[0] == CTLESC then 2 else 1;
      assert (a + b)[k..] == a[k..] + b;
      GuardedBoth(a[k..], b);
    }
  }

  lemma GuardedByte(c: char)
    ensures Guarded([CTLESC, c]) && (Guarded([c]) <==> c == CTLQUOTEMARK || c !in MARKS) && (c in MARKS <==> IsCtl(c)) && Guarded("")
    ensures Guarded(Protect(c))
  {
    if IsCtl(c) {
      assert c in MARKS by {
        assert c == MARKS[0] || c == MARKS[1] || c == MARKS[2] || c == MARKS[3] || c == MARKS[4] || c == MARKS[5]
            || c == MARKS[6] || c == MARKS[7] || c == MARKS[8];
      }
    }
    assert [CTLESC, c][2..] == "" && [c][1..] == "";
  }

  lemma GuardedEscape(s: string)
    ensures CStyleEscape(s).Escape? ==> Guarded(CStyleEscape(s).out)
  {
    hide HexDigits, OctalDigits, UniDigits, Guarded, Protect;
    forall v: nat, rest: string
      ensures StoreEscape(v, rest).Escape? ==> Guarded(StoreEscape(v, rest).out)
    {
      GuardedByte((v % 256) as char);
      SkippedIsNothing(rest);
    }
    GuardedByte('a');
  }

  lemma {:induction false} SkippedIsNothing(s: string)
    ensures SkipToQuote(s).Escape? ==> SkipToQuote(s).out == ""
    decreases |s|
  {
    if s != "" && s[0] != '\'' {
      if s[0] != '\\' {
        SkippedIsNothing(s[1..]);
      } else if |s| > 1 {
        SkippedIsNothing(s[2..]);
      }
    }
  }

  /** One step of the reader: it ends the word, or goes on behind with a text that is guarded again. */
  lemma {:induction false} GuardedWord(syn: Syntax, cstyle: bool, q: bool, out: string, s: string)
    requires Guarded(out)
    ensures var t := ReadWord(syn, cstyle, q, out, s); t.Word? ==> Guarded(t.text)
    decreases |s|, 0
  {
    hide Guarded, Protect, CStyleEscape, StartsSubstitution;
    if s != "" {
      var c, rest := s[0], s[1..];
      GuardedByte(c);
      GuardedByte(CTLQUOTEMARK);
      GuardedByte('\\');
      GuardedByte('$');
      assert CTLQUOTEMARK !in "\\$" && !IsCtl('\\') && !IsCtl('$');
      match ClassOf(syn, c)
      case CNl => 
      case CSpcl =>
      case CQnl => GuardedOn(syn, cstyle, q, out, [c], rest);
      case CWord => GuardedOn(syn, cstyle, q, out, [c], rest);
      case CEndvar => GuardedOn(syn, cstyle, q, out, [c], rest);
      case CCtl => GuardedOn(syn, cstyle, q, out, [CTLESC, c], rest);
      case CSback =>
        if cstyle {
          GuardedEscape(rest);
          var e := CStyleEscape(rest);
          if e.Escape? {
            GuardedOn(syn, cstyle, q, out, e.out, e.rest);
          }
        } else {
          GuardedOn(syn, cstyle, q, out, [c], rest);
        }
      case CBack =>
        if rest == "" {
          GuardedOn(syn, cstyle, q, out, "\\", rest);
        } else if rest[0] == '\n' {
          GuardedWord(syn, cstyle, q, out, rest[1..]);
        } else {
          GuardedBackslash(syn, rest[0]);
          GuardedOn(syn, cstyle, true, out, BackslashBefore(syn, rest[0]), rest[1..]);
        }
      case CSquote => GuardedOn(Sq, false, q, out, [CTLQUOTEMARK], rest);
      case CDquote => GuardedOn(Dq, cstyle, q, out, [CTLQUOTEMARK], rest);
      case CEndquote => GuardedWord(Base, cstyle, true, out, rest);
      case CVar =>
        var after := AfterContinuations(rest);
        if !StartsSubstitution(after) {
          if after != "" && after[0] == '\'' && syn.Base? {
            GuardedOn(Sq, true, q, out, [CTLQUOTEMARK], after[1..]);
          } else {
            GuardedOn(syn, cstyle, q, out, "$", after);
          }
        }
      case CBquote =>
    }
  }

  lemma {:induction false} GuardedOn(syn: Syntax, cstyle: bool, q: bool, out: string, more: string, s: string)
    requires Guarded(out) && Guarded(more)
    ensures var t := ReadWord(syn, cstyle, q, out + more, s); t.Word? ==> Guarded(t.text)
    decreases |s|, 1
  {
    hide Guarded, ReadWord;
    GuardedBoth(out, more);
    GuardedWord(syn, cstyle, q, out + more, s);
  }

  lemma GuardedBackslash(syn: Syntax, c: char)
    ensures Guarded(BackslashBefore(syn, c))
  {
    hide Guarded, Protect;
    GuardedByte(c);
    GuardedByte('\\');
    GuardedByte(CTLQUOTEMARK);
    if syn.Dq? && !NeedsBackslash(c) {
      GuardedBoth("\\", Protect(c));
      assert "\\" + "" + Protect(c) == "\\" + Protect(c);
    } else if syn.Base? {
      GuardedBoth([CTLQUOTEMARK], Protect(c));
      assert "" + [CTLQUOTEMARK] + Protect(c) == [CTLQUOTEMARK] + Protect(c);
    } else {
      assert "" + "" + Protect(c) == Protect(c);
    }
  }

  /** Whatever the input is, no byte of it is mistaken for one of expansion's own marks. */
  lemma {:induction false} InputMakesNoMarks(s: string)
    ensures ReadToken(s).Word? ==> Guarded(ReadToken(s).text)
    decreases |s|
  {
    hide ReadWord;
    if s != "" {
      if s[0] == ' ' || s[0] == '\t' {
        InputMakesNoMarks(s[1..]);
      } else if s[0] == '#' {
        InputMakesNoMarks(SkipComment(s[1..]));
      } else if s[0] == '\\' && |s| > 1 && s[1] == '\n' {
        InputMakesNoMarks(s[2..]);
      } else {
        GuardedWord(Base, false, false, "", s);
      }
    }
  }

  // ----- quote removal -----

  lemma {:induction false} RemovalInParts(a: string, b: string)
    requires EscapesComplete(a) && EscapesComplete(b)
    ensures EscapesComplete(a + b) && Unescaped(a + b) == Unescaped(a) + Unescaped(b)
    decreases |a|
  {
    if a == "" {
      assert a + b == b;
    } else {
      var k := if a[0] == CTLESC then 2 else 1;
      assert (a + b)[k..] == a[k..] + b;
      RemovalInParts(a[k..], b);
    }
  }

  /** Quote removal drops the two marks and one CTLESC before a byte, wherever they are, and nothing else. */
  lemma WhatRemovalDrops(a: string, c: char, b: string)
    requires EscapesComplete(a) && EscapesComplete(b)
    ensures EscapesComplete(a + [CTLESC, c] + b) && Unescaped(a + [CTLESC, c] + b) == Unescaped(a) + [c] + Unescaped(b)
    ensures c != CTLESC ==> EscapesComplete(a + [c] + b)
    ensures c != CTLESC ==>
      Unescaped(a + [c] + b) == Unescaped(a) + (if c == '\U{FE}' || c == '\U{FF}' then "" else [c]) + Unescaped(b)
  {
    hide EscapesComplete, Unescaped;
    OneRemoved(c);
    assert a + [CTLESC, c] + b == a + ([CTLESC, c] + b);
    RemovalInParts([CTLESC, c], b);
    RemovalInParts(a, [CTLESC, c] + b);
    if c != CTLESC {
      assert a + [c] + b == a + ([c] + b);
      RemovalInParts([c], b);
      RemovalInParts(a, [c] + b);
    }
  }

  lemma OneRemoved(c: char)
    ensures EscapesComplete([CTLESC, c]) && Unescaped([CTLESC, c]) == [c]
    ensures c != CTLESC ==> EscapesComplete([c]) && Unescaped([c]) == if c == '\U{FE}' || c == '\U{FF}' then "" else [c]
  {
    assert [CTLESC, c][2..] == "" && [c][1..] == "";
    assert [c] + "" == [c];
  }

  // ----- quoted words as patterns -----

  /** Bytes in double quotes, and in single quotes, match themselves and nothing else. */
  lemma QuotedPatternIsLiteral(s: string, t: string)
    requires IsBytes(s)
    ensures IsLiteral("\"" + InDouble(s) + "\"\n", s, t)
    ensures '\'' !in s ==> IsLiteral("'" + s + "'\n", s, t)
  {
    hide ReadWord, IsLiteral;
    var q := ReadDouble(s, false, [CTLQUOTEMARK], "\"\n");
    assert "\"" + InDouble(s) + "\"\n" == "\"" + (InDouble(s) + "\"\n");
    ReadDoubleStart(InDouble(s) + "\"\n");
    ReadDoubleEnd(q, [CTLQUOTEMARK] + ProtectAll(s));
    ProtectedIsLiteral("\"" + InDouble(s) + "\"\n", s, t);
    if '\'' !in s {
      assert "'" + s + "'\n" == "'" + (s + "'\n");
      ReadSingleStart(false, s + "'\n");
      ReadPlainBytes(s, false, false, [CTLQUOTEMARK], "'\n");
      ReadSingleEnd(false, [CTLQUOTEMARK] + ProtectAll(s));
      ProtectedIsLiteral("'" + s + "'\n", s, t);
    }
  }

  /** The text is a word that, used as a pattern, matches `t` exactly if it is `s`. */
  predicate IsLiteral(text: string, s: string, t: string) {
    var w := ReadToken(text);
    w.Word? && EscapesComplete(w.text) && (Matches(Elems(PatternText(w.text), 0), t) <==> t == s)
  }

  lemma ProtectedIsLiteral(text: string, s: string, t: string)
    requires IsBytes(s) && ReadToken(text).Word? && ReadToken(text).text == [CTLQUOTEMARK] + ProtectAll(s)
    ensures IsLiteral(text, s, t)
  {
    hide ReadToken;
    var w := [CTLQUOTEMARK] + ProtectAll(s);
    assert w[1..] == ProtectAll(s);
    UnescapeProtected(s);
    assert ProtectAll(s)[0..] == ProtectAll(s);
    ElemsOfProtected(ProtectAll(s), 0, s);
    LitsMatchOnlyThemselves(s, t);
  }

  // ----- what is printed -----

  lemma {:induction false} BodyIsPrintable(s: string)
    requires IsBytes(s)
    ensures |DqBody(s)| >= |s|
    ensures forall i :: 0 <= i < |DqBody(s)| ==> DqBody(s)[i] == '\n' || ' ' <= DqBody(s)[i] <= '~'
    decreases |s|
  {
    if s != "" {
      BodyIsPrintable(s[1..]);
    }
  }

  predicate IsPlainText(t: string) {
    forall i :: 0 <= i < |t| ==> t[i] == '\n' || ' ' <= t[i] <= '\U{7F}'
  }

  /**
   * Only newlines and bytes from the space to the DEL are ever printed, a string of them without single quotes is printed
   * as it is or in single quotes, and bare only without bytes that would start an expansion of tildes or make it an
   * assignment.
   */
  lemma PrintedIsPlain(s: string)
    requires IsBytes(s)
    ensures IsPlainText(Printed(s)) && (Printed(s) == s ==> '~' !in s && '=' !in s && ' ' !in s && '\n' !in s)
    ensures IsPlainText(s) && '\'' !in s ==> Printed(s) == s || Printed(s) == "'" + s + "'"
  {
    BodyIsPrintable(s);
    hide DqBody;
    if s != "" && !(exists i :: 0 <= i < |s| && NeedsEscapes(s[i])) {
      assert IsPlainText(s) by {
        forall i | 0 <= i < |s|
          ensures s[i] == '\n' || ' ' <= s[i] <= '\U{7F}'
        {
          assert !NeedsEscapes(s[i]);
        }
      }
      if c :| c in s && c in "~= \n" {
        assert c in UNSAFE && c != '[';
        assert |"'" + s + "'"| == |s| + 2;
      }
    } else if s != "" {
      assert |Printed(s)| == |DqBody(s)| + 3;
    }
  }

  /** A byte printed as itself also next to bytes that are not. */
  predicate PrintsAsIs(c: char) {
    ' ' <= c <= '~' && c != '\'' && c != '\\'
  }

  lemma PieceAsIs(c: char)
    requires PrintsAsIs(c)
    ensures DqPiece(c) == [c]
  {
  }

  lemma {:induction false} BodyInParts(s: string, t: string)
    requires IsBytes(s) && IsBytes(t) && IsBytes(s + t)
    requires forall i :: 0 <= i < |s| ==> PrintsAsIs(s[i])
    ensures DqBody(s + t) == s + DqBody(t)
    decreases |s|
  {
    hide DqPiece, PrintsAsIs;
    if s == "" {
      assert s + t == t;
    } else {
      PieceAsIs(s[0]);
      assert (s + t)[0] == s[0] && (s + t)[1..] == s[1..] + t;
      BodyInParts(s[1..], t);
      assert [s[0]] + (s[1..] + DqBody(t)) == s + DqBody(t);
    }
  }

  /** A control byte or one above the DEL takes at most four bytes, and the printable bytes around it stay as they are. */
  lemma PrintablesStandForThemselves(p: string, c: char, q: string)
    requires IsBytes(p + [c] + q) && ((c < ' ' && c != '\n') || c >= '\U{80}')
    requires forall i :: 0 <= i < |p| ==> PrintsAsIs(p[i])
    requires forall i :: 0 <= i < |q| ==> PrintsAsIs(q[i])
    ensures exists e: string :: |e| <= 4 && Printed(p + [c] + q) == "$'" + (p + e + q) + "'"
  {
    hide DqBody, DqPiece;
    var s := p + [c] + q;
    var e := BodyAround(p, c, q);
    assert s[|p|] == c && NUL < c;
    assert Printed(s) == "$'" + (p + e + q) + "'";
  }

  lemma BodyAround(p: string, c: char, q: string) returns (e: string)
    requires IsBytes(p + [c] + q)
    requires forall i :: 0 <= i < |p| ==> PrintsAsIs(p[i])
    requires forall i :: 0 <= i < |q| ==> PrintsAsIs(q[i])
    ensures |e| <= 4 && DqBody(p + [c] + q) == p + e + q
  {
    hide PrintsAsIs, DqPiece;
    var rest := [c] + q;
    assert p + [c] + q == p + rest && rest[0] == c && rest[1..] == q && q + "" == q;
    PartsAreBytes(p, c, q);
    BodyInParts(p, rest);
    BodyInParts(q, "");
    e := DqPiece(c);
    PieceIsShort(c);
    assert DqBody(rest) == e + q;
  }

  lemma PieceIsShort(c: char)
    requires c <= '\U{FF}'
    ensures |DqPiece(c)| <= 4
  {
  }

  lemma PartsAreBytes(p: string, c: char, q: string)
    requires IsBytes(p + [c] + q)
    ensures IsBytes(p) && IsBytes(q) && IsBytes([c] + q) && IsBytes(p + ([c] + q))
  {
    var s := p + [c] + q;
    assert s == p + ([c] + q);
    assert forall i :: 0 <= i < |p| ==> s[i] == p[i];
    assert forall i :: 0 <= i < |q| + 1 ==> s[|p| + i] == ([c] + q)[i];
    assert forall i :: 0 <= i < |q| ==> s[|p| + 1 + i] == q[i];
  }
}
