/** What a word in quotes or with backslashes is read as, said by the bytes that quote removal leaves:
    section 2.2 of IEEE Std 1003.1-2024 (XCU); the quote states of readtoken1 of src/parser.c. */
module QuoteLaws {
  import opened PatMatch
  import opened Quote

  /** The text is one quoted word up to the newline, and quote removal gives `s`. */
  predicate ReadsAs(text: string, s: string) {
    var t := ReadToken(text + "\n");
    t.Word? && t.quoted && t.rest == "\n" && EscapesComplete(t.text) && Unescaped(t.text) == s
  }

  predicate NulFree(s: string) {
    forall i :: 0 <= i < |s| ==> s[i] != NUL
  }

  /** The word text `w` stands for the bytes `s`, wherever it is put. */
  ghost predicate StandsFor(w: string, s: string) {
    forall t :: Adds(w, s, t)
  }

  predicate Adds(w: string, s: string, t: string) {
    EscapesComplete(t) ==> EscapesComplete(w + t) && Unescaped(w + t) == s + Unescaped(t)
  }

  lemma StandsForBoth(w: string, s: string, w': string, s': string)
    requires StandsFor(w, s) && StandsFor(w', s')
    ensures StandsFor(w + w', s + s')
  {
    hide EscapesComplete, Unescaped;
    forall t
      ensures Adds(w + w', s + s', t)
    {
      assert Adds(w', s', t) && Adds(w, s, w' + t);
      assert w + w' + t == w + (w' + t);
      if EscapesComplete(t) {
        assert s + s' + Unescaped(t) == s + (s' + Unescaped(t));
      }
    }
  }

  lemma ProtectStandsFor(c: char)
    ensures StandsFor(Protect(c), [c])
  {
    forall t
      ensures Adds(Protect(c), [c], t)
    {
      var p := Protect(c) + t;
      if ClassOf(Sq, c) == CCtl {
        assert p[0] == CTLESC && p[1] == c && p[2..] == t;
      } else {
        assert p[0] == c && p[1..] == t;
      }
    }
  }

  lemma MarkStandsForNothing()
    ensures StandsFor([CTLQUOTEMARK], "") && StandsFor("", "")
  {
    forall t
      ensures Adds([CTLQUOTEMARK], "", t) && Adds("", "", t)
    {
      assert ([CTLQUOTEMARK] + t)[1..] == t && "" + t == t;
      if EscapesComplete(t) {
        assert "" + Unescaped(t) == Unescaped(t);
      }
    }
  }

  // ----- double quotes -----

  /** A byte that a backslash protects in double quotes. */
  predicate NeedsBackslash(c: char) {
    c == '\\' || c == '`' || c == '$' || c == '"'
  }

  function InDouble(s: string): string {
    if s == "" then "" else (if NeedsBackslash(s[0]) then ['\\', s[0]] else [s[0]]) + InDouble(s[1..])
  }

  /** One byte of the quoted string: what the reader adds to the word, which may become a quoted one. */
  lemma ReadDoubleByte(c: char, q: bool, out: string, rest: string) returns (q': bool)
    requires c != NUL
    ensures q ==> q'
    ensures ReadWord(Dq, false, q, out, (if NeedsBackslash(c) then ['\\', c] else [c]) + rest)
         == ReadWord(Dq, false, q', out + Protect(c), rest)
  {
    var s := (if NeedsBackslash(c) then ['\\', c] else [c]) + rest;
    q' := q || NeedsBackslash(c);
    assert "" + "" + Protect(c) == Protect(c);
    if NeedsBackslash(c) {
      assert s[0] == '\\' && s[1..][0] == c && s[1..][1..] == rest;
    } else {
      assert s[0] == c && s[1..] == rest;
    }
  }

  lemma {:induction false} ReadDouble(s: string, q: bool, out: string, rest: string) returns (q': bool)
    requires NulFree(s)
    ensures q ==> q'
    ensures ReadWord(Dq, false, q, out, InDouble(s) + rest) == ReadWord(Dq, false, q', out + ProtectAll(s), rest)
    decreases |s|
  {
    hide ReadWord, Protect;
    if s == "" {
      q' := q;
      assert InDouble(s) + rest == rest && out + "" == out;
    } else {
      var piece := if NeedsBackslash(s[0]) then ['\\', s[0]] else [s[0]];
      assert InDouble(s) + rest == piece + (InDouble(s[1..]) + rest);
      var q1 := ReadDoubleByte(s[0], q, out, InDouble(s[1..]) + rest);
      q' := ReadDouble(s[1..], q1, out + Protect(s[0]), rest);
      assert out + ProtectAll(s) == (out + Protect(s[0])) + ProtectAll(s[1..]);
    }
  }

  lemma {:induction false} ProtectAllStandsFor(s: string)
    ensures StandsFor(ProtectAll(s), s)
  {
    hide Protect, StandsFor;
    MarkStandsForNothing();
    if s != "" {
      ProtectStandsFor(s[0]);
      ProtectAllStandsFor(s[1..]);
      StandsForBoth(Protect(s[0]), [s[0]], ProtectAll(s[1..]), s[1..]);
      assert [s[0]] + s[1..] == s;
    }
  }

  /** The end of a quoted word. */
  lemma ReadDoubleEnd(q: bool, out: string)
    ensures ReadWord(Dq, false, q, out, "\"\n") == Word(out, true, "\n")
  {
    assert "\"\n"[1..] == "\n";
    assert ReadWord(Base, false, true, out, "\n") == Word(out, true, "\n");
  }

  lemma ReadDoubleStart(body: string)
    ensures ReadToken("\"" + body) == ReadWord(Dq, false, false, [CTLQUOTEMARK], body)
  {
    var s := "\"" + body;
    assert s[1..] == body;
    assert ReadToken(s) == ReadWord(Base, false, false, "", s);
    assert "" + [CTLQUOTEMARK] == [CTLQUOTEMARK];
  }

  /** What a word between double quotes with the bytes `w` in the word text is read as. */
  lemma DoubleQuoted(body: string, q: bool, w: string, s: string)
    requires StandsFor(w, s)
    requires ReadWord(Dq, false, false, [CTLQUOTEMARK], body + "\"\n") == ReadWord(Dq, false, q, [CTLQUOTEMARK] + w, "\"\n")
    ensures ReadsAs("\"" + body + "\"", s)
  {
    hide ReadWord, ReadToken, EscapesComplete, Unescaped;
    assert "\"" + body + "\"" + "\n" == "\"" + (body + "\"\n");
    ReadDoubleStart(body + "\"\n");
    ReadDoubleEnd(q, [CTLQUOTEMARK] + w);
    MarkStandsForNothing();
    StandsForBoth([CTLQUOTEMARK], "", w, s);
    assert "" + s == s;
    Complete([CTLQUOTEMARK] + w, s);
  }

  lemma Complete(w: string, s: string)
    requires StandsFor(w, s)
    ensures EscapesComplete(w) && Unescaped(w) == s
  {
    assert Adds(w, s, "");
    assert w + "" == w && s + "" == s;
    assert EscapesComplete("") && Unescaped("") == "";
  }

  /** Any bytes between double quotes, with a backslash before each `\`, backquote, `$` and `"`, are one word that is them. */
  lemma DoubleQuotesKeepBytes(s: string)
    requires NulFree(s)
    ensures ReadsAs("\"" + InDouble(s) + "\"", s)
  {
    hide ReadWord, StandsFor, ReadsAs;
    var q := ReadDouble(s, false, [CTLQUOTEMARK], "\"\n");
    ProtectAllStandsFor(s);
    DoubleQuoted(InDouble(s), q, ProtectAll(s), s);
  }

  /** In double quotes a backslash before any other byte stays, and one before a newline disappears with it. */
  lemma OtherBackslashesStay(s: string, c: char, t: string)
    requires NulFree(s) && NulFree(t) && c != NUL && !NeedsBackslash(c)
    ensures ReadsAs("\"" + (InDouble(s) + ['\\', c] + InDouble(t)) + "\"", s + (if c == '\n' then "" else ['\\', c]) + t)
  {
    hide ReadWord, StandsFor, ReadsAs;
    var end := "\"\n";
    var rest := InDouble(t) + end;
    var q1 := ReadDouble(s, false, [CTLQUOTEMARK], ['\\', c] + rest);
    var out := [CTLQUOTEMARK] + ProtectAll(s);
    var mid := if c == '\n' then "" else "\\" + Protect(c);
    var q2 := BackslashInDouble(c, q1, out, rest);
    var q3 := ReadDouble(t, q2, out + mid, end);
    assert InDouble(s) + ['\\', c] + InDouble(t) + end == InDouble(s) + (['\\', c] + rest);
    var w := ProtectAll(s) + mid + ProtectAll(t);
    assert out + mid + ProtectAll(t) == [CTLQUOTEMARK] + w;
    ProtectAllStandsFor(s);
    ProtectAllStandsFor(t);
    BackslashStandsFor(c);
    StandsForBoth(ProtectAll(s), s, mid, if c == '\n' then "" else ['\\', c]);
    StandsForBoth(ProtectAll(s) + mid, s + (if c == '\n' then "" else ['\\', c]), ProtectAll(t), t);
    DoubleQuoted(InDouble(s) + ['\\', c] + InDouble(t), q3, w, s + (if c == '\n' then "" else ['\\', c]) + t);
  }

  lemma BackslashStandsFor(c: char)
    ensures StandsFor(if c == '\n' then "" else "\\" + Protect(c), if c == '\n' then "" else ['\\', c])
  {
    hide Protect, StandsFor;
    MarkStandsForNothing();
    PlainStandsFor('\\');
    ProtectStandsFor(c);
    StandsForBoth("\\", "\\", Protect(c), [c]);
    assert "\\" + [c] == ['\\', c];
  }

  lemma PlainStandsFor(c: char)
    requires IsOrdinary(c)
    ensures StandsFor([c], [c])
  {
    forall t
      ensures Adds([c], [c], t)
    {
      PlainUnescaped(c, t);
    }
  }

  lemma BackslashInDouble(c: char, q: bool, out: string, rest: string) returns (q': bool)
    requires c != NUL && !NeedsBackslash(c)
    ensures ReadWord(Dq, false, q, out, ['\\', c] + rest)
         == ReadWord(Dq, false, q', out + (if c == '\n' then "" else "\\" + Protect(c)), rest)
  {
    var s := ['\\', c] + rest;
    assert s[1..][0] == c && s[1..][1..] == rest;
    q' := q || c != '\n';
    assert c != '\n' ==> out + ("\\" + "" + Protect(c)) == out + ("\\" + Protect(c));
    assert out + "" == out;
  }

  // ----- backslashes outside quotes -----

  function Backslashed(s: string): string {
    if s == "" then "" else ['\\', s[0]] + Backslashed(s[1..])
  }

  function MarkedAll(s: string): string {
    if s == "" then "" else [CTLQUOTEMARK] + Protect(s[0]) + MarkedAll(s[1..])
  }

  lemma {:induction false} MarkedStandsFor(s: string)
    ensures StandsFor(MarkedAll(s), s)
  {
    hide Protect, StandsFor;
    MarkStandsForNothing();
    if s != "" {
      ProtectStandsFor(s[0]);
      MarkedStandsFor(s[1..]);
      StandsForBoth([CTLQUOTEMARK], "", Protect(s[0]), [s[0]]);
      assert "" + [s[0]] == [s[0]];
      StandsForBoth([CTLQUOTEMARK] + Protect(s[0]), [s[0]], MarkedAll(s[1..]), s[1..]);
      assert [s[0]] + s[1..] == s;
    }
  }

  lemma {:induction false} ReadBackslashed(s: string, q: bool, out: string, rest: string)
    requires '\n' !in s
    ensures ReadWord(Base, false, q, out, Backslashed(s) + rest) == ReadWord(Base, false, q || s != "", out + MarkedAll(s), rest)
    decreases |s|
  {
    if s == "" {
      assert Backslashed(s) + rest == rest && out + "" == out;
    } else {
      var more := Backslashed(s[1..]) + rest;
      var all := Backslashed(s) + rest;
      assert all == ['\\', s[0]] + more;
      assert all[0] == '\\' && all[1..][0] == s[0] && all[1..][1..] == more;
      ReadOneBackslashed(s[0], q, out, more);
      hide ReadWord;
      ReadBackslashed(s[1..], true, out + ([CTLQUOTEMARK] + Protect(s[0])), rest);
      assert out + MarkedAll(s) == (out + ([CTLQUOTEMARK] + Protect(s[0]))) + MarkedAll(s[1..]);
    }
  }

  lemma ReadOneBackslashed(c: char, q: bool, out: string, rest: string)
    requires c != '\n'
    ensures ReadWord(Base, false, q, out, ['\\', c] + rest) == ReadWord(Base, false, true, out + ([CTLQUOTEMARK] + Protect(c)), rest)
  {
    var s := ['\\', c] + rest;
    assert s[1..][0] == c && s[1..][1..] == rest;
    assert "" + [CTLQUOTEMARK] + Protect(c) == [CTLQUOTEMARK] + Protect(c);
  }

  /** Outside quotes every byte but the newline with a backslash before it is that byte; backslash and newline disappear. */
  lemma BackslashesKeepBytes(s: string, t: string)
    requires s != "" && '\n' !in s && '\n' !in t
    ensures ReadsAs(Backslashed(s), s)
    ensures ReadsAs(Backslashed(s) + "\\\n" + Backslashed(t), s + t)
  {
    BackslashesOnly(s, "", false);
    BackslashesOnly(s, t, true);
    assert Backslashed(s) + "" + Backslashed("") == Backslashed(s) && s + "" == s;
  }

  lemma BackslashesOnly(s: string, t: string, joined: bool)
    requires s != "" && '\n' !in s && '\n' !in t
    ensures ReadsAs(Backslashed(s) + (if joined then "\\\n" else "") + Backslashed(t), s + t)
  {
    hide ReadWord, StandsFor, Backslashed, MarkedAll, EscapesComplete, Unescaped, ReadToken;
    var join := if joined then "\\\n" else "";
    var text := Backslashed(s) + join + Backslashed(t);
    var rest := Backslashed(t) + "\n";
    assert text + "\n" == Backslashed(s) + (join + rest);
    assert s[0] in s;
    BackslashStarts(s, join + rest);
    ReadBackslashed(s, false, "", join + rest);
    var out := MarkedAll(s);
    assert "" + out == out;
    if joined {
      ContinuationVanishes(true, out, rest);
    } else {
      assert join + rest == rest;
    }
    ReadBackslashed(t, true, out, "\n");
    WordEnds(true, out + MarkedAll(t));
    MarkedStandsFor(s);
    MarkedStandsFor(t);
    StandsForBoth(MarkedAll(s), s, MarkedAll(t), t);
    Complete(MarkedAll(s) + MarkedAll(t), s + t);
  }

  lemma BackslashStarts(s: string, rest: string)
    requires s != "" && s[0] != '\n'
    ensures ReadToken(Backslashed(s) + rest) == ReadWord(Base, false, false, "", Backslashed(s) + rest)
  {
    var all := Backslashed(s) + rest;
    assert all[0] == '\\' && all[1] == s[0];
  }

  lemma ContinuationVanishes(q: bool, out: string, rest: string)
    ensures ReadWord(Base, false, q, out, "\\\n" + rest) == ReadWord(Base, false, q, out, rest)
  {
    var s := "\\\n" + rest;
    assert s[1..][0] == '\n' && s[1..][1..] == rest;
  }

  lemma WordEnds(q: bool, out: string)
    ensures ReadWord(Base, false, q, out, "\n") == Word(out, q, "\n")
  {
  }

  // ----- single quotes and dollar-single-quotes -----

  /** Bytes that mean nothing special in single quotes of either kind. */
  predicate PlainInSingle(s: string) {
    forall i :: 0 <= i < |s| ==> s[i] != '\'' && s[i] != '\\' && s[i] != NUL
  }

  lemma {:induction false} ReadPlainBytes(s: string, cstyle: bool, q: bool, out: string, rest: string)
    requires (forall i :: 0 <= i < |s| ==> s[i] != '\'') && (cstyle ==> PlainInSingle(s))
    ensures ReadWord(Sq, cstyle, q, out, s + rest) == ReadWord(Sq, cstyle, q, out + ProtectAll(s), rest)
    decreases |s|
  {
    hide Protect;
    if s == "" {
      assert s + rest == rest && out + "" == out;
    } else {
      var more := s[1..] + rest;
      assert s + rest == [s[0]] + more;
      ReadPlainByte(s[0], cstyle, q, out, more);
      hide ReadWord;
      ReadPlainBytes(s[1..], cstyle, q, out + Protect(s[0]), rest);
      assert out + ProtectAll(s) == (out + Protect(s[0])) + ProtectAll(s[1..]);
    }
  }

  lemma ReadPlainByte(c: char, cstyle: bool, q: bool, out: string, rest: string)
    requires c != '\'' && (cstyle ==> c != '\\')
    ensures ReadWord(Sq, cstyle, q, out, [c] + rest) == ReadWord(Sq, cstyle, q, out + Protect(c), rest)
  {
    assert ([c] + rest)[1..] == rest;
  }

  lemma ReadSingleEnd(cstyle: bool, out: string)
    ensures ReadWord(Sq, cstyle, false, out, "'\n") == Word(out, true, "\n")
  {
    assert "'\n"[1..] == "\n";
    assert ReadWord(Base, cstyle, true, out, "\n") == Word(out, true, "\n");
  }

  lemma ReadSingleStart(cstyle: bool, body: string)
    ensures ReadToken((if cstyle then "$'" else "'") + body) == ReadWord(Sq, cstyle, false, [CTLQUOTEMARK], body)
  {
    var s := (if cstyle then "$'" else "'") + body;
    assert ReadToken(s) == ReadWord(Base, false, false, "", s);
    assert "" + [CTLQUOTEMARK] == [CTLQUOTEMARK];
    if cstyle {
      assert s[1..] == "'" + body && AfterContinuations(s[1..]) == s[1..] && s[1..][1..] == body;
    } else {
      assert s[1..] == body;
    }
  }

  lemma SingleQuoted(cstyle: bool, body: string, w: string, s: string)
    requires StandsFor(w, s)
    requires ReadWord(Sq, cstyle, false, [CTLQUOTEMARK], body + "'\n") == ReadWord(Sq, cstyle, false, [CTLQUOTEMARK] + w, "'\n")
    ensures ReadsAs((if cstyle then "$'" else "'") + body + "'", s)
  {
    hide ReadWord, ReadToken, EscapesComplete, Unescaped;
    var open := if cstyle then "$'" else "'";
    assert open + body + "'" + "\n" == open + (body + "'\n");
    ReadSingleStart(cstyle, body + "'\n");
    ReadSingleEnd(cstyle, [CTLQUOTEMARK] + w);
    MarkStandsForNothing();
    StandsForBoth([CTLQUOTEMARK], "", w, s);
    assert "" + s == s;
    Complete([CTLQUOTEMARK] + w, s);
  }

  /** Single quotes keep every byte but the single quote, the backslash included. */
  lemma SingleQuotesKeepBytes(s: string)
    requires '\'' !in s
    ensures ReadsAs("'" + s + "'", s)
  {
    hide ReadWord, StandsFor, ReadsAs;
    ReadPlainBytes(s, false, false, [CTLQUOTEMARK], "'\n");
    ProtectAllStandsFor(s);
    assert s + "'\n" == s + ("'\n");
    SingleQuoted(false, s, ProtectAll(s), s);
  }

  /** The value of a hexadecimal digit. */
  function HexOf(c: char): int {
    if '0' <= c <= '9' then c as int - 48 else if 'a' <= c <= 'f' then c as int - 87
    else if 'A' <= c <= 'F' then c as int - 55 else -1
  }

  /** The escapes of section 2.2.4: what may follow the backslash, and the byte it stands for. */
  predicate EscapeIs(e: string, v: int) {
    || (e == "a" && v == 7) || (e == "b" && v == 8) || (e == "e" && v == 27) || (e == "f" && v == 12)
    || (e == "n" && v == 10) || (e == "r" && v == 13) || (e == "t" && v == 9) || (e == "v" && v == 11)
    || (e == "\\" && v == 92) || (e == "'" && v == 39) || (e == "\"" && v == 34)
    || IsHexEscape(e, v) || IsOctalEscape(e, v) || IsControlEscape(e, v) || IsUnicodeEscape(e, v)
  }

  predicate IsHexEscape(e: string, v: int) {
    || (|e| == 2 && e[0] == 'x' && HexOf(e[1]) >= 0 && v == HexOf(e[1]))
    || (|e| == 3 && e[0] == 'x' && HexOf(e[1]) >= 0 && HexOf(e[2]) >= 0 && v == 16 * HexOf(e[1]) + HexOf(e[2]))
  }

  predicate IsOctalEscape(e: string, v: int) {
    && 1 <= |e| <= 3 && (forall i :: 0 <= i < |e| ==> '0' <= e[i] <= '7')
    && v == if |e| == 1 then e[0] as int - 48
            else if |e| == 2 then 8 * (e[0] as int - 48) + e[1] as int - 48
            else 64 * (e[0] as int - 48) + 8 * (e[1] as int - 48) + e[2] as int - 48
  }

  /** Control characters by letter, and the six others. */
  predicate IsControlEscape(e: string, v: int) {
    || (|e| == 2 && e[0] == 'c' && 'A' <= e[1] <= 'Z' && v == e[1] as int - 64)
    || (|e| == 2 && e[0] == 'c' && 'a' <= e[1] <= 'z' && v == e[1] as int - 96)
    || (e == "c[" && v == 27) || (e == "c\\\\" && v == 28) || (e == "c]" && v == 29) || (e == "c^" && v == 30)
    || (e == "c_" && v == 31) || (e == "c?" && v == 127)
  }

  /** A character of the C locale by its number. */
  predicate IsUnicodeEscape(e: string, v: int) {
    && (|e| == 5 || |e| == 9) && e[0] == (if |e| == 5 then 'u' else 'U')
    && (forall i :: 1 <= i < |e| - 2 ==> e[i] == '0')
    && HexOf(e[|e| - 2]) >= 0 && HexOf(e[|e| - 1]) >= 0 && v == 16 * HexOf(e[|e| - 2]) + HexOf(e[|e| - 1]) && v < 128
  }

  predicate StopsEscape(rest: string) {
    rest != "" && !IsHex(rest[0])
  }

  lemma HexDigitIs(c: char)
    requires HexOf(c) >= 0
    ensures IsHex(c) && HexValue(c) == HexOf(c)
  {
  }

  lemma HexEscapeStands(e: string, v: int, rest: string)
    requires IsHexEscape(e, v) && 0 < v < 256 && StopsEscape(rest)
    ensures CStyleEscape(e + rest) == Escape(Protect(v as char), rest)
  {
    hide Protect, SkipToQuote, HexOf, IsHex, HexValue;
    var s := e + rest;
    assert s[1..] == e[1..] + rest && s[0] == 'x';
    assert HexDigits(v, rest) == (v, rest);
    HexDigitIs(e[1]);
    var d := HexOf(e[1]);
    if |e| == 2 {
      assert s[1..][0] == e[1] && s[1..][1..] == rest;
      assert HexDigits(0, s[1..]) == HexDigits(d, rest);
    } else {
      HexDigitIs(e[2]);
      assert s[1..][0] == e[1] && s[1..][1..] == [e[2]] + rest && ([e[2]] + rest)[1..] == rest;
      assert HexDigits(0, s[1..]) == HexDigits(d, [e[2]] + rest);
      assert HexDigits(d, [e[2]] + rest) == HexDigits(v, rest);
    }
  }

  lemma NoOctalDigits(n: nat, v: nat, rest: string)
    requires StopsEscape(rest)
    ensures OctalDigits(n, v, rest) == (v, rest)
  {
  }

  lemma OctalEscapeStands(e: string, v: int, rest: string)
    requires IsOctalEscape(e, v) && 0 < v < 256 && StopsEscape(rest)
    ensures CStyleEscape(e + rest) == Escape(Protect(v as char), rest)
  {
    hide Protect, SkipToQuote, HexDigits, UniDigits, OctalDigits, StopsEscape;
    var s := e + rest;
    assert s[0] == e[0] && s[1..] == e[1..] + rest;
    OctalValue(e, v, rest);
  }

  lemma OctalValue(e: string, v: int, rest: string)
    requires IsOctalEscape(e, v) && StopsEscape(rest)
    ensures OctalDigits(2, (e[0] - '0') as nat, e[1..] + rest) == (v, rest)
  {
    hide StopsEscape;
    var a, s := (e[0] - '0') as nat, e[1..] + rest;
    if |e| == 1 {
      assert s == rest;
      NoOctalDigits(2, a, rest);
    } else if |e| == 2 {
      assert s[0] == e[1] && s[1..] == rest;
      NoOctalDigits(1, v, rest);
    } else {
      assert s == [e[1], e[2]] + rest;
      ReadOctal(e[0], e[1], e[2], rest);
    }
  }

  lemma ControlEscapeStands(e: string, v: int, rest: string)
    requires IsControlEscape(e, v)
    ensures CStyleEscape(e + rest) == Escape(Protect(v as char), rest)
  {
    hide Protect, SkipToQuote, HexDigits, UniDigits, OctalDigits;
    var s := e + rest;
    assert s[0] == 'c' && s[1..][0] == e[1];
    if e == "c\\\\" {
      assert s[1..][1] == '\\' && s[1..][2..] == rest;
    } else {
      assert s[1..][1..] == rest;
    }
  }

  lemma {:induction false} UniZeros(n: nat, k: nat, s: string, rest: string)
    requires k <= |s| && k <= n && (forall i :: 0 <= i < k ==> s[i] == '0')
    ensures UniDigits(n, 0, s + rest) == UniDigits(n - k, 0, s[k..] + rest)
    decreases k
  {
    if k == 0 {
      assert s[0..] == s;
    } else {
      assert (s + rest)[0] == '0' && (s + rest)[1..] == s[1..] + rest;
      UniZeros(n - 1, k - 1, s[1..], rest);
      assert s[1..][k - 1..] == s[k..];
    }
  }

  lemma UnicodeEscapeStands(e: string, v: int, rest: string)
    requires IsUnicodeEscape(e, v) && 0 < v
    ensures CStyleEscape(e + rest) == Escape(Protect(v as char), rest)
  {
    hide Protect, SkipToQuote, HexDigits, OctalDigits, UniDigits, HexOf, IsHex, HexValue;
    var s := e + rest;
    assert s[0] == e[0] && s[1..] == e[1..] + rest;
    UnicodeValue(e, v, rest);
  }

  lemma UnicodeValue(e: string, v: int, rest: string)
    requires IsUnicodeEscape(e, v)
    ensures UniDigits(|e| - 1, 0, e[1..] + rest) == (v, rest)
  {
    hide HexOf, IsHex, HexValue;
    var n, digits := |e| - 1, e[1..];
    HexDigitIs(e[n - 1]);
    HexDigitIs(e[n]);
    var d := HexOf(e[n - 1]);
    assert forall i :: 0 <= i < n - 2 ==> digits[i] == e[i + 1];
    UniZeros(n, n - 2, digits, rest);
    var last := digits[n - 2..] + rest;
    assert last == [e[n - 1], e[n]] + rest && last[1..] == [e[n]] + rest && ([e[n]] + rest)[1..] == rest;
    assert UniDigits(2, 0, last) == UniDigits(1, d, [e[n]] + rest);
    assert UniDigits(1, d, [e[n]] + rest) == UniDigits(0, v, rest);
  }

  lemma EscapeStands(e: string, v: int, rest: string)
    requires EscapeIs(e, v) && 0 < v < 256 && StopsEscape(rest)
    ensures CStyleEscape(e + rest) == Escape(Protect(v as char), rest)
  {
    if IsHexEscape(e, v) {
      HexEscapeStands(e, v, rest);
    } else if IsOctalEscape(e, v) {
      OctalEscapeStands(e, v, rest);
    } else if IsControlEscape(e, v) {
      ControlEscapeStands(e, v, rest);
    } else if IsUnicodeEscape(e, v) {
      UnicodeEscapeStands(e, v, rest);
    } else {
      LetterEscapeStands(e, v, rest);
    }
  }

  lemma LetterEscapeStands(e: string, v: int, rest: string)
    requires |e| == 1 && EscapeIs(e, v) && !IsHexEscape(e, v) && !IsOctalEscape(e, v) && !IsControlEscape(e, v) && !IsUnicodeEscape(e, v)
    ensures CStyleEscape(e + rest) == Escape(Protect(v as char), rest)
  {
    hide Protect, SkipToQuote, HexDigits, UniDigits, OctalDigits, IsHexEscape, IsOctalEscape, IsControlEscape, IsUnicodeEscape;
    assert (e + rest)[0] == e[0] && (e + rest)[1..] == rest;
  }

  /** An escape between plain bytes, in dollar-single-quotes, is its byte. */
  lemma EscapesStandForBytes(p: string, e: string, v: int, q: string)
    requires EscapeIs(e, v) && 0 < v < 256 && PlainInSingle(p) && PlainInSingle(q) && (q != "" ==> !IsHex(q[0]))
    ensures ReadsAs("$'" + (p + "\\" + e + q) + "'", p + [v as char] + q)
  {
    hide ReadWord, StandsFor, ReadsAs, EscapeIs, CStyleEscape;
    var end, c := "'\n", v as char;
    var rest := q + end;
    assert p + "\\" + e + q + end == p + ("\\" + (e + rest));
    ReadPlainBytes(p, true, false, [CTLQUOTEMARK], "\\" + (e + rest));
    var out := [CTLQUOTEMARK] + ProtectAll(p);
    assert StopsEscape(rest) by {
      assert rest[0] == if q == "" then '\'' else q[0];
    }
    EscapeStands(e, v, rest);
    ReadEscape(e, c, out, rest);
    ReadPlainBytes(q, true, false, out + Protect(c), end);
    var w := ProtectAll(p) + Protect(c) + ProtectAll(q);
    assert out + Protect(c) + ProtectAll(q) == [CTLQUOTEMARK] + w;
    ProtectAllStandsFor(p);
    ProtectStandsFor(c);
    ProtectAllStandsFor(q);
    StandsForBoth(ProtectAll(p), p, Protect(c), [c]);
    StandsForBoth(ProtectAll(p) + Protect(c), p + [c], ProtectAll(q), q);
    SingleQuoted(true, p + "\\" + e + q, w, p + [c] + q);
  }

  lemma ReadEscape(e: string, c: char, out: string, rest: string)
    requires CStyleEscape(e + rest) == Escape(Protect(c), rest)
    ensures ReadWord(Sq, true, false, out, "\\" + (e + rest)) == ReadWord(Sq, true, false, out + Protect(c), rest)
  {
    hide CStyleEscape;
    var s := "\\" + (e + rest);
    assert s[0] == '\\' && s[1..] == e + rest;
  }

  /** An escape that gives a NUL drops the rest of the quoted string. */
  lemma NulEscapeEndsString(p: string, q: string)
    requires PlainInSingle(p) && PlainInSingle(q) && (q != "" ==> !IsHex(q[0]))
    ensures ReadsAs("$'" + (p + "\\0" + q) + "'", p)
  {
    hide ReadWord, StandsFor, ReadsAs, CStyleEscape;
    var end := "'\n";
    var rest := q + end;
    assert p + "\\0" + q + end == p + ("\\" + ("0" + rest));
    ReadPlainBytes(p, true, false, [CTLQUOTEMARK], "\\" + ("0" + rest));
    var out := [CTLQUOTEMARK] + ProtectAll(p);
    NulEscape(q);
    SkipEscape("0" + rest, out, end);
    ProtectAllStandsFor(p);
    SingleQuoted(true, p + "\\0" + q, ProtectAll(p), p);
  }

  lemma NulEscape(q: string)
    requires PlainInSingle(q) && (q != "" ==> !IsHex(q[0]))
    ensures CStyleEscape("0" + (q + "'\n")) == Escape("", "'\n")
  {
    var rest := q + "'\n";
    assert ("0" + rest)[1..] == rest && rest[0] == if q == "" then '\'' else q[0];
    NoOctalDigits(2, 0, rest);
    SkipsTo(q);
  }

  lemma {:induction false} SkipsTo(q: string)
    requires PlainInSingle(q)
    ensures SkipToQuote(q + "'\n") == Escape("", "'\n")
    decreases |q|
  {
    if q == "" {
      assert q + "'\n" == "'\n";
    } else {
      assert (q + "'\n")[0] == q[0] && (q + "'\n")[1..] == q[1..] + "'\n";
      SkipsTo(q[1..]);
    }
  }

  lemma SkipEscape(s: string, out: string, rest: string)
    requires CStyleEscape(s) == Escape("", rest)
    ensures ReadWord(Sq, true, false, out, "\\" + s) == ReadWord(Sq, true, false, out, rest)
  {
    hide CStyleEscape;
    assert ("\\" + s)[1..] == s && out + "" == out;
  }

  /** Any other byte after the backslash is a syntax error, but for a newline, which disappears. */
  lemma OtherEscapes(p: string, c: char, q: string)
    requires PlainInSingle(p) && PlainInSingle(q) && c !in "abefnrtvxcuU01234567\\'\""
    ensures if c == '\n' then ReadsAs("$'" + (p + ['\\', c] + q) + "'", p + q)
            else ReadToken("$'" + (p + ['\\', c] + q) + "'" + "\n") == SyntaxError
  {
    hide ReadWord, StandsFor, ReadsAs, CStyleEscape;
    var end := "'\n";
    var rest, out := q + end, [CTLQUOTEMARK] + ProtectAll(p);
    var body := p + ['\\', c] + q;
    assert body + end == p + ("\\" + ([c] + rest));
    ReadPlainBytes(p, true, false, [CTLQUOTEMARK], "\\" + ([c] + rest));
    if c == '\n' {
      NewlineEscape(rest);
      SkipEscape([c] + rest, out, rest);
      ReadPlainBytes(q, true, false, out, end);
      assert out + ProtectAll(q) == [CTLQUOTEMARK] + (ProtectAll(p) + ProtectAll(q));
      ProtectAllStandsFor(p);
      ProtectAllStandsFor(q);
      StandsForBoth(ProtectAll(p), p, ProtectAll(q), q);
      SingleQuoted(true, body, ProtectAll(p) + ProtectAll(q), p + q);
    } else {
      assert "$'" + body + "'" + "\n" == "$'" + (body + end);
      ReadSingleStart(true, body + end);
      BadEscapeFails(c, rest, out);
    }
  }

  lemma NewlineEscape(rest: string)
    ensures CStyleEscape("\n" + rest) == Escape("", rest)
  {
    assert ("\n" + rest)[1..] == rest;
  }

  lemma BadEscapeFails(c: char, rest: string, out: string)
    requires c != '\n' && c !in "abefnrtvxcuU01234567\\'\""
    ensures ReadWord(Sq, true, false, out, "\\" + ([c] + rest)) == SyntaxError
  {
    var s := [c] + rest;
    assert ("\\" + s)[1..] == s && s[0] == c;
    assert CStyleEscape(s) == BadEscape;
  }

  // ----- the dollar sign and the ends of words -----

  /** In double quotes a `$` before the closing quote stands for itself. */
  lemma DollarStandsForItself(s: string)
    requires NulFree(s)
    ensures ReadsAs("\"" + (InDouble(s) + "$") + "\"", s + "$")
  {
    hide ReadWord, StandsFor, ReadsAs;
    var end := "\"\n";
    assert InDouble(s) + "$" + end == InDouble(s) + ("$" + end);
    var q := ReadDouble(s, false, [CTLQUOTEMARK], "$" + end);
    var out := [CTLQUOTEMARK] + ProtectAll(s);
    ReadDollar(q, out, end);
    assert out + "$" == [CTLQUOTEMARK] + (ProtectAll(s) + "$");
    ProtectAllStandsFor(s);
    PlainStandsFor('$');
    StandsForBoth(ProtectAll(s), s, "$", "$");
    DoubleQuoted(InDouble(s) + "$", q, ProtectAll(s) + "$", s + "$");
  }

  lemma ReadDollar(q: bool, out: string, rest: string)
    requires rest != "" && rest[0] == '"'
    ensures ReadWord(Dq, false, q, out, "$" + rest) == ReadWord(Dq, false, q, out + "$", rest)
  {
    assert ("$" + rest)[1..] == rest && AfterContinuations(rest) == rest;
  }

  const ENDS := "<>();&| \t\n"

  predicate PlainByte(c: char) {
    !IsCtl(c) && c !in ENDS && c !in "\\'\"`$"
  }

  /** A word of plain bytes goes up to the first blank, newline or operator byte, and is not quoted. */
  lemma PlainWordEnds(w: string, c: char, rest: string)
    requires w != "" && (forall i :: 0 <= i < |w| ==> PlainByte(w[i])) && w[0] != '#'
    requires c in ENDS && (c == '<' || c == '>' ==> !(|w| == 1 && '0' <= w[0] <= '9'))
    ensures ReadToken(w + [c] + rest) == Word(w, false, [c] + rest)
    ensures ReadToken(w) == Word(w, false, "")
  {
    hide ReadWord;
    assert w + [c] + rest == w + ([c] + rest);
    ReadBareBytes(w, "", [c] + rest);
    ReadBareBytes(w, "", "");
    assert "" + w == w && w + "" == w;
    FirstOfWord(w, [c] + rest);
    FirstOfWord(w, "");
    EndOfWord(w, c, rest);
  }

  lemma FirstOfWord(w: string, rest: string)
    requires w != "" && PlainByte(w[0]) && w[0] != '#'
    ensures ReadToken(w + rest) == ReadWord(Base, false, false, "", w + rest)
  {
    assert (w + rest)[0] == w[0];
  }

  lemma EndOfWord(w: string, c: char, rest: string)
    requires c in ENDS && w != "" && (c == '<' || c == '>' ==> !(|w| == 1 && '0' <= w[0] <= '9'))
    ensures ReadWord(Base, false, false, w, [c] + rest) == Word(w, false, [c] + rest)
    ensures ReadWord(Base, false, false, w, "") == Word(w, false, "")
  {
    assert ([c] + rest)[0] == c;
  }

  lemma {:induction false} ReadBareBytes(w: string, out: string, rest: string)
    requires forall i :: 0 <= i < |w| ==> PlainByte(w[i])
    ensures ReadWord(Base, false, false, out, w + rest) == ReadWord(Base, false, false, out + w, rest)
    decreases |w|
  {
    if w == "" {
      assert w + rest == rest && out + "" == out;
    } else {
      assert (w + rest)[0] == w[0] && (w + rest)[1..] == w[1..] + rest;
      ReadBareBytes(w[1..], out + [w[0]], rest);
      assert out + [w[0]] + w[1..] == out + w;
    }
  }

  /** Blanks, comments and continued lines before a token do not matter; a newline is a token. */
  lemma BeforeToken(s: string, c: string)
    requires '\n' !in c
    ensures ReadToken(" " + s) == ReadToken(s) && ReadToken("\t" + s) == ReadToken(s) && ReadToken("\\\n" + s) == ReadToken(s)
    ensures ReadToken("#" + c + "\n" + s) == Newline(s) && ReadToken("\n" + s) == Newline(s)
  {
    assert (" " + s)[1..] == s && ("\t" + s)[1..] == s && ("\\\n" + s)[2..] == s && ("\n" + s)[1..] == s;
    var t := "#" + c + "\n" + s;
    assert t[1..] == c + ("\n" + s);
    CommentEnds(c, "\n" + s);
    assert t[0] == '#' && ReadToken(t) == ReadToken("\n" + s);
  }

  lemma {:induction false} CommentEnds(c: string, rest: string)
    requires '\n' !in c && rest != "" && rest[0] == '\n'
    ensures SkipComment(c + rest) == rest
    decreases |c|
  {
    if c == "" {
      assert c + rest == rest;
    } else {
      assert c[0] in c && (c + rest)[1..] == c[1..] + rest;
      CommentEnds(c[1..], rest);
    }
  }

  /** A quote that is never closed is a syntax error. */
  lemma OpenQuoteIsAnError(s: string)
    requires NulFree(s)
    ensures ReadToken("\"" + InDouble(s)) == SyntaxError
    ensures '\'' !in s ==> ReadToken("'" + s) == SyntaxError
  {
    hide ReadWord;
    ReadDoubleStart(InDouble(s));
    var q := ReadDouble(s, false, [CTLQUOTEMARK], "");
    assert InDouble(s) + "" == InDouble(s) && s + "" == s;
    InputEnds(q, [CTLQUOTEMARK] + ProtectAll(s));
    InputEnds(false, [CTLQUOTEMARK] + ProtectAll(s));
    if '\'' !in s {
      ReadSingleStart(false, s);
      ReadPlainBytes(s, false, false, [CTLQUOTEMARK], "");
    }
  }

  lemma InputEnds(q: bool, out: string)
    ensures ReadWord(Dq, false, q, out, "") == SyntaxError && ReadWord(Sq, false, q, out, "") == SyntaxError
  {
  }
}
