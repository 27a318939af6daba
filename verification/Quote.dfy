/** Quoting for re-input: outqstr of src/output.c, the quote states of readtoken1 and
    readcstyleesc of src/parser.c with the tables of src/mksyntax.c, and rmescapes of
    src/expand.c, in the C locale.  Characters stand for bytes. */
module Quote {
  import opened PatMatch

  const CTLQUOTEMARK: char := '\U{FE}'
  const CTLQUOTEEND: char := '\U{FF}'

  /** CTLESC, CTLVAR, CTLENDVAR, CTLBACKQ, CTLBACKQ|CTLQUOTE, CTLARI, CTLENDARI,
      CTLQUOTEMARK and CTLQUOTEEND */
  predicate IsCtl(c: char) {
    c == '\U{C0}' || c == '\U{C1}' || '\U{F9}' <= c <= '\U{FF}'
  }

  /** A NUL-free byte string. */
  predicate IsBytes(s: string) {
    forall i :: 0 <= i < |s| ==> NUL < s[i] <= '\U{FF}'
  }

  // ----- the syntax tables -----

  datatype Syntax = Base | Dq | Sq

  datatype Class = CWord | CNl | CQnl | CBack | CSback | CSquote | CDquote | CEndquote
                 | CBquote | CVar | CEndvar | CCtl | CSpcl

  const QUOTED_SPECIALS := "!*?[]=~:/-^"
  const TERMINATORS := "<>();&| \t"

  function ClassOf(syn: Syntax, c: char): Class {
    if IsCtl(c) then CCtl
    else
      match syn
      case Base =>
        if c == '\n' then CNl else if c == '\\' then CBack else if c == '\'' then CSquote
        else if c == '"' then CDquote else if c == '`' then CBquote else if c == '$' then CVar
        else if c == '}' then CEndvar else if c in TERMINATORS then CSpcl else CWord
      case Dq =>
        if c == '\n' then CQnl else if c == '\\' then CBack else if c == '"' then CEndquote
        else if c == '`' then CBquote else if c == '$' then CVar else if c == '}' then CEndvar
        else if c in QUOTED_SPECIALS then CCtl else CWord
      case Sq =>
        if c == '\n' then CQnl else if c == '\\' then CSback else if c == '\'' then CEndquote
        else if c in QUOTED_SPECIALS then CCtl else CWord
  }

  // ----- $'...' escapes -----

  /** The bytes stored and what is left of the input, or a syntax error. */
  datatype Escape = Escape(out: string, rest: string) | BadEscape

  predicate IsOctal(c: char) {
    '0' <= c <= '7'
  }

  predicate IsHex(c: char) {
    '0' <= c <= '9' || 'A' <= c <= 'F' || 'a' <= c <= 'f'
  }

  function HexValue(c: char): nat
    requires IsHex(c)
  {
    if c <= '9' then (c - '0') as nat else if c <= 'F' then (c - 'A') as nat + 10 else (c - 'a') as nat + 10
  }

  /** \x: any number of digits into a 32-bit value. */
  function HexDigits(v: nat, s: string): (r: (nat, string))
    ensures |r.1| <= |s|
    decreases |s|
  {
    if s != "" && IsHex(s[0]) then HexDigits((v * 16 + HexValue(s[0])) % 0x1_0000_0000, s[1..]) else (v, s)
  }

  /** \u and \U: exactly n digits. */
  function UniDigits(n: nat, v: nat, s: string): (r: (int, string))
    ensures |r.1| <= |s|
  {
    if n == 0 then (v, s)
    else if s != "" && IsHex(s[0]) then UniDigits(n - 1, v * 16 + HexValue(s[0]), s[1..])
    else (-1, s)
  }

  /** At most n further octal digits. */
  function OctalDigits(n: nat, v: nat, s: string): (r: (nat, string))
    ensures |r.1| <= |s|
  {
    if n > 0 && s != "" && IsOctal(s[0]) then OctalDigits(n - 1, v * 8 + (s[0] - '0') as nat, s[1..])
    else (v, s)
  }

  /** After an escape that gives a NUL the rest of the quoted string is dropped, up to
      but without its closing quote. */
  function SkipToQuote(s: string): (r: Escape)
    ensures r.Escape? ==> |r.rest| <= |s|
    decreases |s|
  {
    if s == "" then BadEscape
    else if s[0] == '\'' then Escape("", s)
    else if s[0] == '\\' then if |s| == 1 then BadEscape else SkipToQuote(s[2..])
    else SkipToQuote(s[1..])
  }

  function Protect(c: char): string {
    if ClassOf(Sq, c) == CCtl then [CTLESC, c] else [c]
  }

  /** The end of readcstyleesc: the value is cut to a byte. */
  function StoreEscape(v: nat, rest: string): (r: Escape)
    ensures r.Escape? ==> |r.rest| <= |rest|
  {
    var vc := (v % 256) as char;
    if vc == NUL then SkipToQuote(rest) else Escape(Protect(vc), rest)
  }

  /** readcstyleesc; `s` is what follows the backslash. */
  function CStyleEscape(s: string): (r: Escape)
    ensures r.Escape? ==> |r.rest| <= |s|
  {
    if s == "" then BadEscape
    else
      var c, rest := s[0], s[1..];
      if c == '\n' then Escape("", rest)
      else if c == '\\' || c == '\'' || c == '"' then StoreEscape(c as nat, rest)
      else if c == 'a' then StoreEscape(7, rest)
      else if c == 'b' then StoreEscape(8, rest)
      else if c == 'e' then StoreEscape(27, rest)
      else if c == 'f' then StoreEscape(12, rest)
      else if c == 'n' then StoreEscape(10, rest)
      else if c == 'r' then StoreEscape(13, rest)
      else if c == 't' then StoreEscape(9, rest)
      else if c == 'v' then StoreEscape(11, rest)
      else if c == 'x' then var (v, r) := HexDigits(0, rest); StoreEscape(v, r)
      else if IsOctal(c) then var (v, r) := OctalDigits(2, (c - '0') as nat, rest); StoreEscape(v, r)
      else if c == 'c' then
        if rest == "" || rest[0] < '?' || rest[0] > 'z' || rest[0] == '`' then BadEscape
        else if rest[0] == '\\' then
          if |rest| > 1 && rest[1] == '\\' then StoreEscape(0x1C, rest[2..]) else BadEscape
        else StoreEscape(if rest[0] == '?' then 127 else rest[0] as nat % 32, rest[1..])
      else if c == 'u' || c == 'U' then
        var (v, r) := UniDigits(if c == 'U' then 8 else 4, 0, rest);
        if v <= 0 || 0xD800 <= v <= 0xDFFF then BadEscape
        else StoreEscape(if v > 127 then '?' as nat else v, r)
      else BadEscape
  }

  // ----- words -----

  datatype Token =
    | Word(text: string, quoted: bool, rest: string)
    | Newline(rest: string)
    | Eof
    | SyntaxError
    | Other           // operators, redirections and substitutions, which end this model

  /** endword in readtoken1: `s` starts with the byte that ended the word. */
  function EndWord(syn: Syntax, quotef: bool, out: string, s: string): Token {
    if syn != Base then SyntaxError
    else if s != "" && (s[0] == '<' || s[0] == '>') && !quotef
            && (out == "" || (|out| == 1 && '0' <= out[0] <= '9')) then Other
    else Word(out, quotef, s)
  }

  /** What a backslash outside single quotes adds to the word before the byte `c`. */
  function BackslashBefore(syn: Syntax, c: char): string {
    (if syn.Dq? && c != '\\' && c != '`' && c != '$' && c != '"' then "\\" else "")
    + (if syn.Base? then [CTLQUOTEMARK] else "")
    + Protect(c)
  }

  /** pgetc_linecont: line continuations are passed over. */
  function AfterContinuations(s: string): (r: string)
    ensures |r| <= |s|
  {
    if |s| > 1 && s[0] == '\\' && s[1] == '\n' then AfterContinuations(s[2..]) else s
  }

  /** After a `$` a substitution starts here; is_name and is_special. */
  predicate StartsSubstitution(s: string) {
    s != "" &&
    (s[0] in "({_#?$!-*@" || '0' <= s[0] <= '9' || 'a' <= s[0] <= 'z' || 'A' <= s[0] <= 'Z')
  }

  /** readtoken1 at nesting level 0, from the byte at the front of `s`. */
  function ReadWord(syn: Syntax, cstyle: bool, quotef: bool, out: string, s: string): Token
    decreases |s|
  {
    if s == "" then EndWord(syn, quotef, out, s)
    else
      var c, rest := s[0], s[1..];
      match ClassOf(syn, c)
      case CNl => EndWord(syn, quotef, out, s)
      case CSpcl => EndWord(syn, quotef, out, s)
      case CQnl => ReadWord(syn, cstyle, quotef, out + [c], rest)
      case CWord => ReadWord(syn, cstyle, quotef, out + [c], rest)
      case CEndvar => ReadWord(syn, cstyle, quotef, out + [c], rest)
      case CCtl => ReadWord(syn, cstyle, quotef, out + [CTLESC, c], rest)
      case CSback =>
        if cstyle then
          match CStyleEscape(rest)
          case BadEscape => SyntaxError
          case Escape(o, r) => ReadWord(syn, cstyle, quotef, out + o, r)
        else ReadWord(syn, cstyle, quotef, out + [c], rest)
      case CBack =>
        if rest == "" then ReadWord(syn, cstyle, quotef, out + "\\", rest)
        else if rest[0] == '\n' then ReadWord(syn, cstyle, quotef, out, rest[1..])
        else ReadWord(syn, cstyle, true, out + BackslashBefore(syn, rest[0]), rest[1..])
      case CSquote => ReadWord(Sq, false, quotef, out + [CTLQUOTEMARK], rest)
      case CDquote => ReadWord(Dq, cstyle, quotef, out + [CTLQUOTEMARK], rest)
      case CEndquote => ReadWord(Base, cstyle, true, out, rest)
      case CVar =>
        var after := AfterContinuations(rest);
        if StartsSubstitution(after) then Other
        else if after != "" && after[0] == '\'' && syn.Base? then
          ReadWord(Sq, true, quotef, out + [CTLQUOTEMARK], after[1..])
        else ReadWord(syn, cstyle, quotef, out + "$", after)
      case CBquote => Other
  }

  function SkipComment(s: string): (r: string)
    ensures |r| <= |s|
  {
    if s == "" || s[0] == '\n' then s else SkipComment(s[1..])
  }

  /** xxreadtoken */
  function ReadToken(s: string): Token
    decreases |s|
  {
    if s == "" then Eof
    else if s[0] == ' ' || s[0] == '\t' then ReadToken(s[1..])
    else if s[0] == '#' then ReadToken(SkipComment(s[1..]))
    else if s[0] == '\\' && |s| > 1 && s[1] == '\n' then ReadToken(s[2..])
    else if s[0] == '\n' then Newline(s[1..])
    else if s[0] in "&|;()" then Other
    else ReadWord(Base, false, false, "", s)
  }

  // ----- quote removal -----

  /** Every CTLESC protects a byte. */
  predicate EscapesComplete(s: string) {
    s == "" || (if s[0] == CTLESC then |s| > 1 && EscapesComplete(s[2..]) else EscapesComplete(s[1..]))
  }

  predicate IsMark(c: char) {
    c == CTLQUOTEMARK || c == CTLQUOTEEND
  }

  function Unescaped(s: string): string
    requires EscapesComplete(s)
  {
    if s == "" then ""
    else if IsMark(s[0]) then Unescaped(s[1..])
    else if s[0] == CTLESC then [s[1]] + Unescaped(s[2..])
    else [s[0]] + Unescaped(s[1..])
  }

  /** The same text as a pattern: argstr drops the marks and keeps each CTLESC. */
  function PatternText(s: string): string
    requires EscapesComplete(s)
  {
    if s == "" then ""
    else if IsMark(s[0]) then PatternText(s[1..])
    else if s[0] == CTLESC then s[..2] + PatternText(s[2..])
    else [s[0]] + PatternText(s[1..])
  }

  // ----- outqstr -----

  function Digit(v: int): char
    requires 0 <= v <= 7
  {
    '0' + v as char
  }

  function ByteSeq(c: char): string
    requires c <= '\U{FF}'
  {
    ['\\', Digit(c as int / 64), Digit(c as int / 8 % 8), Digit(c as int % 8)]
  }

  predicate IsPrint(c: char) {
    ' ' <= c <= '~'
  }

  /** outdqstr on one byte in the C locale, where no byte above 0x7f is a character. */
  function DqPiece(c: char): string
    requires c <= '\U{FF}'
  {
    if c == '\n' then "\n"
    else if c == '\r' then "\\r"
    else if c == '\t' then "\\t"
    else if !IsPrint(c) then ByteSeq(c)
    else if c == '\'' || c == '\\' then ['\\', c]
    else [c]
  }

  function DqBody(s: string): string
    requires IsBytes(s)
  {
    if s == "" then "" else DqPiece(s[0]) + DqBody(s[1..])
  }

  const UNSAFE := "|&;<>()$`\\\" \n*?[~#="

  predicate NeedsEscapes(c: char) {
    (NUL < c < ' ' && c != '\n') || c >= '\U{80}' || c == '\''
  }

  predicate Safe(s: string) {
    forall i :: 0 <= i < |s| ==> s[i] !in UNSAFE
  }

  /** outqstr: nothing, '...', $'...' or the string as it is. */
  function Printed(s: string): string
    requires IsBytes(s)
  {
    if s == "" then "''"
    else if exists i :: 0 <= i < |s| && NeedsEscapes(s[i]) then "$'" + DqBody(s) + "'"
    else if Safe(s) || s == "[" then s
    else "'" + s + "'"
  }

  // ----- reading back -----

  function ProtectAll(s: string): string {
    if s == "" then "" else Protect(s[0]) + ProtectAll(s[1..])
  }

  /** The word text that stands for `s`. */
  function WordFor(s: string): string
    requires IsBytes(s)
  {
    if s != "" && (Safe(s) || s == "[") && !(exists i :: 0 <= i < |s| && NeedsEscapes(s[i])) then s
    else [CTLQUOTEMARK] + ProtectAll(s)
  }

  lemma ReadOctal(a: char, b: char, c: char, rest: string)
    requires IsOctal(a) && IsOctal(b) && IsOctal(c)
    ensures OctalDigits(2, (a - '0') as nat, [b, c] + rest)
         == ((a - '0') as nat * 64 + (b - '0') as nat * 8 + (c - '0') as nat, rest)
  {
    var s := [b, c] + rest;
    assert s[1..] == [c] + rest && s[1..][1..] == rest;
    var v1 := (a - '0') as nat * 8 + (b - '0') as nat;
    assert OctalDigits(1, v1, s[1..]) == OctalDigits(0, v1 * 8 + (c - '0') as nat, rest);
  }

  /** An octal escape is read back as the byte it was printed for. */
  lemma ReadByteSeq(c: char, rest: string)
    requires NUL < c <= '\U{FF}'
    ensures CStyleEscape((ByteSeq(c) + rest)[1..]) == Escape(Protect(c), rest)
  {
    hide ClassOf, HexDigits, UniDigits, SkipToQuote, Protect, OctalDigits;
    var d := ByteSeq(c);
    assert (d + rest)[1..] == [d[1]] + ([d[2], d[3]] + rest);
    var s := (d + rest)[1..];
    assert s[0] == d[1] && s[1..] == [d[2], d[3]] + rest;
    ReadOctal(d[1], d[2], d[3], rest);
    var v := c as int;
    assert v / 64 * 64 + v / 8 % 8 * 8 + v % 8 == v;
    assert v % 256 == v;
  }

  lemma ReadDqPiece(c: char, out: string, quotef: bool, rest: string)
    requires NUL < c <= '\U{FF}'
    ensures ReadWord(Sq, true, quotef, out, DqPiece(c) + rest)
         == ReadWord(Sq, true, quotef, out + Protect(c), rest)
  {
    var p := DqPiece(c);
    var s := p + rest;
    if |p| == 1 {
      assert s[0] == c && s[1..] == rest;
    } else if |p| == 2 {
      assert s[0] == '\\' && s[1] == p[1];
      assert s[1..][0] == p[1] && s[1..][1..] == rest;
      assert CStyleEscape(s[1..]) == Escape(Protect(c), rest);
    } else {
      assert s[0] == '\\';
      ReadByteSeq(c, rest);
    }
  }

  lemma {:induction false} ReadDqBody(s: string, out: string, quotef: bool, rest: string)
    requires IsBytes(s)
    ensures ReadWord(Sq, true, quotef, out, DqBody(s) + rest)
         == ReadWord(Sq, true, quotef, out + ProtectAll(s), rest)
    decreases |s|
  {
    if s == "" {
      assert DqBody(s) + rest == rest && out + "" == out;
    } else {
      assert DqBody(s) + rest == DqPiece(s[0]) + (DqBody(s[1..]) + rest);
      ReadDqPiece(s[0], out, quotef, DqBody(s[1..]) + rest);
      ReadDqBody(s[1..], out + Protect(s[0]), quotef, rest);
      assert out + ProtectAll(s) == (out + Protect(s[0])) + ProtectAll(s[1..]);
    }
  }

  lemma {:induction false} ReadSqBody(s: string, out: string, quotef: bool, rest: string)
    requires '\'' !in s
    ensures ReadWord(Sq, false, quotef, out, s + rest)
         == ReadWord(Sq, false, quotef, out + ProtectAll(s), rest)
    decreases |s|
  {
    if s == "" {
      assert s + rest == rest && out + "" == out;
    } else {
      assert (s + rest)[0] == s[0] && (s + rest)[1..] == s[1..] + rest;
      ReadSqBody(s[1..], out + Protect(s[0]), quotef, rest);
      assert out + ProtectAll(s) == (out + Protect(s[0])) + ProtectAll(s[1..]);
    }
  }

  predicate IsPlain(s: string) {
    forall i :: 0 <= i < |s| ==> ClassOf(Base, s[i]).CWord? || ClassOf(Base, s[i]).CEndvar?
  }

  lemma {:induction false} ReadPlain(s: string, out: string, quotef: bool, rest: string)
    requires IsPlain(s)
    ensures ReadWord(Base, false, quotef, out, s + rest) == ReadWord(Base, false, quotef, out + s, rest)
    decreases |s|
  {
    if s == "" {
      assert s + rest == rest && out + s == out;
    } else {
      assert (s + rest)[0] == s[0] && (s + rest)[1..] == s[1..] + rest;
      ReadPlain(s[1..], out + [s[0]], quotef, rest);
      assert out + s == (out + [s[0]]) + s[1..];
    }
  }

  lemma SafeIsPlain(s: string)
    requires IsBytes(s) && !(exists i :: 0 <= i < |s| && NeedsEscapes(s[i]))
    requires Safe(s) || s == "["
    ensures IsPlain(s)
    ensures s != "" ==> s[0] !in " \t#\\\n&|;()"
  {
    forall i | 0 <= i < |s| ensures ClassOf(Base, s[i]).CWord? || ClassOf(Base, s[i]).CEndvar? {
      assert !NeedsEscapes(s[i]);
    }
    if s != "" {
      assert !NeedsEscapes(s[0]);
    }
  }

  /** The closing quote and the newline after it end the word. */
  lemma ReadClose(cstyle: bool, out: string)
    ensures ReadWord(Sq, cstyle, false, out, "'\n") == Word(out, true, "\n")
  {
    assert "'\n"[1..] == "\n";
    assert ReadWord(Base, cstyle, true, out, "\n") == Word(out, true, "\n");
  }

  lemma ReadSingleQuoted(s: string)
    requires '\'' !in s
    ensures ReadToken("'" + s + "'" + "\n") == Word([CTLQUOTEMARK] + ProtectAll(s), true, "\n")
  {
    var t, q := "'" + s + "'" + "\n", "" + [CTLQUOTEMARK];
    assert t[0] == '\'' && t[1..] == s + "'\n";
    assert ReadToken(t) == ReadWord(Base, false, false, "", t);
    assert ReadToken(t) == ReadWord(Sq, false, false, q, s + "'\n");
    hide ReadWord, ReadToken, ClassOf;
    ReadSqBody(s, q, false, "'\n");
    ReadClose(false, q + ProtectAll(s));
    assert q + ProtectAll(s) == [CTLQUOTEMARK] + ProtectAll(s);
  }

  lemma ReadDollarQuoted(s: string)
    requires IsBytes(s)
    ensures ReadToken("$'" + DqBody(s) + "'" + "\n") == Word([CTLQUOTEMARK] + ProtectAll(s), true, "\n")
  {
    hide ReadWord, ReadToken, ClassOf, DqBody;
    var q := "" + [CTLQUOTEMARK];
    var rest := DqBody(s) + "'\n";
    assert "$'" + DqBody(s) + "'" + "\n" == "$'" + rest;
    StartsDollar("$'" + rest, rest);
    ReadDqBody(s, q, false, "'\n");
    ReadClose(true, q + ProtectAll(s));
    assert q + ProtectAll(s) == [CTLQUOTEMARK] + ProtectAll(s);
  }

  lemma StartsDollar(t: string, rest: string)
    requires t == "$'" + rest
    ensures ReadToken(t) == ReadWord(Sq, true, false, "" + [CTLQUOTEMARK], rest)
  {
    assert t[0] == '$' && t[1] == '\'' && t[1..][0] == '\'' && t[1..][1..] == rest;
    assert ReadToken(t) == ReadWord(Base, false, false, "", t);
  }

  lemma ReadBare(s: string)
    requires IsBytes(s) && s != "" && !(exists i :: 0 <= i < |s| && NeedsEscapes(s[i]))
    requires Safe(s) || s == "["
    ensures ReadToken(s + "\n") == Word(s, false, "\n")
  {
    SafeIsPlain(s);
    var t := s + "\n";
    assert t[0] == s[0];
    StartsWord(t);
    EndOfBare(s);
    hide ReadToken, ReadWord, ClassOf, Safe, IsBytes;
    ReadPlain(s, "", false, "\n");
    assert "" + s == s;
  }

  lemma StartsWord(t: string)
    requires t != "" && t[0] !in " \t#\\\n&|;()"
    ensures ReadToken(t) == ReadWord(Base, false, false, "", t)
  {
  }

  lemma EndOfBare(s: string)
    ensures ReadWord(Base, false, false, s, "\n") == Word(s, false, "\n")
  {
  }

  /** What is printed is one word, ended by the newline after it. */
  lemma ReadPrinted(s: string)
    requires IsBytes(s)
    ensures exists quoted :: ReadToken(Printed(s) + "\n") == Word(WordFor(s), quoted, "\n")
  {
    hide ReadToken, ReadWord, ClassOf, DqBody, ProtectAll;
    var t, w := Printed(s) + "\n", WordFor(s);
    if s == "" {
      assert t == "'" + s + "'" + "\n";
      ReadSingleQuoted(s);
      assert ReadToken(t) == Word(w, true, "\n");
    } else if exists i :: 0 <= i < |s| && NeedsEscapes(s[i]) {
      ReadDollarQuoted(s);
      assert ReadToken(t) == Word(w, true, "\n");
    } else if Safe(s) || s == "[" {
      ReadBare(s);
      assert ReadToken(t) == Word(w, false, "\n");
    } else {
      assert forall i :: 0 <= i < |s| ==> !NeedsEscapes(s[i]);
      ReadSingleQuoted(s);
      assert ReadToken(t) == Word(w, true, "\n");
    }
  }

  // ----- the round trip -----

  lemma ProtectedByte(c: char, rest: string)
    requires EscapesComplete(rest)
    ensures var t := Protect(c) + rest;
      EscapesComplete(t) && Unescaped(t) == [c] + Unescaped(rest) && PatternText(t) == Protect(c) + PatternText(rest)
  {
    var t := Protect(c) + rest;
    if ClassOf(Sq, c) == CCtl {
      assert t[0] == CTLESC && t[1] == c && t[2..] == rest && t[..2] == [CTLESC, c];
    } else {
      assert t[0] == c && t[1..] == rest && !IsCtl(c);
    }
  }

  lemma {:induction false} UnescapeProtected(s: string)
    ensures EscapesComplete(ProtectAll(s)) && Unescaped(ProtectAll(s)) == s
    ensures PatternText(ProtectAll(s)) == ProtectAll(s)
    decreases |s|
  {
    if s != "" {
      UnescapeProtected(s[1..]);
      ProtectedByte(s[0], ProtectAll(s[1..]));
      assert [s[0]] + s[1..] == s;
    }
  }

  lemma {:induction false} UnescapePlain(s: string)
    requires IsPlain(s)
    ensures EscapesComplete(s) && Unescaped(s) == s && PatternText(s) == s
    decreases |s|
  {
    if s != "" {
      assert !IsCtl(s[0]);
      UnescapePlain(s[1..]);
    }
  }

  /** For every byte string without NUL: printing it with outqstr and reading that back
      gives exactly one word, and quote removal of the word gives the string. */
  lemma PrintedReadsBack(s: string)
    requires IsBytes(s)
    ensures match ReadToken(Printed(s) + "\n")
            case Word(text, _, rest) => rest == "\n" && EscapesComplete(text) && Unescaped(text) == s
            case _ => false
  {
    ReadPrinted(s);
    UnescapeProtected(s);
    var w := WordFor(s);
    if w != s || s == "" || !(Safe(s) || s == "[") || exists i :: 0 <= i < |s| && NeedsEscapes(s[i]) {
      assert w == [CTLQUOTEMARK] + ProtectAll(s);
      assert w[1..] == ProtectAll(s);
    } else {
      SafeIsPlain(s);
      UnescapePlain(s);
    }
  }

  // ----- printed words as patterns -----

  function Lits(s: string): seq<Elem> {
    if s == "" then [] else [Lit(s[0])] + Lits(s[1..])
  }

  lemma {:induction false} LitsMatchOnlyThemselves(s: string, t: string)
    ensures Matches(Lits(s), t) <==> t == s
    ensures IllFormed !in Lits(s)
    decreases |s|
  {
    if s != "" {
      LitsMatchOnlyThemselves(s[1..], if t == "" then t else t[1..]);
      assert s == [s[0]] + s[1..];
      assert t != "" ==> t == [t[0]] + t[1..];
    }
  }

  lemma {:induction false} ElemsOfProtected(p: string, i: nat, s: string)
    requires i <= |p| && p[i..] == ProtectAll(s) && IsBytes(s)
    ensures Elems(p, i) == Lits(s)
    decreases |s|
  {
    if s != "" {
      var c, rest := s[0], ProtectAll(s[1..]);
      assert p[i..] == Protect(c) + rest;
      assert p[i] == p[i..][0];
      if ClassOf(Sq, c) == CCtl {
        assert p[i + 1] == p[i..][1] == c && p[i + 2..] == p[i..][2..] == rest;
        assert c != '\\' && c != NUL;
        ElemsOfProtected(p, i + 2, s[1..]);
        assert ParseElem(p, i) == (Lit(c), i + 2);
      } else {
        assert p[i + 1..] == p[i..][1..] == rest;
        assert c != '*' && c != '?' && c != '[' && c != CTLESC;
        ElemsOfProtected(p, i + 1, s[1..]);
        assert ParseElem(p, i) == (Lit(c), i + 1);
      }
    }
  }

  lemma {:induction false} ElemsOfSafe(p: string, i: nat)
    requires i <= |p| && Safe(p) && IsPlain(p)
    ensures Elems(p, i) == Lits(p[i..])
    decreases |p| - i
  {
    if i < |p| {
      assert !IsCtl(p[i]) && p[i] != '*' && p[i] != '?' && p[i] != '[';
      assert p[i..][0] == p[i] && p[i..][1..] == p[i + 1..];
      ElemsOfSafe(p, i + 1);
      assert ParseElem(p, i) == (Lit(p[i]), i + 1);
    }
  }

  /** The word text of a printed string is free of NUL bytes also as a pattern. */
  lemma {:induction false} ProtectedIsCString(s: string)
    requires IsBytes(s)
    ensures IsCString(ProtectAll(s))
    decreases |s|
  {
    if s != "" {
      ProtectedIsCString(s[1..]);
    }
  }

  /** A printed string used as a pattern, as in a case command, matches itself and
      nothing else. */
  lemma PrintedPatternIsLiteral(s: string, t: string)
    requires IsBytes(s)
    ensures EscapesComplete(WordFor(s)) && WellFormed(PatternText(WordFor(s)))
    ensures Matches(Elems(PatternText(WordFor(s)), 0), t) <==> t == s
  {
    LitsMatchOnlyThemselves(s, t);
    var w := WordFor(s);
    if s != "" && (Safe(s) || s == "[") && !(exists i :: 0 <= i < |s| && NeedsEscapes(s[i])) {
      SafeIsPlain(s);
      UnescapePlain(s);
      assert s[0..] == s;
      if s == "[" {
        assert ParseElem(s, 0) == (Lit('['), 1);
        assert Elems(s, 0) == Lits(s);
      } else {
        ElemsOfSafe(s, 0);
      }
    } else {
      assert w[1..] == ProtectAll(s);
      UnescapeProtected(s);
      ProtectedIsCString(s);
      assert PatternText(w) == ProtectAll(s);
      assert ProtectAll(s)[0..] == ProtectAll(s);
      ElemsOfProtected(ProtectAll(s), 0, s);
    }
  }

  // ----- the code -----

  /** struct output: what has been written to the buffer so far. */
  class Output {
    var buf: string

    constructor ()
      ensures buf == ""
    {
      buf := "";
    }

    method OutStr(p: string)
      modifies this
      ensures buf == old(buf) + p
    {
      buf := buf + p;
    }

    /** One turn of outdqstr's loop. */
    method OutDqChar(c: char)
      requires c as int < 256
      modifies this
      ensures buf == old(buf) + DqPiece(c)
    {
      hide ByteSeq;
      if c == '\n' {
        OutStr("\n");
      } else if c == '\r' {
        OutStr("\\r");
      } else if c == '\t' {
        OutStr("\\t");
      } else if !IsPrint(c) {
        OutStr(ByteSeq(c));
      } else {
        if c == '\'' || c == '\\' {
          OutStr("\\");
        }
        OutStr([c]);
      }
    }

    method OutDqStr(p: string)
      requires IsBytes(p)
      modifies this
      ensures buf == old(buf) + "$'" + DqBody(p) + "'"
    {
      hide DqPiece;
      OutStr("$'");
      ghost var start := buf;
      var i := 0;
      while i < |p|
        invariant 0 <= i <= |p|
        invariant buf + DqBody(p[i..]) == start + DqBody(p)
      {
        var c := p[i];
        ghost var before, rest := buf, DqBody(p[i + 1..]);
        assert p[i..][0] == c && p[i..][1..] == p[i + 1..];
        OutDqChar(c);
        assert before + (DqPiece(c) + rest) == (before + DqPiece(c)) + rest;
        i := i + 1;
      }
      assert p[i..] == "" && buf + "" == buf;
      OutStr("'");
    }

    method OutQstr(p: string)
      requires IsBytes(p)
      modifies this
      ensures buf == old(buf) + Printed(p)
    {
      hide DqBody, IsBytes, NeedsEscapes;
      ghost var start := buf;
      if p == "" {
        OutStr("''");
        return;
      }
      var i := 0;
      while i < |p|
        invariant 0 <= i <= |p| && buf == start
        invariant forall k :: 0 <= k < i ==> !NeedsEscapes(p[k])
      {
        if NeedsEscapes(p[i]) {
          OutDqStr(p);
          assert start + "$'" + DqBody(p) + "'" == start + ("$'" + DqBody(p) + "'");
          return;
        }
        i := i + 1;
      }
      var j := FirstUnsafe(p);
      if j == |p| || p == "[" {
        OutStr(p);
        return;
      }
      OutStr("'");
      OutStr(p);
      OutStr("'");
      assert start + "'" + p + "'" == start + ("'" + p + "'");
    }
  }

  /** strcspn */
  method FirstUnsafe(p: string) returns (j: nat)
    ensures j <= |p| && (j == |p| <==> Safe(p))
    ensures forall k :: 0 <= k < j ==> p[k] !in UNSAFE
  {
    j := 0;
    while j < |p| && p[j] !in UNSAFE
      invariant 0 <= j <= |p|
      invariant forall k :: 0 <= k < j ==> p[k] !in UNSAFE
    {
      j := j + 1;
    }
  }

  /** The loop of pgetc_linecont. */
  method SkipContinuations(input: string) returns (s: string)
    ensures s == AfterContinuations(input)
  {
    s := input;
    while |s| > 1 && s[0] == '\\' && s[1] == '\n'
      invariant AfterContinuations(s) == AfterContinuations(input)
    {
      s := s[2..];
    }
  }

  /** The loop of readtoken1 from the first byte of a word. */
  method ReadToken1(input: string) returns (r: Token)
    ensures r == ReadWord(Base, false, false, "", input)
  {
    var s, out, syn, quotef, cstyle := input, "", Base, false, false;
    while s != ""
      invariant ReadWord(syn, cstyle, quotef, out, s) == ReadWord(Base, false, false, "", input)
      decreases |s|
    {
      var c := s[0];
      match ClassOf(syn, c) {
        case CNl | CSpcl =>
          return EndWord(syn, quotef, out, s);
        case CQnl | CWord | CEndvar =>
          out, s := out + [c], s[1..];
        case CCtl =>
          out, s := out + [CTLESC, c], s[1..];
        case CSback =>
          if cstyle {
            var e := CStyleEscape(s[1..]);
            if e.BadEscape? {
              return SyntaxError;
            }
            out, s := out + e.out, e.rest;
          } else {
            out, s := out + [c], s[1..];
          }
        case CBack =>
          s := s[1..];
          if s == "" {
            out := out + "\\";
          } else if s[0] == '\n' {
            s := s[1..];
          } else {
            out, s, quotef := out + BackslashBefore(syn, s[0]), s[1..], true;
          }
        case CSquote =>
          out, s, syn, cstyle := out + [CTLQUOTEMARK], s[1..], Sq, false;
        case CDquote =>
          out, s, syn := out + [CTLQUOTEMARK], s[1..], Dq;
        case CEndquote =>
          s, syn, quotef := s[1..], Base, true;
        case CVar =>
          s := SkipContinuations(s[1..]);
          if StartsSubstitution(s) {
            return Other;
          }
          if s != "" && s[0] == '\'' && syn.Base? {
            out, s, syn, cstyle := out + [CTLQUOTEMARK], s[1..], Sq, true;
          } else {
            out := out + "$";
          }
        case CBquote =>
          return Other;
      }
    }
    r := EndWord(syn, quotef, out, s);
  }

  predicate IsOrdinary(c: char) {
    c != CTLESC && !IsMark(c)
  }

  lemma PlainUnescaped(c: char, s: string)
    requires IsOrdinary(c)
    ensures EscapesComplete([c] + s) <==> EscapesComplete(s)
    ensures EscapesComplete(s) ==> Unescaped([c] + s) == [c] + Unescaped(s)
  {
    assert ([c] + s)[1..] == s;
  }

  /** Nothing is removed from bytes that are neither escapes nor marks. */
  lemma {:induction false} UnescapedAfterPlain(plain: string, s: string)
    requires forall i :: 0 <= i < |plain| ==> IsOrdinary(plain[i])
    ensures EscapesComplete(plain + s) <==> EscapesComplete(s)
    ensures EscapesComplete(s) ==> Unescaped(plain + s) == plain + Unescaped(s)
  {
    hide EscapesComplete, Unescaped, IsOrdinary;
    if plain == "" {
      assert plain + s == s;
    } else {
      var c, rest := plain[0], plain[1..];
      assert plain == [c] + rest;
      assert plain + s == [c] + (rest + s);
      PlainUnescaped(c, rest + s);
      UnescapedAfterPlain(rest, s);
    }
  }

  lemma EscapesCompleteTail(s: string, k: nat)
    requires EscapesComplete(s) && k <= |s| && (forall j :: 0 <= j < k ==> s[j] != CTLESC && !IsMark(s[j]))
    ensures EscapesComplete(s[k..]) && Unescaped(s) == s[..k] + Unescaped(s[k..])
  {
    hide EscapesComplete, Unescaped, IsMark;
    assert s[..k] + s[k..] == s;
    assert forall j :: 0 <= j < k ==> IsOrdinary(s[..k][j]);
    UnescapedAfterPlain(s[..k], s[k..]);
  }

  /** One turn of the copying loop: a mark is dropped, an escape loses its CTLESC. */
  lemma UnescapeStep(was: string, p: nat, head: string)
    requires p < |was| && EscapesComplete(was[p..])
    ensures IsMark(was[p]) ==>
      EscapesComplete(was[p + 1..]) && Unescaped(was[p..]) == Unescaped(was[p + 1..])
    ensures was[p] == CTLESC ==>
      p + 2 <= |was| && EscapesComplete(was[p + 2..])
      && head + Unescaped(was[p..]) == (head + [was[p + 1]]) + Unescaped(was[p + 2..])
    ensures !IsMark(was[p]) && was[p] != CTLESC ==>
      EscapesComplete(was[p + 1..])
      && head + Unescaped(was[p..]) == (head + [was[p]]) + Unescaped(was[p + 1..])
  {
    var left := was[p..];
    assert left[0] == was[p] && left[1..] == was[p + 1..];
    if was[p] == CTLESC {
      assert left[1] == was[p + 1] && left[2..] == was[p + 2..];
    }
  }

  /** Removes the escapes within the string, which is the first `n` bytes of the array. */
  method RmEscapes(a: array<char>, ghost n: nat)
    requires n < a.Length && a[n] == NUL && IsCString(a[..n]) && EscapesComplete(a[..n])
    modifies a
    ensures Unescaped(old(a[..n])) + [NUL] <= a[..]
    ensures forall k :: n < k < a.Length ==> a[k] == old(a[k])
  {
    hide Unescaped, EscapesComplete;
    ghost var was := a[..n];
    var p := 0;
    while a[p] != CTLESC && !IsMark(a[p])
      invariant 0 <= p <= n
      invariant forall j :: 0 <= j < p ==> was[j] != CTLESC && !IsMark(was[j])
      decreases n - p
    {
      if a[p] == NUL {
        assert p == n;
        NothingToRemove(was);
        assert a[..n + 1] == was + [NUL];
        return;
      }
      p := p + 1;
    }
    var q := p;
    EscapesCompleteTail(was, p);
    assert a[..q] == was[..p];
    while a[p] != NUL
      invariant 0 <= q <= p <= n
      invariant EscapesComplete(was[p..]) && a[..q] + Unescaped(was[p..]) == Unescaped(was)
      invariant forall j :: p <= j < a.Length ==> a[j] == old(a[j])
      decreases n - p
    {
      ghost var head := a[..q];
      UnescapeStep(was, p, head);
      if IsMark(a[p]) {
        p := p + 1;
        continue;
      }
      if a[p] == CTLESC {
        p := p + 1;
      }
      a[q] := a[p];
      assert a[..q + 1] == head + [was[p]];
      q, p := q + 1, p + 1;
    }
    assert was[n..] == "";
    NothingToRemove("");
    a[q] := NUL;
    assert a[..q + 1] == Unescaped(was) + [NUL];
  }

  lemma NothingToRemove(s: string)
    requires EscapesComplete(s) && forall j :: 0 <= j < |s| ==> s[j] != CTLESC && !IsMark(s[j])
    ensures Unescaped(s) == s
  {
    EscapesCompleteTail(s, |s|);
    assert s[|s|..] == "" && s[..|s|] == s;
    assert Unescaped("") == "";
  }

  /** A C string copied out of a buffer. */
  method CopyOut(a: array<char>, ghost s: string) returns (t: string)
    requires IsCString(s) && s + [NUL] <= a[..]
    ensures t == s
  {
    var k := 0;
    assert forall i :: 0 <= i <= |s| ==> a[i] == (s + [NUL])[i];
    while a[k] != NUL
      invariant 0 <= k <= |s|
      decreases |s| - k
    {
      k := k + 1;
    }
    t := a[..k];
    assert t == (s + [NUL])[..k];
  }

  lemma PrintedStarts(s: string)
    requires IsBytes(s)
    ensures ReadToken(Printed(s) + "\n") == ReadWord(Base, false, false, "", Printed(s) + "\n")
  {
    if s != "" && !(exists i :: 0 <= i < |s| && NeedsEscapes(s[i])) && (Safe(s) || s == "[") {
      SafeIsPlain(s);
      assert (Printed(s) + "\n")[0] == s[0];
    }
    StartsWord(Printed(s) + "\n");
  }

  /** Printing, reading and quote removal by the code above give the string back. */
  method PrintAndReadBack(s: string) returns (t: string)
    requires IsBytes(s)
    ensures t == s
  {
    hide Printed, ReadToken, ReadWord, Unescaped, EscapesComplete;
    var file := new Output();
    file.OutQstr(s);
    assert file.buf == Printed(s);
    ReadPrinted(s);
    PrintedReadsBack(s);
    PrintedStarts(s);
    ProtectedIsCString(s);
    var token := ReadToken1(file.buf + "\n");
    var w, n := token.text, |token.text|;
    assert w == WordFor(s) && IsCString(w);
    var a := new char[n + 1](i requires 0 <= i => if i < n then w[i] else NUL);
    assert a[..n] == w;
    RmEscapes(a, n);
    t := CopyOut(a, s);
  }
}
