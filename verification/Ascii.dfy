/** The letters and digits, byte by byte. */
module Ascii {
  const UPPER := "ABCDEFGHIJKLMNOPQRSTUVWXYZ"
  const LOWER := "abcdefghijklmnopqrstuvwxyz"
  const DIGIT := "0123456789"

  lemma UpperLetters(c: char)
    ensures c in UPPER <==> 'A' <= c <= 'Z'
  {
    if 'A' <= c <= 'Z' {
      assert UPPER[c as int - 65] == c;
    }
  }

  lemma LowerLetters(c: char)
    ensures c in LOWER <==> 'a' <= c <= 'z'
  {
    if 'a' <= c <= 'z' {
      assert LOWER[c as int - 97] == c;
    }
  }

  lemma DecimalDigits(c: char)
    ensures c in DIGIT <==> '0' <= c <= '9'
  {
    if '0' <= c <= '9' {
      assert DIGIT[c as int - 48] == c;
    }
  }

  /** A byte of a name. */
  predicate IsWordByte(c: char) {
    c in UPPER || c in LOWER || c in DIGIT || c == '_'
  }

  /** A name: letters, digits and underscores, of which the first is no digit. */
  predicate IsIdentifier(n: string) {
    n != "" && n[0] !in DIGIT && forall i :: 0 <= i < |n| ==> IsWordByte(n[i])
  }

  lemma WordBytes(c: char)
    ensures IsWordByte(c) <==> 'A' <= c <= 'Z' || 'a' <= c <= 'z' || '0' <= c <= '9' || c == '_'
    ensures c in DIGIT <==> '0' <= c <= '9'
  {
    UpperLetters(c);
    LowerLetters(c);
    DecimalDigits(c);
  }
}
