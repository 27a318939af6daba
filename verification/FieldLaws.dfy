/** Field splitting said in bytes: words, white space and the other bytes of IFS, and quoted parts; section 2.6.5 of
    IEEE Std 1003.1-2024 (XCU). */
module FieldLaws {
  import opened FieldSplit
  import opened ReadCmd
  import opened ReadLaws

  predicate IsIfsSpace(ifs: string, s: string) {
    AllIn(s, ifs) && AllIn(s, WHITE)
  }

  lemma ExpansionParts(a: string, b: string)
    ensures Expansion(a + b) == Expansion(a) + Expansion(b)
  {
  }

  lemma SpaceIsW(ifs: string, s: string)
    requires IsIfsSpace(ifs, s)
    ensures AllW(ifs, Expansion(s))
  {
    assert forall i :: 0 <= i < |s| ==> s[i] in s;
  }

  lemma WordIsField(ifs: string, w: string)
    requires NoneIn(w, ifs)
    ensures IsFieldText(ifs, Expansion(w)) && FieldBytes(Expansion(w)) == w
  {
    assert forall i :: 0 <= i < |w| ==> w[i] in w;
    BytesOfExpansion(w);
  }

  /** IFS white space at the start is dropped, at the end ends the last word. */
  lemma SpaceAtEnds(ifs: string, lead: string, s: string)
    requires IsIfsSpace(ifs, lead)
    ensures Fields(ifs, Expansion(lead + s)) == Fields(ifs, Expansion(s))
    ensures Fields(ifs, Expansion(lead)) == []
  {
    SpaceIsW(ifs, lead);
    ExpansionParts(lead, s);
    DropAllW(ifs, Expansion(lead), Expansion(s));
    DropWsIdempotent(ifs, Expansion(lead + s));
    DropWsIdempotent(ifs, Expansion(s));
    NoField(ifs, Expansion(lead));
    assert Expansion(lead) + [] == Expansion(lead);
    DropAllW(ifs, Expansion(lead), []);
    DropWsIdempotent(ifs, Expansion(lead));
  }

  /**
   * A word ends at white space of IFS, with at most one other byte of IFS in it, or at such a byte; an empty word is
   * one only before such a byte.
   */
  lemma WordEndsAtDelimiter(ifs: string, w: string, before: string, c: string, after: string, rest: string)
    requires NoneIn(w, ifs) && IsIfsSpace(ifs, before) && IsIfsSpace(ifs, after)
    requires if c == "" then before != "" && after == "" else |c| == 1 && c[0] in ifs && c[0] !in WHITE
    requires w == "" ==> before == "" && c != ""
    requires rest != "" ==> !(rest[0] in ifs && rest[0] in WHITE) && (c == "" ==> rest[0] !in ifs)
    ensures Fields(ifs, Expansion(w + (before + c + after) + rest)) == [w] + Fields(ifs, Expansion(rest))
  {
    hide Fields, TakeField, DropField, DropDelim;
    SpaceIsW(ifs, before);
    SpaceIsW(ifs, after);
    WordIsField(ifs, w);
    var d := Delimiter(Expansion(before), Expansion(c), Expansion(after));
    var f, r := Expansion(w), Expansion(rest);
    ExpansionParts(w + (before + c + after), rest);
    ExpansionParts(w, before + c + after);
    ExpansionParts(before + c, after);
    ExpansionParts(before, c);
    var es := f + Unfold(d) + r;
    assert es == Expansion(w + (before + c + after) + rest);
    JoinSplitsFirst(ifs, f, d, r);
    assert es != [] && !IsW(ifs, es[0]) by {
      if w != "" {
        assert es[0] == f[0];
      } else {
        assert es[0] == Exp(c[0]);
      }
    }
    FieldsAt(ifs, es);
  }

  /** A last word, and what is not split at all with an empty IFS. */
  lemma LastWord(ifs: string, w: string)
    requires w != "" && NoneIn(w, ifs)
    ensures Fields(ifs, Expansion(w)) == [w]
  {
    WordIsField(ifs, w);
    var f := Expansion(w);
    assert f[0] == Exp(w[0]) && w[0] in w;
    FieldThenDelimiter(ifs, f, []);
    assert f + [] == f;
    FieldsAt(ifs, f);
    assert Fields(ifs, DropDelim(ifs, [])) == [];
  }

  /** Quoted bytes are never split, and an empty quoted part makes an empty field. */
  lemma QuotedPart(ifs: string, s: string)
    ensures Fields(ifs, [Mark] + Literal(s)) == [s]
    ensures Finish(Run(ifs, START, [Mark] + Literal(s))) == [s]
  {
    var es := [Mark] + Literal(s);
    assert es[1..] == Literal(s) && es[0] == Mark;
    WholeField(ifs, s);
    FieldsAt(ifs, es);
    assert TakeField(ifs, es) == "" + TakeField(ifs, Literal(s)) == s;
    assert DropField(ifs, es) == [] && DropDelim(ifs, []) == [];
    assert Fields(ifs, DropDelim(ifs, [])) == [];
    MachineSplitsFields(ifs, es);
  }
}
