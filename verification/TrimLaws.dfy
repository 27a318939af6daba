/** The four trim forms on the two simplest patterns; section 2.6.2 of IEEE Std 1003.1-2024 (XCU). */
module TrimLaws {
  import opened PatMatch
  import opened PatLaws
  import opened Trim

  /** With `*` the short forms remove nothing and the long forms everything. */
  lemma TrimStar(kind: TrimKind, v: string, r: string)
    ensures IsTrim(kind, [Star], v, r) <==> r == if kind.TrimLeftMax? || kind.TrimRightMax? then "" else v
  {
    forall s: string
      ensures Matches([Star], s)
    {
      StarMatchesSomeSuffix([], s);
      assert [Star] + [] == [Star] && s[|s|..] == "";
    }
    var none, all := "", v;
    var k := if kind.TrimLeft? || kind.TrimRightMax? then 0 else |v|;
    assert BestCut(kind, [Star], v, k);
    forall j: nat | BestCut(kind, [Star], v, j)
      ensures j == k
    {
    }
    assert v[|v|..] == "" && v[..0] == "" && v[0..] == v && v[..|v|] == v;
    assert Fits(kind, [Star], v, k);
  }

  /** At most one cut fits. */
  lemma OnlyCut(kind: TrimKind, es: seq<Elem>, v: string, k: int, fits: bool, r: string)
    requires forall j: nat :: j <= |v| ==> (Fits(kind, es, v, j) <==> fits && j == k)
    requires fits ==> 0 <= k <= |v|
    ensures IsTrim(kind, es, v, r) <==> r == if !fits then v else if IsPrefixForm(kind) then v[k..] else v[..k]
  {
    hide Fits;
    if fits {
      assert BestCut(kind, es, v, k);
    }
  }

  /** A string of ordinary bytes is removed if the value begins, or ends, with it; otherwise the value stays. */
  lemma TrimLiteral(kind: TrimKind, p: string, v: string, r: string)
    requires forall i :: 0 <= i < |p| ==> IsOrdinaryByte(p[i])
    ensures IsTrim(kind, Elems(p, 0), v, r) <==>
      r == if IsPrefixForm(kind) then if p <= v then v[|p|..] else v
           else if |p| <= |v| && v[|v| - |p|..] == p then v[..|v| - |p|] else v
  {
    hide Elems, Matches, IsTrim;
    var es := Elems(p, 0);
    var k := if IsPrefixForm(kind) then |p| else |v| - |p|;
    var fits := if IsPrefixForm(kind) then p <= v else |p| <= |v| && v[|v| - |p|..] == p;
    forall j: nat | j <= |v|
      ensures Fits(kind, es, v, j) <==> fits && j == k
    {
      OrdinaryBytesMatchThemselves(p, v[..j]);
      OrdinaryBytesMatchThemselves(p, v[j..]);
    }
    OnlyCut(kind, es, v, k, fits, r);
  }
}
