/** subevalvar_trim and recordleft of src/expand.c: the four trim forms of parameter
    expansion.  Value and pattern lie one after the other in the stack string, and the
    prefix forms cut the value by storing a NUL into it and taking it back. */
module Trim {
  import opened PatMatch

  datatype TrimKind = TrimLeft | TrimLeftMax | TrimRight | TrimRightMax

  /** strlen from offset `i` of a buffer, as the offset of the NUL. */
  function CEnd(s: string, i: nat): (j: nat)
    requires i < |s| && NUL in s[i..]
    ensures i <= j < |s| && s[j] == NUL && IsCString(s[i..j])
    decreases |s| - i
  {
    if s[i] == NUL then i
    else
      assert s[i..][1..] == s[i + 1..];
      assert s[i..][0] == s[i];
      var j := CEnd(s, i + 1);
      assert s[i..j] == [s[i]] + s[i + 1..j];
      j
  }

  lemma CEndIs(s: string, i: nat, j: nat)
    requires i <= j < |s| && s[j] == NUL && IsCString(s[i..j])
    ensures NUL in s[i..] && CEnd(s, i) == j
    decreases j - i
  {
    assert s[i..][j - i] == NUL;
    if i < j {
      assert s[i] == s[i..j][0];
      assert s[i + 1..j] == s[i..j][1..];
      CEndIs(s, i + 1, j);
    }
  }

  /** The call patmatch(str, loc) on two strings in the same buffer. */
  method PatMatchAt(buf: array<char>, pat: nat, loc: nat) returns (r: bool)
    requires pat < buf.Length && NUL in buf[pat..] && loc < buf.Length && NUL in buf[loc..]
    requires WellFormed(buf[pat..CEnd(buf[..], pat)])
    ensures r == Matches(Elems(buf[pat..CEnd(buf[..], pat)], 0), buf[loc..CEnd(buf[..], loc)])
  {
    assert buf[..][pat..] == buf[pat..] && buf[..][loc..] == buf[loc..];
    var s := buf[..];
    r := PatMatch.PatMatch(s[pat..CEnd(s, pat)], s[loc..CEnd(s, loc)]);
  }

  predicate IsPrefixForm(kind: TrimKind) {
    kind.TrimLeft? || kind.TrimLeftMax?
  }

  /** Where the value is cut: `k` bytes are removed from the left, or kept on the left. */
  predicate Fits(kind: TrimKind, es: seq<Elem>, v: string, k: nat)
    requires k <= |v|
  {
    if IsPrefixForm(kind) then Matches(es, v[..k]) else Matches(es, v[k..])
  }

  /** The cut the form asks for: the shortest or longest removal that fits. */
  predicate BestCut(kind: TrimKind, es: seq<Elem>, v: string, k: nat) {
    && k <= |v| && Fits(kind, es, v, k)
    && forall j :: 0 <= j <= |v| && Fits(kind, es, v, j) && j != k ==>
         if kind.TrimLeft? || kind.TrimRightMax? then k < j else j < k
  }

  /** The declared result: the shortest or longest matching prefix or suffix is removed,
      and the value is left alone when there is none. */
  ghost predicate IsTrim(kind: TrimKind, es: seq<Elem>, v: string, r: string) {
    (exists k: nat :: BestCut(kind, es, v, k) && r == if IsPrefixForm(kind) then v[k..] else v[..k])
    || (r == v && forall k :: 0 <= k <= |v| ==> !Fits(kind, es, v, k))
  }

  /** The stack string: the value from `start`, a NUL at str - 1, the pattern from `str`. */
  ghost predicate Layout(buf: string, start: nat, str: nat, end: nat) {
    && start < str <= end < |buf| && buf[str - 1] == NUL && buf[end] == NUL
    && IsCString(buf[start..str - 1]) && WellFormed(buf[str..end])
  }

  /** One probe of a prefix: the byte at `loc` is replaced by a NUL and put back. */
  method ProbePrefix(buf: array<char>, start: nat, str: nat, loc: nat, ghost end: nat) returns (r: bool)
    requires Layout(buf[..], start, str, end) && start <= loc < str
    modifies buf
    ensures buf[..] == old(buf[..])
    ensures r == Matches(Elems(buf[str..end], 0), buf[start..str - 1][..loc - start])
  {
    ghost var was := buf[..];
    var c := buf[loc];
    buf[loc] := NUL;
    ghost var now := buf[..];
    assert now[start..loc] == was[start..str - 1][..loc - start];
    assert now[str..end] == was[str..end] == buf[str..end];
    CEndIs(now, start, loc);
    CEndIs(now, str, end);
    assert now[start..] == buf[start..] && now[str..] == buf[str..];
    r := PatMatchAt(buf, str, start);
    buf[loc] := c;
    assert buf[..] == was;
  }

  method ProbeSuffix(buf: array<char>, start: nat, str: nat, loc: nat, ghost end: nat) returns (r: bool)
    requires Layout(buf[..], start, str, end) && start <= loc < str
    ensures r == Matches(Elems(buf[str..end], 0), buf[start..str - 1][loc - start..])
  {
    ghost var now := buf[..];
    assert now[loc..str - 1] == now[start..str - 1][loc - start..];
    assert IsCString(now[loc..str - 1]) by {
      var v := now[start..str - 1];
      assert forall c :: c in v[loc - start..] ==> c in v;
    }
    CEndIs(now, loc, str - 1);
    CEndIs(now, str, end);
    assert now[loc..] == buf[loc..] && now[str..] == buf[str..];
    r := PatMatchAt(buf, str, loc);
  }

  /** recordleft: the bytes after the removed prefix move to the front of the value. */
  method RecordLeft(buf: array<char>, str: nat, loc0: nat, start: nat) returns (dest: nat)
    requires start <= loc0 < str <= buf.Length
    modifies buf
    ensures dest == str - 1 - (loc0 - start)
    ensures buf[start..dest] == old(buf[loc0..str - 1])
    ensures forall i :: 0 <= i < buf.Length && !(start <= i < dest) ==> buf[i] == old(buf[i])
  {
    dest := str - 1 - (loc0 - start);
    var loc, startp := loc0, start;
    while loc != str - 1
      invariant loc0 <= loc <= str - 1 && startp - start == loc - loc0
      invariant forall i :: start <= i < startp ==> buf[i] == old(buf[i + (loc0 - start)])
      invariant forall i :: 0 <= i < buf.Length && !(start <= i < startp) ==> buf[i] == old(buf[i])
      decreases str - loc
    {
      buf[startp] := buf[loc];
      startp, loc := startp + 1, loc + 1;
    }
  }

  /** VSTRIMLEFT */
  method FirstPrefix(buf: array<char>, start: nat, str: nat, ghost end: nat, ghost v: string, ghost es: seq<Elem>)
    returns (found: bool, loc: int)
    requires Layout(buf[..], start, str, end)
    requires v == buf[start..str - 1] && es == Elems(buf[str..end], 0)
    modifies buf
    ensures buf[..] == old(buf[..])
    ensures
      if found then start <= loc < str && BestCut(TrimLeft, es, v, loc - start)
      else forall k :: 0 <= k <= |v| ==> !Fits(TrimLeft, es, v, k)
  {
    loc := start;
    while loc < str
      invariant start <= loc <= str && buf[..] == old(buf[..])
      invariant forall k :: 0 <= k < loc - start ==> !Fits(TrimLeft, es, v, k)
    {
      found := ProbePrefix(buf, start, str, loc, end);
      assert found == Fits(TrimLeft, es, v, loc - start);
      if found {
        return;
      }
      loc := loc + 1;
    }
    found := false;
  }

  /** VSTRIMLEFTMAX */
  method LastPrefix(buf: array<char>, start: nat, str: nat, ghost end: nat, ghost v: string, ghost es: seq<Elem>)
    returns (found: bool, loc: int)
    requires Layout(buf[..], start, str, end)
    requires v == buf[start..str - 1] && es == Elems(buf[str..end], 0)
    modifies buf
    ensures buf[..] == old(buf[..])
    ensures
      if found then start <= loc < str && BestCut(TrimLeftMax, es, v, loc - start)
      else forall k :: 0 <= k <= |v| ==> !Fits(TrimLeftMax, es, v, k)
  {
    loc := str - 1;
    while loc >= start
      invariant start - 1 <= loc < str && buf[..] == old(buf[..])
      invariant forall k :: loc - start < k <= |v| ==> !Fits(TrimLeftMax, es, v, k)
    {
      found := ProbePrefix(buf, start, str, loc, end);
      assert found == Fits(TrimLeftMax, es, v, loc - start);
      if found {
        return;
      }
      loc := loc - 1;
    }
    found := false;
  }

  /** VSTRIMRIGHT */
  method LastSuffix(buf: array<char>, start: nat, str: nat, ghost end: nat, ghost v: string, ghost es: seq<Elem>)
    returns (found: bool, loc: int)
    requires Layout(buf[..], start, str, end)
    requires v == buf[start..str - 1] && es == Elems(buf[str..end], 0)
    ensures
      if found then start <= loc < str && BestCut(TrimRight, es, v, loc - start)
      else forall k :: 0 <= k <= |v| ==> !Fits(TrimRight, es, v, k)
  {
    loc := str - 1;
    while loc >= start
      invariant start - 1 <= loc < str
      invariant forall k :: loc - start < k <= |v| ==> !Fits(TrimRight, es, v, k)
    {
      found := ProbeSuffix(buf, start, str, loc, end);
      assert found == Fits(TrimRight, es, v, loc - start);
      if found {
        return;
      }
      loc := loc - 1;
    }
    found := false;
  }

  /** VSTRIMRIGHTMAX; the empty suffix is not tried. */
  method FirstSuffix(buf: array<char>, start: nat, str: nat, ghost end: nat, ghost v: string, ghost es: seq<Elem>)
    returns (found: bool, loc: int)
    requires Layout(buf[..], start, str, end)
    requires v == buf[start..str - 1] && es == Elems(buf[str..end], 0)
    ensures
      if found then start <= loc < str && BestCut(TrimRightMax, es, v, loc - start)
      else forall k :: 0 <= k < |v| ==> !Fits(TrimRightMax, es, v, k)
  {
    loc := start;
    while loc < str - 1
      invariant start <= loc <= str - 1
      invariant forall k :: 0 <= k < loc - start ==> !Fits(TrimRightMax, es, v, k)
    {
      found := ProbeSuffix(buf, start, str, loc, end);
      assert found == Fits(TrimRightMax, es, v, loc - start);
      if found {
        return;
      }
      loc := loc + 1;
    }
    found := false;
  }

  /** Removing the empty suffix, the one that was not tried, changes nothing. */
  lemma OnlyEmptySuffix(es: seq<Elem>, v: string)
    requires forall k :: 0 <= k < |v| ==> !Fits(TrimRightMax, es, v, k)
    ensures IsTrim(TrimRightMax, es, v, v)
  {
    assert v[..|v|] == v;
    if Fits(TrimRightMax, es, v, |v|) {
      assert BestCut(TrimRightMax, es, v, |v|);
    }
  }

  /** `dest` is expdest afterwards: the expansion is what lies between `start` and it.
      No byte outside that range has changed. */
  method SubevalvarTrim(buf: array<char>, start: nat, str: nat, kind: TrimKind, ghost end: nat)
    returns (dest: nat)
    requires Layout(buf[..], start, str, end)
    modifies buf
    ensures start <= dest < str
    ensures IsTrim(kind, Elems(old(buf[str..end]), 0), old(buf[start..str - 1]), buf[start..dest])
    ensures forall i :: 0 <= i < buf.Length && !(start <= i < dest) ==> buf[i] == old(buf[i])
    ensures kind.TrimRight? || kind.TrimRightMax? ==> buf[..] == old(buf[..])
  {
    hide IsTrim, Fits, BestCut, Elems;
    ghost var was := buf[..];
    ghost var v, es := buf[start..str - 1], Elems(buf[str..end], 0);
    var found, loc;
    match kind {
      case TrimLeft => found, loc := FirstPrefix(buf, start, str, end, v, es);
      case TrimLeftMax => found, loc := LastPrefix(buf, start, str, end, v, es);
      case TrimRight => found, loc := LastSuffix(buf, start, str, end, v, es);
      case TrimRightMax =>
        found, loc := FirstSuffix(buf, start, str, end, v, es);
        if !found {
          OnlyEmptySuffix(es, v);
        }
    }
    assert buf[..] == was && v == was[start..str - 1];
    if !found {
      NothingToTrim(kind, es, v);
      dest := str - 1;
      assert buf[start..dest] == v;
      return;
    }
    TrimAt(kind, es, v, loc - start);
    CutParts(was, start, loc, str - 1);
    if IsPrefixForm(kind) {
      dest := RecordLeft(buf, str, loc, start);
    } else {
      dest := loc;
      assert buf[start..dest] == was[start..loc];
    }
  }

  lemma TrimAt(kind: TrimKind, es: seq<Elem>, v: string, k: nat)
    requires BestCut(kind, es, v, k)
    ensures IsTrim(kind, es, v, if IsPrefixForm(kind) then v[k..] else v[..k])
  {
  }

  lemma NothingToTrim(kind: TrimKind, es: seq<Elem>, v: string)
    requires IsTrim(kind, es, v, v) || forall k :: 0 <= k <= |v| ==> !Fits(kind, es, v, k)
    ensures IsTrim(kind, es, v, v)
  {
  }

  lemma CutParts(b: string, i: nat, j: nat, k: nat)
    requires i <= j <= k <= |b|
    ensures b[i..k][j - i..] == b[j..k] && b[i..k][..j - i] == b[i..j]
  {
  }
}
