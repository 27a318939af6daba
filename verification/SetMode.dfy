/** src/compat/setmode.c: the command array a symbolic file mode is compiled to,
    its interpreter getmode, the in-place optimizer compress_mode, and the array
    that setmode grows while it appends commands. */
module SetMode {

  /** A mode_t is the set of the positions of its one bits, 0 to 31: `|` is union,
      `&` intersection and `& ~` difference. */
  type Mode = set<int>

  const S_IRWXU: Mode := {6, 7, 8}
  const S_IRWXG: Mode := {3, 4, 5}
  const S_IRWXO: Mode := {0, 1, 2}
  const S_ISTXT: Mode := {9}
  /** S_ISUID | S_ISGID | S_IRWXU | S_IRWXG | S_IRWXO */
  const STANDARD_BITS: Mode := {11, 10} + S_IRWXU + S_IRWXG + S_IRWXO
  /** S_IFDIR | S_IXUSR | S_IXGRP | S_IXOTH */
  const XBITS: Mode := {14, 6, 3, 0}
  /** (mode_t)~0 */
  const ALL: Mode := set i | 0 <= i < 32

  function Shl(m: Mode, n: nat): Mode {
    set b | b in m :: b + n
  }

  function Shr(m: Mode, n: nat): Mode {
    set b | b in m && b >= n :: b - n
  }

  /** The flag bits of cmd2. */
  datatype Cmd2 = Cmd2(clr: bool, set_: bool, gbits: bool, obits: bool, ubits: bool)

  const NO_CMD2 := Cmd2(false, false, false, false, false)

  const END: char := '\0'

  datatype BitCmd = BitCmd(cmd: char, cmd2: Cmd2, bits: Mode)

  predicate IsRun(c: char) {
    c == '+' || c == '-' || c == 'X'
  }

  predicate IsCopy(c: char) {
    c == 'u' || c == 'g' || c == 'o'
  }

  // ----- the meaning of a command list -----

  /** The three-bit value a 'u', 'g' or 'o' command reads from the mode. */
  function CopyValue(c: char, m: Mode): Mode {
    if c == 'u' then Shr(m * S_IRWXU, 6)
    else if c == 'g' then Shr(m * S_IRWXG, 3)
    else m * S_IRWXO
  }

  /** The bits a copied three-bit value stands for in the classes the command names. */
  function Spread(s: BitCmd, value: Mode): Mode {
    (if s.cmd2.ubits then Shl(value, 6) * s.bits else {})
    + (if s.cmd2.gbits then Shl(value, 3) * s.bits else {})
    + (if s.cmd2.obits then value * s.bits else {})
  }

  /** One command other than the terminator: `omode` decides 'X', the rest act on `m`. */
  function Apply(s: BitCmd, omode: Mode, m: Mode): Mode {
    if s.cmd == '+' then m + s.bits
    else if s.cmd == '-' then m - s.bits
    else if s.cmd == 'X' then if omode * XBITS != {} then m + s.bits else m
    else
      var value := CopyValue(s.cmd, m);
      var cleared :=
        if s.cmd2.clr then m - Spread(s, if s.cmd2.set_ then S_IRWXO else value) else m;
      if s.cmd2.set_ then cleared + Spread(s, value) else cleared
  }

  /** The interpreter stops at the terminator and at any command it does not know. */
  function Meaning(cs: seq<BitCmd>, omode: Mode, m: Mode): Mode {
    if cs == [] || !(IsRun(cs[0].cmd) || IsCopy(cs[0].cmd)) then m
    else Meaning(cs[1..], omode, Apply(cs[0], omode, m))
  }

  /** A terminated command array, as setmode hands it out. */
  predicate Terminated(cs: seq<BitCmd>) {
    exists i :: 0 <= i < |cs| && cs[i].cmd == END
  }

  method GetMode(a: array<BitCmd>, omode: Mode) returns (newmode: Mode)
    requires Terminated(a[..])
    ensures newmode == Meaning(a[..], omode, omode)
  {
    newmode := omode;
    var i := 0;
    ghost var e :| 0 <= e < a.Length && a[e].cmd == END;
    while true
      invariant 0 <= i <= e
      invariant Meaning(a[..], omode, omode) == Meaning(a[i..], omode, newmode)
      decreases e - i
    {
      var s := a[i];
      assert a[i..][0] == s && a[i..][1..] == a[i + 1..];
      if !(IsRun(s.cmd) || IsCopy(s.cmd)) {
        return;
      }
      newmode := GetModeStep(s, omode, newmode);
      i := i + 1;
    }
  }

  /** The body of getmode's switch. */
  method GetModeStep(s: BitCmd, omode: Mode, m: Mode) returns (newmode: Mode)
    requires IsRun(s.cmd) || IsCopy(s.cmd)
    ensures newmode == Apply(s, omode, m)
  {
    newmode := m;
    match s.cmd
    case '+' => newmode := newmode + s.bits;
    case '-' => newmode := newmode - s.bits;
    case 'X' => if omode * XBITS != {} { newmode := newmode + s.bits; }
    case _ =>
      var value := CopyValue(s.cmd, newmode);
      if s.cmd2.clr {
        var clrval := if s.cmd2.set_ then S_IRWXO else value;
        if s.cmd2.ubits { newmode := newmode - Shl(clrval, 6) * s.bits; }
        if s.cmd2.gbits { newmode := newmode - Shl(clrval, 3) * s.bits; }
        if s.cmd2.obits { newmode := newmode - clrval * s.bits; }
        assert newmode == m - Spread(s, clrval);
      }
      ghost var cleared := newmode;
      if s.cmd2.set_ {
        if s.cmd2.ubits { newmode := newmode + Shl(value, 6) * s.bits; }
        if s.cmd2.gbits { newmode := newmode + Shl(value, 3) * s.bits; }
        if s.cmd2.obits { newmode := newmode + value * s.bits; }
        assert newmode == cleared + Spread(s, value);
      }
  }

  // ----- compress_mode as a function -----

  /** The bits one run of '+', '-' and 'X' commands sets, clears and conditionally sets. */
  datatype Run = Run(set_: Mode, clr: Mode, x: Mode)

  const NO_RUN := Run({}, {}, {})

  function Absorb(r: Run, s: BitCmd): Run {
    if s.cmd == '-' then Run(r.set_ - s.bits, r.clr + s.bits, r.x - s.bits)
    else if s.cmd == '+' then Run(r.set_ + s.bits, r.clr - s.bits, r.x - s.bits)
    else Run(r.set_, r.clr, r.x + (s.bits - r.set_))
  }

  function EmitOne(c: char, bits: Mode): seq<BitCmd> {
    if bits != {} then [BitCmd(c, NO_CMD2, bits)] else []
  }

  function Emit(r: Run): seq<BitCmd> {
    EmitOne('-', r.clr) + EmitOne('+', r.set_) + EmitOne('X', r.x)
  }

  /** What compress_mode writes for the commands up to and including the terminator,
      when `r` is what it has accumulated of the run it is in. */
  function CompressFrom(r: Run, cs: seq<BitCmd>): seq<BitCmd>
    decreases |cs|
  {
    if cs == [] then Emit(r)
    else if IsRun(cs[0].cmd) then CompressFrom(Absorb(r, cs[0]), cs[1..])
    else if cs[0].cmd == END then Emit(r) + [cs[0]]
    else Emit(r) + [cs[0]] + CompressFrom(NO_RUN, cs[1..])
  }

  function Compress(cs: seq<BitCmd>): seq<BitCmd> {
    CompressFrom(NO_RUN, cs)
  }

  // ----- compress_mode preserves meaning -----

  function ApplyRun(r: Run, omode: Mode, m: Mode): Mode {
    var m1 := (m - r.clr) + r.set_;
    if omode * XBITS != {} then m1 + r.x else m1
  }

  lemma AbsorbKeepsMeaning(r: Run, s: BitCmd, omode: Mode, m: Mode)
    requires IsRun(s.cmd)
    ensures ApplyRun(Absorb(r, s), omode, m) == Apply(s, omode, ApplyRun(r, omode, m))
  {
  }

  lemma ApplyNoRun(omode: Mode, m: Mode)
    ensures ApplyRun(NO_RUN, omode, m) == m
  {
    assert (m - {}) + {} == m;
  }

  lemma MeaningOne(c: BitCmd, rest: seq<BitCmd>, omode: Mode, m: Mode)
    requires IsRun(c.cmd) || IsCopy(c.cmd)
    ensures Meaning([c] + rest, omode, m) == Meaning(rest, omode, Apply(c, omode, m))
  {
    assert ([c] + rest)[1..] == rest;
  }

  lemma MeaningEmitOne(c: char, bits: Mode, rest: seq<BitCmd>, omode: Mode, m: Mode)
    requires IsRun(c)
    ensures Meaning(EmitOne(c, bits) + rest, omode, m)
         == Meaning(rest, omode, Apply(BitCmd(c, NO_CMD2, bits), omode, m))
  {
    if bits != {} {
      MeaningOne(BitCmd(c, NO_CMD2, bits), rest, omode, m);
    } else {
      assert EmitOne(c, bits) + rest == rest;
      assert m + {} == m - {} == m;
    }
  }

  lemma MeaningEmit(r: Run, rest: seq<BitCmd>, omode: Mode, m: Mode)
    ensures Meaning(Emit(r) + rest, omode, m) == Meaning(rest, omode, ApplyRun(r, omode, m))
  {
    var x := EmitOne('X', r.x) + rest;
    var p := EmitOne('+', r.set_) + x;
    assert Emit(r) + rest == EmitOne('-', r.clr) + p;
    MeaningEmitOne('-', r.clr, p, omode, m);
    MeaningEmitOne('+', r.set_, x, omode, m - r.clr);
    MeaningEmitOne('X', r.x, rest, omode, (m - r.clr) + r.set_);
  }

  lemma {:induction false} CompressFromMeaning(r: Run, cs: seq<BitCmd>, omode: Mode, m: Mode)
    ensures Meaning(CompressFrom(r, cs), omode, m) == Meaning(cs, omode, ApplyRun(r, omode, m))
    decreases |cs|
  {
    if cs == [] {
      assert Emit(r) == Emit(r) + [];
      MeaningEmit(r, [], omode, m);
    } else if IsRun(cs[0].cmd) {
      CompressFromMeaning(Absorb(r, cs[0]), cs[1..], omode, m);
      AbsorbKeepsMeaning(r, cs[0], omode, m);
    } else if cs[0].cmd == END {
      MeaningEmit(r, [cs[0]], omode, m);
    } else {
      var rest := CompressFrom(NO_RUN, cs[1..]);
      assert CompressFrom(r, cs) == Emit(r) + ([cs[0]] + rest);
      MeaningEmit(r, [cs[0]] + rest, omode, m);
      var m1 := ApplyRun(r, omode, m);
      assert ([cs[0]] + rest)[0] == cs[0] && ([cs[0]] + rest)[1..] == rest;
      if IsCopy(cs[0].cmd) {
        ApplyNoRun(omode, Apply(cs[0], omode, m1));
        CompressFromMeaning(NO_RUN, cs[1..], omode, Apply(cs[0], omode, m1));
      }
    }
  }

  /** Compression never changes what a command list does to a mode. */
  lemma CompressKeepsMeaning(cs: seq<BitCmd>, omode: Mode)
    ensures Meaning(Compress(cs), omode, omode) == Meaning(cs, omode, omode)
  {
    CompressFromMeaning(NO_RUN, cs, omode, omode);
    ApplyNoRun(omode, omode);
  }

  // ----- the form of compressed lists -----

  /** What every accumulated run satisfies: no bit is both set and cleared, or both
      set and conditionally set. */
  predicate Disjoint(r: Run) {
    r.set_ !! r.clr && r.set_ !! r.x
  }

  function Rank(c: char): int {
    if c == '-' then 0 else if c == '+' then 1 else 2
  }

  /** Neighbours inside one run are in the order '-', '+', 'X' without repetition, so a
      run has at most one of each; what is set is neither cleared nor conditional. */
  predicate Follows(c: BitCmd, d: BitCmd) {
    IsRun(c.cmd) && IsRun(d.cmd) ==>
      Rank(c.cmd) < Rank(d.cmd) && (c.cmd == '+' || d.cmd == '+' ==> c.bits !! d.bits)
  }

  predicate Canonical(cs: seq<BitCmd>) {
    && (forall i :: 0 <= i < |cs| && IsRun(cs[i].cmd) ==> cs[i].bits != {} && cs[i].cmd2 == NO_CMD2)
    && (forall i :: 0 <= i < |cs| - 1 ==> Follows(cs[i], cs[i + 1]))
  }

  lemma EmitIsCanonical(r: Run)
    requires Disjoint(r)
    ensures Canonical(Emit(r))
    ensures forall c :: c in Emit(r) ==> IsRun(c.cmd)
  {
  }

  lemma CanonicalAppend(p: seq<BitCmd>, c: BitCmd, rest: seq<BitCmd>)
    requires Canonical(p) && !IsRun(c.cmd) && Canonical(rest)
    ensures Canonical(p + [c] + rest)
  {
    var cs := p + [c] + rest;
    forall i | 0 <= i < |cs| - 1 ensures Follows(cs[i], cs[i + 1]) {
      if i < |p| - 1 {
        assert Follows(p[i], p[i + 1]);
      } else if i > |p| {
        assert Follows(rest[i - |p| - 1], rest[i - |p|]);
      }
    }
  }

  lemma {:induction false} CompressFromIsCanonical(r: Run, cs: seq<BitCmd>)
    requires Disjoint(r)
    ensures Canonical(CompressFrom(r, cs))
    decreases |cs|
  {
    EmitIsCanonical(r);
    if cs == [] {
    } else if IsRun(cs[0].cmd) {
      CompressFromIsCanonical(Absorb(r, cs[0]), cs[1..]);
    } else if cs[0].cmd == END {
      CanonicalAppend(Emit(r), cs[0], []);
      assert Emit(r) + [cs[0]] + [] == Emit(r) + [cs[0]];
    } else {
      CompressFromIsCanonical(NO_RUN, cs[1..]);
      CanonicalAppend(Emit(r), cs[0], CompressFrom(NO_RUN, cs[1..]));
    }
  }

  lemma ReabsorbOne(r: Run, c: char, bits: Mode, rest: seq<BitCmd>)
    requires IsRun(c)
    ensures CompressFrom(r, EmitOne(c, bits) + rest)
         == CompressFrom(if bits == {} then r else Absorb(r, BitCmd(c, NO_CMD2, bits)), rest)
  {
    if bits == {} {
      assert EmitOne(c, bits) + rest == rest;
    } else {
      assert (EmitOne(c, bits) + rest)[1..] == rest;
    }
  }

  lemma Reabsorb(r: Run, rest: seq<BitCmd>)
    requires Disjoint(r)
    ensures CompressFrom(NO_RUN, Emit(r) + rest) == CompressFrom(r, rest)
  {
    var x := EmitOne('X', r.x) + rest;
    var p := EmitOne('+', r.set_) + x;
    assert Emit(r) + rest == EmitOne('-', r.clr) + p;
    ReabsorbOne(NO_RUN, '-', r.clr, p);
    assert Absorb(NO_RUN, BitCmd('-', NO_CMD2, r.clr)) == Run({}, r.clr, {});
    ReabsorbOne(Run({}, r.clr, {}), '+', r.set_, x);
    assert Absorb(Run({}, r.clr, {}), BitCmd('+', NO_CMD2, r.set_)) == Run(r.set_, r.clr, {});
    ReabsorbOne(Run(r.set_, r.clr, {}), 'X', r.x, rest);
    assert Absorb(Run(r.set_, r.clr, {}), BitCmd('X', NO_CMD2, r.x)) == r;
  }

  lemma {:induction false} CompressAgain(r: Run, cs: seq<BitCmd>)
    requires Disjoint(r)
    ensures Compress(CompressFrom(r, cs)) == CompressFrom(r, cs)
    decreases |cs|
  {
    if cs == [] {
      assert Emit(r) == Emit(r) + [];
      Reabsorb(r, []);
    } else if IsRun(cs[0].cmd) {
      CompressAgain(Absorb(r, cs[0]), cs[1..]);
    } else if cs[0].cmd == END {
      Reabsorb(r, [cs[0]]);
    } else {
      var rest := CompressFrom(NO_RUN, cs[1..]);
      assert CompressFrom(r, cs) == Emit(r) + ([cs[0]] + rest);
      Reabsorb(r, [cs[0]] + rest);
      assert ([cs[0]] + rest)[1..] == rest;
      CompressAgain(NO_RUN, cs[1..]);
    }
  }

  /** A compressed list is in canonical form, and compressing it again changes nothing. */
  lemma CompressIsCanonicalAndIdempotent(cs: seq<BitCmd>)
    ensures Canonical(Compress(cs))
    ensures Compress(Compress(cs)) == Compress(cs)
  {
    CompressFromIsCanonical(NO_RUN, cs);
    CompressAgain(NO_RUN, cs);
  }

  // ----- compress_mode in place -----

  /** What holds between the two inner loops of compress_mode: `was` is the original
      array, nothing at or after the write index `w` has changed, `w` has not passed the
      read index `n`, and what is written plus what is still to come is the result. */
  ghost predicate Halfway(now: seq<BitCmd>, was: seq<BitCmd>, w: int, n: int) {
    && 0 <= w <= n < |now| == |was|
    && now[w..] == was[w..]
    && Terminated(was[n..])
    && now[..w] + Compress(was[n..]) == Compress(was)
  }

  method CompressMode(a: array<BitCmd>)
    requires Terminated(a[..])
    modifies a
    ensures |Compress(old(a[..]))| <= a.Length
    ensures a[..|Compress(old(a[..]))|] == Compress(old(a[..]))
    ensures a[|Compress(old(a[..]))|..] == old(a[..])[|Compress(old(a[..]))|..]
    ensures forall omode :: Meaning(a[..], omode, omode) == Meaning(old(a[..]), omode, omode)
  {
    ghost var was := a[..];
    var w, n := 0, 0;
    var done;
    assert was[0..] == was;
    while true
      invariant Halfway(a[..], was, w, n)
      decreases a.Length - n
    {
      done, w, n := CopyOthers(a, w, n, was);
      if done {
        MeaningStops(was, a[..w], a[..]);
        return;
      }
      w, n := CompressRun(a, w, n, was);
    }
  }

  /** Replaces the run at `n0` by at most three commands at `w0`. */
  method CompressRun(a: array<BitCmd>, w0: nat, n0: nat, ghost was: seq<BitCmd>)
    returns (w: nat, n: nat)
    requires Halfway(a[..], was, w0, n0) && IsRun(a[n0].cmd)
    modifies a
    ensures Halfway(a[..], was, w, n) && n0 < n
  {
    ghost var before := a[..];
    SameTail(before, was, w0, n0);
    var r;
    r, n := ReadRun(a, n0);
    w := WriteRun(a, w0, n, r);
    HalfwayAfterRun(before, a[..], was, w0, w, n0, n, r);
  }

  lemma HalfwayAfterRun(before: seq<BitCmd>, now: seq<BitCmd>, was: seq<BitCmd>,
                        w0: nat, w: nat, n0: nat, n: nat, r: Run)
    requires Halfway(before, was, w0, n0) && n0 < n < |was| && |now| == |was|
    requires w == w0 + |Emit(r)| <= n && Terminated(before[n..])
    requires Compress(before[n0..]) == Emit(r) + Compress(before[n..])
    requires now[..w] == before[..w0] + Emit(r)
    requires forall k :: w <= k < |was| ==> now[k] == before[k]
    ensures Halfway(now, was, w, n)
  {
    hide Compress, Emit;
    SameTail(before, was, w0, n0);
    SameTail(before, was, w0, n);
    SameTail(before, was, w0, w);
    assert now[w..] == before[w..];
    var p, rest := before[..w0], Compress(was[n..]);
    assert p + (Emit(r) + rest) == (p + Emit(r)) + rest;
  }

  /** Copies commands that belong to no run, up to the terminator or the next run. */
  method CopyOthers(a: array<BitCmd>, w0: nat, n0: nat, ghost was: seq<BitCmd>)
    returns (done: bool, w: nat, n: nat)
    requires Halfway(a[..], was, w0, n0)
    modifies a
    ensures done ==> w <= a.Length && a[..w] == Compress(was) && a[w..] == was[w..] && Terminated(a[..w])
    ensures !done ==> Halfway(a[..], was, w, n) && n0 <= n && IsRun(a[n].cmd)
  {
    w, n := w0, n0;
    while !IsRun(a[n].cmd)
      invariant Halfway(a[..], was, w, n) && n0 <= n
      decreases a.Length - n
    {
      var c := a[n];
      ghost var before := a[..];
      a[w] := c;
      HalfwayAfterCopy(before, a[..], was, w, n);
      w, n := w + 1, n + 1;
      if c.cmd == END {
        done := true;
        return;
      }
    }
    done := false;
  }

  lemma HalfwayAfterCopy(before: seq<BitCmd>, now: seq<BitCmd>, was: seq<BitCmd>, w: nat, n: nat)
    requires Halfway(before, was, w, n) && !IsRun(before[n].cmd)
    requires now == before[w := before[n]]
    ensures before[n].cmd == END ==>
      now[..w + 1] == Compress(was) && now[w + 1..] == was[w + 1..] && Terminated(now[..w + 1])
    ensures before[n].cmd != END ==> Halfway(now, was, w + 1, n + 1)
  {
    var c := before[n];
    assert c == before[w..][n - w] == was[n];
    assert was[n..][0] == c && was[n..][1..] == was[n + 1..];
    assert Emit(NO_RUN) == [];
    assert now[..w + 1] == before[..w] + [c];
    SameTail(before, was, w, w + 1);
    assert now[w + 1..] == before[w + 1..];
    if c.cmd == END {
      assert now[..w + 1][w].cmd == END;
    } else {
      TerminatedTail(was, n);
      var p, rest := before[..w], Compress(was[n + 1..]);
      assert p + ([c] + rest) == (p + [c]) + rest;
    }
  }

  lemma SameTail(now: seq<BitCmd>, was: seq<BitCmd>, w: nat, n: nat)
    requires w <= n <= |now| == |was| && now[w..] == was[w..]
    ensures now[n..] == was[n..]
  {
    assert now[n..] == now[w..][n - w..];
  }

  lemma TerminatedTail(cs: seq<BitCmd>, n: nat)
    requires n < |cs| && Terminated(cs[n..]) && cs[n].cmd != END
    ensures n + 1 < |cs| && Terminated(cs[n + 1..])
  {
    var i :| 0 <= i < |cs[n..]| && cs[n..][i].cmd == END;
    assert cs[n + 1..][i - 1].cmd == END;
  }

  lemma AbsorbGrowsByOne(r: Run, c: BitCmd)
    requires IsRun(c.cmd)
    ensures |Emit(Absorb(r, c))| <= |Emit(r)| + 1
  {
  }

  /** Accumulates the run that starts at `n0`. */
  method ReadRun(a: array<BitCmd>, n0: nat) returns (r: Run, n: nat)
    requires n0 < a.Length && IsRun(a[n0].cmd) && Terminated(a[n0..])
    ensures n0 < n < a.Length && Terminated(a[n..]) && |Emit(r)| <= n - n0
    ensures Compress(a[n0..]) == Emit(r) + Compress(a[n..])
  {
    hide Emit, Absorb, CompressFrom;
    r, n := NO_RUN, n0;
    assert Emit(NO_RUN) == [] by { NothingToEmit(); }
    while IsRun(a[n].cmd)
      invariant n0 <= n < a.Length && Terminated(a[n..])
      invariant n == n0 ==> IsRun(a[n].cmd)
      invariant |Emit(r)| <= n - n0
      invariant CompressFrom(r, a[n..]) == Compress(a[n0..])
      decreases a.Length - n
    {
      assert a[n..][0] == a[n] && a[n..][1..] == a[n + 1..];
      TerminatedTail(a[..], n);
      assert a[..][n..] == a[n..] && a[..][n + 1..] == a[n + 1..];
      AbsorbGrowsByOne(r, a[n]);
      RunStep(r, a[n..]);
      r := Absorb(r, a[n]);
      n := n + 1;
    }
    assert a[n..][0] == a[n];
    RunStep(r, a[n..]);
  }

  lemma NothingToEmit()
    ensures Emit(NO_RUN) == []
  {
  }

  /** A command of the run is absorbed; any other ends the run. */
  lemma RunStep(r: Run, cs: seq<BitCmd>)
    requires cs != []
    ensures IsRun(cs[0].cmd) ==> CompressFrom(r, cs) == CompressFrom(Absorb(r, cs[0]), cs[1..])
    ensures !IsRun(cs[0].cmd) ==> CompressFrom(r, cs) == Emit(r) + Compress(cs)
  {
    hide Absorb;
    NothingToEmit();
  }

  /** Stores an accumulated run at `w`, one command for each nonempty set of bits. */
  method WriteRun(a: array<BitCmd>, w: nat, n: nat, r: Run) returns (w': nat)
    requires w + |Emit(r)| <= n <= a.Length
    modifies a
    ensures w' == w + |Emit(r)|
    ensures a[..w'] == old(a[..w]) + Emit(r)
    ensures forall k :: w' <= k < a.Length ==> a[k] == old(a[k])
  {
    w' := w;
    if r.clr != {} {
      a[w'] := BitCmd('-', NO_CMD2, r.clr);
      w' := w' + 1;
    }
    if r.set_ != {} {
      a[w'] := BitCmd('+', NO_CMD2, r.set_);
      w' := w' + 1;
    }
    if r.x != {} {
      a[w'] := BitCmd('X', NO_CMD2, r.x);
      w' := w' + 1;
    }
  }

  lemma {:induction false} MeaningPrefix(p: seq<BitCmd>, cs: seq<BitCmd>, omode: Mode, m: Mode)
    requires p <= cs && Terminated(p)
    ensures Meaning(p, omode, m) == Meaning(cs, omode, m)
    decreases |p|
  {
    if IsRun(p[0].cmd) || IsCopy(p[0].cmd) {
      var i :| 0 <= i < |p| && p[i].cmd == END;
      assert p[1..][i - 1].cmd == END;
      MeaningPrefix(p[1..], cs[1..], omode, Apply(p[0], omode, m));
    }
  }

  lemma MeaningStops(was: seq<BitCmd>, p: seq<BitCmd>, cs: seq<BitCmd>)
    requires p == Compress(was) && p <= cs && Terminated(p)
    ensures forall omode :: Meaning(cs, omode, omode) == Meaning(was, omode, omode)
  {
    forall omode ensures Meaning(cs, omode, omode) == Meaning(was, omode, omode) {
      CompressKeepsMeaning(was, omode);
      MeaningPrefix(p, cs, omode, omode);
    }
  }

  // ----- the array setmode grows -----

  const SET_LEN := 6
  const SET_LEN_INCR := 4

  function CopyFlags(who: Mode, oparg: char): Cmd2 {
    Cmd2(oparg == '-' || oparg == '=', oparg == '+' || oparg == '=',
         who == {} || 5 in who, who == {} || 2 in who, who == {} || 8 in who)
  }

  /** addcmd for '=', '+', '-' and 'X': what is appended, the unset cmd2 aside. */
  function PermCmds(op: char, who: Mode, perm: Mode, mask: Mode): seq<(char, Mode)> {
    var bits := (if who != {} then who else mask) * perm;
    if op == '=' then [('-', if who != {} then who else STANDARD_BITS), ('+', bits)]
    else [(op, bits)]
  }

  /** The block setmode allocates: `a` has `setlen` slots, `len` of them used. */
  class CmdBuffer {
    var a: array<BitCmd>
    var len: nat

    /** The pointer set never passes endset + 1, where endset leaves two slots free. */
    ghost predicate Valid()
      reads this
    {
      a.Length >= SET_LEN + 2 && len <= a.Length - 1
    }

    ghost function Contents(): seq<BitCmd>
      reads this, a
      requires Valid()
    {
      a[..len]
    }

    constructor ()
      ensures Valid() && fresh(a) && Contents() == []
    {
      a := new BitCmd[SET_LEN + 2](_ => BitCmd(END, NO_CMD2, {}));
      len := 0;
    }

    /** The test and reallocation at the head of ADDCMD: afterwards there is room for
        the two commands of '=' and for the terminator. */
    method Reserve()
      requires Valid()
      modifies this
      ensures Valid() && Contents() == old(Contents()) && len == old(len)
      ensures a == old(a) || fresh(a)
      ensures len < a.Length - 2
    {
      if len >= a.Length - 2 {
        var old_ := a;
        var b := new BitCmd[a.Length + SET_LEN_INCR](
          i requires 0 <= i reads this, old_ => if i < old_.Length then old_[i] else BitCmd(END, NO_CMD2, {}));
        a := b;
      }
    }

    method AddPerm(op: char, who: Mode, perm: Mode, mask: Mode)
      requires Valid() && (op == '=' || IsRun(op))
      modifies this, a
      ensures Valid() && (a == old(a) || fresh(a))
      ensures old(Contents()) <= Contents()
      ensures var added := Contents()[old(len)..];
        |added| == |PermCmds(op, who, perm, mask)|
        && forall i :: 0 <= i < |added| ==>
          (added[i].cmd, added[i].bits) == PermCmds(op, who, perm, mask)[i]
    {
      Reserve();
      var op' := op;
      if op == '=' {
        a[len] := a[len].(cmd := '-', bits := if who != {} then who else STANDARD_BITS);
        len := len + 1;
        op' := '+';
      }
      a[len] := a[len].(cmd := op', bits := (if who != {} then who else mask) * perm);
      len := len + 1;
    }

    method AddCopy(c: char, who: Mode, op: char, mask: Mode)
      requires Valid() && IsCopy(c)
      modifies this, a
      ensures Valid() && (a == old(a) || fresh(a))
      ensures Contents() == old(Contents())
        + [BitCmd(c, CopyFlags(who, op), if who != {} then ALL else mask)]
    {
      Reserve();
      a[len] := BitCmd(c, CopyFlags(who, op), if who != {} then ALL else mask);
      len := len + 1;
    }

    /** The terminator setmode stores without a further check of the size. */
    method Finish()
      requires Valid()
      modifies a
      ensures Valid() && Terminated(a[..]) && Contents() == old(Contents())
      ensures a[len].cmd == END
    {
      a[len] := a[len].(cmd := END);
    }
  }

  /** An assignment clause replaces exactly the bits of the classes it names, or without
      a class the standard bits by those the umask allows. */
  lemma AssignMeaning(cs: seq<BitCmd>, who: Mode, perm: Mode, mask: Mode, omode: Mode)
    requires |cs| == 3 && cs[2].cmd == END
    requires forall i :: 0 <= i < 2 ==> (cs[i].cmd, cs[i].bits) == PermCmds('=', who, perm, mask)[i]
    ensures Meaning(cs, omode, omode) ==
      if who != {} then (omode - who) + (who * perm) else (omode - STANDARD_BITS) + (mask * perm)
  {
    MeaningOne(cs[0], cs[1..], omode, omode);
    assert cs == [cs[0]] + cs[1..] && cs[1..] == [cs[1]] + cs[2..];
    MeaningOne(cs[1], cs[2..], omode, Apply(cs[0], omode, omode));
  }

  /** The octal form: every mode ends with exactly the given permission, set-id and
      sticky bits, and keeps the bits above them. */
  method AbsoluteMode(perm: Mode, mask: Mode) returns (a: array<BitCmd>)
    requires perm <= STANDARD_BITS + S_ISTXT
    ensures Terminated(a[..])
    ensures forall omode ::
      Meaning(a[..], omode, omode) == (omode - (STANDARD_BITS + S_ISTXT)) + perm
  {
    var who := STANDARD_BITS + S_ISTXT;
    var b := new CmdBuffer();
    b.AddPerm('=', who, perm, mask);
    b.Finish();
    a := b.a;
    ghost var cs := a[..3];
    assert b.Contents()[0..] == b.Contents() == a[..2];
    assert cs[2].cmd == END;
    assert 0 in STANDARD_BITS && who != {} && who * perm == perm;
    forall omode
      ensures Meaning(a[..], omode, omode) == (omode - who) + perm
    {
      AssignMeaning(cs, who, perm, mask, omode);
      MeaningPrefix(cs, a[..], omode, omode);
    }
  }
}
