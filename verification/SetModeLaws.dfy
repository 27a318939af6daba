/** What single clauses of a symbolic mode do, bit by bit; src/compat/setmode.c. */
module SetModeLaws {
  import opened SetMode

  /** Permission p (2 read, 1 write, 0 execute) of a class. */
  function BitOf(class_: char, p: nat): int {
    if class_ == 'u' then 6 + p else if class_ == 'g' then 3 + p else p
  }

  predicate IsClass(c: char) {
    c == 'u' || c == 'g' || c == 'o'
  }

  /** The clause names the class: its bits are those of chmod's who letters, the read bit among them. */
  predicate Names(who: Mode, k: char) {
    who == {} || BitOf(k, 2) in who
  }

  /** The commands are those of one clause and the terminator. */
  predicate IsPermClause(cs: seq<BitCmd>, op: char, who: Mode, perm: Mode, mask: Mode) {
    && |cs| == |PermCmds(op, who, perm, mask)| + 1 && cs[|cs| - 1].cmd == END
    && forall i :: 0 <= i < |cs| - 1 ==> (cs[i].cmd, cs[i].bits) == PermCmds(op, who, perm, mask)[i]
  }

  /**
   * `+` adds the permission within the classes named (within the umask if there are none), `-` takes it away, `=` also
   * clears the other bits of those classes (the set-id and permission bits if there are none), and `X` adds it if the
   * file is a directory or has an execute bit; no other bit changes.
   */
  lemma PermClause(cs: seq<BitCmd>, op: char, who: Mode, perm: Mode, mask: Mode, omode: Mode, b: int)
    requires (op == '=' || IsRun(op)) && IsPermClause(cs, op, who, perm, mask)
    ensures var given := b in perm && b in (if who == {} then mask else who);
      b in Meaning(cs, omode, omode) <==>
        match op
        case '+' => b in omode || given
        case '-' => b in omode && !given
        case '=' => given || (b in omode && !(if who == {} then 0 <= b <= 11 && b != 9 else b in who))
        case _ => b in omode || (given && (14 in omode || 6 in omode || 3 in omode || 0 in omode))
  {
    if op == '=' {
      AssignMeaning(cs, who, perm, mask, omode);
    } else {
      assert cs == [cs[0]] + cs[1..];
      MeaningOne(cs[0], cs[1..], omode, omode);
      assert cs[1..][0].cmd == END;
      if op == 'X' {
        ExecuteBits(omode);
      }
    }
  }

  lemma ExecuteBits(omode: Mode)
    ensures omode * XBITS != {} <==> 14 in omode || 6 in omode || 3 in omode || 0 in omode
  {
    if b :| b in omode * XBITS {
      assert b in omode && b in XBITS;
    }
    if 14 in omode {
      assert 14 in omode * XBITS;
    }
    if 6 in omode {
      assert 6 in omode * XBITS;
    }
    if 3 in omode {
      assert 3 in omode * XBITS;
    }
    if 0 in omode {
      assert 0 in omode * XBITS;
    }
  }

  lemma CopiedValue(c: char, omode: Mode, p: int)
    requires IsClass(c)
    ensures p in CopyValue(c, omode) <==> 0 <= p <= 2 && BitOf(c, p) in omode
  {
    if c == 'u' {
      ShiftedRight(omode * S_IRWXU, 6, p);
    } else if c == 'g' {
      ShiftedRight(omode * S_IRWXG, 3, p);
    }
  }

  lemma ShiftedRight(m: Mode, n: nat, p: int)
    ensures p in Shr(m, n) <==> p >= 0 && p + n in m
  {
    if p >= 0 && p + n in m {
      assert p + n in m && p + n >= n && p + n - n == p;
    }
  }

  lemma ShiftedLeft(m: Mode, n: nat, b: int)
    ensures b in Shl(m, n) <==> b - n in m
  {
    if b - n in m {
      assert b - n + n == b;
    }
  }

  /** A three-bit value, spread over the classes named. */
  lemma Spreads(s: BitCmd, value: Mode, k: char, p: nat)
    requires IsClass(k) && p <= 2 && forall v :: v in value ==> 0 <= v <= 2
    ensures var named := if k == 'u' then s.cmd2.ubits else if k == 'g' then s.cmd2.gbits else s.cmd2.obits;
      BitOf(k, p) in Spread(s, value) <==> named && p in value && BitOf(k, p) in s.bits
    ensures forall b :: b in Spread(s, value) ==> 0 <= b <= 8
  {
    forall b
      ensures (b in Shl(value, 6) <==> b - 6 in value) && (b in Shl(value, 3) <==> b - 3 in value)
    {
      ShiftedLeft(value, 6, b);
      ShiftedLeft(value, 3, b);
    }
  }

  /**
   * Copying a class: for every class k that the clause names, `=` makes its three permissions those of class c, `+` adds
   * them and `-` takes them away, without a class only within the umask; no other bit changes.
   */
  lemma CopyClause(cs: seq<BitCmd>, c: char, op: char, who: Mode, mask: Mode, omode: Mode, k: char, p: nat)
    requires IsClass(c) && IsClass(k) && p <= 2 && (op == '=' || op == '+' || op == '-')
    requires who != {} || mask <= ALL
    requires |cs| == 2 && cs[0] == BitCmd(c, CopyFlags(who, op), if who != {} then ALL else mask) && cs[1].cmd == END
    ensures var m, b, from := Meaning(cs, omode, omode), BitOf(k, p), BitOf(c, p) in omode;
      var named := Names(who, k) && (who != {} || b in mask);
      && (b in m <==> if !named then b in omode
                      else if op == '=' then from
                      else if op == '+' then b in omode || from
                      else b in omode && !from)
      && (forall other :: other < 0 || other > 8 ==> (other in m <==> other in omode))
  {
    var s := cs[0];
    assert cs == [s] + cs[1..] && cs[1..][0] == cs[1];
    MeaningOne(s, cs[1..], omode, omode);
    var value := CopyValue(c, omode);
    forall v
      ensures v in value <==> 0 <= v <= 2 && BitOf(c, v as nat) in omode
    {
      CopiedValue(c, omode, v);
    }
    Spreads(s, value, k, p);
    Spreads(s, S_IRWXO, k, p);
    assert BitOf(k, p) in ALL;
  }
}
