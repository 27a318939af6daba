/** What the last of a list of redirections does, when a list succeeds, and the flags for descriptor 0; src/redir.c. */
module RedirLaws {
  import opened Wrappers
  import opened Redirections

  // ---- One redirection after others ----

  lemma {:induction false} PerformLast(fds: Table, renamed: Slots, memory: set<Digit>, rs: seq<Redirection>, r: Redirection, push: bool, limit: nat)
    requires Perform(fds, renamed, memory, rs, push, limit).outcome == Done
    ensures var p := Perform(fds, renamed, memory, rs, push, limit);
      Perform(fds, renamed, memory, rs + [r], push, limit) == PerformOne(p.fds, p.renamed, p.memory, r, push, limit)
    decreases |rs|
  {
    hide PerformOne;
    if rs == [] {
      assert rs + [r] == [r] && [r][1..] == [];
    } else {
      var p := PerformOne(fds, renamed, memory, rs[0], push, limit);
      assert (rs + [r])[0] == rs[0] && (rs + [r])[1..] == rs[1..] + [r];
      PerformLast(p.fds, p.renamed, p.memory, rs[1..], r, push, limit);
    }
  }

  /** The one descriptor that changes. */
  lemma ConnectOne(fds: Table, r: Redirection, memory: set<Digit>, limit: nat)
    requires Connect(fds, r, memory, limit).outcome == Done && !SameDescriptor(r)
    ensures var c := Connect(fds, r, memory, limit);
      && (r.File? ==> r.opening.Opened? && At(c.fds, r.fd) == Some(r.opening.file) && r.fd !in c.memory)
      && (r.Close? ==> At(c.fds, r.fd) == None && r.fd !in c.memory)
      && (r.HereDoc? ==> At(c.fds, r.fd) == Some(r.text) && r.fd !in c.memory)
      && (r.Duplicate? && r.dupfd in memory ==> c.fds == fds && r.fd in c.memory)
      && (r.Duplicate? && r.dupfd !in memory ==> At(c.fds, r.fd) == At(fds, r.dupfd) && r.fd !in c.memory)
  {
    hide LowestFree;
  }

  lemma ConnectOthers(fds: Table, r: Redirection, memory: set<Digit>, limit: nat, k: nat)
    requires Connect(fds, r, memory, limit).outcome == Done && k != r.fd
    ensures var c := Connect(fds, r, memory, limit); At(c.fds, k) == At(fds, k) && (k < 10 ==> (k in c.memory <==> k in memory))
  {
    hide LowestFree;
  }

  lemma SaveIsHigh(fds: Table, fd: Digit, renamed: Slots, limit: nat, k: nat)
    requires k < 10
    ensures At(Save(fds, renamed, fd, limit).fds, k) == At(fds, k)
  {
  }

  /**
   * After others, a redirection gives its descriptor the file opened, what the other descriptor refers to at that
   * moment, nothing, or the text; all other descriptors up to 9 stay as the others left them.  A copy of a descriptor
   * written to memory is written to memory too.
   */
  lemma LastRedirection(fds: Table, memory: set<Digit>, rs: seq<Redirection>, r: Redirection, push: bool, limit: nat, k: Digit)
    requires Perform(fds, NoSlots, memory, rs + [r], push, limit).outcome == Done
    requires Perform(fds, NoSlots, memory, rs, push, limit).outcome == Done
    ensures var before, p := Perform(fds, NoSlots, memory, rs, push, limit), Perform(fds, NoSlots, memory, rs + [r], push, limit);
      && (k != r.fd || SameDescriptor(r) ==> At(p.fds, k) == At(before.fds, k) && (k in p.memory <==> k in before.memory))
      && (r.File? ==> r.opening.Opened? && At(p.fds, r.fd) == Some(r.opening.file) && r.fd !in p.memory)
      && (r.Close? ==> At(p.fds, r.fd) == None && r.fd !in p.memory)
      && (r.HereDoc? ==> At(p.fds, r.fd) == Some(r.text) && r.fd !in p.memory)
      && (r.Duplicate? && r.dupfd != r.fd && r.dupfd in before.memory ==> At(p.fds, r.fd) == At(before.fds, r.fd) && r.fd in p.memory)
      && (r.Duplicate? && r.dupfd != r.fd && r.dupfd !in before.memory ==> At(p.fds, r.fd) == At(before.fds, r.dupfd) && r.fd !in p.memory)
  {
    hide Perform, Connect, Save;
    PerformLast(fds, NoSlots, memory, rs, r, push, limit);
    var before := Perform(fds, NoSlots, memory, rs, push, limit);
    if !SameDescriptor(r) {
      var now := if push then Save(before.fds, before.renamed, r.fd, limit).fds else before.fds;
      SaveIsHigh(before.fds, r.fd, before.renamed, limit, k);
      SaveIsHigh(before.fds, r.fd, before.renamed, limit, r.fd);
      if r.Duplicate? {
        SaveIsHigh(before.fds, r.fd, before.renamed, limit, r.dupfd);
      }
      ConnectOne(now, r, before.memory, limit);
      if k != r.fd {
        ConnectOthers(now, r, before.memory, limit, k);
      }
    }
  }

  // ---- When redirections succeed ----

  /** What a redirection needs of the descriptors as the earlier ones leave them. */
  predicate Possible(v: Plain, r: Redirection) {
    match r
    case File(_, opening) => opening.Opened?
    case Close(_) => true
    case HereDoc(_, _, _, delivery) => delivery != ForkFailed
    case Duplicate(fd, dupfd, input) =>
      || fd == dupfd || dupfd in v.memory
      || (dupfd in v.fds && (if input then v.fds[dupfd].access != WriteOnly else v.fds[dupfd].access != ReadOnly))
  }

  predicate AllPossible(v: Plain, rs: seq<Redirection>)
    decreases |rs|
  {
    rs == [] || (Possible(v, rs[0]) && AllPossible(IntendedOne(v, rs[0]), rs[1..]))
  }

  /** So many descriptors may be open that the next ones are still below the limit. */
  predicate Room(fds: Table, todo: nat, limit: nat) {
    |fds| + 2 * todo + 12 <= limit
  }

  /** The numbers from `lo` up to but without `hi`. */
  function Between(lo: nat, hi: nat): (r: set<nat>)
    requires lo <= hi
    ensures (forall k: nat :: k in r <==> lo <= k < hi) && |r| == hi - lo
    decreases hi
  {
    if lo == hi then {} else {hi - 1} + Between(lo, hi - 1)
  }

  lemma FreeIsLow(fds: Table, from: nat)
    ensures LowestFree(fds, from) <= from + |fds|
  {
    var n := LowestFree(fds, from);
    assert forall k :: k in Between(from, n) ==> k in fds;
    Fits(Between(from, n), fds.Keys);
    assert |fds| == |fds.Keys|;
  }

  lemma {:induction false} Fits(a: set<nat>, b: set<nat>)
    requires a <= b
    ensures |a| <= |b|
  {
    if a != {} {
      var x :| x in a;
      Fits(a - {x}, b - {x});
    }
  }

  lemma Grows(fds: Table, k: nat, d: Description)
    ensures |fds[k := d]| <= |fds| + 1 && |fds - {k}| <= |fds|
  {
    var more := fds[k := d];
    assert more.Keys == fds.Keys + {k};
    assert |more| == |more.Keys| && |fds| == |fds.Keys|;
    Fits((fds - {k}).Keys, fds.Keys);
    assert |fds - {k}| == |(fds - {k}).Keys|;
  }

  /** With room for the descriptors they take, redirections succeed exactly if each is possible in its turn. */
  lemma {:induction false} SucceedIfPossible(fds: Table, renamed: Slots, memory: set<Digit>, rs: seq<Redirection>, push: bool, limit: nat, v: Table)
    requires SameLow(fds, v) && Room(fds, |rs|, limit)
    ensures Perform(fds, renamed, memory, rs, push, limit).outcome == Done <==> AllPossible(Plain(v, memory), rs)
    decreases |rs|
  {
    if rs != [] {
      var r, p := rs[0], PerformOne(fds, renamed, memory, rs[0], push, limit);
      OneSucceeds(fds, renamed, memory, r, push, limit, v);
      if p.outcome == Done {
        assert Perform(fds, renamed, memory, [r], push, limit) == p by {
          assert [r][1..] == [];
        }
        RedirectionsTakeEffect(fds, renamed, memory, [r], push, limit, v);
        var w := IntendedOne(Plain(v, memory), r);
        assert Intended(Plain(v, memory), [r]) == w by {
          assert [r][1..] == [];
        }
        SucceedIfPossible(p.fds, p.renamed, p.memory, rs[1..], push, limit, w.fds);
        assert Plain(w.fds, p.memory) == w;
      }
    }
  }

  lemma OneSucceeds(fds: Table, renamed: Slots, memory: set<Digit>, r: Redirection, push: bool, limit: nat, v: Table)
    requires SameLow(fds, v) && Room(fds, 1, limit)
    ensures var p := PerformOne(fds, renamed, memory, r, push, limit);
      (p.outcome == Done <==> Possible(Plain(v, memory), r)) && (p.outcome == Done ==> |p.fds| <= |fds| + 2)
  {
    if !SameDescriptor(r) {
      var sv := if push then Save(fds, renamed, r.fd, limit) else Saving(fds, renamed, true);
      SaveSucceeds(fds, renamed, r.fd, limit, v);
      hide Save, Connect, SameLow;
      ConnectSucceeds(sv.fds, memory, r, limit, v);
    }
  }

  lemma SaveSucceeds(fds: Table, renamed: Slots, fd: Digit, limit: nat, v: Table)
    requires SameLow(fds, v) && Room(fds, 1, limit)
    ensures var sv := Save(fds, renamed, fd, limit); sv.ok && |sv.fds| <= |fds| + 1 && SameLow(sv.fds, v)
  {
    FreeIsLow(fds, 10);
    if renamed[fd] == Empty && fd in fds {
      Grows(fds, LowestFree(fds, 10), fds[fd]);
      var sv := Save(fds, renamed, fd, limit);
      forall k: nat | k < 10
        ensures At(sv.fds, k) == At(v, k)
      {
        assert At(fds, k) == At(v, k);
      }
    }
  }

  lemma ConnectSucceeds(fds: Table, memory: set<Digit>, r: Redirection, limit: nat, v: Table)
    requires SameLow(fds, v) && |fds| + 12 < limit && !SameDescriptor(r)
    ensures var c := Connect(fds, r, memory, limit);
      (c.outcome == Done <==> Possible(Plain(v, memory), r)) && (c.outcome == Done ==> |c.fds| <= |fds| + 1)
  {
    hide SameLow;
    LowFree(fds);
    hide LowestFree;
    if r.Duplicate? {
      DuplicateSucceeds(fds, memory, r, limit, v);
    } else if r.Close? {
      Grows(fds, r.fd, Description(0, ReadOnly));
    } else if r.HereDoc? {
      Grows(fds, r.fd, r.text);
    } else if r.opening.Opened? {
      Grows(fds, r.fd, r.opening.file);
    }
  }

  lemma DuplicateSucceeds(fds: Table, memory: set<Digit>, r: Redirection, limit: nat, v: Table)
    requires SameLow(fds, v) && 12 < limit && r.Duplicate? && r.dupfd != r.fd
    ensures var c := Connect(fds, r, memory, limit);
      (c.outcome == Done <==> Possible(Plain(v, memory), r)) && (c.outcome == Done ==> |c.fds| <= |fds| + 1)
  {
    assert At(fds, r.dupfd) == At(v, r.dupfd);
    if r.dupfd in fds {
      Grows(fds, r.fd, fds[r.dupfd]);
    }
  }

  /** The two lowest free descriptors. */
  lemma LowFree(fds: Table)
    ensures LowestFree(fds, 0) <= |fds| && LowestFree(fds, LowestFree(fds, 0) + 1) <= |fds| + 1
  {
    var a := LowestFree(fds, 0);
    var b := LowestFree(fds, a + 1);
    FreeIsLow(fds, 0);
    NextFree(fds, a, b);
  }

  lemma NextFree(fds: Table, a: nat, b: nat)
    requires a !in fds && a < b
    requires forall k :: 0 <= k < a || a < k < b ==> k in fds
    ensures b <= |fds| + 1
  {
    hide LowestFree;
    var open := fds.Keys + {a};
    forall k | k in Between(0, b)
      ensures k in open
    {
    }
    Fits(Between(0, b), open);
    assert |open| == |fds.Keys| + 1;
    assert |fds| == |fds.Keys|;
  }

  // ---- The limit on descriptors ----

  /** A file needs a free descriptor for the moment, a here-document two, and the descriptor itself must be allowed. */
  lemma DescriptorsNeeded(fds: Table, r: Redirection, memory: set<Digit>, limit: nat)
    requires r.File? || r.HereDoc?
    ensures r.File? ==>
      (Connect(fds, r, memory, limit).outcome == Done
       <==> r.opening.Opened? && r.fd < limit && exists a :: 0 <= a < limit && a !in fds)
    ensures r.HereDoc? ==>
      (Connect(fds, r, memory, limit).outcome == Done
       <==> r.delivery != ForkFailed && r.fd < limit && exists a, b :: 0 <= a < b < limit && a !in fds && b !in fds)
  {
    var a := LowestFree(fds, 0);
    var b := LowestFree(fds, a + 1);
    if x, y :| 0 <= x < y < limit && x !in fds && y !in fds {
      assert a <= x && b <= y;
    }
  }

  ghost predicate Below(fds: Table, limit: nat) {
    forall k :: k in fds ==> k < limit
  }

  /** No redirection, failed or not, opens a descriptor that is not allowed. */
  lemma {:induction false} StaysBelowLimit(fds: Table, renamed: Slots, memory: set<Digit>, rs: seq<Redirection>, push: bool, limit: nat)
    requires Below(fds, limit)
    ensures Below(Perform(fds, renamed, memory, rs, push, limit).fds, limit)
    decreases |rs|
  {
    if rs != [] {
      var r, p := rs[0], PerformOne(fds, renamed, memory, rs[0], push, limit);
      var sv := if push then Save(fds, renamed, r.fd, limit) else Saving(fds, renamed, true);
      assert Below(sv.fds, limit);
      assert Below(Connect(sv.fds, r, memory, limit).fds, limit);
      StaysBelowLimit(p.fds, p.renamed, p.memory, rs[1..], push, limit);
    }
  }

  // ---- Descriptor 0 ----

  lemma {:induction false} ZeroReached(fds: Table, renamed: Slots, memory: set<Digit>, rs: seq<Redirection>, push: bool, limit: nat)
    requires Perform(fds, renamed, memory, rs, push, limit).outcome == Done
    ensures Reaches0(fds, renamed, memory, rs, push, limit) <==> exists i :: 0 <= i < |rs| && rs[i].fd == 0
    decreases |rs|
  {
    if rs != [] {
      var p := PerformOne(fds, renamed, memory, rs[0], push, limit);
      ZeroReached(p.fds, p.renamed, p.memory, rs[1..], push, limit);
      if i :| 0 <= i < |rs| - 1 && rs[1..][i].fd == 0 {
        assert rs[i + 1].fd == 0;
      }
      if i :| 0 <= i < |rs| && rs[i].fd == 0 {
        assert i > 0 ==> rs[1..][i - 1].fd == 0;
      }
    }
  }

  /** The flags say whether descriptor 0 was redirected ever, and by a command still running; a push keeps them for its pop. */
  lemma FlagsOfZero(s: State, rs: seq<Redirection>, push: bool, memory: set<Digit>, limit: nat)
    requires Perform(s.fds, NoSlots, memory, rs, push, limit).outcome == Done
    ensures var r, zero := Redirected(s, rs, push, memory, limit), exists i :: 0 <= i < |rs| && rs[i].fd == 0;
      && (r.state.fd0 <==> s.fd0 || zero) && (r.state.fd0Here <==> s.fd0Here || (push && zero))
      && (push ==> Undo(r.state).fd0 == s.fd0 && Undo(r.state).fd0Here == s.fd0Here)
      && (!push ==> r.state.redirlist == s.redirlist && r.state.emptyRedirs == s.emptyRedirs)
  {
    ZeroReached(s.fds, NoSlots, memory, rs, push, limit);
  }
}
