/**
 * src/redir.c: redirections that can be undone.
 *
 * A pushed redirection saves every descriptor it is about to change as a copy at 10 or above and
 * notes the copy's number in a frame; popping the frame moves the copies back.  A push without
 * redirections allocates no frame and only bumps a counter.
 *
 * The operating system appears as a descriptor table with a size limit, and each redirection
 * carries what the file system answers when it is performed.
 */
module Redirections {
  import opened Wrappers

  datatype Access = ReadOnly | WriteOnly | ReadWrite

  datatype Description = Description(id: nat, access: Access)

  type Table = map<nat, Description>

  type Digit = n: nat | n < 10

  /** A slot of `renamed`: EMPTY, CLOSED, or the number of the saved copy. */
  datatype Slot = Empty | Closed | Copy(at: nat)

  type Slots = s: seq<Slot> | |s| == 10 witness [Empty, Empty, Empty, Empty, Empty, Empty, Empty, Empty, Empty, Empty]

  const Digits: set<nat> := {0, 1, 2, 3, 4, 5, 6, 7, 8, 9}

  const NoSlots: Slots := [Empty, Empty, Empty, Empty, Empty, Empty, Empty, Empty, Empty, Empty]

  datatype Frame = Frame(renamed: Slots, fd0: bool, fd0Here: bool, emptyRedirs: nat)

  /** What opening the file does.  With noclobber a file that turns out to be regular is closed again. */
  datatype Opening = Opened(file: Description) | Refused | OpenedThenRefused(file: Description)

  /** How the text of a here-document gets into its pipe. */
  datatype Delivery = Buffered | Forked | ForkFailed

  datatype Redirection =
    | File(fd: Digit, opening: Opening)
    | Duplicate(fd: Digit, dupfd: Digit, input: bool)
    | Close(fd: Digit)
    | HereDoc(fd: Digit, text: Description, sink: Description, delivery: Delivery)

  /** `Leaked` is the error raised with both ends of a here-document's pipe still open. */
  datatype Outcome = Done | Failed | Leaked(readEnd: nat, writeEnd: nat)

  datatype State = State(fds: Table, redirlist: seq<Frame>, emptyRedirs: nat, fd0: bool, fd0Here: bool)

  // ---- The operating system ----

  /** The lowest descriptor from `from` on that is not open. */
  function LowestFree(fds: Table, from: nat): (n: nat)
    ensures from <= n && n !in fds
    ensures forall k :: from <= k < n ==> k in fds
  {
    LowestNotIn(fds.Keys, from)
  }

  // ---- What undoing a frame does ----

  predicate IsCopy(renamed: Slots, k: nat) {
    exists i: Digit :: renamed[i] == Copy(k)
  }

  /** What descriptor `k` is once the frame is undone, in terms of the table before. */
  function After(renamed: Slots, fds: Table, k: nat): Option<Description> {
    if k < 10 then
      match renamed[k]
      case Empty => At(fds, k)
      case Closed => None
      case Copy(at) => At(fds, at)
    else if IsCopy(renamed, k) then None
    else At(fds, k)
  }

  function At(fds: Table, k: nat): Option<Description> {
    if k in fds then Some(fds[k]) else None
  }

  function Restore(renamed: Slots, fds: Table): Table {
    map k: nat | k in fds.Keys + Digits && After(renamed, fds, k).Some? :: After(renamed, fds, k).value
  }

  lemma RestoreAt(renamed: Slots, fds: Table, k: nat)
    ensures At(Restore(renamed, fds), k) == After(renamed, fds, k)
  {
  }

  lemma SameTable(a: Table, b: Table)
    requires forall k: nat :: At(a, k) == At(b, k)
    ensures a == b
  {
    forall k: nat
      ensures k in a <==> k in b
      ensures k in a ==> a[k] == b[k]
    {
      assert At(a, k) == At(b, k);
    }
  }

  /** The copies are open, above 9 and all different. */
  ghost predicate FrameOk(renamed: Slots, fds: Table) {
    && (forall i: Digit :: renamed[i].Copy? ==> renamed[i].at >= 10 && renamed[i].at in fds)
    && (forall i: Digit, j: Digit :: i != j && renamed[i].Copy? && renamed[j].Copy? ==> renamed[i].at != renamed[j].at)
  }

  /** Every frame can be undone when its turn comes. */
  ghost predicate Sound(fds: Table, frames: seq<Frame>)
    decreases |frames|
  {
    frames == [] ||
    (FrameOk(frames[0].renamed, fds) && Sound(Restore(frames[0].renamed, fds), frames[1..]))
  }

  /** The state popredir leaves. */
  function Undo(s: State): State {
    if s.emptyRedirs > 0 then s.(emptyRedirs := s.emptyRedirs - 1)
    else if s.redirlist == [] then s
    else
      var f := s.redirlist[0];
      State(Restore(f.renamed, s.fds), s.redirlist[1..], f.emptyRedirs, f.fd0, f.fd0Here)
  }

  /** The number of pushes not yet popped. */
  function Depth(s: State): nat {
    s.emptyRedirs + FrameDepth(s.redirlist)
  }

  function FrameDepth(frames: seq<Frame>): nat {
    if frames == [] then 0 else 1 + frames[0].emptyRedirs + FrameDepth(frames[1..])
  }

  // ---- What redirecting does, without the temporary descriptors ----

  datatype Connection = Connection(fds: Table, memory: set<Digit>, outcome: Outcome)

  /** openredirect: descriptor `r.fd` gets its new content and nothing else changes, or an error is raised. */
  function Connect(fds: Table, r: Redirection, memory: set<Digit>, limit: nat): Connection {
    var mem := memory - {r.fd};
    match r
    case File(fd, opening) =>
      if !opening.Opened? || LowestFree(fds, 0) >= limit || fd >= limit
      then Connection(fds, mem, Failed)
      else Connection(fds[fd := opening.file], mem, Done)
    case Duplicate(fd, dupfd, input) =>
      if dupfd in mem then Connection(fds, mem + {fd}, Done)
      else if dupfd !in fds || fds[dupfd].access == (if input then WriteOnly else ReadOnly) || fd >= limit
      then Connection(fds, mem, Failed)
      else Connection(fds[fd := fds[dupfd]], mem, Done)
    case Close(fd) => Connection(fds - {fd}, mem, Done)
    case HereDoc(fd, text, sink, delivery) =>
      var a := LowestFree(fds, 0);
      var b := LowestFree(fds, a + 1);
      if b >= limit then Connection(fds, mem, Failed)
      else if delivery == ForkFailed then Connection(fds[a := text][b := sink], mem, Leaked(a, b))
      else if fd >= limit then Connection(fds, mem, Failed)
      else Connection(fds[fd := text], mem, Done)
  }

  datatype Saving = Saving(fds: Table, renamed: Slots, ok: bool)

  /** Saves descriptor `fd` unless the frame already has it. */
  function Save(fds: Table, renamed: Slots, fd: Digit, limit: nat): Saving {
    if renamed[fd] != Empty then Saving(fds, renamed, true)
    else if fd !in fds then Saving(fds, renamed[fd := Closed], true)
    else
      var at := LowestFree(fds, 10);
      if at >= limit then Saving(fds, renamed, false)
      else Saving(fds[at := fds[fd]], renamed[fd := Copy(at)], true)
  }

  predicate SameDescriptor(r: Redirection) {
    r.Duplicate? && r.dupfd == r.fd
  }

  datatype Progress = Progress(fds: Table, renamed: Slots, memory: set<Digit>, outcome: Outcome)

  /** One turn of redirect's loop; `renamed` is not used when `push` is not set. */
  function PerformOne(fds: Table, renamed: Slots, memory: set<Digit>, r: Redirection, push: bool, limit: nat): Progress {
    if SameDescriptor(r) then Progress(fds, renamed, memory, Done)
    else
      var sv := if push then Save(fds, renamed, r.fd, limit) else Saving(fds, renamed, true);
      if !sv.ok then Progress(sv.fds, sv.renamed, memory, Failed)
      else
        var c := Connect(sv.fds, r, memory, limit);
        Progress(c.fds, sv.renamed, c.memory, c.outcome)
  }

  /** The redirections in order up to the first error. */
  function Perform(fds: Table, renamed: Slots, memory: set<Digit>, rs: seq<Redirection>, push: bool, limit: nat): Progress
    decreases |rs|
  {
    if rs == [] then Progress(fds, renamed, memory, Done)
    else
      var p := PerformOne(fds, renamed, memory, rs[0], push, limit);
      if p.outcome != Done then p else Perform(p.fds, p.renamed, p.memory, rs[1..], push, limit)
  }

  /** Whether a redirection of descriptor 0 is reached. */
  predicate Reaches0(fds: Table, renamed: Slots, memory: set<Digit>, rs: seq<Redirection>, push: bool, limit: nat)
    decreases |rs|
  {
    rs != [] &&
    (rs[0].fd == 0 ||
     var p := PerformOne(fds, renamed, memory, rs[0], push, limit);
     p.outcome == Done && Reaches0(p.fds, p.renamed, p.memory, rs[1..], push, limit))
  }

  datatype Result = Result(state: State, memory: set<Digit>, outcome: Outcome)

  /** redirect as a whole. */
  function Redirected(s: State, rs: seq<Redirection>, push: bool, memory: set<Digit>, limit: nat): Result {
    if push && rs == [] then Result(s.(emptyRedirs := s.emptyRedirs + 1), memory, Done)
    else
      var p := Perform(s.fds, NoSlots, memory, rs, push, limit);
      var zero := Reaches0(s.fds, NoSlots, memory, rs, push, limit);
      var frames := if push then [Frame(p.renamed, s.fd0, s.fd0Here, s.emptyRedirs)] + s.redirlist else s.redirlist;
      Result(State(p.fds, frames, if push then 0 else s.emptyRedirs, s.fd0 || zero,
                   s.fd0Here || (push && zero && p.outcome == Done)), p.memory, p.outcome)
  }

  // ---- One push and its pop ----

  lemma CopyIntoSlot(renamed: Slots, fd: Digit, slot: Slot, k: nat)
    requires renamed[fd] == Empty
    ensures IsCopy(renamed[fd := slot], k) <==> IsCopy(renamed, k) || slot == Copy(k)
  {
    if IsCopy(renamed, k) {
      var i: Digit :| renamed[i] == Copy(k);
      assert renamed[fd := slot][i] == Copy(k);
    }
    if slot == Copy(k) {
      assert renamed[fd := slot][fd] == Copy(k);
    }
  }

  lemma SaveKeepsRestore(fds: Table, renamed: Slots, fd: Digit, limit: nat)
    requires FrameOk(renamed, fds)
    ensures var sv := Save(fds, renamed, fd, limit);
      && FrameOk(sv.renamed, sv.fds)
      && (sv.ok ==> sv.renamed[fd] != Empty)
      && Restore(sv.renamed, sv.fds) == Restore(renamed, fds)
  {
    hide Restore;
    var sv := Save(fds, renamed, fd, limit);
    forall k: nat
      ensures At(Restore(sv.renamed, sv.fds), k) == At(Restore(renamed, fds), k)
    {
      RestoreAt(sv.renamed, sv.fds, k);
      RestoreAt(renamed, fds, k);
      if renamed[fd] == Empty {
        CopyIntoSlot(renamed, fd, sv.renamed[fd], k);
      }
    }
    SameTable(Restore(sv.renamed, sv.fds), Restore(renamed, fds));
  }

  /** A descriptor that the frame has saved may change freely. */
  lemma ChangeKeepsRestore(fds: Table, fds': Table, renamed: Slots, fd: Digit)
    requires FrameOk(renamed, fds) && renamed[fd] != Empty
    requires forall k: nat :: k != fd ==> At(fds, k) == At(fds', k)
    ensures FrameOk(renamed, fds') && Restore(renamed, fds') == Restore(renamed, fds)
  {
    hide Restore;
    forall i: Digit | renamed[i].Copy?
      ensures renamed[i].at in fds'
    {
      assert At(fds, renamed[i].at) == At(fds', renamed[i].at);
    }
    forall k: nat
      ensures At(Restore(renamed, fds'), k) == At(Restore(renamed, fds), k)
    {
      RestoreAt(renamed, fds', k);
      RestoreAt(renamed, fds, k);
    }
    SameTable(Restore(renamed, fds'), Restore(renamed, fds));
  }

  /** The leaked pipe ends that undoing the frame does not close. */
  function Escaped(renamed: Slots, fds: Table, r: Outcome): Table
    requires r.Leaked?
  {
    map k: nat | k in {r.readEnd, r.writeEnd} && k in fds && (k >= 10 || renamed[k] == Empty) :: fds[k]
  }

  function Leak(renamed: Slots, fds: Table, r: Outcome, before: Table): Table {
    if r.Leaked? then before + Escaped(renamed, fds, r) else before
  }

  lemma LeakRestore(fds: Table, renamed: Slots, r: Redirection, memory: set<Digit>, limit: nat)
    requires FrameOk(renamed, fds)
    requires Connect(fds, r, memory, limit).outcome.Leaked?
    ensures var c := Connect(fds, r, memory, limit);
      FrameOk(renamed, c.fds) && Restore(renamed, c.fds) == Leak(renamed, c.fds, c.outcome, Restore(renamed, fds))
  {
    hide Restore, Leak, FrameOk;
    var c := Connect(fds, r, memory, limit);
    LeakRestoreOf(fds, renamed, c.outcome.readEnd, r.text, c.outcome.writeEnd, r.sink);
  }

  lemma LeakRestoreOf(fds: Table, renamed: Slots, a: nat, text: Description, b: nat, sink: Description)
    requires FrameOk(renamed, fds) && a !in fds && b !in fds
    ensures var fds' := fds[a := text][b := sink];
      FrameOk(renamed, fds') && Restore(renamed, fds') == Leak(renamed, fds', Leaked(a, b), Restore(renamed, fds))
  {
    hide Restore;
    var fds' := fds[a := text][b := sink];
    assert forall i: Digit :: renamed[i] != Copy(a) && renamed[i] != Copy(b);
    assert !IsCopy(renamed, a) && !IsCopy(renamed, b);
    var l := Leak(renamed, fds', Leaked(a, b), Restore(renamed, fds));
    forall k: nat
      ensures At(Restore(renamed, fds'), k) == At(l, k)
    {
      RestoreAt(renamed, fds', k);
      RestoreAt(renamed, fds, k);
    }
    SameTable(Restore(renamed, fds'), l);
  }

  lemma PerformOneKeepsRestore(fds: Table, renamed: Slots, memory: set<Digit>, r: Redirection, limit: nat)
    requires FrameOk(renamed, fds)
    ensures var p := PerformOne(fds, renamed, memory, r, true, limit);
      FrameOk(p.renamed, p.fds) && Restore(p.renamed, p.fds) == Leak(p.renamed, p.fds, p.outcome, Restore(renamed, fds))
  {
    hide Restore, FrameOk, Save, Connect;
    if !SameDescriptor(r) {
      var sv := Save(fds, renamed, r.fd, limit);
      SaveKeepsRestore(fds, renamed, r.fd, limit);
      var c := Connect(sv.fds, r, memory, limit);
      if sv.ok && c.outcome.Leaked? {
        LeakRestore(sv.fds, sv.renamed, r, memory, limit);
      } else if sv.ok {
        ConnectChangesOne(sv.fds, r, memory, limit);
        ChangeKeepsRestore(sv.fds, c.fds, sv.renamed, r.fd);
      }
    }
  }

  /** Saving first and changing after keeps what undoing the frame will give back. */
  lemma {:induction false} PerformKeepsRestore(fds: Table, renamed: Slots, memory: set<Digit>, rs: seq<Redirection>, limit: nat)
    requires FrameOk(renamed, fds)
    ensures var p := Perform(fds, renamed, memory, rs, true, limit);
      FrameOk(p.renamed, p.fds) && Restore(p.renamed, p.fds) == Leak(p.renamed, p.fds, p.outcome, Restore(renamed, fds))
    decreases |rs|
  {
    hide Restore, FrameOk, PerformOne;
    if rs != [] {
      var p := PerformOne(fds, renamed, memory, rs[0], true, limit);
      PerformOneKeepsRestore(fds, renamed, memory, rs[0], limit);
      if p.outcome == Done {
        PerformKeepsRestore(p.fds, p.renamed, p.memory, rs[1..], limit);
      }
    }
  }

  lemma ConnectChangesOne(fds: Table, r: Redirection, memory: set<Digit>, limit: nat)
    requires !Connect(fds, r, memory, limit).outcome.Leaked?
    ensures var fds' := Connect(fds, r, memory, limit).fds;
      forall k: nat :: k != r.fd ==> At(fds, k) == At(fds', k)
  {
  }

  lemma NothingSaved(fds: Table)
    ensures FrameOk(NoSlots, fds) && Restore(NoSlots, fds) == fds
  {
    hide Restore;
    assert forall i: Digit :: NoSlots[i] == Empty;
    forall k: nat
      ensures At(Restore(NoSlots, fds), k) == At(fds, k)
    {
      RestoreAt(NoSlots, fds, k);
    }
    SameTable(Restore(NoSlots, fds), fds);
  }

  /** A here-document whose pipe fits and whose fork fails. */
  predicate ForkFailsWithPipe(fds: Table, r: Redirection, limit: nat) {
    r.HereDoc? && r.delivery == ForkFailed && LowestFree(fds, LowestFree(fds, 0) + 1) < limit
  }

  /**
   * The push comes to such a here-document, and an end of its pipe, which takes the two lowest free
   * descriptors, is none of those redirected so far (`seen`).
   */
  predicate PipeEscapes(fds: Table, renamed: Slots, memory: set<Digit>, seen: set<nat>, rs: seq<Redirection>, limit: nat)
    decreases |rs|
  {
    rs != [] &&
    if SameDescriptor(rs[0]) then PipeEscapes(fds, renamed, memory, seen, rs[1..], limit)
    else
      var sv, now := Save(fds, renamed, rs[0].fd, limit), seen + {rs[0].fd};
      sv.ok &&
      if ForkFailsWithPipe(sv.fds, rs[0], limit) then
        var a := LowestFree(sv.fds, 0);
        a !in now || LowestFree(sv.fds, a + 1) !in now
      else
        var c := Connect(sv.fds, rs[0], memory, limit);
        c.outcome == Done && PipeEscapes(c.fds, sv.renamed, c.memory, now, rs[1..], limit)
  }

  predicate IsSaved(renamed: Slots, k: nat) {
    k < 10 && renamed[k] != Empty
  }

  lemma {:induction false} EscapesUnsaved(fds: Table, renamed: Slots, memory: set<Digit>, seen: set<nat>, rs: seq<Redirection>, limit: nat)
    requires forall k: nat :: k in seen <==> IsSaved(renamed, k)
    ensures var p := Perform(fds, renamed, memory, rs, true, limit);
      PipeEscapes(fds, renamed, memory, seen, rs, limit)
      <==> p.outcome.Leaked? && !(IsSaved(p.renamed, p.outcome.readEnd) && IsSaved(p.renamed, p.outcome.writeEnd))
    decreases |rs|
  {
    hide LowestFree, At;
    if rs != [] {
      var p := PerformOne(fds, renamed, memory, rs[0], true, limit);
      if SameDescriptor(rs[0]) {
        EscapesUnsaved(fds, renamed, memory, seen, rs[1..], limit);
      } else {
        var sv := Save(fds, renamed, rs[0].fd, limit);
        if sv.ok {
          assert forall k: nat :: k in seen + {rs[0].fd} <==> IsSaved(sv.renamed, k);
          if p.outcome == Done {
            EscapesUnsaved(p.fds, p.renamed, p.memory, seen + {rs[0].fd}, rs[1..], limit);
          }
        }
      }
    }
  }

  /**
   * A pop after a push gives back the whole earlier state, at whatever redirection the push failed.
   * The one exception is a here-document whose fork fails with the pipe open and not all covered.
   */
  lemma PopUndoesPush(s: State, rs: seq<Redirection>, memory: set<Digit>, limit: nat)
    ensures Undo(Redirected(s, rs, true, memory, limit).state) == s <==> !PipeEscapes(s.fds, NoSlots, memory, {}, rs, limit)
    ensures PipeEscapes(s.fds, NoSlots, memory, {}, rs, limit) ==> Redirected(s, rs, true, memory, limit).outcome.Leaked?
  {
    hide Restore, FrameOk, Perform, Escaped, PipeEscapes;
    EscapesUnsaved(s.fds, NoSlots, memory, {}, rs, limit);
    PerformNothing(s.fds, NoSlots, memory, true, limit);
    if rs != [] {
      var p := Perform(s.fds, NoSlots, memory, rs, true, limit);
      NothingSaved(s.fds);
      PerformKeepsRestore(s.fds, NoSlots, memory, rs, limit);
      var r := Redirected(s, rs, true, memory, limit);
      assert r.state.redirlist[1..] == s.redirlist;
      assert Undo(r.state) == s.(fds := Leak(p.renamed, p.fds, p.outcome, s.fds));
      if p.outcome.Leaked? {
        PerformLeaks(s.fds, NoSlots, memory, rs, limit);
        EscapedShows(p.renamed, p.fds, p.outcome, s.fds);
      }
    }
  }

  /** The leaked ends are open, and were closed when their pipe was made. */
  lemma {:induction false} PerformLeaks(fds: Table, renamed: Slots, memory: set<Digit>, rs: seq<Redirection>, limit: nat)
    requires Perform(fds, renamed, memory, rs, true, limit).outcome.Leaked?
    requires FrameOk(renamed, fds)
    ensures var p := Perform(fds, renamed, memory, rs, true, limit);
      && p.outcome.readEnd in p.fds && p.outcome.writeEnd in p.fds
      && (forall k: nat :: (k == p.outcome.readEnd || k == p.outcome.writeEnd) && (k >= 10 || p.renamed[k] == Empty) ==>
            k !in Restore(renamed, fds))
    decreases |rs|
  {
    hide Restore;
    var p := PerformOne(fds, renamed, memory, rs[0], true, limit);
    PerformOneKeepsRestore(fds, renamed, memory, rs[0], limit);
    if p.outcome.Leaked? {
      var sv := Save(fds, renamed, rs[0].fd, limit);
      SaveKeepsRestore(fds, renamed, rs[0].fd, limit);
      forall k: nat | (k == p.outcome.readEnd || k == p.outcome.writeEnd) && (k >= 10 || sv.renamed[k] == Empty)
        ensures k !in Restore(renamed, fds)
      {
        RestoreAt(sv.renamed, sv.fds, k);
        assert k !in sv.fds;
      }
    } else {
      PerformLeaks(p.fds, p.renamed, p.memory, rs[1..], limit);
    }
  }

  lemma EscapedShows(renamed: Slots, fds: Table, r: Outcome, before: Table)
    requires r.Leaked? && r.readEnd in fds && r.writeEnd in fds
    requires forall k: nat :: (k == r.readEnd || k == r.writeEnd) && (k >= 10 || renamed[k] == Empty) ==> k !in before
    ensures before + Escaped(renamed, fds, r) == before <==>
            r.readEnd < 10 && renamed[r.readEnd] != Empty && r.writeEnd < 10 && renamed[r.writeEnd] != Empty
  {
    var e := Escaped(renamed, fds, r);
    if r.readEnd >= 10 || renamed[r.readEnd] == Empty {
      assert r.readEnd in e && r.readEnd !in before;
      assert r.readEnd in before + e;
    } else if r.writeEnd >= 10 || renamed[r.writeEnd] == Empty {
      assert r.writeEnd in e && r.writeEnd !in before;
      assert r.writeEnd in before + e;
    } else {
      assert e == map[];
      assert before + e == before;
    }
  }

  /** The exception is real: with 0, 1 and 2 open, a failing fork leaves 3 and 4 open after the pop. */
  lemma FailedForkLeaksPipe(d: Description)
    ensures var s := State(map[0 := d, 1 := d, 2 := d], [], 0, false, false);
            var r := Redirected(s, [HereDoc(0, d, d, ForkFailed)], true, {}, 64);
            r.outcome == Leaked(3, 4) && 3 in Undo(r.state).fds && 4 in Undo(r.state).fds
  {
    hide Restore;
    var s := State(map[0 := d, 1 := d, 2 := d], [], 0, false, false);
    var h := HereDoc(0, d, d, ForkFailed);
    assert LowestFree(s.fds, 10) == 10;
    var sv := Save(s.fds, NoSlots, 0, 64);
    assert sv == Saving(s.fds[10 := d], NoSlots[0 := Copy(10)], true);
    assert 0 in sv.fds && 1 in sv.fds && 2 in sv.fds && 3 !in sv.fds;
    assert LowestFree(sv.fds, 0) == 3;
    assert LowestFree(sv.fds, 4) == 4;
    var c := Connect(sv.fds, h, {}, 64);
    assert c.outcome == Leaked(3, 4);
    var r := Redirected(s, [h], true, {}, 64);
    assert PerformOne(s.fds, NoSlots, {}, h, true, 64) == Progress(c.fds, sv.renamed, c.memory, c.outcome);
    RestoreAt(sv.renamed, c.fds, 3);
    RestoreAt(sv.renamed, c.fds, 4);
  }

  // ---- What is visible of a redirection ----

  datatype Plain = Plain(fds: Table, memory: set<Digit>)

  /** One redirection on a table with no size limit, no saving and no temporary descriptors. */
  function IntendedOne(v: Plain, r: Redirection): Plain {
    var mem := v.memory - {r.fd};
    match r
    case File(fd, opening) => if opening.Opened? then Plain(v.fds[fd := opening.file], mem) else v
    case Duplicate(fd, dupfd, _) =>
      if fd == dupfd then v
      else if dupfd in mem then Plain(v.fds, mem + {fd})
      else if dupfd in v.fds then Plain(v.fds[fd := v.fds[dupfd]], mem)
      else v
    case Close(fd) => Plain(v.fds - {fd}, mem)
    case HereDoc(fd, text, _, _) => Plain(v.fds[fd := text], mem)
  }

  function Intended(v: Plain, rs: seq<Redirection>): Plain
    decreases |rs|
  {
    if rs == [] then v else Intended(IntendedOne(v, rs[0]), rs[1..])
  }

  ghost predicate SameLow(a: Table, b: Table) {
    forall k: nat :: k < 10 ==> At(a, k) == At(b, k)
  }

  /** Descriptors 0 to 9 end exactly as the redirections say, read from left to right. */
  lemma {:induction false} RedirectionsTakeEffect(
      fds: Table, renamed: Slots, memory: set<Digit>, rs: seq<Redirection>, push: bool, limit: nat, v: Table)
    requires SameLow(fds, v)
    requires Perform(fds, renamed, memory, rs, push, limit).outcome == Done
    ensures var p := Perform(fds, renamed, memory, rs, push, limit);
            var w := Intended(Plain(v, memory), rs);
            SameLow(p.fds, w.fds) && p.memory == w.memory
    decreases |rs|
  {
    if rs != [] {
      var r := rs[0];
      var p := PerformOne(fds, renamed, memory, r, push, limit);
      var next := IntendedOne(Plain(v, memory), r);
      if !SameDescriptor(r) {
        var sv := if push then Save(fds, renamed, r.fd, limit) else Saving(fds, renamed, true);
        assert SameLow(sv.fds, v);
        ConnectIsIntended(sv.fds, r, memory, limit, v);
      }
      RedirectionsTakeEffect(p.fds, p.renamed, p.memory, rs[1..], push, limit, next.fds);
    }
  }

  lemma ConnectIsIntended(fds: Table, r: Redirection, memory: set<Digit>, limit: nat, v: Table)
    requires SameLow(fds, v) && !SameDescriptor(r)
    requires Connect(fds, r, memory, limit).outcome == Done
    ensures var c := Connect(fds, r, memory, limit);
            var w := IntendedOne(Plain(v, memory), r);
            SameLow(c.fds, w.fds) && c.memory == w.memory
  {
    if r.Duplicate? {
      assert At(fds, r.dupfd) == At(v, r.dupfd);
    }
    var c := Connect(fds, r, memory, limit);
    var w := IntendedOne(Plain(v, memory), r);
    forall k: nat | k < 10
      ensures At(c.fds, k) == At(w.fds, k)
    {
      assert At(fds, k) == At(v, k);
    }
  }

  // ---- Descriptors from 10 on ----

  /** Every descriptor from 10 on that is open in `a` is the same in `b`. */
  ghost predicate KeepsHigh(a: Table, b: Table) {
    forall k: nat :: k >= 10 && k in a ==> At(a, k) == At(b, k)
  }

  lemma {:induction false} SoundGrows(a: Table, b: Table, frames: seq<Frame>)
    requires KeepsHigh(a, b) && Sound(a, frames)
    ensures Sound(b, frames)
    decreases |frames|
  {
    hide Restore;
    if frames != [] {
      var renamed := frames[0].renamed;
      assert FrameOk(renamed, b) by {
        forall i: Digit | renamed[i].Copy?
          ensures renamed[i].at in b
        {
          assert At(a, renamed[i].at) == At(b, renamed[i].at);
        }
      }
      forall k: nat | k >= 10 && k in Restore(renamed, a)
        ensures At(Restore(renamed, a), k) == At(Restore(renamed, b), k)
      {
        RestoreAt(renamed, a, k);
        RestoreAt(renamed, b, k);
      }
      SoundGrows(Restore(renamed, a), Restore(renamed, b), frames[1..]);
    }
  }

  lemma {:induction false} PerformKeepsHigh(fds: Table, renamed: Slots, memory: set<Digit>, rs: seq<Redirection>, push: bool, limit: nat)
    ensures KeepsHigh(fds, Perform(fds, renamed, memory, rs, push, limit).fds)
    decreases |rs|
  {
    if rs != [] {
      var p := PerformOne(fds, renamed, memory, rs[0], push, limit);
      if !SameDescriptor(rs[0]) {
        var sv := if push then Save(fds, renamed, rs[0].fd, limit) else Saving(fds, renamed, true);
        assert KeepsHigh(fds, sv.fds);
        assert sv.ok ==> KeepsHigh(sv.fds, p.fds);
      }
      PerformKeepsHigh(p.fds, p.renamed, p.memory, rs[1..], push, limit);
    }
  }

  /** No redirection, pushed or not, failed or not, spoils a frame that is still to be popped. */
  lemma RedirectKeepsSound(s: State, rs: seq<Redirection>, push: bool, memory: set<Digit>, limit: nat)
    requires Sound(s.fds, s.redirlist)
    ensures var t := Redirected(s, rs, push, memory, limit).state; Sound(t.fds, t.redirlist)
  {
    hide Restore, FrameOk, Perform, Escaped;
    if !(push && rs == []) {
      var p := Perform(s.fds, NoSlots, memory, rs, push, limit);
      if push {
        NothingSaved(s.fds);
        PerformKeepsRestore(s.fds, NoSlots, memory, rs, limit);
        EscapedKeepsHigh(p, s.fds, memory, rs, limit);
        SoundGrows(s.fds, Restore(p.renamed, p.fds), s.redirlist);
        var t := Redirected(s, rs, push, memory, limit).state;
        assert t.redirlist[1..] == s.redirlist;
      } else {
        PerformKeepsHigh(s.fds, NoSlots, memory, rs, push, limit);
        SoundGrows(s.fds, p.fds, s.redirlist);
      }
    }
  }

  lemma EscapedKeepsHigh(p: Progress, fds: Table, memory: set<Digit>, rs: seq<Redirection>, limit: nat)
    requires p == Perform(fds, NoSlots, memory, rs, true, limit)
    ensures KeepsHigh(fds, Leak(p.renamed, p.fds, p.outcome, fds))
  {
    hide Perform, Restore;
    PerformKeepsHigh(fds, NoSlots, memory, rs, true, limit);
  }

  // ---- Runs ----

  datatype Op = Push(rs: seq<Redirection>, memory: set<Digit>) | Pop

  predicate ForksSucceed(rs: seq<Redirection>) {
    forall r :: r in rs && r.HereDoc? ==> r.delivery != ForkFailed
  }

  /** Every pop has a push before it. */
  predicate Balanced(ops: seq<Op>, depth: nat)
    decreases |ops|
  {
    ops == [] ||
    match ops[0]
    case Push(rs, _) => Balanced(ops[1..], depth + 1)
    case Pop => depth > 0 && Balanced(ops[1..], depth - 1)
  }

  /** No push of the run lets a pipe escape. */
  predicate Tight(s: State, ops: seq<Op>, limit: nat)
    decreases |ops|
  {
    ops == [] ||
    match ops[0]
    case Push(rs, memory) =>
      !PipeEscapes(s.fds, NoSlots, memory, {}, rs, limit) && Tight(Redirected(s, rs, true, memory, limit).state, ops[1..], limit)
    case Pop => Tight(Undo(s), ops[1..], limit)
  }

  /** The shell's descriptors over a run of pushes and pops. */
  function Run(s: State, ops: seq<Op>, limit: nat): State
    decreases |ops|
  {
    if ops == [] then s
    else
      match ops[0]
      case Push(rs, memory) => Run(Redirected(s, rs, true, memory, limit).state, ops[1..], limit)
      case Pop => Run(Undo(s), ops[1..], limit)
  }

  /** The plain stack: a push keeps the whole state, a pop takes it back. */
  function PlainRun(s: State, kept: seq<State>, ops: seq<Op>, limit: nat): State
    requires Balanced(ops, |kept|)
    decreases |ops|
  {
    if ops == [] then s
    else
      match ops[0]
      case Push(rs, memory) => PlainRun(Redirected(s, rs, true, memory, limit).state, [s] + kept, ops[1..], limit)
      case Pop => PlainRun(kept[0], kept[1..], ops[1..], limit)
  }

  ghost predicate Stacked(s: State, kept: seq<State>)
    decreases |kept|
  {
    kept == [] || (Undo(s) == kept[0] && Stacked(kept[0], kept[1..]))
  }

  /** When all forks succeed the run is tight. */
  lemma {:induction false} SucceedingForksAreTight(s: State, ops: seq<Op>, limit: nat)
    requires forall i :: 0 <= i < |ops| && ops[i].Push? ==> ForksSucceed(ops[i].rs)
    ensures Tight(s, ops, limit)
    decreases |ops|
  {
    hide Redirected, Undo, PipeEscapes, ForksSucceed;
    if ops != [] {
      match ops[0]
      case Push(rs, memory) =>
        NeverEscapes(s.fds, NoSlots, memory, {}, rs, limit);
        SucceedingForksAreTight(Redirected(s, rs, true, memory, limit).state, ops[1..], limit);
      case Pop =>
        SucceedingForksAreTight(Undo(s), ops[1..], limit);
    }
  }

  lemma {:induction false} NeverEscapes(fds: Table, renamed: Slots, memory: set<Digit>, seen: set<nat>, rs: seq<Redirection>, limit: nat)
    requires ForksSucceed(rs)
    ensures !PipeEscapes(fds, renamed, memory, seen, rs, limit)
    decreases |rs|
  {
    if rs != [] {
      assert rs[0] in rs;
      if SameDescriptor(rs[0]) {
        NeverEscapes(fds, renamed, memory, seen, rs[1..], limit);
      } else {
        var sv := Save(fds, renamed, rs[0].fd, limit);
        var c := Connect(sv.fds, rs[0], memory, limit);
        NeverEscapes(c.fds, sv.renamed, c.memory, seen + {rs[0].fd}, rs[1..], limit);
      }
    }
  }

  /** Frames, saved copies and the counter of empty frames refine a stack of whole states. */
  lemma {:induction false} RunIsPlainRun(s: State, kept: seq<State>, ops: seq<Op>, limit: nat)
    requires Stacked(s, kept) && Balanced(ops, |kept|) && Tight(s, ops, limit)
    ensures Run(s, ops, limit) == PlainRun(s, kept, ops, limit)
    decreases |ops|
  {
    hide Redirected, Undo;
    if ops != [] {
      match ops[0]
      case Push(rs, memory) =>
        var r := Redirected(s, rs, true, memory, limit);
        PopUndoesPush(s, rs, memory, limit);
        assert ([s] + kept)[1..] == kept;
        RunIsPlainRun(r.state, [s] + kept, ops[1..], limit);
      case Pop =>
        RunIsPlainRun(kept[0], kept[1..], ops[1..], limit);
    }
  }

  /** The number of pushes without a pop after the run. */
  function Open(ops: seq<Op>, depth: nat): nat
    requires Balanced(ops, depth)
    decreases |ops|
  {
    if ops == [] then depth
    else if ops[0].Push? then Open(ops[1..], depth + 1)
    else Open(ops[1..], depth - 1)
  }

  /** The counter stands for exactly the frames that were not allocated. */
  lemma {:induction false} RunDepth(s: State, ops: seq<Op>, limit: nat)
    requires Balanced(ops, Depth(s))
    ensures Depth(Run(s, ops, limit)) == Open(ops, Depth(s))
    decreases |ops|
  {
    hide Perform, Reaches0, Restore;
    if ops != [] {
      match ops[0]
      case Push(rs, memory) =>
        var r := Redirected(s, rs, true, memory, limit);
        assert rs != [] ==> r.state.redirlist[1..] == s.redirlist;
        RunDepth(r.state, ops[1..], limit);
      case Pop =>
        RunDepth(Undo(s), ops[1..], limit);
    }
  }

  lemma {:induction false} PlainRunCloses(s: State, kept: seq<State>, ops: seq<Op>, limit: nat)
    requires Balanced(ops, |kept|) && Open(ops, |kept|) == 0
    ensures PlainRun(s, kept, ops, limit) == ([s] + kept)[|kept|]
    decreases |ops|
  {
    hide Redirected;
    if ops != [] {
      match ops[0]
      case Push(rs, memory) =>
        PlainRunCloses(Redirected(s, rs, true, memory, limit).state, [s] + kept, ops[1..], limit);
      case Pop =>
        PlainRunCloses(kept[0], kept[1..], ops[1..], limit);
    }
  }

  /** A run in which every push is popped changes no descriptor, flag or frame. */
  lemma BracketedRunRestores(s: State, ops: seq<Op>, limit: nat)
    requires Balanced(ops, 0) && Open(ops, 0) == 0 && Tight(s, ops, limit)
    ensures Run(s, ops, limit) == s
  {
    RunIsPlainRun(s, [], ops, limit);
    PlainRunCloses(s, [], ops, limit);
  }

  // ---- The code ----

  function FirstSlots(renamed: Slots, n: nat): (r: Slots)
    requires n <= 10
    ensures forall k :: 0 <= k < 10 ==> r[k] == if k < n then renamed[k] else Empty
  {
    renamed[..n] + NoSlots[n..]
  }

  lemma RedirectedIsKept(s: State, rs: seq<Redirection>, push: bool, memory: set<Digit>, limit: nat)
    ensures var r := Redirected(s, rs, push, memory, limit);
      && (push ==> (Undo(r.state) == s <==> !PipeEscapes(s.fds, NoSlots, memory, {}, rs, limit)))
      && (Sound(s.fds, s.redirlist) ==> Sound(r.state.fds, r.state.redirlist))
  {
    hide Restore, FrameOk, Perform, Undo, Sound, Redirected, PipeEscapes;
    if push {
      PopUndoesPush(s, rs, memory, limit);
    }
    if Sound(s.fds, s.redirlist) {
      RedirectKeepsSound(s, rs, push, memory, limit);
    }
  }

  lemma PerformNothing(fds: Table, renamed: Slots, memory: set<Digit>, push: bool, limit: nat)
    ensures Perform(fds, renamed, memory, [], push, limit) == Progress(fds, renamed, memory, Done)
    ensures !Reaches0(fds, renamed, memory, [], push, limit)
  {
  }

  /** The state of redirect's fields when the loop has made `p` of the redirections. */
  lemma RedirectedIs(s: State, rs: seq<Redirection>, push: bool, memory: set<Digit>, limit: nat, p: Progress, zero: bool, t: State)
    requires p == Perform(s.fds, NoSlots, memory, rs, push, limit)
    requires zero == Reaches0(s.fds, NoSlots, memory, rs, push, limit)
    requires t.fds == p.fds && t.fd0 == (s.fd0 || zero) && t.fd0Here == (s.fd0Here || (push && zero && p.outcome == Done))
    requires t.emptyRedirs == if !push then s.emptyRedirs else if rs == [] then s.emptyRedirs + 1 else 0
    requires t.redirlist == if push && rs != [] then [Frame(p.renamed, s.fd0, s.fd0Here, s.emptyRedirs)] + s.redirlist else s.redirlist
    ensures Redirected(s, rs, push, memory, limit) == Result(t, p.memory, p.outcome)
  {
    hide Restore, FrameOk, Sound, Undo;
    if rs == [] {
      PerformNothing(s.fds, NoSlots, memory, push, limit);
    }
    hide Perform, Reaches0;
  }

  class Redirector {
    const limit: nat
    var fds: Table
    var redirlist: seq<Frame>
    var emptyRedirs: nat
    var fd0Redirected: bool
    var fd0RedirectedHere: bool
    var out1InMemory: bool
    var out2InMemory: bool

    function Now(): State
      reads this
    {
      State(fds, redirlist, emptyRedirs, fd0Redirected, fd0RedirectedHere)
    }

    /** Moves descriptor `from` to `to`. */
    method Move(from: nat, to: nat)
      requires from in fds && from != to
      modifies this`fds
      ensures fds == old(fds)[to := old(fds)[from]] - {from}
    {
      fds := fds[to := fds[from]];
      fds := fds - {from};
    }

    method OpenHere(r: Redirection) returns (f: nat, outcome: Outcome)
      requires r.HereDoc?
      modifies this`fds
      ensures var a := LowestFree(old(fds), 0);
              var b := LowestFree(old(fds), a + 1);
        if b >= limit then outcome == Failed && fds == old(fds)
        else if r.delivery == ForkFailed then outcome == Leaked(a, b) && fds == old(fds)[a := r.text][b := r.sink]
        else outcome == Done && f == a && f < limit && fds == old(fds)[a := r.text]
    {
      var a := LowestFree(fds, 0);
      var b := LowestFree(fds, a + 1);
      f := a;
      if b >= limit {
        return f, Failed;
      }
      fds := fds[a := r.text][b := r.sink];
      if r.delivery == ForkFailed {
        return f, Leaked(a, b);
      }
      fds := fds - {b};
      outcome := Done;
    }

    method OpenRedirect(r: Redirection, memory: set<Digit>) returns (mem: set<Digit>, outcome: Outcome)
      requires !SameDescriptor(r)
      modifies this`fds
      ensures Connection(fds, mem, outcome) == Connect(old(fds), r, memory, limit)
    {
      mem := memory - {r.fd};
      outcome := Done;
      var f := 0;
      match r {
        case File(fd, opening) =>
          f := LowestFree(fds, 0);
          if opening.Refused? || f >= limit {
            return mem, Failed;
          }
          fds := fds[f := opening.file];
          if opening.OpenedThenRefused? {
            fds := fds - {f};
            assert fds == old(fds);
            return mem, Failed;
          }
        case Duplicate(fd, dupfd, input) =>
          if dupfd in mem {
            mem := mem + {fd};
          } else if dupfd !in fds || fds[dupfd].access == (if input then WriteOnly else ReadOnly) || fd >= limit {
            outcome := Failed;
          } else {
            fds := fds[fd := fds[dupfd]];
          }
          return;
        case Close(fd) =>
          fds := fds - {fd};
          return;
        case HereDoc(_, _, _, _) =>
          f, outcome := OpenHere(r);
          if outcome != Done {
            return;
          }
      }
      if f != r.fd {
        if r.fd >= limit {
          fds := fds - {f};
          assert fds == old(fds);
          return mem, Failed;
        }
        Move(f, r.fd);
      }
    }

    /** The F_DUPFD_CLOEXEC call of redirect, for the topmost frame. */
    method SaveDescriptor(fd: Digit) returns (ok: bool)
      requires redirlist != []
      modifies this`fds, this`redirlist
      ensures var top := old(redirlist)[0];
        var sv := Save(old(fds), top.renamed, fd, limit);
        ok == sv.ok && fds == sv.fds && redirlist == [top.(renamed := sv.renamed)] + old(redirlist)[1..]
    {
      var top := redirlist[0];
      ok := true;
      if top.renamed[fd] == Empty {
        var slot := Closed;
        if fd in fds {
          var at := LowestFree(fds, 10);
          if at >= limit {
            return false;
          }
          fds := fds[at := fds[fd]];
          slot := Copy(at);
        }
        redirlist := [top.(renamed := top.renamed[fd := slot])] + redirlist[1..];
      }
    }

    /** One turn of the loop; `top` is the frame a push fills in. */
    method RedirectOne(r: Redirection, push: bool, memory: set<Digit>, ghost top: Slots)
      returns (mem: set<Digit>, outcome: Outcome, ghost top': Slots)
      requires push ==> redirlist != [] && redirlist[0].renamed == top
      modifies this`fds, this`redirlist
      ensures Progress(fds, top', mem, outcome) == PerformOne(old(fds), top, memory, r, push, limit)
      ensures redirlist == if push then [old(redirlist)[0].(renamed := top')] + old(redirlist)[1..] else old(redirlist)
    {
      hide Connect, Save;
      mem, outcome, top' := memory, Done, top;
      if SameDescriptor(r) {
        return;
      }
      if push {
        var ok := SaveDescriptor(r.fd);
        top' := redirlist[0].renamed;
        if !ok {
          outcome := Failed;
          return;
        }
      }
      mem, outcome := OpenRedirect(r, memory);
    }

    /** The loop of redirect. */
    method RedirectAll(rs: seq<Redirection>, push: bool, memory: set<Digit>, ghost top: Slots)
      returns (mem: set<Digit>, outcome: Outcome, redirectedFd0: bool, ghost top': Slots)
      requires push && rs != [] ==> redirlist != [] && redirlist[0].renamed == top
      modifies this`fds, this`redirlist, this`fd0Redirected
      ensures Progress(fds, top', mem, outcome) == Perform(old(fds), top, memory, rs, push, limit)
      ensures redirectedFd0 == Reaches0(old(fds), top, memory, rs, push, limit)
      ensures fd0Redirected == (old(fd0Redirected) || redirectedFd0)
      ensures redirlist == if push && rs != [] then [old(redirlist)[0].(renamed := top')] + old(redirlist)[1..] else old(redirlist)
    {
      hide PerformOne;
      mem, outcome, redirectedFd0, top' := memory, Done, false, top;
      var i := 0;
      while i < |rs| && outcome == Done
        invariant 0 <= i <= |rs|
        invariant redirlist == if push && rs != [] then [old(redirlist)[0].(renamed := top')] + old(redirlist)[1..] else old(redirlist)
        invariant fd0Redirected == (old(fd0Redirected) || redirectedFd0)
        invariant Perform(old(fds), top, memory, rs, push, limit) ==
          if outcome == Done then Perform(fds, top', mem, rs[i..], push, limit)
          else Progress(fds, top', mem, outcome)
        invariant Reaches0(old(fds), top, memory, rs, push, limit) ==
                  (redirectedFd0 || (outcome == Done && Reaches0(fds, top', mem, rs[i..], push, limit)))
      {
        assert rs[i..][0] == rs[i] && rs[i..][1..] == rs[i + 1..];
        if rs[i].fd == 0 {
          fd0Redirected := true;
          redirectedFd0 := true;
        }
        mem, outcome, top' := RedirectOne(rs[i], push, mem, top');
        i := i + 1;
      }
    }

    /** redirect up to in-memory output; `memory` are the descriptors to write to memory. */
    method RedirectWith(rs: seq<Redirection>, push: bool, memory: set<Digit>) returns (mem: set<Digit>, outcome: Outcome)
      modifies this`fds, this`redirlist, this`emptyRedirs, this`fd0Redirected, this`fd0RedirectedHere
      ensures Result(Now(), mem, outcome) == Redirected(old(Now()), rs, push, memory, limit)
    {
      hide Restore, FrameOk, Sound, Perform, Reaches0, Undo, Redirected, PipeEscapes;
      ghost var s0, top := Now(), NoSlots;
      if push {
        PushFrame(rs);
        assert rs != [] ==> redirlist[1..] == s0.redirlist;
      }
      var redirectedFd0;
      mem, outcome, redirectedFd0, top := RedirectAll(rs, push, memory, top);
      if push && redirectedFd0 && outcome == Done {
        fd0RedirectedHere := true;
      }
      assert push && rs != [] ==> redirlist == [Frame(top, s0.fd0, s0.fd0Here, s0.emptyRedirs)] + s0.redirlist;
      RedirectedIs(s0, rs, push, memory, limit, Progress(fds, top, mem, outcome), redirectedFd0, Now());
    }

    /** redirect, with REDIR_PUSH and REDIR_BACKQ as `push` and `backq`. */
    method Redirect(rs: seq<Redirection>, push: bool, backq: bool) returns (outcome: Outcome)
      modifies this
      ensures var r := Redirected(old(Now()), rs, push, if backq then {1} else {}, limit);
        && Now() == r.state && outcome == r.outcome
        && out1InMemory == (old(out1InMemory) || (outcome == Done && 1 in r.memory))
        && out2InMemory == (old(out2InMemory) || (outcome == Done && 2 in r.memory))
      ensures push ==> (Undo(Now()) == old(Now()) <==> !PipeEscapes(old(fds), NoSlots, if backq then {1} else {}, {}, rs, limit))
      ensures old(Sound(fds, redirlist)) ==> Sound(fds, redirlist)
    {
      hide Restore, FrameOk, Sound, Perform, Reaches0, Undo, Redirected, PipeEscapes;
      var memory: set<Digit> := if backq then {1} else {};
      RedirectedIsKept(Now(), rs, push, memory, limit);
      memory, outcome := RedirectWith(rs, push, memory);
      if outcome == Done {
        out1InMemory := out1InMemory || 1 in memory;
        out2InMemory := out2InMemory || 2 in memory;
      }
    }

    method PushFrame(rs: seq<Redirection>)
      modifies this`redirlist, this`emptyRedirs
      ensures redirlist == if rs == [] then old(redirlist)
        else [Frame(NoSlots, fd0Redirected, fd0RedirectedHere, old(emptyRedirs))] + old(redirlist)
      ensures emptyRedirs == if rs == [] then old(emptyRedirs) + 1 else 0
    {
      emptyRedirs := emptyRedirs + 1;
      if rs != [] {
        redirlist := [Frame(NoSlots, fd0Redirected, fd0RedirectedHere, emptyRedirs - 1)] + redirlist;
        emptyRedirs := 0;
      }
    }

    /** popredir */
    method PopRedir()
      requires emptyRedirs > 0 || redirlist != []
      requires Sound(fds, redirlist)
      modifies this
      ensures Now() == Undo(old(Now()))
      ensures Sound(fds, redirlist)
      ensures out1InMemory == old(out1InMemory) && out2InMemory == old(out2InMemory)
    {
      hide Restore;
      if emptyRedirs > 0 {
        emptyRedirs := emptyRedirs - 1;
        return;
      }
      var rp := redirlist[0];
      ghost var before := fds;
      NothingSaved(fds);
      assert FirstSlots(rp.renamed, 0) == NoSlots;
      var i := 0;
      while i < 10
        modifies this`fds
        invariant 0 <= i <= 10
        invariant fds == Restore(FirstSlots(rp.renamed, i), before)
      {
        RestoreNext(rp.renamed, before, i);
        if rp.renamed[i] != Empty {
          if rp.renamed[i].Copy? {
            Move(rp.renamed[i].at, i);
          } else {
            fds := fds - {i};
          }
        }
        i := i + 1;
      }
      assert FirstSlots(rp.renamed, 10) == rp.renamed;
      fd0Redirected := rp.fd0;
      fd0RedirectedHere := rp.fd0Here;
      emptyRedirs := rp.emptyRedirs;
      redirlist := redirlist[1..];
    }
  }

  /** One iteration of popredir. */
  lemma RestoreNext(renamed: Slots, fds: Table, i: Digit)
    requires FrameOk(renamed, fds)
    ensures var before := Restore(FirstSlots(renamed, i), fds);
            var after := Restore(FirstSlots(renamed, i + 1), fds);
            match renamed[i]
            case Empty => after == before
            case Closed => after == before - {i}
            case Copy(at) => at != i && at in before && after == before[i := before[at]] - {at}
  {
    hide Restore;
    var r0, r1 := FirstSlots(renamed, i), FirstSlots(renamed, i + 1);
    assert r1 == r0[i := renamed[i]];
    var before: Table := Restore(r0, fds);
    var slot := renamed[i];
    if slot.Copy? {
      RestoreAt(r0, fds, slot.at);
      assert !IsCopy(r0, slot.at);
      assert At(before, slot.at) == At(fds, slot.at);
    }
    var goal: Table := before;
    if slot.Closed? {
      goal := before - {i};
    } else if slot.Copy? {
      goal := before[i := before[slot.at]];
      goal := goal - {slot.at};
    }
    forall k: nat
      ensures At(Restore(r1, fds), k) == At(goal, k)
    {
      RestoreAt(r0, fds, k);
      RestoreAt(r1, fds, k);
      CopyIntoSlot(r0, i, slot, k);
    }
    SameTable(Restore(r1, fds), goal);
  }
}
