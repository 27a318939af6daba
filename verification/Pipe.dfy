/**
 * evalpipe of src/eval.c: the descriptors of a pipeline's commands.
 *
 * pipe returns the two lowest free descriptors, so with 0 or 1 closed the ends of a pipe may lie
 * where a command's standard input or output belongs.
 */
module Pipelines {
  import opened Wrappers

  /** What a descriptor refers to: a file open before, an end of pipe `i`, or /dev/null. */
  datatype File = Before(id: nat) | ReadEnd(i: nat) | WriteEnd(i: nat) | DevNull

  type Files = map<nat, File>

  datatype Ending = Started | NoPipe | NoFork

  /** Whether the system calls for a command succeed. */
  datatype Calls = Calls(pipe: bool, fork: bool)

  /** What the pipeline promises command `i` of `n`. */
  function Wired(init: Files, i: nat, n: nat, background: bool): Files {
    var input := if i > 0 then init[0 := ReadEnd(i - 1)] else if background then init[0 := DevNull] else init;
    if i + 1 < n then input[1 := WriteEnd(i)] else input
  }

  /**
   * The branch that breaks the promise: the first command of a background pipeline finds the read
   * end of its own pipe at 0, puts /dev/null there, and then closes it as the pipe's read end.
   */
  predicate LosesInput(init: Files, i: nat, n: nat, background: bool) {
    background && i == 0 && n > 1 && 0 !in init
  }

  /** What command `i` gets. */
  function Received(init: Files, i: nat, n: nat, background: bool): Files {
    var w := Wired(init, i, n, background);
    if LosesInput(init, i, n, background) then w - {0} else w
  }

  class Shell {
    var fds: Files

    /** The lowest two free descriptors. */
    method Pipe(i: nat) returns (readEnd: nat, writeEnd: nat)
      modifies this
      ensures readEnd < writeEnd && readEnd !in old(fds) && writeEnd !in old(fds)
      ensures forall k :: 0 <= k < readEnd || readEnd < k < writeEnd ==> k in old(fds)
      ensures fds == old(fds)[readEnd := ReadEnd(i)][writeEnd := WriteEnd(i)]
    {
      readEnd := LowestNotIn(fds.Keys, 0);
      writeEnd := LowestNotIn(fds.Keys, readEnd + 1);
      fds := fds[readEnd := ReadEnd(i)][writeEnd := WriteEnd(i)];
    }

    /** The child branch of evalpipe's fork, on the child's copy of the table. */
    method Child(prevfd: int, pip0: int, pip1: int, devNull: bool, ghost init: Files, ghost i: nat, ghost n: nat)
      returns (t: Files)
      requires i < n && (prevfd >= 0 <==> i > 0) && (pip1 >= 0 <==> i + 1 < n)
      requires devNull ==> i == 0
      requires fds == WithPipes(init, prevfd, pip0, pip1, i)
      requires prevfd >= 0 ==> prevfd !in init
      requires pip1 >= 0 ==> prevfd != pip0 && prevfd != pip1
      requires pip1 >= 0 ==> 0 <= pip0 < pip1 && pip0 !in init && pip1 !in init
      requires i == 0 && pip1 >= 0 ==> (pip0 == 0 <==> 0 !in init)
      ensures t == Received(init, i, n, devNull)
    {
      t := fds;
      if devNull {
        t := t[0 := DevNull];
      }
      if prevfd > 0 {
        t := t[0 := t[prevfd]];
        t := t - {prevfd};
      }
      if pip1 >= 0 {
        if !(prevfd >= 0 && pip0 == 0) {
          t := t - {pip0};
        }
        if pip1 != 1 {
          t := t[1 := t[pip1]];
          t := t - {pip1};
        }
      }
    }

    /**
     * The loop of evalpipe.  `children` are the tables with which the commands start; `calls` says
     * which system calls fail.  `background` is a background pipeline without job control whose
     * standard input is not redirected.
     */
    method EvalPipe(calls: seq<Calls>, background: bool) returns (children: seq<Files>, ending: Ending)
      requires calls != []
      modifies this
      ensures var n := |calls|;
        && (ending == Started <==> |children| == n)
        && forall i :: 0 <= i < |children| ==>
             children[i] == Received(old(fds), i, n, background)
      ensures |children| <= |calls|
      ensures forall i :: 0 <= i < |children| ==> calls[i].fork && (i + 1 < |calls| ==> calls[i].pipe)
      ensures ending == NoPipe ==> |children| + 1 < |calls| && !calls[|children|].pipe
      ensures ending == NoFork ==> |children| < |calls| && !calls[|children|].fork
      ensures fds == old(fds) <==> ending != NoFork || |calls| == 1
    {
      hide Received;
      var n := |calls|;
      ghost var init := fds;
      var prevfd: int, pip0: int, pip1: int := -1, 0, -1;
      children := [];
      var i := 0;
      while i < n
        invariant 0 <= i <= n && |children| == i
        invariant i < n ==> (prevfd >= 0 <==> i > 0) && (prevfd >= 0 ==> prevfd !in init)
        invariant fds == if 0 < i < n then init[prevfd := ReadEnd(i - 1)] else init
        invariant forall k :: 0 <= k < i ==> calls[k].fork && (k + 1 < n ==> calls[k].pipe)
        invariant forall k :: 0 <= k < i ==>
             children[k] == Received(init, k, n, background)
      {
        pip1 := -1;
        if i + 1 < n {
          if !calls[i].pipe {
            if prevfd >= 0 {
              fds := fds - {prevfd};
            }
            return children, NoPipe;
          }
          pip0, pip1 := Pipe(i);
        }
        if !calls[i].fork {
          assert i + 1 < n ==> pip0 in fds;
          return children, NoFork;
        }
        ReceivedBackground(init, i, n, background);
        var t := Child(prevfd, pip0, pip1, background && i == 0, init, i, n);
        children := children + [t];
        if prevfd >= 0 {
          fds := fds - {prevfd};
        }
        prevfd := pip0;
        if pip1 != -1 {
          fds := fds - {pip1};
        }
        i := i + 1;
      }
      ending := Started;
    }
  }

  lemma WiredUnlessInputLost(init: Files, i: nat, n: nat, background: bool)
    requires i < n
    ensures Received(init, i, n, background) == Wired(init, i, n, background) <==> !LosesInput(init, i, n, background)
  {
    var w := Wired(init, i, n, background);
    if LosesInput(init, i, n, background) {
      assert 0 in w && 0 !in w - {0};
    }
  }

  /** The loss is real: with 0 closed, the first of two background commands starts without a 0. */
  lemma FirstCommandLosesInput(out: File, err: File)
    ensures var init := map[1 := out, 2 := err];
      && Wired(init, 0, 2, true) == map[0 := DevNull, 1 := WriteEnd(0), 2 := err]
      && Received(init, 0, 2, true) == map[1 := WriteEnd(0), 2 := err]
  {
    var init := map[1 := out, 2 := err];
    assert Wired(init, 0, 2, true) == init[0 := DevNull][1 := WriteEnd(0)] == map[0 := DevNull, 1 := WriteEnd(0), 2 := err];
  }

  lemma ReceivedBackground(init: Files, i: nat, n: nat, background: bool)
    ensures Received(init, i, n, background) == Received(init, i, n, background && i == 0)
  {
  }

  /** The parent's table when it forks command `i`. */
  function WithPipes(init: Files, prevfd: int, pip0: int, pip1: int, i: nat): Files {
    var a := if prevfd >= 0 && i > 0 then init[prevfd := ReadEnd(i - 1)] else init;
    if pip1 >= 0 && pip0 >= 0 then a[pip0 := ReadEnd(i)][pip1 := WriteEnd(i)] else a
  }

  predicate IsPipe(f: File) {
    f.ReadEnd? || f.WriteEnd?
  }

  /**
   * The wiring is what lets a pipeline end: the write end of pipe `j` is held by command `j` alone,
   * at 1, and its read end by the next command alone, at 0.
   */
  lemma EachPipeHasOneReaderAndOneWriter(init: Files, n: nat, background: bool, i: nat, j: nat, fd: nat)
    requires forall k :: k in init ==> !IsPipe(init[k])
    requires i < n && j + 1 < n
    ensures var w := Wired(init, i, n, background);
      && (fd in w && w[fd] == WriteEnd(j) <==> i == j && fd == 1)
      && (fd in w && w[fd] == ReadEnd(j) <==> i == j + 1 && fd == 0)
  {
    assert fd in init ==> !IsPipe(init[fd]);
  }

  /**
   * A command finds all descriptors but 0 and 1 as they were.  The first reads what the shell reads, or nothing in the
   * background, and the last writes where the shell writes.
   */
  lemma OtherDescriptorsStay(init: Files, i: nat, n: nat, background: bool, fd: nat)
    requires i < n
    ensures var w := Wired(init, i, n, background);
      && (fd > 1 ==> (fd in w <==> fd in init) && (fd in w ==> w[fd] == init[fd]))
      && (i == 0 && !background ==> (0 in w <==> 0 in init) && (0 in w ==> w[0] == init[0]))
      && (i == 0 && background ==> 0 in w && w[0] == DevNull)
      && (i == n - 1 ==> (1 in w <==> 1 in init) && (1 in w ==> w[1] == init[1]))
  {
  }
}
