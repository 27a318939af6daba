/**
 * src/memalloc.c: the stack allocator, with the string that grows on top of it.
 *
 * Blocks are held oldest first; the last one is the block that `stackp` points to.  A block is known
 * by the address of its data; stacknxt and sstrend are counted from there.
 */
module StackAlloc {
  import opened Wrappers

  /** sizeof(void *), to which ALIGN rounds up, and the aligned size of a block's header. */
  const ALIGNMENT: nat := 8
  const HEADER: nat := 8

  const MINSIZE: nat := 496
  const INT_MAX: nat := 0x7fff_ffff

  datatype Block = Block(base: nat, data: string)

  datatype Pointer = Null | Pointer(block: nat, offset: int)

  datatype Mark = Mark(stackp: Option<nat>, stacknxt: nat, stacknleft: nat)

  /** A mark with the blocks at the time it was set, and the position after setstackmark. */
  datatype LiveMark = LiveMark(mark: Mark, blocks: seq<Block>, floor: nat)

  function Align(n: nat): (r: nat)
    ensures n <= r < n + ALIGNMENT && r % ALIGNMENT == 0
  {
    (n + ALIGNMENT - 1) / ALIGNMENT * ALIGNMENT
  }

  /** An aligned space holds the aligned size of whatever fits into it. */
  lemma AlignFits(n: nat, space: nat)
    requires n <= space && space % ALIGNMENT == 0
    ensures Align(n) <= space
  {
  }

  function Address(p: Pointer): int
    requires p.Pointer?
  {
    p.block + p.offset
  }

  /** Two pieces of memory from malloc, each with its header, do not touch. */
  predicate Apart(a: Block, b: Block) {
    a.base + |a.data| + HEADER <= b.base || b.base + |b.data| + HEADER <= a.base
  }

  predicate Separate(blocks: seq<Block>) {
    forall i, j :: 0 <= i < j < |blocks| ==> Apart(blocks[i], blocks[j])
  }

  /** Memory for a block that malloc may return. */
  predicate Free(blocks: seq<Block>, b: Block) {
    b.base % ALIGNMENT == 0 && forall i :: 0 <= i < |blocks| ==> Apart(blocks[i], b)
  }

  /** An address behind all blocks. */
  function Beyond(blocks: seq<Block>): (r: nat)
    ensures forall i :: 0 <= i < |blocks| ==> blocks[i].base + |blocks[i].data| + HEADER <= r
    ensures r % ALIGNMENT == 0
  {
    if blocks == [] then 0
    else
      var r, last := Beyond(blocks[..|blocks| - 1]), blocks[|blocks| - 1];
      assert forall i :: 0 <= i < |blocks| - 1 ==> blocks[i] == blocks[..|blocks| - 1][i];
      if r < last.base + |last.data| + HEADER then Align(last.base + |last.data| + HEADER) else r
  }

  /** Two blocks agree on the first `n` bytes and are the same block of the same size. */
  predicate SameBelow(a: Block, b: Block, n: nat) {
    a.base == b.base && |a.data| == |b.data| && n <= |a.data| && a.data[..n] == b.data[..n]
  }

  /** The blocks `now` still hold everything that was allocated at the mark, where it was. */
  predicate Holds(l: LiveMark, now: seq<Block>, stacknxt: int) {
    var d := |l.blocks|;
    && d <= |now|
    && (d == 0 ==> l.mark == Mark(None, 0, 0) && l.floor == 0)
    && (d > 0 ==>
          && l.mark.stackp == Some(l.blocks[d - 1].base)
          && now[..d - 1] == l.blocks[..d - 1]
          && SameBelow(now[d - 1], l.blocks[d - 1], l.mark.stacknxt)
          && l.mark.stacknxt + l.mark.stacknleft == |now[d - 1].data|
          && l.mark.stacknxt % ALIGNMENT == 0
          && l.mark.stacknxt <= l.floor && 0 < l.floor && (d == |now| ==> l.floor <= stacknxt))
  }

  /** Marks below the changed part of the stack do not notice. */
  lemma HoldsBelow(l: LiveMark, now: seq<Block>, stacknxt: int, now': seq<Block>, stacknxt': int, k: nat)
    requires Holds(l, now, stacknxt) && |l.blocks| <= k <= |now| && k < |now'| && now'[..k] == now[..k]
    ensures Holds(l, now', stacknxt')
  {
    var d := |l.blocks|;
    if d > 0 {
      assert now'[d - 1] == now'[..k][d - 1] == now[d - 1];
      assert now'[..d - 1] == now'[..k][..d - 1] == now[..d - 1];
    }
  }

  lemma WrittenStaysSeparate(blocks: seq<Block>, b: Block)
    requires blocks != [] && Separate(blocks)
    requires var sp := blocks[|blocks| - 1]; b.base == sp.base && |b.data| == |sp.data|
    ensures Separate(blocks[|blocks| - 1 := b])
  {
  }

  lemma WrittenText(data: string, from: nat, at: nat, text: string)
    requires from <= at && at + |text| <= |data|
    ensures (data[..at] + text + data[at + |text|..])[from..][..at + |text| - from] == data[from..][..at - from] + text
  {
  }

  lemma HoldsAfterCopy(l: LiveMark, now: seq<Block>, now': seq<Block>, stacknxt: int, at: nat)
    requires Holds(l, now, stacknxt) && stacknxt <= at
    requires now != [] && |now'| == |now| && now'[..|now| - 1] == now[..|now| - 1]
    requires SameBelow(now'[|now| - 1], now[|now| - 1], at)
    ensures Holds(l, now', stacknxt)
  {
    var top := |now| - 1;
    if |l.blocks| <= top {
      HoldsBelow(l, now, stacknxt, now', stacknxt, top);
    } else {
      var n := l.mark.stacknxt;
      assert now'[top].data[..n] == now'[top].data[..at][..n];
      assert now[top].data[..n] == now[top].data[..at][..n];
    }
  }

  lemma HoldsDepth(l: LiveMark, now: seq<Block>, stacknxt: int)
    requires Holds(l, now, stacknxt)
    ensures |l.blocks| <= |now| && (|l.blocks| == |now| > 0 ==> 0 < l.floor <= stacknxt && l.mark.stacknxt <= stacknxt)
  {
  }

  /** `l` was set before `m`. */
  predicate Before(l: LiveMark, m: LiveMark) {
    |l.blocks| < |m.blocks| || (|l.blocks| == |m.blocks| && l.floor <= m.mark.stacknxt)
  }

  datatype Place = Place(blocks: seq<Block>, stacknxt: int, stacknleft: int)

  /** All that was allocated in `a` is in `b` where it was, with the same bytes. */
  predicate Kept(a: Place, b: Place) {
    var d := |a.blocks|;
    && d <= |b.blocks|
    && (d > 0 ==>
          b.blocks[..d - 1] == a.blocks[..d - 1] && a.stacknxt >= 0 && SameBelow(b.blocks[d - 1], a.blocks[d - 1], a.stacknxt))
  }

  predicate Restored(a: Place, b: Place) {
    Kept(a, b) && |b.blocks| == |a.blocks| && b.stacknxt == a.stacknxt && b.stacknleft == a.stacknleft
  }

  /**
   * What is live, with the operation that made it: an allocation, with the number of blocks then and what it
   * protects, or a mark.
   */
  datatype Item = Allocated(p: Pointer, depth: nat, madeBy: nat, kept: Option<LiveMark>) | Marked(live: LiveMark, madeBy: nat)

  /** An allocation protects its memory and all below it, as a mark behind it would, unless it has no memory. */
  function Protects(a: Place): Option<LiveMark> {
    var d := |a.blocks|;
    if d > 0 && a.stacknxt > 0 && a.stacknleft >= 0
    then Some(LiveMark(Mark(Some(a.blocks[d - 1].base), a.stacknxt, a.stacknleft), a.blocks, a.stacknxt)) else None
  }

  /** The same without its values. */
  datatype Live = Memory(madeBy: nat) | OfMark(madeBy: nat)

  datatype Op = Alloc(n: nat) | Put(c: char) | Grab | Release | SetMark | PopMark

  datatype Ending = Completed | OutsideBlock | Aborted | TooLong

  predicate Good(item: Item, blocks: seq<Block>, stacknxt: int) {
    match item
    case Allocated(p, depth, _, kept) =>
      && depth <= |blocks| && (p.Pointer? <==> depth > 0) && (p.Pointer? ==> Address(p) % ALIGNMENT == 0)
      && (kept.Some? ==> Holds(kept.value, blocks, stacknxt))
    case Marked(live, _) => Holds(live, blocks, stacknxt)
  }

  predicate UndoableIn(items: seq<Item>, blocks: seq<Block>, stacknxt: int) {
    && (forall i :: 0 <= i < |items| ==> Good(items[i], blocks, stacknxt))
    && (forall i, j :: 0 <= i < j < |items| ==> Nested(items[i], items[j]))
  }

  lemma Pushed(items: seq<Item>, item: Item, blocks: seq<Block>, stacknxt: int)
    requires UndoableIn(items, blocks, stacknxt) && Good(item, blocks, stacknxt)
    requires forall i :: 0 <= i < |items| ==> Nested(items[i], item)
    ensures UndoableIn(items + [item], blocks, stacknxt)
  {
    hide Holds, Nested;
  }

  /** An operation that keeps the marks and drops no block keeps everything that is live. */
  lemma StillUndoable(items: seq<Item>, was: seq<Block>, wasNxt: int, blocks: seq<Block>, stacknxt: int)
    requires UndoableIn(items, was, wasNxt) && |was| <= |blocks|
    requires forall l :: Holds(l, was, wasNxt) ==> Holds(l, blocks, stacknxt)
    ensures UndoableIn(items, blocks, stacknxt)
  {
    hide Holds, Nested;
    forall i | 0 <= i < |items|
      ensures Good(items[i], blocks, stacknxt)
    {
      assert Good(items[i], was, wasNxt);
    }
  }

  /** A new allocation `p` on top of what is live. */
  lemma AllocationFits(items: seq<Item>, was: seq<Block>, wasNxt: int, blocks: seq<Block>, stacknxt: int, p: Pointer, k: nat,
                       kept: Option<LiveMark>)
    requires kept.Some? ==> Holds(kept.value, blocks, stacknxt)
    requires UndoableIn(items, was, wasNxt) && |was| <= |blocks|
    requires forall l :: Holds(l, was, wasNxt) ==> Holds(l, blocks, stacknxt)
    requires (blocks == [] <==> p.Null?) && (p.Pointer? ==> Address(p) % ALIGNMENT == 0)
    requires |blocks| == |was| > 0 ==> blocks == was && p == Pointer(was[|was| - 1].base, wasNxt)
    ensures UndoableIn(items + [Allocated(p, |blocks|, k, kept)], blocks, stacknxt)
  {
    StillUndoable(items, was, wasNxt, blocks, stacknxt);
    forall i | 0 <= i < |items|
      ensures Nested(items[i], Allocated(p, |blocks|, k, kept))
    {
      assert Good(items[i], was, wasNxt);
    }
    Pushed(items, Allocated(p, |blocks|, k, kept), blocks, stacknxt);
  }

  /** A new mark on top of what is live. */
  lemma MarkFits(items: seq<Item>, was: seq<Block>, wasNxt: int, blocks: seq<Block>, stacknxt: int, live: LiveMark, k: nat)
    requires UndoableIn(items, was, wasNxt) && |was| == |blocks| == |live.blocks| && Holds(live, blocks, stacknxt)
    requires forall l :: Holds(l, was, wasNxt) ==> Holds(l, blocks, stacknxt) && Before(l, live)
    ensures UndoableIn(items + [Marked(live, k)], blocks, stacknxt)
  {
    StillUndoable(items, was, wasNxt, blocks, stacknxt);
    hide Holds, Before;
    forall i | 0 <= i < |items|
      ensures Nested(items[i], Marked(live, k))
    {
      assert Good(items[i], was, wasNxt);
    }
    Pushed(items, Marked(live, k), blocks, stacknxt);
  }

  lemma PoppedFits(items: seq<Item>, at: nat, was: seq<Block>, wasNxt: int, blocks: seq<Block>, stacknxt: int)
    requires UndoableIn(items, was, wasNxt) && at < |items| && items[at].Marked? && |blocks| == |items[at].live.blocks|
    requires forall l :: Holds(l, was, wasNxt) && Before(l, items[at].live) ==> Holds(l, blocks, stacknxt)
    ensures UndoableIn(items[..at], blocks, stacknxt)
  {
    hide Holds, Before;
    forall i | 0 <= i < at
      ensures Good(items[i], blocks, stacknxt)
    {
      assert Good(items[i], was, wasNxt) && Nested(items[i], items[at]);
    }
  }

  /** What is live after the first `k` operations. */
  function Shape(ops: seq<Op>, k: nat): seq<Live>
    requires k <= |ops|
  {
    if k == 0 then [] else NextShape(Shape(ops, k - 1), ops[k - 1], k - 1)
  }

  function NextShape(was: seq<Live>, op: Op, k: nat): seq<Live> {
    match op
    case Alloc(_) => was + [Memory(k)]
    case Grab => was + [Memory(k)]
    case Put(_) => was
    case Release => if was == [] then was else was[..|was| - 1]
    case SetMark => was + [OfMark(k)]
    case PopMark => was[..LastMark(was)]
  }

  /** The place of the newest mark. */
  function LastMark(shape: seq<Live>): (i: nat)
    ensures i <= |shape| && (i < |shape| ==> shape[i].OfMark?)
    ensures forall j :: i < j < |shape| ==> shape[j].Memory?
    ensures i == |shape| ==> forall j :: 0 <= j < |shape| ==> shape[j].Memory?
  {
    if shape == [] then 0
    else if shape[|shape| - 1].OfMark? then |shape| - 1
    else
      var i := LastMark(shape[..|shape| - 1]);
      if i == |shape| - 1 then |shape| else i
  }

  lemma PoppedIsRestored(live: LiveMark, a: Place, was: seq<Block>, wasNxt: int, b: Place)
    requires Holds(live, was, wasNxt) && b.blocks == was[..|live.blocks|]
    requires live.blocks == a.blocks && live.mark.stacknxt == a.stacknxt == b.stacknxt && live.mark.stacknleft == a.stacknleft == b.stacknleft
    ensures Restored(a, b)
  {
    var d := |live.blocks|;
    assert d > 0 ==> b.blocks[..d - 1] == was[..d - 1] && b.blocks[d - 1] == was[d - 1];
  }

  /** What was allocated before a live mark, and up to a live allocation, is kept. */
  predicate MarksKept(shape: seq<Live>, at: seq<Place>, k: nat)
    requires k < |at|
  {
    forall i :: 0 <= i < |shape| ==>
      var o := shape[i].madeBy;
      if shape[i].OfMark? then o < |at| && Kept(at[o], at[k])
      else o + 1 < |at| && (Protects(at[o + 1]).Some? ==> Kept(at[o + 1], at[k]))
  }

  /** The pointer that an allocation between two places returned. */
  function Made(before: Place, after: Place): Pointer {
    var d := |after.blocks|;
    if d == 0 then Null else Pointer(after.blocks[d - 1].base, if d > |before.blocks| then 0 else before.stacknxt)
  }

  /** A release goes back to the pointer and changes nothing else. */
  predicate GoesBack(p: Pointer, before: Place, now: Place) {
    && now.blocks == before.blocks && now.blocks != [] && p.Pointer?
    && now.blocks[|now.blocks| - 1].base + now.stacknxt == Address(p)
    && now.stacknxt + now.stacknleft == before.stacknxt + before.stacknleft
  }

  /** After `op`, which found `shape` live and leaves the stack at `at[k]`. */
  predicate TakesBack(op: Op, shape: seq<Live>, at: seq<Place>, k: nat)
    requires 0 < k < |at|
  {
    && (op.PopMark? && LastMark(shape) < |shape| ==>
          var o := shape[LastMark(shape)].madeBy;
          o < |at| && Restored(at[o], at[k]))
    && (op.Release? && shape != [] && shape[|shape| - 1].Memory? ==>
          var o := shape[|shape| - 1].madeBy;
          o < k && GoesBack(Made(at[o], at[o + 1]), at[k - 1], at[k]))
  }

  /** The address is one of the current block. */
  predicate InTop(blocks: seq<Block>, p: Pointer)
    requires p.Pointer?
  {
    var sp := if blocks == [] then Block(0, "") else blocks[|blocks| - 1];
    sp.base <= Address(p) <= sp.base + |sp.data|
  }

  /** How releasing `p` ends. */
  function EndingOf(p: Pointer, now: Place): Ending {
    if p.Null? then Aborted else if InTop(now.blocks, p) then Completed else OutsideBlock
  }

  /** The characters put since the last operation that was not a put. */
  function PutText(ops: seq<Op>, k: nat): string
    requires k <= |ops|
  {
    if k > 0 && ops[k - 1].Put? then PutText(ops, k - 1) + [ops[k - 1].c] else ""
  }

  lemma NothingPut(ops: seq<Op>)
    ensures PutText(ops, 0) == ""
  {
  }

  lemma PutsGoOn(ops: seq<Op>, k: nat)
    requires k < |ops|
    ensures PutText(ops, k + 1) == if ops[k].Put? then PutText(ops, k) + [ops[k].c] else ""
  {
  }

  /** `n` bytes at the pointer that an allocation between two places returned. */
  predicate HasRoom(before: Place, after: Place, n: nat) {
    var p, d := Made(before, after), |after.blocks|;
    if p.Null? then n == 0 else d > 0 && 0 <= p.offset && p.offset + n <= after.stacknxt <= |after.blocks[d - 1].data|
  }

  /** An allocation gives the bytes asked for, and a grabbed string is what was put. */
  predicate Gives(op: Op, text: string, before: Place, after: Place) {
    match op
    case Alloc(n) => HasRoom(before, after, n)
    case Grab =>
      var p := Made(before, after);
      HasRoom(before, after, |text|) && (p.Pointer? ==> after.blocks[|after.blocks| - 1].data[p.offset..p.offset + |text|] == text)
    case _ => true
  }

  /** `op` at `at[k]` found `shape` live; if it is a release, it ended as the newest allocation demands. */
  predicate ReleaseEnds(op: Op, shape: seq<Live>, at: seq<Place>, k: nat, ending: Ending)
    requires k < |at|
  {
    op.Release? && shape != [] && shape[|shape| - 1].Memory? ==>
      var o := shape[|shape| - 1].madeBy;
      o < k && ending == EndingOf(Made(at[o], at[o + 1]), at[k])
  }

  /**
   * The operation between the places k and k + 1: popping a mark restores its place, a release goes back to its
   * pointer and was not outside the current block, and an allocation gives what it promises.
   */
  predicate StepIsRight(ops: seq<Op>, at: seq<Place>, k: nat)
    requires k + 1 < |at| && k < |ops|
  {
    && ReleaseEnds(ops[k], Shape(ops, k), at, k, Completed)
    && Gives(ops[k], PutText(ops, k), at[k], at[k + 1])
    && TakesBack(ops[k], Shape(ops, k), at, k + 1)
  }

  /** All that was allocated at a mark or an allocation that is live is kept, and every step was right. */
  predicate KeptSoFar(ops: seq<Op>, at: seq<Place>)
    requires |at| <= |ops| + 1
  {
    && (forall k :: 0 <= k < |at| ==> MarksKept(Shape(ops, k), at, k))
    && (forall k :: 0 <= k < |at| - 1 ==> StepIsRight(ops, at, k))
  }

  lemma NothingYet(ops: seq<Op>, at: seq<Place>, items: seq<Item>, blocks: seq<Block>, stacknxt: int)
    requires |at| == 1 && items == []
    ensures KeptSoFar(ops, at) && Matches(items, Shape(ops, 0), at) && UndoableIn(items, blocks, stacknxt)
  {
  }

  /** One more place in the list. */
  lemma KeptOn(ops: seq<Op>, before: seq<Place>, now: Place)
    requires 0 < |before| <= |ops| && KeptSoFar(ops, before)
    requires var k, at := |before|, before + [now]; MarksKept(Shape(ops, k), at, k) && TakesBack(ops[k - 1], Shape(ops, k - 1), at, k)
    requires ReleaseEnds(ops[|before| - 1], Shape(ops, |before| - 1), before, |before| - 1, Completed)
    requires Gives(ops[|before| - 1], PutText(ops, |before| - 1), before[|before| - 1], now)
    ensures KeptSoFar(ops, before + [now])
  {
    hide Shape, MarksKept, TakesBack, ReleaseEnds, Gives, PutText, StepIsRight;
    var at := before + [now];
    forall k | 0 <= k < |at|
      ensures MarksKept(Shape(ops, k), at, k)
    {
      if k < |before| {
        MarksKeptStill(Shape(ops, k), before, now, k);
      }
    }
    forall k | 0 <= k < |at| - 1
      ensures StepIsRight(ops, at, k)
    {
      if k + 1 < |before| {
        StepIsRightStill(ops, before, now, k);
      } else {
        LastStepIsRight(ops, before, now);
      }
    }
  }

  lemma OneMorePlace(ops: seq<Op>, at: seq<Place>, now: Place, items: seq<Item>)
    requires 0 < |at| <= |ops| && Lifo(ops) && KeptSoFar(ops, at) && UndoableIn(items, now.blocks, now.stacknxt)
    requires var k := |at| - 1;
      && Matches(items, NextShape(Shape(ops, k), ops[k], k), at + [now])
      && TakesBack(ops[k], Shape(ops, k), at + [now], |at|) && ReleaseEnds(ops[k], Shape(ops, k), at, k, Completed)
      && Gives(ops[k], PutText(ops, k), at[k], now)
    ensures KeptSoFar(ops, at + [now]) && Matches(items, Shape(ops, |at|), at + [now])
  {
    hide KeptSoFar, Matches, UndoableIn, MarksKept, TakesBack, ReleaseEnds, Gives, Shape, NextShape, Lifo, PutText;
    LifoAt(ops, |at| - 1);
    MarksAreKept(items, Shape(ops, |at|), at + [now], now.blocks, now.stacknxt);
    KeptOn(ops, at, now);
  }

  lemma StepIsRightStill(ops: seq<Op>, at: seq<Place>, now: Place, k: nat)
    requires k + 1 < |at| && k < |ops| && StepIsRight(ops, at, k)
    ensures StepIsRight(ops, at + [now], k)
  {
    hide Shape, TakesBack, ReleaseEnds, Gives, PutText;
    ReleaseEndsStill(ops[k], Shape(ops, k), at, now, k);
    TakesBackStill(ops[k], Shape(ops, k), at, now, k + 1);
  }

  lemma LastStepIsRight(ops: seq<Op>, before: seq<Place>, now: Place)
    requires 0 < |before| <= |ops| && TakesBack(ops[|before| - 1], Shape(ops, |before| - 1), before + [now], |before|)
    requires ReleaseEnds(ops[|before| - 1], Shape(ops, |before| - 1), before, |before| - 1, Completed)
    requires Gives(ops[|before| - 1], PutText(ops, |before| - 1), before[|before| - 1], now)
    ensures StepIsRight(ops, before + [now], |before| - 1)
  {
    hide Shape, TakesBack, ReleaseEnds, Gives, PutText;
    ReleaseEndsStill(ops[|before| - 1], Shape(ops, |before| - 1), before, now, |before| - 1);
  }

  lemma ReleaseEndsStill(op: Op, shape: seq<Live>, at: seq<Place>, now: Place, k: nat)
    requires k < |at| && ReleaseEnds(op, shape, at, k, Completed)
    ensures ReleaseEnds(op, shape, at + [now], k, Completed)
  {
    hide EndingOf, Made;
  }

  lemma MarksKeptStill(shape: seq<Live>, at: seq<Place>, now: Place, k: nat)
    requires k < |at| && MarksKept(shape, at, k)
    ensures MarksKept(shape, at + [now], k)
  {
    hide Kept;
  }

  lemma TakesBackStill(op: Op, shape: seq<Live>, at: seq<Place>, now: Place, k: nat)
    requires 0 < k < |at| && TakesBack(op, shape, at, k)
    ensures TakesBack(op, shape, at + [now], k)
  {
    hide Restored, GoesBack, Made;
  }

  /** What is live and undoable is kept. */
  lemma MarksAreKept(items: seq<Item>, shape: seq<Live>, at: seq<Place>, blocks: seq<Block>, stacknxt: int)
    requires UndoableIn(items, blocks, stacknxt) && Matches(items, shape, at) && at != []
    requires at[|at| - 1].blocks == blocks
    ensures MarksKept(shape, at, |at| - 1)
  {
    forall i | 0 <= i < |shape|
      ensures var o := shape[i].madeBy;
        if shape[i].OfMark? then o < |at| && Kept(at[o], at[|at| - 1])
        else o + 1 < |at| && (Protects(at[o + 1]).Some? ==> Kept(at[o + 1], at[|at| - 1]))
    {
      assert Good(items[i], blocks, stacknxt);
    }
  }

  /** Where the current block at a mark is found later. */
  lemma LivePlace(live: LiveMark, now: seq<Block>, stacknxt: int)
    requires Holds(live, now, stacknxt)
    ensures var d := |live.blocks|;
      && d <= |now| && live.mark.stackp == (if d == 0 then None else Some(now[d - 1].base))
      && live.mark.stacknxt + live.mark.stacknleft == (if d == 0 then 0 else |now[d - 1].data|)
      && live.mark.stacknxt % ALIGNMENT == 0
  {
  }

  lemma HoldsAfterPop(l: LiveMark, live: LiveMark, now: seq<Block>, stacknxt: int)
    requires Holds(l, now, stacknxt) && Holds(live, now, stacknxt) && Before(l, live)
    ensures Holds(l, now[..|live.blocks|], live.mark.stacknxt)
  {
    var d := |l.blocks|;
    if d > 0 {
      assert now[..|live.blocks|][..d - 1] == now[..d - 1];
    }
  }

  /** What is released or popped is live, and released allocations are the newest. */
  predicate Lifo(ops: seq<Op>) {
    forall k :: 0 <= k < |ops| ==>
      var was := Shape(ops, k);
      && (ops[k].Release? ==> was != [] && was[|was| - 1].Memory?)
      && (ops[k].PopMark? ==> LastMark(was) < |was|)
  }

  lemma LifoAt(ops: seq<Op>, k: nat)
    requires Lifo(ops) && k < |ops|
    ensures var was := Shape(ops, k);
      && (ops[k].Release? ==> was != [] && was[|was| - 1].Memory?)
      && (ops[k].PopMark? ==> LastMark(was) < |was|)
    ensures Shape(ops, k + 1) == NextShape(Shape(ops, k), ops[k], k)
  {
    hide NextShape, LastMark;
  }

  predicate Matches(items: seq<Item>, shape: seq<Live>, at: seq<Place>) {
    && |items| == |shape|
    && forall i :: 0 <= i < |items| ==>
         match items[i]
         case Allocated(p, _, o, kept) =>
           shape[i] == Memory(o) && o + 1 < |at| && p == Made(at[o], at[o + 1]) && kept == Protects(at[o + 1])
         case Marked(live, o) =>
           shape[i] == OfMark(o) && o < |at| && live.blocks == at[o].blocks
           && live.mark.stacknxt == at[o].stacknxt && live.mark.stacknleft == at[o].stacknleft
  }

  lemma MatchesPush(items: seq<Item>, shape: seq<Live>, at: seq<Place>, item: Item, now: Place)
    requires Matches(items, shape, at)
    requires item.madeBy == |at| - 1
    requires if item.Marked? then MarksPlace(item.live, at[item.madeBy])
      else item.p == Made(at[item.madeBy], now) && item.kept == Protects(now)
    ensures Matches(items + [item], shape + [if item.Marked? then OfMark(item.madeBy) else Memory(item.madeBy)], at + [now])
  {
    hide Made;
    MatchesCut(items, shape, at, |items|, now);
    assert items[..|items|] == items && shape[..|items|] == shape;
  }

  lemma MatchesCut(items: seq<Item>, shape: seq<Live>, at: seq<Place>, m: nat, now: Place)
    requires Matches(items, shape, at) && m <= |items|
    ensures Matches(items[..m], shape[..m], at + [now])
  {
    hide Made;
    forall i | 0 <= i < m
      ensures items[i].madeBy < |at| && (at + [now])[items[i].madeBy] == at[items[i].madeBy]
      ensures items[i].Allocated? ==> items[i].madeBy + 1 < |at| && (at + [now])[items[i].madeBy + 1] == at[items[i].madeBy + 1]
    {
    }
  }

  predicate MarksPlace(live: LiveMark, a: Place) {
    live.blocks == a.blocks && live.mark.stacknxt == a.stacknxt && live.mark.stacknleft == a.stacknleft
  }

  lemma PushMatches(op: Op, items: seq<Item>, items': seq<Item>, shape: seq<Live>, at: seq<Place>, now: Place, k: nat)
    requires Matches(items, shape, at) && !op.Release? && !op.PopMark? && |at| == k + 1
    requires if op.Put? then items' == items
      else |items'| == |items| + 1 && items'[..|items|] == items && items'[|items|].Marked? == op.SetMark?
    requires !op.Put? ==> items'[|items|].madeBy == k
    requires op.SetMark? ==> MarksPlace(items'[|items|].live, at[k])
    requires !op.Put? && !op.SetMark? ==> items'[|items|].p == Made(at[k], now) && items'[|items|].kept == Protects(now)
    ensures Matches(items', NextShape(shape, op, k), at + [now])
  {
    if op.Put? {
      MatchesCut(items, shape, at, |items|, now);
      assert items[..|items|] == items && shape[..|items|] == shape;
    } else {
      MatchesPush(items, shape, at, items'[|items|], now);
      assert items' == items + [items'[|items|]];
    }
  }

  lemma MatchesLength(items: seq<Item>, shape: seq<Live>, at: seq<Place>)
    requires Matches(items, shape, at)
    ensures |items| == |shape|
  {
  }

  lemma MatchesLast(items: seq<Item>, shape: seq<Live>, at: seq<Place>)
    requires Matches(items, shape, at) && shape != [] && shape[|shape| - 1].Memory?
    ensures |items| == |shape| && items[|items| - 1].Allocated?
    ensures var o := shape[|shape| - 1].madeBy; o < |at| - 1 && items[|items| - 1].p == Made(at[o], at[o + 1])
  {
  }

  lemma MarkedAt(items: seq<Item>, shape: seq<Live>, at: seq<Place>, i: nat)
    requires Matches(items, shape, at) && i < |items| && items[i].Marked?
    ensures var o := items[i].madeBy;
      && shape[i] == OfMark(o) && o < |at| && items[i].live.blocks == at[o].blocks
      && items[i].live.mark.stacknxt == at[o].stacknxt && items[i].live.mark.stacknleft == at[o].stacknleft
  {
  }

  /** An allocation at `p` with `depth` blocks lies above all that `l` protects. */
  predicate Above(l: LiveMark, p: Pointer, depth: nat) {
    || |l.blocks| < depth
    || (|l.blocks| == depth > 0 && p.Pointer? && p.block == l.blocks[depth - 1].base && l.floor <= p.offset)
    || (depth == 0 && l.blocks == [] && l.floor == 0)
  }

  /** `b` came to life while `a` was live. */
  predicate Nested(a: Item, b: Item) {
    match (a, b)
    case (Marked(l, _), Marked(m, _)) => Before(l, m)
    case (Marked(l, _), Allocated(p, depth, _, _)) => Above(l, p, depth)
    case (Allocated(_, depth, _, kept), Marked(m, _)) => depth <= |m.blocks| && (kept.Some? ==> Before(kept.value, m))
    case (Allocated(_, depth, _, kept), Allocated(p', depth', _, _)) => depth <= depth' && (kept.Some? ==> Above(kept.value, p', depth'))
  }

  predicate WellSized(b: Block) {
    MINSIZE <= |b.data| && |b.data| % ALIGNMENT == 0 && b.base % ALIGNMENT == 0
  }

  class StackAllocator {
    var blocks: seq<Block>
    var stacknxt: int
    var stacknleft: int
    var sstrend: int

    /** sstrend is always the end of the space that is left, which is aligned at both ends. */
    predicate Valid()
      reads this
    {
      && Separate(blocks) && 0 <= stacknxt && 0 <= stacknleft
      && sstrend == stacknxt + stacknleft
      && sstrend == (if blocks == [] then 0 else |blocks[|blocks| - 1].data|)
      && stacknxt % ALIGNMENT == 0
      && forall i :: 0 <= i < |blocks| ==> WellSized(blocks[i])
    }

    function Base(): nat
      reads this
    {
      if blocks == [] then 0 else blocks[|blocks| - 1].base
    }

    constructor ()
      ensures Valid() && blocks == []
    {
      blocks, stacknxt, stacknleft, sstrend := [], 0, 0, 0;
    }

    /** malloc: anywhere the memory is free. */
    method Malloc(below: seq<Block>, data: string) returns (b: Block)
      ensures b.data == data && Free(below, b)
    {
      var base: nat := *;
      b := Block(base, data);
      if !Free(below, b) {
        b := Block(Beyond(below), data);
      }
    }

    predicate Guards(l: LiveMark)
      reads this
    {
      Holds(l, blocks, stacknxt)
    }

    /** Every live mark stays good. */
    twostate predicate KeepsMarks()
      reads this
    {
      forall l :: Holds(l, old(blocks), old(stacknxt)) ==> Holds(l, blocks, stacknxt)
    }

    /** The position as a pointer: stackblock(). */
    function Here(): Pointer
      reads this
    {
      if blocks == [] then Null else Pointer(blocks[|blocks| - 1].base, stacknxt)
    }

    /** The blocks under the current one. */
    function Older(): seq<Block>
      reads this
    {
      if blocks == [] then [] else blocks[..|blocks| - 1]
    }

    /** The space left, with the string that is growing in it. */
    function Space(): (s: string)
      requires Valid()
      reads this
      ensures |s| == stacknleft
    {
      if blocks == [] then "" else blocks[|blocks| - 1].data[stacknxt..]
    }

    method StNewBlock(nbytes: nat)
      requires Valid()
      modifies this
      ensures Valid() && KeepsMarks()
      ensures |blocks| == |old(blocks)| + 1 && blocks[..|old(blocks)|] == old(blocks)
      ensures stacknxt == 0 && stacknleft == Align(if nbytes < MINSIZE then MINSIZE else nbytes)
    {
      var n := if nbytes < MINSIZE then MINSIZE else nbytes;
      var sp := Malloc(blocks, seq(Align(n), _ => '\0'));
      blocks := blocks + [sp];
      stacknxt := 0;
      stacknleft := Align(n);
      sstrend := stacknxt + stacknleft;
    }

    method StAlloc(nbytes: nat) returns (p: Pointer)
      requires Valid()
      modifies this
      ensures Valid() && KeepsMarks()
      ensures Align(nbytes) <= stacknxt
      ensures blocks != [] ==> p == Pointer(blocks[|blocks| - 1].base, stacknxt - Align(nbytes))
      ensures if Align(nbytes) <= old(stacknleft) then
          p == old(Here()) && blocks == old(blocks) && stacknxt == old(stacknxt) + Align(nbytes)
        else
          |blocks| == |old(blocks)| + 1 && blocks[..|old(blocks)|] == old(blocks)
          && p == Pointer(blocks[|old(blocks)|].base, 0)
          && |blocks[|old(blocks)|].data| == Align(Larger(Align(nbytes), MINSIZE))
    {
      var n := Align(nbytes);
      if n > stacknleft {
        StNewBlock(n);
      }
      p := Here();
      stacknxt := stacknxt + n;
      stacknleft := stacknleft - n;
    }

    /** The address is one of the current block. */
    predicate InCurrentBlock(p: Pointer)
      requires p.Pointer?
      reads this
    {
      InTop(blocks, p)
    }

    /**
     * What lies behind `p` is given back.  The distance is taken between addresses: the space left is
     * again that of the current block exactly if `p` lies in it.
     */
    method StUnalloc(p: Pointer)
      requires Valid() && blocks != [] && p.Pointer? && Address(p) % ALIGNMENT == 0
      modifies this`stacknxt, this`stacknleft
      ensures Base() + stacknxt == Address(p) && stacknxt + stacknleft == old(stacknxt + stacknleft)
      ensures Valid() <==> InCurrentBlock(p)
      ensures p.block == Base() && InCurrentBlock(p) ==> Here() == p
      ensures forall l :: Holds(l, old(blocks), old(stacknxt)) && (|l.blocks| < |blocks| || l.floor <= stacknxt) ==> Guards(l)
    {
      stacknleft := stacknleft + (Base() + stacknxt - Address(p));
      stacknxt := Address(p) - Base();
    }

    /** setstackmark */
    method SetStackMark() returns (mark: Mark, ghost live: LiveMark)
      requires Valid()
      modifies this
      ensures Valid() && KeepsMarks() && Guards(live)
      ensures live == LiveMark(mark, blocks, stacknxt) && blocks == old(blocks)
      ensures mark == Mark(if blocks == [] then None else Some(blocks[|blocks| - 1].base), old(stacknxt), old(stacknleft))
      ensures forall l :: Holds(l, old(blocks), old(stacknxt)) ==> Before(l, live)
    {
      mark := Mark(if blocks == [] then None else Some(blocks[|blocks| - 1].base), stacknxt, stacknleft);
      ghost var was := blocks;
      if blocks != [] && stacknxt == 0 {
        var _ := StAlloc(1);
      }
      live := LiveMark(mark, was, stacknxt);
    }

    /** popstackmark */
    method PopStackMark(mark: Mark, ghost live: LiveMark)
      requires Valid() && Guards(live) && live.mark == mark
      modifies this
      ensures Valid() && |blocks| == |live.blocks|
      ensures stacknxt == mark.stacknxt && stacknleft == mark.stacknleft
      ensures blocks == old(blocks)[..|live.blocks|]
      ensures forall l :: Holds(l, old(blocks), old(stacknxt)) && Before(l, live) ==> Guards(l)
    {
      hide Holds, Before;
      ghost var d := |live.blocks|;
      LivePlace(live, blocks, stacknxt);
      while (if blocks == [] then None else Some(blocks[|blocks| - 1].base)) != mark.stackp
        invariant d <= |blocks| <= |old(blocks)| && blocks == old(blocks)[..|blocks|]
        decreases |blocks|
      {
        blocks := blocks[..|blocks| - 1];
      }
      forall l | Holds(l, old(blocks), old(stacknxt)) && Before(l, live)
        ensures Holds(l, blocks, mark.stacknxt)
      {
        HoldsAfterPop(l, live, old(blocks), old(stacknxt));
      }
      stacknxt := mark.stacknxt;
      stacknleft := mark.stacknleft;
      sstrend := if stacknleft != 0 then stacknxt + stacknleft else stacknxt;
    }

    /** Whether growing for `min` more bytes raises "Out of space". */
    predicate OutOfSpace(min: nat)
      reads this
    {
      Larger(min, stacknleft) >= INT_MAX / 2 - HEADER
    }

    /** What the doubling of a 32-bit block length asks of the caller. */
    predicate LengthFits(min: nat)
      reads this
    {
      OutOfSpace(min) || Larger(min, stacknleft) + stacknleft + HEADER <= 0x4000_0000
    }

    /** The realloc branch: the current block holds nothing but the string, so it may move. */
    method MoveBlock(newlen: nat)
      requires Valid() && blocks != [] && stacknxt == 0
      requires newlen % ALIGNMENT == 0 && newlen >= HEADER + MINSIZE && newlen - HEADER >= stacknleft
      modifies this
      ensures Valid() && KeepsMarks() && stacknxt == 0 && stacknleft == newlen - HEADER
      ensures |blocks| == |old(blocks)| && Older() == old(Older())
      ensures Space()[..old(stacknleft)] == old(Space())
    {
      hide Holds;
      var top := |blocks| - 1;
      var below := blocks[..top];
      var was := blocks[top].data;
      var sp := Malloc(below, was + seq(newlen - HEADER - |was|, _ => '\0'));
      blocks := below + [sp];
      assert blocks[..top] == below;
      stacknleft := newlen - HEADER;
      sstrend := stacknxt + stacknleft;
      forall l | Holds(l, old(blocks), old(stacknxt))
        ensures Guards(l)
      {
        HoldsDepth(l, old(blocks), 0);
        HoldsBelow(l, old(blocks), 0, blocks, 0, top);
      }
    }

    /** growstackblock */
    method GrowStackBlock(min: nat) returns (ok: bool)
      requires Valid() && LengthFits(min)
      modifies this
      ensures Valid() && KeepsMarks() && |old(blocks)| <= |blocks| && ok == !old(OutOfSpace(min))
      ensures !ok ==> blocks == old(blocks) && Here() == old(Here()) && stacknleft == old(stacknleft)
      ensures ok ==>
        && stacknleft >= Larger(min, old(stacknleft)) + old(stacknleft) && stacknleft > old(stacknleft)
        && Space()[..old(stacknleft)] == old(Space())
        && stacknxt == 0 && blocks != []
        && Older() == if old(stacknxt) == 0 && old(blocks) != [] then old(Older()) else old(blocks)
    {
      hide Holds, Valid, Older, Space, Here;
      var m := if min < stacknleft then stacknleft else min;
      if m >= INT_MAX / 2 - HEADER {
        return false;
      }
      var newlen := NewLength(m + stacknleft + HEADER);
      if blocks != [] && stacknxt == 0 {
        MoveBlock(newlen);
      } else {
        MoveString(newlen);
      }
      ok := true;
    }

    /** The doubling loop of growstackblock. */
    method NewLength(min: int) returns (newlen: nat)
      requires min <= 0x4000_0000
      ensures min <= newlen <= 0x4000_0000 && newlen % ALIGNMENT == 0 && newlen >= MINSIZE + HEADER + ALIGNMENT
    {
      hide Doubled;
      newlen := 512;
      LargestLength();
      while newlen < min
        invariant newlen % ALIGNMENT == 0 && 512 <= newlen <= 0x4000_0000 && Doubled(newlen)
      {
        DoubledAgain(newlen);
        newlen := newlen * 2;
      }
    }

    /** The other branch: the string is copied to a new block. */
    method MoveString(newlen: nat)
      requires Valid() && (blocks == [] || stacknxt != 0)
      requires newlen % ALIGNMENT == 0 && newlen >= HEADER + MINSIZE && newlen - HEADER > stacknleft
      modifies this
      ensures Valid() && KeepsMarks() && stacknxt == 0 && stacknleft == newlen - HEADER
      ensures |blocks| == |old(blocks)| + 1 && Older() == old(blocks)
      ensures Space()[..old(stacknleft)] == old(Space())
    {
      hide Holds;
      var oldspace := Space();
      assert Align(newlen - HEADER) == newlen - HEADER;
      var p := StAlloc(newlen - HEADER);
      CopyIntoTop(0, oldspace);
      StUnalloc(p);
      forall l | Holds(l, old(blocks), old(stacknxt))
        ensures Guards(l)
      {
        HoldsDepth(l, old(blocks), old(stacknxt));
        HoldsBelow(l, old(blocks), old(stacknxt), blocks, 0, |old(blocks)|);
      }
    }

    /** Stores bytes at an offset of the current block at which nothing is allocated to older owners. */
    method CopyIntoTop(at: nat, text: string)
      requires Valid() && blocks != [] && at + |text| <= |blocks[|blocks| - 1].data|
      modifies this`blocks
      ensures Valid() && |blocks| == |old(blocks)| && blocks[..|blocks| - 1] == old(blocks)[..|blocks| - 1]
      ensures blocks[|blocks| - 1].base == old(blocks)[|blocks| - 1].base
      ensures var a, b := old(blocks)[|blocks| - 1].data, blocks[|blocks| - 1].data;
        b == a[..at] + text + a[at + |text|..]
      ensures at >= stacknxt ==> KeepsMarks() && Text(at + |text|) == old(Text(at)) + text
    {
      hide Holds, Separate;
      var top := |blocks| - 1;
      var sp := blocks[top];
      var data := sp.data[..at] + text + sp.data[at + |text|..];
      WrittenStaysSeparate(blocks, Block(sp.base, data));
      blocks := blocks[top := Block(sp.base, data)];
      if at >= stacknxt {
        WrittenText(sp.data, stacknxt, at, text);
      }
      forall l | Holds(l, old(blocks), old(stacknxt)) && at >= stacknxt
        ensures Guards(l)
      {
        HoldsAfterCopy(l, old(blocks), blocks, stacknxt, at);
      }
    }

    /** The string of which `p` is the end. */
    function Text(p: nat): string
      requires Valid() && stacknxt <= p <= sstrend
      reads this
    {
      Space()[..p - stacknxt]
    }

    /** growstackstr and makestrspace: the string keeps its bytes, and its end follows them. */
    method MakeStrSpace(min: nat, p: nat) returns (ok: bool, q: nat)
      requires Valid() && stacknxt <= p <= sstrend && LengthFits(min)
      modifies this
      ensures Valid() && KeepsMarks() && |old(blocks)| <= |blocks| && stacknxt <= q <= sstrend && Text(q) == old(Text(p))
      ensures ok == !old(OutOfSpace(min)) && (ok ==> sstrend - q >= min && sstrend > q)
      ensures ok ==> blocks != []
      ensures !ok ==> q == p && sstrend == old(sstrend)
    {
      var len := p - stacknxt;
      ghost var was := Space();
      ok := GrowStackBlock(min);
      q := stacknxt + len;
      assert ok ==> Space()[..len] == Space()[..|was|][..len];
    }

    /** CHECKSTRSPACE: at least `n` bytes are left behind the string. */
    method CheckStrSpace(n: nat, p: nat) returns (ok: bool, q: nat)
      requires Valid() && stacknxt <= p <= sstrend && LengthFits(n)
      modifies this
      ensures Valid() && KeepsMarks() && stacknxt <= q <= sstrend && Text(q) == old(Text(p))
      ensures ok ==> sstrend - q >= n
      ensures !ok ==> old(OutOfSpace(n))
    {
      ok, q := true, p;
      if sstrend - p < n {
        ok, q := MakeStrSpace(n, p);
      }
    }

    /** The test that STPUTC and STACKSTRNUL share: there is room for one more byte. */
    method RoomForOne(p: nat) returns (ok: bool, q: nat)
      requires Valid() && stacknxt <= p <= sstrend && LengthFits(0)
      modifies this
      ensures Valid() && KeepsMarks() && |old(blocks)| <= |blocks| && stacknxt <= q <= sstrend && Text(q) == old(Text(p))
      ensures ok ==> q < sstrend && blocks != []
      ensures !ok ==> p == old(sstrend) && old(OutOfSpace(0))
    {
      hide Holds;
      ok, q := true, p;
      if p == sstrend {
        ok, q := MakeStrSpace(0, p);
      }
    }

    /** STPUTC: the string gets one more character. */
    method StPutC(c: char, p: nat) returns (ok: bool, q: nat)
      requires Valid() && stacknxt <= p <= sstrend && LengthFits(0)
      modifies this
      ensures Valid() && KeepsMarks() && |old(blocks)| <= |blocks| && stacknxt <= q <= sstrend
      ensures Text(q) == if ok then old(Text(p)) + [c] else old(Text(p))
      ensures !ok ==> p == old(sstrend) && old(OutOfSpace(0))
    {
      hide Holds, Separate;
      ok, q := RoomForOne(p);
      if ok {
        CopyIntoTop(q, [c]);
        q := q + 1;
      }
    }

    /** STACKSTRNUL: the string is followed by a NUL that is not part of it. */
    method StackStrNul(p: nat) returns (ok: bool, q: nat)
      requires Valid() && stacknxt <= p <= sstrend && LengthFits(0)
      modifies this
      ensures Valid() && KeepsMarks() && stacknxt <= q <= sstrend && Text(q) == old(Text(p))
      ensures ok ==> q < sstrend && Space()[q - stacknxt] == '\0'
    {
      hide Holds, Separate;
      ok, q := RoomForOne(p);
      if ok {
        ghost var was := Text(q);
        CopyIntoTop(q, ['\0']);
        ghost var now := Text(q + 1);
        assert Text(q) == now[..|was|] && Space()[|was|] == now[|was|];
      }
    }

    /** grabstackstr: the string becomes an allocation without moving. */
    method GrabStackStr(p: nat) returns (s: Pointer)
      requires Valid() && stacknxt <= p <= sstrend
      modifies this
      ensures Valid() && KeepsMarks()
      ensures s == old(Here()) && blocks == old(blocks)
      ensures s.Pointer? ==> p <= stacknxt && blocks[|blocks| - 1].data[s.offset..p] == old(Text(p))
    {
      AlignFits(p - stacknxt, stacknleft);
      s := StAlloc(p - stacknxt);
    }

    // ---- Runs ----

    function Now(): Place
      reads this
    {
      Place(blocks, stacknxt, stacknleft)
    }

    /** Everything that is live can be undone in its turn. */
    predicate Undoable(items: seq<Item>)
      reads this
    {
      UndoableIn(items, blocks, stacknxt)
    }

    method Undo(item: Item, items: seq<Item>) returns (ending: Ending)
      requires Valid() && Undoable(items + [item]) && item.Allocated?
      modifies this`stacknxt, this`stacknleft
      ensures ending == (if item.p.Null? then Aborted else if InCurrentBlock(item.p) then Completed else OutsideBlock)
      ensures Valid() <==> ending != OutsideBlock
      ensures ending == Completed ==> Undoable(items) && GoesBack(item.p, old(Now()), Now())
    {
      var all := items + [item];
      assert all[|items|] == item;
      assert forall i :: 0 <= i < |items| ==> all[i] == items[i] && Nested(items[i], item);
      if item.p.Null? {
        return Aborted;
      }
      ending := if InCurrentBlock(item.p) then Completed else OutsideBlock;
      StUnalloc(item.p);
    }

    method Allocate(n: nat, k: nat, ghost items: seq<Item>) returns (item: Item)
      requires Valid() && Undoable(items)
      modifies this
      ensures Valid() && Undoable(items + [item]) && item.Allocated? && KeepsMarks()
      ensures item.madeBy == k && item.p == Made(old(Now()), Now()) && item.kept == Protects(Now())
      ensures HasRoom(old(Now()), Now(), n)
    {
      hide Holds, UndoableIn;
      var p := StAlloc(n);
      var kept := Protects(Now());
      item := Allocated(p, |blocks|, k, kept);
      AllocationFits(items, old(blocks), old(stacknxt), blocks, stacknxt, p, k, kept);
    }

    method GrabItem(end: nat, k: nat, ghost items: seq<Item>) returns (item: Item)
      requires Valid() && Undoable(items) && stacknxt <= end <= sstrend
      modifies this
      ensures Valid() && Undoable(items + [item]) && item.Allocated? && KeepsMarks()
      ensures item.madeBy == k && item.p == Made(old(Now()), Now()) && item.kept == Protects(Now())
      ensures Gives(Grab, old(Text(end)), old(Now()), Now())
    {
      hide Holds, UndoableIn;
      var p := GrabStackStr(end);
      var kept := Protects(Now());
      item := Allocated(p, |blocks|, k, kept);
      AllocationFits(items, old(blocks), old(stacknxt), blocks, stacknxt, p, k, kept);
    }

    method MarkItem(k: nat, ghost items: seq<Item>) returns (item: Item)
      requires Valid() && Undoable(items)
      modifies this
      ensures Valid() && Undoable(items + [item]) && item.Marked? && item.madeBy == k && KeepsMarks()
      ensures item.live.blocks == old(blocks)
      ensures item.live.mark.stacknxt == old(stacknxt) && item.live.mark.stacknleft == old(stacknleft)
    {
      hide Holds, UndoableIn;
      var was := blocks;
      ghost var live;
      var mark;
      mark, live := SetStackMark();
      item := Marked(LiveMark(mark, was, stacknxt), k);
      MarkFits(items, old(blocks), old(stacknxt), blocks, stacknxt, live, k);
    }

    /** Pops the newest mark, and with it every allocation made after it. */
    method PopItem(items: seq<Item>, at: nat)
      requires Valid() && Undoable(items) && at < |items| && items[at].Marked?
      modifies this
      ensures Valid() && Undoable(items[..at])
      ensures var live := items[at].live;
        && Holds(live, old(blocks), old(stacknxt)) && blocks == old(blocks)[..|live.blocks|]
        && stacknxt == live.mark.stacknxt && stacknleft == live.mark.stacknleft
    {
      hide Holds;
      var live := items[at].live;
      assert Good(items[at], blocks, stacknxt);
      PopStackMark(live.mark, live);
      PoppedFits(items, at, old(blocks), old(stacknxt), blocks, stacknxt);
    }

    /** One operation of a run. */
    method Do(op: Op, items: seq<Item>, end: int, k: nat, ghost shape: seq<Live>, ghost at: seq<Place>)
      returns (ending: Ending, items': seq<Item>, end': int)
      requires op.Release? ==> shape != [] && shape[|shape| - 1].Memory?
      requires op.PopMark? ==> LastMark(shape) < |shape|
      requires |at| == k + 1 && at[k] == Now() && Matches(items, shape, at)
      requires Valid() && Undoable(items) && stacknxt <= end <= sstrend && (op.Put? ==> LengthFits(0) && !OutOfSpace(0))
      modifies this
      ensures ending == Completed || (op.Release? && (ending == OutsideBlock || ending == Aborted))
      ensures ReleaseEnds(op, shape, at, k, ending)
      ensures Valid() <==> ending != OutsideBlock
      ensures ending == Completed ==>
        && Undoable(items') && Matches(items', NextShape(shape, op, k), at + [Now()]) && stacknxt <= end' <= sstrend
        && TakesBack(op, shape, at + [Now()], |at|)
        && Text(end') == (if op.Put? then old(Text(end)) + [op.c] else "") && Gives(op, old(Text(end)), at[k], Now())
    {
      hide Holds, UndoableIn, Before, Matches, Restored, LastMark;
      MatchesLength(items, shape, at);
      if op.Release? {
        items' := items[..|items| - 1];
        assert items == items' + [items[|items| - 1]];
        MatchesLast(items, shape, at);
        ending := Undo(items[|items| - 1], items');
        MatchesCut(items, shape, at, |items| - 1, Now());
        end' := stacknxt;
        return;
      }
      ending := Completed;
      if op.PopMark? {
        var m := LastMarked(items, shape, at);
        MarkedAt(items, shape, at, m);
        PopItem(items, m);
        PoppedIsRestored(items[m].live, at[items[m].madeBy], old(blocks), old(stacknxt), Now());
        MatchesCut(items, shape, at, m, Now());
        items', end' := items[..m], stacknxt;
        return;
      }
      items', end' := Push(op, items, end, k);
      PushMatches(op, items, items', shape, at, Now(), k);
    }

    /** The operations that make something live, or nothing. */
    method Push(op: Op, items: seq<Item>, end: int, k: nat) returns (items': seq<Item>, end': int)
      requires !op.Release? && !op.PopMark?
      requires Valid() && Undoable(items) && stacknxt <= end <= sstrend && (op.Put? ==> LengthFits(0) && !OutOfSpace(0))
      modifies this
      ensures Valid() && Undoable(items') && stacknxt <= end' <= sstrend
      ensures if op.Put? then items' == items
        else |items'| == |items| + 1 && items'[..|items|] == items && items'[|items|].Marked? == op.SetMark?
      ensures !op.Put? ==> items'[|items|].madeBy == k
      ensures op.SetMark? ==> MarksPlace(items'[|items|].live, old(Now()))
      ensures Text(end') == (if op.Put? then old(Text(end)) + [op.c] else "") && Gives(op, old(Text(end)), old(Now()), Now())
      ensures op.Alloc? || op.Grab? ==> items'[|items|].p == Made(old(Now()), Now()) && items'[|items|].kept == Protects(Now())
    {
      hide Holds, UndoableIn, Before;
      if op.Put? {
        var ok;
        ok, end' := StPutC(op.c, end);
        items' := items;
        StillUndoable(items, old(blocks), old(stacknxt), blocks, stacknxt);
        return;
      }
      var item;
      match op {
        case Alloc(n) => item := Allocate(n, k, items);
        case Grab => item := GrabItem(end, k, items);
        case SetMark => item := MarkItem(k, items);
      }
      items', end' := items + [item], stacknxt;
    }

    /** The newest mark among what is live. */
    method LastMarked(items: seq<Item>, ghost shape: seq<Live>, ghost at: seq<Place>) returns (m: nat)
      requires Matches(items, shape, at) && LastMark(shape) < |shape|
      ensures m == LastMark(shape) && m < |items| && items[m].Marked?
    {
      m := |items|;
      while m > 0
        invariant LastMark(shape) < m <= |items|
      {
        m := m - 1;
        if items[m].Marked? {
          return;
        }
      }
    }

    /** Where a run stands before operation `k`. */
    ghost predicate StandsAt(ops: seq<Op>, at: seq<Place>, items: seq<Item>, end: int)
      reads this
    {
      && 0 < |at| <= |ops| + 1 && at[|at| - 1] == Now() && Valid() && stacknxt <= end <= sstrend
      && Undoable(items) && Matches(items, Shape(ops, |at| - 1), at) && KeptSoFar(ops, at) && Text(end) == PutText(ops, |at| - 1)
    }

    /** The next operation of a run. */
    method RunOne(ops: seq<Op>, items: seq<Item>, end: int, k: nat, ghost at: seq<Place>)
      returns (ending: Ending, items': seq<Item>, end': int)
      requires k < |ops| && Lifo(ops) && |at| == k + 1 && StandsAt(ops, at, items, end)
      requires ops[k].Put? ==> LengthFits(0) && !OutOfSpace(0)
      modifies this
      ensures ending == Completed ==> StandsAt(ops, at + [Now()], items', end')
      ensures ending != Completed ==>
        && ending != TooLong && ops[k].Release? && ReleaseEnds(ops[k], Shape(ops, k), at, k, ending)
        && (Valid() <==> ending != OutsideBlock)
    {
      hide KeptSoFar, Matches, UndoableIn, MarksKept, TakesBack, ReleaseEnds, Gives, Holds, Shape, NextShape, LastMark,
        Lifo, PutText;
      LifoAt(ops, k);
      ending, items', end' := Do(ops[k], items, end, k, Shape(ops, k), at);
      if ending == Completed {
        PutsGoOn(ops, k);
        OneMorePlace(ops, at, Now(), items');
      }
    }

    /**
     * Any run that releases and pops what is live, newest first.  `at` lists where the stack stood before
     * each operation.  The space left is always that of the current block exactly if no pointer is
     * released outside the block that is current then.  Until such a release, a null pointer released,
     * or a length that does not fit, all that was allocated at a live mark or allocation stays where it
     * was, popping the mark restores the place, a release goes back to its pointer, allocations have the
     * bytes asked for, and a grabbed string is what was put.
     */
    method Run(ops: seq<Op>) returns (ending: Ending, at: seq<Place>)
      requires Valid() && Lifo(ops)
      modifies this
      ensures 0 < |at| <= |ops| + 1 && at[0] == old(Now()) && (ending == Completed <==> |at| == |ops| + 1)
      ensures ending == OutsideBlock || ending == Aborted ==>
        ops[|at| - 1].Release? && ReleaseEnds(ops[|at| - 1], Shape(ops, |at| - 1), at, |at| - 1, ending)
      ensures ending == TooLong ==> ops[|at| - 1].Put? && 2 * at[|at| - 1].stacknleft + HEADER > 0x4000_0000
      ensures Valid() <==> ending != OutsideBlock
      ensures KeptSoFar(ops, at)
    {
      hide KeptSoFar, Matches, UndoableIn, ReleaseEnds, Holds, Shape, Lifo, PutText;
      var k, end, items := 0, stacknxt, [];
      at := [Now()];
      NothingYet(ops, at, items, blocks, stacknxt);
      NothingPut(ops);
      while k < |ops|
        invariant 0 <= k <= |ops| && |at| == k + 1 && at[0] == old(Now())
        invariant StandsAt(ops, at, items, end)
      {
        if ops[k].Put? && (OutOfSpace(0) || !LengthFits(0)) {
          return TooLong, at;
        }
        ending, items, end := RunOne(ops, items, end, k, at);
        if ending != Completed {
          return;
        }
        at := at + [Now()];
        k := k + 1;
      }
      ending := Completed;
    }
  }

  /**
   * The exception is real: of two allocations that need a block each, releasing the second and then the
   * first leaves stacknxt in the first block while the second is the current one.
   */
  method ReleaseOfTwoBlocks() returns (a: StackAllocator)
    ensures fresh(a) && !a.Valid()
  {
    hide Holds;
    a := new StackAllocator();
    var first := a.StAlloc(400);
    assert |a.blocks| == 1 && |a.blocks[0].data| == 496 && first == Pointer(a.blocks[0].base, 0);
    var second := a.StAlloc(400);
    assert |a.blocks| == 2 && a.blocks[..1][0] == a.blocks[0];
    OtherBlockIsOutside(a.blocks, 0, first);
    a.StUnalloc(second);
    a.StUnalloc(first);
  }

  /** A pointer into another block is never in the current one. */
  lemma OtherBlockIsOutside(blocks: seq<Block>, i: nat, p: Pointer)
    requires i < |blocks| - 1 && Separate(blocks) && p.Pointer?
    requires p.block == blocks[i].base && 0 <= p.offset <= |blocks[i].data|
    ensures var now := blocks[|blocks| - 1]; !(now.base <= Address(p) <= now.base + |now.data|)
  {
    assert Apart(blocks[i], blocks[|blocks| - 1]);
  }

  function Larger(a: int, b: int): int {
    if a < b then b else a
  }

  /** 512 times a power of two. */
  predicate Doubled(n: nat)
    decreases n
  {
    n == 512 || (n > 512 && n % 2 == 0 && Doubled(n / 2))
  }

  lemma DoubledAgain(n: nat)
    requires Doubled(n) && n < 0x4000_0000
    ensures Doubled(n * 2) && n * 2 <= 0x4000_0000
  {
    LargestLength();
    DoubledDivides(n, 0x4000_0000);
  }

  lemma LargeLength()
    ensures Doubled(0x8_0000)
  {
    assert Doubled(0x800);
    assert Doubled(0x2000);
    assert Doubled(0x8000);
    assert Doubled(0x2_0000);
  }

  lemma LargestLength()
    ensures Doubled(512) && Doubled(0x4000_0000)
  {
    LargeLength();
    assert Doubled(0x20_0000);
    assert Doubled(0x80_0000);
    assert Doubled(0x200_0000);
    assert Doubled(0x800_0000);
    assert Doubled(0x2000_0000);
  }

  /** Of two such numbers the smaller is at most half of the larger. */
  lemma {:induction false} DoubledDivides(a: nat, b: nat)
    requires Doubled(a) && Doubled(b) && a < b
    ensures a * 2 <= b
    decreases b
  {
    if a > 512 {
      DoubledDivides(a / 2, b / 2);
    }
  }
}
