/** The physical memory manager: a buddy allocator over 16 orders. */
module PhysManager {
  import opened Arith
  import opened MemTypes
  import opened BuddyBlocks
  import opened BuddyLists

  function Log2(n: nat): (k: nat)
    requires n > 0
    ensures Pow2(k) <= n < Pow2(k + 1)
  {
    if n == 1 then 0 else 1 + Log2(n / 2)
  }

  /** The number of trailing zero bits; the machine's answer for 0 is its word size. */
  function TrailingZeros(n: nat): (k: nat)
    ensures n > 0 ==> Aligned(n, k) && !Aligned(n, k + 1)
    ensures n == 0 ==> k == 64
  {
    if n == 0 then 64 else if n % 2 == 1 then 0
    else
      var k := 1 + TrailingZeros(n / 2);
      HalfAligned(n, k);
      k
  }

  lemma {:induction false} HalfAligned(n: nat, k: nat)
    requires k > 0 && n % 2 == 0 && Aligned(n / 2, k - 1)
    ensures Aligned(n, k) && (Aligned(n, k + 1) <==> Aligned(n / 2, k))
  {
    UpUp(n, 1, k);
    UpUp(n, 1, k + 1);
  }

  function BuddyOf(pfn: nat, order: nat): nat {
    if Up(pfn, order) % 2 == 0 then pfn + Pow2(order) else if pfn >= Pow2(order) then pfn - Pow2(order) else 0
  }

  function ParentOf(pfn: nat, order: nat): nat {
    if Up(pfn, order) % 2 == 1 && pfn >= Pow2(order) then pfn - Pow2(order) else pfn
  }

  function SplitmapIndex(pfn: nat, order: nat): nat {
    Up(pfn, order + 1)
  }

  /** Exclusive or, bit by bit. */
  function Xor(a: nat, b: nat): nat {
    if a == 0 && b == 0 then 0 else 2 * Xor(a / 2, b / 2) + (a + b) % 2
  }

  /** The bits of `a` that are not set in `b`. */
  function AndNot(a: nat, b: nat): nat {
    if a == 0 then 0 else 2 * AndNot(a / 2, b / 2) + (if a % 2 == 1 && b % 2 == 0 then 1 else 0)
  }

  lemma {:induction false} WithZero(a: nat)
    ensures Xor(a, 0) == a && AndNot(a, 0) == a
  {
    if a > 0 {
      WithZero(a / 2);
    }
  }

  lemma {:induction false} UpHalf(pfn: nat, order: nat)
    ensures Up(pfn, order + 1) == Up(pfn / 2, order)
  {
    if order > 0 {
      UpHalf(pfn, order - 1);
    }
  }

  lemma {:induction false} BitBelow(pfn: nat, order: nat)
    requires Up(pfn, order) > 0
    ensures pfn >= Pow2(order)
  {
    if order > 0 {
      UpHalf(pfn, order - 1);
      BitBelow(pfn / 2, order - 1);
    }
  }

  lemma {:induction false} BitsOfHalf(pfn: nat, order: nat)
    requires order > 0
    ensures BuddyOf(pfn, order) == 2 * BuddyOf(pfn / 2, order - 1) + pfn % 2
    ensures ParentOf(pfn, order) == 2 * ParentOf(pfn / 2, order - 1) + pfn % 2
  {
    UpHalf(pfn, order - 1);
    if Up(pfn, order) > 0 {
      BitBelow(pfn, order);
      BitBelow(pfn / 2, order - 1);
    }
  }

  lemma {:induction false} XorHalf(a: nat, b: nat)
    ensures Xor(a, 2 * b) == 2 * Xor(a / 2, b) + a % 2
  {
    assert 2 * b / 2 == b && (a + 2 * b) % 2 == a % 2;
  }

  lemma {:induction false} AndNotHalf(a: nat, b: nat)
    ensures AndNot(a, 2 * b) == 2 * AndNot(a / 2, b) + a % 2
  {
    assert 2 * b / 2 == b && 2 * b % 2 == 0;
  }

  lemma {:induction false} LowestBit(pfn: nat)
    ensures BuddyOf(pfn, 0) == Xor(pfn, 1) && ParentOf(pfn, 0) == AndNot(pfn, 1)
  {
    WithZero(pfn / 2);
    assert (pfn + 1) % 2 == 1 - pfn % 2;
  }

  /** The buddy is found by flipping the bit of the block's order, and the parent by clearing it. */
  lemma {:induction false} BuddyFlipsBit(pfn: nat, order: nat)
    ensures BuddyOf(pfn, order) == Xor(pfn, Pow2(order)) && ParentOf(pfn, order) == AndNot(pfn, Pow2(order))
  {
    if order == 0 {
      LowestBit(pfn);
    } else {
      BitsOfHalf(pfn, order);
      XorHalf(pfn, Pow2(order - 1));
      AndNotHalf(pfn, Pow2(order - 1));
      BuddyFlipsBit(pfn / 2, order - 1);
    }
  }

  lemma {:induction false} BuddyOfIsBuddy(pfn: nat, order: nat)
    requires Aligned(pfn, order)
    ensures BuddyOf(pfn, order) == First(BuddyIndex(Up(pfn, order)), order)
    ensures ParentOf(pfn, order) == First(Up(pfn, order + 1), order + 1)
  {
    var n := Up(pfn, order);
    if n % 2 == 0 {
      FirstNext(n, order);
    } else {
      FirstNext(n - 1, order);
    }
    FirstShift(n / 2, order);
  }

  lemma {:induction false} AlignedLower(pfn: nat, high: nat, low: nat)
    requires low <= high && Aligned(pfn, high)
    ensures Aligned(pfn, low)
    decreases high
  {
    if low < high {
      var n := Up(pfn, high - 1);
      UpBounds(pfn, high - 1);
      FirstShift(n / 2, high - 1);
      if n % 2 == 1 {
        FirstNext(n - 1, high - 1);
      }
      AlignedLower(pfn, high - 1, low);
    }
  }

  /** A block and its buddy make up their parent. */
  lemma {:induction false} ParentBlock(n: nat, k: nat)
    ensures Block(n / 2, k + 1) == Block(n, k) + Block(BuddyIndex(n), k)
    ensures Block(n, k) !! Block(BuddyIndex(n), k)
  {
    forall f: nat
      ensures f in Block(n / 2, k + 1) <==> f in Block(n, k) + Block(BuddyIndex(n), k)
    {
      assert Up(f, k + 1) == Up(f, k) / 2;
    }
  }

  /** The pair of a frame below `max` has a bit in the bitmap for `max`. */
  lemma {:induction false} PairInBitmap(f: nat, max: nat, k: nat)
    requires f < max
    ensures Up(f, k + 1) < Pairs(max, k)
  {
    var d, u := Pow2(k + 1), Up(f, k + 1);
    UpBounds(f, k + 1);
    FirstIsProduct(u, k + 1);
    assert max + d - 1 >= u * d + d;
    QuotientAtLeast(max + d - 1, d, u + 1);
  }

  lemma {:induction false} FirstIsProduct(n: nat, k: nat)
    ensures First(n, k) == n * Pow2(k)
  {
    if k > 0 {
      FirstIsProduct(n, k - 1);
      MulAssoc(2, n, Pow2(k - 1));
    }
  }

  lemma QuotientAtLeast(v: nat, d: nat, q: nat)
    requires d > 0 && v >= q * d
    ensures v / d >= q
  {
    var r := v / d;
    assert r * d + d > v;
    if r < q {
      MulGap(r, q, d);
    }
  }

  ghost predicate AllBelow(frames: set<nat>, max: nat) {
    forall f :: f in frames ==> f < max
  }

  /** The frames of the block at `p` of order `k`. */
  ghost function BlockAt(p: nat, k: nat): set<nat> {
    Block(Up(p, k), k)
  }

  /** Every block handed out is aligned and in use, no two overlap, and together they are all frames in use. */
  ghost predicate LiveOk(live: map<nat, nat>, used: set<nat>, max: nat) {
    && (forall p {:trigger LiveBlock(live, used, p)} :: p in live ==> LiveBlock(live, used, p))
    && (forall p, q {:trigger Apart(live, p, q)} :: p in live && q in live && p != q ==> Apart(live, p, q))
    && (forall f {:trigger Owned(live, max, f)} :: f in used ==> Owned(live, max, f))
  }

  ghost predicate LiveBlock(live: map<nat, nat>, used: set<nat>, p: nat)
    requires p in live
  {
    live[p] <= MAX_ORDER && Aligned(p, live[p]) && BlockAt(p, live[p]) <= used
  }

  ghost predicate Apart(live: map<nat, nat>, p: nat, q: nat)
    requires p in live && q in live
  {
    BlockAt(p, live[p]) !! BlockAt(q, live[q])
  }

  ghost predicate Owned(live: map<nat, nat>, max: nat, f: nat) {
    f < max && exists p :: p in live && f in BlockAt(p, live[p])
  }

  class PhysManager {
    var totalPages: nat
    var levels: seq<BuddyLevel>
    const maxPfn: nat
    /** The free frames, the frames handed out, and the order of each block handed out. */
    ghost var free: set<nat>
    ghost var used: set<nat>
    ghost var live: map<nat, nat>

    ghost predicate Consistent()
      reads this
    {
      Agree(levels, free, maxPfn) && AllBelow(free, maxPfn)
    }

    ghost predicate Valid()
      reads this
    {
      Consistent() && LiveOk(live, used, maxPfn) && free !! used && totalPages == |free| + |used|
    }

    constructor (maxPfn: nat)
      ensures Valid() && this.maxPfn == maxPfn && free == {} && used == {} && totalPages == 0
    {
      this.maxPfn := maxPfn;
      totalPages := 0;
      levels := seq(ORDER_COUNT, k requires 0 <= k => BuddyLevel([], 0, seq(Pairs(maxPfn, k), _ => false)));
      free, used, live := {}, {}, map[];
      new;
      EmptyLevels(levels, maxPfn);
    }

    /** One round of freeing: toggles the pair's bit and, if the buddy is free, takes it off its list. */
    method MergeWithBuddy(p: nat, k: nat, ghost n: nat, ghost target: set<nat>) returns (merged: bool)
      requires Agree(levels, free, maxPfn) && Holds(free, n, k, target) && k < MAX_ORDER && p == First(n, k) && p < maxPfn
      modifies this`levels, this`free
      ensures merged ==> Agree(levels, free, maxPfn) && Holds(free, n / 2, k + 1, target)
      ensures !merged ==> ReadyToPush(levels, free, maxPfn, n, k) && free == old(free)
    {
      MergePosition(p, n, k, maxPfn);
      SplitBit(levels, free, maxPfn, n, k);
      ghost var before := levels;
      levels := levels[k := levels[k].ToggleParentSplit(SplitmapIndex(p, k))];
      if levels[k].splitmap[SplitmapIndex(p, k)] {
        StopStep(before, free, maxPfn, n, k);
        return false;
      }
      MergeStep(before, free, maxPfn, n, k);
      HoldParent(free, n, k, target);
      levels := levels[k := levels[k].RemoveFree(BuddyOf(p, k))];
      free := free - Block(BuddyIndex(n), k);
      return true;
    }

    method Push(p: nat, k: nat, ghost n: nat)
      requires ReadyToPush(levels, free, maxPfn, n, k) && p == First(n, k)
      modifies this`levels, this`free
      ensures Agree(levels, free, maxPfn) && free == old(free) + Block(n, k)
    {
      PushStep(levels, free, maxPfn, n, k);
      levels := levels[k := levels[k].PushFree(p)];
      free := free + Block(n, k);
    }

    /** The source's `deallocate`: frees a block that is neither free nor in use, merging upward. */
    method Release(pfn: nat, order: nat)
      requires Consistent() && order <= MAX_ORDER && Aligned(pfn, order)
      requires free !! BlockAt(pfn, order) && pfn + Pow2(order) <= maxPfn
      modifies this`levels, this`free
      ensures Consistent() && free == old(free) + BlockAt(pfn, order)
    {
      var p: nat, k: nat := pfn, order;
      ghost var n: nat := Up(p, k);
      ghost var target := free + Block(n, k);
      while k < ORDER_COUNT - 1
        invariant k <= MAX_ORDER && p == First(n, k) && p < maxPfn
        invariant Agree(levels, free, maxPfn)
        invariant Holds(free, n, k, target)
        decreases ORDER_COUNT - k
      {
        var merged := MergeWithBuddy(p, k, n, target);
        if !merged {
          break;
        }
        MergePosition(p, n, k, maxPfn);
        p, k, n := ParentOf(p, k), k + 1, n / 2;
      }
      if k == MAX_ORDER {
        TopStep(levels, free, maxPfn, n, k);
      }
      Push(p, k, n);
      BlockBelow(pfn, order, maxPfn);
    }

    /** Takes the first block off a free list and records it in the pair's bit. */
    method TakeHead(k: nat) returns (p: nat)
      requires Consistent() && k < ORDER_COUNT && levels[k].freeList != []
      modifies this`levels, this`free
      ensures Consistent() && Aligned(p, k) && Whole(old(free), Up(p, k), k)
      ensures free == old(free) - BlockAt(p, k) && p == old(levels)[k].freeList[0]
    {
      p := levels[k].freeList[0];
      HeadTaken(levels, free, maxPfn, k);
      var level := levels[k].(freeList := levels[k].freeList[1..], freeBlocks := levels[k].freeBlocks - 1);
      levels := levels[k := level.ToggleParentSplit(SplitmapIndex(p, k))];
      free := free - BlockAt(p, k);
    }

    /** Frees the upper half of a block that is being split at order `k`. */
    method SplitOff(p: nat, k: nat)
      requires Consistent() && k < MAX_ORDER && Aligned(p, k) && p < maxPfn && p !in free
      requires free !! UpperHalf(p, k) && AllBelow(UpperHalf(p, k), maxPfn)
      modifies this`levels, this`free
      ensures Consistent() && free == old(free) + UpperHalf(p, k)
    {
      ghost var b := BuddyIndex(Up(p, k));
      PairInBitmap(p, maxPfn, k);
      BuddyOfIsBuddy(p, k);
      assert BuddyIndex(b) == Up(p, k);
      StopStep(levels, free, maxPfn, b, k);
      levels := levels[k := levels[k].ToggleParentSplit(SplitmapIndex(p, k))];
      Push(BuddyOf(p, k), k, b);
    }

    method Allocate(order: nat) returns (r: Option<nat>)
      requires Valid()
      modifies this`levels, this`free, this`used, this`live
      ensures Valid()
      ensures r.None? <==> order >= ORDER_COUNT || forall n: nat :: !Whole(old(free), n, order)
      ensures r.None? ==> levels == old(levels) && free == old(free) && used == old(used) && live == old(live)
      ensures r.Some? ==>
                && order < ORDER_COUNT && Aligned(r.value, order)
                && Whole(old(free), Up(r.value, order), order)
                && free == old(free) - BlockAt(r.value, order)
                && used == old(used) + BlockAt(r.value, order)
                && r.value !in old(live) && live == old(live)[r.value := order]
                && exists found: nat :: HeadOfFirst(old(levels), order, found, r.value)
    {
      if order >= ORDER_COUNT {
        return None;
      }
      SearchFinds(levels, free, order);
      var found := order;
      while found < ORDER_COUNT && levels[found].freeList == []
        invariant order <= found <= ORDER_COUNT
        invariant forall k :: order <= k < found ==> levels[k].freeList == []
      {
        found := found + 1;
      }
      if found == ORDER_COUNT {
        return None;
      }
      assert HeadOfFirst(levels, order, found, levels[found].freeList[0]);
      var p := TakeAndSplit(order, found);
      TakenIsLive(free, old(free), used, live, p, order, maxPfn);
      used := used + BlockAt(p, order);
      live := live[p := order];
      return Some(p);
    }

    /** Gives back a block that `Allocate` handed out. */
    method Deallocate(pfn: nat, order: nat)
      requires Valid() && pfn in live && live[pfn] == order
      modifies this`levels, this`free, this`used, this`live
      ensures Valid()
      ensures free == old(free) + BlockAt(pfn, order) && used == old(used) - BlockAt(pfn, order)
      ensures live == old(live) - {pfn}
    {
      ReturnedIsNotLive(live, used, maxPfn, pfn);
      live := live - {pfn};
      used := used - BlockAt(pfn, order);
      Release(pfn, order);
    }

    /** Allocating a block and giving it straight back restores every free list, up to order. */
    method AllocateAndReturn(order: nat)
      requires Valid()
      modifies this`levels, this`free, this`used, this`live
      ensures Valid() && free == old(free) && used == old(used) && live == old(live)
      ensures forall k: nat, p :: k < ORDER_COUNT ==> (p in levels[k].freeList <==> p in old(levels)[k].freeList)
    {
      var r := Allocate(order);
      if r.Some? {
        Deallocate(r.value, order);
        assert free == old(free) && used == old(used) && live == old(live);
      }
      forall k: nat, p | k < ORDER_COUNT
        ensures p in levels[k].freeList <==> p in old(levels)[k].freeList
      {
        HistoryIndependent(levels, old(levels), free, k, p);
      }
    }

    /** The free pages, added up over the lists; with the pages in use they are all pages. */
    method FreePageCount() returns (n: nat)
      requires Valid()
      ensures n == |free| && n + |used| == totalPages
    {
      n := 0;
      for order := 0 to ORDER_COUNT
        invariant n == FreePages(levels[..order])
      {
        n := n + First(levels[order].freeBlocks, order);
        assert levels[..order + 1][..order] == levels[..order];
      }
      assert levels[..ORDER_COUNT] == levels;
    }

    /** Reports `start..end` as free memory. */
    method AddFreeRange(start: nat, end: nat)
      requires Valid() && start <= end <= maxPfn
      requires Range(start, end - start) !! free + used
      modifies this`levels, this`free, this`totalPages
      ensures Valid()
      ensures free == old(free) + Range(start, end - start) && totalPages == old(totalPages) + (end - start)
    {
      AddRangeTotal(free, used, start, end);
      ReleaseRange(start, end);
      totalPages := totalPages + (end - start);
    }

    method ReleaseRange(start: nat, end: nat)
      requires Consistent() && start <= end <= maxPfn && Range(start, end - start) !! free
      modifies this`levels, this`free
      ensures Consistent() && free == old(free) + Range(start, end - start)
    {
      var cur: nat := start;
      while cur < end
        invariant start <= cur <= end && Consistent()
        invariant free == old(free) + Range(start, cur - start)
        decreases end - cur
      {
        cur := ReleaseNext(cur, end, start, old(free));
      }
    }

    /** Frees the largest aligned block at the start of `cur..end`. */
    method ReleaseNext(cur: nat, end: nat, ghost start: nat, ghost before: set<nat>) returns (next: nat)
      requires Consistent() && start <= cur < end <= maxPfn && Range(start, end - start) !! before
      requires free == before + Range(start, cur - start)
      modifies this`levels, this`free
      ensures Consistent() && cur < next <= end && free == before + Range(start, next - start)
    {
      var order := RangeOrder(cur, end);
      next := cur + Pow2(order);
      AddRangeStep(before, free, start, cur, order, next, end);
      Release(cur, order);
    }

    /** Takes a block of order `found` and splits it down to `order`, freeing the upper halves. */
    method TakeAndSplit(order: nat, found: nat) returns (p: nat)
      requires Consistent() && order <= found < ORDER_COUNT && levels[found].freeList != []
      modifies this`levels, this`free
      ensures Consistent() && Aligned(p, order) && Whole(old(free), Up(p, order), order)
      ensures free == old(free) - BlockAt(p, order) && p == old(levels)[found].freeList[0]
    {
      p := TakeHead(found);
      AlignedLower(p, found, order);
      UpUp(p, order, found);
      WholeBelow(old(free), Up(p, order), order, found);
      assert p in old(free);
      for cur := order to found
        invariant Consistent() && free == Splitting(old(free), p, order, cur, found)
      {
        SplitStep(old(free), p, order, cur, found, maxPfn);
        AlignedLower(p, found, cur);
        SplitOff(p, cur);
      }
      SplitDone(old(free), p, order, found);
    }
  }

  /** `p` is the first block on the first list, from `order` on, that is not empty. */
  predicate HeadOfFirst(levels: seq<BuddyLevel>, order: nat, found: nat, p: nat) {
    && order <= found < |levels| && levels[found].freeList != [] && levels[found].freeList[0] == p
    && forall k :: order <= k < found ==> levels[k].freeList == []
  }

  /** The order of the next block to free: the largest that alignment, the rest of the range and the lists allow. */
  method RangeOrder(cur: nat, end: nat) returns (order: nat)
    requires cur < end
    ensures order <= MAX_ORDER && Aligned(cur, order) && cur + Pow2(order) <= end
    ensures order < MAX_ORDER ==> !Aligned(cur, order + 1) || cur + Pow2(order + 1) > end
  {
    order := Min(Min(TrailingZeros(cur), Log2(end - cur)), ORDER_COUNT - 1);
    RangeBlock(cur, order, end);
  }

  lemma {:induction false} RangeBlock(cur: nat, order: nat, end: nat)
    requires cur < end && order == Min(Min(TrailingZeros(cur), Log2(end - cur)), MAX_ORDER)
    ensures Aligned(cur, order) && cur + Pow2(order) <= end
    ensures order < MAX_ORDER ==> !Aligned(cur, order + 1) || cur + Pow2(order + 1) > end
  {
    Pow2Mono(order, Log2(end - cur));
    if cur == 0 {
      FirstIsProduct(0, order);
      UpFirst(0, order);
    } else {
      AlignedLower(cur, TrailingZeros(cur), order);
    }
  }

  lemma {:induction false} AddRangeStep(before: set<nat>, free: set<nat>, start: nat, cur: nat, order: nat, next: nat, end: nat)
    requires start <= cur && Aligned(cur, order) && next == cur + Pow2(order) <= end && Range(start, end - start) !! before
    requires free == before + Range(start, cur - start)
    ensures free !! BlockAt(cur, order) && free + BlockAt(cur, order) == before + Range(start, next - start)
  {
    forall f: nat
      ensures f in BlockAt(cur, order) <==> f in Range(cur, Pow2(order))
    {
      InBlock(f, Up(cur, order), order);
    }
  }

  lemma {:induction false} AddRangeTotal(free: set<nat>, used: set<nat>, start: nat, end: nat)
    requires start <= end && Range(start, end - start) !! free + used && free !! used
    ensures free + Range(start, 0) == free
    ensures free + Range(start, end - start) !! used
    ensures |free + Range(start, end - start)| == |free| + (end - start)
  {
    assert free * Range(start, end - start) == {};
  }

  /** The upper half that is freed when the block at `p` is split below order `k + 1`. */
  ghost function UpperHalf(p: nat, k: nat): set<nat> {
    Block(BuddyIndex(Up(p, k)), k)
  }

  /** The free frames while the block at `p` is split from order `found` down to `order`, after orders below `cur`. */
  ghost function Splitting(free: set<nat>, p: nat, order: nat, cur: nat, found: nat): set<nat> {
    if cur <= order then free - BlockAt(p, found) else Splitting(free, p, order, cur - 1, found) + UpperHalf(p, cur - 1)
  }

  lemma {:induction false} BlockNested(p: nat, low: nat, high: nat)
    requires low <= high
    ensures BlockAt(p, low) <= BlockAt(p, high)
  {
    forall f | f in BlockAt(p, low)
      ensures f in BlockAt(p, high)
    {
      UpUp(f, low, high);
      UpUp(p, low, high);
    }
  }

  lemma {:induction false} SplittingIs(free: set<nat>, p: nat, order: nat, cur: nat, found: nat)
    requires order <= cur <= found && Whole(free, Up(p, found), found)
    ensures Splitting(free, p, order, cur, found) == (free - BlockAt(p, found)) + (BlockAt(p, cur) - BlockAt(p, order))
  {
    if cur > order {
      SplittingIs(free, p, order, cur - 1, found);
      ParentBlock(Up(p, cur - 1), cur - 1);
      BlockNested(p, order, cur - 1);
      AddHalf(free - BlockAt(p, found), BlockAt(p, order), BlockAt(p, cur - 1), UpperHalf(p, cur - 1));
    }
  }

  lemma {:induction false} AddHalf(rest: set<nat>, kept: set<nat>, lower: set<nat>, upper: set<nat>)
    requires kept <= lower && lower !! upper
    ensures rest + (lower - kept) + upper == rest + (lower + upper - kept)
  {
  }

  lemma {:induction false} SplitDone(free: set<nat>, p: nat, order: nat, found: nat)
    requires order <= found && Whole(free, Up(p, found), found)
    ensures Splitting(free, p, order, found, found) == free - BlockAt(p, order)
  {
    SplittingIs(free, p, order, found, found);
    BlockNested(p, order, found);
    assert BlockAt(p, found) <= free;
  }

  lemma {:induction false} SplitStep(free: set<nat>, p: nat, order: nat, cur: nat, found: nat, max: nat)
    requires order <= cur < found && Whole(free, Up(p, found), found) && AllBelow(free, max)
    ensures Splitting(free, p, order, cur, found) !! UpperHalf(p, cur)
    ensures Splitting(free, p, order, cur + 1, found) == Splitting(free, p, order, cur, found) + UpperHalf(p, cur)
    ensures p !in Splitting(free, p, order, cur, found)
    ensures AllBelow(UpperHalf(p, cur), max)
  {
    SplittingIs(free, p, order, cur, found);
    ParentBlock(Up(p, cur), cur);
    BlockNested(p, cur + 1, found);
    assert BlockAt(p, found) <= free;
    assert p in BlockAt(p, order) && p in BlockAt(p, found);
  }

  /** Block `n` of order `k` is being held: it is not free, and with the free frames it makes up `target`. */
  ghost predicate Holds(free: set<nat>, n: nat, k: nat, target: set<nat>) {
    free !! Block(n, k) && free + Block(n, k) == target
  }

  lemma {:induction false} HoldParent(free: set<nat>, n: nat, k: nat, target: set<nat>)
    requires Holds(free, n, k, target) && Whole(free, BuddyIndex(n), k)
    ensures Holds(free - Block(BuddyIndex(n), k), n / 2, k + 1, target)
  {
    ParentBlock(n, k);
    assert Block(BuddyIndex(n), k) <= free;
  }

  lemma {:induction false} MergePosition(p: nat, n: nat, k: nat, max: nat)
    requires p == First(n, k) && p < max
    ensures SplitmapIndex(p, k) == n / 2 < Pairs(max, k)
    ensures BuddyOf(p, k) == First(BuddyIndex(n), k)
    ensures ParentOf(p, k) == First(n / 2, k + 1) <= p
  {
    UpFirst(n, k);
    BuddyOfIsBuddy(p, k);
    PairInBitmap(p, max, k);
  }

  lemma {:induction false} BlockBelow(pfn: nat, k: nat, max: nat)
    requires Aligned(pfn, k) && pfn + Pow2(k) <= max
    ensures forall f :: f in Block(Up(pfn, k), k) ==> f < max
  {
    forall f | f in Block(Up(pfn, k), k)
      ensures f < max
    {
      UpBounds(f, k);
    }
  }

  /** The lists, bits and counts all describe the same free frames. */
  ghost predicate Agree(levels: seq<BuddyLevel>, free: set<nat>, max: nat) {
    Lists(levels, free) && Bits(levels, free, max) && FreePages(levels) == |free|
  }

  lemma {:induction false} ToggleKeeps(levels: seq<BuddyLevel>, free: set<nat>, k: nat, i: nat)
    requires Lists(levels, free) && k < ORDER_COUNT && i < |levels[k].splitmap|
    ensures Lists(levels[k := levels[k].ToggleParentSplit(i)], free)
    ensures FreePages(levels[k := levels[k].ToggleParentSplit(i)]) == FreePages(levels)
  {
    FreePagesUpdate(levels, k, levels[k].ToggleParentSplit(i));
    SameLists(levels, levels[k := levels[k].ToggleParentSplit(i)], free);
  }

  lemma {:induction false} SameLists(levels: seq<BuddyLevel>, levels': seq<BuddyLevel>, free: set<nat>)
    requires Lists(levels, free) && |levels'| == |levels|
    requires forall k :: 0 <= k < |levels| ==>
               levels'[k].freeList == levels[k].freeList && levels'[k].freeBlocks == levels[k].freeBlocks
    ensures Lists(levels', free)
  {
    forall k: nat | k < ORDER_COUNT
      ensures ListAt(levels', free, k)
    {
      assert ListAt(levels, free, k);
    }
  }

  lemma {:induction false} SameBits(levels: seq<BuddyLevel>, levels': seq<BuddyLevel>, free: set<nat>, max: nat)
    requires Bits(levels, free, max) && |levels'| == |levels|
    requires forall k :: 0 <= k < |levels| ==> levels'[k].splitmap == levels[k].splitmap
    ensures Bits(levels', free, max)
  {
    forall k: nat | k < MAX_ORDER
      ensures BitsAt(levels', free, k)
    {
      assert BitsAt(levels, free, k);
    }
  }

  /** The bits already count block `n` of order `k` as free, the lists do not yet, and it can go on its list. */
  ghost predicate ReadyToPush(levels: seq<BuddyLevel>, free: set<nat>, max: nat, n: nat, k: nat) {
    && Lists(levels, free) && FreePages(levels) == |free| && CanAdd(free, n, k)
    && Bits(levels, free + Block(n, k), max)
  }

  lemma {:induction false} StopStep(levels: seq<BuddyLevel>, free: set<nat>, max: nat, n: nat, k: nat)
    requires Agree(levels, free, max) && k < MAX_ORDER && n / 2 < |levels[k].splitmap| && free !! Block(n, k)
    requires !Whole(free, BuddyIndex(n), k)
    ensures ReadyToPush(levels[k := levels[k].ToggleParentSplit(n / 2)], free, max, n, k)
  {
    ToggleKeeps(levels, free, k, n / 2);
    ToggleAdd(levels, free, max, n, k);
  }

  lemma {:induction false} TopStep(levels: seq<BuddyLevel>, free: set<nat>, max: nat, n: nat, k: nat)
    requires k == MAX_ORDER && Agree(levels, free, max) && free !! Block(n, k)
    ensures ReadyToPush(levels, free, max, n, k)
  {
    forall j: nat | j < MAX_ORDER
      ensures BitsAt(levels, free + Block(n, k), j)
    {
      assert BitsAt(levels, free, j);
      forall m: nat
        ensures Canonical(free + Block(n, k), m, j) <==> Canonical(free, m, j)
      {
        AddCanonical(free, n, k, m, j);
      }
    }
  }

  lemma {:induction false} PushStep(levels: seq<BuddyLevel>, free: set<nat>, max: nat, n: nat, k: nat)
    requires ReadyToPush(levels, free, max, n, k)
    ensures Agree(levels[k := levels[k].PushFree(First(n, k))], free + Block(n, k), max)
  {
    PushLists(levels, free, n, k);
    SameBits(levels, levels[k := levels[k].PushFree(First(n, k))], free + Block(n, k), max);
    FreePagesUpdate(levels, k, levels[k].PushFree(First(n, k)));
    FirstNext(levels[k].freeBlocks, k);
  }

  /** Merging with a free buddy: toggling the pair's bit and taking the buddy off its list. */
  lemma {:induction false} MergeStep(levels: seq<BuddyLevel>, free: set<nat>, max: nat, n: nat, k: nat)
    requires Agree(levels, free, max) && k < MAX_ORDER && n / 2 < |levels[k].splitmap|
    requires Canonical(free, BuddyIndex(n), k)
    ensures var toggled := levels[k := levels[k].ToggleParentSplit(n / 2)];
            && First(BuddyIndex(n), k) in toggled[k].freeList
            && toggled[k].freeBlocks > 0
            && Agree(toggled[k := toggled[k].RemoveFree(First(BuddyIndex(n), k))], free - Block(BuddyIndex(n), k), max)
  {
    var b := BuddyIndex(n);
    var toggled := levels[k := levels[k].ToggleParentSplit(n / 2)];
    ToggleKeeps(levels, free, k, n / 2);
    ToggleRemove(levels, free, max, b, k);
    RemoveLists(toggled, free, b, k);
    RemoveCounts(toggled, free, b, k);
    SameBits(toggled, toggled[k := toggled[k].RemoveFree(First(b, k))], free - Block(b, k), max);
  }

  /** Popping the first block of a list and toggling its pair's bit. */
  lemma {:induction false} TakeStep(levels: seq<BuddyLevel>, free: set<nat>, max: nat, n: nat, k: nat)
    requires Agree(levels, free, max) && k < ORDER_COUNT && n / 2 < Pairs(max, k)
    requires Canonical(free, n, k) && levels[k].freeList != [] && levels[k].freeList[0] == First(n, k)
    ensures levels[k].freeBlocks > 0
    ensures var l := levels[k].(freeList := levels[k].freeList[1..], freeBlocks := levels[k].freeBlocks - 1);
            Agree(levels[k := l.ToggleParentSplit(n / 2)], free - Block(n, k), max)
  {
    RemoveLists(levels, free, n, k);
    var l := levels[k].RemoveFree(First(n, k));
    assert l == levels[k].(freeList := levels[k].freeList[1..], freeBlocks := levels[k].freeBlocks - 1);
    RemoveCounts(levels, free, n, k);
    var removed := levels[k := l];
    ToggleKeeps(removed, free - Block(n, k), k, n / 2);
    ToggleRemove(levels, free, max, n, k);
    SameBits(levels[k := levels[k].ToggleParentSplit(n / 2)], removed[k := l.ToggleParentSplit(n / 2)], free - Block(n, k), max);
    assert removed[k := l.ToggleParentSplit(n / 2)] == levels[k := l.ToggleParentSplit(n / 2)];
  }

  lemma {:induction false} HeadTaken(levels: seq<BuddyLevel>, free: set<nat>, max: nat, k: nat)
    requires Agree(levels, free, max) && AllBelow(free, max) && k < ORDER_COUNT && levels[k].freeList != []
    ensures levels[k].freeBlocks > 0
    ensures var p := levels[k].freeList[0];
            && Aligned(p, k) && Whole(free, Up(p, k), k) && SplitmapIndex(p, k) < |levels[k].splitmap|
            && (var l := levels[k].(freeList := levels[k].freeList[1..], freeBlocks := levels[k].freeBlocks - 1);
                Agree(levels[k := l.ToggleParentSplit(SplitmapIndex(p, k))], free - BlockAt(p, k), max))
  {
    var p := levels[k].freeList[0];
    HeadIsCanonical(levels, free, k);
    assert p in free;
    PairInBitmap(p, max, k);
    TakeStep(levels, free, max, Up(p, k), k);
  }

  lemma {:induction false} LiveIsUsed(live: map<nat, nat>, used: set<nat>, max: nat, p: nat)
    requires LiveOk(live, used, max) && p in live
    ensures p in used
  {
    assert LiveBlock(live, used, p);
  }

  /** Giving a block back leaves the other blocks in use as they are. */
  lemma {:induction false} ReturnedIsNotLive(live: map<nat, nat>, used: set<nat>, max: nat, p: nat)
    requires LiveOk(live, used, max) && p in live
    ensures LiveBlock(live, used, p) && p + Pow2(live[p]) <= max
    ensures LiveOk(live - {p}, used - BlockAt(p, live[p]), max)
    ensures |used - BlockAt(p, live[p])| + Pow2(live[p]) == |used|
  {
    var b := BlockAt(p, live[p]);
    var live', used' := live - {p}, used - b;
    assert LiveBlock(live, used, p);
    assert used == used' + b;
    LastFrame(p, live[p]);
    assert Owned(live, max, p + Pow2(live[p]) - 1);
    forall q | q in live'
      ensures LiveBlock(live', used', q)
    {
      assert LiveBlock(live, used, q) && Apart(live, p, q);
    }
    forall q, r | q in live' && r in live' && q != r
      ensures Apart(live', q, r)
    {
      assert Apart(live, q, r);
    }
    forall f | f in used'
      ensures Owned(live', max, f)
    {
      assert Owned(live, max, f);
      var q :| q in live && f in BlockAt(q, live[q]);
      assert q in live' && f in BlockAt(q, live'[q]);
    }
  }

  lemma {:induction false} LastFrame(p: nat, k: nat)
    requires Aligned(p, k)
    ensures p + Pow2(k) - 1 in BlockAt(p, k)
  {
    InBlock(p + Pow2(k) - 1, Up(p, k), k);
  }

  /** Handing out a block that was free keeps the blocks in use apart. */
  lemma {:induction false} TakenIsLive(free: set<nat>, before: set<nat>, used: set<nat>, live: map<nat, nat>,
                                       p: nat, order: nat, max: nat)
    requires Whole(before, Up(p, order), order) && free == before - BlockAt(p, order) && before !! used
    requires LiveOk(live, used, max) && order <= MAX_ORDER && Aligned(p, order) && AllBelow(before, max)
    ensures p !in live && free !! used + BlockAt(p, order)
    ensures LiveOk(live[p := order], used + BlockAt(p, order), max)
    ensures |free| + |used + BlockAt(p, order)| == |before| + |used|
  {
    var b := BlockAt(p, order);
    assert b <= before && p in b;
    assert before == free + b;
    if p in live {
      LiveIsUsed(live, used, max, p);
    }
    LiveWith(live, used, b, p, order, max);
  }

  lemma {:induction false} LiveWith(live: map<nat, nat>, used: set<nat>, b: set<nat>, p: nat, order: nat, max: nat)
    requires LiveOk(live, used, max) && order <= MAX_ORDER && Aligned(p, order) && p !in live
    requires b == BlockAt(p, order) && b !! used && AllBelow(b, max)
    ensures LiveOk(live[p := order], used + b, max)
  {
    var live', used' := live[p := order], used + b;
    forall q | q in live'
      ensures LiveBlock(live', used', q)
    {
      assert q != p ==> LiveBlock(live, used, q);
    }
    forall q, r | q in live' && r in live' && q != r
      ensures Apart(live', q, r)
    {
      assert q != p ==> LiveBlock(live, used, q);
      assert r != p ==> LiveBlock(live, used, r);
      assert q != p && r != p ==> Apart(live, q, r);
    }
    forall f | f in used'
      ensures Owned(live', max, f)
    {
      OwnedAfter(live, used, max, p, order, f);
    }
  }

  lemma {:induction false} OwnedAfter(live: map<nat, nat>, used: set<nat>, max: nat, p: nat, order: nat, f: nat)
    requires p !in live && AllBelow(BlockAt(p, order), max)
    requires f in BlockAt(p, order) || (f in used && LiveOk(live, used, max))
    ensures Owned(live[p := order], max, f)
  {
    var live' := live[p := order];
    if f in BlockAt(p, order) {
      assert p in live' && f in BlockAt(p, live'[p]);
    } else {
      assert Owned(live, max, f);
      var q :| q in live && f in BlockAt(q, live[q]);
      assert q in live' && f in BlockAt(q, live'[q]);
    }
  }

  lemma {:induction false} RemoveCounts(levels: seq<BuddyLevel>, free: set<nat>, n: nat, k: nat)
    requires |levels| == ORDER_COUNT && k < ORDER_COUNT && levels[k].freeBlocks > 0
    requires Whole(free, n, k) && FreePages(levels) == |free|
    ensures FreePages(levels[k := levels[k].RemoveFree(First(n, k))]) == |free - Block(n, k)|
  {
    FreePagesUpdate(levels, k, levels[k].RemoveFree(First(n, k)));
    FirstNext(levels[k].freeBlocks - 1, k);
    assert Block(n, k) <= free;
    assert free == (free - Block(n, k)) + Block(n, k);
  }

  lemma {:induction false} EmptyLevels(levels: seq<BuddyLevel>, max: nat)
    requires |levels| == ORDER_COUNT
    requires forall k :: 0 <= k < ORDER_COUNT ==> levels[k] == BuddyLevel([], 0, seq(Pairs(max, k), _ => false))
    ensures Agree(levels, {}, max)
  {
    forall k: nat | k < ORDER_COUNT
      ensures ListAt(levels, {}, k) && BitsAt(levels, {}, k)
    {
      forall n: nat
        ensures !Canonical({}, n, k)
      {
        UpFirst(n, k);
      }
    }
    EmptyFreePages(levels);
  }

  lemma {:induction false} EmptyFreePages(levels: seq<BuddyLevel>)
    requires forall k :: 0 <= k < |levels| ==> levels[k].freeBlocks == 0
    ensures FreePages(levels) == 0
  {
    if levels != [] {
      EmptyFreePages(levels[..|levels| - 1]);
      FirstIsProduct(0, |levels| - 1);
    }
  }
}
