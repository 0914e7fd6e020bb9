/** The free lists and split bitmaps of a buddy system, related to the set of free frames. */
module BuddyLists {
  import opened Arith
  import opened BuddyBlocks
  import opened SeqLists

  /** One order: its free list, the list's length, and one bit per pair of buddies. */
  datatype BuddyLevel = BuddyLevel(freeList: seq<nat>, freeBlocks: nat, splitmap: seq<bool>) {
    function ToggleParentSplit(index: nat): BuddyLevel
      requires index < |splitmap|
    {
      this.(splitmap := splitmap[index := !splitmap[index]])
    }

    function PushFree(pfn: nat): BuddyLevel {
      this.(freeList := [pfn] + freeList, freeBlocks := freeBlocks + 1)
    }

    function RemoveFree(pfn: nat): BuddyLevel
      requires freeBlocks > 0
    {
      this.(freeList := Without(freeList, pfn), freeBlocks := freeBlocks - 1)
    }
  }

  ghost predicate ListOk(l: seq<nat>, free: set<nat>, k: nat) {
    && NoDup(l)
    && (forall p :: p in l ==> Aligned(p, k))
    && (forall n: nat {:trigger Canonical(free, n, k)} {:trigger First(n, k)} :: First(n, k) in l <==> Canonical(free, n, k))
  }

  ghost predicate BitsOk(bits: seq<bool>, free: set<nat>, k: nat) {
    forall i :: 0 <= i < |bits| ==> (bits[i] <==> Canonical(free, 2 * i, k) != Canonical(free, 2 * i + 1, k))
  }

  ghost predicate Lists(levels: seq<BuddyLevel>, free: set<nat>) {
    && |levels| == ORDER_COUNT
    && forall k: nat {:trigger ListAt(levels, free, k)} :: k < ORDER_COUNT ==> ListAt(levels, free, k)
  }

  ghost predicate ListAt(levels: seq<BuddyLevel>, free: set<nat>, k: nat)
    requires k < |levels|
  {
    ListOk(levels[k].freeList, free, k) && levels[k].freeBlocks == |levels[k].freeList|
  }

  ghost predicate BitsAt(levels: seq<BuddyLevel>, free: set<nat>, k: nat)
    requires k < |levels|
  {
    BitsOk(levels[k].splitmap, free, k)
  }

  /** The number of bits that cover the pairs of order-`k` blocks below `max`. */
  function Pairs(max: nat, k: nat): nat {
    DivCeil(max, Pow2(k + 1))
  }

  ghost predicate Bits(levels: seq<BuddyLevel>, free: set<nat>, max: nat) {
    && |levels| == ORDER_COUNT
    && (forall k :: 0 <= k < ORDER_COUNT ==> |levels[k].splitmap| == Pairs(max, k))
    && (forall k: nat {:trigger BitsAt(levels, free, k)} :: k < MAX_ORDER ==> BitsAt(levels, free, k))
  }

  // ----- One block put on or taken off -----

  /** Block `n` of order `k` can be added without merging. */
  ghost predicate CanAdd(free: set<nat>, n: nat, k: nat) {
    k <= MAX_ORDER && free !! Block(n, k) && (k < MAX_ORDER ==> !Whole(free, BuddyIndex(n), k))
  }

  lemma {:induction false} AlignedIsFirst(p: nat, n: nat, k: nat)
    ensures Aligned(p, k) && Up(p, k) == n <==> p == First(n, k)
  {
    UpFirst(n, k);
  }

  lemma {:induction false} PushList(l: seq<nat>, free: set<nat>, n: nat, k: nat)
    requires ListOk(l, free, k) && CanAdd(free, n, k)
    ensures ListOk([First(n, k)] + l, free + Block(n, k), k)
  {
    var l' := [First(n, k)] + l;
    UpFirst(n, k);
    assert First(n, k) in Block(n, k);
    assert !Canonical(free, n, k);
    forall m: nat
      ensures First(m, k) in l' <==> Canonical(free + Block(n, k), m, k)
    {
      AddCanonical(free, n, k, m, k);
      UpFirst(m, k);
    }
  }

  lemma {:induction false} RemoveList(l: seq<nat>, free: set<nat>, n: nat, k: nat)
    requires ListOk(l, free, k) && Canonical(free, n, k) && k <= MAX_ORDER
    ensures ListOk(Without(l, First(n, k)), free - Block(n, k), k)
    ensures |Without(l, First(n, k))| == |l| - 1
  {
    WithoutMembers(l, First(n, k));
    forall m: nat
      ensures First(m, k) in Without(l, First(n, k)) <==> Canonical(free - Block(n, k), m, k)
    {
      RemoveCanonical(free, n, k, m, k);
      UpFirst(m, k);
      UpFirst(n, k);
    }
  }

  lemma {:induction false} PushLists(levels: seq<BuddyLevel>, free: set<nat>, n: nat, k: nat)
    requires Lists(levels, free) && CanAdd(free, n, k)
    ensures Lists(levels[k := levels[k].PushFree(First(n, k))], free + Block(n, k))
  {
    var levels' := levels[k := levels[k].PushFree(First(n, k))];
    assert ListAt(levels, free, k);
    PushList(levels[k].freeList, free, n, k);
    forall j: nat | j < ORDER_COUNT
      ensures ListAt(levels', free + Block(n, k), j)
    {
      assert ListAt(levels, free, j);
      if j != k {
        forall m: nat
          ensures First(m, j) in levels[j].freeList <==> Canonical(free + Block(n, k), m, j)
        {
          AddCanonical(free, n, k, m, j);
        }
      }
    }
  }

  lemma {:induction false} RemoveLists(levels: seq<BuddyLevel>, free: set<nat>, n: nat, k: nat)
    requires Lists(levels, free) && Canonical(free, n, k) && k <= MAX_ORDER
    ensures First(n, k) in levels[k].freeList && levels[k].freeBlocks > 0
    ensures Lists(levels[k := levels[k].RemoveFree(First(n, k))], free - Block(n, k))
  {
    assert ListAt(levels, free, k);
    RemoveList(levels[k].freeList, free, n, k);
    var levels' := levels[k := levels[k].RemoveFree(First(n, k))];
    forall j: nat | j < ORDER_COUNT
      ensures ListAt(levels', free - Block(n, k), j)
    {
      assert ListAt(levels, free, j);
      if j != k {
        forall m: nat
          ensures First(m, j) in levels[j].freeList <==> Canonical(free - Block(n, k), m, j)
        {
          RemoveCanonical(free, n, k, m, j);
        }
      }
    }
  }

  /** Toggling a pair's bit records that one of the pair was added. */
  lemma {:induction false} ToggleAdd(levels: seq<BuddyLevel>, free: set<nat>, max: nat, n: nat, k: nat)
    requires Bits(levels, free, max) && CanAdd(free, n, k) && n / 2 < |levels[k].splitmap|
    ensures Bits(levels[k := levels[k].ToggleParentSplit(n / 2)], free + Block(n, k), max)
  {
    var levels' := levels[k := levels[k].ToggleParentSplit(n / 2)];
    NotCanonicalOutside(free, n, k);
    forall j: nat | j < MAX_ORDER
      ensures BitsAt(levels', free + Block(n, k), j)
    {
      assert BitsAt(levels, free, j);
      forall i | 0 <= i < |levels'[j].splitmap|
        ensures levels'[j].splitmap[i] <==> Canonical(free + Block(n, k), 2 * i, j) != Canonical(free + Block(n, k), 2 * i + 1, j)
      {
        AddCanonical(free, n, k, 2 * i, j);
        AddCanonical(free, n, k, 2 * i + 1, j);
      }
    }
  }

  lemma {:induction false} NotCanonicalOutside(free: set<nat>, n: nat, k: nat)
    requires free !! Block(n, k)
    ensures !Whole(free, n, k)
  {
    UpFirst(n, k);
    assert First(n, k) in Block(n, k);
  }

  /** Toggling a pair's bit records that one of the pair was taken. */
  lemma {:induction false} ToggleRemove(levels: seq<BuddyLevel>, free: set<nat>, max: nat, n: nat, k: nat)
    requires Bits(levels, free, max) && Canonical(free, n, k) && k <= MAX_ORDER && n / 2 < |levels[k].splitmap|
    ensures Bits(levels[k := levels[k].ToggleParentSplit(n / 2)], free - Block(n, k), max)
  {
    var levels' := levels[k := levels[k].ToggleParentSplit(n / 2)];
    forall j: nat | j < MAX_ORDER
      ensures BitsAt(levels', free - Block(n, k), j)
    {
      assert BitsAt(levels, free, j);
      forall i | 0 <= i < |levels'[j].splitmap|
        ensures levels'[j].splitmap[i] <==> Canonical(free - Block(n, k), 2 * i, j) != Canonical(free - Block(n, k), 2 * i + 1, j)
      {
        RemoveCanonical(free, n, k, 2 * i, j);
        RemoveCanonical(free, n, k, 2 * i + 1, j);
      }
    }
  }

  /** What the split bit says about the buddy of a block that is not free. */
  lemma {:induction false} SplitBit(levels: seq<BuddyLevel>, free: set<nat>, max: nat, n: nat, k: nat)
    requires Bits(levels, free, max) && k < MAX_ORDER && n / 2 < |levels[k].splitmap| && free !! Block(n, k)
    ensures levels[k].splitmap[n / 2] <==> Canonical(free, BuddyIndex(n), k)
    ensures Canonical(free, BuddyIndex(n), k) <==> Whole(free, BuddyIndex(n), k)
  {
    NotCanonicalOutside(free, n, k);
    assert BitsAt(levels, free, k);
    if Whole(free, BuddyIndex(n), k) && Whole(free, n / 2, k + 1) {
      WholeBelow(free, n, k, k + 1);
    }
  }

  // ----- Counting -----

  function FreePages(levels: seq<BuddyLevel>): nat {
    if levels == [] then 0
    else FreePages(levels[..|levels| - 1]) + First(levels[|levels| - 1].freeBlocks, |levels| - 1)
  }

  lemma {:induction false} FreePagesUpdate(levels: seq<BuddyLevel>, k: nat, l: BuddyLevel)
    requires k < |levels|
    ensures FreePages(levels[k := l]) + First(levels[k].freeBlocks, k) == FreePages(levels) + First(l.freeBlocks, k)
  {
    var n := |levels| - 1;
    if k < n {
      FreePagesUpdate(levels[..n], k, l);
      assert levels[k := l][..n] == levels[..n][k := l];
    } else {
      assert levels[k := l][..n] == levels[..n];
    }
  }

  // ----- The free lists are a function of the free frames -----

  /** Two histories that leave the same frames free leave the same blocks on every free list. */
  lemma {:induction false} HistoryIndependent(a: seq<BuddyLevel>, b: seq<BuddyLevel>, free: set<nat>, k: nat, p: nat)
    requires Lists(a, free) && Lists(b, free) && k < ORDER_COUNT
    ensures p in a[k].freeList <==> p in b[k].freeList
    ensures multiset(a[k].freeList)[p] == multiset(b[k].freeList)[p]
  {
    assert ListAt(a, free, k) && ListAt(b, free, k);
    AlignedIsFirst(p, Up(p, k), k);
    NoDupCount(a[k].freeList, p);
    NoDupCount(b[k].freeList, p);
    if p in a[k].freeList {
      assert Canonical(free, Up(p, k), k);
    }
    if p in b[k].freeList {
      assert Canonical(free, Up(p, k), k);
    }
  }

  /** A free block of an order exists exactly if some list of at least that order is not empty. */
  lemma {:induction false} SearchFinds(levels: seq<BuddyLevel>, free: set<nat>, order: nat)
    requires Lists(levels, free) && order < ORDER_COUNT
    ensures (exists n: nat :: Whole(free, n, order))
       <==> (exists k :: order <= k < ORDER_COUNT && levels[k].freeList != [])
  {
    forall n: nat | Whole(free, n, order)
      ensures exists k :: order <= k < ORDER_COUNT && levels[k].freeList != []
    {
      var m, j := CanonicalAbove(free, n, order);
      assert ListAt(levels, free, j);
      assert First(m, j) in levels[j].freeList;
    }
    forall k | order <= k < ORDER_COUNT && levels[k].freeList != []
      ensures exists n: nat :: Whole(free, n, order)
    {
      var p := levels[k].freeList[0];
      HeadIsCanonical(levels, free, k);
      UpUp(p, order, k);
      WholeBelow(free, Up(p, order), order, k);
    }
  }

  lemma {:induction false} HeadIsCanonical(levels: seq<BuddyLevel>, free: set<nat>, k: nat)
    requires Lists(levels, free) && k < ORDER_COUNT && levels[k].freeList != []
    ensures var p := levels[k].freeList[0]; Aligned(p, k) && Canonical(free, Up(p, k), k) && p == First(Up(p, k), k)
  {
    assert ListAt(levels, free, k);
    AlignedIsFirst(levels[k].freeList[0], Up(levels[k].freeList[0], k), k);
  }
}
