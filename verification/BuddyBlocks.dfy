/** Aligned power-of-two blocks of frames, and which of them a buddy system keeps on its free lists. */
module BuddyBlocks {
  import opened Arith

  const ORDER_COUNT: nat := 16
  const MAX_ORDER: nat := 15

  /** `f >> k`: the number of the order-`k` block that frame `f` lies in. */
  function Up(f: nat, k: nat): nat {
    if k == 0 then f else Up(f, k - 1) / 2
  }

  /** `n << k`: the first frame of block `n` of order `k`. */
  function First(n: nat, k: nat): nat {
    if k == 0 then n else 2 * First(n, k - 1)
  }

  predicate Aligned(p: nat, k: nat) {
    First(Up(p, k), k) == p
  }

  lemma {:induction false} FirstNext(n: nat, k: nat)
    ensures First(n + 1, k) == First(n, k) + Pow2(k)
  {
    if k > 0 {
      FirstNext(n, k - 1);
    }
  }

  lemma {:induction false} FirstShift(n: nat, k: nat)
    ensures First(2 * n, k) == First(n, k + 1)
  {
    if k > 0 {
      FirstShift(n, k - 1);
    }
  }

  lemma {:induction false} FirstMono(m: nat, n: nat, k: nat)
    requires m < n
    ensures First(m, k) + Pow2(k) <= First(n, k)
  {
    if k > 0 {
      FirstMono(m, n, k - 1);
    }
  }

  lemma {:induction false} UpBounds(f: nat, k: nat)
    ensures First(Up(f, k), k) <= f < First(Up(f, k), k) + Pow2(k)
  {
    if k > 0 {
      UpBounds(f, k - 1);
      var a, b := Up(f, k - 1), Up(f, k);
      FirstShift(b, k - 1);
      FirstShift(b + 1, k - 1);
      FirstNext(b, k);
      if a != 2 * b {
        FirstMono(2 * b, a, k - 1);
      }
      FirstMono(a, 2 * (b + 1), k - 1);
    }
  }

  lemma {:induction false} UpUnique(f: nat, k: nat, n: nat)
    requires First(n, k) <= f < First(n, k) + Pow2(k)
    ensures Up(f, k) == n
  {
    UpBounds(f, k);
    if Up(f, k) < n {
      FirstMono(Up(f, k), n, k);
    } else if n < Up(f, k) {
      FirstMono(n, Up(f, k), k);
    }
  }

  lemma {:induction false} UpFirst(n: nat, k: nat)
    ensures Up(First(n, k), k) == n && Aligned(First(n, k), k)
  {
    UpUnique(First(n, k), k, n);
  }

  lemma {:induction false} UpUp(f: nat, k: nat, j: nat)
    requires k <= j
    ensures Up(f, j) == Up(Up(f, k), j - k)
  {
    if k < j {
      UpUp(f, k, j - 1);
    }
  }

  ghost predicate IsRange(r: set<nat>, start: nat, count: nat) {
    |r| == count && forall f: nat {:trigger f in r} :: f in r <==> start <= f < start + count
  }

  lemma {:induction false} RangeExists(start: nat, count: nat)
    ensures exists r: set<nat> :: IsRange(r, start, count)
  {
    if count == 0 {
      assert IsRange({}, start, count);
    } else {
      RangeExists(start, count - 1);
      var r: set<nat> :| IsRange(r, start, count - 1);
      assert IsRange(r + {start + count - 1}, start, count);
    }
  }

  /** The frames `start..start + count`. */
  ghost function Range(start: nat, count: nat): (r: set<nat>)
    ensures |r| == count
    ensures forall f: nat {:trigger f in r} :: f in r <==> start <= f < start + count
  {
    RangeExists(start, count);
    var r: set<nat> :| IsRange(r, start, count);
    r
  }

  lemma {:induction false} InBlock(f: nat, n: nat, k: nat)
    ensures First(n, k) <= f < First(n, k) + Pow2(k) <==> Up(f, k) == n
  {
    UpBounds(f, k);
    if First(n, k) <= f < First(n, k) + Pow2(k) {
      UpUnique(f, k, n);
    }
  }

  ghost predicate IsBlock(b: set<nat>, n: nat, k: nat) {
    |b| == Pow2(k) && forall f: nat {:trigger f in b} :: f in b <==> Up(f, k) == n
  }

  lemma {:induction false} BlockExists(n: nat, k: nat)
    ensures exists b: set<nat> :: IsBlock(b, n, k)
  {
    var b := Range(First(n, k), Pow2(k));
    forall f: nat
      ensures f in b <==> Up(f, k) == n
    {
      InBlock(f, n, k);
    }
    assert IsBlock(b, n, k);
  }

  /** The frames of block `n` of order `k`. */
  ghost function Block(n: nat, k: nat): (b: set<nat>)
    ensures |b| == Pow2(k)
    ensures forall f: nat {:trigger f in b} :: f in b <==> Up(f, k) == n
  {
    BlockExists(n, k);
    var b: set<nat> :| IsBlock(b, n, k);
    b
  }

  // ----- Which blocks are on the free lists -----

  /** All frames of block `n` of order `k` are free. */
  ghost predicate Whole(free: set<nat>, n: nat, k: nat) {
    forall f: nat {:trigger Up(f, k)} :: Up(f, k) == n ==> f in free
  }

  /** A wholly free block whose parent is not wholly free, or that is of the largest order. */
  ghost predicate Canonical(free: set<nat>, n: nat, k: nat) {
    Whole(free, n, k) && (k == MAX_ORDER || !Whole(free, n / 2, k + 1))
  }

  function BuddyIndex(n: nat): (b: nat)
    ensures b / 2 == n / 2 && b != n
  {
    if n % 2 == 0 then n + 1 else n - 1
  }

  lemma {:induction false} WholeBelow(free: set<nat>, n: nat, k: nat, j: nat)
    requires k <= j && Whole(free, Up(n, j - k), j)
    ensures Whole(free, n, k)
  {
    forall f: nat | Up(f, k) == n
      ensures f in free
    {
      UpUp(f, k, j);
    }
  }

  /** A canonical block is not inside a larger wholly free block. */
  lemma {:induction false} CanonicalIsMaximal(free: set<nat>, n: nat, k: nat, j: nat)
    requires Canonical(free, n, k) && k < j <= MAX_ORDER
    ensures !Whole(free, Up(n, j - k), j)
  {
    if Whole(free, Up(n, j - k), j) {
      UpUp(n, 1, j - k);
      WholeBelow(free, n / 2, k + 1, j);
    }
  }

  /** Two canonical blocks are the same or share no frame. */
  lemma {:induction false} CanonicalDisjoint(free: set<nat>, n: nat, k: nat, m: nat, j: nat, f: nat)
    requires Canonical(free, n, k) && Canonical(free, m, j) && k <= j <= MAX_ORDER
    requires Up(f, k) == n && Up(f, j) == m
    ensures n == m && k == j
  {
    UpUp(f, k, j);
    if k < j {
      CanonicalIsMaximal(free, n, k, j);
    }
  }

  lemma {:induction false} WholeWithout(free: set<nat>, b: set<nat>, n: nat, k: nat)
    ensures Whole(free - b, n, k) <==> Whole(free, n, k) && b !! Block(n, k)
  {
    if Whole(free - b, n, k) {
      forall f: nat | Up(f, k) == n
        ensures f in free && f !in b
      {
      }
    }
    if Whole(free, n, k) && b !! Block(n, k) {
      forall f: nat | Up(f, k) == n
        ensures f in free - b
      {
        assert f in Block(n, k);
      }
    }
  }

  /** Taking a canonical block out of the free frames takes exactly that block off the lists. */
  lemma {:induction false} RemoveCanonical(free: set<nat>, n: nat, k: nat, m: nat, j: nat)
    requires Canonical(free, n, k) && k <= MAX_ORDER && j <= MAX_ORDER
    ensures Canonical(free - Block(n, k), m, j) <==> Canonical(free, m, j) && !(m == n && j == k)
  {
    var b := Block(n, k);
    WholeWithout(free, b, m, j);
    UpFirst(n, k);
    assert First(n, k) in b;
    if Canonical(free, m, j) && !(m == n && j == k) {
      RemoveKeeps(free, n, k, m, j);
    }
    if Canonical(free - b, m, j) {
      if j < MAX_ORDER {
        RemoveAddsNone(free, n, k, m, j);
      }
    }
  }

  lemma {:induction false} RemoveKeeps(free: set<nat>, n: nat, k: nat, m: nat, j: nat)
    requires Canonical(free, n, k) && k <= MAX_ORDER && j <= MAX_ORDER
    requires Canonical(free, m, j) && !(m == n && j == k)
    ensures Canonical(free - Block(n, k), m, j)
  {
    var b := Block(n, k);
    forall f | f in b
      ensures f !in Block(m, j)
    {
      if f in Block(m, j) {
        if k <= j {
          CanonicalDisjoint(free, n, k, m, j, f);
        } else {
          CanonicalDisjoint(free, m, j, n, k, f);
        }
      }
    }
    WholeWithout(free, b, m, j);
    if j < MAX_ORDER {
      WholeWithout(free, b, m / 2, j + 1);
    }
  }

  lemma {:induction false} RemoveAddsNone(free: set<nat>, n: nat, k: nat, m: nat, j: nat)
    requires Canonical(free, n, k) && k <= MAX_ORDER && j < MAX_ORDER
    requires Canonical(free - Block(n, k), m, j)
    ensures !Whole(free, m / 2, j + 1)
  {
    WholeWithout(free, Block(n, k), m, j);
    WholeWithout(free, Block(n, k), m / 2, j + 1);
    if Whole(free, m / 2, j + 1) {
      var g :| g in Block(n, k) && g in Block(m / 2, j + 1);
      ParentOverlap(free, n, k, m, j, g);
    }
  }

  lemma {:induction false} ParentOverlap(free: set<nat>, n: nat, k: nat, m: nat, j: nat, g: nat)
    requires Canonical(free, n, k) && k <= MAX_ORDER && j < MAX_ORDER
    requires Up(g, k) == n && Up(g, j + 1) == m / 2 && Block(n, k) !! Block(m, j)
    ensures !Whole(free, m / 2, j + 1)
  {
    if k <= j {
      UpUp(g, k, j + 1);
      CanonicalIsMaximal(free, n, k, j + 1);
    } else {
      var f := First(m, j);
      UpFirst(m, j);
      assert f in Block(m, j) && f !in Block(n, k);
      UpUp(f, j + 1, k);
      UpUp(g, j + 1, k);
    }
  }

  /** Freeing a block whose buddy is not wholly free puts exactly that block on the lists. */
  lemma {:induction false} AddCanonical(free: set<nat>, n: nat, k: nat, m: nat, j: nat)
    requires k <= MAX_ORDER && j <= MAX_ORDER && free !! Block(n, k)
    requires k < MAX_ORDER ==> !Whole(free, BuddyIndex(n), k)
    ensures Canonical(free + Block(n, k), m, j) <==> Canonical(free, m, j) || (m == n && j == k)
  {
    var b := Block(n, k);
    var free' := free + b;
    AddedIsCanonical(free, n, k);
    assert free' - b == free;
    RemoveCanonical(free', n, k, m, j);
  }

  lemma {:induction false} AddedIsCanonical(free: set<nat>, n: nat, k: nat)
    requires k <= MAX_ORDER && free !! Block(n, k)
    requires k < MAX_ORDER ==> !Whole(free, BuddyIndex(n), k)
    ensures Canonical(free + Block(n, k), n, k)
  {
    var free' := free + Block(n, k);
    if k < MAX_ORDER {
      var g: nat :| Up(g, k) == BuddyIndex(n) && g !in free;
      assert Up(g, k + 1) == n / 2;
      assert g !in free';
    }
  }

  /** Every wholly free block lies in a canonical one. */
  lemma {:induction false} CanonicalAbove(free: set<nat>, n: nat, k: nat) returns (m: nat, j: nat)
    requires k <= MAX_ORDER && Whole(free, n, k)
    ensures k <= j <= MAX_ORDER && m == Up(n, j - k) && Canonical(free, m, j)
    decreases MAX_ORDER - k
  {
    if k < MAX_ORDER && Whole(free, n / 2, k + 1) {
      m, j := CanonicalAbove(free, n / 2, k + 1);
      UpUp(n, 1, j - k);
    } else {
      m, j := n, k;
    }
  }

  /** Never are both buddies of a pair canonical. */
  lemma {:induction false} NeverBoth(free: set<nat>, n: nat, k: nat)
    requires k < MAX_ORDER && Canonical(free, n, k)
    ensures !Whole(free, BuddyIndex(n), k)
  {
    if Whole(free, BuddyIndex(n), k) {
      forall f: nat | Up(f, k + 1) == n / 2
        ensures f in free
      {
        assert Up(f, k) == n || Up(f, k) == BuddyIndex(n);
      }
    }
  }
}
