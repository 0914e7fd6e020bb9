/** The kernel heap: slabs for small objects and blocks of pages for large ones, over the physical memory manager. */
module SlabHeap {
  import opened Arith
  import opened MemTypes
  import opened SeqLists
  import opened BuddyBlocks
  import opened PhysManager
  import opened SizeClasses
  import opened SlabClass

  /** The alignment is `Pow2(alignOrder)`. */
  datatype Layout = Layout(size: nat, alignOrder: nat) {
    function Effective(): nat {
      EffectiveSize(size, Pow2(alignOrder))
    }
  }

  datatype Allocation = Allocation(addr: nat, len: nat)

  newtype Byte = x: int | 0 <= x < 256

  function ByteAt(ram: map<nat, Byte>, a: nat): Byte {
    if a in ram then ram[a] else 0
  }

  /** The first `n` bytes at `addr'` are what those at `addr` were, and only bytes in `addr'..addr' + len` have changed. */
  ghost predicate Copied(ram: map<nat, Byte>, ram': map<nat, Byte>, addr: nat, addr': nat, n: nat, len: nat) {
    forall a: nat {:trigger ByteAt(ram', a)} ::
      && (addr' <= a < addr' + n ==> ByteAt(ram', a) == ByteAt(ram, addr + (a - addr')))
      && (!(addr' <= a < addr' + len) ==> ByteAt(ram', a) == ByteAt(ram, a))
  }

  lemma {:induction false} CopiedWithin(ram: map<nat, Byte>, ram': map<nat, Byte>, addr: nat, addr': nat, n: nat, len: nat)
    requires Copied(ram, ram', addr, addr', n, n) && n <= len
    ensures Copied(ram, ram', addr, addr', n, len)
  {
  }

  /** A piece of memory handed out: object `i` of the slab at `p` of class `c`, or the pages at `p`. */
  datatype Piece = InSlab(c: nat, p: nat, i: nat) | Pages(p: nat, order: nat)

  function BinOf(w: Piece): Bin {
    match w
    case InSlab(c, _, _) => Class(c)
    case Pages(_, order) => Raw(order)
  }

  /** The address is a multiple of every power of two that the size is a multiple of. */
  ghost predicate KeepsAlignment(bytes: nat, addr: nat) {
    forall k: nat {:trigger Pow2(k)} :: bytes % Pow2(k) == 0 ==> addr % Pow2(k) == 0
  }

  lemma {:induction false} LayoutFacts(layout: Layout)
    requires layout.size > 0
    ensures layout.size <= layout.Effective() < layout.size + Pow2(layout.alignOrder)
    ensures layout.Effective() % Pow2(layout.alignOrder) == 0
  {
    AlignUpAligned(layout.size, Pow2(layout.alignOrder));
  }

  ghost predicate MetaFor(m: Meta, c: nat)
    requires c < CLASS_COUNT
  {
    m.size == Sizes()[c] && m.slabOrder == SlabOrder(c)
  }

  /** If there is a slab at `p` in class `c`, it is a block that the memory manager handed out for it. */
  ghost predicate OwnsSlab(classes: seq<ClassState>, live: map<nat, nat>, raw: set<nat>, c: nat, p: nat)
    requires c < |classes|
  {
    p in classes[c].slabs ==> p in live && live[p] == SlabOrder(c) && p !in raw
  }

  ghost predicate Separate(classes: seq<ClassState>, c: nat, d: nat)
    requires c < |classes| && d < |classes|
  {
    c != d ==> classes[c].slabs.Keys !! classes[d].slabs.Keys
  }

  ghost predicate ClassRight(metas: seq<Meta>, classes: seq<ClassState>, c: nat)
    requires c < |metas| == |classes| == CLASS_COUNT
  {
    MetaFor(metas[c], c) && ClassOk(metas[c], classes[c])
  }

  ghost predicate HeapOk(metas: seq<Meta>, classes: seq<ClassState>, live: map<nat, nat>, raw: set<nat>) {
    && |metas| == |classes| == CLASS_COUNT
    && (forall c: nat {:trigger ClassRight(metas, classes, c)} :: c < CLASS_COUNT ==> ClassRight(metas, classes, c))
    && (forall c: nat, p {:trigger OwnsSlab(classes, live, raw, c, p)} :: c < |classes| ==> OwnsSlab(classes, live, raw, c, p))
    && (forall c: nat, d: nat {:trigger Separate(classes, c, d)} :: c < |classes| && d < |classes| ==> Separate(classes, c, d))
    && raw <= live.Keys
  }

  ghost predicate Live(classes: seq<ClassState>, live: map<nat, nat>, raw: set<nat>, w: Piece) {
    match w
    case InSlab(c, p, i) => c < |classes| && LiveIn(classes[c], p, i)
    case Pages(p, order) => p in raw && p in live && live[p] == order
  }

  /** The block at `p` is a slab of some class, or was handed out as it is. */
  ghost predicate HeapBlock(classes: seq<ClassState>, raw: set<nat>, p: nat) {
    p in raw || exists c: nat :: IsSlab(classes, c, p)
  }

  ghost predicate IsSlab(classes: seq<ClassState>, c: nat, p: nat) {
    c < |classes| && p in classes[c].slabs
  }

  /** `p` is a block that the memory manager handed out to others. */
  ghost predicate Foreign(classes: seq<ClassState>, live: map<nat, nat>, raw: set<nat>, p: nat) {
    p in live && !HeapBlock(classes, raw, p)
  }

  /** The heap keeps no block that it does not use, and gives back none that it does not have. */
  ghost predicate SameForeign(classes: seq<ClassState>, live: map<nat, nat>, raw: set<nat>,
                              classes': seq<ClassState>, live': map<nat, nat>, raw': set<nat>)
  {
    forall p {:trigger Foreign(classes, live, raw, p)} {:trigger Foreign(classes', live', raw', p)} ::
      && (Foreign(classes', live', raw', p) <==> Foreign(classes, live, raw, p))
      && (Foreign(classes, live, raw, p) ==> live'[p] == live[p])
  }

  /** That is so if only the slab at `p` of class `c` comes or goes, and with it the block. */
  lemma {:induction false} OneSlab(classes: seq<ClassState>, live: map<nat, nat>, raw: set<nat>,
                                   classes': seq<ClassState>, live': map<nat, nat>, c: nat, p: nat)
    requires |classes'| == |classes| && c < |classes| && forall d: nat :: d < |classes| && d != c ==> classes'[d] == classes[d]
    requires forall q :: q != p ==> (q in classes'[c].slabs <==> q in classes[c].slabs)
    requires forall q :: q != p ==> (q in live' <==> q in live) && (q in live ==> live'[q] == live[q])
    requires (p in live ==> HeapBlock(classes, raw, p)) && (p in live' ==> HeapBlock(classes', raw, p))
    ensures SameForeign(classes, live, raw, classes', live', raw)
  {
    forall q, d: nat | q != p
      ensures IsSlab(classes', d, q) <==> IsSlab(classes, d, q)
    {
    }
    forall q
      ensures Foreign(classes', live', raw, q) <==> Foreign(classes, live, raw, q)
    {
      if q != p {
        assert HeapBlock(classes', raw, q) <==> HeapBlock(classes, raw, q);
      }
    }
  }

  /** `w` is handed out in addition to what was handed out before. */
  ghost predicate Gains(classes: seq<ClassState>, live: map<nat, nat>, raw: set<nat>,
                        classes': seq<ClassState>, live': map<nat, nat>, raw': set<nat>, w: Piece)
  {
    && !Live(classes, live, raw, w) && SameForeign(classes, live, raw, classes', live', raw')
    && forall v: Piece {:trigger Live(classes', live', raw', v)} ::
         Live(classes', live', raw', v) <==> Live(classes, live, raw, v) || v == w
  }

  /** `w'` is handed out instead of `w`. */
  ghost predicate Swaps(classes: seq<ClassState>, live: map<nat, nat>, raw: set<nat>,
                        classes': seq<ClassState>, live': map<nat, nat>, raw': set<nat>, w: Piece, w': Piece)
  {
    && SameForeign(classes, live, raw, classes', live', raw')
    && forall v: Piece {:trigger Live(classes', live', raw', v)} ::
         Live(classes', live', raw', v) <==> v == w' || (Live(classes, live, raw, v) && v != w)
  }

  lemma {:induction false} KeptInPlace(classes: seq<ClassState>, live: map<nat, nat>, raw: set<nat>, ram: map<nat, Byte>, w: Piece,
                                       addr: nat, n: nat, len: nat)
    requires Live(classes, live, raw, w)
    ensures Swaps(classes, live, raw, classes, live, raw, w, w) && Copied(ram, ram, addr, addr, n, len)
  {
  }

  lemma {:induction false} GainThenLose(c0: seq<ClassState>, l0: map<nat, nat>, r0: set<nat>,
                                        c1: seq<ClassState>, l1: map<nat, nat>, r1: set<nat>,
                                        c2: seq<ClassState>, l2: map<nat, nat>, r2: set<nat>, w: Piece, w': Piece)
    requires Live(c0, l0, r0, w) && Gains(c0, l0, r0, c1, l1, r1, w') && Gains(c2, l2, r2, c1, l1, r1, w)
    ensures Swaps(c0, l0, r0, c2, l2, r2, w, w') && Live(c2, l2, r2, w')
  {
    forall v: Piece
      ensures Live(c2, l2, r2, v) <==> v == w' || (Live(c0, l0, r0, v) && v != w)
    {
      assert Live(c1, l1, r1, v) <==> Live(c0, l0, r0, v) || v == w';
      assert Live(c1, l1, r1, v) <==> Live(c2, l2, r2, v) || v == w;
    }
  }

  /** Neither a partial slab nor the free frames have room for a request to this bin. */
  ghost predicate NoRoom(classes: seq<ClassState>, free: set<nat>, b: Bin)
    requires b.Class? ==> b.c < |classes|
  {
    match b
    case Class(c) => classes[c].partial == [] && forall n: nat :: !Whole(free, n, SlabOrder(c))
    case Raw(order) => order >= ORDER_COUNT || forall n: nat :: !Whole(free, n, order)
  }

  // ----- What each step keeps -----

  lemma {:induction false} AllocateStep(metas: seq<Meta>, classes: seq<ClassState>, live: map<nat, nat>, live': map<nat, nat>,
                                        raw: set<nat>, c: nat, p: nat, slab: Slab, rest: seq<nat>, i: nat)
    requires HeapOk(metas, classes, live, raw) && c < CLASS_COUNT
    requires Chosen(metas[c], classes[c], p, slab, rest) && i < |slab.bits| && !slab.bits[i]
    requires if p in classes[c].slabs then live' == live else p !in live && live' == live[p := SlabOrder(c)]
    ensures var classes' := classes[c := Allocated(metas[c], classes[c], p, slab, rest, i)];
            HeapOk(metas, classes', live', raw) && Gains(classes, live, raw, classes', live', raw, InSlab(c, p, i))
  {
    var cs := Allocated(metas[c], classes[c], p, slab, rest, i);
    var classes' := classes[c := cs];
    assert ClassRight(metas, classes, c);
    AllocatedOk(metas[c], classes[c], p, slab, rest, i);
    forall d: nat | d < CLASS_COUNT
      ensures ClassRight(metas, classes', d)
    {
      assert ClassRight(metas, classes, d);
    }
    forall d: nat, q | d < |classes|
      ensures OwnsSlab(classes', live', raw, d, q)
    {
      assert OwnsSlab(classes, live, raw, d, q) && OwnsSlab(classes, live, raw, c, p);
    }
    forall d: nat, e: nat | d < |classes| && e < |classes|
      ensures Separate(classes', d, e)
    {
      assert Separate(classes, d, e);
      assert OwnsSlab(classes, live, raw, d, p) && OwnsSlab(classes, live, raw, e, p);
    }
    assert IsSlab(classes', c, p) && (p in classes[c].slabs ==> IsSlab(classes, c, p));
    OneSlab(classes, live, raw, classes', live', c, p);
    forall v: Piece
      ensures Live(classes', live', raw, v) <==> Live(classes, live, raw, v) || v == InSlab(c, p, i)
    {
    }
  }

  lemma {:induction false} FreeStep(metas: seq<Meta>, classes: seq<ClassState>, live: map<nat, nat>, raw: set<nat>,
                                    c: nat, p: nat, i: nat)
    requires HeapOk(metas, classes, live, raw) && c < CLASS_COUNT && LiveIn(classes[c], p, i)
    ensures classes[c].slabs[p].used > 0
    ensures classes[c].slabs[p].used == 1 && metas[c].objects > 1 ==> p in classes[c].partial
    ensures var classes' := classes[c := Freed(metas[c], classes[c], p, i)];
            var live' := if classes[c].slabs[p].used == 1 then live - {p} else live;
            HeapOk(metas, classes', live', raw) && Gains(classes', live', raw, classes, live, raw, InSlab(c, p, i))
  {
    assert ClassRight(metas, classes, c) && OwnsSlab(classes, live, raw, c, p);
    FreedOk(metas[c], classes[c], p, i);
    var classes' := classes[c := Freed(metas[c], classes[c], p, i)];
    var live' := if classes[c].slabs[p].used == 1 then live - {p} else live;
    forall d: nat | d < CLASS_COUNT
      ensures ClassRight(metas, classes', d)
    {
      assert ClassRight(metas, classes, d);
    }
    forall d: nat, q | d < |classes|
      ensures OwnsSlab(classes', live', raw, d, q)
    {
      assert OwnsSlab(classes, live, raw, d, q) && Separate(classes, c, d);
    }
    forall d: nat, e: nat | d < |classes| && e < |classes|
      ensures Separate(classes', d, e)
    {
      assert Separate(classes, d, e);
    }
    assert IsSlab(classes, c, p) && (p in classes'[c].slabs ==> IsSlab(classes', c, p));
    OneSlab(classes, live, raw, classes', live', c, p);
    forall v: Piece
      ensures Live(classes, live, raw, v) <==> Live(classes', live', raw, v) || v == InSlab(c, p, i)
    {
    }
  }

  /** Handing out and taking back pages. */
  lemma {:induction false} RawStep(metas: seq<Meta>, classes: seq<ClassState>, live: map<nat, nat>, raw: set<nat>,
                                   p: nat, order: nat)
    requires HeapOk(metas, classes, live, raw) && p !in live
    ensures HeapOk(metas, classes, live[p := order], raw + {p})
    ensures Gains(classes, live, raw, classes, live[p := order], raw + {p}, Pages(p, order))
  {
    var live', raw' := live[p := order], raw + {p};
    forall c: nat, q | c < |classes|
      ensures OwnsSlab(classes, live', raw', c, q)
    {
      assert OwnsSlab(classes, live, raw, c, q);
    }
  }

  lemma {:induction false} RawFreeStep(metas: seq<Meta>, classes: seq<ClassState>, live: map<nat, nat>, raw: set<nat>, p: nat)
    requires HeapOk(metas, classes, live, raw) && p in raw
    ensures HeapOk(metas, classes, live - {p}, raw - {p})
    ensures Gains(classes, live - {p}, raw - {p}, classes, live, raw, Pages(p, live[p]))
  {
    var live', raw' := live - {p}, raw - {p};
    forall c: nat, q | c < |classes|
      ensures OwnsSlab(classes, live', raw', c, q)
    {
      assert OwnsSlab(classes, live, raw, c, q);
    }
  }

  lemma {:induction false} SlabAligned(metas: seq<Meta>, classes: seq<ClassState>, live: map<nat, nat>, raw: set<nat>,
                                       used: set<nat>, max: nat, c: nat, p: nat)
    requires HeapOk(metas, classes, live, raw) && LiveOk(live, used, max) && c < |classes| && p in classes[c].slabs
    ensures p in live && live[p] == SlabOrder(c) && Aligned(p, SlabOrder(c))
  {
    assert OwnsSlab(classes, live, raw, c, p);
    assert LiveBlock(live, used, p);
  }

  class Heap {
    const pm: PhysManager
    const metas: seq<Meta>
    var classes: seq<ClassState>
    /** The contents of memory, where anything was written. */
    var ram: map<nat, Byte>
    ghost var raw: set<nat>

    ghost predicate Valid()
      reads this, pm
    {
      pm.Valid() && HeapOk(metas, classes, pm.live, raw)
    }

    ghost predicate Holds(w: Piece)
      reads this, pm
    {
      Live(classes, pm.live, raw, w)
    }

    function AddrOf(w: Piece): nat
      requires w.InSlab? ==> w.c < |metas| && MetaOk(metas[w.c])
    {
      match w
      case InSlab(c, p, i) => FrameAddr(p) + ObjectOffset(metas[c], i)
      case Pages(p, _) => FrameAddr(p)
    }

    function LenOf(w: Piece): nat
      requires w.InSlab? ==> w.c < |metas|
    {
      match w
      case InSlab(c, _, _) => metas[c].size
      case Pages(_, order) => SlabBytes(order)
    }

    /** A heap with no slabs. */
    constructor (pm: PhysManager)
      requires pm.Valid()
      ensures Valid() && this.pm == pm && forall w: Piece :: !Holds(w)
    {
      var ms: seq<Meta> := [];
      for c := 0 to CLASS_COUNT
        invariant |ms| == c && forall j: nat :: j < c ==> MetaFor(ms[j], j) && MetaOk(ms[j]) && ms[j].objects > 0
      {
        var m := NewMeta(Sizes()[c], SlabOrder(c));
        ClassSizes(c);
        assert Fits(Sizes()[c], SlabOrder(c), 1);
        ms := ms + [m];
      }
      this.pm, metas := pm, ms;
      classes := seq(CLASS_COUNT, _ => ClassState(map[], []));
      raw, ram := {}, map[];
    }

    /** Takes the first partial slab off the list, or else gets a new one with a clear bitmap. */
    method TakeSlab(c: nat) returns (found: bool, p: nat, slab: Slab, rest: seq<nat>)
      requires Valid() && c < CLASS_COUNT
      modifies pm`levels, pm`free, pm`used, pm`live
      ensures pm.Valid()
      ensures !found ==> pm.live == old(pm.live)
      ensures !found <==> classes[c].partial == [] && forall n: nat :: !Whole(old(pm.free), n, SlabOrder(c))
      ensures found ==>
                && Chosen(metas[c], classes[c], p, slab, rest)
                && if p in classes[c].slabs then pm.live == old(pm.live)
                   else p !in old(pm.live) && pm.live == old(pm.live)[p := SlabOrder(c)]
    {
      assert ClassRight(metas, classes, c);
      var m, cs := metas[c], classes[c];
      if cs.partial != [] {
        ChosenFirst(m, cs);
        return true, cs.partial[0], cs.slabs[cs.partial[0]], cs.partial[1..];
      }
      var block := pm.Allocate(m.slabOrder);
      if block.None? {
        return false, 0, Slab(0, []), [];
      }
      p, slab, rest := block.value, Slab(0, seq(m.objects, _ => false)), [];
      CountBounds(slab.bits);
      assert OwnsSlab(classes, old(pm.live), raw, c, p);
      return true, p, slab, rest;
    }

    /** Allocates an object of class `c`. */
    method AllocateObject(c: nat) returns (r: Option<nat>, ghost w: Piece)
      requires Valid() && c < CLASS_COUNT
      modifies this`classes, pm`levels, pm`free, pm`used, pm`live
      ensures Valid()
      ensures r.None? ==> classes == old(classes) && pm.live == old(pm.live)
      ensures r.None? <==> old(classes)[c].partial == [] && forall n: nat :: !Whole(old(pm.free), n, SlabOrder(c))
      ensures r.Some? ==>
                && w.InSlab? && w.c == c && w.i < metas[c].objects && MetaOk(metas[c]) && r.value == AddrOf(w)
                && Gains(old(classes), old(pm.live), raw, classes, pm.live, raw, w)
      ensures r.Some? && old(classes)[c].partial != [] ==> w.p == old(classes)[c].partial[0] && pm.live == old(pm.live)
    {
      assert ClassRight(metas, classes, c);
      var m := metas[c];
      w := Pages(0, 0);
      var found, p, slab, rest := TakeSlab(c);
      if !found {
        return None, w;
      }
      ChosenHasRoom(m, classes[c], p, slab, rest);
      var i := FirstZero(slab.bits, m.objects, 0).value;
      AllocateStep(metas, classes, old(pm.live), pm.live, raw, c, p, slab, rest, i);
      classes := classes[c := Allocated(m, classes[c], p, slab, rest, i)];
      w := InSlab(c, p, i);
      return Some(FrameAddr(p) + ObjectOffset(m, i)), w;
    }

    /** Finds an object's slab from its address and marks the object as free; a slab left empty is given back. */
    method DeallocateObject(c: nat, addr: nat, ghost w: Piece)
      requires Valid() && c < CLASS_COUNT && MetaOk(metas[c])
      requires w.InSlab? && w.c == c && Holds(w) && addr == AddrOf(w)
      modifies this`classes, pm`levels, pm`free, pm`used, pm`live
      ensures Valid() && Gains(classes, pm.live, raw, old(classes), old(pm.live), raw, w)
    {
      assert ClassRight(metas, classes, c);
      var m, cs := metas[c], classes[c];
      SlabAligned(metas, classes, pm.live, raw, pm.used, pm.maxPfn, c, w.p);
      FindsObject(m, w.p, w.i);
      var base := SlabFromObject(addr, m.slabOrder);
      var p := base / PAGE_SIZE - PHYS_MAP_BASE;
      var i := (addr - base - FirstObjectOffset(m)) / m.size;
      assert p == w.p && i == w.i;
      FreeStep(metas, classes, pm.live, raw, c, p, i);
      var slab := cs.slabs[p];
      if slab.used - 1 == 0 {
        var partial := cs.partial;
        if m.objects > 1 {
          assert p in cs.partial;
          partial := Without(partial, p);
        }
        classes := classes[c := ClassState(cs.slabs - {p}, partial)];
        pm.Deallocate(p, m.slabOrder);
        return;
      }
      var partial := cs.partial;
      if slab.used == m.objects && slab.used - 1 < m.objects {
        partial := PutFront(partial, p, true);
      }
      classes := classes[c := ClassState(cs.slabs[p := Slab(slab.used - 1, slab.bits[i := false])], partial)];
    }

    lemma {:induction false} PieceAligned(w: Piece, bytes: nat)
      requires Valid() && Holds(w) && bytes > 0 && BinOf(w) == BinFor(bytes)
      requires w.InSlab? ==> w.c < |metas| && MetaOk(metas[w.c])
      ensures KeepsAlignment(bytes, AddrOf(w))
    {
      BinHolds(bytes);
      forall k: nat | bytes % Pow2(k) == 0
        ensures AddrOf(w) % Pow2(k) == 0
      {
        match w {
          case InSlab(c, p, i) =>
            assert ClassRight(metas, classes, c);
            ClassKeepsAlignment(bytes, k);
            SlabAligned(metas, classes, pm.live, raw, pm.used, pm.maxPfn, c, p);
            ObjectAligned(metas[c], p, i, k);
          case Pages(p, order) =>
            assert LiveBlock(pm.live, pm.used, p);
            RawAligned(bytes, p, order, k);
        }
      }
    }

    /** `w` is where a request for this many bytes is served from. */
    ghost predicate IsPiece(w: Piece, bytes: nat) {
      BinOf(w) == BinFor(bytes) && (w.InSlab? ==> w.c < |metas| && MetaOk(metas[w.c]))
    }

    /** Allocates memory from the bin for a size. */
    method AllocateBytes(bytes: nat) returns (r: Option<Allocation>, ghost w: Piece)
      requires Valid() && bytes > 0
      modifies this`classes, this`raw, pm`levels, pm`free, pm`used, pm`live
      ensures Valid()
      ensures r.None? <==> NoRoom(old(classes), old(pm.free), BinFor(bytes))
      ensures r.None? ==> classes == old(classes) && pm.live == old(pm.live) && raw == old(raw)
      ensures r.Some? ==>
                && IsPiece(w, bytes) && r.value == Allocation(AddrOf(w), LenOf(w))
                && Gains(old(classes), old(pm.live), old(raw), classes, pm.live, raw, w)
    {
      match BinFor(bytes) {
        case Class(c) =>
          assert ClassRight(metas, classes, c);
          var addr;
          addr, w := AllocateObject(c);
          if addr.None? {
            return None, w;
          }
          return Some(Allocation(addr.value, Sizes()[c])), w;
        case Raw(order) =>
          var block := pm.Allocate(order);
          if block.None? {
            w := Pages(0, 0);
            return None, w;
          }
          RawStep(metas, classes, old(pm.live), raw, block.value, order);
          raw := raw + {block.value};
          w := Pages(block.value, order);
          return Some(Allocation(FrameAddr(block.value), SlabBytes(order))), w;
      }
    }

    /** Takes memory back that was allocated from the bin for a size. */
    method DeallocateBytes(addr: nat, bytes: nat, ghost w: Piece)
      requires Valid() && Holds(w) && IsPiece(w, bytes) && addr == AddrOf(w)
      modifies this`classes, this`raw, pm`levels, pm`free, pm`used, pm`live
      ensures Valid() && Gains(classes, pm.live, raw, old(classes), old(pm.live), old(raw), w)
    {
      match BinFor(bytes) {
        case Class(c) =>
          DeallocateObject(c, addr, w);
        case Raw(order) =>
          FreePages(addr, order, w);
      }
    }

    method FreePages(addr: nat, order: nat, ghost w: Piece)
      requires Valid() && Holds(w) && w.Pages? && w.order == order && addr == FrameAddr(w.p)
      modifies this`classes, this`raw, pm`levels, pm`free, pm`used, pm`live
      ensures Valid() && Gains(classes, pm.live, raw, old(classes), old(pm.live), old(raw), w)
    {
      assert addr % PAGE_SIZE == 0;
      RawFreeStep(metas, classes, pm.live, raw, w.p);
      raw := raw - {w.p};
      pm.Deallocate(addr / PAGE_SIZE - PHYS_MAP_BASE, order);
    }

    /** `r` serves a request: it is large enough and aligned, and it can be given back under its layout. */
    ghost predicate Serves(layout: Layout, r: Allocation, w: Piece) {
      && IsPiece(w, layout.Effective()) && r == Allocation(AddrOf(w), LenOf(w))
      && layout.size <= r.len && r.addr % Pow2(layout.alignOrder) == 0
    }

    lemma {:induction false} PieceServes(layout: Layout, w: Piece)
      requires Valid() && Holds(w) && IsPiece(w, layout.Effective()) && layout.size > 0
      ensures Serves(layout, Allocation(AddrOf(w), LenOf(w)), w)
    {
      RoomFor(w, layout.Effective());
      LayoutFacts(layout);
      BinHolds(layout.Effective());
      PieceAligned(w, layout.Effective());
    }

    method Allocate(layout: Layout) returns (r: Option<Allocation>, ghost w: Piece)
      requires Valid() && layout.size > 0
      modifies this`classes, this`raw, pm`levels, pm`free, pm`used, pm`live
      ensures Valid()
      ensures r.None? <==> NoRoom(old(classes), old(pm.free), BinFor(layout.Effective()))
      ensures r.None? ==> classes == old(classes) && pm.live == old(pm.live) && raw == old(raw)
      ensures r.Some? ==> Serves(layout, r.value, w) && Gains(old(classes), old(pm.live), old(raw), classes, pm.live, raw, w)
    {
      LayoutFacts(layout);
      r, w := AllocateBytes(layout.Effective());
      if r.Some? {
        PieceServes(layout, w);
      }
    }

    method Deallocate(addr: nat, layout: Layout, ghost w: Piece)
      requires Valid() && Holds(w) && IsPiece(w, layout.Effective()) && addr == AddrOf(w)
      modifies this`classes, this`raw, pm`levels, pm`free, pm`used, pm`live
      ensures Valid() && Gains(classes, pm.live, raw, old(classes), old(pm.live), old(raw), w)
    {
      DeallocateBytes(addr, layout.Effective(), w);
    }

    /** Copies bytes from one place to another that does not overlap it. */
    method CopyBytes(src: nat, dst: nat, n: nat)
      requires src + n <= dst || dst + n <= src
      modifies this`ram
      ensures Copied(old(ram), ram, src, dst, n, n)
    {
      for k := 0 to n
        invariant Copied(old(ram), ram, src, dst, k, k)
      {
        assert ByteAt(ram, src + k) == ByteAt(old(ram), src + k);
        ghost var before := ram;
        ram := ram[dst + k := ByteAt(ram, src + k)];
        forall a: nat
          ensures ByteAt(ram, a) == if a == dst + k then ByteAt(old(ram), src + k) else ByteAt(before, a)
        {
        }
      }
    }

    /** Allocates a new piece, copies the first `n` bytes and gives the old one back. */
    method Move(addr: nat, bytes: nat, newBytes: nat, n: nat, ghost w: Piece) returns (r: Option<Allocation>, ghost w': Piece)
      requires Valid() && Holds(w) && IsPiece(w, bytes) && addr == AddrOf(w) && newBytes > 0 && n <= bytes && n <= newBytes
      modifies this`classes, this`raw, this`ram, pm`levels, pm`free, pm`used, pm`live
      ensures Valid()
      ensures r.None? <==> NoRoom(old(classes), old(pm.free), BinFor(newBytes))
      ensures r.None? ==> classes == old(classes) && pm.live == old(pm.live) && raw == old(raw) && ram == old(ram)
      ensures r.Some? ==> Holds(w') && IsPiece(w', newBytes) && r.value == Allocation(AddrOf(w'), LenOf(w'))
      ensures r.Some? ==> Swaps(old(classes), old(pm.live), old(raw), classes, pm.live, raw, w, w')
      ensures r.Some? ==> Copied(old(ram), ram, addr, r.value.addr, n, r.value.len)
    {
      r, w' := AllocateBytes(newBytes);
      if r.Some? {
        ghost var c1, l1, r1 := classes, pm.live, raw;
        assert Holds(w) && Holds(w') && w != w';
        RoomFor(w, bytes);
        RoomFor(w', newBytes);
        PiecesApart(w, w');
        CopyBytes(addr, r.value.addr, n);
        CopiedWithin(old(ram), ram, addr, r.value.addr, n, r.value.len);
        DeallocateBytes(addr, bytes, w);
        GainThenLose(old(classes), old(pm.live), old(raw), c1, l1, r1, classes, pm.live, raw, w, w');
      }
    }

    lemma {:induction false} RoomFor(w: Piece, bytes: nat)
      requires Valid() && Holds(w) && IsPiece(w, bytes)
      ensures bytes <= LenOf(w) && LenOf(w) == UsableSize(BinOf(w))
    {
      BinHolds(bytes);
      if w.InSlab? {
        assert ClassRight(metas, classes, w.c);
      }
    }

    /** Resizes an allocation: in place if the new size is served from the same bin, and else by moving it.  Nothing else
        that is handed out changes, and the contents stay as far as both sizes go. */
    method Resize(addr: nat, layout: Layout, newLayout: Layout, ghost w: Piece) returns (r: Option<Allocation>, ghost w': Piece)
      requires Valid() && Holds(w) && IsPiece(w, layout.Effective()) && addr == AddrOf(w) && newLayout.size > 0
      modifies this`classes, this`raw, this`ram, pm`levels, pm`free, pm`used, pm`live
      ensures Valid()
      ensures r.None? <==> BinFor(layout.Effective()) != BinFor(newLayout.Effective()) &&
                           NoRoom(old(classes), old(pm.free), BinFor(newLayout.Effective()))
      ensures r.None? ==> classes == old(classes) && pm.live == old(pm.live) && raw == old(raw) && ram == old(ram)
      ensures BinFor(layout.Effective()) == BinFor(newLayout.Effective()) ==> w' == w && r.Some? && r.value.addr == addr
      ensures r.Some? ==> Holds(w') && Serves(newLayout, r.value, w')
      ensures r.Some? ==> Swaps(old(classes), old(pm.live), old(raw), classes, pm.live, raw, w, w')
      ensures r.Some? ==> Copied(old(ram), ram, addr, r.value.addr, Min(layout.size, newLayout.size), r.value.len)
    {
      var bytes, newBytes := layout.Effective(), newLayout.Effective();
      var n := Min(layout.size, newLayout.size);
      if layout.size > 0 {
        LayoutFacts(layout);
      }
      LayoutFacts(newLayout);
      if UsableSize(BinFor(bytes)) == UsableSize(BinFor(newBytes)) {
        SameSizeSameBin(bytes, newBytes);
        w' := w;
        RoomFor(w, bytes);
        KeptInPlace(classes, pm.live, raw, ram, w, addr, n, LenOf(w));
        r := Some(Allocation(addr, UsableSize(BinFor(bytes))));
      } else {
        r, w' := Move(addr, bytes, newBytes, n, w);
      }
      if r.Some? {
        PieceServes(newLayout, w');
      }
    }

    // ----- No two pieces overlap -----

    /** A piece lies within its block, and if that is a slab, behind the header and the bitmap. */
    lemma {:induction false} WithinBlock(w: Piece)
      requires Valid() && Holds(w)
      ensures w.InSlab? ==> w.c < |metas| && MetaOk(metas[w.c])
      ensures w.p in pm.live
      ensures FrameAddr(w.p) <= AddrOf(w) && AddrOf(w) + LenOf(w) <= FrameAddr(w.p) + SlabBytes(pm.live[w.p])
      ensures w.InSlab? ==> FrameAddr(w.p) + HEADER_SIZE + BitmapBytes(metas[w.c].objects) <= AddrOf(w)
    {
      if w.InSlab? {
        assert ClassRight(metas, classes, w.c) && OwnsSlab(classes, pm.live, raw, w.c, w.p);
        ObjectsApart(metas[w.c], w.i, w.i);
      }
    }

    /** Blocks in use do not overlap. */
    lemma {:induction false} BlocksApart(p: nat, q: nat)
      requires Valid() && p in pm.live && q in pm.live && p < q
      ensures FrameAddr(p) + SlabBytes(pm.live[p]) <= FrameAddr(q)
    {
      var live := pm.live;
      assert LiveBlock(live, pm.used, p) && LiveBlock(live, pm.used, q) && Apart(live, p, q);
      InBlock(q, Up(p, live[p]), live[p]);
      assert q in BlockAt(q, live[q]);
      assert p + Pow2(live[p]) <= q;
    }

    /** No two pieces of memory handed out overlap. */
    lemma {:induction false} PiecesApart(v: Piece, w: Piece)
      requires Valid() && Holds(v) && Holds(w) && v != w
      ensures v.InSlab? ==> v.c < |metas| && MetaOk(metas[v.c])
      ensures w.InSlab? ==> w.c < |metas| && MetaOk(metas[w.c])
      ensures AddrOf(v) + LenOf(v) <= AddrOf(w) || AddrOf(w) + LenOf(w) <= AddrOf(v)
    {
      WithinBlock(v);
      WithinBlock(w);
      if v.p < w.p {
        BlocksApart(v.p, w.p);
      } else if w.p < v.p {
        BlocksApart(w.p, v.p);
      } else {
        SameBlock(v, w);
      }
    }

    /** What two callers were given for their layouts does not overlap, from the first to the last byte. */
    lemma {:induction false} AllocationsApart(layout: Layout, r: Allocation, w: Piece, layout': Layout, r': Allocation, w': Piece)
      requires Valid() && Holds(w) && Holds(w') && w != w' && Serves(layout, r, w) && Serves(layout', r', w')
      ensures r.addr + r.len <= r'.addr || r'.addr + r'.len <= r.addr
    {
      PiecesApart(w, w');
    }

    /** No piece of memory handed out overlaps the header or the bitmap of any slab. */
    lemma {:induction false} HeadersApart(w: Piece, c: nat, p: nat)
      requires Valid() && Holds(w) && c < CLASS_COUNT && p in classes[c].slabs
      ensures w.InSlab? ==> w.c < |metas| && MetaOk(metas[w.c])
      ensures AddrOf(w) + LenOf(w) <= FrameAddr(p) ||
              FrameAddr(p) + HEADER_SIZE + BitmapBytes(metas[c].objects) <= AddrOf(w)
    {
      WithinBlock(w);
      assert ClassRight(metas, classes, c) && OwnsSlab(classes, pm.live, raw, c, p);
      if w.p < p {
        BlocksApart(w.p, p);
      } else if p < w.p {
        BlocksApart(p, w.p);
        HeaderFits(metas[c]);
      } else {
        assert w.InSlab? && Separate(classes, c, w.c);
      }
    }

    lemma {:induction false} SameBlock(v: Piece, w: Piece)
      requires Valid() && Holds(v) && Holds(w) && v != w && v.p == w.p
      ensures v.InSlab? && w.InSlab? && v.c == w.c < |metas| && MetaOk(metas[v.c])
      ensures AddrOf(v) + LenOf(v) <= AddrOf(w) || AddrOf(w) + LenOf(w) <= AddrOf(v)
    {
      if v.InSlab? {
        assert OwnsSlab(classes, pm.live, raw, v.c, v.p) && ClassRight(metas, classes, v.c);
      }
      if w.InSlab? {
        assert OwnsSlab(classes, pm.live, raw, w.c, w.p) && ClassRight(metas, classes, w.c);
      }
      assert v.InSlab? && w.InSlab?;
      assert Separate(classes, v.c, w.c);
      if v.i < w.i {
        ObjectsApart(metas[v.c], v.i, w.i);
      } else {
        ObjectsApart(metas[v.c], w.i, v.i);
      }
    }
  }
}
