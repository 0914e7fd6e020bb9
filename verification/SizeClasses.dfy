/** The heap's size classes: sizes, alignment and the layout of a slab. */
module SizeClasses {
  import opened Arith
  import opened MemTypes
  import opened PhysManager
  import opened BuddyBlocks

  const PAGE_SIZE: nat := 4096
  /** Two list links and the count of allocated objects. */
  const HEADER_SIZE: nat := 24

  function SlabBytes(order: nat): (n: nat)
    ensures n >= PAGE_SIZE
  {
    PAGE_SIZE * Pow2(order)
  }

  function BitmapBytes(objects: nat): nat {
    DivCeil(objects, 8)
  }

  /** The sizes of all classes, and the order of each one's slabs. */
  function Sizes(): (s: seq<nat>)
    ensures |s| == CLASS_COUNT
  {
    [2, 8, 16, 32, 48, 64, 80, 96, 128, 160, 192, 224, 256, 320, 384, 448, 512, 640, 768, 896, 1024, 1280, 1536, 1792, 2048]
  }

  const CLASS_COUNT: nat := 25
  const MAX_CLASS_SIZE: nat := 2048

  function SlabOrder(c: nat): (order: nat)
    ensures order <= 3
  {
    if c < 12 then 0 else if c < 16 then 1 else if c < 20 then 2 else 3
  }

  // ----- The layout of a slab -----

  datatype Meta = Meta(size: nat, slabOrder: nat, objects: nat)

  /** A slab has room for its header, a bitmap for `objects` objects, and the objects. */
  predicate Fits(size: nat, order: nat, objects: nat) {
    HEADER_SIZE + BitmapBytes(objects) + objects * size <= SlabBytes(order)
  }

  predicate MetaOk(m: Meta) {
    m.size > 0 && Fits(m.size, m.slabOrder, m.objects)
  }

  lemma {:induction false} HeaderFits(m: Meta)
    requires MetaOk(m)
    ensures HEADER_SIZE + BitmapBytes(m.objects) <= SlabBytes(m.slabOrder)
  {
    MulMono(0, m.objects, m.size);
  }

  lemma {:induction false} FitsFewer(size: nat, order: nat, n: nat, m: nat)
    requires n <= m && Fits(size, order, m)
    ensures Fits(size, order, n)
  {
    MulMono(n, m, size);
  }

  /** Finds the largest number of objects that fit in a slab. */
  method NewMeta(size: nat, order: nat) returns (m: Meta)
    requires size > 0
    ensures m.size == size && m.slabOrder == order && MetaOk(m)
    ensures forall n: nat :: Fits(size, order, n) <==> n <= m.objects
  {
    var objects := (SlabBytes(order) - HEADER_SIZE) / size;
    forall n: nat | Fits(size, order, n)
      ensures n <= objects
    {
      if n > objects {
        MulGap(objects, n, size);
      }
    }
    while !Fits(size, order, objects)
      invariant objects >= 0
      invariant forall n: nat :: Fits(size, order, n) ==> n <= objects
      decreases objects
    {
      objects := objects - 1;
    }
    forall n: nat | n <= objects
      ensures Fits(size, order, n)
    {
      FitsFewer(size, order, n, objects);
    }
    return Meta(size, order, objects);
  }

  function FirstObjectOffset(m: Meta): (off: nat)
    requires MetaOk(m)
    ensures off >= HEADER_SIZE + BitmapBytes(m.objects)
  {
    SlabBytes(m.slabOrder) - m.size * m.objects
  }

  /** Where in its slab object `i` starts. */
  function ObjectOffset(m: Meta, i: nat): nat
    requires MetaOk(m)
  {
    FirstObjectOffset(m) + i * m.size
  }

  /** Objects lie behind header and bitmap, within the slab, and apart from each other. */
  lemma {:induction false} ObjectsApart(m: Meta, i: nat, j: nat)
    requires MetaOk(m) && i < m.objects && j < m.objects
    ensures HEADER_SIZE + BitmapBytes(m.objects) <= ObjectOffset(m, i)
    ensures ObjectOffset(m, i) + m.size <= SlabBytes(m.slabOrder)
    ensures i < j ==> ObjectOffset(m, i) + m.size <= ObjectOffset(m, j)
  {
    MulGap(i, m.objects, m.size);
    if i < j {
      MulGap(i, j, m.size);
    }
  }

  // ----- Addresses -----

  const PHYS_MAP_BASE: nat := 0xFFFF800000000

  /** The address at which frame `pfn` is mapped. */
  function FrameAddr(pfn: nat): nat {
    (PHYS_MAP_BASE + pfn) * PAGE_SIZE
  }

  function SlabFromObject(addr: nat, order: nat): nat {
    AlignDown(addr, SlabBytes(order))
  }

  lemma {:induction false} Pow2Add(j: nat, k: nat)
    ensures Pow2(j + k) == Pow2(j) * Pow2(k)
  {
    if j > 0 {
      Pow2Add(j - 1, k);
      assert Pow2(j + k) == 2 * Pow2(j - 1 + k);
      MulAssoc(2, Pow2(j - 1), Pow2(k));
    }
  }

  /** An aligned frame is mapped at a multiple of its block's size. */
  lemma {:induction false} BlockAddrAligned(pfn: nat, order: nat)
    requires Aligned(pfn, order) && order <= MAX_ORDER
    ensures FrameAddr(pfn) % SlabBytes(order) == 0
    ensures FrameAddr(pfn) == (FrameAddr(pfn) / SlabBytes(order)) * SlabBytes(order)
  {
    FirstIsProduct(Up(pfn, order), order);
    Pow2Add(MAX_ORDER - order, order);
    var n, q := Up(pfn, order), PHYS_MAP_BASE / Pow2(MAX_ORDER) * Pow2(MAX_ORDER - order);
    assert Pow2(MAX_ORDER) == 32768;
    assert PHYS_MAP_BASE == PHYS_MAP_BASE / 32768 * 32768;
    MulAssoc(PHYS_MAP_BASE / 32768, Pow2(MAX_ORDER - order), Pow2(order));
    assert PHYS_MAP_BASE == q * Pow2(order);
    MulAdd(q, n, Pow2(order));
    MulAssoc(q + n, PAGE_SIZE, Pow2(order));
    assert FrameAddr(pfn) == (q + n) * SlabBytes(order);
    DivModUnique(FrameAddr(pfn), SlabBytes(order), q + n);
  }

  /** From an object's address, the slab and the object's index are found again. */
  lemma {:induction false} FindsObject(m: Meta, pfn: nat, i: nat)
    requires MetaOk(m) && i < m.objects && Aligned(pfn, m.slabOrder) && m.slabOrder <= MAX_ORDER
    ensures var addr := FrameAddr(pfn) + ObjectOffset(m, i);
            && SlabFromObject(addr, m.slabOrder) == FrameAddr(pfn)
            && (addr - FrameAddr(pfn) - FirstObjectOffset(m)) / m.size == i
  {
    BlockAddrAligned(pfn, m.slabOrder);
    ObjectsApart(m, i, i);
    AlignDownOffset(FrameAddr(pfn) / SlabBytes(m.slabOrder), SlabBytes(m.slabOrder), ObjectOffset(m, i));
    DivOfProduct(i, m.size);
  }

  // ----- Choosing a class -----

  /** The first class from `c` on that holds `bytes` bytes. */
  function ClassFrom(bytes: nat, c: nat): (r: Option<nat>)
    requires c <= CLASS_COUNT
    ensures r.Some? ==> c <= r.value < CLASS_COUNT && Sizes()[r.value] >= bytes
    ensures r.Some? ==> forall j :: c <= j < r.value ==> Sizes()[j] < bytes
    ensures r.None? ==> forall j :: c <= j < CLASS_COUNT ==> Sizes()[j] < bytes
    decreases CLASS_COUNT - c
  {
    if c == CLASS_COUNT then None else if Sizes()[c] >= bytes then Some(c) else ClassFrom(bytes, c + 1)
  }

  function Log2Ceil(n: nat): (k: nat)
    ensures n <= Pow2(k) && forall j :: 0 <= j < k ==> Pow2(j) < n
  {
    if n <= 1 then 0
    else
      var k := Log2(n - 1) + 1;
      Pow2Below(k - 1);
      k
  }

  lemma {:induction false} Pow2Below(k: nat)
    ensures forall j :: 0 <= j <= k ==> Pow2(j) <= Pow2(k)
  {
    forall j | 0 <= j <= k
      ensures Pow2(j) <= Pow2(k)
    {
      Pow2Mono(j, k);
    }
  }

  /** Where a request is served from: the slabs of a class, or a block of its own. */
  datatype Bin = Class(c: nat) | Raw(order: nat)

  function BinFor(bytes: nat): (b: Bin)
    ensures b.Class? ==> b.c < CLASS_COUNT
  {
    match ClassFrom(bytes, 0)
    case Some(c) => Class(c)
    case None => Raw(Log2Ceil(DivCeil(bytes, PAGE_SIZE)))
  }

  function UsableSize(b: Bin): nat
    requires b.Class? ==> b.c < CLASS_COUNT
  {
    match b
    case Class(c) => Sizes()[c]
    case Raw(order) => SlabBytes(order)
  }

  function EffectiveSize(size: nat, align: nat): nat
    requires align > 0
  {
    AlignUp(size, align)
  }

  /** The chosen bin is large enough. */
  lemma {:induction false} BinHolds(bytes: nat)
    ensures bytes <= UsableSize(BinFor(bytes))
    ensures BinFor(bytes).Class? <==> bytes <= MAX_CLASS_SIZE
  {
    assert Sizes()[CLASS_COUNT - 1] == MAX_CLASS_SIZE;
    if BinFor(bytes).Raw? {
      var pages := DivCeil(bytes, PAGE_SIZE);
      assert bytes <= pages * PAGE_SIZE;
      MulMono(pages, Pow2(Log2Ceil(pages)), PAGE_SIZE);
    } else {
      ClassSizes(BinFor(bytes).c);
    }
  }

  /** It is the smallest one: the next smaller one of its kind is too small. */
  lemma {:induction false} BinSmallest(bytes: nat)
    ensures match BinFor(bytes)
            case Class(c) => c > 0 ==> UsableSize(Class(c - 1)) < bytes
            case Raw(order) => order > 0 ==> UsableSize(Raw(order - 1)) < bytes
  {
    if BinFor(bytes).Raw? {
      var pages := DivCeil(bytes, PAGE_SIZE);
      assert pages * PAGE_SIZE < bytes + PAGE_SIZE;
      if Log2Ceil(pages) > 0 {
        assert Pow2(Log2Ceil(pages) - 1) < pages;
        MulMono(Pow2(Log2Ceil(pages) - 1), pages - 1, PAGE_SIZE);
      }
    }
  }

  lemma {:induction false} ClassSizes(c: nat)
    requires c < CLASS_COUNT
    ensures 0 < Sizes()[c] <= MAX_CLASS_SIZE && (c > 0 ==> Sizes()[c - 1] < Sizes()[c])
  {
  }

  lemma {:induction false} ClassSizesGrow(c: nat, d: nat)
    requires c < d < CLASS_COUNT
    ensures Sizes()[c] < Sizes()[d]
  {
    ClassSizes(d);
    if c < d - 1 {
      ClassSizesGrow(c, d - 1);
    }
  }

  lemma {:induction false} Pow2Grows(j: nat, k: nat)
    requires j < k
    ensures Pow2(j) < Pow2(k)
  {
    if j < k - 1 {
      Pow2Grows(j, k - 1);
    }
  }

  /** A block that is kept in place when it is resized is served from the same bin as before, so that it can be given back
      under either size. */
  lemma {:induction false} SameSizeSameBin(a: nat, b: nat)
    requires UsableSize(BinFor(a)) == UsableSize(BinFor(b))
    ensures BinFor(a) == BinFor(b)
  {
    match (BinFor(a), BinFor(b)) {
      case (Class(c), Class(d)) =>
        if c < d {
          ClassSizesGrow(c, d);
        } else if d < c {
          ClassSizesGrow(d, c);
        }
      case (Raw(j), Raw(k)) =>
        if j < k {
          Pow2Grows(j, k);
        } else if k < j {
          Pow2Grows(k, j);
        }
      case (Class(c), Raw(_)) => ClassSizes(c);
      case (Raw(_), Class(d)) => ClassSizes(d);
    }
  }

  // ----- Alignment -----

  function Below(c: nat): nat
    requires c < CLASS_COUNT
  {
    if c == 0 then 0 else Sizes()[c - 1]
  }

  /** The logarithm of the granularity of a class. */
  function Granule(c: nat): nat {
    if c == 0 then 1 else if c == 1 then 3 else if c <= 7 then 4 else if c <= 12 then 5 else if c <= 16 then 6
    else if c <= 20 then 7 else 8
  }

  /** A class is a multiple of its granularity, and one granule below it lies no class but the one before it. */
  lemma {:induction false} ClassGranule(c: nat)
    requires c < CLASS_COUNT
    ensures Sizes()[c] % Pow2(Granule(c)) == 0 && Sizes()[c] <= Below(c) + Pow2(Granule(c))
  {
    assert Pow2(1) == 2 && Pow2(3) == 8 && Pow2(4) == 16 && Pow2(5) == 32 && Pow2(6) == 64 && Pow2(7) == 128 && Pow2(8) == 256;
  }

  lemma {:induction false} PowersDivide(j: nat, k: nat)
    requires j <= k
    ensures Multiple(Pow2(k), Pow2(j))
  {
    Pow2Add(k - j, j);
    assert Pow2(k) == Times(Pow2(k - j), Pow2(j));
  }

  lemma {:induction false} MultipleOfSmaller(n: nat, j: nat, k: nat)
    requires j <= k && n % Pow2(k) == 0
    ensures n % Pow2(j) == 0 && Multiple(n, Pow2(j))
  {
    PowersDivide(j, k);
    MultipleMod(n, Pow2(k));
    MultipleTrans(n, Pow2(k), Pow2(j));
    MultipleMod(n, Pow2(j));
  }

  /** Two multiples less than `d` apart are the same. */
  lemma {:induction false} MultiplesApart(n: nat, m: nat, d: nat)
    requires d > 0 && n % d == 0 && m % d == 0 && n <= m < n + d
    ensures n == m
  {
    DivModUnique(m, d, n / d);
  }

  /** A class holds at least the alignment of every size that is rounded up to it. */
  lemma {:induction false} ClassKeepsAlignment(bytes: nat, k: nat)
    requires 0 < bytes <= MAX_CLASS_SIZE && bytes % Pow2(k) == 0
    ensures k <= 11 && BinFor(bytes).Class? && Sizes()[BinFor(bytes).c] % Pow2(k) == 0
  {
    BinHolds(bytes);
    if k > 11 {
      Pow2Mono(12, k);
      assert Pow2(12) == 4096;
      DivModUnique(bytes, Pow2(k), 0);
      assert false;
    }
    var c := BinFor(bytes).c;
    var g := Granule(c);
    ClassGranule(c);
    if k <= g {
      MultipleOfSmaller(Sizes()[c], k, g);
    } else {
      MultipleOfSmaller(bytes, g, k);
      MultiplesApart(bytes, Sizes()[c], Pow2(g));
    }
  }

  lemma {:induction false} SlabBytesIsPow2(order: nat)
    ensures SlabBytes(order) == Pow2(order + 12)
  {
    Pow2Add(order, 12);
    assert Pow2(12) == PAGE_SIZE;
  }

  /** Every object of a class is aligned as its size is. */
  lemma {:induction false} ObjectAligned(m: Meta, pfn: nat, i: nat, k: nat)
    requires MetaOk(m) && i < m.objects && Aligned(pfn, m.slabOrder) && m.slabOrder <= MAX_ORDER
    requires k <= 11 && m.size % Pow2(k) == 0
    ensures (FrameAddr(pfn) + ObjectOffset(m, i)) % Pow2(k) == 0
  {
    var d := Pow2(k);
    SlabBytesIsPow2(m.slabOrder);
    PowersDivide(k, m.slabOrder + 12);
    BlockAddrAligned(pfn, m.slabOrder);
    MultipleOfSmaller(FrameAddr(pfn), k, m.slabOrder + 12);
    MultipleMod(m.size, d);
    ObjectSum(FrameAddr(pfn), SlabBytes(m.slabOrder), m.size, m.objects, i, d);
  }

  lemma {:induction false} ObjectSum(addr: nat, slab: nat, size: nat, objects: nat, i: nat, d: nat)
    requires d > 0 && Multiple(addr, d) && Multiple(slab, d) && Multiple(size, d) && objects * size <= slab
    ensures (addr + (slab - objects * size + i * size)) % d == 0
  {
    MultipleTimes(objects, size, d);
    MultipleTimes(i, size, d);
    var whole, part := objects * size, i * size;
    MultipleSum(slab, whole, d);
    MultipleSum(slab - whole, part, d);
    MultipleSum(addr, slab - whole + part, d);
    MultipleMod(addr + (slab - whole + part), d);
  }

  /** A block of its own is aligned as its size was before rounding up. */
  lemma {:induction false} RawAligned(bytes: nat, pfn: nat, order: nat, k: nat)
    requires 0 < bytes && BinFor(bytes) == Raw(order) && Aligned(pfn, order) && order <= MAX_ORDER
    requires bytes % Pow2(k) == 0
    ensures FrameAddr(pfn) % Pow2(k) == 0
  {
    BinHolds(bytes);
    SlabBytesIsPow2(order);
    if k > order + 12 {
      Pow2Grows(order + 12, k);
      DivModUnique(bytes, Pow2(k), 0);
    }
    BlockAddrAligned(pfn, order);
    MultipleOfSmaller(FrameAddr(pfn), k, order + 12);
  }
}
