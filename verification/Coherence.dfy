/** The tree of slices and mappings, and the page table: what it means for them to agree, and what keeps them so. */
module Coherence {
  import opened MemTypes
  import opened PageTree
  import opened PageMap
  import opened PageUpdate
  import opened Commit
  import opened Unmapping
  import opened SliceChildren
  import opened SliceNesting
  import ST = SliceTree

  /** A mapping: its place, and the part of an object that it maps there. */
  datatype MapInfo = MapInfo(parent: Id, start: Vpn, count: nat, offset: nat, pages: Object, attrs: Attrs) {
    predicate Valid() {
      count > 0 && offset + count <= |pages|
    }

    /** The frames for the mapping's own pages. */
    function Frames(): Object
      requires Valid()
    {
      pages[offset..offset + count]
    }
  }

  type Maps = map<Id, MapInfo>

  /** The records of mappings and the tree agree on where each mapping is. */
  ghost predicate MapOk(a: ST.Arena, maps: Maps, p: Id, c: Child) {
    IsMapping(a, p, c) ==>
      && c.id in maps && maps[c.id].Valid()
      && maps[c.id].parent == p && maps[c.id].start == c.start && maps[c.id].count == c.count
  }

  ghost predicate MapsOk(a: ST.Arena, maps: Maps) {
    forall p, c: Child {:trigger MapOk(a, maps, p, c)} :: MapOk(a, maps, p, c)
  }

  /** Attached mapping `c` of slice `p` accounts for the translation `tr` of `v`. */
  ghost predicate Accounts(a: ST.Arena, maps: Maps, p: Id, c: Child, v: Vpn, tr: Option<Translation>) {
    && IsMapping(a, p, c) && c.id in maps && maps[c.id].Valid()
    && IsCommitted(tr, v, c.start, maps[c.id].Frames(), maps[c.id].attrs)
  }

  /** If `v` is translated, an attached mapping accounts for it. */
  ghost predicate PageCoherent(a: ST.Arena, maps: Maps, mem: Memory, root: Pfn, v: Vpn) {
    Walk(mem, root, ROOT_LEVEL, v).Some? ==> exists p, c: Child :: Accounts(a, maps, p, c, v, Walk(mem, root, ROOT_LEVEL, v))
  }

  /** The committed pages of a mapping are a first part of it. */
  ghost predicate CommittedFirst(a: ST.Arena, mem: Memory, root: Pfn, p: Id, c: Child) {
    IsMapping(a, p, c) ==>
      forall v: Vpn, w: Vpn {:trigger Walk(mem, root, ROOT_LEVEL, v), Walk(mem, root, ROOT_LEVEL, w)} ::
        c.start <= w <= v < c.End() && Walk(mem, root, ROOT_LEVEL, v).Some? ==> Walk(mem, root, ROOT_LEVEL, w).Some?
  }

  /** The page table and the tree agree on the pages `lo..hi`. */
  ghost predicate Coherent(a: ST.Arena, maps: Maps, mem: Memory, root: Pfn, lo: Vpn, hi: Vpn) {
    && (forall v: Vpn {:trigger PageCoherent(a, maps, mem, root, v)} :: lo <= v < hi ==> PageCoherent(a, maps, mem, root, v))
    && (forall p, c: Child {:trigger CommittedFirst(a, mem, root, p, c)} :: CommittedFirst(a, mem, root, p, c))
  }

  ghost predicate TreeNested(a: ST.Arena) {
    Nested(a) && ST.AllRangesOk(a)
  }

  // ----- All slices lie in the address space -----

  ghost predicate Inside(a: ST.Arena, lo: Vpn, hi: Vpn, s: Id)
    requires s in a
  {
    lo <= a[s].start && a[s].End() <= hi
  }

  ghost predicate AllInside(a: ST.Arena, lo: Vpn, hi: Vpn) {
    forall s {:trigger Inside(a, lo, hi, s)} :: s in a ==> Inside(a, lo, hi, s)
  }

  lemma {:induction false} MappingsInside(a: ST.Arena, lo: Vpn, hi: Vpn)
    requires TreeNested(a) && AllInside(a, lo, hi)
    ensures forall q, d: Child :: IsMapping(a, q, d) ==> lo <= d.start && d.End() <= hi
  {
    forall q, d: Child | IsMapping(a, q, d)
      ensures lo <= d.start && d.End() <= hi
    {
      assert Inside(a, lo, hi, q) && ST.RangesOk(a, q);
    }
  }

  /** Adding or taking out children keeps every slice inside. */
  lemma {:induction false} InsideKept(a: ST.Arena, a': ST.Arena, lo: Vpn, hi: Vpn)
    requires AllInside(a, lo, hi)
    requires forall s :: s in a' ==> s in a && a'[s].start == a[s].start && a'[s].count == a[s].count
    ensures AllInside(a', lo, hi)
  {
    forall s | s in a'
      ensures Inside(a', lo, hi, s)
    {
      assert Inside(a, lo, hi, s);
    }
  }

  lemma {:induction false} SubsliceInside(a: ST.Arena, lo: Vpn, hi: Vpn, s: Id, c: Child)
    requires AllInside(a, lo, hi) && ST.CanPlace(a, s, c) && c.Subslice? && c.id !in a
    ensures AllInside(ST.NewSlice(a, s, c), lo, hi)
  {
    var a' := ST.NewSlice(a, s, c);
    assert Inside(a, lo, hi, s);
    forall t | t in a'
      ensures Inside(a', lo, hi, t)
    {
      assert t in a ==> Inside(a, lo, hi, t);
    }
  }

  /** Every handle ever given out is for a range of pages inside `lo..hi`. */
  ghost predicate HandleOk(m: MapInfo, lo: Vpn, hi: Vpn) {
    m.Valid() && lo <= m.start && m.start + m.count <= hi
  }

  /** Tree, handles and page table agree. */
  ghost predicate SpaceOk(a: ST.Arena, maps: Maps, mem: Memory, root: Pfn, span: nat, lo: Vpn, hi: Vpn) {
    && TreeNested(a) && MapsOk(a, maps) && AllInside(a, lo, hi)
    && (forall v: Vpn :: lo <= v < hi ==> InSpan(v, span))
    && (forall id :: id in maps ==> HandleOk(maps[id], lo, hi))
    && Coherent(a, maps, mem, root, lo, hi)
  }

  // ----- The pages of a mapping -----

  /** The pages of an attached mapping are its own. */
  lemma {:induction false} MappingOwnsPages(a: ST.Arena, maps: Maps, mem: Memory, root: Pfn, lo: Vpn, hi: Vpn, p: Id, c: Child)
    requires Coherent(a, maps, mem, root, lo, hi) && TreeNested(a) && MapsOk(a, maps) && IsMapping(a, p, c)
    requires lo <= c.start && c.End() <= hi
    ensures OwnsPages(mem, root, c.start, c.count)
  {
    forall v: Vpn | c.start <= v < c.End()
      ensures OwnsPage(mem, root, c.start, c.count, v)
    {
      if Walk(mem, root, ROOT_LEVEL, v).Some? {
        assert PageCoherent(a, maps, mem, root, v);
        var q, d: Child :| Accounts(a, maps, q, d, v, Walk(mem, root, ROOT_LEVEL, v));
        assert MapOk(a, maps, q, d) && CommittedFirst(a, mem, root, p, c);
        MappingsDisjoint(a, p, c, q, d, v);
      }
    }
  }

  // ----- Unmapping through any handle -----

  /** If the walk over `start..start + count` clears a page of mapping `e`, it clears all translated later pages of it. */
  predicate KeptBehind(mem: Memory, root: Pfn, start: Vpn, count: nat, e: Child) {
    forall w: Vpn, v: Vpn {:trigger Clears(mem, root, start, count, w), Clears(mem, root, start, count, v)} ::
      e.start <= w <= v < e.End() && Clears(mem, root, start, count, w) && Walk(mem, root, ROOT_LEVEL, v).Some? ==>
        Clears(mem, root, start, count, v)
  }

  /** The same, if there is a mapping at `k` in slice `q` other than the one at `start` in `p`. */
  predicate OtherKept(a: ST.Arena, mem: Memory, root: Pfn, p: Id, start: Vpn, count: nat, q: Id, k: Vpn) {
    ST.Attached(a, q) && k in ST.ChildrenOf(a, q) && ST.ChildrenOf(a, q)[k].Mapping? && !(q == p && k == start) ==>
      KeptBehind(mem, root, start, count, ST.ChildrenOf(a, q)[k])
  }

  /** Taking out the child of `p` at `start` and unmapping `start..start + count` keeps tree and page table in agreement: the
      child is a mapping with no translated page behind the range, and other mappings lose no page before one they keep. */
  predicate KeepsAgreement(a: ST.Arena, mem: Memory, root: Pfn, p: Id, start: Vpn, count: nat)
    requires ST.Attached(a, p) && start in ST.ChildrenOf(a, p)
  {
    var d := ST.ChildrenOf(a, p)[start];
    && d.Mapping?
    && (forall v: Vpn :: start + count <= v < d.End() ==> Walk(mem, root, ROOT_LEVEL, v) == None)
    && (forall q, k {:trigger OtherKept(a, mem, root, p, start, count, q, k)} ::
          q in a && a[q].inner.Some? && k in a[q].inner.value.children ==> OtherKept(a, mem, root, p, start, count, q, k))
  }

  /** Of the mapping that starts with the range, every translated page in the range is cleared. */
  lemma {:induction false} FirstCleared(a: ST.Arena, maps: Maps, mem: Memory, root: Pfn, span: nat, lo: Vpn, hi: Vpn,
                                        p: Id, d: Child, count: nat, v: Vpn)
    requires SpaceOk(a, maps, mem, root, span, lo, hi) && IsMapping(a, p, d)
    requires d.Contains(v) && v < d.start + count && Walk(mem, root, ROOT_LEVEL, v).Some?
    ensures Clears(mem, root, d.start, count, v)
  {
    MappingsInside(a, lo, hi);
    MappingOwnsPages(a, maps, mem, root, lo, hi, p, d);
    assert OwnsPage(mem, root, d.start, d.count, v);
    FirstPageAligned(mem, root, d.start, d.count);
    ClearsTranslated(mem, root, span, d.start, count, v);
  }

  /** The condition is enough. */
  lemma {:induction false} UnmapAgrees(a: ST.Arena, maps: Maps, mem: Memory, mem': Memory, root: Pfn, span: nat,
                                       lo: Vpn, hi: Vpn, p: Id, d: Child, count: nat)
    requires SpaceOk(a, maps, mem, root, span, lo, hi) && IsMapping(a, p, d)
    requires Erased(mem, mem', root, span, d.start, count) && KeepsAgreement(a, mem, root, p, d.start, count)
    requires TreeNested(ST.PopChild(a, p, d.start))
    ensures SpaceOk(ST.PopChild(a, p, d.start), maps, mem', root, span, lo, hi)
  {
    var a' := ST.PopChild(a, p, d.start);
    RemovedMapping(a, p, d.start);
    InsideKept(a, a', lo, hi);
    MappingsInside(a, lo, hi);
    forall v: Vpn | lo <= v < hi
      ensures PageCoherent(a', maps, mem', root, v)
    {
      assert PageErased(mem, mem', root, d.start, count, v) && PageCoherent(a, maps, mem, root, v);
      if Walk(mem', root, ROOT_LEVEL, v).Some? {
        var q, e: Child :| Accounts(a, maps, q, e, v, Walk(mem, root, ROOT_LEVEL, v));
        assert MapOk(a, maps, q, e);
        if e == d && q == p && v < d.start + count {
          FirstCleared(a, maps, mem, root, span, lo, hi, p, d, count, v);
        }
        assert Accounts(a', maps, q, e, v, Walk(mem', root, ROOT_LEVEL, v));
      }
    }
    forall q, e: Child
      ensures CommittedFirst(a', mem', root, q, e) && MapOk(a', maps, q, e)
    {
      assert CommittedFirst(a, mem, root, q, e) && MapOk(a, maps, q, e);
      if IsMapping(a', q, e) {
        assert OtherKept(a, mem, root, p, d.start, count, q, e.start);
        StaysFirst(a, mem, mem', root, span, d.start, count, q, e);
      }
    }
  }

  lemma {:induction false} StaysFirst(a: ST.Arena, mem: Memory, mem': Memory, root: Pfn, span: nat, start: Vpn, count: nat,
                                      q: Id, e: Child)
    requires IsMapping(a, q, e) && CommittedFirst(a, mem, root, q, e) && KeptBehind(mem, root, start, count, e)
    requires Erased(mem, mem', root, span, start, count) && (forall v: Vpn :: e.Contains(v) ==> InSpan(v, span))
    ensures forall v: Vpn, w: Vpn {:trigger Walk(mem', root, ROOT_LEVEL, v), Walk(mem', root, ROOT_LEVEL, w)} ::
              e.start <= w <= v < e.End() && Walk(mem', root, ROOT_LEVEL, v).Some? ==> Walk(mem', root, ROOT_LEVEL, w).Some?
  {
    forall v: Vpn, w: Vpn | e.start <= w <= v < e.End() && Walk(mem', root, ROOT_LEVEL, v).Some?
      ensures Walk(mem', root, ROOT_LEVEL, w).Some?
    {
      assert PageErased(mem, mem', root, start, count, v) && PageErased(mem, mem', root, start, count, w);
    }
  }

  /** The condition is necessary. */
  lemma {:induction false} UnmapBreaks(a: ST.Arena, maps: Maps, mem: Memory, mem': Memory, root: Pfn, span: nat,
                                       lo: Vpn, hi: Vpn, p: Id, d: Child, count: nat)
    requires SpaceOk(a, maps, mem, root, span, lo, hi) && IsMapping(a, p, d)
    requires Erased(mem, mem', root, span, d.start, count) && !KeepsAgreement(a, mem, root, p, d.start, count)
    ensures !Coherent(ST.PopChild(a, p, d.start), maps, mem', root, lo, hi)
  {
    var a' := ST.PopChild(a, p, d.start);
    MappingsInside(a, lo, hi);
    RemovedMapping(a, p, d.start);
    if v: Vpn :| d.start + count <= v < d.End() && Walk(mem, root, ROOT_LEVEL, v) != None {
      assert PageErased(mem, mem', root, d.start, count, v);
      Unaccounted(a, maps, mem', root, span, lo, hi, p, d, v);
      assert !PageCoherent(a', maps, mem', root, v);
    } else {
      var q, k :| ST.Attached(a, q) && k in ST.ChildrenOf(a, q) && !OtherKept(a, mem, root, p, d.start, count, q, k);
      assert ST.RangesOk(a, q);
      LosesFirst(mem, mem', root, span, d.start, count, a', q, ST.ChildrenOf(a, q)[k]);
    }
  }

  lemma {:induction false} LosesFirst(mem: Memory, mem': Memory, root: Pfn, span: nat, start: Vpn, count: nat,
                                      a: ST.Arena, q: Id, e: Child)
    requires IsMapping(a, q, e) && !KeptBehind(mem, root, start, count, e)
    requires Erased(mem, mem', root, span, start, count) && (forall v: Vpn :: e.Contains(v) ==> InSpan(v, span))
    ensures !CommittedFirst(a, mem', root, q, e)
  {
    var w: Vpn, v: Vpn :| e.start <= w <= v < e.End() && Clears(mem, root, start, count, w) &&
                          Walk(mem, root, ROOT_LEVEL, v).Some? && !Clears(mem, root, start, count, v);
    assert PageErased(mem, mem', root, start, count, v) && PageErased(mem, mem', root, start, count, w);
  }

  /** Once mapping `d` is out of the tree, nothing accounts for a page of it. */
  lemma {:induction false} Unaccounted(a: ST.Arena, maps: Maps, mem': Memory, root: Pfn, span: nat,
                                       lo: Vpn, hi: Vpn, p: Id, d: Child, v: Vpn)
    requires TreeNested(a) && MapsOk(a, maps) && IsMapping(a, p, d) && d.Contains(v)
    requires Walk(mem', root, ROOT_LEVEL, v).Some?
    ensures !PageCoherent(ST.PopChild(a, p, d.start), maps, mem', root, v)
  {
    var a' := ST.PopChild(a, p, d.start);
    RemovedMapping(a, p, d.start);
    forall q, e: Child
      ensures !Accounts(a', maps, q, e, v, Walk(mem', root, ROOT_LEVEL, v))
    {
      if IsMapping(a', q, e) && e.Contains(v) {
        MappingsDisjoint(a, p, d, q, e, v);
      }
      assert MapOk(a, maps, q, e);
    }
  }

  /** A mapping's own handle meets the condition, and the walk does not fail. */
  lemma {:induction false} OwnHandle(a: ST.Arena, maps: Maps, mem: Memory, root: Pfn, span: nat, lo: Vpn, hi: Vpn, p: Id, c: Child)
    requires SpaceOk(a, maps, mem, root, span, lo, hi) && IsMapping(a, p, c)
    ensures KeepsAgreement(a, mem, root, p, c.start, c.count) && OwnsPages(mem, root, c.start, c.count)
    ensures StepsFit(mem, root, span, c.start, c.End(), c.End())
  {
    assert MapOk(a, maps, p, c);
    MappingsInside(a, lo, hi);
    MappingOwnsPages(a, maps, mem, root, lo, hi, p, c);
    NoPartialPage(mem, root, span, c.start, c.count);
    forall q, k
      ensures OtherKept(a, mem, root, p, c.start, c.count, q, k)
    {
      if ST.Attached(a, q) && k in ST.ChildrenOf(a, q) && ST.ChildrenOf(a, q)[k].Mapping? && !(q == p && k == c.start) {
        assert ST.RangesOk(a, q);
        NoneCleared(a, mem, root, p, c, q, ST.ChildrenOf(a, q)[k]);
      }
    }
  }

  lemma {:induction false} NoneCleared(a: ST.Arena, mem: Memory, root: Pfn, p: Id, c: Child, q: Id, e: Child)
    requires TreeNested(a) && IsMapping(a, p, c) && IsMapping(a, q, e) && !(q == p && e.start == c.start)
    ensures KeptBehind(mem, root, c.start, c.count, e)
  {
    forall w: Vpn | e.Contains(w)
      ensures !Clears(mem, root, c.start, c.count, w)
    {
      if c.Contains(w) {
        MappingsDisjoint(a, p, c, q, e, w);
      }
    }
  }

  /** Unmapping through a mapping's own handle clears exactly its pages. */
  lemma {:induction false} OwnUnmapped(a: ST.Arena, maps: Maps, mem: Memory, mem': Memory, root: Pfn, span: nat,
                                       lo: Vpn, hi: Vpn, p: Id, c: Child)
    requires SpaceOk(a, maps, mem, root, span, lo, hi) && IsMapping(a, p, c)
    ensures StepsFit(mem, root, span, c.start, c.End(), c.End()) && KeepsAgreement(a, mem, root, p, c.start, c.count)
    ensures Erased(mem, mem', root, span, c.start, c.count) ==> Cleared(mem, mem', root, span, c.start, c.count)
  {
    assert MapOk(a, maps, p, c);
    MappingsInside(a, lo, hi);
    OwnHandle(a, maps, mem, root, span, lo, hi, p, c);
    if Erased(mem, mem', root, span, c.start, c.count) {
      UnmapsAll(mem, mem', root, span, c.start, c.count);
    }
  }

  /** The condition is exact. */
  lemma {:induction false} UnmapIff(a: ST.Arena, maps: Maps, mem: Memory, mem': Memory, root: Pfn, span: nat,
                                    lo: Vpn, hi: Vpn, p: Id, d: Child, count: nat)
    requires SpaceOk(a, maps, mem, root, span, lo, hi) && IsMapping(a, p, d)
    requires Erased(mem, mem', root, span, d.start, count) && TreeNested(ST.PopChild(a, p, d.start))
    ensures SpaceOk(ST.PopChild(a, p, d.start), maps, mem', root, span, lo, hi) <==>
            KeepsAgreement(a, mem, root, p, d.start, count)
    ensures Coherent(ST.PopChild(a, p, d.start), maps, mem', root, lo, hi) <==> KeepsAgreement(a, mem, root, p, d.start, count)
  {
    if KeepsAgreement(a, mem, root, p, d.start, count) {
      UnmapAgrees(a, maps, mem, mem', root, span, lo, hi, p, d, count);
    } else {
      UnmapBreaks(a, maps, mem, mem', root, span, lo, hi, p, d, count);
    }
  }

  /** If `e` starts in the range, none of its pages behind the range is translated. */
  ghost predicate NoneBehind(mem: Memory, root: Pfn, start: Vpn, count: nat, e: Child) {
    start < e.start < start + count ==>
      forall v: Vpn :: start + count <= v < e.End() ==> Walk(mem, root, ROOT_LEVEL, v) == None
  }

  /** If the first page of the range is translated, another mapping loses no page before one it keeps exactly if it does not
      start in the range with a translated page behind it. */
  lemma {:induction false} OthersStickOut(a: ST.Arena, maps: Maps, mem: Memory, root: Pfn, span: nat, lo: Vpn, hi: Vpn,
                                          p: Id, d: Child, count: nat, q: Id, e: Child)
    requires SpaceOk(a, maps, mem, root, span, lo, hi) && IsMapping(a, p, d) && Walk(mem, root, ROOT_LEVEL, d.start).Some?
    requires IsMapping(a, q, e) && !(q == p && e.start == d.start) && count > 0
    ensures OtherKept(a, mem, root, p, d.start, count, q, e.start) <==> NoneBehind(mem, root, d.start, count, e)
  {
    MappingsInside(a, lo, hi);
    MappingOwnsPages(a, maps, mem, root, lo, hi, p, d);
    assert MapOk(a, maps, p, d) && CommittedFirst(a, mem, root, q, e);
    FirstPageAligned(mem, root, d.start, d.count);
    if e.Contains(d.start) {
      MappingsDisjoint(a, p, d, q, e, d.start);
    }
    OtherSticksOut(a, mem, root, span, d.start, count, q, e);
  }

  lemma {:induction false} OtherSticksOut(a: ST.Arena, mem: Memory, root: Pfn, span: nat, start: Vpn, count: nat, q: Id, e: Child)
    requires IsMapping(a, q, e) && CommittedFirst(a, mem, root, q, e) && !e.Contains(start)
    requires AlignedStop(mem, root, start) && InSpan(start, span) && (forall v: Vpn :: e.Contains(v) ==> InSpan(v, span))
    ensures KeptBehind(mem, root, start, count, e) <==> NoneBehind(mem, root, start, count, e)
  {
    if v: Vpn :| start < e.start < start + count <= v < e.End() && Walk(mem, root, ROOT_LEVEL, v) != None {
      assert Walk(mem, root, ROOT_LEVEL, e.start).Some?;
      ClearsTranslated(mem, root, span, start, count, e.start);
      assert !KeptBehind(mem, root, start, count, e) by {
        assert Clears(mem, root, start, count, e.start) && !Clears(mem, root, start, count, v);
      }
    } else {
      forall w: Vpn, v: Vpn | e.start <= w <= v < e.End() && Clears(mem, root, start, count, w) &&
                              Walk(mem, root, ROOT_LEVEL, v).Some?
        ensures Clears(mem, root, start, count, v)
      {
        ClearsTranslated(mem, root, span, start, count, v);
      }
    }
  }

  // ----- Unmapping a slice -----

  /** The walk over the range clears every translated page in it. */
  predicate ReachesAll(mem: Memory, root: Pfn, start: Vpn, count: nat) {
    forall v: Vpn {:trigger Clears(mem, root, start, count, v)} ::
      start <= v < start + count && Walk(mem, root, ROOT_LEVEL, v).Some? ==> Clears(mem, root, start, count, v)
  }

  /** Slice `s` has been taken out of the tree with all that is below it. */
  ghost predicate SliceGone(a: ST.Arena, a': ST.Arena, s: Id) {
    && (forall q, e: Child :: IsMapping(a', q, e) <==> IsMapping(a, q, e) && !ST.Below(a, q, s))
    && ST.SameRanges(a, a')
  }

  /** Unmapping a slice keeps tree and page table in agreement exactly if the walk reaches every translated page. */
  lemma {:induction false} UnmapSliceIff(a: ST.Arena, a': ST.Arena, maps: Maps, mem: Memory, mem': Memory, root: Pfn, span: nat,
                                         lo: Vpn, hi: Vpn, top: Id, depth: map<Id, nat>, max: nat, s: Id)
    requires SpaceOk(a, maps, mem, root, span, lo, hi) && ST.TreeOk(a, top, depth, max) && ST.Attached(a, s)
    requires SliceGone(a, a', s) && TreeNested(a') && Erased(mem, mem', root, span, a[s].start, a[s].count)
    ensures SpaceOk(a', maps, mem', root, span, lo, hi) <==> ReachesAll(mem, root, a[s].start, a[s].count)
    ensures Coherent(a', maps, mem', root, lo, hi) <==> ReachesAll(mem, root, a[s].start, a[s].count)
  {
    if ReachesAll(mem, root, a[s].start, a[s].count) {
      UnmapSliceAgrees(a, a', maps, mem, mem', root, span, lo, hi, top, depth, max, s);
    } else {
      var v: Vpn :| a[s].start <= v < a[s].End() && Walk(mem, root, ROOT_LEVEL, v).Some? &&
                    !Clears(mem, root, a[s].start, a[s].count, v);
      assert Inside(a, lo, hi, s);
      assert PageErased(mem, mem', root, a[s].start, a[s].count, v);
      forall q, e: Child
        ensures !Accounts(a', maps, q, e, v, Walk(mem', root, ROOT_LEVEL, v))
      {
        if IsMapping(a', q, e) {
          assert MapOk(a, maps, q, e);
          MappingOutside(a, top, depth, max, q, e, s);
        }
      }
      assert !PageCoherent(a', maps, mem', root, v);
    }
  }

  lemma {:induction false} UnmapSliceAgrees(a: ST.Arena, a': ST.Arena, maps: Maps, mem: Memory, mem': Memory, root: Pfn, span: nat,
                                            lo: Vpn, hi: Vpn, top: Id, depth: map<Id, nat>, max: nat, s: Id)
    requires SpaceOk(a, maps, mem, root, span, lo, hi) && ST.TreeOk(a, top, depth, max) && ST.Attached(a, s)
    requires SliceGone(a, a', s) && TreeNested(a') && Erased(mem, mem', root, span, a[s].start, a[s].count)
    requires ReachesAll(mem, root, a[s].start, a[s].count)
    ensures SpaceOk(a', maps, mem', root, span, lo, hi)
  {
    InsideKept(a, a', lo, hi);
    MappingsInside(a, lo, hi);
    forall v: Vpn | lo <= v < hi
      ensures PageCoherent(a', maps, mem', root, v)
    {
      assert PageErased(mem, mem', root, a[s].start, a[s].count, v) && PageCoherent(a, maps, mem, root, v);
      if Walk(mem', root, ROOT_LEVEL, v).Some? {
        var q, e: Child :| Accounts(a, maps, q, e, v, Walk(mem, root, ROOT_LEVEL, v));
        assert MapOk(a, maps, q, e);
        if ST.Below(a, q, s) {
          MappingInside(a, top, depth, max, q, e, s);
        }
        assert Accounts(a', maps, q, e, v, Walk(mem', root, ROOT_LEVEL, v));
      }
    }
    forall q, e: Child
      ensures CommittedFirst(a', mem', root, q, e) && MapOk(a', maps, q, e)
    {
      assert CommittedFirst(a, mem, root, q, e) && MapOk(a, maps, q, e);
      if IsMapping(a', q, e) {
        MappingOutside(a, top, depth, max, q, e, s);
        StaysFirst(a, mem, mem', root, span, a[s].start, a[s].count, q, e);
      }
    }
  }

  /** From an aligned stop, unmapping a slice neither fails nor misses a page. */
  lemma {:induction false} AlignedSlice(a: ST.Arena, maps: Maps, mem: Memory, root: Pfn, span: nat,
                                        lo: Vpn, hi: Vpn, top: Id, depth: map<Id, nat>, max: nat, s: Id)
    requires SpaceOk(a, maps, mem, root, span, lo, hi) && ST.TreeOk(a, top, depth, max) && ST.Attached(a, s) && a[s].count > 0
    requires AlignedStop(mem, root, a[s].start)
    ensures ReachesAll(mem, root, a[s].start, a[s].count)
    ensures StepsFit(mem, root, span, a[s].start, a[s].End(), a[s].End())
  {
    assert Inside(a, lo, hi, s);
    forall v: Vpn | a[s].start <= v < a[s].End()
      ensures Clears(mem, root, a[s].start, a[s].count, v) <==> Walk(mem, root, ROOT_LEVEL, v).Some?
    {
      ClearsTranslated(mem, root, span, a[s].start, a[s].count, v);
    }
    forall v: Vpn | IsStep(mem, root, a[s].start, v) && v < a[s].End() && InSpan(v, span)
      ensures FitsFrom(mem, root, v, a[s].End())
    {
      if Walk(mem, root, ROOT_LEVEL, v).Some? {
        EntryInSlice(a, maps, mem, root, span, lo, hi, top, depth, max, s, v);
        StepsAligned(mem, root, span, a[s].start, v);
        LevelIsStop(mem, root, ROOT_LEVEL, v);
      }
    }
  }

  lemma {:induction false} EntryInSlice(a: ST.Arena, maps: Maps, mem: Memory, root: Pfn, span: nat,
                                        lo: Vpn, hi: Vpn, top: Id, depth: map<Id, nat>, max: nat, s: Id, v: Vpn)
    requires SpaceOk(a, maps, mem, root, span, lo, hi) && ST.TreeOk(a, top, depth, max) && ST.Attached(a, s)
    requires a[s].start <= v < a[s].End() && Walk(mem, root, ROOT_LEVEL, v).Some?
    ensures EntryWithin(v, Walk(mem, root, ROOT_LEVEL, v).value.level, a[s].start, a[s].count)
  {
    assert Inside(a, lo, hi, s) && PageCoherent(a, maps, mem, root, v);
    var q, e: Child :| Accounts(a, maps, q, e, v, Walk(mem, root, ROOT_LEVEL, v));
    assert MapOk(a, maps, q, e);
    if ST.Below(a, q, s) {
      MappingInside(a, top, depth, max, q, e, s);
    } else {
      MappingOutside(a, top, depth, max, q, e, s);
    }
  }

  // ----- Children of no pages -----

  /** A mapping with a translated page starts at `k` in slice `s`. */
  predicate Uncovers(a: ST.Arena, mem: Memory, root: Pfn, s: Id, k: Vpn)
    requires ST.Attached(a, s)
  {
    && k in ST.ChildrenOf(a, s) && ST.ChildrenOf(a, s)[k].Mapping?
    && exists v: Vpn :: k <= v < ST.ChildrenOf(a, s)[k].End() && Walk(mem, root, ROOT_LEVEL, v).Some?
  }

  /** `e` is a mapping other than the one at `k` in `s`, or one of no pages. */
  ghost predicate KeptOrEmpty(a: ST.Arena, maps': Maps, s: Id, k: Vpn, q: Id, e: Child) {
    || (IsMapping(a, q, e) && !(q == s && e.start == k))
    || (e.count == 0 && (e.id in maps' ==> !maps'[e.id].Valid()))
  }

  /** A child of no pages has taken the place of the child at `k` in `s`, if there was one. */
  ghost predicate PlaceTaken(a: ST.Arena, a': ST.Arena, maps: Maps, maps': Maps, s: Id, k: Vpn) {
    && (forall q, e: Child {:trigger IsMapping(a, q, e)} :: IsMapping(a, q, e) && !(q == s && e.start == k) ==> IsMapping(a', q, e))
    && (forall q, e: Child {:trigger IsMapping(a', q, e)} :: IsMapping(a', q, e) ==> KeptOrEmpty(a, maps', s, k, q, e))
    && (forall id :: id in maps ==> id in maps' && maps'[id] == maps[id])
  }

  /** That breaks the agreement of tree and page table if and only if the child was a mapping with a translated page. */
  lemma {:induction false} EmptyChildIff(a: ST.Arena, a': ST.Arena, maps: Maps, maps': Maps, mem: Memory, root: Pfn, span: nat,
                                         lo: Vpn, hi: Vpn, s: Id, k: Vpn)
    requires SpaceOk(a, maps, mem, root, span, lo, hi) && ST.Attached(a, s) && PlaceTaken(a, a', maps, maps', s, k)
    ensures Coherent(a', maps', mem, root, lo, hi) <==> !Uncovers(a, mem, root, s, k)
  {
    MappingsInside(a, lo, hi);
    if Uncovers(a, mem, root, s, k) {
      var d := ST.ChildrenOf(a, s)[k];
      assert ST.RangesOk(a, s);
      var v: Vpn :| k <= v < d.End() && Walk(mem, root, ROOT_LEVEL, v).Some?;
      assert IsMapping(a, s, d) && !PageCoherent(a', maps', mem, root, v) by {
        NoneAccounts(a, a', maps, maps', mem, root, s, d, v);
      }
    } else {
      forall v: Vpn | lo <= v < hi
        ensures PageCoherent(a', maps', mem, root, v)
      {
        StillAccounted(a, a', maps, maps', mem, root, lo, hi, s, k, v);
      }
      forall q, e: Child
        ensures CommittedFirst(a', mem, root, q, e)
      {
        assert CommittedFirst(a, mem, root, q, e);
      }
    }
  }

  lemma {:induction false} EmptyMappingPlaced(a: ST.Arena, maps: Maps, s: Id, c: Child, info: MapInfo)
    requires ST.Attached(a, s) && c.Mapping? && c.count == 0 && c.id !in maps && info.count == 0
    ensures PlaceTaken(a, ST.InsertChild(a, s, c), maps, maps[c.id := info], s, c.start)
  {
  }

  lemma {:induction false} EmptySubslicePlaced(a: ST.Arena, maps: Maps, s: Id, c: Child)
    requires ST.Attached(a, s) && c.Subslice? && c.id !in a
    ensures PlaceTaken(a, ST.NewSlice(a, s, c), maps, maps, s, c.start)
  {
  }

  lemma {:induction false} NoneAccounts(a: ST.Arena, a': ST.Arena, maps: Maps, maps': Maps, mem: Memory, root: Pfn,
                                        s: Id, d: Child, v: Vpn)
    requires TreeNested(a) && IsMapping(a, s, d) && d.Contains(v) && Walk(mem, root, ROOT_LEVEL, v).Some?
    requires MapsOk(a, maps) && PlaceTaken(a, a', maps, maps', s, d.start)
    ensures !PageCoherent(a', maps', mem, root, v)
  {
    forall q, e: Child
      ensures !Accounts(a', maps', q, e, v, Walk(mem, root, ROOT_LEVEL, v))
    {
      if IsMapping(a', q, e) && IsMapping(a, q, e) {
        assert MapOk(a, maps, q, e);
        if e.Contains(v) {
          MappingsDisjoint(a, s, d, q, e, v);
        }
      }
    }
  }

  lemma {:induction false} StillAccounted(a: ST.Arena, a': ST.Arena, maps: Maps, maps': Maps, mem: Memory, root: Pfn,
                                          lo: Vpn, hi: Vpn, s: Id, k: Vpn, v: Vpn)
    requires Coherent(a, maps, mem, root, lo, hi) && MapsOk(a, maps) && lo <= v < hi && ST.Attached(a, s)
    requires PlaceTaken(a, a', maps, maps', s, k) && !Uncovers(a, mem, root, s, k)
    ensures PageCoherent(a', maps', mem, root, v)
  {
    assert PageCoherent(a, maps, mem, root, v);
    if Walk(mem, root, ROOT_LEVEL, v).Some? {
      var q, e: Child :| Accounts(a, maps, q, e, v, Walk(mem, root, ROOT_LEVEL, v));
      assert MapOk(a, maps, q, e);
      assert Accounts(a', maps', q, e, v, Walk(mem, root, ROOT_LEVEL, v));
    }
  }

  // ----- Mapping -----

  /** A vacant range is not translated at all. */
  lemma {:induction false} VacantUntranslated(a: ST.Arena, maps: Maps, mem: Memory, root: Pfn, lo: Vpn, hi: Vpn,
                                              s: Id, start: Vpn, count: nat, v: Vpn)
    requires Coherent(a, maps, mem, root, lo, hi) && TreeNested(a) && ST.Vacant(a, s, start, count)
    requires MapsOk(a, maps) && lo <= v < hi && start <= v < start + count
    ensures Walk(mem, root, ROOT_LEVEL, v) == None
  {
    if Walk(mem, root, ROOT_LEVEL, v).Some? {
      assert PageCoherent(a, maps, mem, root, v);
      var q, d: Child :| Accounts(a, maps, q, d, v, Walk(mem, root, ROOT_LEVEL, v));
      assert MapOk(a, maps, q, d);
      VacantMeetsNoMapping(a, s, start, count, q, d);
    }
  }

  /** Committing a first part of a mapping newly placed in a vacant range keeps the two in agreement. */
  lemma {:induction false} MapCoherent(a: ST.Arena, maps: Maps, mem: Memory, mem': Memory, root: Pfn, span: nat,
                                       lo: Vpn, hi: Vpn, s: Id, c: Child, info: MapInfo, done: nat)
    requires Coherent(a, maps, mem, root, lo, hi) && TreeNested(a) && MapsOk(a, maps)
    requires ST.CanPlace(a, s, c) && c.Mapping? && c.start !in ST.ChildrenOf(a, s) && c.id !in maps
    requires info.Valid() && info.parent == s && info.start == c.start && info.count == c.count
    requires Committed(mem, mem', root, span, c.start, done, info.Frames(), info.attrs)
    requires forall v: Vpn :: lo <= v < hi ==> InSpan(v, span)
    requires forall q, d: Child :: IsMapping(a, q, d) ==> lo <= d.start && d.End() <= hi
    requires lo <= c.start && c.End() <= hi
    ensures Coherent(ST.InsertChild(a, s, c), maps[c.id := info], mem', root, lo, hi)
    ensures MapsOk(ST.InsertChild(a, s, c), maps[c.id := info])
  {
    var a', maps' := ST.InsertChild(a, s, c), maps[c.id := info];
    forall v: Vpn | lo <= v < hi
      ensures PageCoherent(a', maps', mem', root, v)
    {
      MapPage(a, maps, mem, mem', root, span, lo, hi, s, c, info, done, v);
    }
    forall q, d: Child
      ensures CommittedFirst(a', mem', root, q, d) && MapOk(a', maps', q, d)
    {
      InsertedMapping(a, s, c, q, d);
      assert CommittedFirst(a, mem, root, q, d) && MapOk(a, maps, q, d);
      if IsMapping(a, q, d) {
        CommittedElsewhere(a, mem, mem', root, span, s, c, info, done, q, d);
      } else if IsMapping(a', q, d) {
        NewIsFirstPart(a, maps, mem, mem', root, span, lo, hi, s, c, info, done);
      }
    }
  }

  lemma {:induction false} MapPage(a: ST.Arena, maps: Maps, mem: Memory, mem': Memory, root: Pfn, span: nat,
                                   lo: Vpn, hi: Vpn, s: Id, c: Child, info: MapInfo, done: nat, v: Vpn)
    requires Coherent(a, maps, mem, root, lo, hi) && lo <= v < hi && InSpan(v, span)
    requires ST.Attached(a, s) && c.Mapping? && c.start !in ST.ChildrenOf(a, s) && c.id !in maps
    requires info.Valid() && info.start == c.start && info.count == c.count
    requires Committed(mem, mem', root, span, c.start, done, info.Frames(), info.attrs)
    ensures PageCoherent(ST.InsertChild(a, s, c), maps[c.id := info], mem', root, v)
  {
    var a', maps' := ST.InsertChild(a, s, c), maps[c.id := info];
    assert PageCommitted(mem, mem', root, c.start, done, info.Frames(), info.attrs, v) && PageCoherent(a, maps, mem, root, v);
    if c.start <= v < c.start + done {
      assert Accounts(a', maps', s, c, v, Walk(mem', root, ROOT_LEVEL, v));
    } else if Walk(mem', root, ROOT_LEVEL, v).Some? {
      var q, d: Child :| Accounts(a, maps, q, d, v, Walk(mem, root, ROOT_LEVEL, v));
      InsertedMapping(a, s, c, q, d);
      assert Accounts(a', maps', q, d, v, Walk(mem', root, ROOT_LEVEL, v));
    }
  }

  lemma {:induction false} CommittedElsewhere(a: ST.Arena, mem: Memory, mem': Memory, root: Pfn, span: nat,
                                              s: Id, c: Child, info: MapInfo, done: nat, q: Id, d: Child)
    requires TreeNested(a) && ST.CanPlace(a, s, c) && IsMapping(a, q, d) && info.Valid() && info.count == c.count
    requires Committed(mem, mem', root, span, c.start, done, info.Frames(), info.attrs)
    requires forall v: Vpn :: d.Contains(v) ==> InSpan(v, span)
    ensures forall v: Vpn :: d.Contains(v) ==> Walk(mem', root, ROOT_LEVEL, v) == Walk(mem, root, ROOT_LEVEL, v)
  {
    VacantMeetsNoMapping(a, s, c.start, c.count, q, d);
    forall v: Vpn | d.Contains(v)
      ensures Walk(mem', root, ROOT_LEVEL, v) == Walk(mem, root, ROOT_LEVEL, v)
    {
      assert PageCommitted(mem, mem', root, c.start, done, info.Frames(), info.attrs, v);
    }
  }

  lemma {:induction false} NewIsFirstPart(a: ST.Arena, maps: Maps, mem: Memory, mem': Memory, root: Pfn, span: nat,
                                          lo: Vpn, hi: Vpn, s: Id, c: Child, info: MapInfo, done: nat)
    requires Coherent(a, maps, mem, root, lo, hi) && TreeNested(a) && MapsOk(a, maps) && ST.CanPlace(a, s, c)
    requires info.Valid() && info.count == c.count && lo <= c.start && c.End() <= hi
    requires Committed(mem, mem', root, span, c.start, done, info.Frames(), info.attrs)
    requires forall v: Vpn :: lo <= v < hi ==> InSpan(v, span)
    ensures forall v: Vpn :: c.start <= v < c.End() ==> (Walk(mem', root, ROOT_LEVEL, v).Some? <==> v < c.start + done)
  {
    forall v: Vpn | c.start <= v < c.End()
      ensures Walk(mem', root, ROOT_LEVEL, v).Some? <==> v < c.start + done
    {
      assert PageCommitted(mem, mem', root, c.start, done, info.Frames(), info.attrs, v);
      VacantUntranslated(a, maps, mem, root, lo, hi, s, c.start, c.count, v);
    }
  }

  /** What placing a mapping in a vacant range and committing a first part of it keeps. */
  lemma {:induction false} PlacedAndCommitted(a: ST.Arena, maps: Maps, mem: Memory, mem': Memory, root: Pfn, span: nat,
                                              lo: Vpn, hi: Vpn, s: Id, c: Child, info: MapInfo, done: nat)
    requires SpaceOk(a, maps, mem, root, span, lo, hi)
    requires ST.CanPlace(a, s, c) && c.Mapping? && c.start !in ST.ChildrenOf(a, s) && c.id !in maps
    requires info.Valid() && info.parent == s && info.start == c.start && info.count == c.count
    requires Committed(mem, mem', root, span, c.start, done, info.Frames(), info.attrs)
    requires TreeNested(ST.InsertChild(a, s, c))
    ensures SpaceOk(ST.InsertChild(a, s, c), maps[c.id := info], mem', root, span, lo, hi)
  {
    assert Inside(a, lo, hi, s);
    MappingsInside(a, lo, hi);
    MapCoherent(a, maps, mem, mem', root, span, lo, hi, s, c, info, done);
    InsideKept(a, ST.InsertChild(a, s, c), lo, hi);
  }

  /** Why committing to a vacant range ended as it did. */
  ghost predicate CommitReason(mem: Memory, root: Pfn, start: Vpn, frames: Object, status: CommitStatus, pool: set<Pfn>) {
    match status
    case Done => forall k: nat :: k < |frames| ==> !LeftoverTable(mem, root, start, frames, k)
    case ProvideFailed => exists k: nat :: k < |frames| && frames[k] == None
    case MapFailed(s) =>
      && !s.Ok?
      && (s.ResourceOverlap? ==> exists k: nat :: k < |frames| && LeftoverTable(mem, root, start, frames, k))
      && (s.OutOfMemory? ==> pool == {})
  }

  lemma {:induction false} VacantReason(a: ST.Arena, maps: Maps, mem: Memory, root: Pfn, span: nat, lo: Vpn, hi: Vpn,
                                        s: Id, start: Vpn, reserved: nat, frames: Object)
    requires SpaceOk(a, maps, mem, root, span, lo, hi) && ST.Vacant(a, s, start, reserved) && |frames| <= reserved
    ensures forall k: nat {:trigger Refused(mem, root, start, frames, k)} {:trigger LeftoverTable(mem, root, start, frames, k)} ::
              k < |frames| ==> (Refused(mem, root, start, frames, k) <==> LeftoverTable(mem, root, start, frames, k))
  {
    assert Inside(a, lo, hi, s);
    forall k: nat | k < |frames|
      ensures Refused(mem, root, start, frames, k) <==> LeftoverTable(mem, root, start, frames, k)
    {
      VacantUntranslated(a, maps, mem, root, lo, hi, s, start, reserved, start + k);
      RefusedUntranslated(mem, root, start, frames, k);
    }
  }

  lemma {:induction false} CommittedOutside(mem: Memory, mem': Memory, root: Pfn, span: nat, start: Vpn, done: nat,
                                            frames: Object, attrs: Attrs)
    requires Committed(mem, mem', root, span, start, done, frames, attrs)
    ensures forall v: Vpn :: InSpan(v, span) && !(start <= v < start + |frames|) ==>
              Walk(mem', root, ROOT_LEVEL, v) == Walk(mem, root, ROOT_LEVEL, v)
  {
    forall v: Vpn | InSpan(v, span) && !(start <= v < start + |frames|)
      ensures Walk(mem', root, ROOT_LEVEL, v) == Walk(mem, root, ROOT_LEVEL, v)
    {
      assert PageCommitted(mem, mem', root, start, done, frames, attrs, v);
    }
  }

  lemma {:induction false} AllCommitted(mem: Memory, mem': Memory, root: Pfn, span: nat, start: Vpn, frames: Object, attrs: Attrs)
    requires Committed(mem, mem', root, span, start, |frames|, frames, attrs)
    requires forall v: Vpn :: start <= v < start + |frames| ==> InSpan(v, span)
    ensures forall v: Vpn :: start <= v < start + |frames| ==>
              Walk(mem', root, ROOT_LEVEL, v).Some? && frames[v - start] == Some(Walk(mem', root, ROOT_LEVEL, v).value.frame)
  {
    forall v: Vpn | start <= v < start + |frames|
      ensures IsCommitted(Walk(mem', root, ROOT_LEVEL, v), v, start, frames, attrs)
    {
      assert PageCommitted(mem, mem', root, start, |frames|, frames, attrs, v);
    }
  }

  /** What mapping an object's pages to a vacant range comes to: tables are added for the range only, nothing outside it changes,
      and if all goes well every page is translated to its frame, by a large page wherever one can be used. */
  ghost predicate MapEffect(m0: Memory, p0: map<Pfn, Place>, m1: Memory, p1: map<Pfn, Place>, root: Pfn, span: nat,
                            start: Vpn, frames: Object, status: CommitStatus, pool: set<Pfn>)
  {
    && TablesFor(p0, p1, start, start + |frames|)
    && CommitReason(m0, root, start, frames, status, pool)
    && (status.Done? ==> AllSizedRight(m1, root, start, frames, |frames|))
    && (forall v: Vpn :: InSpan(v, span) && !(start <= v < start + |frames|) ==>
          Walk(m1, root, ROOT_LEVEL, v) == Walk(m0, root, ROOT_LEVEL, v))
    && (status.Done? ==> forall v: Vpn :: start <= v < start + |frames| ==>
          Walk(m1, root, ROOT_LEVEL, v).Some? && frames[v - start] == Some(Walk(m1, root, ROOT_LEVEL, v).value.frame))
  }

  lemma {:induction false} CommitEffect(a: ST.Arena, maps: Maps, m0: Memory, p0: map<Pfn, Place>, m1: Memory, p1: map<Pfn, Place>,
                                        root: Pfn, span: nat, lo: Vpn, hi: Vpn, s: Id, start: Vpn, reserved: nat,
                                        frames: Object, attrs: Attrs, done: nat, status: CommitStatus, pool: set<Pfn>)
    requires SpaceOk(a, maps, m0, root, span, lo, hi) && ST.Vacant(a, s, start, reserved) && |frames| <= reserved
    requires CommittedTo(m0, p0, m1, p1, root, span, start, done, |frames|, frames, attrs)
    requires CommitEnds(m0, root, start, frames, done, status, pool)
    ensures MapEffect(m0, p0, m1, p1, root, span, start, frames, status, pool)
  {
    assert Unfold(0);
    VacantReason(a, maps, m0, root, span, lo, hi, s, start, reserved, frames);
    CommittedOutside(m0, m1, root, span, start, done, frames, attrs);
    assert Inside(a, lo, hi, s);
    if status.Done? {
      AllCommitted(m0, m1, root, span, start, frames, attrs);
    }
  }

  /** Committing a newly placed mapping: its effect, and that a mapping of some pages keeps everything in agreement. */
  lemma {:induction false} MappingCommitted(a: ST.Arena, a': ST.Arena, maps: Maps, m0: Memory, p0: map<Pfn, Place>, m1: Memory,
                                            p1: map<Pfn, Place>, root: Pfn, span: nat, lo: Vpn, hi: Vpn, c: Child, info: MapInfo,
                                            done: nat, status: CommitStatus, pool: set<Pfn>)
    requires SpaceOk(a, maps, m0, root, span, lo, hi) && c.id !in maps && c == Mapping(c.id, info.start, info.count)
    requires info.offset + info.count <= |info.pages| && ST.Vacant(a, info.parent, info.start, |info.pages|)
    requires a' == ST.InsertChild(a, info.parent, c) && (info.count > 0 ==> TreeNested(a'))
    requires var frames := info.pages[info.offset..info.offset + info.count];
             && CommittedTo(m0, p0, m1, p1, root, span, info.start, done, info.count, frames, info.attrs)
             && CommitEnds(m0, root, info.start, frames, done, status, pool)
    ensures MapEffect(m0, p0, m1, p1, root, span, info.start, info.pages[info.offset..info.offset + info.count], status, pool)
    ensures info.count > 0 ==> SpaceOk(a', maps[c.id := info], m1, root, span, lo, hi)
  {
    var frames := info.pages[info.offset..info.offset + info.count];
    assert Unfold(0);
    CommitEffect(a, maps, m0, p0, m1, p1, root, span, lo, hi, info.parent, info.start, |info.pages|, frames, info.attrs,
                 done, status, pool);
    if info.count > 0 {
      assert ST.CanPlace(a, info.parent, c) && ST.RangesOk(a, info.parent);
      if c.start in ST.ChildrenOf(a, info.parent) {
        ST.OnlyEmptyRangesCollide(a, info.parent, c.start, |info.pages|);
      }
      PlacedAndCommitted(a, maps, m0, m1, root, span, lo, hi, info.parent, c, info, done);
    }
  }

  lemma {:induction false} PopUndoesInsert(a: ST.Arena, s: Id, c: Child, reserved: nat)
    requires TreeNested(a) && ST.Vacant(a, s, c.start, reserved) && reserved > 0
    ensures ST.PopChild(ST.InsertChild(a, s, c), s, c.start) == a
  {
    assert ST.RangesOk(a, s);
    if c.start in ST.ChildrenOf(a, s) {
      ST.OnlyEmptyRangesCollide(a, s, c.start, reserved);
    }
    assert ST.ChildrenOf(a, s)[c.start := c] - {c.start} == ST.ChildrenOf(a, s);
  }

  lemma {:induction false} TranslationsUndone(a: ST.Arena, maps: Maps, m0: Memory, m1: Memory, m2: Memory, root: Pfn, span: nat,
                                              lo: Vpn, hi: Vpn, s: Id, start: Vpn, count: nat, reserved: nat)
    requires SpaceOk(a, maps, m0, root, span, lo, hi)
    requires ST.Vacant(a, s, start, reserved) && count <= reserved && Cleared(m1, m2, root, span, start, count)
    requires forall v: Vpn :: InSpan(v, span) && !(start <= v < start + count) ==>
               Walk(m1, root, ROOT_LEVEL, v) == Walk(m0, root, ROOT_LEVEL, v)
    ensures forall v: Vpn :: InSpan(v, span) ==> Walk(m2, root, ROOT_LEVEL, v) == Walk(m0, root, ROOT_LEVEL, v)
  {
    assert Inside(a, lo, hi, s);
    forall v: Vpn | InSpan(v, span)
      ensures Walk(m2, root, ROOT_LEVEL, v) == Walk(m0, root, ROOT_LEVEL, v)
    {
      assert PageCleared(m1, m2, root, start, count, v);
      if start <= v < start + count {
        VacantUntranslated(a, maps, m0, root, lo, hi, s, start, reserved, v);
      }
    }
  }

  lemma {:induction false} SubsliceCoherent(a: ST.Arena, maps: Maps, mem: Memory, root: Pfn, lo: Vpn, hi: Vpn, s: Id, c: Child)
    requires Coherent(a, maps, mem, root, lo, hi) && MapsOk(a, maps) && ST.Attached(a, s)
    requires forall p, d: Child :: IsMapping(ST.NewSlice(a, s, c), p, d) <==> IsMapping(a, p, d)
    ensures Coherent(ST.NewSlice(a, s, c), maps, mem, root, lo, hi) && MapsOk(ST.NewSlice(a, s, c), maps)
  {
    var a' := ST.NewSlice(a, s, c);
    forall v: Vpn | lo <= v < hi
      ensures PageCoherent(a', maps, mem, root, v)
    {
      assert PageCoherent(a, maps, mem, root, v);
      if Walk(mem, root, ROOT_LEVEL, v).Some? {
        var q, d: Child :| Accounts(a, maps, q, d, v, Walk(mem, root, ROOT_LEVEL, v));
        assert Accounts(a', maps, q, d, v, Walk(mem, root, ROOT_LEVEL, v));
      }
    }
    forall q, d: Child
      ensures CommittedFirst(a', mem, root, q, d) && MapOk(a', maps, q, d)
    {
      assert CommittedFirst(a, mem, root, q, d) && MapOk(a, maps, q, d);
    }
  }
}
