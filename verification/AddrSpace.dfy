/** An address space: the slice tree, the mappings in it, and the page table that they are committed to. */
module AddrSpace {
  import opened MemTypes
  import opened PageTree
  import opened PageMap
  import opened PageTable
  import opened Commit
  import opened Unmapping
  import opened SliceChildren
  import opened SliceNesting
  import opened Coherence
  import opened SpaceSteps
  import ST = SliceTree

  const LOW_ASPACE_BASE: Vpn := 0x200
  const LOW_ASPACE_END: Vpn := 0x8_0000_0000

  /** All of a fresh low address space is in the span of its root table. */
  lemma {:induction false} LowInSpan(v: Vpn)
    requires v < LOW_ASPACE_END
    ensures InSpan(v, 0)
  {
    LevelArithmetic(v, ROOT_LEVEL + 1);
  }

  class AddrSpace {
    const tree: ST.SliceTree
    const pt: PageTable
    const tlb: Tlb
    const lo: Vpn
    const hi: Vpn
    var maps: Maps

    ghost predicate Valid()
      reads this, tree, pt
    {
      && tree.Valid() && pt.Valid() && hi <= ST.USIZE_MAX
      && SpaceOk(tree.slices, maps, pt.mem, pt.root, pt.span, lo, hi)
    }

    ghost function Bounds(): Extent {
      Extent(tree.root, pt.root, pt.span, lo, hi, pt.frames)
    }

    ghost function Now(): Snapshot
      reads this, tree, pt
    {
      Snapshot(tree.slices, maps, pt.mem, pt.places, pt.pool)
    }

    lemma {:induction false} ValidIsGood()
      requires tree.Valid() && pt.Valid() && hi <= ST.USIZE_MAX
      ensures Valid() <==> Good(Bounds(), Now())
    {
      assert Unfold(0);
      assert ST.TreeOk(tree.slices, tree.root, tree.depth, tree.maxDepth);
    }

    /** A fresh low address space. */
    constructor (rootSlice: Id, rootTable: Pfn, pool: set<Pfn>)
      requires rootTable !in pool
      ensures Valid() && fresh(tree) && fresh(pt) && fresh(tlb) && tlb.log == []
      ensures lo == LOW_ASPACE_BASE && hi == LOW_ASPACE_END && maps == map[]
      ensures tree.slices == map[rootSlice := ST.Slice(LOW_ASPACE_BASE, LOW_ASPACE_END - LOW_ASPACE_BASE, Some(ST.Inner(None, map[])))]
      ensures pt.root == rootTable && pt.span == 0
      ensures pt.frames == {rootTable} + pool && pt.places == map[rootTable := Place(ROOT_LEVEL, 0)]
    {
      var t := new ST.SliceTree(rootSlice, LOW_ASPACE_BASE, LOW_ASPACE_END - LOW_ASPACE_BASE);
      var p := new PageTable(rootTable, 0, pool);
      var b := new Tlb();
      tree, pt, tlb, lo, hi, maps := t, p, b, LOW_ASPACE_BASE, LOW_ASPACE_END, map[];
      new;
      forall v: Vpn | lo <= v < hi
        ensures InSpan(v, 0) && PageCoherent(tree.slices, maps, pt.mem, pt.root, v)
      {
        LowInSpan(v);
        assert pt.Lookup(v) == None;
      }
    }

    /** Maps part of an object and commits all of it.  A failure to commit leaves the mapping in place. */
    method MapCommitted(s: Id, id: Id, base: ST.MapBase, count: nat, offset: nat, pages: Object, attrs: Attrs)
      returns (r: MapResult)
      requires Valid() && s in tree.slices && id !in maps
      modifies this`maps, tree`slices, pt`mem, pt`pool, pt`places
      ensures MapDid(Bounds(), old(Now()), MapOp(s, id, base, count, offset, pages, attrs), r, Now())
      ensures Valid() <==> Good(Bounds(), Now())
    {
      ValidIsGood();
      if offset > |pages| || count > |pages| - offset {
        return NotPlaced(ST.InvalidArgument);
      }
      assert Inside(tree.slices, lo, hi, s);
      assert ST.Attached(tree.slices, s) ==> ST.RangesOk(tree.slices, s);
      var place := tree.FindPlace(s, base, |pages|);
      if place.Err? {
        return NotPlaced(place.error);
      }
      ST.PlacedIsVacant(tree.slices, s, base, |pages|, place);
      r := InsertAndCommit(MapOp(s, id, base, count, offset, pages, attrs), place.value);
    }

    /** Puts a mapping in a vacant place and commits it. */
    method InsertAndCommit(op: Op, start: Vpn) returns (r: MapResult)
      requires Valid() && op.MapOp? && op.id !in maps && op.offset + op.count <= |op.pages|
      requires ST.Vacant(tree.slices, op.slice, start, |op.pages|)
      modifies this`maps, tree`slices, pt`mem, pt`pool, pt`places
      ensures !r.NotPlaced? && r.start == start && PlacedAndMapped(Bounds(), old(Now()), op, r, Now())
      ensures Valid() <==> Good(Bounds(), Now())
    {
      var c := Mapping(op.id, start, op.count);
      var info := MapInfo(op.slice, start, op.count, op.offset, op.pages, op.attrs);
      ghost var s0 := Now();
      assert Inside(tree.slices, lo, hi, op.slice);
      tree.InsertMapping(op.slice, c);
      maps := maps[op.id := info];
      var status;
      ghost var done;
      status, done := DoCommit(pt, start, op.pages[op.offset..op.offset + op.count], op.attrs);
      r := if status.Done? then Mapped(start) else NotCommitted(start, status);
      MappingStep(Bounds(), s0, op, r, Now(), done, tree.depth, tree.maxDepth);
      if op.count > 0 {
        ValidIsGood();
      }
    }

    /** Unmaps through any handle: takes out whatever child starts at the handle's first page, and unmaps the handle's range. */
    method Unmap(id: Id) returns (r: UnmapResult)
      requires Valid() && id in maps
      modifies tree`slices, pt`mem, pt`pool, pt`places, tlb`log
      ensures UnmapDid(Bounds(), old(Now()), maps[id], r, Now())
      ensures r.Unmapped? ==> FlushedBetween(old(tlb.log), tlb.log, old(pt.mem), old(pt.places), old(pt.pool),
                                             pt.mem, pt.root, pt.span, maps[id].start, maps[id].count)
      ensures !r.Unmapped? ==> tlb.log == old(tlb.log)
      ensures !r.WalkFailed? ==> (Valid() <==> Good(Bounds(), Now()))
      ensures old(IsOwnHandle(Now(), id)) ==>
                && r.Unmapped? && Valid()
                && Cleared(old(pt.mem), pt.mem, pt.root, pt.span, maps[id].start, maps[id].count)
    {
      ValidIsGood();
      var info := maps[id];
      var p := info.parent;
      if !ST.Attached(tree.slices, p) {
        return ParentDetached;
      }
      if info.start !in ST.ChildrenOf(tree.slices, p) {
        return NoSuchChild;
      }
      ghost var s0 := Now();
      assert HandleOk(info, lo, hi) && ST.RangesOk(tree.slices, p);
      tree.RemoveChild(p, info.start);
      var status := DoUnmap(pt, tlb, info.start, info.count);
      if IsOwnHandle(s0, id) {
        OwnUnmapped(s0.slices, maps, s0.mem, pt.mem, pt.root, pt.span, lo, hi, p, Mapping(id, info.start, info.count));
      }
      if !status.Ok? {
        return WalkFailed;
      }
      UnmapStep(Bounds(), s0, info, Now(), tree.depth, tree.maxDepth);
      if ST.ChildrenOf(s0.slices, p)[info.start].Mapping? {
        ValidIsGood();
      }
      return Unmapped;
    }

    /** Unmaps a slice with everything in it. */
    method UnmapSlice(s: Id) returns (r: UnmapSliceResult)
      requires Valid() && s in tree.slices
      modifies tree, pt`mem, pt`pool, pt`places, tlb`log
      ensures UnmapSliceDid(Bounds(), old(Now()), s, r, Now())
      ensures r.SliceUnmapped? ==> FlushedBetween(old(tlb.log), tlb.log, old(pt.mem), old(pt.places), old(pt.pool),
                                                  pt.mem, pt.root, pt.span, old(tree.slices)[s].start, old(tree.slices)[s].count)
      ensures !r.SliceUnmapped? ==> tlb.log == old(tlb.log)
      ensures !r.SliceWalkFailed? ==> (Valid() <==> Good(Bounds(), Now()))
    {
      ValidIsGood();
      ghost var s0, depth, max := Now(), tree.depth, tree.maxDepth;
      var start, count := tree.slices[s].start, tree.slices[s].count;
      assert Inside(tree.slices, lo, hi, s);
      var u := tree.UnmapSlice(s);
      if u.Err? {
        return SliceRefused(u.error);
      }
      SliceHasPages(s0.slices, tree.root, depth, max, s);
      DetachedMappings(s0.slices, tree.slices, tree.root, depth, max, s, ST.ParentOf(s0.slices, s).value);
      var status := DoUnmap(pt, tlb, start, count);
      if !status.Ok? {
        SliceNotAligned(Bounds(), s0, s, depth, max);
        return SliceWalkFailed;
      }
      UnmapSliceStep(Bounds(), s0, s, Now(), depth, max, tree.depth, tree.maxDepth);
      ValidIsGood();
      return SliceUnmapped;
    }

    method CreateSubslice(s: Id, id: Id, base: ST.MapBase, count: nat) returns (r: ST.Result<Vpn>)
      requires Valid() && s in tree.slices && id !in tree.slices
      modifies tree
      ensures SubsliceDid(Bounds(), old(Now()), SubsliceOp(s, id, base, count), r, Now())
      ensures Valid() <==> Good(Bounds(), Now())
    {
      ValidIsGood();
      ghost var a := tree.slices;
      assert Inside(a, lo, hi, s);
      r := tree.CreateSubslice(s, id, base, count);
      if r.Ok? {
        ghost var c := Subslice(id, r.value, count);
        if count > 0 {
          assert ST.CanPlace(a, s, c);
          InsertedSubslice(a, s, c);
          TreeIsNested(tree.slices, tree.root, tree.depth, tree.maxDepth);
          SubsliceInside(a, lo, hi, s, c);
          SubsliceCoherent(a, maps, pt.mem, pt.root, lo, hi, s, c);
          ValidIsGood();
        } else {
          EmptySubslicePlaced(a, maps, s, c);
          EmptyStep(Bounds(), old(Now()), s, r.value, Now());
        }
      }
    }

    /** Unmapping undoes mapping: slices and translations are as before, also if committing has failed half way. */
    method MapAndUnmap(s: Id, id: Id, base: ST.MapBase, count: nat, offset: nat, pages: Object, attrs: Attrs)
      requires Valid() && s in tree.slices && id !in maps && count > 0
      modifies this`maps, tree`slices, pt`mem, pt`pool, pt`places, tlb`log
      ensures Valid() && tree.slices == old(tree.slices)
      ensures forall v: Vpn :: InSpan(v, pt.span) ==> pt.Lookup(v) == old(pt.Lookup(v))
    {
      ghost var a, maps0, m0 := tree.slices, maps, pt.mem;
      var r := MapCommitted(s, id, base, count, offset, pages, attrs);
      if !r.NotPlaced? {
        ghost var m1 := pt.mem;
        assert IsOwnHandle(Now(), id);
        var u := Unmap(id);
        PopUndoesInsert(a, s, Mapping(id, r.start, count), |pages|);
        TranslationsUndone(a, maps0, m0, m1, pt.mem, pt.root, pt.span, lo, hi, s, r.start, count, |pages|);
      }
    }

    /** Carries out one operation. */
    method Do(op: Op) returns (res: OpResult, stop: Stop)
      requires Valid()
      modifies this`maps, tree, pt`mem, pt`pool, pt`places, tlb`log
      ensures Did(Bounds(), old(Now()), op, res, Now())
      ensures stop.GoesOn? ==> Valid()
      ensures !stop.GoesOn? ==> EndsRun(Bounds(), old(Now()), op, res, stop)
      ensures stop.Disagreed? ==> !Agrees(Bounds(), Now())
      ensures stop.EmptyChild? ==> Agrees(Bounds(), Now())
    {
      res, stop := PassedOver, GoesOn;
      var a, mem := tree.slices, pt.mem;
      match op {
        case MapOp(s, id, base, count, offset, pages, attrs) =>
          if s in tree.slices && id !in maps {
            var m := MapCommitted(s, id, base, count, offset, pages, attrs);
            res := MapDone(m);
            if m == NotPlaced(ST.Overflow) {
              stop := Panicked;
            } else if !m.NotPlaced? && count == 0 {
              stop := if Displaces(a, mem, pt.root, s, m.start) then Disagreed else EmptyChild;
            }
          }
        case UnmapOp(id) =>
          if id in maps {
            var info := maps[id];
            var keeps := ST.Attached(a, info.parent) && info.start in ST.ChildrenOf(a, info.parent) &&
                         KeepsAgreement(a, mem, pt.root, info.parent, info.start, info.count);
            var u := Unmap(id);
            res := UnmapDone(u);
            if u.NoSuchChild? || u.WalkFailed? {
              stop := Panicked;
            } else if u.Unmapped? && !keeps {
              stop := Disagreed;
            }
          }
        case SubsliceOp(s, id, base, count) =>
          if s in tree.slices && id !in tree.slices {
            var m := CreateSubslice(s, id, base, count);
            res := SubsliceDone(m);
            if m == ST.Err(ST.Overflow) {
              stop := Panicked;
            } else if m.Ok? && count == 0 {
              stop := if Displaces(a, mem, pt.root, s, m.value) then Disagreed else EmptyChild;
            }
          }
        case UnmapSliceOp(s) =>
          if s in tree.slices {
            var keeps := ReachesAll(mem, pt.root, a[s].start, a[s].count);
            var u := UnmapSlice(s);
            res := UnmapSliceDone(u);
            if u.SliceWalkFailed? {
              stop := Panicked;
            } else if u.SliceUnmapped? && !keeps {
              stop := Disagreed;
            }
          }
      }
    }

    /** Carries out operations one after the other, until one of them ends the run.  `states` are the states between operations:
        tree and page table agree in all of them. */
    method Run(ops: seq<Op>) returns (results: seq<OpResult>, stop: Stop, ghost states: seq<Snapshot>)
      requires Valid()
      modifies this`maps, tree, pt`mem, pt`pool, pt`places, tlb`log
      ensures RunDid(Bounds(), old(Now()), ops, results, stop, states, Now())
      ensures stop.GoesOn? ==> Valid()
    {
      results, stop, states := [], GoesOn, [Now()];
      ValidIsGood();
      while |results| < |ops|
        invariant Valid() && stop.GoesOn? && IsHistory(Bounds(), states, ops, results)
        invariant states[0] == old(Now()) && states[|states| - 1] == Now()
        decreases |ops| - |results|
      {
        var res;
        ghost var before := results;
        res, stop := Do(ops[|results|]);
        results := results + [res];
        if !stop.GoesOn? {
          assert results[..|results| - 1] == before;
          return;
        }
        ValidIsGood();
        RunExtends(Bounds(), states, ops, before, res, Now());
        states := states + [Now()];
      }
    }
  }
}
