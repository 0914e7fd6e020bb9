/** The steps of an address space: the state between operations, what each operation does to it, and runs of operations. */
module SpaceSteps {
  import opened MemTypes
  import opened PageTree
  import opened PageUpdate
  import opened PageCull
  import opened Commit
  import opened Unmapping
  import opened SliceChildren
  import opened SliceNesting
  import opened Coherence
  import ST = SliceTree

  /** What never changes: the root slice, the root table and the pages it spans, the pages of the address space, and the frames
      that tables can be made of. */
  datatype Extent = Extent(top: Id, root: Pfn, span: nat, lo: Vpn, hi: Vpn, frames: set<Pfn>)

  datatype Snapshot = Snapshot(slices: ST.Arena, maps: Maps, mem: Memory, places: map<Pfn, Place>, pool: set<Pfn>)

  ghost predicate IsTree(a: ST.Arena, top: Id) {
    exists depth: map<Id, nat>, max: nat :: ST.TreeOk(a, top, depth, max)
  }

  /** The slices form a tree, the tables do, no frame is lost, and tree, handles and page table agree. */
  ghost predicate Good(x: Extent, s: Snapshot) {
    forall n: nat {:trigger Unfold(n)} :: Unfold(n) ==>
      && IsTree(s.slices, x.top) && TablesOk(s.mem, x.root, s.places, x.span, s.pool, x.frames)
      && SpaceOk(s.slices, s.maps, s.mem, x.root, x.span, x.lo, x.hi)
  }

  /** Slices are linked to each other as they should be, and translated pages are those of attached mappings.  This does not
      rule out children of no pages. */
  ghost predicate Agrees(x: Extent, s: Snapshot) {
    ST.Linked(s.slices, x.top) && Coherent(s.slices, s.maps, s.mem, x.root, x.lo, x.hi)
  }

  // ----- Operations and their results -----

  datatype MapResult = Mapped(start: Vpn) | NotPlaced(error: ST.Error) | NotCommitted(start: Vpn, status: CommitStatus)

  function StatusOf(r: MapResult): CommitStatus {
    if r.NotCommitted? then r.status else Done
  }

  /** `NoSuchChild` and `WalkFailed` are panics. */
  datatype UnmapResult = Unmapped | ParentDetached | NoSuchChild | WalkFailed

  /** `SliceWalkFailed` is a panic. */
  datatype UnmapSliceResult = SliceUnmapped | SliceRefused(error: ST.Error) | SliceWalkFailed

  datatype Op =
    | MapOp(slice: Id, id: Id, base: ST.MapBase, count: nat, offset: nat, pages: Object, attrs: Attrs)
    | UnmapOp(id: Id)
    | SubsliceOp(slice: Id, id: Id, base: ST.MapBase, count: nat)
    | UnmapSliceOp(slice: Id)

  /** Operations that name slices or handles that do not exist, or identifiers that do, are passed over. */
  datatype OpResult =
    | MapDone(mapped: MapResult)
    | UnmapDone(unmapped: UnmapResult)
    | SubsliceDone(created: ST.Result<Vpn>)
    | UnmapSliceDone(gone: UnmapSliceResult)
    | PassedOver

  // ----- What each operation does -----

  /** A child of no pages at `k` in `s` would take the place of a subslice, or of a mapping with a translated page. */
  predicate Displaces(a: ST.Arena, mem: Memory, root: Pfn, s: Id, k: Vpn)
    requires ST.Attached(a, s)
  {
    !ST.NoSubsliceAt(a, s, k) || Uncovers(a, mem, root, s, k)
  }

  ghost predicate MapDid(x: Extent, s0: Snapshot, op: Op, r: MapResult, s1: Snapshot)
    requires op.MapOp? && op.slice in s0.slices
  {
    && (op.offset + op.count > |op.pages| ==> r == NotPlaced(ST.InvalidArgument))
    && (op.offset + op.count <= |op.pages| ==>
          ST.PlacedRight(s0.slices, op.slice, op.base, |op.pages|, if r.NotPlaced? then ST.Err(r.error) else ST.Ok(r.start)))
    && (r.NotPlaced? ==> s1 == s0)
    && (!r.NotPlaced? ==> op.offset + op.count <= |op.pages| && PlacedAndMapped(x, s0, op, r, s1))
  }

  /** The first `done` pages of the mapping are committed, and why not more. */
  ghost predicate CommittedPart(x: Extent, s0: Snapshot, op: Op, r: MapResult, s1: Snapshot, done: nat)
    requires op.MapOp? && !r.NotPlaced? && op.offset + op.count <= |op.pages|
  {
    var frames := op.pages[op.offset..op.offset + op.count];
    && CommittedTo(s0.mem, s0.places, s1.mem, s1.places, x.root, x.span, r.start, done, op.count, frames, op.attrs)
    && CommitEnds(s0.mem, x.root, r.start, frames, done, StatusOf(r), s1.pool)
  }

  /** The mapping is in a place that is vacant for the object's full size, and what was committed of it. */
  ghost predicate PlacedAndMapped(x: Extent, s0: Snapshot, op: Op, r: MapResult, s1: Snapshot)
    requires op.MapOp? && !r.NotPlaced? && op.offset + op.count <= |op.pages|
  {
    && ST.Vacant(s0.slices, op.slice, r.start, |op.pages|)
    && s1.slices == ST.InsertChild(s0.slices, op.slice, Mapping(op.id, r.start, op.count))
    && s1.maps == s0.maps[op.id := MapInfo(op.slice, r.start, op.count, op.offset, op.pages, op.attrs)]
    && (r.Mapped? <==> StatusOf(r).Done?)
    && MapEffect(s0.mem, s0.places, s1.mem, s1.places, x.root, x.span,
                 r.start, op.pages[op.offset..op.offset + op.count], StatusOf(r), s1.pool)
    && (exists done: nat :: CommittedPart(x, s0, op, r, s1, done))
    && (Good(x, s1) <==> op.count > 0)
    && (Agrees(x, s1) <==> op.count > 0 || !Displaces(s0.slices, s0.mem, x.root, op.slice, r.start))
  }

  ghost predicate SubsliceDid(x: Extent, s0: Snapshot, op: Op, r: ST.Result<Vpn>, s1: Snapshot)
    requires op.SubsliceOp? && op.slice in s0.slices
  {
    && ST.PlacedRight(s0.slices, op.slice, op.base, op.count, r)
    && (r.Err? ==> s1 == s0)
    && (r.Ok? ==>
          && ST.Vacant(s0.slices, op.slice, r.value, op.count)
          && s1 == s0.(slices := ST.NewSlice(s0.slices, op.slice, Subslice(op.id, r.value, op.count)))
          && (Good(x, s1) <==> op.count > 0)
          && (Agrees(x, s1) <==> op.count > 0 || !Displaces(s0.slices, s0.mem, x.root, op.slice, r.value)))
  }

  /** What an unmapping through handle `info` comes to. */
  ghost function UnmapOutcome(x: Extent, s: Snapshot, info: MapInfo): UnmapResult {
    if !ST.Attached(s.slices, info.parent) then ParentDetached
    else if info.start !in ST.ChildrenOf(s.slices, info.parent) then NoSuchChild
    else if !StepsFit(s.mem, x.root, x.span, info.start, info.start + info.count, info.start + info.count) then WalkFailed
    else Unmapped
  }

  ghost predicate UnmapDid(x: Extent, s0: Snapshot, info: MapInfo, r: UnmapResult, s1: Snapshot) {
    && r == UnmapOutcome(x, s0, info)
    && (r.ParentDetached? || r.NoSuchChild? ==> s1 == s0)
    && (r.Unmapped? ==>
          && s1.slices == ST.PopChild(s0.slices, info.parent, info.start) && s1.maps == s0.maps
          && Erased(s0.mem, s1.mem, x.root, x.span, info.start, info.count)
          && TablesCulled(s0.mem, s0.places, s1.mem, s1.places, x.root, info.start, info.count)
          && (Good(x, s1) <==> KeepsAgreement(s0.slices, s0.mem, x.root, info.parent, info.start, info.count))
          && (Agrees(x, s1) <==> KeepsAgreement(s0.slices, s0.mem, x.root, info.parent, info.start, info.count)))
  }

  /** The walk over the pages of slice `t` meets no entry that starts before it or ends after the slice. */
  ghost predicate SliceFits(x: Extent, s: Snapshot, t: Id)
    requires t in s.slices
  {
    StepsFit(s.mem, x.root, x.span, s.slices[t].start, s.slices[t].End(), s.slices[t].End())
  }

  ghost function UnmapSliceOutcome(x: Extent, s: Snapshot, t: Id): UnmapSliceResult
    requires t in s.slices
  {
    if !ST.Attached(s.slices, t) then SliceRefused(ST.InvalidState)
    else if ST.ParentOf(s.slices, t) == None then SliceRefused(ST.InvalidArgument)
    else if !SliceFits(x, s, t) then SliceWalkFailed
    else SliceUnmapped
  }

  ghost predicate UnmapSliceDid(x: Extent, s0: Snapshot, t: Id, r: UnmapSliceResult, s1: Snapshot)
    requires t in s0.slices
  {
    && r == UnmapSliceOutcome(x, s0, t)
    && (r.SliceRefused? ==> s1 == s0)
    && (r.SliceUnmapped? ==>
          && SliceGone(s0.slices, s1.slices, t) && s1.maps == s0.maps
          && Erased(s0.mem, s1.mem, x.root, x.span, s0.slices[t].start, s0.slices[t].count)
          && TablesCulled(s0.mem, s0.places, s1.mem, s1.places, x.root, s0.slices[t].start, s0.slices[t].count)
          && (Good(x, s1) <==> ReachesAll(s0.mem, x.root, s0.slices[t].start, s0.slices[t].count))
          && (Agrees(x, s1) <==> ReachesAll(s0.mem, x.root, s0.slices[t].start, s0.slices[t].count)))
    && (!r.SliceRefused? && AlignedStop(s0.mem, x.root, s0.slices[t].start) ==> r.SliceUnmapped? && Good(x, s1))
  }

  ghost predicate Effect(x: Extent, s0: Snapshot, op: Op, res: OpResult, s1: Snapshot) {
    match op
    case MapOp(s, id, _, _, _, _, _) =>
      if s in s0.slices && id !in s0.maps then res.MapDone? && MapDid(x, s0, op, res.mapped, s1) else res.PassedOver? && s1 == s0
    case UnmapOp(id) =>
      if id in s0.maps then res.UnmapDone? && UnmapDid(x, s0, s0.maps[id], res.unmapped, s1) else res.PassedOver? && s1 == s0
    case SubsliceOp(s, id, _, _) =>
      if s in s0.slices && id !in s0.slices then res.SubsliceDone? && SubsliceDid(x, s0, op, res.created, s1)
      else res.PassedOver? && s1 == s0
    case UnmapSliceOp(s) =>
      if s in s0.slices then res.UnmapSliceDone? && UnmapSliceDid(x, s0, s, res.gone, s1) else res.PassedOver? && s1 == s0
  }

  /** Operation `op` has taken the address space from `s0` to `s1` with result `res`. */
  ghost predicate Did(x: Extent, s0: Snapshot, op: Op, res: OpResult, s1: Snapshot) {
    forall n: nat {:trigger Unfold(n)} :: Unfold(n) ==> Effect(x, s0, op, res, s1)
  }

  // ----- Proofs of what operations do -----

  /** Placing and committing a mapping. */
  lemma {:induction false} MappingStep(x: Extent, s0: Snapshot, op: Op, r: MapResult, s1: Snapshot, done: nat,
                                       depth: map<Id, nat>, max: nat)
    requires SpaceOk(s0.slices, s0.maps, s0.mem, x.root, x.span, x.lo, x.hi) && op.MapOp? && !r.NotPlaced? && op.id !in s0.maps
    requires op.offset + op.count <= |op.pages| && ST.Vacant(s0.slices, op.slice, r.start, |op.pages|)
    requires s1.slices == ST.InsertChild(s0.slices, op.slice, Mapping(op.id, r.start, op.count))
    requires s1.maps == s0.maps[op.id := MapInfo(op.slice, r.start, op.count, op.offset, op.pages, op.attrs)]
    requires TablesOk(s1.mem, x.root, s1.places, x.span, s1.pool, x.frames)
    requires ST.Linked(s1.slices, x.top) <==> ST.NoSubsliceAt(s0.slices, op.slice, r.start)
    requires op.count > 0 ==> ST.TreeOk(s1.slices, x.top, depth, max)
    requires op.count == 0 ==> s1.mem == s0.mem
    requires CommittedPart(x, s0, op, r, s1, done)
    requires r.Mapped? <==> StatusOf(r).Done?
    ensures PlacedAndMapped(x, s0, op, r, s1)
  {
    var c := Mapping(op.id, r.start, op.count);
    var info := MapInfo(op.slice, r.start, op.count, op.offset, op.pages, op.attrs);
    if op.count > 0 {
      TreeIsNested(s1.slices, x.top, depth, max);
    }
    MappingCommitted(s0.slices, s1.slices, s0.maps, s0.mem, s0.places, s1.mem, s1.places, x.root, x.span, x.lo, x.hi,
                     c, info, done, StatusOf(r), s1.pool);
    if op.count > 0 {
      IsGood(x, s1, depth, max);
    } else {
      EmptyMappingPlaced(s0.slices, s0.maps, op.slice, c, info);
      EmptyStep(x, s0, op.slice, r.start, s1);
    }
  }

  lemma {:induction false} IsGood(x: Extent, s: Snapshot, depth: map<Id, nat>, max: nat)
    requires ST.TreeOk(s.slices, x.top, depth, max) && TablesOk(s.mem, x.root, s.places, x.span, s.pool, x.frames)
    requires SpaceOk(s.slices, s.maps, s.mem, x.root, x.span, x.lo, x.hi)
    ensures Good(x, s) && Agrees(x, s)
  {
  }

  /** Creating a child of no pages. */
  lemma {:induction false} EmptyStep(x: Extent, s0: Snapshot, s: Id, k: Vpn, s1: Snapshot)
    requires SpaceOk(s0.slices, s0.maps, s0.mem, x.root, x.span, x.lo, x.hi) && ST.Attached(s0.slices, s) && s1.mem == s0.mem
    requires PlaceTaken(s0.slices, s1.slices, s0.maps, s1.maps, s, k)
    requires ST.Attached(s1.slices, s) && k in ST.ChildrenOf(s1.slices, s) && ST.ChildrenOf(s1.slices, s)[k].count == 0
    requires ST.Linked(s1.slices, x.top) <==> ST.NoSubsliceAt(s0.slices, s, k)
    ensures !Good(x, s1) && (Agrees(x, s1) <==> !Displaces(s0.slices, s0.mem, x.root, s, k))
  {
    assert Unfold(0);
    EmptyChildIff(s0.slices, s1.slices, s0.maps, s1.maps, s0.mem, x.root, x.span, x.lo, x.hi, s, k);
    assert !ST.RangesOk(s1.slices, s);
  }

  /** Unmapping the range of a handle after the child that starts there was taken out of the tree. */
  lemma {:induction false} UnmapStep(x: Extent, s0: Snapshot, info: MapInfo, s1: Snapshot, depth: map<Id, nat>, max: nat)
    requires SpaceOk(s0.slices, s0.maps, s0.mem, x.root, x.span, x.lo, x.hi) && UnmapOutcome(x, s0, info) == Unmapped
    requires s1.slices == ST.PopChild(s0.slices, info.parent, info.start) && s1.maps == s0.maps
    requires ST.ChildrenOf(s0.slices, info.parent)[info.start].Mapping? ==> ST.TreeOk(s1.slices, x.top, depth, max)
    requires ST.Linked(s1.slices, x.top) <==> ST.ChildrenOf(s0.slices, info.parent)[info.start].Mapping?
    requires TablesOk(s1.mem, x.root, s1.places, x.span, s1.pool, x.frames)
    requires Erased(s0.mem, s1.mem, x.root, x.span, info.start, info.count)
    requires TablesCulled(s0.mem, s0.places, s1.mem, s1.places, x.root, info.start, info.count)
    ensures UnmapDid(x, s0, info, Unmapped, s1)
  {
    assert Unfold(0);
    var d := ST.ChildrenOf(s0.slices, info.parent)[info.start];
    if d.Mapping? {
      assert ST.RangesOk(s0.slices, info.parent);
      TreeIsNested(s1.slices, x.top, depth, max);
      UnmapIff(s0.slices, s0.maps, s0.mem, s1.mem, x.root, x.span, x.lo, x.hi, info.parent, d, info.count);
    }
  }

  /** Unmapping a slice that was taken out of the tree. */
  lemma {:induction false} UnmapSliceStep(x: Extent, s0: Snapshot, t: Id, s1: Snapshot, depth0: map<Id, nat>, max0: nat,
                                          depth: map<Id, nat>, max: nat)
    requires SpaceOk(s0.slices, s0.maps, s0.mem, x.root, x.span, x.lo, x.hi) && ST.TreeOk(s0.slices, x.top, depth0, max0)
    requires t in s0.slices && UnmapSliceOutcome(x, s0, t) == SliceUnmapped && s1.maps == s0.maps
    requires ST.TreeOk(s1.slices, x.top, depth, max) && SliceGone(s0.slices, s1.slices, t)
    requires TablesOk(s1.mem, x.root, s1.places, x.span, s1.pool, x.frames)
    requires TablesCulled(s0.mem, s0.places, s1.mem, s1.places, x.root, s0.slices[t].start, s0.slices[t].count)
    requires Erased(s0.mem, s1.mem, x.root, x.span, s0.slices[t].start, s0.slices[t].count)
    ensures UnmapSliceDid(x, s0, t, SliceUnmapped, s1)
  {
    assert Unfold(0);
    TreeIsNested(s1.slices, x.top, depth, max);
    UnmapSliceIff(s0.slices, s1.slices, s0.maps, s0.mem, s1.mem, x.root, x.span, x.lo, x.hi, x.top, depth0, max0, t);
    if AlignedStop(s0.mem, x.root, s0.slices[t].start) {
      SliceHasPages(s0.slices, x.top, depth0, max0, t);
      AlignedSlice(s0.slices, s0.maps, s0.mem, x.root, x.span, x.lo, x.hi, x.top, depth0, max0, t);
    }
  }

  lemma {:induction false} SliceNotAligned(x: Extent, s: Snapshot, t: Id, depth: map<Id, nat>, max: nat)
    requires SpaceOk(s.slices, s.maps, s.mem, x.root, x.span, x.lo, x.hi) && ST.TreeOk(s.slices, x.top, depth, max)
    requires ST.Attached(s.slices, t) && ST.ParentOf(s.slices, t).Some? && !SliceFits(x, s, t)
    ensures !AlignedStop(s.mem, x.root, s.slices[t].start)
  {
    SliceHasPages(s.slices, x.top, depth, max, t);
    if AlignedStop(s.mem, x.root, s.slices[t].start) {
      AlignedSlice(s.slices, s.maps, s.mem, x.root, x.span, x.lo, x.hi, x.top, depth, max, t);
    }
  }

  /** Every slice but the root has pages. */
  lemma {:induction false} SliceHasPages(a: ST.Arena, top: Id, depth: map<Id, nat>, max: nat, t: Id)
    requires ST.TreeOk(a, top, depth, max) && ST.Attached(a, t) && ST.ParentOf(a, t).Some?
    ensures a[t].count > 0
  {
    ParentContains(a, top, depth, max, t, ST.ParentOf(a, t).value);
    assert ST.RangesOk(a, ST.ParentOf(a, t).value);
  }

  // ----- Runs -----

  /** Why a run does not go on: an operation panics, breaks the agreement of tree and page table, or creates a child of no pages
      without breaking it. */
  datatype Stop = GoesOn | Panicked | Disagreed | EmptyChild

  ghost predicate IsOwnHandle(s: Snapshot, id: Id)
    requires id in s.maps
  {
    IsMapping(s.slices, s.maps[id].parent, Mapping(id, s.maps[id].start, s.maps[id].count))
  }

  /** Which operations end a run, and how: unmappings through handles that outlived their mapping, unmappings of slices from the
      middle of an entry, searches that underflow, and those that create a child of no pages. */
  ghost predicate EndsRun(x: Extent, s: Snapshot, op: Op, res: OpResult, stop: Stop) {
    match op
    case MapOp(_, _, _, count, _, _, _) =>
      res.MapDone? && if stop.Panicked? then res.mapped == NotPlaced(ST.Overflow) else count == 0 && !res.mapped.NotPlaced?
    case SubsliceOp(_, _, _, count) =>
      res.SubsliceDone? && if stop.Panicked? then res.created == ST.Err(ST.Overflow) else count == 0 && res.created.Ok?
    case UnmapOp(id) =>
      && res.UnmapDone? && id in s.maps && !IsOwnHandle(s, id)
      && if stop.Panicked? then res.unmapped.NoSuchChild? || res.unmapped.WalkFailed? else stop.Disagreed? && res.unmapped.Unmapped?
    case UnmapSliceOp(t) =>
      && res.UnmapSliceDone? && t in s.slices && !AlignedStop(s.mem, x.root, s.slices[t].start)
      && if stop.Panicked? then res.gone.SliceWalkFailed? else stop.Disagreed? && res.gone.SliceUnmapped?
  }

  /** The states of a run: all are good, and each operation has led from one to the next. */
  ghost predicate IsHistory(x: Extent, states: seq<Snapshot>, ops: seq<Op>, results: seq<OpResult>) {
    && |states| == |results| + 1 && |results| <= |ops|
    && (forall i {:trigger Good(x, states[i])} :: 0 <= i < |states| ==> Good(x, states[i]))
    && (forall i {:trigger Did(x, states[i], ops[i], results[i], states[i + 1])} :: 0 <= i < |results| ==>
          Did(x, states[i], ops[i], results[i], states[i + 1]))
  }

  lemma {:induction false} RunExtends(x: Extent, states: seq<Snapshot>, ops: seq<Op>, results: seq<OpResult>,
                                      res: OpResult, s: Snapshot)
    requires IsHistory(x, states, ops, results) && |results| < |ops| && Good(x, s)
    requires Did(x, states[|results|], ops[|results|], res, s)
    ensures IsHistory(x, states + [s], ops, results + [res])
  {
    var states', results' := states + [s], results + [res];
    forall i | 0 <= i < |states'|
      ensures Good(x, states'[i])
    {
      assert i < |states| ==> Good(x, states[i]);
    }
    forall i | 0 <= i < |results'|
      ensures Did(x, states'[i], ops[i], results'[i], states'[i + 1])
    {
      assert i < |results| ==> Did(x, states[i], ops[i], results[i], states[i + 1]);
    }
  }

  /** Operations `ops`, carried out one after the other from `s0`, have led to `s1`: either all of them, or up to one that ends the
      run.  `states` are the states between operations. */
  ghost predicate RunDid(x: Extent, s0: Snapshot, ops: seq<Op>, results: seq<OpResult>, stop: Stop, states: seq<Snapshot>,
                         s1: Snapshot)
  {
    && |results| <= |ops| && |states| > 0 && states[0] == s0
    && (stop.GoesOn? ==> |results| == |ops| && IsHistory(x, states, ops, results) && states[|results|] == s1)
    && (!stop.GoesOn? ==>
          var n := |results| - 1;
          && n >= 0 && IsHistory(x, states, ops, results[..n])
          && Did(x, states[n], ops[n], results[n], s1) && EndsRun(x, states[n], ops[n], results[n], stop))
    && (stop.Disagreed? ==> !Agrees(x, s1))
    && (stop.EmptyChild? ==> Agrees(x, s1))
  }

  /** The run goes on from state `i` by operation `i`, or ends there. */
  lemma {:induction false} RunStep(x: Extent, s0: Snapshot, ops: seq<Op>, results: seq<OpResult>, stop: Stop, states: seq<Snapshot>,
                                   s1: Snapshot, i: nat)
    requires RunDid(x, s0, ops, results, stop, states, s1) && i < |states| && i < |ops|
    ensures i < |results| && Good(x, states[i])
    ensures if i + 1 < |states| then Did(x, states[i], ops[i], results[i], states[i + 1])
            else |results| == i + 1 && Did(x, states[i], ops[i], results[i], s1) && EndsRun(x, states[i], ops[i], results[i], stop)
  {
    assert Good(x, states[i]);
    if i + 1 < |states| {
      assert i < |results|;
      assert stop.GoesOn? ==> Did(x, states[i], ops[i], results[i], states[i + 1]);
      if !stop.GoesOn? {
        var done := results[..|results| - 1];
        assert Did(x, states[i], ops[i], done[i], states[i + 1]);
      }
    }
  }
}
