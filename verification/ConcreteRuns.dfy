/** Four runs from a fresh address space that end badly: a handle that outlives its mapping, a table that outlives its pages, a
    slice that is unmapped with a page left behind, and a subslice of no pages that takes the place of a mapping. */
module ConcreteRuns {
  import opened MemTypes
  import opened PageTree
  import opened PageMap
  import opened PageUpdate
  import opened PageCull
  import opened CullPass
  import opened PageTable
  import opened Commit
  import opened Unmapping
  import opened SliceChildren
  import opened SliceNesting
  import opened Coherence
  import opened SpaceSteps
  import opened AddrSpace
  import ST = SliceTree

  /** The last page of one level-0 table; the next page is the first one of the next such table. */
  const PLACE: Vpn := 1023
  const FRAMES: set<Pfn> := {0, 1, 2, 3, 4, 5}

  function LowExtent(): Extent {
    Extent(0, 0, 0, LOW_ASPACE_BASE, LOW_ASPACE_END, FRAMES)
  }

  function FreshSlices(): ST.Arena {
    map[0 := ST.Slice(LOW_ASPACE_BASE, LOW_ASPACE_END - LOW_ASPACE_BASE, Some(ST.Inner(None, map[])))]
  }

  // ----- Six frames are enough -----

  /** Counts the places of the tables for these pages. */
  ghost function PlaceIndex(p: Place): nat {
    if p == Place(0, 1) then 0 else p.level + 1
  }

  ghost predicate IsNear(p: Place) {
    p == Place(3, 0) || p == Place(2, 0) || p == Place(1, 0) || p == Place(0, 1) || p == Place(0, 2)
  }

  ghost predicate AllNear(places: map<Pfn, Place>) {
    forall t :: t in places ==> IsNear(places[t])
  }

  lemma {:induction false} LevelsGrow(level: nat)
    ensures level >= 1 ==> LevelPages(level) >= 512
  {
  }

  lemma {:induction false} NearBlocks(v: Vpn, level: nat)
    requires PLACE <= v < 1536 && level <= ROOT_LEVEL
    ensures if level == 0 then 1 <= Block(v, 1) <= 2 else Block(v, level + 1) == 0
  {
    if level == 0 {
      assert Block(1023, 1) == 1 && Block(1535, 1) == 2;
      BlockMono(1023, v, 1);
      BlockMono(v, 1535, 1);
    } else {
      LevelsGrow(level);
      PageOfIsProduct(0, level + 1);
      BlockUnique(v, level + 1, 0);
    }
  }

  lemma {:induction false} GrownNear(mem: Memory, root: Pfn, p0: map<Pfn, Place>, p1: map<Pfn, Place>, start: Vpn, count: nat)
    requires AllNear(p0) && WellFormed(mem, root, p1, 0) && TablesFor(p0, p1, start, start + count)
    requires PLACE <= start && 0 < count && start + count <= 1536
    ensures AllNear(p1)
  {
    forall t | t in p1
      ensures IsNear(p1[t])
    {
      assert TableGrown(p0, p1, start, start + count - 1, t);
      NearBlocks(start, p1[t].level);
      NearBlocks(start + count - 1, p1[t].level);
    }
  }

  lemma {:induction false} TwoAlike(s: seq<nat>) returns (i: nat, j: nat)
    requires |s| == 6 && forall k :: 0 <= k < 6 ==> s[k] <= 4
    ensures i < j < 6 && s[i] == s[j]
  {
    var a, b, c, d, e := s[0], s[1], s[2], s[3], s[4];
    assert a == b || a == c || a == d || a == e || b == c || b == d || b == e || c == d || c == e || d == e ||
           s[5] == a || s[5] == b || s[5] == c || s[5] == d || s[5] == e;
    i, j :| i < j < 6 && s[i] == s[j];
  }

  lemma {:induction false} SameIndex(p: Place, q: Place)
    requires IsNear(p) && IsNear(q) && PlaceIndex(p) == PlaceIndex(q)
    ensures p == q
  {
  }

  lemma {:induction false} FramesLeft(mem: Memory, root: Pfn, places: map<Pfn, Place>, pool: set<Pfn>)
    requires WellFormed(mem, root, places, 0) && AllNear(places) && places.Keys + pool == FRAMES
    ensures pool != {}
  {
    if pool == {} {
      assert forall k: nat :: k < 6 ==> k in places;
      var i, j := TwoAlike(seq(6, k requires 0 <= k < 6 => PlaceIndex(places[k])));
      SameIndex(places[i], places[j]);
      SamePlace(mem, root, places, 0, i, j);
    }
  }

  // ----- Mapping and unmapping -----

  ghost predicate AllSome(frames: Object) {
    forall k :: 0 <= k < |frames| ==> frames[k].Some?
  }

  lemma {:induction false} AllMapped(mem: Memory, root: Pfn, start: Vpn, frames: Object, status: CommitStatus, pool: set<Pfn>)
    requires CommitReason(mem, root, start, frames, status, pool) && pool != {}
    requires |frames| < 512 && AllSome(frames)
    ensures status == Done
  {
    forall k: nat
      ensures !LeftoverTable(mem, root, start, frames, k)
    {
      assert LevelPages(1) == 512;
    }
  }

  /** A good state with no tables but those for the pages from `PLACE` on. */
  ghost predicate Near(s: Snapshot) {
    Good(LowExtent(), s) && AllNear(s.places)
  }

  ghost predicate IsStart(s: Snapshot) {
    Near(s) && s.slices == FreshSlices() && s.maps == map[] && s.places == map[0 := Place(ROOT_LEVEL, 0)]
  }

  /** Maps all of an object to a place between `PLACE` and 1536. */
  function MapAll(s: Id, id: Id, start: Vpn, pages: Object, attrs: Attrs): Op {
    MapOp(s, id, ST.Fixed(start), |pages|, 0, pages, attrs)
  }

  /** A mapping with a fixed place that is vacant gets it. */
  lemma {:induction false} PlacedFixed(s0: Snapshot, op: Op, res: OpResult, s1: Snapshot)
    requires op.MapOp? && op.base.Fixed? && op.count > 0 && op.offset + op.count <= |op.pages| && op.id !in s0.maps
    requires ST.Vacant(s0.slices, op.slice, op.base.start, |op.pages|) && Did(LowExtent(), s0, op, res, s1)
    ensures res.MapDone? && !res.mapped.NotPlaced? && res.mapped.start == op.base.start
    ensures PlacedAndMapped(LowExtent(), s0, op, res.mapped, s1) && Good(LowExtent(), s1)
  {
    assert Unfold(0);
  }

  /** There is always room for such a mapping if its place is vacant, and there are always frames left for tables. */
  lemma {:induction false} MapNear(s0: Snapshot, s: Id, id: Id, start: Vpn, pages: Object, attrs: Attrs, res: OpResult, s1: Snapshot)
    requires Near(s0) && id !in s0.maps && ST.Vacant(s0.slices, s, start, |pages|)
    requires PLACE <= start && |pages| > 0 && start + |pages| <= 1536
    requires Did(LowExtent(), s0, MapAll(s, id, start, pages, attrs), res, s1)
    ensures res.MapDone? && !res.mapped.NotPlaced? && res.mapped.start == start && Near(s1) && s1.pool != {}
    ensures res.mapped.Mapped? <==> StatusOf(res.mapped).Done?
    ensures MapEffect(s0.mem, s0.places, s1.mem, s1.places, 0, 0, start, pages, StatusOf(res.mapped), s1.pool)
    ensures s1.slices == ST.InsertChild(s0.slices, s, Mapping(id, start, |pages|))
    ensures s1.maps == s0.maps[id := MapInfo(s, start, |pages|, 0, pages, attrs)]
  {
    PlacedFixed(s0, MapAll(s, id, start, pages, attrs), res, s1);
    assert pages[0..0 + |pages|] == pages;
    StaysNear(s0, s1, start, |pages|);
  }

  lemma {:induction false} StaysNear(s0: Snapshot, s1: Snapshot, start: Vpn, count: nat)
    requires Near(s0) && Good(LowExtent(), s1) && TablesFor(s0.places, s1.places, start, start + count)
    requires PLACE <= start && count > 0 && start + count <= 1536
    ensures Near(s1) && s1.pool != {}
  {
    assert Unfold(0);
    GrownNear(s1.mem, 0, s0.places, s1.places, start, count);
    FramesLeft(s1.mem, 0, s1.places, s1.pool);
  }

  ghost predicate Translated(mem: Memory, lo: Vpn, hi: Vpn) {
    forall v: Vpn :: lo <= v < hi ==> Walk(mem, 0, ROOT_LEVEL, v).Some?
  }

  /** Fewer than 512 pages that are provided are mapped. */
  lemma {:induction false} MapSmall(s0: Snapshot, s: Id, id: Id, start: Vpn, pages: Object, attrs: Attrs, res: OpResult, s1: Snapshot)
    requires Near(s0) && id !in s0.maps && ST.Vacant(s0.slices, s, start, |pages|)
    requires PLACE <= start && 0 < |pages| < 512 && start + |pages| <= 1536 && AllSome(pages)
    requires Did(LowExtent(), s0, MapAll(s, id, start, pages, attrs), res, s1)
    ensures res == MapDone(Mapped(start)) && Near(s1) && TablesFor(s0.places, s1.places, start, start + |pages|)
    ensures s1.slices == ST.InsertChild(s0.slices, s, Mapping(id, start, |pages|))
    ensures s1.maps == s0.maps[id := MapInfo(s, start, |pages|, 0, pages, attrs)]
    ensures Translated(s1.mem, start, start + |pages|)
  {
    assert Unfold(0);
    MapNear(s0, s, id, start, pages, attrs, res, s1);
    AllMapped(s0.mem, 0, start, pages, StatusOf(res.mapped), s1.pool);
  }

  /** Unmapping through a mapping's own handle. */
  lemma {:induction false} UnmapOwn(s0: Snapshot, id: Id, res: OpResult, s1: Snapshot)
    requires Near(s0) && id in s0.maps && IsOwnHandle(s0, id) && Did(LowExtent(), s0, UnmapOp(id), res, s1)
    ensures res == UnmapDone(Unmapped) && Near(s1) && s1.maps == s0.maps
    ensures s1.slices == ST.PopChild(s0.slices, s0.maps[id].parent, s0.maps[id].start)
    ensures Shrunk(s0.places, s1.places, ROOT_LEVEL)
    ensures OnlyVisitedGo(s0.mem, s0.places, s1.places, 0, s0.maps[id].start, s0.maps[id].count)
  {
    assert Unfold(0);
    var info := s0.maps[id];
    OwnHandle(s0.slices, s0.maps, s0.mem, 0, 0, LOW_ASPACE_BASE, LOW_ASPACE_END, info.parent, Mapping(id, info.start, info.count));
  }

  lemma {:induction false} PopsToFresh(c: Child)
    ensures ST.PopChild(ST.InsertChild(FreshSlices(), 0, c), 0, c.start) == FreshSlices()
  {
    assert ST.ChildrenOf(FreshSlices(), 0)[c.start := c] - {c.start} == map[];
  }

  method NewSpace() returns (sp: AddrSpace)
    ensures sp.Valid() && sp.Bounds() == LowExtent() && IsStart(sp.Now()) && fresh(sp) && fresh(sp.tree) && fresh(sp.pt) && fresh(sp.tlb)
  {
    sp := new AddrSpace(0, 0, {1, 2, 3, 4, 5});
    sp.ValidIsGood();
  }

  /** A run from a fresh address space. */
  ghost predicate IsRun(ops: seq<Op>, results: seq<OpResult>, stop: Stop, states: seq<Snapshot>, last: Snapshot) {
    && |results| <= |ops| && |states| == |results| + (if stop.GoesOn? then 1 else 0) > 0
    && (stop.GoesOn? ==> |results| == |ops| && states[|results|] == last)
    && forall n: nat {:trigger Unfold(n)} :: Unfold(n) ==>
         IsStart(states[0]) && RunDid(LowExtent(), states[0], ops, results, stop, states, last)
  }

  /** The state behind operation `i` of a run. */
  function Behind(states: seq<Snapshot>, last: Snapshot, i: nat): Snapshot {
    if i + 1 < |states| then states[i + 1] else last
  }

  lemma {:induction false} StepOfRun(ops: seq<Op>, results: seq<OpResult>, stop: Stop, states: seq<Snapshot>, last: Snapshot, i: nat)
    requires IsRun(ops, results, stop, states, last) && i < |states| && i < |ops|
    ensures i < |results| && Good(LowExtent(), states[i]) && Did(LowExtent(), states[i], ops[i], results[i], Behind(states, last, i))
    ensures i + 1 < |states| ==> Good(LowExtent(), states[i + 1])
    ensures i + 1 == |states| ==> |results| == i + 1 && EndsRun(LowExtent(), states[i], ops[i], results[i], stop)
    ensures stop.Disagreed? || stop.EmptyChild? ==> (stop.EmptyChild? <==> Agrees(LowExtent(), last))
  {
    assert Unfold(0);
    RunStep(LowExtent(), states[0], ops, results, stop, states, last, i);
    if i + 1 < |states| {
      assert stop.GoesOn? ==> Good(LowExtent(), states[i + 1]);
    }
  }

  lemma {:induction false} StartOfRun(ops: seq<Op>, results: seq<OpResult>, stop: Stop, states: seq<Snapshot>, last: Snapshot)
    requires IsRun(ops, results, stop, states, last)
    ensures IsStart(states[0])
  {
    assert Unfold(0);
  }

  /** A run goes on after a mapping of fewer than 512 pages. */
  lemma {:induction false} GoesOnAfterMap(ops: seq<Op>, results: seq<OpResult>, stop: Stop, states: seq<Snapshot>, last: Snapshot, i: nat,
                                          s: Id, id: Id, start: Vpn, pages: Object, attrs: Attrs)
    requires IsRun(ops, results, stop, states, last) && i < |states| && i < |ops| && ops[i] == MapAll(s, id, start, pages, attrs)
    requires AllNear(states[i].places) && id !in states[i].maps && ST.Vacant(states[i].slices, s, start, |pages|)
    requires PLACE <= start && 0 < |pages| < 512 && start + |pages| <= 1536 && AllSome(pages)
    ensures i + 1 < |states| && Near(states[i + 1])
    ensures TablesFor(states[i].places, states[i + 1].places, start, start + |pages|)
    ensures states[i + 1].slices == ST.InsertChild(states[i].slices, s, Mapping(id, start, |pages|))
    ensures states[i + 1].maps == states[i].maps[id := MapInfo(s, start, |pages|, 0, pages, attrs)]
    ensures Translated(states[i + 1].mem, start, start + |pages|)
  {
    StepOfRun(ops, results, stop, states, last, i);
    MapSmall(states[i], s, id, start, pages, attrs, results[i], Behind(states, last, i));
  }

  /** A run goes on after an unmapping through a mapping's own handle. */
  lemma {:induction false} GoesOnAfterUnmap(ops: seq<Op>, results: seq<OpResult>, stop: Stop, states: seq<Snapshot>, last: Snapshot,
                                            i: nat, id: Id)
    requires IsRun(ops, results, stop, states, last) && i < |states| && i < |ops| && ops[i] == UnmapOp(id)
    requires AllNear(states[i].places) && id in states[i].maps && IsOwnHandle(states[i], id)
    ensures i + 1 < |states| && Near(states[i + 1]) && states[i + 1].maps == states[i].maps
    ensures var info := states[i].maps[id];
            && states[i + 1].slices == ST.PopChild(states[i].slices, info.parent, info.start)
            && Shrunk(states[i].places, states[i + 1].places, ROOT_LEVEL)
            && OnlyVisitedGo(states[i].mem, states[i].places, states[i + 1].places, 0, info.start, info.count)
  {
    StepOfRun(ops, results, stop, states, last, i);
    UnmapOwn(states[i], id, results[i], Behind(states, last, i));
  }

  // ----- A handle that outlives its mapping -----

  /** The pages of a mapping of two are translated by small pages. */
  lemma {:induction false} SmallPages(a: ST.Arena, maps: Maps, mem: Memory, root: Pfn, span: nat, lo: Vpn, hi: Vpn, d: Child, v: Vpn)
    requires SpaceOk(a, maps, mem, root, span, lo, hi) && IsMapping(a, 0, d) && d.count == 2
    requires d.Contains(v) && Walk(mem, root, ROOT_LEVEL, v).Some?
    ensures Walk(mem, root, ROOT_LEVEL, v).value.level == 0
  {
    MappingsInside(a, lo, hi);
    MappingOwnsPages(a, maps, mem, root, lo, hi, 0, d);
    assert OwnsPage(mem, root, d.start, d.count, v);
    LevelsGrow(Walk(mem, root, ROOT_LEVEL, v).value.level);
  }

  /** Unmapping the first page of a mapping of two works, and loses agreement. */
  lemma {:induction false} SecondPageStays(a: ST.Arena, maps: Maps, mem: Memory, root: Pfn, span: nat, lo: Vpn, hi: Vpn, d: Child)
    requires SpaceOk(a, maps, mem, root, span, lo, hi) && IsMapping(a, 0, d) && d.count == 2
    requires Walk(mem, root, ROOT_LEVEL, d.start).Some? && Walk(mem, root, ROOT_LEVEL, d.start + 1).Some?
    ensures StepsFit(mem, root, span, d.start, d.start + 1, d.start + 1) && !KeepsAgreement(a, mem, root, 0, d.start, 1)
  {
    SmallPages(a, maps, mem, root, span, lo, hi, d, d.start);
    assert LevelPages(0) == 1;
  }

  /** Maps page 1023, unmaps it, maps pages 1023 and 1024, and unmaps again through the first handle. */
  function TwiceOps(attrs: Attrs): seq<Op> {
    [MapAll(0, 1, PLACE, [Some(100)], attrs), UnmapOp(1), MapAll(0, 2, PLACE, [Some(200), Some(300)], attrs), UnmapOp(1)]
  }

  lemma {:induction false} TwiceBegins(attrs: Attrs, results: seq<OpResult>, stop: Stop, states: seq<Snapshot>, last: Snapshot)
    requires IsRun(TwiceOps(attrs), results, stop, states, last)
    ensures |states| > 2 && Near(states[2]) && states[2].slices == FreshSlices()
    ensures states[2].maps == map[1 := MapInfo(0, PLACE, 1, 0, [Some(100)], attrs)]
  {
    var ops := TwiceOps(attrs);
    StartOfRun(ops, results, stop, states, last);
    GoesOnAfterMap(ops, results, stop, states, last, 0, 0, 1, PLACE, [Some(100)], attrs);
    PopsToFresh(Mapping(1, PLACE, 1));
    assert IsOwnHandle(states[1], 1);
    GoesOnAfterUnmap(ops, results, stop, states, last, 1, 1);
  }

  lemma {:induction false} UnmapTwiceRun(attrs: Attrs, results: seq<OpResult>, stop: Stop, states: seq<Snapshot>, last: Snapshot)
    requires IsRun(TwiceOps(attrs), results, stop, states, last)
    ensures |results| == 4 && results[3] == UnmapDone(Unmapped) && stop.Disagreed?
    ensures last.slices == FreshSlices() && Walk(last.mem, 0, ROOT_LEVEL, PLACE + 1).Some?
  {
    var ops := TwiceOps(attrs);
    TwiceBegins(attrs, results, stop, states, last);
    GoesOnAfterMap(ops, results, stop, states, last, 2, 0, 2, PLACE, [Some(200), Some(300)], attrs);
    StepOfRun(ops, results, stop, states, last, 3);
    StaleStep(attrs, states[3], results[3], Behind(states, last, 3));
  }

  lemma {:induction false} StaleStep(attrs: Attrs, s0: Snapshot, res: OpResult, s1: Snapshot)
    requires Near(s0) && s0.slices == ST.InsertChild(FreshSlices(), 0, Mapping(2, PLACE, 2)) && 1 in s0.maps
    requires s0.maps[1] == MapInfo(0, PLACE, 1, 0, [Some(100)], attrs) && Did(LowExtent(), s0, UnmapOp(1), res, s1)
    requires Walk(s0.mem, 0, ROOT_LEVEL, PLACE).Some? && Walk(s0.mem, 0, ROOT_LEVEL, PLACE + 1).Some?
    ensures res == UnmapDone(Unmapped) && !Good(LowExtent(), s1)
    ensures s1.slices == FreshSlices() && Walk(s1.mem, 0, ROOT_LEVEL, PLACE + 1).Some?
  {
    assert Unfold(0);
    var d := Mapping(2, PLACE, 2);
    PopsToFresh(d);
    assert IsMapping(s0.slices, 0, d);
    SecondPageStays(s0.slices, s0.maps, s0.mem, 0, 0, LOW_ASPACE_BASE, LOW_ASPACE_END, d);
    LowInSpan(PLACE + 1);
    assert PageErased(s0.mem, s1.mem, 0, PLACE, 1, PLACE + 1);
  }

  /** The unmapping through the first handle removes the second mapping but only its first page: 1024 stays translated with no
      mapping left in the whole address space. */
  method UnmapTwice(attrs: Attrs) returns (sp: AddrSpace, results: seq<OpResult>, stop: Stop, ghost states: seq<Snapshot>)
    ensures IsRun(TwiceOps(attrs), results, stop, states, sp.Now()) && stop.Disagreed?
    ensures |results| == 4 && results[3] == UnmapDone(Unmapped)
    ensures sp.tree.slices == FreshSlices() && sp.pt.Lookup(PLACE + 1).Some?
  {
    sp := NewSpace();
    results, stop, states := sp.Run(TwiceOps(attrs));
    UnmapTwiceRun(attrs, results, stop, states, sp.Now());
  }

  // ----- A table that outlives its pages -----

  /** A culling pass over 1023 and 1024 does not come to the table for 1024. */
  lemma {:induction false} NotVisited(mem: Memory, root: Pfn, end: Vpn, p: Place)
    requires end == PLACE + 2 && p == Place(0, 2)
    ensures !Visited(mem, root, PLACE, end, p)
  {
    LevelsGrow(AtLeastOne(StopLevel(mem, root, ROOT_LEVEL, PLACE)));
    assert !IsCullStep(mem, root, PLACE, PLACE + 1) && Block(1023, 1) == 1;
    forall w: Vpn
      ensures !Hits(mem, root, PLACE, end, p, w)
    {
      assert PLACE <= w < end ==> w == 1023 || w == PLACE + 1;
    }
  }

  /** So if 1024 was translated by a small page, its table is left after unmapping. */
  lemma {:induction false} TableLeft(m0: Memory, p0: map<Pfn, Place>, m1: Memory, p1: map<Pfn, Place>, root: Pfn)
    requires WellFormed(m0, root, p0, 0) && WellFormed(m1, root, p1, 0) && OnlyVisitedGo(m0, p0, p1, root, PLACE, 2)
    requires Shrunk(p0, p1, ROOT_LEVEL)
    requires Walk(m0, root, ROOT_LEVEL, PLACE + 1).Some? && Walk(m0, root, ROOT_LEVEL, PLACE + 1).value.level == 0
    ensures TableAt(m1, root, 0, PLACE + 1).Some?
  {
    LevelIsStop(m0, root, ROOT_LEVEL, PLACE + 1);
    StopTable(m0, root, ROOT_LEVEL, PLACE + 1, root);
    var t := TableAt(m0, root, 0, PLACE + 1).value;
    LowInSpan(PLACE + 1);
    PathPlace(m0, root, p0, 0, 0, PLACE + 1);
    assert Block(1024, 1) == 2;
    assert GoneIfVisited(m0, p0, p1, root, PLACE, 2, t);
    NotVisited(m0, root, PLACE + 2, p0[t]);
    OnPath(m1, root, p1, 0, t, PLACE + 1);
  }

  /** 512 consecutive frames that would make a large page. */
  function LargeFrames(): (frames: Object)
    ensures |frames| == 512 && forall k :: 0 <= k < 512 ==> frames[k] == Some(512 + k)
  {
    seq(512, k requires 0 <= k < 512 => Some(512 + k))
  }

  lemma {:induction false} LargeRefused(mem: Memory, root: Pfn)
    requires TableAt(mem, root, 0, 1024).Some?
    ensures LeftoverTable(mem, root, 1024, LargeFrames(), 0)
  {
    assert MaxRun(LargeFrames(), 0, 512, 512);
    assert LevelPages(1) == 512;
    LevelArithmetic(1024, 1);
    LevelArithmetic(512, 1);
    assert LargeCandidate(1024, 512, 0, 512);
  }

  lemma {:induction false} OnlyRefused(mem: Memory, root: Pfn, status: CommitStatus, pool: set<Pfn>)
    requires CommitReason(mem, root, 1024, LargeFrames(), status, pool) && pool != {}
    requires LeftoverTable(mem, root, 1024, LargeFrames(), 0)
    ensures status == MapFailed(ResourceOverlap)
  {
  }

  /** Maps pages 1023 and 1024, unmaps them, and maps 512 frames at page 1024. */
  function RefusedOps(attrs: Attrs): seq<Op> {
    [MapAll(0, 1, PLACE, [Some(200), Some(300)], attrs), UnmapOp(1), MapAll(0, 2, 1024, LargeFrames(), attrs)]
  }

  lemma {:induction false} LeftBehind(s0: Snapshot, s1: Snapshot)
    requires Near(s0) && Near(s1) && s0.slices == ST.InsertChild(FreshSlices(), 0, Mapping(1, PLACE, 2))
    requires Translated(s0.mem, PLACE, PLACE + 2)
    requires Shrunk(s0.places, s1.places, ROOT_LEVEL) && OnlyVisitedGo(s0.mem, s0.places, s1.places, 0, PLACE, 2)
    ensures TableAt(s1.mem, 0, 0, 1024).Some?
  {
    assert Unfold(0);
    var d := Mapping(1, PLACE, 2);
    assert IsMapping(s0.slices, 0, d);
    SmallPages(s0.slices, s0.maps, s0.mem, 0, 0, LOW_ASPACE_BASE, LOW_ASPACE_END, d, PLACE + 1);
    TableLeft(s0.mem, s0.places, s1.mem, s1.places, 0);
  }

  lemma {:induction false} RefusedRun(attrs: Attrs, results: seq<OpResult>, stop: Stop, states: seq<Snapshot>, last: Snapshot)
    requires IsRun(RefusedOps(attrs), results, stop, states, last)
    ensures |states| == 4 && |results| == 3 && results[2] == MapDone(NotCommitted(1024, MapFailed(ResourceOverlap)))
    ensures states[2].slices == FreshSlices() && last.pool != {}
  {
    var ops, d := RefusedOps(attrs), Mapping(1, PLACE, 2);
    StartOfRun(ops, results, stop, states, last);
    GoesOnAfterMap(ops, results, stop, states, last, 0, 0, 1, PLACE, [Some(200), Some(300)], attrs);
    PopsToFresh(d);
    assert IsOwnHandle(states[1], 1);
    GoesOnAfterUnmap(ops, results, stop, states, last, 1, 1);
    LeftBehind(states[1], states[2]);
    StepOfRun(ops, results, stop, states, last, 2);
    LargeStep(attrs, states[2], results[2], Behind(states, last, 2));
  }

  lemma {:induction false} LargeStep(attrs: Attrs, s0: Snapshot, res: OpResult, s1: Snapshot)
    requires Near(s0) && s0.slices == FreshSlices() && 2 !in s0.maps && TableAt(s0.mem, 0, 0, 1024).Some?
    requires Did(LowExtent(), s0, MapAll(0, 2, 1024, LargeFrames(), attrs), res, s1)
    ensures res == MapDone(NotCommitted(1024, MapFailed(ResourceOverlap))) && s1.pool != {}
  {
    LargeRefused(s0.mem, 0);
    MapNear(s0, 0, 2, 1024, LargeFrames(), attrs, res, s1);
    OnlyRefused(s0.mem, 0, StatusOf(res.mapped), s1.pool);
  }

  /** With no child in the root slice, nothing is translated. */
  lemma {:induction false} NothingTranslated(s: Snapshot, v: Vpn)
    requires Good(LowExtent(), s) && s.slices == FreshSlices() && LOW_ASPACE_BASE <= v < LOW_ASPACE_END
    ensures Walk(s.mem, 0, ROOT_LEVEL, v) == None
  {
    assert Unfold(0);
    assert PageCoherent(s.slices, s.maps, s.mem, 0, v);
  }

  /** Before the last mapping no page is translated, there are frames for tables, and all frames of the object are provided; but it
      fails with an overlap. */
  method RefusedThoughUnmapped(attrs: Attrs)
    returns (sp: AddrSpace, results: seq<OpResult>, stop: Stop, ghost states: seq<Snapshot>)
    ensures IsRun(RefusedOps(attrs), results, stop, states, sp.Now()) && |states| == 4 && |results| == 3
    ensures results[2] == MapDone(NotCommitted(1024, MapFailed(ResourceOverlap))) && sp.pt.pool != {}
    ensures states[2].slices == FreshSlices()
    ensures forall v: Vpn :: LOW_ASPACE_BASE <= v < LOW_ASPACE_END ==> Walk(states[2].mem, 0, ROOT_LEVEL, v) == None
  {
    sp := NewSpace();
    results, stop, states := sp.Run(RefusedOps(attrs));
    RefusedRun(attrs, results, stop, states, sp.Now());
    StepOfRun(RefusedOps(attrs), results, stop, states, sp.Now(), 2);
    forall v: Vpn | LOW_ASPACE_BASE <= v < LOW_ASPACE_END
      ensures Walk(states[2].mem, 0, ROOT_LEVEL, v) == None
    {
      NothingTranslated(states[2], v);
    }
  }

  // ----- A slice that starts before the tables of its mappings -----

  const SLICE: Child := Subslice(1, 700, 1000)
  const INNER: Child := Mapping(1, 1030, 1)

  function WithSlice(): ST.Arena {
    ST.NewSlice(FreshSlices(), 0, SLICE)
  }

  /** Page 1030 is the only one that is translated. */
  lemma {:induction false} OnlyInner(a: ST.Arena, maps: Maps, mem: Memory, root: Pfn, span: nat, lo: Vpn, hi: Vpn, v: Vpn)
    requires SpaceOk(a, maps, mem, root, span, lo, hi) && a == ST.InsertChild(WithSlice(), 1, INNER)
    requires 700 <= v < 1700 && v != 1030
    ensures Walk(mem, root, ROOT_LEVEL, v) == None
  {
    assert Inside(a, lo, hi, 1) && PageCoherent(a, maps, mem, root, v);
    forall q, e: Child
      ensures !Accounts(a, maps, q, e, v, Walk(mem, root, ROOT_LEVEL, v))
    {
      assert MapOk(a, maps, q, e) && (IsMapping(a, q, e) ==> e == INNER);
    }
  }

  /** The walk over the slice steps from 700 to 1212 or further. */
  lemma {:induction false} StepsOver(mem: Memory, places: map<Pfn, Place>, root: Pfn)
    requires WellFormed(mem, root, places, 0)
    requires forall t :: t in places && places[t].level == 0 ==> places[t].block == 2
    ensures StepOf(mem, root, 700, 1030) == 700
  {
    LowInSpan(700);
    StopTable(mem, root, ROOT_LEVEL, 700, root);
    assert Block(700, 1) == 1;
    if TableAt(mem, root, 0, 700).Some? {
      PathPlace(mem, root, places, 0, 0, 700);
    }
    LevelsGrow(StopLevel(mem, root, ROOT_LEVEL, 700));
  }

  lemma {:induction false} SliceMissesPage(a: ST.Arena, maps: Maps, mem: Memory, places: map<Pfn, Place>, root: Pfn, lo: Vpn, hi: Vpn)
    requires SpaceOk(a, maps, mem, root, 0, lo, hi) && a == ST.InsertChild(WithSlice(), 1, INNER)
    requires WellFormed(mem, root, places, 0) && Walk(mem, root, ROOT_LEVEL, 1030).Some?
    requires forall t :: t in places && places[t].level == 0 ==> places[t].block == 2
    ensures StepsFit(mem, root, 0, 700, 1700, 1700) && !Clears(mem, root, 700, 1000, 1030)
  {
    StepsOver(mem, places, root);
    OnlyInner(a, maps, mem, root, 0, lo, hi, 700);
    forall v: Vpn | IsStep(mem, root, 700, v) && v < 1700 && InSpan(v, 0)
      ensures FitsFrom(mem, root, v, 1700)
    {
      assert v != 1030;
      OnlyInner(a, maps, mem, root, 0, lo, hi, v);
    }
  }

  /** Creates the slice 700..1700, maps page 1030 in it and unmaps the slice. */
  function MissesOps(attrs: Attrs): seq<Op> {
    [SubsliceOp(0, 1, ST.Fixed(700), 1000), MapAll(1, 1, 1030, [Some(100)], attrs), UnmapSliceOp(1)]
  }

  lemma {:induction false} GrownFromRoot(p0: map<Pfn, Place>, p1: map<Pfn, Place>)
    requires p0 == map[0 := Place(ROOT_LEVEL, 0)] && TablesFor(p0, p1, 1030, 1031)
    ensures forall t :: t in p1 && p1[t].level == 0 ==> p1[t].block == 2
  {
    assert Block(1030, 1) == 2;
    forall t | t in p1 && p1[t].level == 0
      ensures p1[t].block == 2
    {
      assert TableGrown(p0, p1, 1030, 1030, t);
    }
  }

  lemma {:induction false} SubsliceStep(s0: Snapshot, res: OpResult, s1: Snapshot)
    requires IsStart(s0) && Did(LowExtent(), s0, SubsliceOp(0, 1, ST.Fixed(700), 1000), res, s1)
    ensures res == SubsliceDone(ST.Ok(700)) && s1 == s0.(slices := WithSlice()) && Near(s1)
  {
    assert Unfold(0);
    assert ST.Vacant(s0.slices, 0, 700, 1000);
  }

  lemma {:induction false} MissStep(s0: Snapshot, res: OpResult, s1: Snapshot)
    requires Near(s0) && s0.slices == ST.InsertChild(WithSlice(), 1, INNER) && Walk(s0.mem, 0, ROOT_LEVEL, 1030).Some?
    requires forall t :: t in s0.places && s0.places[t].level == 0 ==> s0.places[t].block == 2
    requires Did(LowExtent(), s0, UnmapSliceOp(1), res, s1)
    ensures res == UnmapSliceDone(SliceUnmapped) && !Good(LowExtent(), s1) && Walk(s1.mem, 0, ROOT_LEVEL, 1030).Some?
    ensures forall q, e: Child :: !IsMapping(s1.slices, q, e)
  {
    assert Unfold(0);
    SliceMissesPage(s0.slices, s0.maps, s0.mem, s0.places, 0, LOW_ASPACE_BASE, LOW_ASPACE_END);
    LowInSpan(1030);
    assert PageErased(s0.mem, s1.mem, 0, 700, 1000, 1030);
    forall q, e: Child
      ensures !IsMapping(s1.slices, q, e)
    {
      assert ST.Ancestor(s0.slices, 1, 0) == Some(1);
      assert IsMapping(s0.slices, q, e) ==> q == 1;
    }
  }

  lemma {:induction false} SliceMissesRun(attrs: Attrs, results: seq<OpResult>, stop: Stop, states: seq<Snapshot>, last: Snapshot)
    requires IsRun(MissesOps(attrs), results, stop, states, last)
    ensures |results| == 3 && results[2] == UnmapSliceDone(SliceUnmapped) && stop.Disagreed?
    ensures Walk(last.mem, 0, ROOT_LEVEL, 1030).Some? && forall q, e: Child :: !IsMapping(last.slices, q, e)
  {
    var ops := MissesOps(attrs);
    StartOfRun(ops, results, stop, states, last);
    StepOfRun(ops, results, stop, states, last, 0);
    SubsliceStep(states[0], results[0], Behind(states, last, 0));
    GoesOnAfterMap(ops, results, stop, states, last, 1, 1, 1, 1030, [Some(100)], attrs);
    GrownFromRoot(states[1].places, states[2].places);
    StepOfRun(ops, results, stop, states, last, 2);
    MissStep(states[2], results[2], Behind(states, last, 2));
  }

  /** Page 1030 stays translated, and there is no mapping left. */
  method SliceMisses(attrs: Attrs) returns (sp: AddrSpace, results: seq<OpResult>, stop: Stop, ghost states: seq<Snapshot>)
    ensures IsRun(MissesOps(attrs), results, stop, states, sp.Now()) && stop.Disagreed?
    ensures |results| == 3 && results[2] == UnmapSliceDone(SliceUnmapped) && sp.pt.Lookup(1030).Some?
    ensures forall q, e: Child :: !IsMapping(sp.tree.slices, q, e)
  {
    sp := NewSpace();
    results, stop, states := sp.Run(MissesOps(attrs));
    SliceMissesRun(attrs, results, stop, states, sp.Now());
  }

  // ----- A subslice of no pages -----

  /** Maps page 1023 and creates a subslice of no pages there. */
  function EmptyOps(attrs: Attrs): seq<Op> {
    [MapAll(0, 1, PLACE, [Some(100)], attrs), SubsliceOp(0, 1, ST.Fixed(PLACE), 0)]
  }

  lemma {:induction false} EmptyTakesPlace(s0: Snapshot, res: OpResult, s1: Snapshot)
    requires Near(s0) && s0.slices == ST.InsertChild(FreshSlices(), 0, Mapping(1, PLACE, 1))
    requires Walk(s0.mem, 0, ROOT_LEVEL, PLACE).Some?
    requires Did(LowExtent(), s0, SubsliceOp(0, 1, ST.Fixed(PLACE), 0), res, s1)
    ensures res == SubsliceDone(ST.Ok(PLACE)) && s1.mem == s0.mem && !Agrees(LowExtent(), s1) && !Good(LowExtent(), s1)
    ensures forall q, e: Child :: !IsMapping(s1.slices, q, e)
  {
    assert Unfold(0);
    assert ST.Vacant(s0.slices, 0, PLACE, 0);
    assert Uncovers(s0.slices, s0.mem, 0, 0, PLACE);
  }

  lemma {:induction false} EmptyRun(attrs: Attrs, results: seq<OpResult>, stop: Stop, states: seq<Snapshot>, last: Snapshot)
    requires IsRun(EmptyOps(attrs), results, stop, states, last)
    ensures |results| == 2 && results[1] == SubsliceDone(ST.Ok(PLACE)) && stop.Disagreed?
    ensures Walk(last.mem, 0, ROOT_LEVEL, PLACE).Some? && forall q, e: Child :: !IsMapping(last.slices, q, e)
  {
    var ops := EmptyOps(attrs);
    StartOfRun(ops, results, stop, states, last);
    GoesOnAfterMap(ops, results, stop, states, last, 0, 0, 1, PLACE, [Some(100)], attrs);
    StepOfRun(ops, results, stop, states, last, 1);
    EmptyTakesPlace(states[1], results[1], Behind(states, last, 1));
  }

  /** The mapping is gone, and its page stays translated. */
  method EmptyReplaces(attrs: Attrs) returns (sp: AddrSpace, results: seq<OpResult>, stop: Stop, ghost states: seq<Snapshot>)
    ensures IsRun(EmptyOps(attrs), results, stop, states, sp.Now()) && stop.Disagreed?
    ensures |results| == 2 && results[1] == SubsliceDone(ST.Ok(PLACE)) && sp.pt.Lookup(PLACE).Some?
    ensures forall q, e: Child :: !IsMapping(sp.tree.slices, q, e)
  {
    sp := NewSpace();
    results, stop, states := sp.Run(EmptyOps(attrs));
    EmptyRun(attrs, results, stop, states, sp.Now());
  }
}
