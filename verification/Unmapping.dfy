/** Unmapping: clear pages, flush, cull tables. */
module Unmapping {
  import opened MemTypes
  import opened PageTree
  import opened PageMap
  import opened PageUpdate
  import opened PageCull
  import opened CullPass
  import opened PageTable

  /** The translated pages of a mapping: every entry lies within it, and if any page is translated the first one is. */
  ghost predicate OwnsPage(mem: Memory, root: Pfn, start: Vpn, count: nat, v: Vpn) {
    var tr := Walk(mem, root, ROOT_LEVEL, v);
    tr.Some? ==> EntryWithin(v, tr.value.level, start, count) && Walk(mem, root, ROOT_LEVEL, start).Some?
  }

  ghost predicate OwnsPages(mem: Memory, root: Pfn, start: Vpn, count: nat) {
    forall v: Vpn {:trigger OwnsPage(mem, root, start, count, v)} ::
      start <= v < start + count ==> OwnsPage(mem, root, start, count, v)
  }

  /** The walk over `start..start + count` clears `v`: it steps over `v` from a translated page. */
  predicate Clears(mem: Memory, root: Pfn, start: Vpn, count: nat, v: Vpn) {
    start <= v < start + count && Walk(mem, root, ROOT_LEVEL, StepOf(mem, root, start, v)).Some?
  }

  /** Exactly the pages that the walk clears have become unmapped. */
  ghost predicate PageErased(mem: Memory, mem': Memory, root: Pfn, start: Vpn, count: nat, v: Vpn) {
    Walk(mem', root, ROOT_LEVEL, v) == if Clears(mem, root, start, count, v) then None else Walk(mem, root, ROOT_LEVEL, v)
  }

  ghost predicate Erased(mem: Memory, mem': Memory, root: Pfn, span: nat, start: Vpn, count: nat) {
    forall v: Vpn {:trigger PageErased(mem, mem', root, start, count, v)} ::
      InSpan(v, span) ==> PageErased(mem, mem', root, start, count, v)
  }

  /** The entry that translated `v`, if it does no longer, is among those to be flushed. */
  ghost predicate PageFlushed(mem: Memory, mem': Memory, root: Pfn, g: Gather, v: Vpn) {
    var was := Walk(mem, root, ROOT_LEVEL, v);
    was.Some? && Walk(mem', root, ROOT_LEVEL, v) != was ==> g.Covers(PageOf(Block(v, was.value.level), was.value.level))
  }

  ghost predicate Flushed(mem: Memory, mem': Memory, root: Pfn, span: nat, g: Gather) {
    forall v: Vpn {:trigger PageFlushed(mem, mem', root, g, v)} :: InSpan(v, span) ==> PageFlushed(mem, mem', root, g, v)
  }

  /** Exactly the pages `start..start + count` have become unmapped. */
  ghost predicate PageCleared(mem: Memory, mem': Memory, root: Pfn, start: Vpn, count: nat, v: Vpn) {
    Walk(mem', root, ROOT_LEVEL, v) == if start <= v < start + count then None else Walk(mem, root, ROOT_LEVEL, v)
  }

  ghost predicate Cleared(mem: Memory, mem': Memory, root: Pfn, span: nat, start: Vpn, count: nat) {
    forall v: Vpn {:trigger PageCleared(mem, mem', root, start, count, v)} ::
      InSpan(v, span) ==> PageCleared(mem, mem', root, start, count, v)
  }

  // ----- Any range -----

  /** After a walk that cleared everything it came to, the same walk would come to unmapped pages only. */
  lemma {:induction false} WalkSweeps(mem: Memory, mem': Memory, root: Pfn, span: nat, lo: Vpn, hi: Vpn, g: Gather)
    requires Updated(mem, mem', root, span, Unmap, lo, hi, g) && InSpan(lo, span)
    ensures Swept(mem', root, span, lo, hi)
  {
    forall w: Vpn | IsStep(mem', root, lo, w) && w < hi && InSpan(w, span)
      ensures Walk(mem', root, ROOT_LEVEL, w) == None
    {
      StepOfSame(mem, mem', root, span, lo, w);
      assert PageUpdated(mem, mem', root, Unmap, lo, hi, g, w);
    }
  }

  lemma {:induction false} WalkErases(m0: Memory, m1: Memory, m2: Memory, root: Pfn, span: nat, start: Vpn, count: nat, g: Gather)
    requires Updated(m0, m1, root, span, Unmap, start, start + count, g) && SameTranslations(m1, m2, root, span)
    ensures Erased(m0, m2, root, span, start, count) && Flushed(m0, m2, root, span, g)
  {
    forall v: Vpn | InSpan(v, span)
      ensures PageErased(m0, m2, root, start, count, v) && PageFlushed(m0, m2, root, g, v)
    {
      assert PageUpdated(m0, m1, root, Unmap, start, start + count, g, v);
    }
  }

  /** If page `v` of the range is one of table `t`, below the root, the table has an entry. */
  ghost predicate NotLeftEmpty(mem: Memory, places: map<Pfn, Place>, start: Vpn, count: nat, t: Pfn, v: Vpn) {
    t in places && places[t].level < ROOT_LEVEL && start <= v < start + count && Block(v, places[t].level + 1) == places[t].block ==>
      !TableIsEmpty(mem, t)
  }

  ghost predicate NoneLeftEmpty(mem: Memory, places: map<Pfn, Place>, start: Vpn, count: nat) {
    forall t, v: Vpn {:trigger NotLeftEmpty(mem, places, start, count, t, v)} :: NotLeftEmpty(mem, places, start, count, t, v)
  }

  /** If table `t` is gone, a culling pass over the range comes to it. */
  ghost predicate GoneIfVisited(mem: Memory, places: map<Pfn, Place>, places': map<Pfn, Place>, root: Pfn,
                                start: Vpn, count: nat, t: Pfn)
  {
    t in places && t !in places' ==> Visited(mem, root, start, start + count, places[t])
  }

  ghost predicate OnlyVisitedGo(mem: Memory, places: map<Pfn, Place>, places': map<Pfn, Place>, root: Pfn, start: Vpn, count: nat) {
    forall t {:trigger GoneIfVisited(mem, places, places', root, start, count, t)} ::
      GoneIfVisited(mem, places, places', root, start, count, t)
  }

  lemma {:induction false} VisitedGo(m0: Memory, m1: Memory, p1: map<Pfn, Place>, m2: Memory, p2: map<Pfn, Place>,
                                     root: Pfn, span: nat, start: Vpn, count: nat, g: Gather)
    requires Updated(m0, m1, root, span, Unmap, start, start + count, g)
    requires CullDone(m1, p1, m2, p2, root, span, AnyTable, start, start + count)
    requires count > 0 ==> InSpan(start, span) && InSpan(start + count - 1, span)
    ensures OnlyVisitedGo(m0, p1, p2, root, start, count)
  {
    assert Unfold(0);
    forall t
      ensures GoneIfVisited(m0, p1, p2, root, start, count, t)
    {
      assert GoneFor(m1, p1, p2, root, start, start + count, start + count, t);
      if t in p1 && t !in p2 {
        var w: Vpn :| Hits(m1, root, start, start + count, p1[t], w);
        SpanConvex(start, w, start + count - 1, span);
        CullPosSame(m0, m1, root, span, start, w);
        assert Hits(m0, root, start, start + count, p1[t], w);
      }
    }
  }

  /** If table `t`, below the root, is left although a culling pass over the range comes to it, it is neither empty nor covered. */
  ghost predicate NotLeftOver(m0: Memory, mem: Memory, places: map<Pfn, Place>, root: Pfn, start: Vpn, count: nat, t: Pfn) {
    t in places && places[t].level < ROOT_LEVEL && Visited(m0, root, start, start + count, places[t]) ==>
      !TableIsEmpty(mem, t) && !CoveredBy(m0, root, start, places[t], start + count)
  }

  ghost predicate NoneLeftOver(m0: Memory, mem: Memory, places: map<Pfn, Place>, root: Pfn, start: Vpn, count: nat) {
    forall t {:trigger NotLeftOver(m0, mem, places, root, start, count, t)} :: NotLeftOver(m0, mem, places, root, start, count, t)
  }

  /** The tables after unmapping a range, from any page on: only tables that a culling pass comes to are gone, and of those it
      comes to all that are empty or covered are. */
  ghost predicate TablesCulled(m0: Memory, p0: map<Pfn, Place>, m1: Memory, p1: map<Pfn, Place>, root: Pfn, start: Vpn, count: nat) {
    && Shrunk(p0, p1, ROOT_LEVEL) && OnlyVisitedGo(m0, p0, p1, root, start, count)
    && NoneLeftOver(m0, m1, p1, root, start, count)
  }

  /** The culling pass comes to the same tables, and covers the same ones, before and after the walk has cleared entries. */
  lemma {:induction false} SameCandidates(m0: Memory, m1: Memory, root: Pfn, span: nat, start: Vpn, count: nat, p: Place)
    requires SameStops(m0, m1, root, span) && (count > 0 ==> InSpan(start, span) && InSpan(start + count - 1, span))
    ensures Visited(m0, root, start, start + count, p) ==> Visited(m1, root, start, start + count, p)
    ensures CoveredBy(m0, root, start, p, start + count) ==> CoveredBy(m1, root, start, p, start + count)
  {
    var end := start + count;
    if w: Vpn :| Hits(m0, root, start, end, p, w) {
      SpanConvex(start, w, end - 1, span);
      CullPosSame(m0, m1, root, span, start, w);
      assert Hits(m1, root, start, end, p, w);
    }
    if CoveredBy(m0, root, start, p, start + count) {
      SpanConvex(start, FirstPage(p), start + count - 1, span);
      CullPosSame(m0, m1, root, span, start, FirstPage(p));
    }
  }

  lemma {:induction false} VisitedAreSettled(m0: Memory, m1: Memory, p1: map<Pfn, Place>, m2: Memory, p2: map<Pfn, Place>,
                                             root: Pfn, span: nat, start: Vpn, count: nat, g: Gather)
    requires Updated(m0, m1, root, span, Unmap, start, start + count, g)
    requires CullDone(m1, p1, m2, p2, root, span, AnyTable, start, start + count)
    requires count > 0 ==> InSpan(start, span) && InSpan(start + count - 1, span)
    ensures NoneLeftOver(m0, m2, p2, root, start, count)
  {
    assert Unfold(0);
    forall t
      ensures NotLeftOver(m0, m2, p2, root, start, count, t)
    {
      if t in p2 {
        SameCandidates(m0, m1, root, span, start, count, p2[t]);
        assert Visited(m1, root, start, start + count, p2[t]) && p2[t].level < ROOT_LEVEL ==>
            Settled(m1, m2, p2, root, AnyTable, start, start + count, t);
      }
    }
  }

  /** Whatever page a range starts at, after unmapping it no table on that page's path is left empty. */
  lemma {:induction false} FirstPathCulled(m0: Memory, p0: map<Pfn, Place>, m1: Memory, p1: map<Pfn, Place>, root: Pfn,
                                           start: Vpn, count: nat, t: Pfn)
    requires TablesCulled(m0, p0, m1, p1, root, start, count) && count > 0
    requires t in p1 && p1[t].level < ROOT_LEVEL && p1[t].block == Block(start, p1[t].level + 1)
    ensures !TableIsEmpty(m1, t)
  {
    assert Hits(m0, root, start, start + count, p1[t], start);
    assert NotLeftOver(m0, m1, p1, root, start, count, t);
  }

  /** Unmapping from the first page of an entry on leaves no empty tables behind. */
  lemma {:induction false} EmptyTablesCulled(m0: Memory, m1: Memory, p1: map<Pfn, Place>, m2: Memory, p2: map<Pfn, Place>,
                                             root: Pfn, span: nat, start: Vpn, count: nat, g: Gather)
    requires Updated(m0, m1, root, span, Unmap, start, start + count, g) && WellFormed(m1, root, p1, span)
    requires CullDone(m1, p1, m2, p2, root, span, AnyTable, start, start + count)
    requires count > 0 && InSpan(start, span) && InSpan(start + count - 1, span)
    ensures AlignedCull(m0, root, start) ==> NoneLeftEmpty(m2, p2, start, count)
  {
    assert Unfold(0);
    assert StopKept(m0, m1, root, start);
    if AlignedCull(m0, root, start) {
      forall t, v: Vpn
        ensures NotLeftEmpty(m2, p2, start, count, t, v)
      {
        if t in p2 && p2[t].level < ROOT_LEVEL && start <= v < start + count && Block(v, p2[t].level + 1) == p2[t].block {
          SpanConvex(start, v, start + count - 1, span);
          CullsAll(m1, p1, m2, p2, root, span, AnyTable, start, start + count, t, v);
        }
      }
    }
  }

  /** A request to flush, and the page table as it was at that moment. */
  datatype FlushEvent = FlushEvent(g: Gather, mem: Memory, places: map<Pfn, Place>, pool: set<Pfn>)

  /** The processors' caches of translations, by the requests made to them. */
  class Tlb {
    ghost var log: seq<FlushEvent>

    constructor ()
      ensures log == []
    {
      log := [];
    }

    method Flush(g: Gather, ghost pt: PageTable)
      modifies this`log
      ensures log == old(log) + [FlushEvent(g, pt.mem, pt.places, pt.pool)]
    {
      log := log + [FlushEvent(g, pt.mem, pt.places, pt.pool)];
    }
  }

  /** One flush was requested: when all pages that are cleared were, and before any table was given back. */
  ghost predicate FlushedBetween(log: seq<FlushEvent>, log': seq<FlushEvent>, mem: Memory, places: map<Pfn, Place>, pool: set<Pfn>,
                                 mem': Memory, root: Pfn, span: nat, start: Vpn, count: nat)
  {
    && |log'| == |log| + 1 && log'[..|log|] == log
    && var e := log'[|log|];
       && Lists(e.g, Written(mem, root, start, start + count)) && Flushed(mem, mem', root, span, e.g)
       && Erased(mem, e.mem, root, span, start, count) && e.places == places && e.pool == pool
  }

  /** Clears a range, asks for the flush and culls tables, whatever is mapped there.  If the walk meets an entry that starts
      before it or ends after the range, it stops there; the kernel panics. */
  method DoUnmap(pt: PageTable, tlb: Tlb, start: Vpn, count: nat) returns (r: Status)
    requires pt.Valid() && (count > 0 ==> InSpan(start, pt.span) && InSpan(start + count - 1, pt.span))
    modifies pt`mem, pt`pool, pt`places, tlb`log
    ensures pt.Valid()
    ensures r.Ok? <==> StepsFit(old(pt.mem), pt.root, pt.span, start, start + count, start + count)
    ensures r.Ok? ==> Erased(old(pt.mem), pt.mem, pt.root, pt.span, start, count)
    ensures r.Ok? ==> FlushedBetween(old(tlb.log), tlb.log, old(pt.mem), old(pt.places), old(pt.pool),
                                     pt.mem, pt.root, pt.span, start, count)
    ensures r.Ok? ==> TablesCulled(old(pt.mem), old(pt.places), pt.mem, pt.places, pt.root, start, count)
    ensures !r.Ok? ==> pt.places == old(pt.places) && pt.pool == old(pt.pool) && tlb.log == old(tlb.log)
    ensures r.Ok? && AlignedCull(old(pt.mem), pt.root, start) ==> NoneLeftEmpty(pt.mem, pt.places, start, count)
  {
    var p := new MappingPointer(start, count);
    assert p.Virt() == start && p.End() == start + count;
    var g;
    r, g := pt.WalkUpdate(p, Unmap);
    if r.Ok? {
      ghost var unmapped, places := pt.mem, pt.places;
      tlb.Flush(g, pt);
      WalkErases(old(pt.mem), unmapped, pt.mem, pt.root, pt.span, start, count, g);
      AnyIsHereditary(pt.mem, pt.places);
      pt.CullTables(start, count, AnyTable);
      assert Unfold(0);
      VisitedGo(old(pt.mem), unmapped, places, pt.mem, pt.places, pt.root, pt.span, start, count, g);
      VisitedAreSettled(old(pt.mem), unmapped, places, pt.mem, pt.places, pt.root, pt.span, start, count, g);
      if count > 0 {
        WalkSweeps(old(pt.mem), unmapped, pt.root, pt.span, start, start + count, g);
        EmptyTablesCulled(old(pt.mem), unmapped, places, pt.mem, pt.places, pt.root, pt.span, start, count, g);
      }
      WalkErases(old(pt.mem), unmapped, pt.mem, pt.root, pt.span, start, count, g);
    }
  }

  predicate AnyTable(table: Pfn, level: nat) {
    true
  }

  lemma {:induction false} AnyIsHereditary(mem: Memory, places: map<Pfn, Place>)
    ensures Hereditary(mem, places, AnyTable)
  {
  }

  // ----- The pages of a mapping -----

  lemma {:induction false} LevelIsStop(mem: Memory, table: Pfn, level: nat, v: Vpn)
    requires Walk(mem, table, level, v).Some?
    ensures Walk(mem, table, level, v).value.level == StopLevel(mem, table, level, v)
    decreases level
  {
    var e := EntryAt(mem, table, Index(v, level));
    if e.Table? {
      LevelIsStop(mem, e.next, level - 1, v);
    }
  }

  /** A mapping that owns its first page starts at an aligned stop. */
  lemma {:induction false} FirstPageAligned(mem: Memory, root: Pfn, start: Vpn, count: nat)
    requires OwnsPages(mem, root, start, count) && count > 0 && Walk(mem, root, ROOT_LEVEL, start).Some?
    ensures AlignedStop(mem, root, start)
  {
    assert OwnsPage(mem, root, start, count, start);
    LevelIsStop(mem, root, ROOT_LEVEL, start);
    BlockBounds(start, StopLevel(mem, root, ROOT_LEVEL, start));
  }

  /** From a mapping's translated first page, the walk clears all pages that are translated. */
  lemma {:induction false} ClearsTranslated(mem: Memory, root: Pfn, span: nat, start: Vpn, count: nat, v: Vpn)
    requires AlignedStop(mem, root, start) && InSpan(start, span) && InSpan(v, span)
    ensures Clears(mem, root, start, count, v) <==> start <= v < start + count && Walk(mem, root, ROOT_LEVEL, v).Some?
  {
    if start <= v {
      NoneMissed(mem, root, span, start, v);
    }
  }

  /** Unmapping a mapping clears all of it. */
  lemma {:induction false} UnmapsAll(mem: Memory, mem': Memory, root: Pfn, span: nat, start: Vpn, count: nat)
    requires OwnsPages(mem, root, start, count) && count > 0 && InSpan(start, span) && InSpan(start + count - 1, span)
    requires Erased(mem, mem', root, span, start, count)
    ensures Cleared(mem, mem', root, span, start, count)
  {
    forall v: Vpn | InSpan(v, span)
      ensures PageCleared(mem, mem', root, start, count, v)
    {
      assert PageErased(mem, mem', root, start, count, v);
      if start <= v < start + count && Walk(mem, root, ROOT_LEVEL, v).Some? {
        assert OwnsPage(mem, root, start, count, v);
        FirstPageAligned(mem, root, start, count);
        ClearsTranslated(mem, root, span, start, count, v);
      }
    }
  }

  /** A walk over a mapping never meets an entry that reaches beyond it. */
  lemma {:induction false} NoPartialPage(mem: Memory, root: Pfn, span: nat, start: Vpn, count: nat)
    requires OwnsPages(mem, root, start, count) && InSpan(start, span)
    ensures StepsFit(mem, root, span, start, start + count, start + count)
  {
    forall v: Vpn | IsStep(mem, root, start, v) && v < start + count && InSpan(v, span)
      ensures FitsFrom(mem, root, v, start + count)
    {
      if Walk(mem, root, ROOT_LEVEL, v).Some? {
        assert OwnsPage(mem, root, start, count, v);
        FirstPageAligned(mem, root, start, count);
        StepsAligned(mem, root, span, start, v);
        LevelIsStop(mem, root, ROOT_LEVEL, v);
      }
    }
  }

  /** If page `v` is translated, its entry ends by `end`. */
  ghost predicate EntryEndsBy(mem: Memory, root: Pfn, end: Vpn, v: Vpn) {
    var tr := Walk(mem, root, ROOT_LEVEL, v);
    tr.Some? ==> PageOf(Block(v, tr.value.level), tr.value.level) + LevelPages(tr.value.level) <= end
  }

  /** From an aligned stop, a walk meets no entry that sticks out if and only if the entry of every translated page in the range
      ends by the range's end. */
  lemma {:induction false} FitsIffEntriesEnd(mem: Memory, root: Pfn, span: nat, start: Vpn, end: Vpn)
    requires AlignedStop(mem, root, start) && InSpan(start, span)
    ensures StepsFit(mem, root, span, start, end, end) <==>
            forall v: Vpn {:trigger EntryEndsBy(mem, root, end, v)} ::
              start <= v < end && InSpan(v, span) ==> EntryEndsBy(mem, root, end, v)
  {
    if StepsFit(mem, root, span, start, end, end) {
      forall v: Vpn | start <= v < end && InSpan(v, span)
        ensures EntryEndsBy(mem, root, end, v)
      {
        EndsWithStep(mem, root, span, start, end, v);
      }
    }
    if forall v: Vpn {:trigger EntryEndsBy(mem, root, end, v)} ::
         start <= v < end && InSpan(v, span) ==> EntryEndsBy(mem, root, end, v) {
      forall v: Vpn | IsStep(mem, root, start, v) && v < end && InSpan(v, span)
        ensures FitsFrom(mem, root, v, end)
      {
        assert EntryEndsBy(mem, root, end, v);
        StepsAligned(mem, root, span, start, v);
        BlockBounds(v, StopLevel(mem, root, ROOT_LEVEL, v));
        if Walk(mem, root, ROOT_LEVEL, v).Some? {
          LevelIsStop(mem, root, ROOT_LEVEL, v);
        }
      }
    }
  }

  lemma {:induction false} EndsWithStep(mem: Memory, root: Pfn, span: nat, start: Vpn, end: Vpn, v: Vpn)
    requires AlignedStop(mem, root, start) && InSpan(start, span) && StepsFit(mem, root, span, start, end, end)
    requires start <= v < end && InSpan(v, span)
    ensures EntryEndsBy(mem, root, end, v)
  {
    if Walk(mem, root, ROOT_LEVEL, v).Some? {
      var x := StepOf(mem, root, start, v);
      var level := StopLevel(mem, root, ROOT_LEVEL, x);
      StepOfIsStep(mem, root, start, v);
      StepsAligned(mem, root, span, start, v);
      NoneMissed(mem, root, span, start, v);
      SpanConvex(start, x, v, span);
      assert FitsFrom(mem, root, x, end);
      BlockUnique(v, level, Block(x, level));
      SameStop(mem, root, ROOT_LEVEL, x, v);
      LevelIsStop(mem, root, ROOT_LEVEL, x);
      LevelIsStop(mem, root, ROOT_LEVEL, v);
      BlockBounds(x, level);
    }
  }
}
