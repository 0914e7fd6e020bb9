/** A culling pass: where it goes, which tables it settles, and that after an unmapping pass it changes no translation. */
module CullPass {
  import opened MemTypes
  import opened PageTree
  import opened PageMap
  import opened PageUpdate
  import opened PageCull

  // ----- The steps of a culling pass -----

  function AtLeastOne(n: nat): nat {
    if n == 0 then 1 else n
  }

  /** Where a culling pass goes on after `v`: one entry of the level at which the path of `v` stops, but never less than the
      span of a whole level-0 table. */
  function CullNext(mem: Memory, root: Pfn, v: Vpn): (next: Vpn)
    ensures v < next
  {
    v + LevelPages(AtLeastOne(StopLevel(mem, root, ROOT_LEVEL, v)))
  }

  function CullPos(mem: Memory, root: Pfn, lo: Vpn, v: Vpn): (pos: Vpn)
    requires lo <= v
    ensures lo <= pos <= v < CullNext(mem, root, pos)
    decreases v - lo
  {
    if v < CullNext(mem, root, lo) then lo else CullPos(mem, root, CullNext(mem, root, lo), v)
  }

  /** A culling pass from `lo` comes to `v`. */
  predicate IsCullStep(mem: Memory, root: Pfn, lo: Vpn, v: Vpn) {
    lo <= v && CullPos(mem, root, lo, v) == v
  }

  lemma {:induction false} CullPosVia(mem: Memory, root: Pfn, lo: Vpn, mid: Vpn, v: Vpn)
    requires IsCullStep(mem, root, lo, mid) && mid <= v
    ensures CullPos(mem, root, lo, v) == CullPos(mem, root, mid, v)
    decreases mid - lo
  {
    if CullNext(mem, root, lo) <= mid {
      CullPosVia(mem, root, CullNext(mem, root, lo), mid, v);
    }
  }

  // ----- What lies ahead stays as it is -----

  ghost predicate PageAhead(mem: Memory, mem': Memory, root: Pfn, v: Vpn) {
    && StopLevel(mem', root, ROOT_LEVEL, v) == StopLevel(mem, root, ROOT_LEVEL, v)
    && Walk(mem', root, ROOT_LEVEL, v) == Walk(mem, root, ROOT_LEVEL, v)
  }

  ghost predicate Ahead(mem: Memory, mem': Memory, root: Pfn, span: nat, v: Vpn) {
    forall u: Vpn {:trigger PageAhead(mem, mem', root, u)} :: v <= u && InSpan(u, span) ==> PageAhead(mem, mem', root, u)
  }

  lemma {:induction false} AheadTrans(m0: Memory, m1: Memory, m2: Memory, root: Pfn, span: nat, mid: Vpn, v: Vpn)
    requires Ahead(m0, m1, root, span, mid) && Ahead(m1, m2, root, span, v) && mid <= v
    ensures Ahead(m0, m2, root, span, v)
  {
    forall u: Vpn | v <= u && InSpan(u, span)
      ensures PageAhead(m0, m2, root, u)
    {
      assert PageAhead(m0, m1, root, u) && PageAhead(m1, m2, root, u);
    }
  }

  lemma {:induction false} CullPosAhead(mem: Memory, mem': Memory, root: Pfn, span: nat, lo: Vpn, v: Vpn)
    requires Ahead(mem, mem', root, span, lo) && lo <= v && InSpan(lo, span) && InSpan(v, span)
    ensures CullPos(mem', root, lo, v) == CullPos(mem, root, lo, v)
    decreases v - lo
  {
    assert PageAhead(mem, mem', root, lo);
    var next := CullNext(mem, root, lo);
    if next <= v {
      SpanConvex(lo, next, v, span);
      CullPosAhead(mem, mem', root, span, next, v);
    }
  }

  lemma {:induction false} CullPosSame(mem: Memory, mem': Memory, root: Pfn, span: nat, lo: Vpn, v: Vpn)
    requires SameStops(mem, mem', root, span) && lo <= v && InSpan(lo, span) && InSpan(v, span)
    ensures CullPos(mem', root, lo, v) == CullPos(mem, root, lo, v)
    decreases v - lo
  {
    assert StopKept(mem, mem', root, lo);
    var next := CullNext(mem, root, lo);
    if next <= v {
      SpanConvex(lo, next, v, span);
      CullPosSame(mem, mem', root, span, next, v);
    }
  }

  lemma {:induction false} StepOfAhead(mem: Memory, mem': Memory, root: Pfn, span: nat, lo: Vpn, v: Vpn)
    requires Ahead(mem, mem', root, span, lo) && lo <= v && InSpan(lo, span) && InSpan(v, span)
    ensures StepOf(mem', root, lo, v) == StepOf(mem, root, lo, v)
    decreases v - lo
  {
    assert PageAhead(mem, mem', root, lo);
    var next := NextStop(mem, root, lo);
    if next <= v {
      SpanConvex(lo, next, v, span);
      StepOfAhead(mem, mem', root, span, next, v);
    }
  }

  // ----- Ranges that an unmapping pass has swept -----

  /** Every step that an unmapping pass from `lo` takes before `hi` is at an unmapped page. */
  ghost predicate Swept(mem: Memory, root: Pfn, span: nat, lo: Vpn, hi: Vpn) {
    forall w: Vpn {:trigger IsStep(mem, root, lo, w)} ::
      IsStep(mem, root, lo, w) && w < hi && InSpan(w, span) ==> Walk(mem, root, ROOT_LEVEL, w) == None
  }

  /** The same, where it matters to a culling pass at `v`: only from the start of a level-0 table can it meet a table that the
      range covers. */
  ghost predicate SweptFrom(mem: Memory, root: Pfn, span: nat, v: Vpn, hi: Vpn) {
    v < hi && AlignedForLevel(v, 1) ==> Swept(mem, root, span, v, hi)
  }

  lemma {:induction false} SweptOn(mem: Memory, root: Pfn, span: nat, lo: Vpn, v: Vpn, hi: Vpn)
    requires Swept(mem, root, span, lo, hi) && IsStep(mem, root, lo, v)
    ensures Swept(mem, root, span, v, hi)
  {
    forall w: Vpn | IsStep(mem, root, v, w) && w < hi && InSpan(w, span)
      ensures Walk(mem, root, ROOT_LEVEL, w) == None
    {
      StepOfVia(mem, root, lo, v, w);
      assert IsStep(mem, root, lo, w);
    }
  }

  lemma {:induction false} SweptAhead(mem: Memory, mem': Memory, root: Pfn, span: nat, v: Vpn, hi: Vpn)
    requires Swept(mem, root, span, v, hi) && Ahead(mem, mem', root, span, v) && InSpan(v, span)
    ensures Swept(mem', root, span, v, hi)
  {
    forall w: Vpn | IsStep(mem', root, v, w) && w < hi && InSpan(w, span)
      ensures Walk(mem', root, ROOT_LEVEL, w) == None
    {
      StepOfAhead(mem, mem', root, span, v, w);
      assert PageAhead(mem, mem', root, w) && IsStep(mem, root, v, w);
    }
  }

  lemma {:induction false} StepOfIsStep(mem: Memory, root: Pfn, lo: Vpn, v: Vpn)
    requires lo <= v
    ensures IsStep(mem, root, lo, StepOf(mem, root, lo, v))
    decreases v - lo
  {
    var next := NextStop(mem, root, lo);
    if next <= v {
      StepOfIsStep(mem, root, next, v);
      StepOfVia(mem, root, lo, next, StepOf(mem, root, next, v));
    }
  }

  /** From an aligned stop, a swept range is unmapped. */
  lemma {:induction false} SweptIsUnmapped(mem: Memory, root: Pfn, span: nat, v: Vpn, hi: Vpn, u: Vpn)
    requires Swept(mem, root, span, v, hi) && AlignedStop(mem, root, v) && InSpan(v, span)
    requires v <= u < hi && InSpan(u, span)
    ensures Walk(mem, root, ROOT_LEVEL, u) == None
  {
    var x := StepOf(mem, root, v, u);
    StepOfIsStep(mem, root, v, u);
    SpanConvex(v, x, u, span);
    NoneMissed(mem, root, span, v, u);
  }

  /** A walk that starts with an entry's first page comes to the entry's end. */
  lemma {:induction false} StepsToEnd(mem: Memory, root: Pfn, span: nat, level: nat, v: Vpn)
    requires AlignedForLevel(v, level) && InSpan(v, span) && InSpan(v + LevelPages(level), span)
    requires level <= ROOT_LEVEL && TableAt(mem, root, level, v).Some? && StopLevel(mem, root, ROOT_LEVEL, v) <= level
    ensures IsStep(mem, root, v, v + LevelPages(level))
  {
    var end := v + LevelPages(level);
    AlignedDown(v, level, StopLevel(mem, root, ROOT_LEVEL, v));
    StepsAligned(mem, root, span, v, end);
    var w := StepOf(mem, root, v, end);
    if w < end {
      var stop := StopLevel(mem, root, ROOT_LEVEL, w);
      BlockUnique(w, level, Block(v, level));
      SameBlockAbove(v, w, level, level + 1);
      TableAtSameBlock(mem, root, level, v, w);
      StopVia(mem, root, level, w);
      StepWithin(w, v, stop, level);
    }
  }

  /** An entry that starts in a larger entry ends in it. */
  lemma {:induction false} StepWithin(w: Vpn, v: Vpn, stop: nat, level: nat)
    requires stop <= level && AlignedForLevel(w, stop) && AlignedForLevel(v, level) && v <= w < v + LevelPages(level)
    ensures w + LevelPages(stop) <= v + LevelPages(level)
    decreases level - stop
  {
    if stop < level {
      var b := PageOf(Block(w, stop + 1), stop + 1);
      BlockBounds(w, stop + 1);
      PageOfAligned(Block(w, stop + 1), stop + 1);
      EntryEndsFirst(w, stop);
      TableEndBounds(w, stop);
      BlockBounds(w, stop);
      PageOfNext(Block(w, stop), stop);
      BlockUnique(w, level, Block(v, level));
      BlockStarts(w, v, stop + 1, level);
      StepWithin(b, v, stop + 1, level);
    } else {
      BlockUnique(w, level, Block(v, level));
    }
  }

  lemma {:induction false} BlockStarts(w: Vpn, v: Vpn, low: nat, level: nat)
    requires low <= level && AlignedForLevel(v, level) && v <= w
    ensures v <= PageOf(Block(w, low), low)
  {
    AlignedDown(v, level, low);
    BlockMono(v, w, low);
    BlockBounds(v, low);
    if Block(v, low) < Block(w, low) {
      PageOfMono(Block(v, low), Block(w, low), low);
    }
  }

  // ----- What lies behind stays as it is -----

  function EndOf(p: Place): Vpn {
    FirstPage(p) + LevelPages(p.level + 1)
  }

  ghost predicate TableBehind(mem: Memory, places: map<Pfn, Place>, mem': Memory, places': map<Pfn, Place>, x: Vpn, t: Pfn) {
    t in places && EndOf(places[t]) <= x ==> t in places' && (t in mem ==> t in mem' && mem'[t] == mem[t])
  }

  /** All tables for pages before `x` are there with the same contents. */
  ghost predicate Behind(mem: Memory, places: map<Pfn, Place>, mem': Memory, places': map<Pfn, Place>, x: Vpn) {
    forall t {:trigger TableBehind(mem, places, mem', places', x, t)} :: TableBehind(mem, places, mem', places', x, t)
  }

  // ----- Tables that a pass settles -----

  /** The pass from `lo` comes, before `upto`, to page `w` of the table's span. */
  ghost predicate Hits(mem: Memory, root: Pfn, lo: Vpn, upto: Vpn, p: Place, w: Vpn) {
    IsCullStep(mem, root, lo, w) && w < upto && Block(w, p.level + 1) == p.block
  }

  ghost predicate Visited(mem: Memory, root: Pfn, lo: Vpn, upto: Vpn, p: Place) {
    exists w: Vpn :: Hits(mem, root, lo, upto, p, w)
  }

  /** The pass comes to the first page of the table's span, and the range ends no sooner than the span. */
  ghost predicate CoveredBy(mem: Memory, root: Pfn, lo: Vpn, p: Place, hi: Vpn) {
    IsCullStep(mem, root, lo, FirstPage(p)) && EndOf(p) <= hi
  }

  /** A table that is left may not be culled, or it is neither covered nor empty. */
  ghost predicate Settled(m0: Memory, mem: Memory, places: map<Pfn, Place>, root: Pfn, can: (Pfn, nat) -> bool,
                          lo: Vpn, hi: Vpn, t: Pfn)
    requires t in places
  {
    !can(t, places[t].level) || (!CoveredBy(m0, root, lo, places[t], hi) && !TableIsEmpty(mem, t))
  }

  /** Every table below level `level` that the pass from `lo` came to before `upto` is gone or settled. */
  ghost predicate Finished(m0: Memory, mem: Memory, places: map<Pfn, Place>, root: Pfn, can: (Pfn, nat) -> bool,
                           level: nat, lo: Vpn, upto: Vpn, hi: Vpn)
  {
    forall t {:trigger Settled(m0, mem, places, root, can, lo, hi, t)} ::
      t in places && places[t].level < level && Visited(m0, root, lo, upto, places[t]) ==>
        Settled(m0, mem, places, root, can, lo, hi, t)
  }

  /** Until it came to `upto`, the pass from `lo` was in one block of level `level`. */
  ghost predicate StaysIn(mem: Memory, root: Pfn, lo: Vpn, upto: Vpn, level: nat) {
    forall w: Vpn {:trigger IsCullStep(mem, root, lo, w)} ::
      IsCullStep(mem, root, lo, w) && w < upto ==> Block(w, level) == Block(lo, level)
  }

  /** All entries of the table are absent, or lead to tables that are gone. */
  ghost predicate Emptied(mem: Memory, places': map<Pfn, Place>, t: Pfn) {
    forall i :: 0 <= i < ENTRY_COUNT ==>
      EntryAt(mem, t, i).Absent? || (EntryAt(mem, t, i).Table? && EntryAt(mem, t, i).next !in places')
  }

  /** If table `t` is gone, the pass came to it, and it was covered or everything below it is gone too. */
  ghost predicate GoneFor(mem: Memory, places: map<Pfn, Place>, places': map<Pfn, Place>, root: Pfn, lo: Vpn, upto: Vpn, hi: Vpn, t: Pfn) {
    t in places && t !in places' ==>
      Visited(mem, root, lo, upto, places[t]) && (CoveredBy(mem, root, lo, places[t], hi) || Emptied(mem, places', t))
  }

  ghost predicate GoneRight(mem: Memory, places: map<Pfn, Place>, places': map<Pfn, Place>, root: Pfn, lo: Vpn, upto: Vpn, hi: Vpn) {
    forall t {:trigger GoneFor(mem, places, places', root, lo, upto, hi, t)} :: GoneFor(mem, places, places', root, lo, upto, hi, t)
  }

  /** An entry of a table that is left is as it was, or the table it led to is gone. */
  ghost predicate EntryLeft(mem: Memory, mem': Memory, places': map<Pfn, Place>, t: Pfn, i: nat) {
    t in places' && i < ENTRY_COUNT && EntryAt(mem', t, i) != EntryAt(mem, t, i) ==>
      EntryAt(mem', t, i).Absent? && EntryAt(mem, t, i).Table? && EntryAt(mem, t, i).next !in places'
  }

  ghost predicate EntriesLeft(mem: Memory, mem': Memory, places': map<Pfn, Place>) {
    forall t, i: nat {:trigger EntryLeft(mem, mem', places', t, i)} :: EntryLeft(mem, mem', places', t, i)
  }

  /** All that a pass from `v` to `v'` over a table of level `level` keeps and gets done. */
  ghost predicate Pass(m0: Memory, p0: map<Pfn, Place>, m1: Memory, p1: map<Pfn, Place>, root: Pfn, span: nat,
                       level: nat, can: (Pfn, nat) -> bool, v: Vpn, v': Vpn, hi: Vpn)
  {
    && Culled(m0, m1, root, span, v, hi) && CullFrame(m0, p0, m1, p1, level, can)
    && (SweptFrom(m0, root, span, v, hi) ==> SameTranslations(m0, m1, root, span) && SweptFrom(m1, root, span, v', hi))
    && (v' < hi ==> Ahead(m0, m1, root, span, v') && IsCullStep(m0, root, v, v'))
    && Behind(m0, p0, m1, p1, PageOf(Block(v, level), level))
    && Finished(m0, m1, p1, root, can, level, v, v', hi)
    && GoneRight(m0, p0, p1, root, v, v', hi) && EntriesLeft(m0, m1, p1)
  }

  /** The pass has gone over whole entries of the table: `v'` is in a later entry than all pages it came to before. */
  ghost predicate WholeEntries(mem: Memory, root: Pfn, level: nat, v: Vpn, v': Vpn) {
    forall w: Vpn {:trigger IsCullStep(mem, root, v, w)} ::
      IsCullStep(mem, root, v, w) && w < v' ==> Block(w, level) < Block(v', level)
  }

  lemma {:induction false} BehindTrans(m0: Memory, p0: map<Pfn, Place>, m1: Memory, p1: map<Pfn, Place>,
                                       m2: Memory, p2: map<Pfn, Place>, level: nat, can: (Pfn, nat) -> bool, x: Vpn, y: Vpn)
    requires Behind(m0, p0, m1, p1, x) && Behind(m1, p1, m2, p2, y) && x <= y && CullFrame(m0, p0, m1, p1, level, can)
    ensures Behind(m0, p0, m2, p2, x)
  {
    forall t
      ensures TableBehind(m0, p0, m2, p2, x, t)
    {
      assert TableBehind(m0, p0, m1, p1, x, t) && TableBehind(m1, p1, m2, p2, y, t);
      assert TableKept(m0, p0, m1, p1, level, can, t);
    }
  }

  /** A table that the pass came to before lies behind. */
  lemma {:induction false} HitIsBehind(p: Place, level: nat, w: Vpn, mid: Vpn)
    requires p.level < level && Block(w, p.level + 1) == p.block && Block(w, level) < Block(mid, level)
    ensures EndOf(p) <= PageOf(Block(mid, level), level)
  {
    BlockBounds(w, p.level + 1);
    PageOfAligned(Block(w, level), level);
    BlockBounds(w, level);
    PageOfAligned(p.block, p.level + 1);
    BlockStarts(w, PageOf(Block(w, level), level), p.level + 1, level);
    StepWithin(FirstPage(p), PageOf(Block(w, level), level), p.level + 1, level);
    PageOfMono(Block(w, level), Block(mid, level), level);
  }

  /** Going on with a pass over the same table. */
  lemma {:induction false} FinishedTrans(m0: Memory, p0: map<Pfn, Place>, m1: Memory, p1: map<Pfn, Place>,
                                         m2: Memory, p2: map<Pfn, Place>, root: Pfn, span: nat, level: nat,
                                         can: (Pfn, nat) -> bool, v: Vpn, mid: Vpn, v': Vpn, hi: Vpn)
    requires Pass(m0, p0, m1, p1, root, span, level, can, v, mid, hi) && Pass(m1, p1, m2, p2, root, span, level, can, mid, v', hi)
    requires WholeEntries(m0, root, level, v, mid) && v <= mid < hi && v' <= hi && InSpan(mid, span) && InSpan(hi - 1, span)
    ensures Finished(m0, m2, p2, root, can, level, v, v', hi)
  {
    forall t | t in p2 && p2[t].level < level && Visited(m0, root, v, v', p2[t])
      ensures Settled(m0, m2, p2, root, can, v, hi, t)
    {
      assert TableKept(m1, p1, m2, p2, level, can, t);
      var w: Vpn :| Hits(m0, root, v, v', p2[t], w);
      if w < mid {
        assert Hits(m0, root, v, mid, p1[t], w);
        assert Settled(m0, m1, p1, root, can, v, hi, t);
        HitIsBehind(p1[t], level, w, mid);
        assert TableBehind(m1, p1, m2, p2, PageOf(Block(mid, level), level), t);
        SameEntries(m1, m2, t);
      } else {
        LaterSettled(m0, m1, m2, p2, root, span, level, can, v, mid, v', hi, t, w);
      }
    }
  }

  lemma {:induction false} SameEntries(mem: Memory, mem': Memory, t: Pfn)
    requires t in mem ==> t in mem' && mem'[t] == mem[t]
    ensures TableIsEmpty(mem', t) ==> TableIsEmpty(mem, t)
  {
    forall i | TableIsEmpty(mem', t) && 0 <= i < ENTRY_COUNT
      ensures EntryAt(mem, t, i).Absent?
    {
      assert EntryAt(mem', t, i).Absent?;
    }
  }

  lemma {:induction false} LaterSettled(m0: Memory, m1: Memory, m2: Memory, p2: map<Pfn, Place>, root: Pfn, span: nat,
                                        level: nat, can: (Pfn, nat) -> bool, v: Vpn, mid: Vpn, v': Vpn, hi: Vpn, t: Pfn, w: Vpn)
    requires Ahead(m0, m1, root, span, mid) && IsCullStep(m0, root, v, mid) && WholeEntries(m0, root, level, v, mid)
    requires Finished(m1, m2, p2, root, can, level, mid, v', hi) && mid < hi && v' <= hi
    requires InSpan(mid, span) && InSpan(hi - 1, span)
    requires t in p2 && p2[t].level < level && Hits(m0, root, v, v', p2[t], w) && mid <= w
    ensures Settled(m0, m2, p2, root, can, v, hi, t)
  {
    SpanConvex(mid, w, hi - 1, span);
    CullPosVia(m0, root, v, mid, w);
    CullPosAhead(m0, m1, root, span, mid, w);
    assert Hits(m1, root, mid, v', p2[t], w);
    assert Settled(m1, m2, p2, root, can, mid, hi, t);
    var f := FirstPage(p2[t]);
    if CoveredBy(m0, root, v, p2[t], hi) {
      BlockBounds(w, p2[t].level + 1);
      PageOfAligned(p2[t].block, p2[t].level + 1);
      SameBlockAbove(f, w, p2[t].level + 1, level);
      BlockMono(mid, w, level);
      assert f >= mid;
      SpanConvex(mid, f, hi - 1, span);
      CullPosVia(m0, root, v, mid, f);
      CullPosAhead(m0, m1, root, span, mid, f);
      assert CoveredBy(m1, root, mid, p2[t], hi);
    }
  }

  lemma {:induction false} EntriesLeftTrans(m0: Memory, p0: map<Pfn, Place>, m1: Memory, p1: map<Pfn, Place>,
                                            m2: Memory, p2: map<Pfn, Place>, level: nat, can: (Pfn, nat) -> bool)
    requires EntriesLeft(m0, m1, p1) && EntriesLeft(m1, m2, p2) && CullFrame(m1, p1, m2, p2, level, can)
    ensures EntriesLeft(m0, m2, p2)
  {
    forall t, i: nat
      ensures EntryLeft(m0, m2, p2, t, i)
    {
      assert EntryLeft(m0, m1, p1, t, i) && EntryLeft(m1, m2, p2, t, i) && TableKept(m1, p1, m2, p2, level, can, t);
      if EntryAt(m0, t, i).Table? {
        assert TableKept(m1, p1, m2, p2, level, can, EntryAt(m0, t, i).next);
      }
    }
  }

  lemma {:induction false} StillEmptied(m0: Memory, p0: map<Pfn, Place>, m1: Memory, p1: map<Pfn, Place>,
                                        m2: Memory, p2: map<Pfn, Place>, level: nat, can: (Pfn, nat) -> bool, t: Pfn)
    requires CullFrame(m1, p1, m2, p2, level, can)
    ensures Emptied(m0, p1, t) ==> Emptied(m0, p2, t)
    ensures EntriesLeft(m0, m1, p1) && t in p1 && Emptied(m1, p2, t) ==> Emptied(m0, p2, t)
  {
    forall i: nat | i < ENTRY_COUNT
      ensures Emptied(m0, p1, t) ==> EntryAt(m0, t, i).Absent? || (EntryAt(m0, t, i).Table? && EntryAt(m0, t, i).next !in p2)
      ensures EntriesLeft(m0, m1, p1) && t in p1 && Emptied(m1, p2, t) ==>
                EntryAt(m0, t, i).Absent? || (EntryAt(m0, t, i).Table? && EntryAt(m0, t, i).next !in p2)
    {
      assert EntriesLeft(m0, m1, p1) ==> EntryLeft(m0, m1, p1, t, i);
      if EntryAt(m0, t, i).Table? {
        assert TableKept(m1, p1, m2, p2, level, can, EntryAt(m0, t, i).next);
      }
    }
  }

  /** What goes later in a pass goes for the same reasons. */
  lemma {:induction false} GoneLater(m0: Memory, m1: Memory, root: Pfn, span: nat, v: Vpn, mid: Vpn, v': Vpn, hi: Vpn, p: Place)
    requires Ahead(m0, m1, root, span, mid) && IsCullStep(m0, root, v, mid) && v <= mid < hi && v' <= hi
    requires InSpan(mid, span) && InSpan(hi - 1, span) && Visited(m1, root, mid, v', p)
    ensures Visited(m0, root, v, v', p) && (CoveredBy(m1, root, mid, p, hi) ==> CoveredBy(m0, root, v, p, hi))
  {
    var w: Vpn :| Hits(m1, root, mid, v', p, w);
    SpanConvex(mid, w, hi - 1, span);
    CullPosVia(m0, root, v, mid, w);
    CullPosAhead(m0, m1, root, span, mid, w);
    assert Hits(m0, root, v, v', p, w);
    if CoveredBy(m1, root, mid, p, hi) {
      SpanConvex(mid, FirstPage(p), hi - 1, span);
      CullPosVia(m0, root, v, mid, FirstPage(p));
      CullPosAhead(m0, m1, root, span, mid, FirstPage(p));
    }
  }

  lemma {:induction false} GoneTrans(m0: Memory, p0: map<Pfn, Place>, m1: Memory, p1: map<Pfn, Place>,
                                     m2: Memory, p2: map<Pfn, Place>, root: Pfn, span: nat, level: nat,
                                     can: (Pfn, nat) -> bool, v: Vpn, mid: Vpn, v': Vpn, hi: Vpn)
    requires CullFrame(m0, p0, m1, p1, level, can) && CullFrame(m1, p1, m2, p2, level, can) && EntriesLeft(m0, m1, p1)
    requires GoneRight(m0, p0, p1, root, v, mid, hi) && GoneRight(m1, p1, p2, root, mid, v', hi)
    requires Ahead(m0, m1, root, span, mid) && IsCullStep(m0, root, v, mid) && v <= mid < v' <= hi
    requires InSpan(mid, span) && InSpan(hi - 1, span)
    ensures GoneRight(m0, p0, p2, root, v, v', hi)
  {
    forall t
      ensures GoneFor(m0, p0, p2, root, v, v', hi, t)
    {
      assert TableKept(m0, p0, m1, p1, level, can, t) && TableKept(m1, p1, m2, p2, level, can, t);
      StillEmptied(m0, p0, m1, p1, m2, p2, level, can, t);
      if t in p0 && t !in p1 {
        assert GoneFor(m0, p0, p1, root, v, mid, hi, t);
        var w: Vpn :| Hits(m0, root, v, mid, p0[t], w);
        assert Hits(m0, root, v, v', p0[t], w);
      }
      if t in p1 && t !in p2 {
        assert GoneFor(m1, p1, p2, root, mid, v', hi, t);
        GoneLater(m0, m1, root, span, v, mid, v', hi, p1[t]);
      }
    }
  }

  lemma {:induction false} PassRefl(mem: Memory, places: map<Pfn, Place>, root: Pfn, span: nat, level: nat,
                                    can: (Pfn, nat) -> bool, v: Vpn, hi: Vpn)
    ensures Pass(mem, places, mem, places, root, span, level, can, v, v, hi)
    ensures WholeEntries(mem, root, level, v, v) && StaysIn(mem, root, v, v, level + 1)
  {
  }

  lemma {:induction false} PassTrans(m0: Memory, p0: map<Pfn, Place>, m1: Memory, p1: map<Pfn, Place>,
                                     m2: Memory, p2: map<Pfn, Place>, root: Pfn, span: nat, level: nat,
                                     can: (Pfn, nat) -> bool, v: Vpn, mid: Vpn, v': Vpn, hi: Vpn)
    requires Pass(m0, p0, m1, p1, root, span, level, can, v, mid, hi) && Pass(m1, p1, m2, p2, root, span, level, can, mid, v', hi)
    requires WholeEntries(m0, root, level, v, mid) && v <= mid < v' <= hi && InSpan(mid, span) && InSpan(hi - 1, span)
    ensures Pass(m0, p0, m2, p2, root, span, level, can, v, v', hi)
  {
    CulledTrans(m0, m1, m2, root, span, v, mid, hi);
    CullFrameTrans(m0, p0, m1, p1, m2, p2, level, can);
    FinishedTrans(m0, p0, m1, p1, m2, p2, root, span, level, can, v, mid, v', hi);
    if v' < hi {
      AheadTrans(m0, m1, m2, root, span, mid, v');
      SpanConvex(mid, v', hi - 1, span);
      CullPosVia(m0, root, v, mid, v');
      CullPosAhead(m0, m1, root, span, mid, v');
    }
    EntriesLeftTrans(m0, p0, m1, p1, m2, p2, level, can);
    GoneTrans(m0, p0, m1, p1, m2, p2, root, span, level, can, v, mid, v', hi);
    EntryMono(v, mid, level);
    BehindTrans(m0, p0, m1, p1, m2, p2, level, can, PageOf(Block(v, level), level), PageOf(Block(mid, level), level));
  }

  lemma {:induction false} EntryMono(v: Vpn, w: Vpn, level: nat)
    requires v <= w
    ensures PageOf(Block(v, level), level) <= PageOf(Block(w, level), level)
  {
    BlockMono(v, w, level);
    if Block(v, level) < Block(w, level) {
      PageOfMono(Block(v, level), Block(w, level), level);
    }
  }

  /** After one more entry, the pass has still gone over whole entries, and is in the same table. */
  lemma {:induction false} EntriesTrans(m0: Memory, m1: Memory, root: Pfn, span: nat, level: nat, v: Vpn, mid: Vpn, v': Vpn, hi: Vpn)
    requires WholeEntries(m0, root, level, v, mid) && StaysIn(m0, root, v, mid, level + 1) && Block(mid, level + 1) == Block(v, level + 1)
    requires Ahead(m0, m1, root, span, mid) && IsCullStep(m0, root, v, mid) && StaysIn(m1, root, mid, v', level)
    requires mid < v' <= hi && mid < hi && InSpan(mid, span) && InSpan(hi - 1, span)
    requires v' < hi ==> Block(mid, level) < Block(v', level)
    ensures v' < hi ==> WholeEntries(m0, root, level, v, v')
    ensures StaysIn(m0, root, v, v', level + 1)
  {
    forall w: Vpn | IsCullStep(m0, root, v, w) && w < v'
      ensures v' < hi ==> Block(w, level) < Block(v', level)
      ensures Block(w, level + 1) == Block(v, level + 1)
    {
      if w < mid {
        BlockMono(mid, v', level);
      } else {
        SpanConvex(mid, w, hi - 1, span);
        CullPosVia(m0, root, v, mid, w);
        CullPosAhead(m0, m1, root, span, mid, w);
        assert IsCullStep(m1, root, mid, w);
      }
    }
  }

  // ----- One entry -----

  /** `v'` is where a pass goes on after the entry for `v`: past the entry, or at the end of the range. */
  ghost predicate PastEntry(level: nat, v: Vpn, v': Vpn, hi: Vpn) {
    v < v' <= hi && (v' < hi ==> Block(v, level) < Block(v', level))
  }

  lemma {:induction false} PastByPages(level: nat, v: Vpn, v': Vpn, hi: Vpn)
    requires v < v' <= hi && (v' < hi ==> v' == v + LevelPages(level))
    ensures PastEntry(level, v, v', hi)
  {
    BlockBounds(v, level);
    BlockBounds(v', level);
    BlockMono(v, v', level);
  }

  /** The end of a table's span is past the entry for the table. */
  lemma {:induction false} PastTable(level: nat, v: Vpn, v': Vpn, hi: Vpn)
    requires v < v' <= hi && v' >= LevelEnd(v, hi, level)
    ensures PastEntry(level + 1, v, v', hi)
  {
    TableEndBounds(v, level);
    PageOfAligned(Block(v, level + 1) + 1, level + 1);
    if v' < hi {
      BlockMono(TableEnd(v, level), v', level + 1);
    }
  }

  /** If there is a table for `v` of some level, the path of `v` goes down to it. */
  lemma {:induction false} StopsBelow(mem: Memory, root: Pfn, places: map<Pfn, Place>, span: nat, t: Pfn, v: Vpn)
    requires WellFormed(mem, root, places, span) && t in places && Block(v, places[t].level + 1) == places[t].block
    ensures StopLevel(mem, root, ROOT_LEVEL, v) <= places[t].level
  {
    WalkAt(mem, root, places, span, t, v);
  }

  lemma {:induction false} SamePlace(mem: Memory, root: Pfn, places: map<Pfn, Place>, span: nat, t: Pfn, u: Pfn)
    requires WellFormed(mem, root, places, span) && t in places && u in places && places[t] == places[u]
    ensures t == u
  {
    assert OnOwnPath(mem, root, places, span, t) && OnOwnPath(mem, root, places, span, u);
  }

  lemma {:induction false} ModShift(v: nat, k: nat)
    ensures (v + 512 * k) % 512 == v % 512
  {
  }

  /** Moving by whole level-0 tables, a pass keeps its distance from their starts. */
  lemma {:induction false} AlignedShift(v: Vpn, level: nat)
    requires level >= 1
    ensures AlignedForLevel(v + LevelPages(level), 1) <==> AlignedForLevel(v, 1)
    decreases level
  {
    LevelArithmetic(v, 1);
    LevelArithmetic(v + LevelPages(level), 1);
    assert LevelPages(1) == 512;
    ModShift(v, LevelPages(level - 1));
  }

  /** Skipping an entry that is not a table. */
  lemma {:induction false} SkipPass(mem: Memory, places: map<Pfn, Place>, root: Pfn, span: nat, table: Pfn,
                                    can: (Pfn, nat) -> bool, v: Vpn, v': Vpn, hi: Vpn)
    requires WellFormed(mem, root, places, span) && table in places && places[table].level > 0
    requires Block(v, places[table].level + 1) == places[table].block
    requires !EntryAt(mem, table, Index(v, places[table].level)).Table?
    requires v < v' <= hi && v' <= v + LevelPages(places[table].level) && (v' < hi ==> v' == v + LevelPages(places[table].level))
    ensures var level := places[table].level;
            && Pass(mem, places, mem, places, root, span, level, can, v, v', hi)
            && StaysIn(mem, root, v, v', level) && PastEntry(level, v, v', hi)
  {
    var level := places[table].level;
    WalkAt(mem, root, places, span, table, v);
    PastByPages(level, v, v', hi);
    AlignedShift(v, level);
    if v' < hi && SweptFrom(mem, root, span, v, hi) && AlignedForLevel(v, 1) {
      SweptOn(mem, root, span, v, v', hi);
    }
    forall t | t in places && places[t].level < level
      ensures !Visited(mem, root, v, v', places[t])
    {
      if w: Vpn :| Hits(mem, root, v, v', places[t], w) {
        StopsBelow(mem, root, places, span, t, v);
      }
    }
  }

  /** Passing over the entry for a level-0 table, which has no tables below it. */
  lemma {:induction false} LeafPass(mem: Memory, places: map<Pfn, Place>, root: Pfn, span: nat, leaf: Pfn,
                                    can: (Pfn, nat) -> bool, v: Vpn, v': Vpn, hi: Vpn)
    requires WellFormed(mem, root, places, span) && leaf in places && places[leaf] == Place(0, Block(v, 1)) && InSpan(v, span)
    requires v < v' <= hi && v' <= v + LevelPages(1) && (v' < hi ==> v' == v + LevelPages(1)) && InSpan(hi - 1, span)
    ensures Pass(mem, places, mem, places, root, span, 0, can, v, v', hi)
    ensures StaysIn(mem, root, v, v', 1) && PastEntry(1, v, v', hi)
  {
    StopsBelow(mem, root, places, span, leaf, v);
    PastByPages(1, v, v', hi);
    AlignedShift(v, 1);
    if v' < hi {
      SpanConvex(v, v', hi - 1, span);
      if SweptFrom(mem, root, span, v, hi) && AlignedForLevel(v, 1) {
        OnPath(mem, root, places, span, leaf, v);
        PathIsUpward(mem, root, 0, 1, v);
        StepsToEnd(mem, root, span, 1, v);
        SweptOn(mem, root, span, v, v', hi);
      }
    }
  }

  lemma {:induction false} BehindLess(m0: Memory, p0: map<Pfn, Place>, m1: Memory, p1: map<Pfn, Place>, x: Vpn, y: Vpn)
    requires Behind(m0, p0, m1, p1, y) && x <= y
    ensures Behind(m0, p0, m1, p1, x)
  {
    forall t
      ensures TableBehind(m0, p0, m1, p1, x, t)
    {
      assert TableBehind(m0, p0, m1, p1, y, t);
    }
  }

  lemma {:induction false} EntryStarts(v: Vpn, level: nat)
    requires level > 0
    ensures PageOf(Block(v, level), level) <= PageOf(Block(v, level - 1), level - 1)
  {
    BlockBounds(v, level);
    PageOfAligned(Block(v, level), level);
    BlockStarts(v, PageOf(Block(v, level), level), level - 1, level);
  }

  /** The only table of the next level that a pass comes to in one entry is the one behind the entry. */
  lemma {:induction false} OnlyNext(mem: Memory, root: Pfn, places: map<Pfn, Place>, span: nat, m0: Memory, level: nat,
                                    v: Vpn, v': Vpn, next: Pfn, t: Pfn)
    requires level > 0 && WellFormed(mem, root, places, span)
    requires next in places && places[next] == Place(level - 1, Block(v, level)) && StaysIn(m0, root, v, v', level)
    requires t in places && places[t].level == level - 1 && Visited(m0, root, v, v', places[t])
    ensures t == next
  {
    var w: Vpn :| Hits(m0, root, v, v', places[t], w);
    SamePlace(mem, root, places, span, t, next);
  }

  lemma {:induction false} CoveredIsAligned(mem: Memory, root: Pfn, level: nat, v: Vpn, hi: Vpn)
    requires level > 0
    ensures CoveredBy(mem, root, v, Place(level - 1, Block(v, level)), hi) <==>
              AlignedForLevel(v, level) && v + LevelPages(level) <= hi
  {
    BlockBounds(v, level);
  }

  /** The table behind the entry stays. */
  lemma {:induction false} KeptPass(m0: Memory, p0: map<Pfn, Place>, m1: Memory, p1: map<Pfn, Place>, root: Pfn, span: nat,
                                    level: nat, can: (Pfn, nat) -> bool, v: Vpn, v': Vpn, hi: Vpn, next: Pfn)
    requires level > 0 && Pass(m0, p0, m1, p1, root, span, level - 1, can, v, v', hi) && WellFormed(m1, root, p1, span)
    requires StaysIn(m0, root, v, v', level) && next in p1 && p1[next] == Place(level - 1, Block(v, level))
    requires !can(next, level - 1) || (!(AlignedForLevel(v, level) && v + LevelPages(level) <= hi) && !TableIsEmpty(m1, next))
    ensures Pass(m0, p0, m1, p1, root, span, level, can, v, v', hi)
  {
    CullFrameUp(m0, p0, m1, p1, level - 1, can);
    EntryStarts(v, level);
    BehindLess(m0, p0, m1, p1, PageOf(Block(v, level), level), PageOf(Block(v, level - 1), level - 1));
    CoveredIsAligned(m0, root, level, v, hi);
    forall t | t in p1 && p1[t].level < level && Visited(m0, root, v, v', p1[t])
      ensures Settled(m0, m1, p1, root, can, v, hi, t)
    {
      if p1[t].level == level - 1 {
        OnlyNext(m1, root, p1, span, m0, level, v, v', next, t);
      }
    }
  }

  lemma {:induction false} StopElsewhere(mem: Memory, places: map<Pfn, Place>, table: Pfn, index: nat, e: Entry,
                                         start: Pfn, level: nat, v: Vpn)
    requires Placed(mem, places) && table in places && index < ENTRY_COUNT
    requires start in places && places[start] == Place(level, Block(v, level + 1))
    requires !UnderEntry(places[table], index, v)
    ensures StopLevel(SetEntry(mem, table, index, e), start, level, v) == StopLevel(mem, start, level, v)
    decreases level
  {
    var i := Index(v, level);
    UnderEntryIndex(places[table], index, v);
    assert EntryAt(SetEntry(mem, table, index, e), start, i) == EntryAt(mem, start, i);
    assert LinksChild(mem, places, start, i);
    if mem[start][i].Table? {
      StopElsewhere(mem, places, table, index, e, mem[start][i].next, level - 1, v);
    }
  }

  /** Past an entry, nothing changes when the entry does. */
  lemma {:induction false} EntryAhead(mem: Memory, root: Pfn, places: map<Pfn, Place>, span: nat, table: Pfn, v: Vpn, v': Vpn, e: Entry)
    requires WellFormed(mem, root, places, span) && table in places
    requires Block(v, places[table].level + 1) == places[table].block && Block(v, places[table].level) < Block(v', places[table].level)
    ensures Ahead(mem, SetEntry(mem, table, Index(v, places[table].level), e), root, span, v')
  {
    var level, index := places[table].level, Index(v, places[table].level);
    var mem' := SetEntry(mem, table, index, e);
    UnderEntryIndex(places[table], index, v);
    forall u: Vpn | v' <= u && InSpan(u, span)
      ensures PageAhead(mem, mem', root, u)
    {
      BlockMono(v', u, level);
      SetEntryElsewhere(mem, places, table, index, e, root, ROOT_LEVEL, u);
      StopElsewhere(mem, places, table, index, e, root, ROOT_LEVEL, u);
    }
  }

  /** The table behind the entry was unlinked. */
  ghost predicate Unlinked(m1: Memory, p1: map<Pfn, Place>, m2: Memory, p2: map<Pfn, Place>, root: Pfn, span: nat,
                           table: Pfn, level: nat, v: Vpn, next: Pfn, can: (Pfn, nat) -> bool)
  {
    && WellFormed(m1, root, p1, span) && table in p1 && p1[table] == Place(level, Block(v, level + 1)) && level > 0
    && next in p1 && p1[next] == Place(level - 1, Block(v, level)) && can(next, level - 1)
    && m2 == SetEntry(m1, table, Index(v, level), Absent) && p2 == p1 - {next}
  }

  lemma {:induction false} UnlinkedFrame(m1: Memory, p1: map<Pfn, Place>, m2: Memory, p2: map<Pfn, Place>, root: Pfn, span: nat,
                                         table: Pfn, level: nat, v: Vpn, next: Pfn, can: (Pfn, nat) -> bool)
    requires Unlinked(m1, p1, m2, p2, root, span, table, level, v, next, can)
    ensures CullFrame(m1, p1, m2, p2, level, can) && Behind(m1, p1, m2, p2, PageOf(Block(v, level), level))
  {
    forall t
      ensures TableKept(m1, p1, m2, p2, level, can, t)
      ensures TableBehind(m1, p1, m2, p2, PageOf(Block(v, level), level), t)
    {
      BlockBounds(v, level);
      BlockBounds(v, level + 1);
    }
  }

  lemma {:induction false} UnlinkedFinished(m0: Memory, m1: Memory, p1: map<Pfn, Place>, m2: Memory, p2: map<Pfn, Place>,
                                            root: Pfn, span: nat, table: Pfn, level: nat, can: (Pfn, nat) -> bool,
                                            v: Vpn, v': Vpn, hi: Vpn, next: Pfn)
    requires Unlinked(m1, p1, m2, p2, root, span, table, level, v, next, can)
    requires StaysIn(m0, root, v, v', level) && Finished(m0, m1, p1, root, can, level - 1, v, v', hi)
    ensures Finished(m0, m2, p2, root, can, level, v, v', hi)
  {
    forall t | t in p2 && p2[t].level < level && Visited(m0, root, v, v', p2[t])
      ensures Settled(m0, m2, p2, root, can, v, hi, t)
    {
      if p1[t].level == level - 1 {
        OnlyNext(m1, root, p1, span, m0, level, v, v', next, t);
      } else {
        assert Settled(m0, m1, p1, root, can, v, hi, t);
        SameEntries(m1, m2, t);
      }
    }
  }

  lemma {:induction false} UnlinkedEntries(m1: Memory, p1: map<Pfn, Place>, m2: Memory, p2: map<Pfn, Place>, root: Pfn, span: nat,
                                           table: Pfn, level: nat, v: Vpn, next: Pfn, can: (Pfn, nat) -> bool)
    requires Unlinked(m1, p1, m2, p2, root, span, table, level, v, next, can)
    ensures EntriesLeft(m1, m2, p2)
  {
    OnPath(m1, root, p1, span, table, v);
    OnPath(m1, root, p1, span, next, v);
    PathDownTo(m1, root, p1, span, table, level - 1, v);
  }

  lemma {:induction false} UnlinkedGone(m0: Memory, p0: map<Pfn, Place>, m1: Memory, p1: map<Pfn, Place>,
                                        m2: Memory, p2: map<Pfn, Place>, root: Pfn, span: nat, table: Pfn,
                                        level: nat, can: (Pfn, nat) -> bool, v: Vpn, v': Vpn, hi: Vpn, next: Pfn)
    requires Unlinked(m1, p1, m2, p2, root, span, table, level, v, next, can) && v < v'
    requires CullFrame(m0, p0, m1, p1, level, can) && CullFrame(m1, p1, m2, p2, level, can)
    requires EntriesLeft(m0, m1, p1) && GoneRight(m0, p0, p1, root, v, v', hi)
    requires (AlignedForLevel(v, level) && v + LevelPages(level) <= hi) || TableIsEmpty(m1, next)
    ensures GoneRight(m0, p0, p2, root, v, v', hi)
  {
    CoveredIsAligned(m0, root, level, v, hi);
    forall t
      ensures GoneFor(m0, p0, p2, root, v, v', hi, t)
    {
      assert TableKept(m0, p0, m1, p1, level, can, t) && TableKept(m1, p1, m2, p2, level, can, t);
      StillEmptied(m0, p0, m1, p1, m2, p2, level, can, t);
      assert GoneFor(m0, p0, p1, root, v, v', hi, t);
      if t == next && t in p0 {
        assert Hits(m0, root, v, v', p0[t], v);
      }
    }
  }

  lemma {:induction false} UnlinkedPass(m0: Memory, p0: map<Pfn, Place>, m1: Memory, p1: map<Pfn, Place>,
                                        m2: Memory, p2: map<Pfn, Place>, root: Pfn, span: nat, table: Pfn,
                                        level: nat, can: (Pfn, nat) -> bool, v: Vpn, v': Vpn, hi: Vpn, next: Pfn, end: Vpn)
    requires Unlinked(m1, p1, m2, p2, root, span, table, level, v, next, can)
    requires Pass(m0, p0, m1, p1, root, span, level - 1, can, v, v', hi) && StaysIn(m0, root, v, v', level)
    requires PastEntry(level, v, v', hi) && InSpan(v, span) && InSpan(hi - 1, span)
    requires Culled(m1, m2, root, span, v, end)
    requires v <= end <= hi && (end > v ==> AlignedForLevel(v, level) && end == v + LevelPages(level))
    requires end > v ==> StopLevel(m0, root, ROOT_LEVEL, v) <= level
    requires end > v || TableIsEmpty(m1, next)
    ensures Pass(m0, p0, m2, p2, root, span, level, can, v, v', hi)
  {
    UnlinkedFrame(m1, p1, m2, p2, root, span, table, level, v, next, can);
    CullFrameUp(m0, p0, m1, p1, level - 1, can);
    CullFrameTrans(m0, p0, m1, p1, m2, p2, level, can);
    UnlinkedFinished(m0, m1, p1, m2, p2, root, span, table, level, can, v, v', hi, next);
    UnlinkedEntries(m1, p1, m2, p2, root, span, table, level, v, next, can);
    EntriesLeftTrans(m0, p0, m1, p1, m2, p2, level, can);
    UnlinkedGone(m0, p0, m1, p1, m2, p2, root, span, table, level, can, v, v', hi, next);
    CulledWiden(m1, m2, root, span, v, end, hi);
    CulledTrans(m0, m1, m2, root, span, v, v, hi);
    EntryStarts(v, level);
    BehindLess(m0, p0, m1, p1, PageOf(Block(v, level), level), PageOf(Block(v, level - 1), level - 1));
    BehindTrans(m0, p0, m1, p1, m2, p2, level, can, PageOf(Block(v, level), level), PageOf(Block(v, level), level));
    if v' < hi {
      EntryAhead(m1, root, p1, span, table, v, v', Absent);
      AheadTrans(m0, m1, m2, root, span, v', v');
    }
    if SweptFrom(m0, root, span, v, hi) {
      UnlinkedSwept(m0, m1, m2, root, span, level, v, hi, end);
      if v' < hi && AlignedForLevel(v', 1) {
        SpanConvex(v, v', hi - 1, span);
        SweptAhead(m1, m2, root, span, v', hi);
      }
    }
  }

  lemma {:induction false} CulledWiden(mem: Memory, mem': Memory, root: Pfn, span: nat, lo: Vpn, mid: Vpn, hi: Vpn)
    requires Culled(mem, mem', root, span, lo, mid) && mid <= hi
    ensures Culled(mem, mem', root, span, lo, hi)
  {
    forall v: Vpn | InSpan(v, span)
      ensures PageCulled(mem, mem', root, lo, hi, v)
    {
      assert PageCulled(mem, mem', root, lo, mid, v);
    }
  }

  /** In a swept range, a covered table has nothing mapped any more. */
  lemma {:induction false} UnlinkedSwept(m0: Memory, m1: Memory, m2: Memory, root: Pfn, span: nat, level: nat, v: Vpn, hi: Vpn, end: Vpn)
    requires SweptFrom(m0, root, span, v, hi) && SameTranslations(m0, m1, root, span) && Culled(m1, m2, root, span, v, end)
    requires v <= end <= hi && v < hi && level > 0 && InSpan(v, span)
    requires end > v ==> AlignedForLevel(v, level) && StopLevel(m0, root, ROOT_LEVEL, v) <= level
    ensures SameTranslations(m0, m2, root, span)
  {
    if end > v {
      AlignedDown(v, level, 1);
      AlignedDown(v, level, StopLevel(m0, root, ROOT_LEVEL, v));
    }
    forall u: Vpn | InSpan(u, span)
      ensures Walk(m2, root, ROOT_LEVEL, u) == Walk(m0, root, ROOT_LEVEL, u)
    {
      assert PageCulled(m1, m2, root, v, end, u);
      if v <= u < end {
        SweptIsUnmapped(m0, root, span, v, hi, u);
      }
    }
  }

  // ----- The same facts, folded -----

  /** A pass over one entry of a table of level `level`. */
  ghost predicate EntryDone(m0: Memory, p0: map<Pfn, Place>, m1: Memory, p1: map<Pfn, Place>, root: Pfn, span: nat,
                            level: nat, can: (Pfn, nat) -> bool, v: Vpn, v': Vpn, hi: Vpn)
  {
    forall k: nat {:trigger Unfold(k)} :: Unfold(k) ==>
      && Pass(m0, p0, m1, p1, root, span, level, can, v, v', hi)
      && StaysIn(m0, root, v, v', level) && PastEntry(level, v, v', hi)
  }

  /** A pass over the table behind such an entry. */
  ghost predicate BelowDone(m0: Memory, p0: map<Pfn, Place>, m1: Memory, p1: map<Pfn, Place>, root: Pfn, span: nat,
                            level: nat, can: (Pfn, nat) -> bool, v: Vpn, v': Vpn, hi: Vpn)
    requires level > 0
  {
    forall k: nat {:trigger Unfold(k)} :: Unfold(k) ==>
      && Pass(m0, p0, m1, p1, root, span, level - 1, can, v, v', hi)
      && StaysIn(m0, root, v, v', level) && PastEntry(level, v, v', hi)
  }

  /** A pass over some entries of a table of level `level`. */
  ghost predicate LevelDone(m0: Memory, p0: map<Pfn, Place>, m1: Memory, p1: map<Pfn, Place>, root: Pfn, span: nat,
                            level: nat, can: (Pfn, nat) -> bool, v: Vpn, v': Vpn, hi: Vpn)
  {
    forall k: nat {:trigger Unfold(k)} :: Unfold(k) ==>
      && Pass(m0, p0, m1, p1, root, span, level, can, v, v', hi)
      && StaysIn(m0, root, v, v', level + 1) && (v' < hi ==> WholeEntries(m0, root, level, v, v'))
  }

  lemma {:induction false} LevelStart(mem: Memory, places: map<Pfn, Place>, root: Pfn, span: nat, level: nat,
                                      can: (Pfn, nat) -> bool, v: Vpn, hi: Vpn)
    ensures LevelDone(mem, places, mem, places, root, span, level, can, v, v, hi)
  {
    PassRefl(mem, places, root, span, level, can, v, hi);
  }

  lemma {:induction false} LevelStep(m0: Memory, p0: map<Pfn, Place>, m1: Memory, p1: map<Pfn, Place>,
                                     m2: Memory, p2: map<Pfn, Place>, root: Pfn, span: nat, level: nat,
                                     can: (Pfn, nat) -> bool, v: Vpn, mid: Vpn, v': Vpn, hi: Vpn)
    requires LevelDone(m0, p0, m1, p1, root, span, level, can, v, mid, hi) && EntryDone(m1, p1, m2, p2, root, span, level, can, mid, v', hi)
    requires v <= mid < hi && Block(mid, level + 1) == Block(v, level + 1) && InSpan(mid, span) && InSpan(hi - 1, span)
    ensures LevelDone(m0, p0, m2, p2, root, span, level, can, v, v', hi)
  {
    assert Unfold(0);
    EntriesTrans(m0, m1, root, span, level, v, mid, v', hi);
    PassTrans(m0, p0, m1, p1, m2, p2, root, span, level, can, v, mid, v', hi);
  }

  lemma {:induction false} LevelToBelow(m0: Memory, p0: map<Pfn, Place>, m1: Memory, p1: map<Pfn, Place>, root: Pfn, span: nat,
                                        level: nat, can: (Pfn, nat) -> bool, v: Vpn, v': Vpn, hi: Vpn)
    requires level > 0 && LevelDone(m0, p0, m1, p1, root, span, level - 1, can, v, v', hi)
    requires v < v' <= hi && v' >= LevelEnd(v, hi, level - 1)
    ensures BelowDone(m0, p0, m1, p1, root, span, level, can, v, v', hi)
  {
    assert Unfold(0);
    PastTable(level - 1, v, v', hi);
  }

  lemma {:induction false} BelowKeeps(m0: Memory, p0: map<Pfn, Place>, m1: Memory, p1: map<Pfn, Place>, root: Pfn, span: nat,
                                      level: nat, can: (Pfn, nat) -> bool, v: Vpn, v': Vpn, hi: Vpn, t: Pfn)
    requires level > 0 && BelowDone(m0, p0, m1, p1, root, span, level, can, v, v', hi)
    ensures TableKept(m0, p0, m1, p1, level - 1, can, t)
  {
    assert Unfold(0);
  }

  lemma {:induction false} LevelKeeps(m0: Memory, p0: map<Pfn, Place>, m1: Memory, p1: map<Pfn, Place>, root: Pfn, span: nat,
                                      level: nat, can: (Pfn, nat) -> bool, v: Vpn, v': Vpn, hi: Vpn, t: Pfn)
    requires LevelDone(m0, p0, m1, p1, root, span, level, can, v, v', hi)
    ensures TableKept(m0, p0, m1, p1, level, can, t)
  {
    assert Unfold(0);
  }

  lemma {:induction false} LeafDone(mem: Memory, places: map<Pfn, Place>, root: Pfn, span: nat, leaf: Pfn,
                                    can: (Pfn, nat) -> bool, v: Vpn, v': Vpn, hi: Vpn)
    requires WellFormed(mem, root, places, span) && leaf in places && places[leaf] == Place(0, Block(v, 1)) && InSpan(v, span)
    requires v < v' <= hi && v' <= v + LevelPages(1) && (v' < hi ==> v' == v + LevelPages(1)) && InSpan(hi - 1, span)
    ensures BelowDone(mem, places, mem, places, root, span, 1, can, v, v', hi)
  {
    LeafPass(mem, places, root, span, leaf, can, v, v', hi);
  }

  lemma {:induction false} SkipDone(mem: Memory, places: map<Pfn, Place>, root: Pfn, span: nat, table: Pfn, level: nat,
                                    can: (Pfn, nat) -> bool, v: Vpn, v': Vpn, hi: Vpn)
    requires WellFormed(mem, root, places, span) && table in places && places[table] == Place(level, Block(v, level + 1))
    requires level > 0 && !EntryAt(mem, table, Index(v, level)).Table?
    requires v < v' <= hi && v' <= v + LevelPages(level) && (v' < hi ==> v' == v + LevelPages(level))
    ensures EntryDone(mem, places, mem, places, root, span, level, can, v, v', hi)
  {
    SkipPass(mem, places, root, span, table, can, v, v', hi);
  }

  /** What becomes of the table behind an entry once the pass over it is done. */
  ghost predicate LinkDone(m1: Memory, p1: map<Pfn, Place>, m2: Memory, p2: map<Pfn, Place>, root: Pfn, span: nat,
                           table: Pfn, level: nat, v: Vpn, next: Pfn, covered: bool, can: (Pfn, nat) -> bool)
    requires level > 0
  {
    if can(next, level - 1) && (covered || TableIsEmpty(m1, next))
    then Unlinked(m1, p1, m2, p2, root, span, table, level, v, next, can) else m2 == m1 && p2 == p1
  }

  lemma {:induction false} TableDone(m0: Memory, p0: map<Pfn, Place>, m1: Memory, p1: map<Pfn, Place>,
                                     m2: Memory, p2: map<Pfn, Place>, root: Pfn, span: nat, table: Pfn,
                                     level: nat, can: (Pfn, nat) -> bool, v: Vpn, v': Vpn, hi: Vpn, next: Pfn, covered: bool)
    requires level > 0 && BelowDone(m0, p0, m1, p1, root, span, level, can, v, v', hi) && WellFormed(m1, root, p1, span)
    requires next in p1 && p1[next] == Place(level - 1, Block(v, level))
    requires LinkDone(m1, p1, m2, p2, root, span, table, level, v, next, covered, can)
    requires covered <==> AlignedForLevel(v, level) && v + LevelPages(level) <= hi
    requires Culled(m1, m2, root, span, v, if covered then v + LevelPages(level) else v)
    requires StopLevel(m0, root, ROOT_LEVEL, v) <= level && InSpan(v, span) && hi > 0 && InSpan(hi - 1, span)
    ensures EntryDone(m0, p0, m2, p2, root, span, level, can, v, v', hi)
  {
    assert Unfold(0);
    if can(next, level - 1) && (covered || TableIsEmpty(m1, next)) {
      UnlinkedPass(m0, p0, m1, p1, m2, p2, root, span, table, level, can, v, v', hi, next,
                   if covered then v + LevelPages(level) else v);
    } else {
      KeptPass(m0, p0, m1, p1, root, span, level, can, v, v', hi, next);
    }
  }

  /** What a culling pass over `lo..hi` as a whole gets done. */
  ghost predicate CullDone(m0: Memory, p0: map<Pfn, Place>, m1: Memory, p1: map<Pfn, Place>, root: Pfn, span: nat,
                           can: (Pfn, nat) -> bool, lo: Vpn, hi: Vpn)
  {
    forall k: nat {:trigger Unfold(k)} :: Unfold(k) ==>
      && Culled(m0, m1, root, span, lo, hi) && Shrunk(p0, p1, ROOT_LEVEL) && OnlyCullable(p0, p1, can)
      && Finished(m0, m1, p1, root, can, ROOT_LEVEL, lo, hi, hi) && GoneRight(m0, p0, p1, root, lo, hi, hi)
      && (Swept(m0, root, span, lo, hi) ==> SameTranslations(m0, m1, root, span))
  }

  lemma {:induction false} RootDone(m0: Memory, p0: map<Pfn, Place>, m1: Memory, p1: map<Pfn, Place>, root: Pfn, span: nat,
                                    can: (Pfn, nat) -> bool, lo: Vpn, hi: Vpn)
    requires LevelDone(m0, p0, m1, p1, root, span, ROOT_LEVEL, can, lo, hi, hi)
    ensures CullDone(m0, p0, m1, p1, root, span, can, lo, hi)
  {
    assert Unfold(0);
    FrameShrinks(m0, p0, m1, p1, ROOT_LEVEL, can);
  }

  lemma {:induction false} NothingToCull(mem: Memory, places: map<Pfn, Place>, root: Pfn, span: nat,
                                         can: (Pfn, nat) -> bool, v: Vpn)
    ensures CullDone(mem, places, mem, places, root, span, can, v, v)
  {
    PassRefl(mem, places, root, span, ROOT_LEVEL, can, v, v);
    FrameShrinks(mem, places, mem, places, ROOT_LEVEL, can);
  }

  // ----- Passes over a whole table -----

  /** If the range covers all of the table, one more entry is done. */
  ghost predicate WholeSoFar(mem: Memory, table: Pfn, level: nat, start: Vpn, v: Vpn, whole: bool, mayCull: bool, hi: Vpn) {
    forall k: nat {:trigger Unfold(k)} :: Unfold(k) && whole ==>
      WholePass(mem, table, level, start, v, mayCull) && start + LevelPages(level + 1) <= hi
  }

  lemma {:induction false} WholeStart(mem: Memory, table: Pfn, level: nat, start: Vpn, whole: bool, mayCull: bool, hi: Vpn)
    requires whole ==> AlignedForLevel(start, level + 1) && start + LevelPages(level + 1) <= hi
    ensures WholeSoFar(mem, table, level, start, start, whole, mayCull, hi)
    ensures whole ==> TableEnd(start, level) == start + LevelPages(level + 1)
  {
    if whole {
      WholePassStart(mem, table, level, start, mayCull);
    }
  }

  lemma {:induction false} WholeStep(mem: Memory, mem': Memory, table: Pfn, level: nat, start: Vpn, v: Vpn, v': Vpn,
                                     whole: bool, mayCull: bool, hi: Vpn)
    requires WholeSoFar(mem, table, level, start, v, whole, mayCull, hi) && v < TableEnd(start, level)
    requires forall i :: 0 <= i < ENTRY_COUNT && i != Index(v, level) ==> EntryAt(mem', table, i) == EntryAt(mem, table, i)
    requires whole ==> v' == v + LevelPages(level) && (mayCull ==> !EntryAt(mem', table, Index(v, level)).Table?)
    ensures WholeSoFar(mem', table, level, start, v', whole, mayCull, hi)
  {
    if whole {
      assert Unfold(0);
      WholePassStep(mem, mem', table, level, start, v, mayCull);
    }
  }

  /** A pass over all of a table covers each of its entries. */
  lemma {:induction false} WholeCovers(mem: Memory, table: Pfn, level: nat, start: Vpn, v: Vpn, whole: bool, mayCull: bool, hi: Vpn)
    requires WholeSoFar(mem, table, level, start, v, whole, mayCull, hi) && v < TableEnd(start, level)
    ensures whole ==> AlignedForLevel(v, level) && v + LevelPages(level) <= hi
  {
    if whole {
      assert Unfold(0);
      WholePassCovers(mem, table, level, start, v, mayCull);
      AlignedTable(start, level);
    }
  }

  lemma {:induction false} WholeEnd(mem: Memory, table: Pfn, level: nat, start: Vpn, v: Vpn, whole: bool, mayCull: bool, hi: Vpn)
    requires WholeSoFar(mem, table, level, start, v, whole, mayCull, hi) && v >= LevelEnd(start, hi, level)
    ensures whole ==> v == TableEnd(start, level) && (mayCull ==> NoChildTables(mem, table))
  {
    if whole {
      assert Unfold(0);
      AlignedTable(start, level);
      WholePassEnd(mem, table, level, start, mayCull);
    }
  }

  // ----- Every candidate -----

  /** `v` is the first page of the entry that a culling pass steps over from it. */
  predicate AlignedCull(mem: Memory, root: Pfn, v: Vpn) {
    AlignedForLevel(v, AtLeastOne(StopLevel(mem, root, ROOT_LEVEL, v)))
  }

  lemma {:induction false} CullNextAligned(mem: Memory, root: Pfn, v: Vpn)
    requires AlignedCull(mem, root, v) && Block(CullNext(mem, root, v), ROOT_LEVEL + 1) == Block(v, ROOT_LEVEL + 1)
    ensures AlignedCull(mem, root, CullNext(mem, root, v))
  {
    var stop := StopLevel(mem, root, ROOT_LEVEL, v);
    var level := AtLeastOne(stop);
    StopTable(mem, root, ROOT_LEVEL, v, root);
    PathIsUpward(mem, root, stop, level, v);
    PageOfNext(Block(v, level), level);
    PageOfAligned(Block(v, level) + 1, level);
    ClimbOut(mem, root, v, CullNext(mem, root, v), level);
    AlignedDown(CullNext(mem, root, v), level, 1);
  }

  lemma {:induction false} CullStepsAligned(mem: Memory, root: Pfn, span: nat, lo: Vpn, v: Vpn)
    requires AlignedCull(mem, root, lo) && lo <= v && InSpan(lo, span) && InSpan(v, span)
    ensures AlignedCull(mem, root, CullPos(mem, root, lo, v)) && IsCullStep(mem, root, lo, CullPos(mem, root, lo, v))
    decreases v - lo
  {
    var next := CullNext(mem, root, lo);
    if next <= v {
      SpanConvex(lo, next, v, span);
      CullNextAligned(mem, root, lo);
      CullStepsAligned(mem, root, span, next, v);
      CullPosVia(mem, root, lo, next, CullPos(mem, root, next, v));
    }
  }

  /** A pass that starts with the first page of an entry comes to every table below the root that has a page in the range. */
  lemma {:induction false} CandidateVisited(mem: Memory, places: map<Pfn, Place>, root: Pfn, span: nat,
                                            lo: Vpn, hi: Vpn, t: Pfn, v: Vpn)
    requires WellFormed(mem, root, places, span) && t in places && Block(v, places[t].level + 1) == places[t].block
    requires AlignedCull(mem, root, lo) && lo <= v < hi && InSpan(lo, span) && InSpan(v, span)
    ensures Visited(mem, root, lo, hi, places[t])
  {
    var x := CullPos(mem, root, lo, v);
    var stop := StopLevel(mem, root, ROOT_LEVEL, x);
    var level := AtLeastOne(stop);
    CullStepsAligned(mem, root, span, lo, v);
    BlockUnique(v, level, Block(x, level));
    StopsBelow(mem, root, places, span, t, v);
    if stop > 0 {
      SameStop(mem, root, ROOT_LEVEL, x, v);
    }
    SameBlockAbove(v, x, level, places[t].level + 1);
    assert Hits(mem, root, lo, hi, places[t], x);
  }

  lemma {:induction false} FirstPageVisited(mem: Memory, places: map<Pfn, Place>, root: Pfn, span: nat, lo: Vpn, t: Pfn, v: Vpn)
    requires WellFormed(mem, root, places, span) && t in places && Block(v, places[t].level + 1) == places[t].block
    requires AlignedCull(mem, root, lo) && lo <= FirstPage(places[t]) && InSpan(lo, span) && InSpan(v, span)
    ensures IsCullStep(mem, root, lo, FirstPage(places[t]))
  {
    var p := places[t];
    var first := FirstPage(p);
    BlockBounds(v, p.level + 1);
    PageOfAligned(p.block, p.level + 1);
    SpanConvex(lo, first, v, span);
    CandidateVisited(mem, places, root, span, lo, first + 1, t, first);
    var w: Vpn :| Hits(mem, root, lo, first + 1, p, w);
    BlockBounds(w, p.level + 1);
  }

  /** Then a table below the root that has a page in the range and may be culled is left only if it is not empty and the range
      does not cover its span. */
  lemma {:induction false} CullsAll(m0: Memory, p0: map<Pfn, Place>, m1: Memory, p1: map<Pfn, Place>, root: Pfn, span: nat,
                                    can: (Pfn, nat) -> bool, lo: Vpn, hi: Vpn, t: Pfn, v: Vpn)
    requires WellFormed(m0, root, p0, span) && CullDone(m0, p0, m1, p1, root, span, can, lo, hi)
    requires AlignedCull(m0, root, lo) && lo <= v < hi && InSpan(lo, span) && InSpan(v, span)
    requires t in p1 && p1[t].level < ROOT_LEVEL && Block(v, p1[t].level + 1) == p1[t].block && can(t, p1[t].level)
    ensures !TableIsEmpty(m1, t) && !(lo <= FirstPage(p1[t]) && EndOf(p1[t]) <= hi)
  {
    assert Unfold(0);
    assert p1[t] == p0[t];
    CandidateVisited(m0, p0, root, span, lo, hi, t, v);
    assert Settled(m0, m1, p1, root, can, lo, hi, t);
    if lo <= FirstPage(p1[t]) {
      FirstPageVisited(m0, p0, root, span, lo, t, v);
    }
  }
}
