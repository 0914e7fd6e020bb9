/** What unmapping or reprotecting a range of pages means for the translation, step by step. */
module PageUpdate {
  import opened MemTypes
  import opened PageTree
  import opened PageMap

  // ----- What a walking update means -----

  datatype Update = Unmap | Protect(perms: Perms)

  /** New permission bits; the global bit can be added but not removed. */
  function Reprotect(a: Attrs, perms: Perms): Attrs {
    a.(writable := perms.write, user := perms.user, noExec := !perms.execute, global := a.global || perms.global)
  }

  function ApplyToEntry(u: Update, e: Entry): Entry {
    match u
    case Unmap => Absent
    case Protect(perms) => if e.Page? then Page(e.frame, Reprotect(e.attrs, perms)) else e
  }

  function Apply(u: Update, tr: Option<Translation>): Option<Translation> {
    match (u, tr)
    case (Protect(perms), Some(t)) => Some(t.(attrs := Reprotect(t.attrs, perms)))
    case _ => None
  }

  const MAX_PAGE_INVALIDATIONS: nat := 10

  /** The invalidations gathered so far: a bounded list, or a full flush once it overflows. */
  datatype Gather = Specific(pages: seq<Vpn>) | All {
    function AddTlbFlush(v: Vpn): Gather {
      if Specific? && |pages| < MAX_PAGE_INVALIDATIONS then Specific(pages + [v]) else All
    }

    predicate Covers(v: Vpn) {
      All? || v in pages
    }
  }

  // ----- The steps of a walk -----

  /** The level of the entry at which the path of `v` stops, be it a page or empty. */
  function StopLevel(mem: Memory, table: Pfn, level: nat, v: Vpn): (stop: nat)
    ensures stop <= level
    decreases level
  {
    match EntryAt(mem, table, Index(v, level))
    case Table(next) => if level == 0 then level else StopLevel(mem, next, level - 1, v)
    case _ => level
  }

  /** Where a walk goes on after `v`: one whole entry of the level at which the path of `v` stops. */
  function NextStop(mem: Memory, root: Pfn, v: Vpn): (next: Vpn)
    ensures v < next
  {
    v + LevelPages(StopLevel(mem, root, ROOT_LEVEL, v))
  }

  /** The step of a walk from `lo` that passes over `v`. */
  function StepOf(mem: Memory, root: Pfn, lo: Vpn, v: Vpn): (step: Vpn)
    requires lo <= v
    ensures lo <= step <= v < NextStop(mem, root, step)
    decreases v - lo
  {
    if v < NextStop(mem, root, lo) then lo else StepOf(mem, root, NextStop(mem, root, lo), v)
  }

  /** A walk from `lo` takes a step at `v`. */
  predicate IsStep(mem: Memory, root: Pfn, lo: Vpn, v: Vpn) {
    lo <= v && StepOf(mem, root, lo, v) == v
  }

  lemma {:induction false} StepOfVia(mem: Memory, root: Pfn, lo: Vpn, mid: Vpn, v: Vpn)
    requires IsStep(mem, root, lo, mid) && mid <= v
    ensures StepOf(mem, root, lo, v) == StepOf(mem, root, mid, v)
    decreases mid - lo
  {
    if NextStop(mem, root, lo) <= mid {
      StepOfVia(mem, root, NextStop(mem, root, lo), mid, v);
    }
  }

  ghost predicate StopKept(mem: Memory, mem': Memory, root: Pfn, v: Vpn) {
    StopLevel(mem', root, ROOT_LEVEL, v) == StopLevel(mem, root, ROOT_LEVEL, v)
  }

  ghost predicate SameStops(mem: Memory, mem': Memory, root: Pfn, span: nat) {
    forall v: Vpn {:trigger StopKept(mem, mem', root, v)} :: InSpan(v, span) ==> StopKept(mem, mem', root, v)
  }

  lemma {:induction false} StepOfSame(mem: Memory, mem': Memory, root: Pfn, span: nat, lo: Vpn, v: Vpn)
    requires SameStops(mem, mem', root, span) && lo <= v && InSpan(lo, span) && InSpan(v, span)
    ensures StepOf(mem', root, lo, v) == StepOf(mem, root, lo, v)
    decreases v - lo
  {
    assert StopKept(mem, mem', root, lo);
    if NextStop(mem, root, lo) <= v {
      BlockMono(lo, NextStop(mem, root, lo), ROOT_LEVEL + 1);
      BlockMono(NextStop(mem, root, lo), v, ROOT_LEVEL + 1);
      StepOfSame(mem, mem', root, span, NextStop(mem, root, lo), v);
    }
  }

  /** Below a table on its path, a walk stops where it stops when started there. */
  lemma {:induction false} StopVia(mem: Memory, root: Pfn, level: nat, v: Vpn)
    requires level <= ROOT_LEVEL && TableAt(mem, root, level, v).Some?
    ensures StopLevel(mem, root, ROOT_LEVEL, v) == StopLevel(mem, TableAt(mem, root, level, v).value, level, v)
    decreases ROOT_LEVEL - level
  {
    if level < ROOT_LEVEL {
      StopVia(mem, root, level + 1, v);
    }
  }

  /** A walk and its stopping level, seen from a table on the path. */
  lemma {:induction false} WalkAt(mem: Memory, root: Pfn, places: map<Pfn, Place>, span: nat, table: Pfn, v: Vpn)
    requires WellFormed(mem, root, places, span) && table in places
    requires Block(v, places[table].level + 1) == places[table].block
    ensures Walk(mem, root, ROOT_LEVEL, v) == Walk(mem, table, places[table].level, v)
    ensures StopLevel(mem, root, ROOT_LEVEL, v) == StopLevel(mem, table, places[table].level, v)
  {
    OnPath(mem, root, places, span, table, v);
    WalkVia(mem, root, places[table].level, v);
    StopVia(mem, root, places[table].level, v);
  }

  // ----- The effect of a walk -----

  /** Page `v` has been updated exactly if it is in `lo..hi` and the step over it starts in a mapped page;
      and if its translation changed, its entry's first page is to be flushed. */
  ghost predicate PageUpdated(mem: Memory, mem': Memory, root: Pfn, u: Update, lo: Vpn, hi: Vpn, g: Gather, v: Vpn) {
    var was, now := Walk(mem, root, ROOT_LEVEL, v), Walk(mem', root, ROOT_LEVEL, v);
    && now == (if lo <= v < hi && Walk(mem, root, ROOT_LEVEL, StepOf(mem, root, lo, v)).Some? then Apply(u, was) else was)
    && (now != was ==> was.Some? && g.Covers(PageOf(Block(v, was.value.level), was.value.level)))
  }

  ghost predicate Updated(mem: Memory, mem': Memory, root: Pfn, span: nat, u: Update, lo: Vpn, hi: Vpn, g: Gather) {
    && lo <= hi
    && SameStops(mem, mem', root, span)
    && forall v: Vpn {:trigger PageUpdated(mem, mem', root, u, lo, hi, g, v)} ::
         InSpan(v, span) ==> PageUpdated(mem, mem', root, u, lo, hi, g, v)
  }

  ghost predicate Gathers(g: Gather, g': Gather) {
    forall v :: g.Covers(v) ==> g'.Covers(v)
  }

  lemma {:induction false} UpdatedTrans(m0: Memory, m1: Memory, m2: Memory, root: Pfn, span: nat, u: Update,
                                        lo: Vpn, mid: Vpn, hi: Vpn, g: Gather, g': Gather)
    requires Updated(m0, m1, root, span, u, lo, mid, g)
    requires Updated(m1, m2, root, span, u, mid, hi, g') && Gathers(g, g')
    requires mid < hi ==> IsStep(m0, root, lo, mid) && InSpan(mid, span)
    ensures Updated(m0, m2, root, span, u, lo, hi, g')
  {
    forall v: Vpn | InSpan(v, span)
      ensures PageUpdated(m0, m2, root, u, lo, hi, g', v) && StopKept(m0, m2, root, v)
    {
      assert StopKept(m0, m1, root, v) && StopKept(m1, m2, root, v);
      assert PageUpdated(m0, m1, root, u, lo, mid, g, v);
      assert PageUpdated(m1, m2, root, u, mid, hi, g', v);
      if mid <= v < hi {
        StepOfVia(m0, root, lo, mid, v);
        StepOfSame(m0, m1, root, span, mid, v);
        var x := StepOf(m0, root, mid, v);
        BlockMono(mid, x, ROOT_LEVEL + 1);
        BlockMono(x, v, ROOT_LEVEL + 1);
        assert PageUpdated(m0, m1, root, u, lo, mid, g, x);
      }
    }
  }

  lemma {:induction false} SameStopsRefl(mem: Memory, root: Pfn, span: nat, u: Update, v: Vpn, g: Gather)
    ensures Updated(mem, mem, root, span, u, v, v, g)
  {
  }

  lemma {:induction false} IsStepTrans(m0: Memory, m1: Memory, root: Pfn, span: nat, lo: Vpn, mid: Vpn, v: Vpn)
    requires SameStops(m0, m1, root, span) && InSpan(mid, span) && InSpan(v, span)
    requires IsStep(m0, root, lo, mid) && IsStep(m1, root, mid, v)
    ensures IsStep(m0, root, lo, v)
  {
    StepOfVia(m0, root, lo, mid, v);
    StepOfSame(m0, m1, root, span, mid, v);
  }

  // ----- Large pages that stick out -----

  /** If `v` is mapped, it is the first page of its entry, and the entry ends by `hi`. */
  ghost predicate FitsFrom(mem: Memory, root: Pfn, v: Vpn, hi: Vpn) {
    var tr := Walk(mem, root, ROOT_LEVEL, v);
    tr.Some? ==> AlignedForLevel(v, tr.value.level) && v + LevelPages(tr.value.level) <= hi
  }

  /** The walk from `lo` steps, before `upto`, on no entry that starts before the step or ends after `hi`. */
  ghost predicate StepsFit(mem: Memory, root: Pfn, span: nat, lo: Vpn, upto: Vpn, hi: Vpn) {
    forall v: Vpn {:trigger IsStep(mem, root, lo, v)} ::
      IsStep(mem, root, lo, v) && v < upto && InSpan(v, span) ==> FitsFrom(mem, root, v, hi)
  }

  lemma {:induction false} StepsFitTrans(m0: Memory, m1: Memory, root: Pfn, span: nat, u: Update,
                                         lo: Vpn, mid: Vpn, upto: Vpn, hi: Vpn, g: Gather)
    requires Updated(m0, m1, root, span, u, lo, mid, g) && StepsFit(m0, root, span, lo, mid, hi)
    requires IsStep(m0, root, lo, mid) && InSpan(mid, span) && lo <= mid && StepsFit(m1, root, span, mid, upto, hi)
    ensures StepsFit(m0, root, span, lo, upto, hi)
  {
    forall v: Vpn | IsStep(m0, root, lo, v) && v < upto && InSpan(v, span)
      ensures FitsFrom(m0, root, v, hi)
    {
      if v >= mid {
        StepOfVia(m0, root, lo, mid, v);
        StepOfSame(m0, m1, root, span, mid, v);
        assert IsStep(m1, root, mid, v);
        assert PageUpdated(m0, m1, root, u, lo, mid, g, v);
      }
    }
  }

  // ----- What is gathered -----

  /** The walk writes an entry when it is at `v`: a page, or any entry of a level-0 table. */
  predicate WritesAt(mem: Memory, root: Pfn, v: Vpn) {
    StopLevel(mem, root, ROOT_LEVEL, v) == 0 || Walk(mem, root, ROOT_LEVEL, v).Some?
  }

  /** The pages at which a walk from `v` writes an entry before `end`. */
  function Written(mem: Memory, root: Pfn, v: Vpn, end: Vpn): seq<Vpn>
    decreases if v < end then end - v else 0
  {
    if v >= end then [] else (if WritesAt(mem, root, v) then [v] else []) + Written(mem, root, NextStop(mem, root, v), end)
  }

  /** `g` asks for just these pages to be flushed, or for everything if they are more than ten. */
  predicate Lists(g: Gather, pages: seq<Vpn>) {
    g == if |pages| <= MAX_PAGE_INVALIDATIONS then Specific(pages) else All
  }

  ghost predicate AddsTo(g: Gather, g': Gather, before: seq<Vpn>, pages: seq<Vpn>) {
    Lists(g, before) ==> Lists(g', before + pages)
  }

  /** From `g` on, these pages have been added. */
  ghost predicate Adds(g: Gather, g': Gather, pages: seq<Vpn>) {
    forall before: seq<Vpn> {:trigger AddsTo(g, g', before, pages)} :: AddsTo(g, g', before, pages)
  }

  lemma {:induction false} AddsTrans(g: Gather, g': Gather, g'': Gather, a: seq<Vpn>, b: seq<Vpn>)
    requires Adds(g, g', a) && Adds(g', g'', b)
    ensures Adds(g, g'', a + b)
  {
    forall before: seq<Vpn>
      ensures AddsTo(g, g'', before, a + b)
    {
      assert AddsTo(g, g', before, a) && AddsTo(g', g'', before + a, b);
      assert before + (a + b) == before + a + b;
    }
  }

  lemma {:induction false} AddsNone(g: Gather)
    ensures Adds(g, g, [])
  {
    forall before: seq<Vpn>
      ensures AddsTo(g, g, before, [])
    {
      assert before + [] == before;
    }
  }

  lemma {:induction false} AddsOne(g: Gather, v: Vpn)
    ensures Adds(g, g.AddTlbFlush(v), [v]) && Gathers(g, g.AddTlbFlush(v))
  {
  }

  lemma {:induction false} WrittenVia(mem: Memory, root: Pfn, lo: Vpn, mid: Vpn, end: Vpn)
    requires IsStep(mem, root, lo, mid) && mid <= end
    ensures Written(mem, root, lo, end) == Written(mem, root, lo, mid) + Written(mem, root, mid, end)
    decreases mid - lo
  {
    if lo < mid {
      var next := NextStop(mem, root, lo);
      WrittenVia(mem, root, next, mid, end);
    }
  }

  /** What a walk has still to write does not depend on what it has updated. */
  lemma {:induction false} WrittenSame(m0: Memory, m1: Memory, root: Pfn, span: nat, u: Update, lo: Vpn, mid: Vpn, v: Vpn, end: Vpn, g: Gather)
    requires Updated(m0, m1, root, span, u, lo, mid, g) && mid <= v && InSpan(mid, span)
    requires v < end ==> InSpan(end - 1, span)
    ensures Written(m1, root, v, end) == Written(m0, root, v, end)
    decreases if v < end then end - v else 0
  {
    if v < end {
      SpanConvex(mid, v, end - 1, span);
      assert StopKept(m0, m1, root, v) && PageUpdated(m0, m1, root, u, lo, mid, g, v);
      WrittenSame(m0, m1, root, span, u, lo, mid, NextStop(m0, root, v), end, g);
    }
  }

  /** A walk from `lo` towards `end` has come to `v`: it has updated what it passed, met no entry that does not fit, and added the
      pages at which it wrote an entry to those to be flushed. */
  ghost predicate WalkedTo(mem: Memory, mem': Memory, root: Pfn, span: nat, u: Update, lo: Vpn, v: Vpn, end: Vpn,
                           g: Gather, g': Gather)
  {
    forall k: nat {:trigger Unfold(k)} :: Unfold(k) ==>
      && Updated(mem, mem', root, span, u, lo, v, g') && StepsFit(mem, root, span, lo, v, end)
      && (v == end || IsStep(mem, root, lo, v))
      && Gathers(g, g') && Adds(g, g', Written(mem, root, lo, v))
  }

  lemma {:induction false} WalkedRefl(mem: Memory, root: Pfn, span: nat, u: Update, v: Vpn, end: Vpn, g: Gather)
    ensures WalkedTo(mem, mem, root, span, u, v, v, end, g, g)
  {
    SameStopsRefl(mem, root, span, u, v, g);
    AddsNone(g);
  }

  lemma {:induction false} WalkedTrans(m0: Memory, m1: Memory, m2: Memory, root: Pfn, span: nat, u: Update,
                                       lo: Vpn, mid: Vpn, v: Vpn, end: Vpn, g0: Gather, g: Gather, g': Gather)
    requires WalkedTo(m0, m1, root, span, u, lo, mid, end, g0, g) && WalkedTo(m1, m2, root, span, u, mid, v, end, g, g')
    requires mid < end && v <= end && InSpan(mid, span) && InSpan(end - 1, span)
    ensures WalkedTo(m0, m2, root, span, u, lo, v, end, g0, g')
  {
    assert Unfold(0);
    StepsFitTrans(m0, m1, root, span, u, lo, mid, v, end, g);
    UpdatedTrans(m0, m1, m2, root, span, u, lo, mid, v, g, g');
    if v < end {
      SpanConvex(mid, v, end - 1, span);
      IsStepTrans(m0, m1, root, span, lo, mid, v);
    }
    if mid < v {
      SpanConvex(mid, v - 1, end - 1, span);
    }
    WrittenVia(m0, root, lo, mid, v);
    WrittenSame(m0, m1, root, span, u, lo, mid, mid, v, g);
    AddsTrans(g0, g, g', Written(m0, root, lo, mid), Written(m1, root, mid, v));
  }

  /** Within one step there is no other. */
  lemma {:induction false} OneStepFits(mem: Memory, root: Pfn, span: nat, v: Vpn, upto: Vpn, hi: Vpn)
    requires FitsFrom(mem, root, v, hi) && upto <= NextStop(mem, root, v)
    ensures StepsFit(mem, root, span, v, upto, hi)
  {
  }

  /** Updating the entry that stops an aligned page's path is one step of the walk. */
  lemma {:induction false} UpdateEntry(mem: Memory, root: Pfn, places: map<Pfn, Place>, span: nat, table: Pfn,
                                       v: Vpn, u: Update, g: Gather)
    requires WellFormed(mem, root, places, span) && table in places
    requires Block(v, places[table].level + 1) == places[table].block && AlignedForLevel(v, places[table].level)
    requires !mem[table][Index(v, places[table].level)].Table? && g.Covers(v)
    ensures var level, index := places[table].level, Index(v, places[table].level);
            Updated(mem, SetEntry(mem, table, index, ApplyToEntry(u, mem[table][index])), root, span, u,
                    v, v + LevelPages(level), g)
  {
    var level, index := places[table].level, Index(v, places[table].level);
    var e := ApplyToEntry(u, mem[table][index]);
    var mem' := SetEntry(mem, table, index, e);
    WalkAt(mem, root, places, span, table, v);
    forall w: Vpn | InSpan(w, span)
      ensures PageUpdated(mem, mem', root, u, v, v + LevelPages(level), g, w)
    {
      if v <= w < v + LevelPages(level) {
        BlockUnique(w, level, Block(v, level));
        UnderEntryIndex(places[table], index, w);
        SetEntryHere(mem, root, places, span, table, index, e, w);
      } else {
        WriteElsewhere(mem, root, places, span, table, v, e, w);
      }
    }
    forall w: Vpn | InSpan(w, span)
      ensures StopKept(mem, mem', root, w)
    {
      StopsKept(mem, places, table, index, e, root, ROOT_LEVEL, w);
    }
  }

  lemma {:induction false} StopsKept(mem: Memory, places: map<Pfn, Place>, table: Pfn, index: nat, e: Entry,
                                     start: Pfn, level: nat, v: Vpn)
    requires Placed(mem, places) && table in places && index < ENTRY_COUNT && !e.Table? && !mem[table][index].Table?
    requires start in places && places[start].level == level
    ensures StopLevel(SetEntry(mem, table, index, e), start, level, v) == StopLevel(mem, start, level, v)
    decreases level
  {
    var i := Index(v, level);
    assert LinksChild(mem, places, start, i);
    if mem[start][i].Table? {
      StopsKept(mem, places, table, index, e, mem[start][i].next, level - 1, v);
    }
  }

  /** Skipping from an empty entry is a step that updates nothing. */
  lemma {:induction false} SkipEntry(mem: Memory, root: Pfn, places: map<Pfn, Place>, span: nat, table: Pfn,
                                     v: Vpn, hi: Vpn, u: Update, g: Gather)
    requires WellFormed(mem, root, places, span) && table in places
    requires Block(v, places[table].level + 1) == places[table].block
    requires mem[table][Index(v, places[table].level)].Absent? && v <= hi <= v + LevelPages(places[table].level)
    ensures Updated(mem, mem, root, span, u, v, hi, g)
  {
    WalkAt(mem, root, places, span, table, v);
    forall w: Vpn | InSpan(w, span)
      ensures PageUpdated(mem, mem, root, u, v, hi, g, w)
    {
    }
  }

  /** One step of the walk from `v`, to the end of the entry it stops at or to the end of the range. */
  lemma {:induction false} OneStep(mem: Memory, mem': Memory, root: Pfn, span: nat, u: Update, v: Vpn, next: Vpn, end: Vpn,
                                   g: Gather, g': Gather)
    requires Updated(mem, mem', root, span, u, v, next, g') && FitsFrom(mem, root, v, end)
    requires v < next <= NextStop(mem, root, v) && (next == NextStop(mem, root, v) || next == end)
    requires g' == if WritesAt(mem, root, v) then g.AddTlbFlush(v) else g
    ensures WalkedTo(mem, mem', root, span, u, v, next, end, g, g')
  {
    OneStepFits(mem, root, span, v, next, end);
    AddsOne(g, v);
    AddsNone(g);
    assert Written(mem, root, NextStop(mem, root, v), next) == [];
  }

  // ----- Walks that miss nothing -----

  lemma {:induction false} AlignedBelow(v: Vpn, level: nat)
    requires level > 0 && AlignedForLevel(v, level)
    ensures AlignedForLevel(v, level - 1)
  {
    var b, c := Block(v, level - 1), Block(v, level);
    PageOfShift(c, level - 1);
    BlockBounds(v, level - 1);
    PageOfAdd(512 * c, b - 512 * c, level - 1);
  }

  lemma {:induction false} AlignedDown(v: Vpn, high: nat, low: nat)
    requires low <= high && AlignedForLevel(v, high)
    ensures AlignedForLevel(v, low)
    decreases high
  {
    if low < high {
      AlignedBelow(v, high);
      AlignedDown(v, high - 1, low);
    }
  }

  lemma {:induction false} PageOfAligned(b: nat, level: nat)
    ensures AlignedForLevel(PageOf(b, level), level) && Block(PageOf(b, level), level) == b
  {
    BlockUnique(PageOf(b, level), level, b);
  }

  /** `v` is the first page of the entry at which its path stops. */
  predicate AlignedStop(mem: Memory, root: Pfn, v: Vpn) {
    AlignedForLevel(v, StopLevel(mem, root, ROOT_LEVEL, v))
  }

  /** Coming from the end of an entry of a table on the path, a walk is at the start of an entry again. */
  lemma {:induction false} ClimbOut(mem: Memory, root: Pfn, v: Vpn, w: Vpn, level: nat)
    requires level <= ROOT_LEVEL && TableAt(mem, root, level, v).Some?
    requires AlignedForLevel(w, level) && Block(w, level) == Block(v, level) + 1
    requires Block(w, ROOT_LEVEL + 1) == Block(v, ROOT_LEVEL + 1)
    ensures AlignedStop(mem, root, w)
    decreases ROOT_LEVEL - level
  {
    if Block(w, level + 1) == Block(v, level + 1) {
      TableAtSameBlock(mem, root, level, v, w);
      StopVia(mem, root, level, w);
      AlignedDown(w, level, StopLevel(mem, root, ROOT_LEVEL, w));
    } else {
      PageOfShift(Block(w, level + 1), level);
      PathIsUpward(mem, root, level, level + 1, v);
      ClimbOut(mem, root, v, w, level + 1);
    }
  }

  lemma {:induction false} StopTable(mem: Memory, table: Pfn, level: nat, v: Vpn, root: Pfn)
    requires level <= ROOT_LEVEL && TableAt(mem, root, level, v) == Some(table)
    ensures TableAt(mem, root, StopLevel(mem, table, level, v), v).Some?
    decreases level
  {
    var e := EntryAt(mem, table, Index(v, level));
    if level > 0 && e.Table? {
      StopTable(mem, e.next, level - 1, v, root);
    }
  }

  lemma {:induction false} NextStopAligned(mem: Memory, root: Pfn, v: Vpn)
    requires AlignedStop(mem, root, v) && Block(NextStop(mem, root, v), ROOT_LEVEL + 1) == Block(v, ROOT_LEVEL + 1)
    ensures AlignedStop(mem, root, NextStop(mem, root, v))
  {
    var level := StopLevel(mem, root, ROOT_LEVEL, v);
    StopTable(mem, root, ROOT_LEVEL, v, root);
    PageOfNext(Block(v, level), level);
    PageOfAligned(Block(v, level) + 1, level);
    ClimbOut(mem, root, v, NextStop(mem, root, v), level);
  }

  /** From an aligned stop, every step of the walk is aligned. */
  lemma {:induction false} StepsAligned(mem: Memory, root: Pfn, span: nat, lo: Vpn, v: Vpn)
    requires AlignedStop(mem, root, lo) && lo <= v && InSpan(lo, span) && InSpan(v, span)
    ensures AlignedStop(mem, root, StepOf(mem, root, lo, v))
    decreases v - lo
  {
    var next := NextStop(mem, root, lo);
    if next <= v {
      BlockMono(lo, next, ROOT_LEVEL + 1);
      BlockMono(next, v, ROOT_LEVEL + 1);
      NextStopAligned(mem, root, lo);
      StepsAligned(mem, root, span, next, v);
    }
  }

  /** Two pages of the entry at which one's path stops have the same fate. */
  lemma {:induction false} SameStop(mem: Memory, table: Pfn, level: nat, v: Vpn, w: Vpn)
    requires Block(w, StopLevel(mem, table, level, v)) == Block(v, StopLevel(mem, table, level, v))
    ensures StopLevel(mem, table, level, w) == StopLevel(mem, table, level, v)
    ensures Walk(mem, table, level, w).Some? == Walk(mem, table, level, v).Some?
    decreases level
  {
    SameBlockAbove(v, w, StopLevel(mem, table, level, v), level);
    var e := EntryAt(mem, table, Index(v, level));
    if level > 0 && e.Table? {
      SameStop(mem, e.next, level - 1, v, w);
    }
  }

  /** A walk from an aligned stop steps over mapped pages only from mapped pages: it misses none. */
  lemma {:induction false} NoneMissed(mem: Memory, root: Pfn, span: nat, lo: Vpn, v: Vpn)
    requires AlignedStop(mem, root, lo) && lo <= v && InSpan(lo, span) && InSpan(v, span)
    ensures Walk(mem, root, ROOT_LEVEL, StepOf(mem, root, lo, v)).Some? <==> Walk(mem, root, ROOT_LEVEL, v).Some?
  {
    var x := StepOf(mem, root, lo, v);
    StepsAligned(mem, root, span, lo, v);
    var level := StopLevel(mem, root, ROOT_LEVEL, x);
    BlockUnique(v, level, Block(x, level));
    SameStop(mem, root, ROOT_LEVEL, x, v);
  }

  /** Unmapping clears the range if and only if the walk steps over each of its mapped pages from a mapped page. */
  lemma {:induction false} UnmapClears(mem: Memory, mem': Memory, root: Pfn, span: nat, lo: Vpn, hi: Vpn, g: Gather)
    requires Updated(mem, mem', root, span, Unmap, lo, hi, g)
    ensures (forall v: Vpn :: InSpan(v, span) && lo <= v < hi ==> Walk(mem', root, ROOT_LEVEL, v) == None)
       <==> (forall v: Vpn :: InSpan(v, span) && lo <= v < hi && Walk(mem, root, ROOT_LEVEL, v).Some? ==>
               Walk(mem, root, ROOT_LEVEL, StepOf(mem, root, lo, v)).Some?)
  {
    forall v: Vpn | InSpan(v, span) && lo <= v < hi
      ensures Walk(mem', root, ROOT_LEVEL, v) == None <==>
              (Walk(mem, root, ROOT_LEVEL, v).Some? ==> Walk(mem, root, ROOT_LEVEL, StepOf(mem, root, lo, v)).Some?)
    {
      assert PageUpdated(mem, mem', root, Unmap, lo, hi, g, v);
    }
  }

  /** From an aligned stop, unmapping clears the whole range and reprotecting reaches every mapped page. */
  lemma {:induction false} UpdateReachesAll(mem: Memory, mem': Memory, root: Pfn, span: nat, u: Update,
                                            lo: Vpn, hi: Vpn, g: Gather, v: Vpn)
    requires Updated(mem, mem', root, span, u, lo, hi, g) && InSpan(lo, span) && AlignedStop(mem, root, lo)
    requires InSpan(v, span) && lo <= v < hi
    ensures Walk(mem', root, ROOT_LEVEL, v) == Apply(u, Walk(mem, root, ROOT_LEVEL, v))
  {
    assert PageUpdated(mem, mem', root, u, lo, hi, g, v);
    NoneMissed(mem, root, span, lo, v);
  }

  /** The mapped pages that a walk misses: they lie behind the end of an absent entry that the walk came to elsewhere than at
      its start, and before the next step. */
  lemma {:induction false} MissedPages(mem: Memory, mem': Memory, root: Pfn, span: nat, u: Update,
                                       lo: Vpn, hi: Vpn, g: Gather, v: Vpn)
    requires Updated(mem, mem', root, span, u, lo, hi, g) && lo <= v < hi && InSpan(v, span)
    requires Walk(mem, root, ROOT_LEVEL, v).Some?
    ensures var x := StepOf(mem, root, lo, v);
            var level := StopLevel(mem, root, ROOT_LEVEL, x);
            if Walk(mem, root, ROOT_LEVEL, x).Some? then
              Walk(mem', root, ROOT_LEVEL, v) == Apply(u, Walk(mem, root, ROOT_LEVEL, v))
            else
              && Walk(mem', root, ROOT_LEVEL, v) == Walk(mem, root, ROOT_LEVEL, v)
              && !AlignedStop(mem, root, x)
              && PageOf(Block(x, level), level) + LevelPages(level) <= v < NextStop(mem, root, x)
  {
    var x := StepOf(mem, root, lo, v);
    var level := StopLevel(mem, root, ROOT_LEVEL, x);
    assert PageUpdated(mem, mem', root, u, lo, hi, g, v);
    BlockBounds(x, level);
    if v < PageOf(Block(x, level), level) + LevelPages(level) {
      BlockUnique(v, level, Block(x, level));
      SameStop(mem, root, ROOT_LEVEL, x, v);
    }
  }

  /** `tr'` is `tr` with permissions `perms`: the global bit can be added but not removed, and the other bits stay. */
  ghost predicate HasPerms(tr: Option<Translation>, tr': Option<Translation>, perms: Perms) {
    && tr.Some? && tr'.Some? && tr'.value.frame == tr.value.frame && tr'.value.level == tr.value.level
    && tr'.value.attrs.writable == perms.write && tr'.value.attrs.user == perms.user
    && tr'.value.attrs.noExec == !perms.execute && tr'.value.attrs.global == (tr.value.attrs.global || perms.global)
    && tr'.value.attrs.rest == tr.value.attrs.rest
  }

  /** From an aligned stop, reprotecting gives every mapped page of the range exactly the new permissions. */
  lemma {:induction false} ProtectSets(mem: Memory, mem': Memory, root: Pfn, span: nat, perms: Perms,
                                       lo: Vpn, hi: Vpn, g: Gather, v: Vpn)
    requires Updated(mem, mem', root, span, Protect(perms), lo, hi, g) && InSpan(lo, span) && AlignedStop(mem, root, lo)
    requires InSpan(v, span) && lo <= v < hi && Walk(mem, root, ROOT_LEVEL, v).Some?
    ensures HasPerms(Walk(mem, root, ROOT_LEVEL, v), Walk(mem', root, ROOT_LEVEL, v), perms)
  {
    UpdateReachesAll(mem, mem', root, span, Protect(perms), lo, hi, g, v);
  }

  /** From any start, it gives them to exactly the pages that the walk steps over from a mapped page. */
  lemma {:induction false} ProtectSetsReached(mem: Memory, mem': Memory, root: Pfn, span: nat, perms: Perms,
                                              lo: Vpn, hi: Vpn, g: Gather, v: Vpn)
    requires Updated(mem, mem', root, span, Protect(perms), lo, hi, g) && InSpan(v, span)
    requires Walk(mem, root, ROOT_LEVEL, v).Some?
    ensures if lo <= v < hi && Walk(mem, root, ROOT_LEVEL, StepOf(mem, root, lo, v)).Some?
            then HasPerms(Walk(mem, root, ROOT_LEVEL, v), Walk(mem', root, ROOT_LEVEL, v), perms)
            else Walk(mem', root, ROOT_LEVEL, v) == Walk(mem, root, ROOT_LEVEL, v)
  {
    assert PageUpdated(mem, mem', root, Protect(perms), lo, hi, g, v);
  }

  /** Reprotecting never changes whether or where a page is mapped, from any start. */
  lemma {:induction false} ProtectKeepsFrames(mem: Memory, mem': Memory, root: Pfn, span: nat, perms: Perms,
                                              lo: Vpn, hi: Vpn, g: Gather, v: Vpn)
    requires Updated(mem, mem', root, span, Protect(perms), lo, hi, g) && InSpan(v, span)
    ensures var was, now := Walk(mem, root, ROOT_LEVEL, v), Walk(mem', root, ROOT_LEVEL, v);
            && now.Some? == was.Some?
            && (was.Some? ==> now.value.frame == was.value.frame && now.value.level == was.value.level)
            && (!(lo <= v < hi) ==> now == was)
  {
    assert PageUpdated(mem, mem', root, Protect(perms), lo, hi, g, v);
  }

  function OneEntry(index: nat, e: Entry): (t: seq<Entry>)
    requires index < ENTRY_COUNT
    ensures |t| == ENTRY_COUNT && t[index] == e && forall i :: 0 <= i < ENTRY_COUNT && i != index ==> t[i] == Absent
  {
    EmptyTable()[index := e]
  }

  /** Four tables, one for each level, on the path to page 512. */
  function OnePath(): Memory {
    map[0 := OneEntry(0, Table(1)), 1 := OneEntry(0, Table(2)), 2 := OneEntry(1, Table(3)),
        3 := OneEntry(0, Page(7, Attrs(false, false, false, false, 0)))]
  }

  function OnePathPlaces(): map<Pfn, Place> {
    map[0 := Place(3, 0), 1 := Place(2, 0), 2 := Place(1, 0), 3 := Place(0, 1)]
  }

  lemma {:induction false} OnePathLinks(t: Pfn, i: nat)
    requires t in OnePathPlaces() && i < ENTRY_COUNT
    ensures LinksChild(OnePath(), OnePathPlaces(), t, i)
  {
  }

  lemma {:induction false} OnePathReaches(t: Pfn)
    requires t in OnePathPlaces()
    ensures OnOwnPath(OnePath(), 0, OnePathPlaces(), 0, t)
  {
    assert Index(512, 3) == 0 && Index(512, 2) == 0 && Index(512, 1) == 1;
  }

  lemma {:induction false} OnePathOk()
    ensures WellFormed(OnePath(), 0, OnePathPlaces(), 0) && InSpan(5, 0) && InSpan(512, 0)
  {
    var mem, places := OnePath(), OnePathPlaces();
    forall t, i: nat | t in places && i < ENTRY_COUNT
      ensures LinksChild(mem, places, t, i)
    {
      OnePathLinks(t, i);
    }
    forall t | t in places
      ensures OnOwnPath(mem, 0, places, 0, t)
    {
      OnePathReaches(t);
    }
  }

  /** Unmapping can miss a page: here, one that starts at page 5 jumps over the mapped page 512. */
  lemma {:induction false} UnmapCanMiss() returns (mem: Memory, places: map<Pfn, Place>)
    ensures WellFormed(mem, 0, places, 0) && InSpan(5, 0) && InSpan(512, 0)
    ensures Walk(mem, 0, ROOT_LEVEL, 512).Some?
    ensures StepOf(mem, 0, 5, 512) == 5 && Walk(mem, 0, ROOT_LEVEL, 5) == None
  {
    mem, places := OnePath(), OnePathPlaces();
    OnePathOk();
    assert Index(512, 3) == 0 && Index(512, 2) == 0 && Index(512, 1) == 1 && Index(512, 0) == 0;
    assert Index(5, 3) == 0 && Index(5, 2) == 0 && Index(5, 1) == 0;
  }
}
