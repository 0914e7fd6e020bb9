/** What mapping a range of pages means for the translation, entry by entry. */
module PageMap {
  import opened Arith
  import opened MemTypes
  import opened PageTree

  /** The end of the span of the level-`level` table that covers `v`. */
  function TableEnd(v: Vpn, level: nat): Vpn {
    PageOf(Block(v, level + 1) + 1, level + 1)
  }

  /** Where a pass over one table stops: the end of the range or of the table's own span. */
  function LevelEnd(v: Vpn, end: Vpn, level: nat): Vpn {
    Min(end, TableEnd(v, level))
  }

  lemma {:induction false} TableEndBounds(v: Vpn, level: nat)
    ensures v < TableEnd(v, level) == PageOf(Block(v, level + 1), level + 1) + LevelPages(level + 1)
  {
    BlockBounds(v, level + 1);
    PageOfNext(Block(v, level + 1), level + 1);
  }

  /** All pages that one pass over a table visits have the same table. */
  lemma {:induction false} SameTable(v: Vpn, w: Vpn, level: nat)
    requires v <= w < TableEnd(v, level)
    ensures Block(w, level + 1) == Block(v, level + 1)
  {
    TableEndBounds(v, level);
    BlockBounds(v, level + 1);
    BlockUnique(w, level + 1, Block(v, level + 1));
  }

  /** The span of an entry ends no later than the span of its table. */
  lemma {:induction false} EntryEndsFirst(v: Vpn, level: nat)
    ensures PageOf(Block(v, level), level) + LevelPages(level) <= TableEnd(v, level)
  {
    var b, c := Block(v, level), Block(v, level + 1);
    PageOfNext(b, level);
    PageOfAdd(b + 1, 512 * (c + 1) - (b + 1), level);
    PageOfShift(c + 1, level);
  }

  /** A range within the root table's span ends no later than that span. */
  lemma {:induction false} RootEnd(v: Vpn, last: Vpn)
    requires Block(v, ROOT_LEVEL + 1) == Block(last, ROOT_LEVEL + 1)
    ensures LevelEnd(v, last + 1, ROOT_LEVEL) == last + 1
  {
    TableEndBounds(v, ROOT_LEVEL);
    BlockBounds(last, ROOT_LEVEL + 1);
  }

  predicate SupportsPageSize(level: nat) {
    level == 0 || level == 1
  }

  // ----- What mapping means -----

  /** `tr` translates page `v` of a mapping of `base..base + size`, by an entry inside that range. */
  ghost predicate IsMapped(tr: Option<Translation>, v: Vpn, base: Vpn, size: nat, phys: Pfn, attrs: Attrs) {
    && base <= v
    && tr.Some?
    && tr.value.frame == phys + (v - base)
    && tr.value.attrs == attrs
    && SupportsPageSize(tr.value.level)
    && EntryWithin(v, tr.value.level, base, size)
  }

  /** The entry that translates `v` at `level` lies within `base..base + size`. */
  ghost predicate EntryWithin(v: Vpn, level: nat, base: Vpn, size: nat) {
    && base <= PageOf(Block(v, level), level)
    && PageOf(Block(v, level), level) + LevelPages(level) <= base + size
  }

  /** The pages at offsets `lo..hi` were unmapped and are now mapped; nothing else has changed. */
  ghost predicate Extends(mem: Memory, mem': Memory, root: Pfn, span: nat,
                          base: Vpn, size: nat, lo: nat, hi: nat, phys: Pfn, attrs: Attrs)
  {
    forall v: Vpn {:trigger PageExtends(mem, mem', root, v, base, size, lo, hi, phys, attrs)} ::
      InSpan(v, span) ==> PageExtends(mem, mem', root, v, base, size, lo, hi, phys, attrs)
  }

  ghost predicate PageExtends(mem: Memory, mem': Memory, root: Pfn, v: Vpn,
                                 base: Vpn, size: nat, lo: nat, hi: nat, phys: Pfn, attrs: Attrs)
  {
    if base + lo <= v < base + hi then
      Walk(mem, root, ROOT_LEVEL, v) == None && IsMapped(Walk(mem', root, ROOT_LEVEL, v), v, base, size, phys, attrs)
    else
      Walk(mem', root, ROOT_LEVEL, v) == Walk(mem, root, ROOT_LEVEL, v)
  }

  lemma {:induction false} ExtendsTrans(m0: Memory, m1: Memory, m2: Memory, root: Pfn, span: nat,
                     base: Vpn, size: nat, lo: nat, mid: nat, hi: nat, phys: Pfn, attrs: Attrs)
    requires lo <= mid <= hi
    requires Extends(m0, m1, root, span, base, size, lo, mid, phys, attrs)
    requires Extends(m1, m2, root, span, base, size, mid, hi, phys, attrs)
    ensures Extends(m0, m2, root, span, base, size, lo, hi, phys, attrs)
  {
    forall v: Vpn | InSpan(v, span)
      ensures PageExtends(m0, m2, root, v, base, size, lo, hi, phys, attrs)
    {
      assert PageExtends(m0, m1, root, v, base, size, lo, mid, phys, attrs);
      assert PageExtends(m1, m2, root, v, base, size, mid, hi, phys, attrs);
    }
  }

  /** Writing one terminal entry maps exactly its block. */
  lemma {:induction false} MapEntry(mem: Memory, root: Pfn, places: map<Pfn, Place>, span: nat, table: Pfn,
                 base: Vpn, size: nat, offset: nat, phys: Pfn, attrs: Attrs)
    requires WellFormed(mem, root, places, span) && table in places
    requires var level := places[table].level;
             && SupportsPageSize(level)
             && Block(base + offset, level + 1) == places[table].block && InSpan(base + offset, span)
             && AlignedForLevel(base + offset, level) && offset + LevelPages(level) <= size
             && mem[table][Index(base + offset, level)].Absent?
    ensures var level := places[table].level;
            Extends(mem, SetEntry(mem, table, Index(base + offset, level), Page(phys + offset, attrs)), root, span,
                    base, size, offset, offset + LevelPages(level), phys, attrs)
  {
    var level := places[table].level;
    forall w: Vpn | InSpan(w, span)
      ensures PageExtends(mem, SetEntry(mem, table, Index(base + offset, level), Page(phys + offset, attrs)), root, w,
                             base, size, offset, offset + LevelPages(level), phys, attrs)
    {
      MapEntryPage(mem, root, places, span, table, base, size, offset, phys, attrs, w);
    }
  }

  lemma {:induction false} MapEntryPage(mem: Memory, root: Pfn, places: map<Pfn, Place>, span: nat, table: Pfn,
                     base: Vpn, size: nat, offset: nat, phys: Pfn, attrs: Attrs, w: Vpn)
    requires WellFormed(mem, root, places, span) && table in places && InSpan(w, span)
    requires var level := places[table].level;
             && SupportsPageSize(level)
             && Block(base + offset, level + 1) == places[table].block
             && AlignedForLevel(base + offset, level) && offset + LevelPages(level) <= size
             && mem[table][Index(base + offset, level)].Absent?
    ensures var level := places[table].level;
            PageExtends(mem, SetEntry(mem, table, Index(base + offset, level), Page(phys + offset, attrs)), root, w,
                           base, size, offset, offset + LevelPages(level), phys, attrs)
  {
    var level, v := places[table].level, base + offset;
    if v <= w < v + LevelPages(level) {
      WriteHere(mem, root, places, span, table, v, phys + offset, attrs, w);
    } else {
      WriteElsewhere(mem, root, places, span, table, v, Page(phys + offset, attrs), w);
    }
  }

  lemma {:induction false} WriteHere(mem: Memory, root: Pfn, places: map<Pfn, Place>, span: nat, table: Pfn,
                                     v: Vpn, frame: Pfn, attrs: Attrs, w: Vpn)
    requires WellFormed(mem, root, places, span) && table in places && InSpan(w, span)
    requires Block(v, places[table].level + 1) == places[table].block && AlignedForLevel(v, places[table].level)
    requires mem[table][Index(v, places[table].level)].Absent?
    requires v <= w < v + LevelPages(places[table].level)
    ensures Block(w, places[table].level) == Block(v, places[table].level)
    ensures Walk(mem, root, ROOT_LEVEL, w) == None
    ensures Walk(SetEntry(mem, table, Index(v, places[table].level), Page(frame, attrs)), root, ROOT_LEVEL, w)
         == Some(Translation(frame + (w - v), attrs, places[table].level))
  {
    var level := places[table].level;
    BlockUnique(w, level, Block(v, level));
    UnderEntryIndex(places[table], Index(v, level), w);
    SetEntryHere(mem, root, places, span, table, Index(v, level), Page(frame, attrs), w);
  }

  lemma {:induction false} WriteElsewhere(mem: Memory, root: Pfn, places: map<Pfn, Place>, span: nat, table: Pfn,
                                          v: Vpn, e: Entry, w: Vpn)
    requires WellFormed(mem, root, places, span) && table in places && InSpan(w, span)
    requires Block(v, places[table].level + 1) == places[table].block
    requires !(PageOf(Block(v, places[table].level), places[table].level) <= w
               < PageOf(Block(v, places[table].level), places[table].level) + LevelPages(places[table].level))
    ensures Walk(SetEntry(mem, table, Index(v, places[table].level), e), root, ROOT_LEVEL, w)
         == Walk(mem, root, ROOT_LEVEL, w)
  {
    BlockBounds(w, places[table].level);
    UnderEntryIndex(places[table], Index(v, places[table].level), v);
    SetEntryElsewhere(mem, places, table, Index(v, places[table].level), e, root, ROOT_LEVEL, w);
  }

  /** Table `t` has kept its place, or it is new and covers some of the pages from `lo` to `last`. */
  ghost predicate TableGrown(places: map<Pfn, Place>, places': map<Pfn, Place>, lo: Vpn, last: Vpn, t: Pfn) {
    && (t in places ==> t in places' && places'[t] == places[t])
    && (t in places' && t !in places ==>
          Block(lo, places'[t].level + 1) <= places'[t].block <= Block(last, places'[t].level + 1))
  }

  /** Tables are only added, and only for the pages from `lo` to `last`. */
  ghost predicate Grown(places: map<Pfn, Place>, places': map<Pfn, Place>, lo: Vpn, last: Vpn) {
    forall t {:trigger TableGrown(places, places', lo, last, t)} :: TableGrown(places, places', lo, last, t)
  }

  lemma {:induction false} GrownRefl(places: map<Pfn, Place>, lo: Vpn, last: Vpn)
    ensures Grown(places, places, lo, last)
  {
  }

  lemma {:induction false} GrownTrans(p0: map<Pfn, Place>, p1: map<Pfn, Place>, p2: map<Pfn, Place>,
                                      lo: Vpn, last: Vpn, mid: Vpn, end: Vpn)
    requires Grown(p0, p1, lo, last) && Grown(p1, p2, mid, end) && lo <= mid && last <= end
    ensures Grown(p0, p2, lo, end)
  {
    forall t
      ensures TableGrown(p0, p2, lo, end, t)
    {
      assert TableGrown(p0, p1, lo, last, t) && TableGrown(p1, p2, mid, end, t);
      if t in p2 {
        BlockMono(lo, mid, p2[t].level + 1);
        BlockMono(last, end, p2[t].level + 1);
      }
    }
  }

  ghost predicate SameTranslations(mem: Memory, mem': Memory, root: Pfn, span: nat) {
    forall v: Vpn :: InSpan(v, span) ==> Walk(mem', root, ROOT_LEVEL, v) == Walk(mem, root, ROOT_LEVEL, v)
  }

  lemma {:induction false} SameExtends(mem: Memory, mem': Memory, root: Pfn, span: nat,
                                       base: Vpn, size: nat, offset: nat, phys: Pfn, attrs: Attrs)
    requires SameTranslations(mem, mem', root, span)
    ensures Extends(mem, mem', root, span, base, size, offset, offset, phys, attrs)
  {
  }

  // ----- When mapping is refused -----

  /** A large page would be used for the page at offset `k`. */
  predicate LargeCandidate(base: Vpn, size: nat, k: nat, phys: Pfn) {
    AlignedForLevel(base + k, 1) && AlignedForLevel(phys + k, 1) && k + LevelPages(1) <= size
  }

  /** The page at offset `k` cannot be mapped: it is mapped already, or a table is where its large page would go. */
  ghost predicate Blocked(mem: Memory, root: Pfn, base: Vpn, size: nat, k: nat, phys: Pfn) {
    || Walk(mem, root, ROOT_LEVEL, base + k).Some?
    || (LargeCandidate(base, size, k, phys) && TableAt(mem, root, 0, base + k).Some?)
  }

  ghost predicate NoneBlocked(mem: Memory, root: Pfn, base: Vpn, size: nat, lo: nat, hi: nat, phys: Pfn) {
    forall k: nat :: lo <= k < hi ==> !Blocked(mem, root, base, size, k, phys)
  }

  /** From offset `lo` on, the same pages are blocked. */
  ghost predicate SameBlocked(mem: Memory, mem': Memory, root: Pfn, span: nat, base: Vpn, size: nat, lo: nat, phys: Pfn) {
    forall k: nat {:trigger Blocked(mem, root, base, size, k, phys)} {:trigger Blocked(mem', root, base, size, k, phys)} ::
      lo <= k && InSpan(base + k, span) ==>
        (Blocked(mem', root, base, size, k, phys) <==> Blocked(mem, root, base, size, k, phys))
  }

  /** What the entry for a page says about the page being blocked. */
  lemma {:induction false} BlockedByEntry(mem: Memory, root: Pfn, places: map<Pfn, Place>, span: nat, table: Pfn,
                                          base: Vpn, size: nat, k: nat, phys: Pfn)
    requires WellFormed(mem, root, places, span) && table in places && InSpan(base + k, span)
    requires Block(base + k, places[table].level + 1) == places[table].block
    requires places[table].level == 0 ==> !LargeCandidate(base, size, k, phys)
    ensures var level := places[table].level;
            match mem[table][Index(base + k, level)]
            case Absent => !Blocked(mem, root, base, size, k, phys)
            case Page(_, _) => Blocked(mem, root, base, size, k, phys)
            case Table(_) =>
              && level > 0
              && (level == 1 && LargeCandidate(base, size, k, phys) ==> Blocked(mem, root, base, size, k, phys))
  {
    var v, level := base + k, places[table].level;
    OnPath(mem, root, places, span, table, v);
    WalkVia(mem, root, level, v);
    assert LinksChild(mem, places, table, Index(v, level));
    NoTableBelow(mem, root, places, span, table, v);
  }

  lemma {:induction false} NoTableBelow(mem: Memory, root: Pfn, places: map<Pfn, Place>, span: nat, table: Pfn, v: Vpn)
    requires WellFormed(mem, root, places, span) && table in places && Block(v, places[table].level + 1) == places[table].block
    ensures places[table].level > 0 && !mem[table][Index(v, places[table].level)].Table? ==> TableAt(mem, root, 0, v) == None
    ensures places[table].level == 1 && mem[table][Index(v, 1)].Table? ==> TableAt(mem, root, 0, v).Some?
  {
    OnPath(mem, root, places, span, table, v);
    if places[table].level > 0 && TableAt(mem, root, 0, v).Some? {
      PathDownTo(mem, root, places, span, table, 0, v);
    }
  }

  /** None of the pages that an empty large or small entry would map are blocked. */
  lemma {:induction false} EntryUnblocked(mem: Memory, root: Pfn, places: map<Pfn, Place>, span: nat, table: Pfn,
                                          base: Vpn, size: nat, offset: nat, k: nat, phys: Pfn)
    requires WellFormed(mem, root, places, span) && table in places && InSpan(base + offset, span)
    requires Block(base + offset, places[table].level + 1) == places[table].block
    requires places[table].level == 0 ==> !LargeCandidate(base, size, offset, phys)
    requires AlignedForLevel(base + offset, places[table].level)
    requires mem[table][Index(base + offset, places[table].level)].Absent?
    requires offset <= k < offset + LevelPages(places[table].level)
    ensures !Blocked(mem, root, base, size, k, phys)
  {
    var level := places[table].level;
    BlockUnique(base + k, level, Block(base + offset, level));
    SameBlockAbove(base + k, base + offset, level, ROOT_LEVEL + 1);
    BlockedByEntry(mem, root, places, span, table, base, size, k, phys);
  }

  /** Mapping a block leaves the same pages after it blocked. */
  lemma {:induction false} MapEntryBlocked(mem: Memory, root: Pfn, places: map<Pfn, Place>, span: nat, table: Pfn,
                                           index: nat, e: Entry, base: Vpn, size: nat, lo: nat, hi: nat, phys: Pfn, attrs: Attrs)
    requires WellFormed(mem, root, places, span) && table in places && index < ENTRY_COUNT
    requires mem[table][index].Absent? && e.Page? && lo <= hi
    requires Extends(mem, SetEntry(mem, table, index, e), root, span, base, size, lo, hi, phys, attrs)
    ensures SameBlocked(mem, SetEntry(mem, table, index, e), root, span, base, size, hi, phys)
  {
    var mem' := SetEntry(mem, table, index, e);
    forall k: nat | hi <= k && InSpan(base + k, span)
      ensures Blocked(mem', root, base, size, k, phys) <==> Blocked(mem, root, base, size, k, phys)
    {
      assert PageExtends(mem, mem', root, base + k, base, size, lo, hi, phys, attrs);
      SetEntryPath(mem, root, places, span, table, index, e, 0, base + k);
    }
  }

  /** The level-0 tables are unchanged, except perhaps the one for the block of `v` when `link` is 1. */
  ghost predicate SameLeafTables(mem: Memory, mem': Memory, root: Pfn, span: nat, level: nat, v: Vpn) {
    forall w: Vpn {:trigger TableAt(mem', root, 0, w)} :: InSpan(w, span) && !(level == 1 && Block(w, 1) == Block(v, 1)) ==>
      TableAt(mem', root, 0, w) == TableAt(mem, root, 0, w)
  }

  lemma {:induction false} LinkLeafTables(mem: Memory, root: Pfn, places: map<Pfn, Place>, span: nat,
                                          table: Pfn, index: nat, next: Pfn, v: Vpn, w: Vpn)
    requires WellFormed(mem, root, places, span) && table in places && index < ENTRY_COUNT && places[table].level > 0
    requires mem[table][index].Absent? && next !in places && next in mem && mem[next] == EmptyTable()
    requires UnderEntry(places[table], index, v) && InSpan(v, span) && InSpan(w, span)
    requires !(places[table].level == 1 && Block(w, 1) == Block(v, 1))
    ensures TableAt(SetEntry(mem, table, index, Table(next)), root, 0, w) == TableAt(mem, root, 0, w)
  {
    var mem' := SetEntry(mem, table, index, Table(next));
    var p := places[table];
    if UnderEntry(p, index, w) {
      UnderEntryIndex(p, index, w);
      if TableAt(mem, root, 0, w).Some? {
        PathDownTo(mem, root, places, span, table, 0, w);
        assert false;
      }
      LinkTable(mem, root, places, span, table, index, next, v);
      if TableAt(mem', root, 0, w).Some? {
        PathDownTo(mem', root, places[next := ChildPlace(p, index)], span, next, 0, w);
        assert false;
      }
    } else {
      SetEntryPath(mem, root, places, span, table, index, Table(next), 0, w);
    }
  }

  /** Clearing a new table and linking it changes no translation, and no level-0 table but perhaps itself. */
  lemma {:induction false} LinkNewTable(mem: Memory, root: Pfn, places: map<Pfn, Place>, span: nat,
                                        table: Pfn, index: nat, next: Pfn, v: Vpn)
    requires WellFormed(mem, root, places, span) && table in places && index < ENTRY_COUNT && places[table].level > 0
    requires mem[table][index].Absent? && next !in places && UnderEntry(places[table], index, v) && InSpan(v, span)
    ensures var mem' := SetEntry(mem[next := EmptyTable()], table, index, Table(next));
            && WellFormed(mem', root, places[next := ChildPlace(places[table], index)], span)
            && SameTranslations(mem, mem', root, span) && SameLeafTables(mem, mem', root, span, places[table].level, v)
  {
    var cleared := mem[next := EmptyTable()];
    Outside(mem, cleared, root, places, span);
    LinkTable(cleared, root, places, span, table, index, next, v);
    forall w: Vpn | InSpan(w, span)
      ensures Walk(SetEntry(cleared, table, index, Table(next)), root, ROOT_LEVEL, w) == Walk(mem, root, ROOT_LEVEL, w)
    {
      OutsideWalk(mem, cleared, places, root, ROOT_LEVEL, w);
      LinkTableWalk(cleared, root, places, span, table, index, next, w);
    }
    forall w: Vpn | InSpan(w, span) && !(places[table].level == 1 && Block(w, 1) == Block(v, 1))
      ensures TableAt(SetEntry(cleared, table, index, Table(next)), root, 0, w) == TableAt(mem, root, 0, w)
    {
      OutsidePath(mem, cleared, root, places, span, 0, w);
      LinkLeafTables(cleared, root, places, span, table, index, next, v, w);
    }
  }

  /** Linking a table for a page that gets no large page leaves the same pages blocked. */
  lemma {:induction false} LinkBlocked(mem: Memory, mem': Memory, root: Pfn, span: nat, level: nat,
                                       base: Vpn, size: nat, lo: nat, phys: Pfn)
    requires SameTranslations(mem, mem', root, span)
    requires SameLeafTables(mem, mem', root, span, level, base + lo)
    requires level == 1 ==> !LargeCandidate(base, size, lo, phys)
    ensures SameBlocked(mem, mem', root, span, base, size, lo, phys)
  {
    forall k: nat | lo <= k && InSpan(base + k, span)
      ensures Blocked(mem', root, base, size, k, phys) <==> Blocked(mem, root, base, size, k, phys)
    {
      if level == 1 && Block(base + k, 1) == Block(base + lo, 1) && LargeCandidate(base, size, k, phys) {
        BlockBounds(base + lo, 1);
        assert false;
      }
    }
  }

  // ----- Which pages are large -----

  /** Of a mapping that begins at offset `lo`, the page at offset `k` belongs to a large page: one that starts no sooner. */
  predicate InLargePage(base: Vpn, size: nat, lo: nat, k: nat, phys: Pfn) {
    var first := PageOf(Block(base + k, 1), 1);
    base + lo <= first && LargeCandidate(base, size, first - base, phys)
  }

  /** The page at offset `k` is translated by a large page exactly if it belongs to one. */
  ghost predicate PageSized(mem: Memory, root: Pfn, base: Vpn, size: nat, lo: nat, k: nat, phys: Pfn) {
    var tr := Walk(mem, root, ROOT_LEVEL, base + k);
    tr.Some? ==> tr.value.level == if InLargePage(base, size, lo, k, phys) then 1 else 0
  }

  ghost predicate Sized(mem: Memory, root: Pfn, span: nat, base: Vpn, size: nat, lo: nat, hi: nat, phys: Pfn) {
    forall k: nat {:trigger PageSized(mem, root, base, size, lo, k, phys)} ::
      lo <= k < hi && InSpan(base + k, span) ==> PageSized(mem, root, base, size, lo, k, phys)
  }

  /** No large page that starts from `lo` on is cut by `hi`. */
  ghost predicate CutsNone(base: Vpn, size: nat, lo: nat, hi: nat, phys: Pfn) {
    forall k: nat {:trigger LargeCandidate(base, size, k, phys)} ::
      lo <= k < hi && LargeCandidate(base, size, k, phys) ==> k + LevelPages(1) <= hi
  }

  lemma {:induction false} SizedTrans(m1: Memory, m2: Memory, root: Pfn, span: nat,
                                      base: Vpn, size: nat, lo: nat, mid: nat, hi: nat, phys: Pfn, attrs: Attrs)
    requires lo <= mid <= hi && Sized(m1, root, span, base, size, lo, mid, phys) && Sized(m2, root, span, base, size, mid, hi, phys)
    requires CutsNone(base, size, lo, mid, phys) && Extends(m1, m2, root, span, base, size, mid, hi, phys, attrs)
    ensures Sized(m2, root, span, base, size, lo, hi, phys)
  {
    forall k: nat | lo <= k < hi && InSpan(base + k, span)
      ensures PageSized(m2, root, base, size, lo, k, phys)
    {
      if k < mid {
        assert PageSized(m1, root, base, size, lo, k, phys);
        assert PageExtends(m1, m2, root, base + k, base, size, mid, hi, phys, attrs);
      } else {
        assert PageSized(m2, root, base, size, mid, k, phys);
        BlockBounds(base + k, 1);
      }
    }
  }

  /** Writing one terminal entry, a large one exactly where a large page can be used, gives its pages the right size. */
  lemma {:induction false} EntrySized(mem: Memory, mem': Memory, root: Pfn, places: map<Pfn, Place>, span: nat, table: Pfn,
                                      base: Vpn, size: nat, offset: nat, phys: Pfn, attrs: Attrs)
    requires WellFormed(mem, root, places, span) && table in places && InSpan(base + offset, span)
    requires var level := places[table].level;
             && SupportsPageSize(level) && Block(base + offset, level + 1) == places[table].block
             && AlignedForLevel(base + offset, level) && mem[table][Index(base + offset, level)].Absent?
             && (level == 1 <==> LargeCandidate(base, size, offset, phys))
             && mem' == SetEntry(mem, table, Index(base + offset, level), Page(phys + offset, attrs))
    ensures Sized(mem', root, span, base, size, offset, offset + LevelPages(places[table].level), phys)
    ensures CutsNone(base, size, offset, offset + LevelPages(places[table].level), phys)
  {
    var level := places[table].level;
    forall k: nat | offset <= k < offset + LevelPages(level) && InSpan(base + k, span)
      ensures PageSized(mem', root, base, size, offset, k, phys)
    {
      WriteHere(mem, root, places, span, table, base + offset, phys + offset, attrs, base + k);
      BlockBounds(base + k, 1);
    }
    forall k: nat | offset <= k < offset + LevelPages(level) && LargeCandidate(base, size, k, phys)
      ensures k + LevelPages(1) <= offset + LevelPages(level)
    {
      BlockUnique(base + k, level, Block(base + offset, level));
    }
  }

  /** The effect of mapping offsets `lo..hi`: they get mapped, with large pages wherever those can be used, none of them was
      blocked, and what is blocked later stays. */
  ghost predicate Maps(mem: Memory, mem': Memory, root: Pfn, span: nat,
                       base: Vpn, size: nat, lo: nat, hi: nat, phys: Pfn, attrs: Attrs)
  {
    && lo <= hi
    && Extends(mem, mem', root, span, base, size, lo, hi, phys, attrs)
    && NoneBlocked(mem, root, base, size, lo, hi, phys)
    && SameBlocked(mem, mem', root, span, base, size, hi, phys)
    && Sized(mem', root, span, base, size, lo, hi, phys) && CutsNone(base, size, lo, hi, phys)
  }

  lemma {:induction false} MapsTrans(m0: Memory, m1: Memory, m2: Memory, root: Pfn, span: nat,
                                     base: Vpn, size: nat, lo: nat, mid: nat, hi: nat, phys: Pfn, attrs: Attrs)
    requires Maps(m0, m1, root, span, base, size, lo, mid, phys, attrs)
    requires Maps(m1, m2, root, span, base, size, mid, hi, phys, attrs)
    requires forall w: Vpn :: base + mid <= w < base + hi ==> InSpan(w, span)
    ensures Maps(m0, m2, root, span, base, size, lo, hi, phys, attrs)
  {
    ExtendsTrans(m0, m1, m2, root, span, base, size, lo, mid, hi, phys, attrs);
    SizedTrans(m1, m2, root, span, base, size, lo, mid, hi, phys, attrs);
    forall k: nat | lo <= k < hi
      ensures !Blocked(m0, root, base, size, k, phys)
    {
      if k >= mid {
        assert InSpan(base + k, span);
      }
    }
  }

  lemma {:induction false} SameBlockedAt(mem: Memory, mem': Memory, root: Pfn, span: nat, base: Vpn, size: nat,
                                         lo: nat, k: nat, phys: Pfn, level: nat)
    requires SameBlocked(mem, mem', root, span, base, size, lo, phys) && lo <= k && level <= ROOT_LEVEL
    requires InSpan(base + lo, span)
    ensures base + k < TableEnd(base + lo, level) ==>
              (Blocked(mem', root, base, size, k, phys) <==> Blocked(mem, root, base, size, k, phys))
  {
    PassInSpan(base + lo, level, span);
  }

  /** The same, and the tables that were added on the way, folded. */
  ghost predicate MapDone(m0: Memory, p0: map<Pfn, Place>, m1: Memory, p1: map<Pfn, Place>, root: Pfn, span: nat,
                          base: Vpn, size: nat, lo: nat, hi: nat, phys: Pfn, attrs: Attrs, last: Vpn)
  {
    forall k: nat {:trigger Unfold(k)} :: Unfold(k) ==>
      Maps(m0, m1, root, span, base, size, lo, hi, phys, attrs) && Grown(p0, p1, base + lo, last)
  }

  lemma {:induction false} MapDoneRefl(mem: Memory, places: map<Pfn, Place>, root: Pfn, span: nat,
                                       base: Vpn, size: nat, lo: nat, phys: Pfn, attrs: Attrs, last: Vpn)
    ensures MapDone(mem, places, mem, places, root, span, base, size, lo, lo, phys, attrs, last)
  {
    SameExtends(mem, mem, root, span, base, size, lo, phys, attrs);
    GrownRefl(places, base + lo, last);
  }

  lemma {:induction false} MapDoneTrans(m0: Memory, p0: map<Pfn, Place>, m1: Memory, p1: map<Pfn, Place>,
                                        m2: Memory, p2: map<Pfn, Place>, root: Pfn, span: nat,
                                        base: Vpn, size: nat, lo: nat, mid: nat, hi: nat, phys: Pfn, attrs: Attrs, last: Vpn, level: nat)
    requires MapDone(m0, p0, m1, p1, root, span, base, size, lo, mid, phys, attrs, last)
    requires MapDone(m1, p1, m2, p2, root, span, base, size, mid, hi, phys, attrs, last)
    requires lo <= mid && level <= ROOT_LEVEL && InSpan(base + mid, span) && base + hi <= TableEnd(base + mid, level)
    ensures MapDone(m0, p0, m2, p2, root, span, base, size, lo, hi, phys, attrs, last)
    ensures base + hi < TableEnd(base + mid, level) ==>
              (Blocked(m1, root, base, size, hi, phys) <==> Blocked(m0, root, base, size, hi, phys))
  {
    assert Unfold(0);
    PassInSpan(base + mid, level, span);
    MapsTrans(m0, m1, m2, root, span, base, size, lo, mid, hi, phys, attrs);
    GrownTrans(p0, p1, p2, base + lo, last, base + mid, last);
    SameBlockedAt(m0, m1, root, span, base, size, mid, hi, phys, level);
  }

  lemma {:induction false} MapDoneKeeps(m0: Memory, p0: map<Pfn, Place>, m1: Memory, p1: map<Pfn, Place>, root: Pfn, span: nat,
                                        base: Vpn, size: nat, lo: nat, hi: nat, phys: Pfn, attrs: Attrs, last: Vpn, t: Pfn)
    requires MapDone(m0, p0, m1, p1, root, span, base, size, lo, hi, phys, attrs, last)
    ensures lo <= hi && TableGrown(p0, p1, base + lo, last, t)
  {
    assert Unfold(0);
  }

  lemma {:induction false} PassInSpan(v: Vpn, level: nat, span: nat)
    requires level <= ROOT_LEVEL && InSpan(v, span)
    ensures forall w: Vpn :: v <= w < TableEnd(v, level) ==> InSpan(w, span)
  {
    forall w: Vpn | v <= w < TableEnd(v, level)
      ensures InSpan(w, span)
    {
      SameTable(v, w, level);
      SameBlockAbove(v, w, level + 1, ROOT_LEVEL + 1);
    }
  }

  // ----- The same arithmetic as written with divisions -----

  lemma {:induction false} PageOfIsProduct(b: nat, level: nat)
    ensures PageOf(b, level) == b * LevelPages(level)
  {
    if level > 0 {
      PageOfIsProduct(b, level - 1);
      MulAssoc(512, b, LevelPages(level - 1));
    }
  }

  /** Blocks, alignment and table ends are the quotients, remainders and round-ups by powers of 512. */
  lemma {:induction false} LevelArithmetic(v: Vpn, level: nat)
    ensures Block(v, level) == v / LevelPages(level)
    ensures AlignedForLevel(v, level) <==> v % LevelPages(level) == 0
    ensures TableEnd(v, level) == AlignUp(v + 1, 512 * LevelPages(level))
  {
    BlockBounds(v, level);
    PageOfIsProduct(Block(v, level), level);
    DivModUnique(v, LevelPages(level), Block(v, level));
    var d, b := LevelPages(level + 1), Block(v, level + 1);
    BlockBounds(v, level + 1);
    PageOfIsProduct(b, level + 1);
    PageOfIsProduct(b + 1, level + 1);
    MulAdd(b, 1, d);
    DivModUnique(v + 1 + d - 1, d, b + 1);
  }
}
