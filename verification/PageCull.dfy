/** What culling page tables means for the translation and for the tree. */
module PageCull {
  import opened MemTypes
  import opened PageTree
  import opened PageMap
  import opened PageUpdate

  /** The translation of `v` is kept, or `v` is in `lo..hi` and is now unmapped. */
  ghost predicate PageCulled(mem: Memory, mem': Memory, root: Pfn, lo: Vpn, hi: Vpn, v: Vpn) {
    || Walk(mem', root, ROOT_LEVEL, v) == Walk(mem, root, ROOT_LEVEL, v)
    || (lo <= v < hi && Walk(mem', root, ROOT_LEVEL, v) == None)
  }

  ghost predicate Culled(mem: Memory, mem': Memory, root: Pfn, span: nat, lo: Vpn, hi: Vpn) {
    forall v: Vpn {:trigger PageCulled(mem, mem', root, lo, hi, v)} ::
      InSpan(v, span) ==> PageCulled(mem, mem', root, lo, hi, v)
  }

  lemma {:induction false} CulledTrans(m0: Memory, m1: Memory, m2: Memory, root: Pfn, span: nat, lo: Vpn, mid: Vpn, hi: Vpn)
    requires lo <= mid && Culled(m0, m1, root, span, lo, hi) && Culled(m1, m2, root, span, mid, hi)
    ensures Culled(m0, m2, root, span, lo, hi)
  {
    forall v: Vpn | InSpan(v, span)
      ensures PageCulled(m0, m2, root, lo, hi, v)
    {
      assert PageCulled(m0, m1, root, lo, hi, v);
      assert PageCulled(m1, m2, root, mid, hi, v);
    }
  }

  /** Tables may only be taken away, and only below `level`. */
  ghost predicate Shrunk(places: map<Pfn, Place>, places': map<Pfn, Place>, level: nat) {
    && (forall t :: t in places' ==> t in places && places'[t] == places[t])
    && (forall t :: t in places && places[t].level >= level ==> t in places')
  }

  /** Every table that was taken away may be culled. */
  ghost predicate OnlyCullable(places: map<Pfn, Place>, places': map<Pfn, Place>, can: (Pfn, nat) -> bool) {
    forall t :: t in places && t !in places' ==> can(t, places[t].level)
  }

  /** What a pass over a level-`level` table leaves alone: all tables from that level up, those that may not be culled, and
      the contents above it. */
  ghost predicate TableKept(mem: Memory, places: map<Pfn, Place>, mem': Memory, places': map<Pfn, Place>, level: nat,
                            can: (Pfn, nat) -> bool, t: Pfn)
  {
    && (t in places' ==> t in places && places'[t] == places[t])
    && (t in places && t !in places' ==> places[t].level < level && can(t, places[t].level))
    && (t in places && t in mem && places[t].level > level ==> t in mem' && mem'[t] == mem[t])
  }

  ghost predicate CullFrame(mem: Memory, places: map<Pfn, Place>, mem': Memory, places': map<Pfn, Place>, level: nat,
                            can: (Pfn, nat) -> bool)
  {
    forall t {:trigger TableKept(mem, places, mem', places', level, can, t)} ::
      TableKept(mem, places, mem', places', level, can, t)
  }

  lemma {:induction false} FrameShrinks(mem: Memory, places: map<Pfn, Place>, mem': Memory, places': map<Pfn, Place>, level: nat,
                                        can: (Pfn, nat) -> bool)
    requires CullFrame(mem, places, mem', places', level, can)
    ensures Shrunk(places, places', level) && OnlyCullable(places, places', can)
  {
    forall t
      ensures t in places' ==> t in places && places'[t] == places[t]
      ensures t in places && t !in places' ==> places[t].level < level && can(t, places[t].level)
    {
      assert TableKept(mem, places, mem', places', level, can, t);
    }
  }

  lemma {:induction false} CullFrameTrans(m0: Memory, p0: map<Pfn, Place>, m1: Memory, p1: map<Pfn, Place>,
                                          m2: Memory, p2: map<Pfn, Place>, level: nat, can: (Pfn, nat) -> bool)
    requires CullFrame(m0, p0, m1, p1, level, can) && CullFrame(m1, p1, m2, p2, level, can)
    ensures CullFrame(m0, p0, m2, p2, level, can)
  {
    forall t
      ensures TableKept(m0, p0, m2, p2, level, can, t)
    {
      assert TableKept(m0, p0, m1, p1, level, can, t) && TableKept(m1, p1, m2, p2, level, can, t);
    }
  }

  lemma {:induction false} CullFrameUp(m0: Memory, p0: map<Pfn, Place>, m1: Memory, p1: map<Pfn, Place>, level: nat,
                                       can: (Pfn, nat) -> bool)
    requires CullFrame(m0, p0, m1, p1, level, can)
    ensures CullFrame(m0, p0, m1, p1, level + 1, can)
  {
    var up := level + 1;
    forall t
      ensures TableKept(m0, p0, m1, p1, up, can, t)
    {
      assert TableKept(m0, p0, m1, p1, level, can, t);
    }
  }

  /** None of the first `n` entries of `table` points to a table. */
  ghost predicate NoTablesBefore(mem: Memory, table: Pfn, n: int) {
    forall i :: 0 <= i < n ==> !EntryAt(mem, table, i).Table?
  }

  /** A pass over all of a table from its first page has come to the start of an entry; if the table may be
      culled, no table pointers are left before it. */
  ghost predicate WholePass(mem: Memory, table: Pfn, level: nat, start: Vpn, v: Vpn, mayCull: bool) {
    && start <= v <= TableEnd(start, level)
    && AlignedForLevel(start, level + 1) && AlignedForLevel(v, level)
    && (mayCull ==> NoTablesBefore(mem, table, Block(v, level) - 512 * Block(start, level + 1)))
  }

  lemma {:induction false} WholePassStart(mem: Memory, table: Pfn, level: nat, start: Vpn, mayCull: bool)
    requires AlignedForLevel(start, level + 1)
    ensures WholePass(mem, table, level, start, start, mayCull)
    ensures TableEnd(start, level) == start + LevelPages(level + 1)
  {
    AlignedTable(start, level);
  }

  lemma {:induction false} WholePassStep(mem: Memory, mem': Memory, table: Pfn, level: nat, start: Vpn, v: Vpn, mayCull: bool)
    requires WholePass(mem, table, level, start, v, mayCull) && v < TableEnd(start, level)
    requires forall i :: 0 <= i < ENTRY_COUNT && i != Index(v, level) ==> EntryAt(mem', table, i) == EntryAt(mem, table, i)
    requires mayCull ==> !EntryAt(mem', table, Index(v, level)).Table?
    ensures WholePass(mem', table, level, start, v + LevelPages(level), mayCull)
  {
    SameTable(start, v, level);
    EntryEndsFirst(v, level);
    PageOfNext(Block(v, level), level);
    PageOfAligned(Block(v, level) + 1, level);
  }

  lemma {:induction false} WholePassEnd(mem: Memory, table: Pfn, level: nat, start: Vpn, mayCull: bool)
    requires WholePass(mem, table, level, start, TableEnd(start, level), mayCull)
    ensures mayCull ==> NoChildTables(mem, table)
  {
    AlignedTable(start, level);
  }

  lemma {:induction false} WholePassCovers(mem: Memory, table: Pfn, level: nat, start: Vpn, v: Vpn, mayCull: bool)
    requires WholePass(mem, table, level, start, v, mayCull) && v < TableEnd(start, level)
    ensures v + LevelPages(level) <= TableEnd(start, level)
  {
    SameTable(start, v, level);
    EntryEndsFirst(v, level);
  }

  ghost predicate HereditaryAt(mem: Memory, places: map<Pfn, Place>, can: (Pfn, nat) -> bool, t: Pfn, i: nat) {
    t in places && places[t].level > 0 && EntryAt(mem, t, i).Table? && can(t, places[t].level) ==>
      can(EntryAt(mem, t, i).next, places[t].level - 1)
  }

  /** A table that may be culled has only child tables that may be culled. */
  ghost predicate Hereditary(mem: Memory, places: map<Pfn, Place>, can: (Pfn, nat) -> bool) {
    forall t, i {:trigger HereditaryAt(mem, places, can, t, i)} :: HereditaryAt(mem, places, can, t, i)
  }

  predicate TableIsEmpty(mem: Memory, table: Pfn) {
    forall i :: 0 <= i < ENTRY_COUNT ==> EntryAt(mem, table, i).Absent?
  }

  /** Unlinking an empty table changes nothing; unlinking any table changes only its own block of pages. */
  lemma {:induction false} UnlinkWalk(mem: Memory, root: Pfn, places: map<Pfn, Place>, span: nat,
                                      table: Pfn, v: Vpn, lo: Vpn, hi: Vpn)
    requires WellFormed(mem, root, places, span) && table in places
    requires Block(v, places[table].level + 1) == places[table].block
    requires EntryAt(mem, table, Index(v, places[table].level)).Table?
    requires || TableIsEmpty(mem, EntryAt(mem, table, Index(v, places[table].level)).next)
             || lo <= PageOf(Block(v, places[table].level), places[table].level)
                <= PageOf(Block(v, places[table].level), places[table].level) + LevelPages(places[table].level) <= hi
    ensures Culled(mem, SetEntry(mem, table, Index(v, places[table].level), Absent), root, span, lo, hi)
  {
    var level, index := places[table].level, Index(v, places[table].level);
    assert LinksChild(mem, places, table, index);
    UnderEntryIndex(places[table], index, v);
    forall w: Vpn | InSpan(w, span)
      ensures PageCulled(mem, SetEntry(mem, table, index, Absent), root, lo, hi, w)
    {
      if UnderEntry(places[table], index, w) {
        SetEntryHere(mem, root, places, span, table, index, Absent, w);
        BlockBounds(w, level);
      } else {
        SetEntryElsewhere(mem, places, table, index, Absent, root, ROOT_LEVEL, w);
      }
    }
  }

  lemma {:induction false} HereditaryKept(mem: Memory, places: map<Pfn, Place>, can: (Pfn, nat) -> bool,
                                          table: Pfn, index: nat, next: Pfn)
    requires Hereditary(mem, places, can) && table in mem && index < |mem[table]|
    ensures Hereditary(SetEntry(mem, table, index, Absent), places - {next}, can)
  {
    var mem', places' := SetEntry(mem, table, index, Absent), places - {next};
    forall t, i
      ensures HereditaryAt(mem', places', can, t, i)
    {
      assert HereditaryAt(mem, places, can, t, i);
    }
  }

  lemma {:induction false} LeafHasNoTables(mem: Memory, places: map<Pfn, Place>, table: Pfn)
    requires Placed(mem, places) && table in places && places[table].level == 0
    ensures NoChildTables(mem, table)
  {
    forall i | 0 <= i < ENTRY_COUNT
      ensures !EntryAt(mem, table, i).Table?
    {
      assert LinksChild(mem, places, table, i);
    }
  }

  /** A table's span starts with its first entry and ends with its last. */
  lemma {:induction false} AlignedTable(v: Vpn, level: nat)
    requires AlignedForLevel(v, level + 1)
    ensures AlignedForLevel(v, level) && Block(v, level) == 512 * Block(v, level + 1)
    ensures TableEnd(v, level) == v + LevelPages(level + 1)
    ensures Block(TableEnd(v, level), level) == 512 * Block(v, level + 1) + 512
  {
    AlignedBelow(v, level + 1);
    TableEndBounds(v, level);
    PageOfShift(Block(v, level + 1), level);
    PageOfShift(Block(v, level + 1) + 1, level);
    PageOfAligned(512 * Block(v, level + 1), level);
    PageOfAligned(512 * (Block(v, level + 1) + 1), level);
  }

  /** Culling in a range that is already unmapped changes no translation. */
  lemma {:induction false} CullUnmapped(mem: Memory, mem': Memory, root: Pfn, span: nat, lo: Vpn, hi: Vpn, v: Vpn)
    requires Culled(mem, mem', root, span, lo, hi) && InSpan(v, span)
    requires forall w: Vpn :: InSpan(w, span) && lo <= w < hi ==> Walk(mem, root, ROOT_LEVEL, w) == None
    ensures Walk(mem', root, ROOT_LEVEL, v) == Walk(mem, root, ROOT_LEVEL, v)
  {
    assert PageCulled(mem, mem', root, lo, hi, v);
  }
}
