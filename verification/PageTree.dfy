/** Four-level page tables as memory contents, and what they mean.
 *
 *  Memory is a map from frame numbers to tables of entries.  The meaning of a table is the
 *  translation `Walk` that the hardware performs.  `WellFormed` says that the tables below a root
 *  form a tree: every table has a place (its level and the block of pages it covers), every
 *  entry that points to a table points to one at the child's place, and every placed table is
 *  on the path of its own pages.
 */
module PageTree {
  import opened MemTypes

  const ENTRY_COUNT: nat := 512
  const LEVEL_COUNT: nat := 4
  const ROOT_LEVEL: nat := LEVEL_COUNT - 1

  datatype Perms = Perms(read: bool, write: bool, execute: bool, user: bool, global: bool)

  /** The attribute bits of a terminal entry; `rest` holds the cache-mode bits, uninterpreted. */
  datatype Attrs = Attrs(writable: bool, user: bool, noExec: bool, global: bool, rest: bv64)

  datatype Entry = Absent | Table(next: Pfn) | Page(frame: Pfn, attrs: Attrs)

  datatype Translation = Translation(frame: Pfn, attrs: Attrs, level: nat)

  datatype Place = Place(level: nat, block: nat)

  type Memory = map<Pfn, seq<Entry>>

  // ----- Level arithmetic -----

  /** The first page of block `block` of a level's entries: `block << (9 * level)`. */
  function PageOf(block: nat, level: nat): Vpn {
    if level == 0 then block else 512 * PageOf(block, level - 1)
  }

  /** The number of pages that one entry of a level-`level` table covers. */
  function LevelPages(level: nat): (n: nat)
    ensures n >= 1
  {
    if level == 0 then 1 else 512 * LevelPages(level - 1)
  }

  /** The number of the level-`level` entry block that `v` lies in: `v >> (9 * level)`. */
  function Block(v: Vpn, level: nat): nat {
    if level == 0 then v else Block(v, level - 1) / 512
  }

  function Index(v: Vpn, level: nat): (i: nat)
    ensures i < ENTRY_COUNT
  {
    Block(v, level) % 512
  }

  predicate AlignedForLevel(v: nat, level: nat) {
    PageOf(Block(v, level), level) == v
  }

  lemma {:induction false} PageOfAdd(a: nat, n: nat, level: nat)
    ensures PageOf(a + n, level) == PageOf(a, level) + PageOf(n, level)
  {
    if level > 0 {
      PageOfAdd(a, n, level - 1);
    }
  }

  lemma {:induction false} PageOfShift(a: nat, level: nat)
    ensures PageOf(512 * a, level) == PageOf(a, level + 1)
  {
    if level > 0 {
      PageOfShift(a, level - 1);
    }
  }

  lemma {:induction false} PageOfNext(a: nat, level: nat)
    ensures PageOf(a + 1, level) == PageOf(a, level) + LevelPages(level)
  {
    if level > 0 {
      PageOfNext(a, level - 1);
    }
  }

  lemma {:induction false} PageOfMono(a: nat, b: nat, level: nat)
    requires a < b
    ensures PageOf(a, level) + LevelPages(level) <= PageOf(b, level)
  {
    PageOfNext(a, level);
    PageOfAdd(a + 1, b - a - 1, level);
  }

  lemma {:induction false} BlockBounds(v: Vpn, level: nat)
    ensures PageOf(Block(v, level), level) <= v < PageOf(Block(v, level), level) + LevelPages(level)
  {
    if level > 0 {
      BlockBounds(v, level - 1);
      var b, c := Block(v, level - 1), Block(v, level);
      PageOfShift(c, level - 1);
      PageOfAdd(512 * c, b - 512 * c, level - 1);
      PageOfMono(b, 512 * (c + 1), level - 1);
      PageOfShift(c + 1, level - 1);
      PageOfNext(c, level);
    }
  }

  lemma {:induction false} BlockUnique(v: Vpn, level: nat, b: nat)
    requires PageOf(b, level) <= v < PageOf(b, level) + LevelPages(level)
    ensures Block(v, level) == b
  {
    BlockBounds(v, level);
    var c := Block(v, level);
    if c < b {
      PageOfMono(c, b, level);
    } else if b < c {
      PageOfMono(b, c, level);
    }
  }

  lemma {:induction false} BlockMono(v: Vpn, w: Vpn, level: nat)
    requires v <= w
    ensures Block(v, level) <= Block(w, level)
  {
    if level > 0 {
      BlockMono(v, w, level - 1);
    }
  }

  lemma {:induction false} SameBlockAbove(v: Vpn, w: Vpn, low: nat, high: nat)
    requires low <= high && Block(v, low) == Block(w, low)
    ensures Block(v, high) == Block(w, high)
  {
    if low < high {
      SameBlockAbove(v, w, low, high - 1);
    }
  }

  // ----- Translation -----

  function EntryAt(mem: Memory, table: Pfn, index: nat): Entry {
    if table in mem && index < |mem[table]| then mem[table][index] else Absent
  }

  /** The translation of `v` by a walk that starts in `table`. */
  function Walk(mem: Memory, table: Pfn, level: nat, v: Vpn): Option<Translation>
    decreases level
  {
    match EntryAt(mem, table, Index(v, level))
    case Absent => None
    case Page(frame, attrs) =>
      BlockBounds(v, level);
      Some(Translation(frame + (v - PageOf(Block(v, level), level)), attrs, level))
    case Table(next) => if level == 0 then None else Walk(mem, next, level - 1, v)
  }

  /** The level-`level` table that a walk for `v` from the root passes through, if it gets there. */
  function TableAt(mem: Memory, root: Pfn, level: nat, v: Vpn): Option<Pfn>
    requires level <= ROOT_LEVEL
    decreases ROOT_LEVEL - level
  {
    if level == ROOT_LEVEL then Some(root)
    else
      match TableAt(mem, root, level + 1, v)
      case None => None
      case Some(table) =>
        match EntryAt(mem, table, Index(v, level + 1))
        case Table(next) => Some(next)
        case _ => None
  }

  // ----- Well-formedness -----

  ghost predicate Placed(mem: Memory, places: map<Pfn, Place>) {
    && (forall t :: t in places ==> t in mem && |mem[t]| == ENTRY_COUNT && places[t].level <= ROOT_LEVEL)
    && (forall t, i {:trigger LinksChild(mem, places, t, i)} ::
          t in places && 0 <= i < ENTRY_COUNT ==> LinksChild(mem, places, t, i))
  }

  /** If entry `i` of `t` points to a table, that table's place is the child's place. */
  ghost predicate LinksChild(mem: Memory, places: map<Pfn, Place>, t: Pfn, i: nat)
    requires t in places && t in mem && i < |mem[t]|
  {
    mem[t][i].Table? ==>
      && places[t].level > 0
      && mem[t][i].next in places
      && places[mem[t][i].next] == ChildPlace(places[t], i)
  }

  /** The place of the table behind an entry. */
  function ChildPlace(p: Place, index: nat): Place
    requires p.level > 0
  {
    Place(p.level - 1, 512 * p.block + index)
  }

  /** The frame of every page entry is aligned for the entry's size. */
  ghost predicate FramesAligned(mem: Memory, places: map<Pfn, Place>) {
    forall t, i :: t in places && t in mem && 0 <= i < |mem[t]| && mem[t][i].Page? ==>
      AlignedForLevel(mem[t][i].frame, places[t].level)
  }

  function FirstPage(l: Place): Vpn {
    PageOf(l.block, l.level + 1)
  }

  ghost predicate WellFormed(mem: Memory, root: Pfn, places: map<Pfn, Place>, span: nat) {
    && Placed(mem, places)
    && root in places && places[root] == Place(ROOT_LEVEL, span)
    && (forall t {:trigger OnOwnPath(mem, root, places, span, t)} ::
          t in places ==> OnOwnPath(mem, root, places, span, t))
  }

  /** The tables form a tree, and with the frames that can still be handed out they are all of `frames`. */
  ghost predicate TablesOk(mem: Memory, root: Pfn, places: map<Pfn, Place>, span: nat, pool: set<Pfn>, frames: set<Pfn>) {
    WellFormed(mem, root, places, span) && FramesAligned(mem, places) && pool !! places.Keys && places.Keys + pool == frames
  }

  /** Table `t` is the one reached for the first page it covers. */
  ghost predicate OnOwnPath(mem: Memory, root: Pfn, places: map<Pfn, Place>, span: nat, t: Pfn)
    requires t in places && places[t].level <= ROOT_LEVEL
  {
    && InSpan(FirstPage(places[t]), span)
    && TableAt(mem, root, places[t].level, FirstPage(places[t])) == Some(t)
  }

  ghost predicate InSpan(v: Vpn, span: nat) {
    Block(v, ROOT_LEVEL + 1) == span
  }

  lemma {:induction false} SpanConvex(a: Vpn, v: Vpn, b: Vpn, span: nat)
    requires a <= v <= b && InSpan(a, span) && InSpan(b, span)
    ensures InSpan(v, span)
  {
    BlockMono(a, v, ROOT_LEVEL + 1);
    BlockMono(v, b, ROOT_LEVEL + 1);
  }

  /** Every table on the path of `v` has the place of the pages it is reached for. */
  lemma {:induction false} PathPlace(mem: Memory, root: Pfn, places: map<Pfn, Place>, span: nat, level: nat, v: Vpn)
    requires Placed(mem, places) && root in places && places[root] == Place(ROOT_LEVEL, span)
    requires InSpan(v, span) && level <= ROOT_LEVEL
    requires TableAt(mem, root, level, v).Some?
    ensures TableAt(mem, root, level, v).value in places
    ensures places[TableAt(mem, root, level, v).value] == Place(level, Block(v, level + 1))
    decreases ROOT_LEVEL - level
  {
    if level < ROOT_LEVEL {
      PathPlace(mem, root, places, span, level + 1, v);
      assert LinksChild(mem, places, TableAt(mem, root, level + 1, v).value, Index(v, level + 1));
    }
  }

  lemma {:induction false} TableAtSameBlock(mem: Memory, root: Pfn, level: nat, v: Vpn, w: Vpn)
    requires level <= ROOT_LEVEL && Block(v, level + 1) == Block(w, level + 1)
    ensures TableAt(mem, root, level, v) == TableAt(mem, root, level, w)
    decreases ROOT_LEVEL - level
  {
    if level < ROOT_LEVEL {
      TableAtSameBlock(mem, root, level + 1, v, w);
    }
  }

  /** A placed table is on the path of each of its pages. */
  lemma {:induction false} OnPath(mem: Memory, root: Pfn, places: map<Pfn, Place>, span: nat, t: Pfn, v: Vpn)
    requires WellFormed(mem, root, places, span) && t in places
    requires Block(v, places[t].level + 1) == places[t].block
    ensures TableAt(mem, root, places[t].level, v) == Some(t)
  {
    assert OnOwnPath(mem, root, places, span, t);
    var w := FirstPage(places[t]);
    BlockUnique(w, places[t].level + 1, places[t].block);
    TableAtSameBlock(mem, root, places[t].level, v, w);
  }

  /** The tables form a tree: a table is reached at one level and for one block of pages only. */
  lemma {:induction false} NoSharing(mem: Memory, root: Pfn, places: map<Pfn, Place>, span: nat,
                                     j: nat, v: Vpn, k: nat, w: Vpn)
    requires WellFormed(mem, root, places, span)
    requires InSpan(v, span) && InSpan(w, span) && j <= ROOT_LEVEL && k <= ROOT_LEVEL
    requires TableAt(mem, root, j, v).Some?
    ensures TableAt(mem, root, j, v) == TableAt(mem, root, k, w) <==> j == k && Block(v, j + 1) == Block(w, k + 1)
  {
    PathPlace(mem, root, places, span, j, v);
    if TableAt(mem, root, j, v) == TableAt(mem, root, k, w) {
      PathPlace(mem, root, places, span, k, w);
    }
    if j == k && Block(v, j + 1) == Block(w, k + 1) {
      TableAtSameBlock(mem, root, j, v, w);
    }
  }

  /** The placed tables are exactly those that some walk from the root passes through. */
  lemma {:induction false} PlacedIffReached(mem: Memory, root: Pfn, places: map<Pfn, Place>, span: nat, t: Pfn)
    requires WellFormed(mem, root, places, span)
    ensures t in places <==>
            exists level: nat, v: Vpn :: level <= ROOT_LEVEL && InSpan(v, span) && TableAt(mem, root, level, v) == Some(t)
  {
    if t in places {
      assert OnOwnPath(mem, root, places, span, t);
      var level: nat, v: Vpn := places[t].level, FirstPage(places[t]);
      assert level <= ROOT_LEVEL && InSpan(v, span) && TableAt(mem, root, level, v) == Some(t);
    }
    forall level: nat, v: Vpn | level <= ROOT_LEVEL && InSpan(v, span) && TableAt(mem, root, level, v) == Some(t)
      ensures t in places
    {
      PathPlace(mem, root, places, span, level, v);
    }
  }

  /** A walk from the root continues as a walk from any table on its path. */
  lemma {:induction false} WalkVia(mem: Memory, root: Pfn, level: nat, v: Vpn)
    requires level <= ROOT_LEVEL && TableAt(mem, root, level, v).Some?
    ensures Walk(mem, root, ROOT_LEVEL, v) == Walk(mem, TableAt(mem, root, level, v).value, level, v)
    decreases ROOT_LEVEL - level
  {
    if level < ROOT_LEVEL {
      WalkVia(mem, root, level + 1, v);
    }
  }

  lemma {:induction false} PathIsUpward(mem: Memory, root: Pfn, low: nat, high: nat, v: Vpn)
    requires low <= high <= ROOT_LEVEL && TableAt(mem, root, low, v).Some?
    ensures TableAt(mem, root, high, v).Some?
    decreases high - low
  {
    if low < high {
      PathIsUpward(mem, root, low + 1, high, v);
    }
  }

  /** A path that reaches below `table` goes through one of its table entries. */
  lemma {:induction false} PathDownTo(mem: Memory, root: Pfn, places: map<Pfn, Place>, span: nat,
                                      table: Pfn, low: nat, v: Vpn)
    requires WellFormed(mem, root, places, span) && table in places && low < places[table].level
    requires Block(v, places[table].level + 1) == places[table].block
    requires TableAt(mem, root, low, v).Some?
    ensures mem[table][Index(v, places[table].level)].Table?
    ensures TableAt(mem, root, places[table].level - 1, v) == Some(mem[table][Index(v, places[table].level)].next)
  {
    OnPath(mem, root, places, span, table, v);
    PathIsUpward(mem, root, low, places[table].level - 1, v);
  }

  // ----- Changing one entry -----

  function SetEntry(mem: Memory, table: Pfn, index: nat, e: Entry): (r: Memory)
    requires table in mem && index < |mem[table]|
  {
    mem[table := mem[table][index := e]]
  }

  /** Page `v` lies in the block of entry `index` of a table at `p`. */
  predicate UnderEntry(p: Place, index: nat, v: Vpn) {
    Block(v, p.level) == 512 * p.block + index
  }

  lemma {:induction false} UnderEntryIndex(p: Place, index: nat, v: Vpn)
    requires index < ENTRY_COUNT
    ensures UnderEntry(p, index, v) <==> Block(v, p.level + 1) == p.block && Index(v, p.level) == index
  {
  }

  /** An entry's change is invisible to every walk outside the entry's block. */
  lemma {:induction false} SetEntryElsewhere(mem: Memory, places: map<Pfn, Place>, table: Pfn, index: nat, e: Entry,
                                             start: Pfn, level: nat, v: Vpn)
    requires Placed(mem, places) && table in places && index < ENTRY_COUNT
    requires start in places && places[start] == Place(level, Block(v, level + 1))
    requires !UnderEntry(places[table], index, v)
    ensures Walk(SetEntry(mem, table, index, e), start, level, v) == Walk(mem, start, level, v)
    decreases level
  {
    var i := Index(v, level);
    UnderEntryIndex(places[table], index, v);
    assert EntryAt(SetEntry(mem, table, index, e), start, i) == EntryAt(mem, start, i);
    assert LinksChild(mem, places, start, i);
    if mem[start][i].Table? {
      SetEntryElsewhere(mem, places, table, index, e, mem[start][i].next, level - 1, v);
    }
  }

  /** An entry's change keeps the path down to the entry's table, and all other paths. */
  lemma {:induction false} SetEntryPath(mem: Memory, root: Pfn, places: map<Pfn, Place>, span: nat,
                                        table: Pfn, index: nat, e: Entry, level: nat, v: Vpn)
    requires Placed(mem, places) && root in places && places[root] == Place(ROOT_LEVEL, span)
    requires table in places && index < ENTRY_COUNT && level <= ROOT_LEVEL && InSpan(v, span)
    requires || level >= places[table].level
             || !UnderEntry(places[table], index, v)
             || (!mem[table][index].Table? && !e.Table?)
    ensures TableAt(SetEntry(mem, table, index, e), root, level, v) == TableAt(mem, root, level, v)
    decreases ROOT_LEVEL - level
  {
    if level < ROOT_LEVEL {
      SetEntryPath(mem, root, places, span, table, index, e, level + 1, v);
      if TableAt(mem, root, level + 1, v).Some? {
        PathPlace(mem, root, places, span, level + 1, v);
        UnderEntryIndex(places[table], index, v);
      }
    }
  }

  /** The translation that an entry other than a table pointer gives a page. */
  function Resolve(e: Entry, level: nat, v: Vpn): Option<Translation> {
    match e
    case Page(frame, attrs) =>
      BlockBounds(v, level);
      Some(Translation(frame + (v - PageOf(Block(v, level), level)), attrs, level))
    case _ => None
  }

  /** A walk through a changed entry follows the entry's new value. */
  lemma {:induction false} SetEntryHere(mem: Memory, root: Pfn, places: map<Pfn, Place>, span: nat,
                                        table: Pfn, index: nat, e: Entry, v: Vpn)
    requires WellFormed(mem, root, places, span) && table in places && index < ENTRY_COUNT && InSpan(v, span)
    requires UnderEntry(places[table], index, v)
    ensures !mem[table][index].Table? ==>
              Walk(mem, root, ROOT_LEVEL, v) == Resolve(mem[table][index], places[table].level, v)
    ensures mem[table][index].Table? && places[table].level > 0 ==>
              Walk(mem, root, ROOT_LEVEL, v) == Walk(mem, mem[table][index].next, places[table].level - 1, v)
    ensures var mem' := SetEntry(mem, table, index, e);
            if e.Table? && places[table].level > 0
            then Walk(mem', root, ROOT_LEVEL, v) == Walk(mem', e.next, places[table].level - 1, v)
            else Walk(mem', root, ROOT_LEVEL, v) == Resolve(e, places[table].level, v)
  {
    var level := places[table].level;
    UnderEntryIndex(places[table], index, v);
    OnPath(mem, root, places, span, table, v);
    WalkVia(mem, root, level, v);
    SetEntryPath(mem, root, places, span, table, index, e, level, v);
    WalkVia(SetEntry(mem, table, index, e), root, level, v);
  }

  /** Writing a page or an empty entry over a page or an empty entry keeps the tree. */
  lemma {:induction false} SetLeaf(mem: Memory, root: Pfn, places: map<Pfn, Place>, span: nat,
                                   table: Pfn, index: nat, e: Entry)
    requires WellFormed(mem, root, places, span) && table in places && index < ENTRY_COUNT
    requires !mem[table][index].Table? && !e.Table?
    ensures WellFormed(SetEntry(mem, table, index, e), root, places, span)
  {
    var mem': Memory := SetEntry(mem, table, index, e);
    forall t, i | t in places && 0 <= i < ENTRY_COUNT
      ensures LinksChild(mem', places, t, i)
    {
      assert LinksChild(mem, places, t, i);
    }
    forall t | t in places
      ensures OnOwnPath(mem', root, places, span, t)
    {
      assert OnOwnPath(mem, root, places, span, t);
      SetEntryPath(mem, root, places, span, table, index, e, places[t].level, FirstPage(places[t]));
    }
  }

  // ----- Memory outside the tree -----

  ghost predicate AgreeOn(mem: Memory, mem': Memory, places: map<Pfn, Place>) {
    forall t :: t in places ==> t in mem && t in mem' && mem'[t] == mem[t]
  }

  lemma {:induction false} OutsideWalk(mem: Memory, mem': Memory, places: map<Pfn, Place>, start: Pfn, level: nat, v: Vpn)
    requires Placed(mem, places) && start in places && places[start].level == level
    requires AgreeOn(mem, mem', places)
    ensures Walk(mem', start, level, v) == Walk(mem, start, level, v)
    decreases level
  {
    assert LinksChild(mem, places, start, Index(v, level));
    if mem[start][Index(v, level)].Table? {
      OutsideWalk(mem, mem', places, mem[start][Index(v, level)].next, level - 1, v);
    }
  }

  lemma {:induction false} OutsidePath(mem: Memory, mem': Memory, root: Pfn, places: map<Pfn, Place>, span: nat,
                                       level: nat, v: Vpn)
    requires Placed(mem, places) && root in places && places[root] == Place(ROOT_LEVEL, span)
    requires level <= ROOT_LEVEL && InSpan(v, span) && AgreeOn(mem, mem', places)
    ensures TableAt(mem', root, level, v) == TableAt(mem, root, level, v)
    decreases ROOT_LEVEL - level
  {
    if level < ROOT_LEVEL {
      OutsidePath(mem, mem', root, places, span, level + 1, v);
      if TableAt(mem, root, level + 1, v).Some? {
        PathPlace(mem, root, places, span, level + 1, v);
      }
    }
  }

  /** Memory outside the tree does not matter to it. */
  lemma {:induction false} Outside(mem: Memory, mem': Memory, root: Pfn, places: map<Pfn, Place>, span: nat)
    requires WellFormed(mem, root, places, span) && AgreeOn(mem, mem', places)
    ensures WellFormed(mem', root, places, span)
  {
    forall t, i | t in places && 0 <= i < ENTRY_COUNT
      ensures LinksChild(mem', places, t, i)
    {
      assert LinksChild(mem, places, t, i);
    }
    forall t | t in places
      ensures OnOwnPath(mem', root, places, span, t)
    {
      assert OnOwnPath(mem, root, places, span, t);
      OutsidePath(mem, mem', root, places, span, places[t].level, FirstPage(places[t]));
    }
  }

  // ----- Linking and unlinking a table -----

  lemma {:induction false} FirstPageOfChild(p: Place, index: nat, v: Vpn)
    requires 0 < p.level <= ROOT_LEVEL && UnderEntry(p, index, v)
    ensures UnderEntry(p, index, FirstPage(ChildPlace(p, index)))
    ensures Block(FirstPage(ChildPlace(p, index)), ROOT_LEVEL + 1) == Block(v, ROOT_LEVEL + 1)
  {
    var w := FirstPage(ChildPlace(p, index));
    BlockUnique(w, p.level, 512 * p.block + index);
    SameBlockAbove(v, w, p.level, ROOT_LEVEL + 1);
  }

  function EmptyTable(): (t: seq<Entry>)
    ensures |t| == ENTRY_COUNT && forall i :: 0 <= i < ENTRY_COUNT ==> t[i] == Absent
  {
    seq(ENTRY_COUNT, _ => Absent)
  }

  /** Linking a cleared table into an empty entry changes no translation. */
  lemma {:induction false} LinkTableWalk(mem: Memory, root: Pfn, places: map<Pfn, Place>, span: nat,
                                         table: Pfn, index: nat, next: Pfn, w: Vpn)
    requires WellFormed(mem, root, places, span) && table in places && index < ENTRY_COUNT && places[table].level > 0
    requires mem[table][index].Absent? && next !in places && next in mem && mem[next] == EmptyTable()
    requires InSpan(w, span)
    ensures Walk(SetEntry(mem, table, index, Table(next)), root, ROOT_LEVEL, w) == Walk(mem, root, ROOT_LEVEL, w)
  {
    if UnderEntry(places[table], index, w) {
      SetEntryHere(mem, root, places, span, table, index, Table(next), w);
    } else {
      SetEntryElsewhere(mem, places, table, index, Table(next), root, ROOT_LEVEL, w);
    }
  }

  /** Linking a cleared table into an empty entry extends the tree by exactly that table. */
  lemma {:induction false} LinkTable(mem: Memory, root: Pfn, places: map<Pfn, Place>, span: nat,
                                     table: Pfn, index: nat, next: Pfn, v: Vpn)
    requires WellFormed(mem, root, places, span) && table in places && index < ENTRY_COUNT && places[table].level > 0
    requires mem[table][index].Absent? && next !in places && next in mem && mem[next] == EmptyTable()
    requires InSpan(v, span) && UnderEntry(places[table], index, v)
    ensures WellFormed(SetEntry(mem, table, index, Table(next)), root,
                       places[next := ChildPlace(places[table], index)], span)
  {
    var mem': Memory := SetEntry(mem, table, index, Table(next));
    var places' := places[next := ChildPlace(places[table], index)];
    forall t, i | t in places' && 0 <= i < ENTRY_COUNT
      ensures LinksChild(mem', places', t, i)
    {
      if t != next {
        assert LinksChild(mem, places, t, i);
      }
    }
    forall t | t in places'
      ensures OnOwnPath(mem', root, places', span, t)
    {
      if t == next {
        FirstPageOfChild(places[table], index, v);
        LinkedPath(mem, root, places, span, table, index, next, FirstPage(places'[t]));
      } else {
        LinkKeepsPath(mem, root, places, span, table, index, next, t);
      }
    }
  }

  lemma {:induction false} LinkedPath(mem: Memory, root: Pfn, places: map<Pfn, Place>, span: nat,
                                      table: Pfn, index: nat, next: Pfn, w: Vpn)
    requires WellFormed(mem, root, places, span) && table in places && index < ENTRY_COUNT && places[table].level > 0
    requires InSpan(w, span) && UnderEntry(places[table], index, w)
    ensures TableAt(SetEntry(mem, table, index, Table(next)), root, places[table].level - 1, w) == Some(next)
  {
    UnderEntryIndex(places[table], index, w);
    OnPath(mem, root, places, span, table, w);
    SetEntryPath(mem, root, places, span, table, index, Table(next), places[table].level, w);
  }

  lemma {:induction false} LinkKeepsPath(mem: Memory, root: Pfn, places: map<Pfn, Place>, span: nat,
                                         table: Pfn, index: nat, next: Pfn, t: Pfn)
    requires WellFormed(mem, root, places, span) && table in places && index < ENTRY_COUNT && t in places
    requires mem[table][index].Absent?
    ensures OnOwnPath(SetEntry(mem, table, index, Table(next)), root, places, span, t)
  {
    var w, p := FirstPage(places[t]), places[table];
    assert OnOwnPath(mem, root, places, span, t);
    if places[t].level < p.level && UnderEntry(p, index, w) {
      UnderEntryIndex(p, index, w);
      PathDownTo(mem, root, places, span, table, places[t].level, w);
      assert false;
    }
    SetEntryPath(mem, root, places, span, table, index, Table(next), places[t].level, w);
  }

  /** A table is linked from one entry only. */
  lemma {:induction false} OneParent(mem: Memory, root: Pfn, places: map<Pfn, Place>, span: nat,
                                     t: Pfn, i: nat, u: Pfn, j: nat)
    requires WellFormed(mem, root, places, span) && t in places && u in places && i < ENTRY_COUNT && j < ENTRY_COUNT
    requires mem[t][i].Table? && mem[u][j] == mem[t][i]
    ensures t == u && i == j
  {
    assert LinksChild(mem, places, t, i) && LinksChild(mem, places, u, j);
    assert places[t] == places[u];
    assert OnOwnPath(mem, root, places, span, t) && OnOwnPath(mem, root, places, span, u);
  }

  /** `table` has no entry that points to a table. */
  ghost predicate NoChildTables(mem: Memory, table: Pfn) {
    forall i :: 0 <= i < ENTRY_COUNT ==> !EntryAt(mem, table, i).Table?
  }

  /** Unlinking a table that has no child tables takes exactly that table out of the tree. */
  lemma {:induction false} UnlinkTable(mem: Memory, root: Pfn, places: map<Pfn, Place>, span: nat, table: Pfn, index: nat)
    requires WellFormed(mem, root, places, span) && table in places && index < ENTRY_COUNT
    requires mem[table][index].Table? && NoChildTables(mem, mem[table][index].next)
    ensures WellFormed(SetEntry(mem, table, index, Absent), root, places - {mem[table][index].next}, span)
  {
    var next := mem[table][index].next;
    var mem': Memory := SetEntry(mem, table, index, Absent);
    var places' := places - {next};
    assert LinksChild(mem, places, table, index);
    forall t, i | t in places' && 0 <= i < ENTRY_COUNT
      ensures LinksChild(mem', places', t, i)
    {
      assert LinksChild(mem, places, t, i);
      if mem[t][i] == mem[table][index] {
        OneParent(mem, root, places, span, table, index, t, i);
      }
    }
    forall t | t in places'
      ensures OnOwnPath(mem', root, places', span, t)
    {
      UnlinkKeepsPath(mem, root, places, span, table, index, t);
    }
  }

  lemma {:induction false} UnlinkKeepsPath(mem: Memory, root: Pfn, places: map<Pfn, Place>, span: nat,
                                           table: Pfn, index: nat, t: Pfn)
    requires WellFormed(mem, root, places, span) && table in places && index < ENTRY_COUNT && t in places
    requires mem[table][index].Table? && t != mem[table][index].next && NoChildTables(mem, mem[table][index].next)
    ensures OnOwnPath(SetEntry(mem, table, index, Absent), root, places, span, t)
  {
    var w, p, next := FirstPage(places[t]), places[table], mem[table][index].next;
    assert OnOwnPath(mem, root, places, span, t);
    assert LinksChild(mem, places, table, index);
    if places[t].level < p.level && UnderEntry(p, index, w) {
      UnderEntryIndex(p, index, w);
      PathDownTo(mem, root, places, span, table, places[t].level, w);
      if places[t].level < p.level - 1 {
        PathDownTo(mem, root, places, span, next, places[t].level, w);
      }
      assert false;
    }
    SetEntryPath(mem, root, places, span, table, index, Absent, places[t].level, w);
  }
}
