/** The page table operations: mapping, walking updates and culling, in place. */
module PageTable {
  import opened Arith
  import opened MemTypes
  import opened PageTree
  import opened PageMap
  import opened PageUpdate
  import opened PageCull
  import opened CullPass

  datatype Status = Ok | OutOfMemory | ResourceOverlap

  class MappingPointer {
    const base: Vpn
    const size: nat
    var offset: nat

    constructor (base: Vpn, size: nat)
      ensures this.base == base && this.size == size && offset == 0
    {
      this.base, this.size, this.offset := base, size, 0;
    }

    predicate Valid()
      reads this
    {
      offset <= size
    }

    function Virt(): Vpn
      reads this
    {
      base + offset
    }

    function End(): Vpn {
      base + size
    }

    function Last(): Vpn {
      if size > 0 then base + size - 1 else base
    }

    function RemainingPages(): nat
      requires Valid()
      reads this
    {
      size - offset
    }
  }

  predicate CoversLevelEntry(p: MappingPointer, level: nat)
    requires p.Valid()
    reads p
  {
    AlignedForLevel(p.Virt(), level) && p.RemainingPages() >= LevelPages(level)
  }

  predicate CanUseLevelPage(level: nat, p: MappingPointer, phys: Pfn)
    requires p.Valid()
    reads p
  {
    CoversLevelEntry(p, level) && AlignedForLevel(phys + p.offset, level)
  }

  class PageTable {
    const root: Pfn
    ghost const span: nat
    var mem: Memory
    /** The frames that the table allocator can still hand out. */
    var pool: set<Pfn>
    ghost var places: map<Pfn, Place>
    /** All frames that are in use as tables or can be handed out. */
    ghost const frames: set<Pfn>

    ghost predicate Valid()
      reads this
    {
      TablesOk(mem, root, places, span, pool, frames)
    }

    /** A page table with a cleared root table. */
    constructor (root: Pfn, span: nat, pool: set<Pfn>)
      requires root !in pool
      ensures Valid() && this.root == root && this.span == span && this.pool == pool
      ensures frames == {root} + pool && places == map[root := Place(ROOT_LEVEL, span)]
      ensures forall v: Vpn :: InSpan(v, span) ==> Lookup(v) == None
    {
      this.root, this.span, this.pool := root, span, pool;
      mem := map[root := EmptyTable()];
      places := map[root := Place(ROOT_LEVEL, span)];
      frames := {root} + pool;
      new;
      BlockUnique(PageOf(span, ROOT_LEVEL + 1), ROOT_LEVEL + 1, span);
      assert TableAt(mem, root, ROOT_LEVEL, FirstPage(places[root])) == Some(root);
    }

    ghost predicate At(table: Pfn, level: nat, v: Vpn)
      reads this
    {
      table in places && places[table] == Place(level, Block(v, level + 1))
    }

    function Lookup(v: Vpn): Option<Translation>
      reads this
    {
      Walk(mem, root, ROOT_LEVEL, v)
    }

    method MapTerminal(p: MappingPointer, table: Pfn, level: nat, phys: Pfn, attrs: Attrs) returns (r: Status)
      requires Valid() && p.Valid() && SupportsPageSize(level) && CanUseLevelPage(level, p, phys)
      requires InSpan(p.Virt(), span) && At(table, level, p.Virt())
      requires level == 0 ==> !LargeCandidate(p.base, p.size, p.offset, phys)
      modifies this`mem, p`offset
      ensures Valid() && p.Valid()
      ensures r == if old(EntryAt(mem, table, Index(p.Virt(), level))).Absent? then Ok else ResourceOverlap
      ensures p.offset == old(p.offset) + if r.Ok? then LevelPages(level) else 0
      ensures Maps(old(mem), mem, root, span, p.base, p.size, old(p.offset), p.offset, phys, attrs)
    {
      var index := Index(p.Virt(), level);
      if !mem[table][index].Absent? {
        return ResourceOverlap;
      }
      var e := Page(phys + p.offset, attrs);
      MapEntry(mem, root, places, span, table, p.base, p.size, p.offset, phys, attrs);
      MapEntryBlocked(mem, root, places, span, table, index, e, p.base, p.size, p.offset, p.offset + LevelPages(level),
                      phys, attrs);
      forall k: nat | p.offset <= k < p.offset + LevelPages(level)
        ensures !Blocked(mem, root, p.base, p.size, k, phys)
      {
        EntryUnblocked(mem, root, places, span, table, p.base, p.size, p.offset, k, phys);
      }
      EntrySized(mem, SetEntry(mem, table, index, e), root, places, span, table, p.base, p.size, p.offset, phys, attrs);
      SetLeaf(mem, root, places, span, table, index, e);
      mem := SetEntry(mem, table, index, e);
      p.offset := p.offset + LevelPages(level);
      return Ok;
    }

    method NextTableOrCreate(table: Pfn, level: nat, ghost v: Vpn, index: nat) returns (r: Status, next: Pfn)
      requires Valid() && 0 < level <= ROOT_LEVEL && InSpan(v, span) && At(table, level, v) && index == Index(v, level)
      modifies this`mem, this`pool, this`places
      ensures Valid()
      ensures r.Ok? ==> At(next, level - 1, v)
      ensures Grown(old(places), places, v, v)
      ensures SameTranslations(old(mem), mem, root, span)
      ensures SameLeafTables(old(mem), mem, root, span, level, v)
      ensures r == match old(EntryAt(mem, table, index))
                   case Table(_) => Ok
                   case Page(_, _) => ResourceOverlap
                   case Absent => if old(pool) == {} then OutOfMemory else Ok
      ensures !r.Ok? ==> pool == old(pool)
    {
      next := 0;
      match mem[table][index] {
        case Table(n) =>
          assert LinksChild(mem, places, table, index);
          return Ok, n;
        case Page(_, _) =>
          return ResourceOverlap, next;
        case Absent =>
      }
      if pool == {} {
        return OutOfMemory, next;
      }
      next :| next in pool;
      pool := pool - {next};
      UnderEntryIndex(places[table], index, v);
      LinkNewTable(mem, root, places, span, table, index, next, v);
      mem := SetEntry(mem[next := EmptyTable()], table, index, Table(next));
      assert ChildPlace(places[table], index) == Place(level - 1, Block(v, level));
      places := places[next := ChildPlace(places[table], index)];
      return Ok, next;
    }

    /** One step of a mapping pass: either a terminal entry or a pass over the next table down. */
    method MapStep(p: MappingPointer, table: Pfn, level: nat, phys: Pfn, attrs: Attrs) returns (r: Status)
      requires Valid() && p.Valid() && level <= ROOT_LEVEL && p.offset < p.size
      requires InSpan(p.Virt(), span) && At(table, level, p.Virt())
      requires level == 0 ==> !LargeCandidate(p.base, p.size, p.offset, phys)
      modifies this`mem, this`pool, this`places, p`offset
      ensures Valid() && p.Valid() && old(p.offset) <= p.offset
      ensures MapDone(old(mem), old(places), mem, places, root, span, p.base, p.size, old(p.offset), p.offset, phys, attrs, p.Last())
      ensures r.Ok? ==> old(p.Virt()) < p.Virt() <= LevelEnd(old(p.Virt()), p.End(), level)
      ensures !r.Ok? ==> p.Virt() < LevelEnd(old(p.Virt()), p.End(), level)
      ensures r.ResourceOverlap? ==> Blocked(old(mem), root, p.base, p.size, p.offset, phys)
      ensures r.OutOfMemory? ==> pool == {} && !Blocked(old(mem), root, p.base, p.size, p.offset, phys)
      decreases level, 1
    {
      EntryEndsFirst(p.Virt(), level);
      TableEndBounds(p.Virt(), level);
      BlockedByEntry(mem, root, places, span, table, p.base, p.size, p.offset, phys);
      if SupportsPageSize(level) && CanUseLevelPage(level, p, phys) {
        GrownRefl(places, p.Virt(), p.Last());
        r := MapTerminal(p, table, level, phys, attrs);
      } else {
        r := MapBelow(p, table, level, phys, attrs);
      }
    }

    /** Finds or creates the next table for the page at `p`; this maps nothing and blocks nothing. */
    method NextForMap(p: MappingPointer, table: Pfn, level: nat, phys: Pfn, ghost attrs: Attrs) returns (r: Status, next: Pfn)
      requires Valid() && p.Valid() && 0 < level <= ROOT_LEVEL && p.offset < p.size
      requires InSpan(p.Virt(), span) && At(table, level, p.Virt())
      requires level == 1 ==> !LargeCandidate(p.base, p.size, p.offset, phys)
      modifies this`mem, this`pool, this`places
      ensures Valid() && (r.Ok? ==> At(next, level - 1, p.Virt()))
      ensures MapDone(old(mem), old(places), mem, places, root, span, p.base, p.size, p.offset, p.offset, phys, attrs, p.Last())
      ensures r.ResourceOverlap? ==> Blocked(old(mem), root, p.base, p.size, p.offset, phys)
      ensures r.OutOfMemory? ==> pool == {} && !Blocked(old(mem), root, p.base, p.size, p.offset, phys)
    {
      BlockedByEntry(mem, root, places, span, table, p.base, p.size, p.offset, phys);
      r, next := NextTableOrCreate(table, level, p.Virt(), Index(p.Virt(), level));
      SameExtends(old(mem), mem, root, span, p.base, p.size, p.offset, phys, attrs);
      LinkBlocked(old(mem), mem, root, span, level, p.base, p.size, p.offset, phys);
      GrownRefl(places, p.Virt(), p.Last());
      GrownTrans(old(places), places, places, p.Virt(), p.Virt(), p.Virt(), p.Last());
    }

    method MapBelow(p: MappingPointer, table: Pfn, level: nat, phys: Pfn, attrs: Attrs) returns (r: Status)
      requires Valid() && p.Valid() && 0 < level <= ROOT_LEVEL && p.offset < p.size
      requires InSpan(p.Virt(), span) && At(table, level, p.Virt())
      requires level == 1 ==> !LargeCandidate(p.base, p.size, p.offset, phys)
      modifies this`mem, this`pool, this`places, p`offset
      ensures Valid() && p.Valid() && old(p.offset) <= p.offset
      ensures MapDone(old(mem), old(places), mem, places, root, span, p.base, p.size, old(p.offset), p.offset, phys, attrs, p.Last())
      ensures r.Ok? ==> old(p.Virt()) < p.Virt() <= LevelEnd(old(p.Virt()), p.End(), level)
      ensures !r.Ok? ==> p.Virt() < LevelEnd(old(p.Virt()), p.End(), level)
      ensures r.ResourceOverlap? ==> Blocked(old(mem), root, p.base, p.size, p.offset, phys)
      ensures r.OutOfMemory? ==> pool == {} && !Blocked(old(mem), root, p.base, p.size, p.offset, phys)
      decreases level, 0
    {
      TableEndBounds(p.Virt(), level);
      var next;
      r, next := NextForMap(p, table, level, phys, attrs);
      if r.Ok? {
        ghost var linked, places' := mem, places;
        EntryEndsFirst(p.Virt(), level);
        TableEndBounds(p.Virt(), level - 1);
        r := MapLevel(p, next, level - 1, phys, attrs);
        MapDoneTrans(old(mem), old(places), linked, places', mem, places, root, span, p.base, p.size,
                     old(p.offset), old(p.offset), p.offset, phys, attrs, p.Last(), level - 1);
      }
    }

    method MapLevel(p: MappingPointer, table: Pfn, level: nat, phys: Pfn, attrs: Attrs) returns (r: Status)
      requires Valid() && p.Valid() && level <= ROOT_LEVEL && p.offset < p.size
      requires InSpan(p.Virt(), span) && At(table, level, p.Virt())
      requires level == 0 ==> !LargeCandidate(p.base, p.size, p.offset, phys)
      modifies this`mem, this`pool, this`places, p`offset
      ensures Valid() && p.Valid() && old(p.offset) <= p.offset
      ensures MapDone(old(mem), old(places), mem, places, root, span, p.base, p.size, old(p.offset), p.offset, phys, attrs, p.Last())
      ensures if r.Ok? then p.Virt() == LevelEnd(old(p.Virt()), p.End(), level)
              else p.Virt() < LevelEnd(old(p.Virt()), p.End(), level)
      ensures r.ResourceOverlap? ==> Blocked(old(mem), root, p.base, p.size, p.offset, phys)
      ensures r.OutOfMemory? ==> pool == {} && !Blocked(old(mem), root, p.base, p.size, p.offset, phys)
      decreases level, 2
    {
      ghost var start := p.Virt();
      var end := LevelEnd(p.Virt(), p.End(), level);
      TableEndBounds(start, level);
      MapDoneRefl(mem, places, root, span, p.base, p.size, p.offset, phys, attrs, p.Last());
      r := Ok;
      while p.Virt() < end
        invariant Valid() && p.Valid() && old(p.offset) <= p.offset && p.Virt() <= end && r.Ok?
        invariant MapDone(old(mem), old(places), mem, places, root, span, p.base, p.size, old(p.offset), p.offset, phys, attrs, p.Last())
        decreases p.size - p.offset
      {
        ghost var before, places', mid := mem, places, p.offset;
        SameTable(start, p.Virt(), level);
        assert LevelEnd(p.Virt(), p.End(), level) == end;
        SameBlockAbove(start, p.Virt(), level + 1, ROOT_LEVEL + 1);
        MapDoneKeeps(old(mem), old(places), mem, places, root, span, p.base, p.size, old(p.offset), mid, phys, attrs, p.Last(), table);
        if level == 0 && mid > old(p.offset) {
          BlockBounds(start, 1);
        }
        r := MapStep(p, table, level, phys, attrs);
        MapDoneTrans(old(mem), old(places), before, places', mem, places, root, span, p.base, p.size,
                     old(p.offset), mid, p.offset, phys, attrs, p.Last(), level);
        if !r.Ok? {
          return;
        }
      }
    }

    /** The walk cannot go on: `p` is inside a large page that its range does not cover. */
    ghost predicate PartialLargePage(p: MappingPointer)
      requires p.Valid()
      reads this, p
    {
      var tr := Lookup(p.Virt());
      tr.Some? && tr.value.level > 0 && !CoversLevelEntry(p, tr.value.level)
    }

    method UpdateTerminal(p: MappingPointer, u: Update, g: Gather, table: Pfn, level: nat) returns (g': Gather)
      requires Valid() && p.Valid() && CoversLevelEntry(p, level)
      requires InSpan(p.Virt(), span) && At(table, level, p.Virt())
      requires !mem[table][Index(p.Virt(), level)].Table? && (level > 0 ==> mem[table][Index(p.Virt(), level)].Page?)
      modifies this`mem, p`offset
      ensures Valid() && p.Valid() && p.offset == old(p.offset) + LevelPages(level)
      ensures WalkedTo(old(mem), mem, root, span, u, old(p.Virt()), p.Virt(), p.End(), g, g')
    {
      var v := p.Virt();
      WalkAt(mem, root, places, span, table, v);
      var index := Index(v, level);
      var e := ApplyToEntry(u, mem[table][index]);
      g' := g.AddTlbFlush(v);
      UpdateEntry(mem, root, places, span, table, v, u, g');
      SetLeaf(mem, root, places, span, table, index, e);
      mem := SetEntry(mem, table, index, e);
      p.offset := p.offset + LevelPages(level);
      OneStep(old(mem), mem, root, span, u, v, p.Virt(), p.End(), g, g');
    }

    /** A step of the walk at a page, large or small: an entry that the range covers in part stops the walk. */
    method WalkPage(p: MappingPointer, u: Update, g: Gather, table: Pfn, level: nat) returns (r: Status, g': Gather)
      requires Valid() && p.Valid() && level <= ROOT_LEVEL && p.offset < p.size
      requires InSpan(p.Virt(), span) && At(table, level, p.Virt())
      requires level > 0 ==> mem[table][Index(p.Virt(), level)].Page?
      modifies this`mem, p`offset
      ensures Valid() && p.Valid() && !r.OutOfMemory?
      ensures WalkedTo(old(mem), mem, root, span, u, old(p.Virt()), p.Virt(), p.End(), g, g')
      ensures r.Ok? ==> old(p.Virt()) < p.Virt()
      ensures r.ResourceOverlap? ==> p.offset < p.size && PartialLargePage(p) && InSpan(p.Virt(), span)
    {
      assert LinksChild(mem, places, table, Index(p.Virt(), level));
      if level == 0 || CoversLevelEntry(p, level) {
        g' := UpdateTerminal(p, u, g, table, level);
        r := Ok;
      } else {
        WalkAt(mem, root, places, span, table, p.Virt());
        r, g' := ResourceOverlap, g;
        WalkedRefl(mem, root, span, u, p.Virt(), p.End(), g);
      }
    }

    /** A step of the walk over an absent entry. */
    method WalkAbsent(p: MappingPointer, ghost u: Update, ghost g: Gather, table: Pfn, level: nat)
      requires Valid() && p.Valid() && 0 < level <= ROOT_LEVEL && p.offset < p.size
      requires InSpan(p.Virt(), span) && At(table, level, p.Virt()) && mem[table][Index(p.Virt(), level)].Absent?
      modifies p`offset
      ensures p.Valid() && old(p.Virt()) < p.Virt()
      ensures WalkedTo(mem, mem, root, span, u, old(p.Virt()), p.Virt(), p.End(), g, g)
    {
      WalkAt(mem, root, places, span, table, p.Virt());
      var target := Min(p.offset + LevelPages(level), p.size);
      SkipEntry(mem, root, places, span, table, p.Virt(), p.base + target, u, g);
      OneStep(mem, mem, root, span, u, p.Virt(), p.base + target, p.End(), g, g);
      p.offset := target;
    }

    method WalkStep(p: MappingPointer, u: Update, g: Gather, table: Pfn, level: nat) returns (r: Status, g': Gather)
      requires Valid() && p.Valid() && level <= ROOT_LEVEL && p.offset < p.size
      requires InSpan(p.Virt(), span) && InSpan(p.End() - 1, span) && At(table, level, p.Virt())
      modifies this`mem, p`offset
      ensures Valid() && p.Valid() && !r.OutOfMemory?
      ensures WalkedTo(old(mem), mem, root, span, u, old(p.Virt()), p.Virt(), p.End(), g, g')
      ensures r.Ok? ==> old(p.Virt()) < p.Virt()
      ensures r.ResourceOverlap? ==> p.offset < p.size && PartialLargePage(p) && InSpan(p.Virt(), span)
      decreases level, 0
    {
      var index := Index(p.Virt(), level);
      assert LinksChild(mem, places, table, index);
      if level == 0 {
        r, g' := WalkPage(p, u, g, table, level);
        return;
      }
      match mem[table][index] {
        case Page(_, _) =>
          r, g' := WalkPage(p, u, g, table, level);
        case Absent =>
          WalkAbsent(p, u, g, table, level);
          r, g' := Ok, g;
        case Table(next) =>
          TableEndBounds(p.Virt(), level - 1);
          r, g' := WalkLevel(p, u, g, next, level - 1);
      }
    }

    method WalkLevel(p: MappingPointer, u: Update, g: Gather, table: Pfn, level: nat) returns (r: Status, g': Gather)
      requires Valid() && p.Valid() && level <= ROOT_LEVEL && p.offset < p.size
      requires InSpan(p.Virt(), span) && InSpan(p.End() - 1, span) && At(table, level, p.Virt())
      modifies this`mem, p`offset
      ensures Valid() && p.Valid() && !r.OutOfMemory?
      ensures WalkedTo(old(mem), mem, root, span, u, old(p.Virt()), p.Virt(), p.End(), g, g')
      ensures r.Ok? ==> p.Virt() >= LevelEnd(old(p.Virt()), p.End(), level)
      ensures r.ResourceOverlap? ==> p.offset < p.size && PartialLargePage(p) && InSpan(p.Virt(), span)
      decreases level, 1
    {
      ghost var start := p.Virt();
      var end := LevelEnd(p.Virt(), p.End(), level);
      TableEndBounds(start, level);
      PassInSpan(start, level, span);
      WalkedRefl(mem, root, span, u, start, p.End(), g);
      r, g' := Ok, g;
      while p.Virt() < end
        invariant Valid() && p.Valid() && old(p.offset) <= p.offset && r.Ok?
        invariant WalkedTo(old(mem), mem, root, span, u, start, p.Virt(), p.End(), g, g')
        decreases p.size - p.offset
      {
        SameTable(start, p.Virt(), level);
        ghost var before, mid, g0 := mem, p.Virt(), g';
        r, g' := WalkStep(p, u, g', table, level);
        WalkedTrans(old(mem), before, mem, root, span, u, start, mid, p.Virt(), p.End(), g, g0, g');
        if !r.Ok? {
          return;
        }
      }
    }

    /** Takes back a table; the contract says what holds when the culling pass calls it. */
    method Cull(table: Pfn)
      requires WellFormed(mem, root, places, span) && FramesAligned(mem, places)
      requires table !in places && table !in pool
      requires pool !! places.Keys && places.Keys + pool + {table} == frames
      modifies this`pool
      ensures Valid() && pool == old(pool) + {table}
    {
      pool := pool + {table};
    }

    /** Unlinks `next` from its parent and then culls it. */
    method Unlink(table: Pfn, level: nat, index: nat, next: Pfn, ghost v: Vpn, ghost hi: Vpn, ghost can: (Pfn, nat) -> bool)
      requires Valid() && 0 < level <= ROOT_LEVEL && At(table, level, v) && index == Index(v, level)
      requires Hereditary(mem, places, can)
      requires mem[table][index] == Table(next) && NoChildTables(mem, next)
      requires TableIsEmpty(mem, next) || (AlignedForLevel(v, level) && v + LevelPages(level) <= hi)
      modifies this`mem, this`pool, this`places
      ensures Valid() && Hereditary(mem, places, can)
      ensures Culled(old(mem), mem, root, span, v, hi)
      ensures next in old(places) && old(places)[next].level == level - 1
      ensures places == old(places) - {next} && pool == old(pool) + {next}
      ensures mem == SetEntry(old(mem), table, index, Absent)
    {
      assert LinksChild(mem, places, table, index);
      UnlinkWalk(mem, root, places, span, table, v, v, hi);
      UnlinkTable(mem, root, places, span, table, index);
      HereditaryKept(mem, places, can, table, index, next);
      mem := SetEntry(mem, table, index, Absent);
      places := places - {next};
      Cull(next);
    }

    /** Unlinks and culls `next` if it may be culled and is covered by the range or empty. */
    method UnlinkIfDone(table: Pfn, level: nat, index: nat, next: Pfn, covered: bool, ghost v: Vpn, ghost end: Vpn,
                        can: (Pfn, nat) -> bool)
      requires Valid() && 0 < level <= ROOT_LEVEL && At(table, level, v) && index == Index(v, level)
      requires Hereditary(mem, places, can) && mem[table][index] == Table(next) && At(next, level - 1, v)
      requires covered ==> AlignedForLevel(v, level) && v + LevelPages(level) <= end
      requires covered && can(next, level - 1) ==> NoChildTables(mem, next)
      modifies this`mem, this`pool, this`places
      ensures Valid() && Hereditary(mem, places, can) && Culled(old(mem), mem, root, span, v, end)
      ensures LinkDone(old(mem), old(places), mem, places, root, span, table, level, v, next, covered, can)
    {
      if can(next, level - 1) && (covered || TableIsEmpty(mem, next)) {
        Unlink(table, level, index, next, v, end, can);
      }
    }

    /** One entry of a culling pass. */
    method CullStep(p: MappingPointer, table: Pfn, level: nat, can: (Pfn, nat) -> bool)
      requires Valid() && p.Valid() && 0 < level <= ROOT_LEVEL && p.offset < p.size
      requires InSpan(p.Virt(), span) && InSpan(p.End() - 1, span) && At(table, level, p.Virt())
      requires Hereditary(mem, places, can)
      modifies this`mem, this`pool, this`places, p`offset
      ensures Valid() && p.Valid() && Hereditary(mem, places, can) && old(p.Virt()) < p.Virt()
      ensures EntryDone(old(mem), old(places), mem, places, root, span, level, can, old(p.Virt()), p.Virt(), p.End())
      ensures forall i :: 0 <= i < ENTRY_COUNT && i != Index(old(p.Virt()), level) ==>
                EntryAt(mem, table, i) == old(EntryAt(mem, table, i))
      ensures old(CoversLevelEntry(p, level)) ==>
                && p.offset == old(p.offset) + LevelPages(level)
                && (can(table, level) ==> !EntryAt(mem, table, Index(old(p.Virt()), level)).Table?)
      decreases level, 2
    {
      ghost var v, hi := p.Virt(), p.End();
      var index := Index(p.Virt(), level);
      assert LinksChild(mem, places, table, index);
      if !mem[table][index].Table? {
        p.offset := Min(p.offset + LevelPages(level), p.size);
        SkipDone(mem, places, root, span, table, level, can, v, p.Virt(), hi);
        return;
      }
      assert HereditaryAt(mem, places, can, table, index);
      StopsBelow(mem, root, places, span, mem[table][index].next, v);
      CullChild(p, table, level, mem[table][index].next, can);
    }

    /** One entry of a culling pass that leads to a table: culls below it, then the table itself. */
    method CullChild(p: MappingPointer, table: Pfn, level: nat, next: Pfn, can: (Pfn, nat) -> bool)
      requires Valid() && p.Valid() && 0 < level <= ROOT_LEVEL && p.offset < p.size
      requires InSpan(p.Virt(), span) && InSpan(p.End() - 1, span) && At(table, level, p.Virt())
      requires Hereditary(mem, places, can)
      requires EntryAt(mem, table, Index(p.Virt(), level)) == Table(next) && At(next, level - 1, p.Virt())
      requires StopLevel(mem, root, ROOT_LEVEL, p.Virt()) <= level && (can(table, level) ==> can(next, level - 1))
      modifies this`mem, this`pool, this`places, p`offset
      ensures Valid() && p.Valid() && Hereditary(mem, places, can) && old(p.Virt()) < p.Virt()
      ensures EntryDone(old(mem), old(places), mem, places, root, span, level, can, old(p.Virt()), p.Virt(), p.End())
      ensures forall i :: 0 <= i < ENTRY_COUNT && i != Index(old(p.Virt()), level) ==>
                EntryAt(mem, table, i) == old(EntryAt(mem, table, i))
      ensures old(CoversLevelEntry(p, level)) ==>
                && p.offset == old(p.offset) + LevelPages(level)
                && (can(table, level) ==> !EntryAt(mem, table, Index(old(p.Virt()), level)).Table?)
      decreases level, 1
    {
      ghost var v, hi := p.Virt(), p.End();
      var covered := CoversLevelEntry(p, level);
      var index := Index(p.Virt(), level);
      CullBelow(p, next, level, can);
      ghost var before, places' := mem, places;
      BelowKeeps(old(mem), old(places), mem, places, root, span, level, can, v, p.Virt(), hi, table);
      BelowKeeps(old(mem), old(places), mem, places, root, span, level, can, v, p.Virt(), hi, next);
      UnlinkIfDone(table, level, index, next, covered, v, if covered then v + LevelPages(level) else v, can);
      TableDone(old(mem), old(places), before, places', mem, places, root, span, table, level, can, v, p.Virt(), hi, next, covered);
    }

    /** Culls below `next`, the table behind one entry, and moves past the entry. */
    method CullBelow(p: MappingPointer, next: Pfn, level: nat, can: (Pfn, nat) -> bool)
      requires Valid() && p.Valid() && 0 < level <= ROOT_LEVEL && p.offset < p.size
      requires InSpan(p.Virt(), span) && InSpan(p.End() - 1, span) && At(next, level - 1, p.Virt())
      requires Hereditary(mem, places, can)
      modifies this`mem, this`pool, this`places, p`offset
      ensures Valid() && p.Valid() && Hereditary(mem, places, can) && old(p.Virt()) < p.Virt()
      ensures BelowDone(old(mem), old(places), mem, places, root, span, level, can, old(p.Virt()), p.Virt(), p.End())
      ensures old(CoversLevelEntry(p, level)) ==>
                && p.offset == old(p.offset) + LevelPages(level)
                && (can(next, level - 1) ==> NoChildTables(mem, next))
      decreases level, 0
    {
      ghost var v := p.Virt();
      if level > 1 {
        CullLevel(p, next, level - 1, can);
        LevelToBelow(old(mem), old(places), mem, places, root, span, level, can, v, p.Virt(), p.End());
      } else {
        p.offset := Min(p.offset + LevelPages(level), p.size);
        LeafHasNoTables(mem, places, next);
        LeafDone(mem, places, root, span, next, can, v, p.Virt(), p.End());
      }
    }

    method CullLevel(p: MappingPointer, table: Pfn, level: nat, can: (Pfn, nat) -> bool)
      requires Valid() && p.Valid() && 0 < level <= ROOT_LEVEL && p.offset < p.size
      requires InSpan(p.Virt(), span) && InSpan(p.End() - 1, span) && At(table, level, p.Virt())
      requires Hereditary(mem, places, can)
      modifies this`mem, this`pool, this`places, p`offset
      ensures Valid() && p.Valid() && Hereditary(mem, places, can)
      ensures old(p.Virt()) < p.Virt() && p.Virt() >= LevelEnd(old(p.Virt()), p.End(), level)
      ensures LevelDone(old(mem), old(places), mem, places, root, span, level, can, old(p.Virt()), p.Virt(), p.End())
      ensures old(CoversLevelEntry(p, level + 1)) ==>
                && p.offset == old(p.offset) + LevelPages(level + 1)
                && (can(table, level) ==> NoChildTables(mem, table))
      decreases level, 3
    {
      ghost var start, hi := p.Virt(), p.End();
      ghost var whole, mayCull := CoversLevelEntry(p, level + 1), can(table, level);
      var end := LevelEnd(p.Virt(), p.End(), level);
      TableEndBounds(start, level);
      WholeStart(mem, table, level, start, whole, mayCull, hi);
      LevelStart(mem, places, root, span, level, can, start, hi);
      while p.Virt() < end
        invariant Valid() && p.Valid() && start <= p.Virt() && Hereditary(mem, places, can)
        invariant LevelDone(old(mem), old(places), mem, places, root, span, level, can, start, p.Virt(), hi)
        invariant WholeSoFar(mem, table, level, start, p.Virt(), whole, mayCull, hi)
        decreases p.size - p.offset
      {
        ghost var before, places', mid := mem, places, p.Virt();
        SameTable(start, mid, level);
        SpanConvex(start, mid, hi - 1, span);
        LevelKeeps(old(mem), old(places), mem, places, root, span, level, can, start, mid, hi, table);
        WholeCovers(mem, table, level, start, mid, whole, mayCull, hi);
        CullStep(p, table, level, can);
        LevelStep(old(mem), old(places), before, places', mem, places, root, span, level, can, start, mid, p.Virt(), hi);
        WholeStep(before, mem, table, level, start, mid, p.Virt(), whole, mayCull, hi);
      }
      WholeEnd(mem, table, level, start, p.Virt(), whole, mayCull, hi);
    }

    // ----- The public operations -----

    ghost predicate RangeInSpan(p: MappingPointer)
      reads p
    {
      p.offset < p.size ==> InSpan(p.Virt(), span) && InSpan(p.End() - 1, span)
    }

    /** Maps the rest of `p`'s range to consecutive frames. */
    method Map(p: MappingPointer, phys: Pfn, attrs: Attrs) returns (r: Status)
      requires Valid() && p.Valid() && RangeInSpan(p)
      modifies this`mem, this`pool, this`places, p`offset
      ensures Valid() && p.Valid() && (r.Ok? ==> p.offset == p.size)
      ensures Extends(old(mem), mem, root, span, p.base, p.size, old(p.offset), p.offset, phys, attrs)
      ensures NoneBlocked(old(mem), root, p.base, p.size, old(p.offset), p.offset, phys)
      ensures Sized(mem, root, span, p.base, p.size, old(p.offset), p.offset, phys)
      ensures r.ResourceOverlap? ==> p.offset < p.size && Blocked(old(mem), root, p.base, p.size, p.offset, phys)
      ensures r.OutOfMemory? ==>
                p.offset < p.size && pool == {} && !Blocked(old(mem), root, p.base, p.size, p.offset, phys)
      ensures Grown(old(places), places, old(p.Virt()), p.Last())
    {
      if p.offset < p.size {
        RootEnd(p.Virt(), p.End() - 1);
        r := MapLevel(p, root, ROOT_LEVEL, phys, attrs);
        assert Unfold(0);
      } else {
        r := Ok;
        GrownRefl(places, p.Virt(), p.Last());
        SameExtends(mem, mem, root, span, p.base, p.size, p.offset, phys, attrs);
      }
    }

    method WalkUpdate(p: MappingPointer, u: Update) returns (r: Status, g: Gather)
      requires Valid() && p.Valid() && RangeInSpan(p)
      modifies this`mem, p`offset
      ensures Valid() && p.Valid() && old(p.offset) <= p.offset && (r.Ok? ==> p.offset == p.size)
      ensures Updated(old(mem), mem, root, span, u, old(p.Virt()), p.Virt(), g)
      ensures p.offset == p.size || IsStep(old(mem), root, old(p.Virt()), p.Virt())
      ensures !r.Ok? ==> r.ResourceOverlap? && p.offset < p.size && PartialLargePage(p) && InSpan(p.Virt(), span)
      ensures r.Ok? <==> StepsFit(old(mem), root, span, old(p.Virt()), p.End(), p.End())
      ensures Lists(g, Written(old(mem), root, old(p.Virt()), p.Virt()))
    {
      if p.offset < p.size {
        RootEnd(p.Virt(), p.End() - 1);
        r, g := WalkLevel(p, u, Specific([]), root, ROOT_LEVEL);
        assert Unfold(0);
        assert AddsTo(Specific([]), g, [], Written(old(mem), root, old(p.Virt()), p.Virt()));
        assert [] + Written(old(mem), root, old(p.Virt()), p.Virt()) == Written(old(mem), root, old(p.Virt()), p.Virt());
        assert !r.Ok? ==> PageUpdated(old(mem), mem, root, u, old(p.Virt()), p.Virt(), g, p.Virt());
        assert !r.Ok? ==> !FitsFrom(old(mem), root, p.Virt(), p.End());
      } else {
        r, g := Ok, Specific([]);
        SameStopsRefl(mem, root, span, u, p.Virt(), g);
      }
    }

    /** Culls tables in `base..base + size`. */
    method CullTables(base: Vpn, size: nat, can: (Pfn, nat) -> bool)
      requires Valid() && Hereditary(mem, places, can)
      requires size > 0 ==> InSpan(base, span) && InSpan(base + size - 1, span)
      modifies this`mem, this`pool, this`places
      ensures Valid()
      ensures CullDone(old(mem), old(places), mem, places, root, span, can, base, base + size)
    {
      if size > 0 {
        var p := new MappingPointer(base, size);
        assert p.Virt() == base && p.End() == base + size;
        RootEnd(base, base + size - 1);
        CullLevel(p, root, ROOT_LEVEL, can);
        RootDone(old(mem), old(places), mem, places, root, span, can, base, base + size);
      } else {
        NothingToCull(mem, places, root, span, can, base);
      }
    }
  }
}
