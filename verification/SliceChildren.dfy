/** The children of one address space slice: an ordered map from start page to child. */
module SliceChildren {
  import opened Arith
  import opened MemTypes

  type Id = nat

  /** A reference to a child, with the immutable range of the slice or mapping it refers to. */
  datatype Child = Subslice(id: Id, start: Vpn, count: nat) | Mapping(id: Id, start: Vpn, count: nat) {
    function End(): Vpn {
      start + count
    }

    predicate Contains(v: Vpn) {
      start <= v < End()
    }
  }

  type Children = map<Vpn, Child>

  /** Children are keyed by start, not empty, inside `start..end`, and pairwise disjoint. */
  ghost predicate ChildrenOk(cs: Children, start: Vpn, end: Vpn) {
    && (forall k :: k in cs ==> cs[k].start == k && cs[k].count > 0 && start <= k && cs[k].End() <= end)
    && (forall j, k :: j in cs && k in cs && j < k ==> cs[j].End() <= k)
  }

  // ----- Ordered access -----

  lemma {:induction false} GreatestFrom(keys: set<Vpn>, v: Vpn, k: Vpn) returns (g: Vpn)
    requires k in keys && k < v
    ensures g in keys && g < v && forall j :: j in keys && j < v ==> j <= g
    decreases v - k
  {
    if j :| j in keys && k < j < v {
      g := GreatestFrom(keys, v, j);
    } else {
      g := k;
    }
  }

  lemma {:induction false} LeastFrom(keys: set<Vpn>, v: Vpn, k: Vpn) returns (g: Vpn)
    requires k in keys && v <= k
    ensures g in keys && v <= g && forall j :: j in keys && v <= j ==> g <= j
    decreases k
  {
    if j :| j in keys && v <= j < k {
      g := LeastFrom(keys, v, j);
    } else {
      g := k;
    }
  }

  lemma {:induction false} GreatestExists(keys: set<Vpn>, v: Vpn)
    requires exists k :: k in keys && k < v
    ensures exists k :: k in keys && k < v && forall j :: j in keys && j < v ==> j <= k
  {
    var k :| k in keys && k < v;
    var g := GreatestFrom(keys, v, k);
  }

  lemma {:induction false} LeastExists(keys: set<Vpn>, v: Vpn)
    requires exists k :: k in keys && v <= k
    ensures exists k :: k in keys && v <= k && forall j :: j in keys && v <= j ==> k <= j
  {
    var k :| k in keys && v <= k;
    var g := LeastFrom(keys, v, k);
  }

  /** The last key before `v`: `range(..v).next_back()`. */
  function PrevKey(keys: set<Vpn>, v: Vpn): (r: Option<Vpn>)
    ensures r.None? <==> forall j :: j in keys ==> v <= j
    ensures r.Some? ==> r.value in keys && r.value < v && forall j :: j in keys && j < v ==> j <= r.value
  {
    if exists k :: k in keys && k < v then
      GreatestExists(keys, v);
      var k :| k in keys && k < v && forall j :: j in keys && j < v ==> j <= k;
      Some(k)
    else None
  }

  /** The first key from `v` on: `range(v..).next()`. */
  function NextKey(keys: set<Vpn>, v: Vpn): (r: Option<Vpn>)
    ensures r.None? <==> forall j :: j in keys ==> j < v
    ensures r.Some? ==> r.value in keys && v <= r.value && forall j :: j in keys && v <= j ==> r.value <= j
  {
    if exists k :: k in keys && v <= k then
      LeastExists(keys, v);
      var k :| k in keys && v <= k && forall j :: j in keys && v <= j ==> k <= j;
      Some(k)
    else None
  }

  // ----- Lookup -----

  function GetChild(cs: Children, v: Vpn): Option<Child> {
    match PrevKey(cs.Keys, v)
    case None => None
    case Some(k) => if v < cs[k].End() then Some(cs[k]) else None
  }

  /** Lookup finds the child that contains a page, except when the page is the child's first. */
  lemma {:induction false} GetChildFinds(cs: Children, start: Vpn, end: Vpn, v: Vpn, c: Child)
    requires ChildrenOk(cs, start, end)
    ensures GetChild(cs, v) == Some(c) <==> c.start in cs && cs[c.start] == c && c.Contains(v) && v != c.start
  {
    if c.start in cs && cs[c.start] == c && c.Contains(v) && v != c.start {
      var k := PrevKey(cs.Keys, v).value;
      assert c.start <= k;
    }
  }

  // ----- Fixed placement -----

  /** `start..start + count` meets no child, as far as its neighbours tell. */
  predicate FitsBetween(cs: Children, start: Vpn, count: nat) {
    && (match PrevKey(cs.Keys, start) case Some(k) => cs[k].End() <= start case None => true)
    && (match NextKey(cs.Keys, start) case Some(k) => k in cs && start + count <= cs[k].start case None => true)
  }

  /** The two neighbours decide: the range fits exactly if it is disjoint from every child. */
  lemma {:induction false} FitsIffDisjoint(cs: Children, lo: Vpn, hi: Vpn, start: Vpn, count: nat)
    requires ChildrenOk(cs, lo, hi)
    ensures FitsBetween(cs, start, count) <==> forall k :: k in cs ==> cs[k].End() <= start || start + count <= k
  {
    if FitsBetween(cs, start, count) {
      forall k | k in cs
        ensures cs[k].End() <= start || start + count <= k
      {
        if k < start {
          var p := PrevKey(cs.Keys, start).value;
          assert k < p ==> cs[k].End() <= p;
        }
      }
    }
  }

  lemma {:induction false} InsertKeeps(cs: Children, lo: Vpn, hi: Vpn, c: Child)
    requires ChildrenOk(cs, lo, hi) && c.count > 0 && lo <= c.start && c.End() <= hi
    requires forall k :: k in cs ==> cs[k].End() <= c.start || c.End() <= k
    ensures c.start !in cs && ChildrenOk(cs[c.start := c], lo, hi)
  {
  }

  // ----- Gaps -----

  datatype Gap = Gap(start: Vpn, count: nat)

  ghost predicate Free(cs: Children, v: Vpn) {
    forall k :: k in cs ==> !cs[k].Contains(v)
  }

  ghost predicate Covered(gaps: seq<Gap>, v: Vpn) {
    exists i :: 0 <= i < |gaps| && gaps[i].start <= v < gaps[i].start + gaps[i].count
  }

  ghost predicate GapsWithin(gaps: seq<Gap>, lo: Vpn, hi: Vpn) {
    forall i {:trigger gaps[i]} :: 0 <= i < |gaps| ==>
      gaps[i].count > 0 && lo <= gaps[i].start && gaps[i].start + gaps[i].count <= hi
  }

  ghost predicate GapsAscend(gaps: seq<Gap>) {
    forall i, j {:trigger gaps[i], gaps[j]} :: 0 <= i < j < |gaps| ==> gaps[i].start + gaps[i].count < gaps[j].start
  }

  /** The gaps are not empty, inside `lo..hi`, ascending and apart, and cover exactly the pages of `lo..hi` in no child. */
  ghost predicate GapsExact(gaps: seq<Gap>, cs: Children, lo: Vpn, hi: Vpn) {
    && GapsWithin(gaps, lo, hi)
    && GapsAscend(gaps)
    && (forall v: Vpn {:trigger Covered(gaps, v)} {:trigger Free(cs, v)} ::
          lo <= v < hi ==> (Covered(gaps, v) <==> Free(cs, v)))
  }

  /** Appends the stretch between the end of one child and the start of the next. */
  lemma {:induction false} GapsStep(gaps: seq<Gap>, cs: Children, lo: Vpn, mid: Vpn, next: Vpn)
    requires GapsExact(gaps, cs, lo, mid) && lo <= mid <= next
    requires forall v: Vpn :: mid <= v < next ==> Free(cs, v)
    requires mid < next ==> forall i :: 0 <= i < |gaps| ==> gaps[i].start + gaps[i].count < mid
    ensures GapsExact(if mid < next then gaps + [Gap(mid, next - mid)] else gaps, cs, lo, next)
  {
    if mid < next {
      var gaps' := gaps + [Gap(mid, next - mid)];
      forall v: Vpn | lo <= v < next
        ensures Covered(gaps', v) <==> Free(cs, v)
      {
        if v < mid && Covered(gaps, v) {
          var i :| 0 <= i < |gaps| && gaps[i].start <= v < gaps[i].start + gaps[i].count;
          assert gaps'[i] == gaps[i];
        }
        assert gaps'[|gaps|] == Gap(mid, next - mid);
      }
    }
  }

  /** Moves past a child: its pages are in no gap. */
  lemma {:induction false} ChildStep(gaps: seq<Gap>, cs: Children, lo: Vpn, hi: Vpn, k: Vpn)
    requires ChildrenOk(cs, lo, hi) && k in cs && GapsExact(gaps, cs, lo, k)
    ensures GapsExact(gaps, cs, lo, cs[k].End())
    ensures forall i :: 0 <= i < |gaps| ==> gaps[i].start + gaps[i].count < cs[k].End()
  {
    forall v: Vpn | lo <= v < cs[k].End()
      ensures Covered(gaps, v) <==> Free(cs, v)
    {
      if k <= v {
        assert cs[k].Contains(v);
      }
    }
  }

  /** Between two neighbouring children every page is free. */
  lemma {:induction false} FreeBetween(cs: Children, lo: Vpn, hi: Vpn, mid: Vpn, next: Vpn)
    requires ChildrenOk(cs, lo, hi)
    requires forall k :: k in cs ==> cs[k].End() <= mid || next <= k
    ensures forall v: Vpn :: mid <= v < next ==> Free(cs, v)
  {
  }

  /** A walk over the children has just passed the child at `k`. */
  ghost predicate Passed(gaps: seq<Gap>, cs: Children, lo: Vpn, k: Vpn) {
    && k in cs && GapsExact(gaps, cs, lo, cs[k].End())
    && forall i :: 0 <= i < |gaps| ==> gaps[i].start + gaps[i].count < cs[k].End()
  }

  function AddGap(gaps: seq<Gap>, mid: Vpn, next: Vpn): seq<Gap> {
    if mid < next then gaps + [Gap(mid, next - mid)] else gaps
  }

  ghost predicate IsNext(cs: Children, k: Vpn, next: Option<Vpn>) {
    match next
    case None => forall j :: j in cs ==> j <= k
    case Some(cur) => cur in cs && k < cur && forall j :: j in cs && k < j ==> cur <= j
  }

  lemma {:induction false} PassFirst(cs: Children, lo: Vpn, hi: Vpn, k: Vpn)
    requires ChildrenOk(cs, lo, hi) && k in cs && forall j :: j in cs ==> k <= j
    ensures Passed(AddGap([], lo, k), cs, lo, k)
  {
    FreeBetween(cs, lo, hi, lo, k);
    GapsStep([], cs, lo, lo, k);
    ChildStep(AddGap([], lo, k), cs, lo, hi, k);
  }

  lemma {:induction false} PassNext(gaps: seq<Gap>, cs: Children, lo: Vpn, hi: Vpn, k: Vpn, cur: Vpn)
    requires ChildrenOk(cs, lo, hi) && Passed(gaps, cs, lo, k)
    requires IsNext(cs, k, Some(cur))
    ensures Passed(AddGap(gaps, cs[k].End(), cur), cs, lo, cur)
  {
    FreeBetween(cs, lo, hi, cs[k].End(), cur);
    GapsStep(gaps, cs, lo, cs[k].End(), cur);
    ChildStep(AddGap(gaps, cs[k].End(), cur), cs, lo, hi, cur);
  }

  lemma {:induction false} PassLast(gaps: seq<Gap>, cs: Children, lo: Vpn, hi: Vpn, k: Vpn)
    requires ChildrenOk(cs, lo, hi) && Passed(gaps, cs, lo, k) && IsNext(cs, k, None)
    ensures GapsExact(AddGap(gaps, cs[k].End(), hi), cs, lo, hi)
  {
    FreeBetween(cs, lo, hi, cs[k].End(), hi);
    GapsStep(gaps, cs, lo, cs[k].End(), hi);
  }

  method After(cs: Children, k: Vpn) returns (next: Option<Vpn>)
    ensures IsNext(cs, k, next)
  {
    next := NextKey(cs.Keys, k + 1);
  }

  /** All pages of `s..s + n` are in `lo..hi` and in no child. */
  ghost predicate FreeRun(cs: Children, lo: Vpn, hi: Vpn, s: Vpn, n: nat) {
    lo <= s && s + n <= hi && forall v: Vpn :: s <= v < s + n ==> Free(cs, v)
  }

  lemma {:induction false} RunInOneGap(gaps: seq<Gap>, cs: Children, lo: Vpn, hi: Vpn, s: Vpn, n: nat) returns (i: nat)
    requires GapsExact(gaps, cs, lo, hi) && FreeRun(cs, lo, hi, s, n) && n > 0
    ensures i < |gaps| && gaps[i].start <= s && s + n <= gaps[i].start + gaps[i].count
    decreases n
  {
    if n == 1 {
      assert Free(cs, s);
      assert Covered(gaps, s);
      var j :| 0 <= j < |gaps| && gaps[j].start <= s < gaps[j].start + gaps[j].count;
      i := j;
    } else {
      i := RunInOneGap(gaps, cs, lo, hi, s, n - 1);
      assert Free(cs, s + n - 1);
      assert Covered(gaps, s + n - 1);
      var j :| 0 <= j < |gaps| && gaps[j].start <= s + n - 1 < gaps[j].start + gaps[j].count;
      assert i == j;
    }
  }

  lemma {:induction false} GapIsRun(gaps: seq<Gap>, cs: Children, lo: Vpn, hi: Vpn, i: nat)
    requires GapsExact(gaps, cs, lo, hi) && i < |gaps|
    ensures FreeRun(cs, lo, hi, gaps[i].start, gaps[i].count)
  {
    forall v: Vpn | gaps[i].start <= v < gaps[i].start + gaps[i].count
      ensures Free(cs, v)
    {
      assert Covered(gaps, v);
    }
  }

  /** A stretch of free pages that ends at children or at the ends of the slice; a slice of no pages is a gap of no pages. */
  ghost predicate IsGap(cs: Children, lo: Vpn, hi: Vpn, g: Gap) {
    && FreeRun(cs, lo, hi, g.start, g.count) && (g.count > 0 || lo == hi)
    && (g.start == lo || !Free(cs, g.start - 1))
    && (g.start + g.count == hi || !Free(cs, g.start + g.count))
  }

  /** All gaps, in ascending order. */
  ghost predicate GapsAre(gaps: seq<Gap>, cs: Children, lo: Vpn, hi: Vpn) {
    GapsAscend(gaps) && forall g: Gap :: g in gaps <==> IsGap(cs, lo, hi, g)
  }

  lemma {:induction false} ExactAreMaximal(gaps: seq<Gap>, cs: Children, lo: Vpn, hi: Vpn)
    requires GapsExact(gaps, cs, lo, hi) && lo < hi
    ensures GapsAre(gaps, cs, lo, hi)
  {
    forall g: Gap
      ensures g in gaps <==> IsGap(cs, lo, hi, g)
    {
      if g in gaps {
        var i :| 0 <= i < |gaps| && gaps[i] == g;
        ExactIsGap(gaps, cs, lo, hi, i);
      }
      if IsGap(cs, lo, hi, g) {
        var i := RunInOneGap(gaps, cs, lo, hi, g.start, g.count);
        GapIsRun(gaps, cs, lo, hi, i);
        assert gaps[i] == g;
      }
    }
  }

  lemma {:induction false} ExactIsGap(gaps: seq<Gap>, cs: Children, lo: Vpn, hi: Vpn, i: nat)
    requires GapsExact(gaps, cs, lo, hi) && i < |gaps|
    ensures IsGap(cs, lo, hi, gaps[i])
  {
    GapIsRun(gaps, cs, lo, hi, i);
    assert gaps[i].start > lo ==> !Covered(gaps, gaps[i].start - 1);
    assert !Covered(gaps, gaps[i].start + gaps[i].count);
  }

  /** Walks the children in order and collects the gaps between them. */
  method IterGaps(cs: Children, lo: Vpn, hi: Vpn) returns (gaps: seq<Gap>)
    requires ChildrenOk(cs, lo, hi) && lo <= hi
    ensures GapsAre(gaps, cs, lo, hi)
  {
    gaps := [];
    var next := NextKey(cs.Keys, 0);
    if next.None? {
      assert cs == map[];
      GapsStep([], cs, lo, lo, hi);
      if lo < hi {
        ExactAreMaximal([Gap(lo, hi - lo)], cs, lo, hi);
      } else {
        assert forall g: Gap :: IsGap(cs, lo, hi, g) <==> g == Gap(lo, 0);
      }
      return [Gap(lo, hi - lo)];
    }
    var k := next.value;
    PassFirst(cs, lo, hi, k);
    gaps := AddGap([], lo, k);
    gaps := IterGapsAfter(cs, lo, hi, k, gaps);
    ExactAreMaximal(gaps, cs, lo, hi);
  }

  /** The rest of the walk, once the first child has been passed. */
  method IterGapsAfter(cs: Children, lo: Vpn, hi: Vpn, first: Vpn, before: seq<Gap>) returns (gaps: seq<Gap>)
    requires ChildrenOk(cs, lo, hi) && Passed(before, cs, lo, first)
    ensures GapsExact(gaps, cs, lo, hi)
  {
    gaps := before;
    var k, lastEnd := first, cs[first].End();
    var next := After(cs, k);
    while next.Some?
      invariant Passed(gaps, cs, lo, k) && lastEnd == cs[k].End() && IsNext(cs, k, next)
      decreases hi - k
    {
      var cur := next.value;
      PassNext(gaps, cs, lo, hi, k, cur);
      gaps := AddGap(gaps, lastEnd, cur);
      k, lastEnd := cur, cs[cur].End();
      next := After(cs, k);
    }
    PassLast(gaps, cs, lo, hi, k);
    gaps := AddGap(gaps, lastEnd, hi);
  }

  // ----- Dynamic placement -----

  datatype Spot = Found(start: Vpn) | NoSpot | Underflow

  /** What one gap says to a search: it is too small for its own padding, it fits, or it does not. */
  function Probe(g: Gap, align: nat, count: nat): Spot
    requires align > 0
  {
    var padding := AlignUp(g.start, align) - g.start;
    if padding > g.count then Underflow
    else if g.count - padding > count then Found(AlignUp(g.start, align))
    else NoSpot
  }

  /** Searches the gaps in order for the first that holds more than `count` pages past its alignment padding. */
  method FindSpot(gaps: seq<Gap>, align: nat, count: nat, ghost cs: Children, ghost lo: Vpn, ghost hi: Vpn) returns (r: Spot)
    requires GapsAre(gaps, cs, lo, hi) && ChildrenOk(cs, lo, hi) && align > 0
    ensures Answers(cs, lo, hi, align, count, r)
  {
    var i := 0;
    while i < |gaps|
      invariant 0 <= i <= |gaps|
      invariant forall j :: 0 <= j < i ==> Probe(gaps[j], align, count) == NoSpot
    {
      r := Probe(gaps[i], align, count);
      if r != NoSpot {
        SpotAnswers(gaps, cs, lo, hi, align, count, i);
        return;
      }
      i := i + 1;
    }
    SpotAnswers(gaps, cs, lo, hi, align, count, i);
    return NoSpot;
  }

  /** From page `p` on, which is aligned, there is room for `count` pages and one page more. */
  ghost predicate RoomAt(cs: Children, lo: Vpn, hi: Vpn, align: nat, count: nat, p: Vpn)
    requires align > 0
  {
    p % align == 0 && FreeRun(cs, lo, hi, p, count + 1)
  }

  /** The gap ends before its first aligned page. */
  ghost predicate Underflows(cs: Children, lo: Vpn, hi: Vpn, align: nat, g: Gap)
    requires align > 0
  {
    IsGap(cs, lo, hi, g) && AlignUp(g.start, align) > g.start + g.count
  }

  /** What a search answers: the first aligned place with a page to spare, unless it first meets a gap that ends before its
      first aligned page. */
  ghost predicate Answers(cs: Children, lo: Vpn, hi: Vpn, align: nat, count: nat, spot: Spot)
    requires align > 0
  {
    match spot
    case Found(v) =>
      && RoomAt(cs, lo, hi, align, count, v)
      && (forall p: Vpn :: p < v ==> !RoomAt(cs, lo, hi, align, count, p))
      && (forall g: Gap :: Underflows(cs, lo, hi, align, g) ==> v <= g.start)
    case Underflow =>
      exists g: Gap :: Underflows(cs, lo, hi, align, g) &&
                       forall p: Vpn :: p < g.start ==> !RoomAt(cs, lo, hi, align, count, p)
    case NoSpot =>
      && (forall p: Vpn :: !RoomAt(cs, lo, hi, align, count, p))
      && (forall g: Gap :: !Underflows(cs, lo, hi, align, g))
  }

  /** There is one answer. */
  lemma {:induction false} AnswersUnique(cs: Children, lo: Vpn, hi: Vpn, align: nat, count: nat, a: Spot, b: Spot)
    requires align > 0 && Answers(cs, lo, hi, align, count, a) && Answers(cs, lo, hi, align, count, b)
    ensures a == b
  {
    if a.Underflow? && b.Found? {
      FoundIsNoUnderflow(cs, lo, hi, align, count, b.start);
    } else if a.Found? && b.Underflow? {
      FoundIsNoUnderflow(cs, lo, hi, align, count, a.start);
    }
  }

  lemma {:induction false} FoundIsNoUnderflow(cs: Children, lo: Vpn, hi: Vpn, align: nat, count: nat, v: Vpn)
    requires align > 0 && Answers(cs, lo, hi, align, count, Found(v))
    ensures !Answers(cs, lo, hi, align, count, Underflow)
  {
    if Answers(cs, lo, hi, align, count, Underflow) {
      var g: Gap :| Underflows(cs, lo, hi, align, g) && forall p: Vpn :: p < g.start ==> !RoomAt(cs, lo, hi, align, count, p);
      AlignUpLeast(g.start, align, v);
    }
  }

  /** The gap that an aligned place with a page to spare lies in says so. */
  lemma {:induction false} RoomIsProbed(gaps: seq<Gap>, cs: Children, lo: Vpn, hi: Vpn, align: nat, count: nat, p: Vpn)
    returns (i: nat)
    requires GapsAre(gaps, cs, lo, hi) && ChildrenOk(cs, lo, hi) && align > 0 && RoomAt(cs, lo, hi, align, count, p)
    ensures i < |gaps| && Probe(gaps[i], align, count) == Found(AlignUp(gaps[i].start, align))
    ensures gaps[i].start <= AlignUp(gaps[i].start, align) <= p < gaps[i].start + gaps[i].count
  {
    var g := GapAround(cs, lo, hi, p, count + 1);
    i :| 0 <= i < |gaps| && gaps[i] == g;
    AlignUpLeast(g.start, align, p);
    AlignUpAligned(g.start, align);
  }

  /** Every run of free pages lies in a gap. */
  lemma {:induction false} GapAround(cs: Children, lo: Vpn, hi: Vpn, s: Vpn, n: nat) returns (g: Gap)
    requires FreeRun(cs, lo, hi, s, n) && n > 0
    ensures IsGap(cs, lo, hi, g) && g.start <= s && s + n <= g.start + g.count
    decreases s - lo + (hi - (s + n))
  {
    if s > lo && Free(cs, s - 1) {
      g := GapAround(cs, lo, hi, s - 1, n + 1);
    } else if s + n < hi && Free(cs, s + n) {
      g := GapAround(cs, lo, hi, s, n + 1);
    } else {
      g := Gap(s, n);
    }
  }

  /** The first gap that says anything but no gives the answer. */
  lemma {:induction false} SpotAnswers(gaps: seq<Gap>, cs: Children, lo: Vpn, hi: Vpn, align: nat, count: nat, i: nat)
    requires GapsAre(gaps, cs, lo, hi) && ChildrenOk(cs, lo, hi) && align > 0 && i <= |gaps|
    requires forall j :: 0 <= j < i ==> Probe(gaps[j], align, count) == NoSpot
    requires i < |gaps| ==> Probe(gaps[i], align, count) != NoSpot
    ensures Answers(cs, lo, hi, align, count, if i < |gaps| then Probe(gaps[i], align, count) else NoSpot)
  {
    forall p: Vpn | RoomAt(cs, lo, hi, align, count, p)
      ensures i < |gaps| && AlignUp(gaps[i].start, align) <= p && (Probe(gaps[i], align, count).Underflow? ==> gaps[i].start <= p)
    {
      var j := RoomIsProbed(gaps, cs, lo, hi, align, count, p);
      LaterGap(gaps, align, count, i, j, p);
    }
    forall g: Gap | Underflows(cs, lo, hi, align, g)
      ensures i < |gaps| && gaps[i].start <= g.start && (g != gaps[i] ==> gaps[i].start + gaps[i].count < g.start)
    {
      var j :| 0 <= j < |gaps| && gaps[j] == g;
      assert Probe(gaps[j], align, count) == Underflow;
      assert i < j ==> gaps[i].start + gaps[i].count < gaps[j].start;
    }
    if i < |gaps| {
      var g := gaps[i];
      assert g in gaps;
      AlignUpAligned(g.start, align);
      if Probe(g, align, count).Underflow? {
        assert Underflows(cs, lo, hi, align, g);
      } else {
        assert RoomAt(cs, lo, hi, align, count, AlignUp(g.start, align));
      }
    }
  }

  lemma {:induction false} LaterGap(gaps: seq<Gap>, align: nat, count: nat, i: nat, j: nat, p: Vpn)
    requires GapsAscend(gaps) && align > 0 && i <= |gaps| && j < |gaps|
    requires forall k :: 0 <= k < i ==> Probe(gaps[k], align, count) == NoSpot
    requires i < |gaps| ==> Probe(gaps[i], align, count) != NoSpot
    requires Probe(gaps[j], align, count) == Found(AlignUp(gaps[j].start, align)) && gaps[j].start <= AlignUp(gaps[j].start, align) <= p
    ensures i <= j && AlignUp(gaps[i].start, align) <= p && gaps[i].start <= p
  {
    if i < j {
      assert gaps[i].start + gaps[i].count < gaps[j].start;
      AlignUpAligned(gaps[j].start, align);
      AlignUpLeast(gaps[i].start, align, AlignUp(gaps[j].start, align));
    }
  }

  /** An aligned place with room meets no child. */
  lemma {:induction false} RoomMeetsNoChild(cs: Children, lo: Vpn, hi: Vpn, start: Vpn, count: nat)
    requires ChildrenOk(cs, lo, hi) && FreeRun(cs, lo, hi, start, count)
    requires count > 0
    ensures forall k :: k in cs ==> cs[k].End() <= start || start + count <= k
  {
    assert Free(cs, start);
    forall k | k in cs
      ensures cs[k].End() <= start || start + count <= k
    {
      assert cs[k].Contains(k) && (start <= k < start + count ==> Free(cs, k));
      assert !cs[k].Contains(start);
    }
  }
}
