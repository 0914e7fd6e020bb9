/** Committing a mapping: its object's frames are mapped in runs of consecutive frames. */
module Commit {
  import opened MemTypes
  import opened PageTree
  import opened PageMap
  import opened PageTable

  /** The frame that an object provides for each of its pages; `None` where it fails to. */
  type Object = seq<Option<Pfn>>

  /** `tr` translates page `v` of a mapping of `start..start + |frames|` to the frame provided for it. */
  ghost predicate IsCommitted(tr: Option<Translation>, v: Vpn, start: Vpn, frames: Object, attrs: Attrs) {
    && start <= v < start + |frames|
    && tr.Some? && frames[v - start] == Some(tr.value.frame)
    && tr.value.attrs == attrs
    && EntryWithin(v, tr.value.level, start, |frames|)
  }

  /** The first `done` pages of the mapping are committed; nothing else has changed. */
  ghost predicate PageCommitted(mem: Memory, mem': Memory, root: Pfn, start: Vpn, done: nat,
                                frames: Object, attrs: Attrs, v: Vpn)
  {
    if start <= v < start + done then IsCommitted(Walk(mem', root, ROOT_LEVEL, v), v, start, frames, attrs)
    else Walk(mem', root, ROOT_LEVEL, v) == Walk(mem, root, ROOT_LEVEL, v)
  }

  ghost predicate Committed(mem: Memory, mem': Memory, root: Pfn, span: nat, start: Vpn, done: nat,
                            frames: Object, attrs: Attrs)
  {
    && done <= |frames|
    && forall v: Vpn {:trigger PageCommitted(mem, mem', root, start, done, frames, attrs, v)} ::
         InSpan(v, span) ==> PageCommitted(mem, mem', root, start, done, frames, attrs, v)
  }

  /** Offsets `base..base + size` of the object have consecutive frames from `pfn` on. */
  ghost predicate IsRun(frames: Object, base: nat, size: nat, pfn: Pfn) {
    base + size <= |frames| && forall j :: base <= j < base + size ==> frames[j] == Some(pfn + (j - base))
  }

  /** The object fails to provide page `o`, right behind a run from `done` on. */
  ghost predicate MissingBehindRun(frames: Object, done: nat, o: nat, pfn: Pfn) {
    done <= o < |frames| && IsRun(frames, done, o - done, pfn) && !Follows(frames, done) && frames[o] == None
  }

  /** Mapping the first pages of a run that starts where the committed pages end commits those pages. */
  lemma {:induction false} CommitRun(m0: Memory, m1: Memory, m2: Memory, root: Pfn, span: nat, start: Vpn,
                                     frames: Object, attrs: Attrs, base: nat, size: nat, pfn: Pfn, off: nat)
    requires Committed(m0, m1, root, span, start, base, frames, attrs)
    requires IsRun(frames, base, size, pfn) && off <= size
    requires Extends(m1, m2, root, span, start + base, size, 0, off, pfn, attrs)
    ensures Committed(m0, m2, root, span, start, base + off, frames, attrs)
  {
    forall v: Vpn | InSpan(v, span)
      ensures PageCommitted(m0, m2, root, start, base + off, frames, attrs, v)
    {
      assert PageCommitted(m0, m1, root, start, base, frames, attrs, v);
      assert PageExtends(m1, m2, root, v, start + base, size, 0, off, pfn, attrs);
      if start + base <= v < start + base + off {
        assert frames[v - start] == Some(pfn + (v - start - base));
      }
    }
  }

  // ----- Pages that are refused -----

  /** Page `k` of the object has the frame behind the one of the page before it. */
  predicate Follows(frames: Object, k: nat) {
    0 < k < |frames| && frames[k - 1].Some? && frames[k] == Some(frames[k - 1].value + 1)
  }

  /** A run that cannot be made longer on either side. */
  ghost predicate MaxRun(frames: Object, base: nat, size: nat, pfn: Pfn) {
    size > 0 && IsRun(frames, base, size, pfn) && !Follows(frames, base) && !Follows(frames, base + size)
  }

  lemma {:induction false} InsideFollows(frames: Object, base: nat, size: nat, pfn: Pfn, k: nat)
    requires IsRun(frames, base, size, pfn)
    ensures base < k < base + size ==> Follows(frames, k)
  {
  }

  lemma {:induction false} RunsUnique(frames: Object, b: nat, n: nat, pfn: Pfn, b': nat, n': nat, pfn': Pfn, k: nat)
    requires MaxRun(frames, b, n, pfn) && MaxRun(frames, b', n', pfn') && b <= k < b + n && b' <= k < b' + n'
    ensures b == b' && n == n' && pfn == pfn'
  {
    InsideFollows(frames, b, n, pfn, b');
    InsideFollows(frames, b', n', pfn', b);
    InsideFollows(frames, b, n, pfn, b' + n');
    InsideFollows(frames, b', n', pfn', b + n);
  }

  /** In its run, page `k` of the mapping belongs to a large page. */
  ghost predicate GetsLargePage(start: Vpn, frames: Object, k: nat) {
    exists base: nat, size: nat, pfn: Pfn ::
      MaxRun(frames, base, size, pfn) && base <= k < base + size && InLargePage(start + base, size, 0, k - base, pfn)
  }

  /** Page `k` of the mapping is translated by a large page exactly if it belongs to one in its run. */
  ghost predicate SizedRight(mem: Memory, root: Pfn, start: Vpn, frames: Object, k: nat) {
    var tr := Walk(mem, root, ROOT_LEVEL, start + k);
    tr.Some? ==> tr.value.level == if GetsLargePage(start, frames, k) then 1 else 0
  }

  ghost predicate AllSizedRight(mem: Memory, root: Pfn, start: Vpn, frames: Object, done: nat) {
    forall k: nat {:trigger SizedRight(mem, root, start, frames, k)} :: k < done ==> SizedRight(mem, root, start, frames, k)
  }

  /** Mapping the next run keeps the sizes of the pages before it, and gives its own pages the right ones. */
  lemma {:induction false} RunSized(m1: Memory, m2: Memory, root: Pfn, span: nat, start: Vpn, frames: Object, attrs: Attrs,
                                    base: nat, size: nat, pfn: Pfn, off: nat)
    requires MaxRun(frames, base, size, pfn) && off <= size && AllSizedRight(m1, root, start, frames, base)
    requires Extends(m1, m2, root, span, start + base, size, 0, off, pfn, attrs)
    requires Sized(m2, root, span, start + base, size, 0, off, pfn)
    requires InSpan(start, span) && InSpan(start + |frames| - 1, span)
    ensures AllSizedRight(m2, root, start, frames, base + off)
  {
    forall k: nat | k < base + off
      ensures SizedRight(m2, root, start, frames, k)
    {
      SpanConvex(start, start + k, start + |frames| - 1, span);
      if k < base {
        assert SizedRight(m1, root, start, frames, k);
        assert PageExtends(m1, m2, root, start + k, start + base, size, 0, off, pfn, attrs);
      } else {
        assert start + base + (k - base) == start + k;
        assert PageSized(m2, root, start + base, size, 0, k - base, pfn);
        forall b: nat, n: nat, f: Pfn | MaxRun(frames, b, n, f) && b <= k < b + n
          ensures b == base && n == size && f == pfn
        {
          RunsUnique(frames, b, n, f, base, size, pfn, k);
        }
      }
    }
  }

  /** In its run, page `k` of the mapping cannot be mapped. */
  ghost predicate Refused(mem: Memory, root: Pfn, start: Vpn, frames: Object, k: nat) {
    exists base: nat, size: nat, pfn: Pfn ::
      MaxRun(frames, base, size, pfn) && base <= k < base + size && Blocked(mem, root, start + base, size, k - base, pfn)
  }

  /** In its run, page `k` would get a large page, but there is a table for small ones. */
  ghost predicate LeftoverTable(mem: Memory, root: Pfn, start: Vpn, frames: Object, k: nat) {
    && TableAt(mem, root, 0, start + k).Some?
    && exists base: nat, size: nat, pfn: Pfn ::
         MaxRun(frames, base, size, pfn) && base <= k < base + size && LargeCandidate(start + base, size, k - base, pfn)
  }

  /** An untranslated page is refused only for the sake of a table that was left over. */
  lemma {:induction false} RefusedUntranslated(mem: Memory, root: Pfn, start: Vpn, frames: Object, k: nat)
    requires Walk(mem, root, ROOT_LEVEL, start + k) == None
    ensures Refused(mem, root, start, frames, k) <==> LeftoverTable(mem, root, start, frames, k)
  {
    forall base: nat, size: nat, pfn: Pfn | MaxRun(frames, base, size, pfn) && base <= k
      ensures Blocked(mem, root, start + base, size, k - base, pfn) <==>
              LargeCandidate(start + base, size, k - base, pfn) && TableAt(mem, root, 0, start + k).Some?
    {
      assert start + base + (k - base) == start + k;
    }
  }

  /** Tables have been added at most for the pages `lo..end`. */
  ghost predicate TablesFor(p0: map<Pfn, Place>, p1: map<Pfn, Place>, lo: Vpn, end: Vpn) {
    if lo < end then Grown(p0, p1, lo, end - 1) else p1 == p0
  }

  lemma {:induction false} TablesForTrans(p0: map<Pfn, Place>, p1: map<Pfn, Place>, p2: map<Pfn, Place>,
                                          lo: Vpn, mid: Vpn, end: Vpn)
    requires lo <= mid < end && TablesFor(p0, p1, lo, mid) && Grown(p1, p2, mid, end - 1)
    ensures TablesFor(p0, p2, lo, end)
  {
    if lo < mid {
      GrownTrans(p0, p1, p2, lo, mid - 1, mid, end - 1);
    }
  }

  lemma {:induction false} MoreTables(p0: map<Pfn, Place>, p1: map<Pfn, Place>, lo: Vpn, end: Vpn, end': Vpn)
    requires TablesFor(p0, p1, lo, end) && lo <= end <= end'
    ensures TablesFor(p0, p1, lo, end')
  {
    if lo < end {
      GrownRefl(p1, lo, end' - 1);
      GrownTrans(p0, p1, p1, lo, end - 1, lo, end' - 1);
    } else if lo < end' {
      GrownRefl(p1, lo, end' - 1);
    }
  }

  /** Beyond the pages that tables were added for, there is a level-0 table where there was one. */
  lemma {:induction false} SameLeafTable(m0: Memory, p0: map<Pfn, Place>, m1: Memory, p1: map<Pfn, Place>, root: Pfn, span: nat,
                                         lo: Vpn, end: Vpn, v: Vpn)
    requires WellFormed(m0, root, p0, span) && WellFormed(m1, root, p1, span) && TablesFor(p0, p1, lo, end)
    requires end <= v && AlignedForLevel(v, 1) && InSpan(v, span)
    ensures TableAt(m1, root, 0, v).Some? <==> TableAt(m0, root, 0, v).Some?
  {
    if TableAt(m0, root, 0, v).Some? {
      var t := TableAt(m0, root, 0, v).value;
      PathPlace(m0, root, p0, span, 0, v);
      assert lo < end ==> TableGrown(p0, p1, lo, end - 1, t);
      OnPath(m1, root, p1, span, t, v);
    }
    if TableAt(m1, root, 0, v).Some? {
      var t := TableAt(m1, root, 0, v).value;
      PathPlace(m1, root, p1, span, 0, v);
      if lo < end {
        assert TableGrown(p0, p1, lo, end - 1, t);
        BlockBounds(end - 1, 1);
        BlockBounds(v, 1);
        BlockMono(end - 1, v, 1);
      }
      OnPath(m0, root, p0, span, t, v);
    }
  }

  /** What is refused in a run does not depend on the runs before it. */
  lemma {:induction false} SameRefusal(m0: Memory, p0: map<Pfn, Place>, m1: Memory, p1: map<Pfn, Place>, root: Pfn, span: nat,
                                       start: Vpn, frames: Object, attrs: Attrs, base: nat, size: nat, pfn: Pfn, k: nat)
    requires WellFormed(m0, root, p0, span) && WellFormed(m1, root, p1, span) && TablesFor(p0, p1, start, start + base)
    requires Committed(m0, m1, root, span, start, base, frames, attrs) && MaxRun(frames, base, size, pfn)
    requires base <= k < base + size && InSpan(start + k, span)
    ensures Blocked(m1, root, start + base, size, k - base, pfn) <==> Refused(m0, root, start, frames, k)
  {
    assert PageCommitted(m0, m1, root, start, base, frames, attrs, start + k);
    assert start + base + (k - base) == start + k;
    if LargeCandidate(start + base, size, k - base, pfn) {
      SameLeafTable(m0, p0, m1, p1, root, span, start, start + base, start + k);
    }
    forall b: nat, n: nat, f: Pfn | MaxRun(frames, b, n, f) && b <= k < b + n
      ensures b == base && n == size && f == pfn
    {
      RunsUnique(frames, b, n, f, base, size, pfn, k);
    }
  }

  /** The first `done` pages of a mapping are committed, with large pages wherever a run has room for them, none of them was
      refused, and tables were added for the first
      `upto` pages. */
  ghost predicate CommittedTo(m0: Memory, p0: map<Pfn, Place>, m1: Memory, p1: map<Pfn, Place>, root: Pfn, span: nat,
                              start: Vpn, done: nat, upto: nat, frames: Object, attrs: Attrs)
  {
    forall n: nat {:trigger Unfold(n)} :: Unfold(n) ==>
      && Committed(m0, m1, root, span, start, done, frames, attrs)
      && (forall k: nat {:trigger Refused(m0, root, start, frames, k)} :: k < done ==> !Refused(m0, root, start, frames, k))
      && TablesFor(p0, p1, start, start + upto) && AllSizedRight(m1, root, start, frames, done)
  }

  lemma {:induction false} NothingCommitted(mem: Memory, places: map<Pfn, Place>, root: Pfn, span: nat, start: Vpn,
                                            frames: Object, attrs: Attrs)
    ensures CommittedTo(mem, places, mem, places, root, span, start, 0, 0, frames, attrs)
  {
  }

  lemma {:induction false} NoMoreTables(m0: Memory, p0: map<Pfn, Place>, m1: Memory, p1: map<Pfn, Place>, root: Pfn, span: nat,
                                        start: Vpn, done: nat, upto: nat, upto': nat, frames: Object, attrs: Attrs)
    requires CommittedTo(m0, p0, m1, p1, root, span, start, done, upto, frames, attrs) && upto <= upto'
    ensures CommittedTo(m0, p0, m1, p1, root, span, start, done, upto', frames, attrs)
  {
    assert Unfold(0);
    MoreTables(p0, p1, start, start + upto, start + upto');
  }

  /** Mapping the first pages of the next run commits them. */
  lemma {:induction false} RunCommitted(m0: Memory, p0: map<Pfn, Place>, m1: Memory, p1: map<Pfn, Place>,
                                        m2: Memory, p2: map<Pfn, Place>, root: Pfn, span: nat,
                                        start: Vpn, frames: Object, attrs: Attrs, base: nat, size: nat, pfn: Pfn, off: nat)
    requires WellFormed(m0, root, p0, span) && WellFormed(m1, root, p1, span) && MaxRun(frames, base, size, pfn)
    requires CommittedTo(m0, p0, m1, p1, root, span, start, base, base, frames, attrs) && off <= size
    requires InSpan(start, span) && InSpan(start + |frames| - 1, span)
    requires Extends(m1, m2, root, span, start + base, size, 0, off, pfn, attrs)
    requires NoneBlocked(m1, root, start + base, size, 0, off, pfn) && Grown(p1, p2, start + base, start + base + size - 1)
    requires Sized(m2, root, span, start + base, size, 0, off, pfn)
    ensures CommittedTo(m0, p0, m2, p2, root, span, start, base + off, base + size, frames, attrs)
    ensures off < size ==> (Refused(m0, root, start, frames, base + off) <==> Blocked(m1, root, start + base, size, off, pfn))
  {
    assert Unfold(0);
    CommitRun(m0, m1, m2, root, span, start, frames, attrs, base, size, pfn, off);
    RunSized(m1, m2, root, span, start, frames, attrs, base, size, pfn, off);
    TablesForTrans(p0, p1, p2, start, start + base, start + base + size);
    forall k: nat | base <= k < base + size
      ensures Blocked(m1, root, start + base, size, k - base, pfn) <==> Refused(m0, root, start, frames, k)
    {
      SpanConvex(start, start + k, start + |frames| - 1, span);
      SameRefusal(m0, p0, m1, p1, root, span, start, frames, attrs, base, size, pfn, k);
    }
    if off < size {
      assert Blocked(m1, root, start + base, size, base + off - base, pfn) <==> Refused(m0, root, start, frames, base + off);
    }
  }

  // ----- Committing -----

  datatype CommitStatus = Done | MapFailed(status: Status) | ProvideFailed

  datatype MappingRun = MappingRun(baseOff: nat, basePfn: Pfn, size: nat)

  /** Maps one run. */
  method DoMap(pt: PageTable, start: Vpn, frames: Object, attrs: Attrs, run: MappingRun,
               ghost m0: Memory, ghost p0: map<Pfn, Place>)
    returns (r: Status, ghost done: nat)
    requires pt.Valid() && MaxRun(frames, run.baseOff, run.size, run.basePfn) && WellFormed(m0, pt.root, p0, pt.span)
    requires InSpan(start, pt.span) && InSpan(start + |frames| - 1, pt.span)
    requires CommittedTo(m0, p0, pt.mem, pt.places, pt.root, pt.span, start, run.baseOff, run.baseOff, frames, attrs)
    modifies pt`mem, pt`pool, pt`places
    ensures pt.Valid()
    ensures CommittedTo(m0, p0, pt.mem, pt.places, pt.root, pt.span, start, done, run.baseOff + run.size, frames, attrs)
    ensures if r.Ok? then done == run.baseOff + run.size else run.baseOff <= done < run.baseOff + run.size
    ensures r.ResourceOverlap? ==> Refused(m0, pt.root, start, frames, done)
    ensures r.OutOfMemory? ==> pt.pool == {} && !Refused(m0, pt.root, start, frames, done)
  {
    ghost var m1, p1 := pt.mem, pt.places;
    var p := new MappingPointer(start + run.baseOff, run.size);
    SpanConvex(start, p.Virt(), start + |frames| - 1, pt.span);
    SpanConvex(start, p.Last(), start + |frames| - 1, pt.span);
    r := pt.Map(p, run.basePfn, attrs);
    RunCommitted(m0, p0, m1, p1, pt.mem, pt.places, pt.root, pt.span, start, frames, attrs,
                 run.baseOff, run.size, run.basePfn, p.offset);
    done := run.baseOff + p.offset;
  }

  /** The run that is being collected when page `offset` is next. */
  ghost predicate RunSoFar(frames: Object, curRun: Option<MappingRun>, offset: nat, done: nat) {
    match curRun
    case None => offset == 0 && done == 0
    case Some(run) =>
      && run.size > 0 && run.baseOff == done && done + run.size == offset <= |frames|
      && IsRun(frames, run.baseOff, run.size, run.basePfn) && !Follows(frames, run.baseOff)
  }

  /** Why committing ended with `done` pages: all are done, the object fails to provide a page right behind a run, the next page
      is refused, or it is not and memory for tables has run out. */
  ghost predicate CommitEnds(m0: Memory, root: Pfn, start: Vpn, frames: Object, done: nat, r: CommitStatus, pool: set<Pfn>) {
    match r
    case Done => done == |frames|
    case ProvideFailed => exists o: nat, pfn :: MissingBehindRun(frames, done, o, pfn)
    case MapFailed(s) =>
      && !s.Ok? && done < |frames|
      && (s.ResourceOverlap? <==> Refused(m0, root, start, frames, done)) && (s.OutOfMemory? ==> pool == {})
  }

  /** Commits all of a mapping, batching consecutive frames; on failure some first part of it is committed. */
  method DoCommit(pt: PageTable, start: Vpn, frames: Object, attrs: Attrs) returns (r: CommitStatus, ghost done: nat)
    requires pt.Valid()
    requires |frames| > 0 ==> InSpan(start, pt.span) && InSpan(start + |frames| - 1, pt.span)
    modifies pt`mem, pt`pool, pt`places
    ensures pt.Valid()
    ensures CommittedTo(old(pt.mem), old(pt.places), pt.mem, pt.places, pt.root, pt.span, start, done, |frames|,
                        frames, attrs)
    ensures CommitEnds(old(pt.mem), pt.root, start, frames, done, r, pt.pool)
    ensures |frames| == 0 ==> r.Done? && pt.mem == old(pt.mem) && pt.places == old(pt.places) && pt.pool == old(pt.pool)
  {
    ghost var m0, p0 := pt.mem, pt.places;
    var curRun: Option<MappingRun> := None;
    done := 0;
    NothingCommitted(pt.mem, pt.places, pt.root, pt.span, start, frames, attrs);
    var offset := 0;
    while offset < |frames|
      invariant 0 <= offset <= |frames| && pt.Valid() && RunSoFar(frames, curRun, offset, done)
      invariant CommittedTo(m0, p0, pt.mem, pt.places, pt.root, pt.span, start, done, done, frames, attrs)
      invariant offset == 0 ==> pt.mem == m0 && pt.places == p0 && pt.pool == old(pt.pool)
    {
      var provided := frames[offset];
      if provided.None? {
        assert MissingBehindRun(frames, done, offset, if curRun.Some? then curRun.value.basePfn else 0);
        NoMoreTables(m0, p0, pt.mem, pt.places, pt.root, pt.span, start, done, done, |frames|, frames, attrs);
        return ProvideFailed, done;
      }
      var pfn := provided.value;
      if curRun.Some? {
        var run := curRun.value;
        if run.basePfn + run.size == pfn {
          curRun := Some(run.(size := run.size + 1));
          offset := offset + 1;
          continue;
        }
        var s;
        s, done := DoMap(pt, start, frames, attrs, run, m0, p0);
        if !s.Ok? {
          NoMoreTables(m0, p0, pt.mem, pt.places, pt.root, pt.span, start, done, offset, |frames|, frames, attrs);
          return MapFailed(s), done;
        }
      }
      curRun := Some(MappingRun(offset, pfn, 1));
      offset := offset + 1;
    }
    if curRun.Some? {
      var s;
      s, done := DoMap(pt, start, frames, attrs, curRun.value, m0, p0);
      if !s.Ok? {
        return MapFailed(s), done;
      }
    }
    return Done, done;
  }
}
