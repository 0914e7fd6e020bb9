/** Merging neighbouring entries of the boot memory map in place. */
module MemoryMap {
  import opened MemTypes

  type Kind = nat

  datatype Entry = Entry(start: nat, count: nat, kind: Kind) {
    function End(): nat {
      start + count
    }
  }

  /** Sorted by start and not intersecting. */
  ghost predicate Sorted(m: seq<Entry>) {
    forall i, j :: 0 <= i < j < |m| ==> m[i].End() <= m[j].start
  }

  /** Page `p` is of kind `kind` according to `m`. */
  ghost predicate HasKind(m: seq<Entry>, p: nat, kind: Kind) {
    exists i :: 0 <= i < |m| && m[i].start <= p < m[i].End() && m[i].kind == kind
  }

  predicate Touching(a: Entry, b: Entry) {
    a.kind == b.kind && a.End() == b.start
  }

  /** No two neighbours could be merged. */
  ghost predicate Merged(m: seq<Entry>) {
    forall i :: 0 < i < |m| ==> !Touching(m[i - 1], m[i])
  }

  ghost predicate SameMeaning(m: seq<Entry>, m': seq<Entry>) {
    forall p, kind {:trigger HasKind(m', p, kind)} :: HasKind(m', p, kind) <==> HasKind(m, p, kind)
  }

  /** Taking entry `e` into the merged map `m`. */
  function Absorb(m: seq<Entry>, e: Entry): seq<Entry>
    requires m != []
  {
    var last := m[|m| - 1];
    if Touching(last, e) then m[|m| - 1 := last.(count := last.count + e.count)] else m + [e]
  }

  lemma {:induction false} HasKindAppend(m: seq<Entry>, e: Entry, p: nat, kind: Kind)
    ensures HasKind(m + [e], p, kind) <==> HasKind(m, p, kind) || (e.start <= p < e.End() && e.kind == kind)
  {
    if HasKind(m, p, kind) {
      var i :| 0 <= i < |m| && m[i].start <= p < m[i].End() && m[i].kind == kind;
      assert (m + [e])[i] == m[i];
    }
    assert (m + [e])[|m|] == e;
  }

  lemma {:induction false} AbsorbKind(m: seq<Entry>, e: Entry, p: nat, kind: Kind)
    requires m != []
    ensures HasKind(Absorb(m, e), p, kind) <==> HasKind(m + [e], p, kind)
  {
    var last, front := m[|m| - 1], m[..|m| - 1];
    HasKindAppend(m, e, p, kind);
    if Touching(last, e) {
      var merged := last.(count := last.count + e.count);
      assert Absorb(m, e) == front + [merged] && m == front + [last];
      HasKindAppend(front, merged, p, kind);
      HasKindAppend(front, last, p, kind);
    }
  }

  lemma {:induction false} AbsorbOk(done: seq<Entry>, m: seq<Entry>, e: Entry)
    requires m != [] && Sorted(m) && Merged(m) && m[|m| - 1].End() <= e.start && SameMeaning(done, m)
    ensures Sorted(Absorb(m, e)) && Merged(Absorb(m, e)) && SameMeaning(done + [e], Absorb(m, e))
    ensures Absorb(m, e)[|Absorb(m, e)| - 1].End() == e.End()
  {
    forall p, kind
      ensures HasKind(Absorb(m, e), p, kind) <==> HasKind(done + [e], p, kind)
    {
      AbsorbKind(m, e, p, kind);
      HasKindAppend(m, e, p, kind);
      HasKindAppend(done, e, p, kind);
      assert HasKind(m, p, kind) <==> HasKind(done, p, kind);
    }
  }

  /** Returns the length of the merged map, which is in the first part of the array.  `None` is a panic. */
  method Coalesce(mmap: array<Entry>) returns (r: Option<nat>)
    modifies mmap
    ensures r.Some? <==> Sorted(old(mmap[..]))
    ensures r.Some? ==>
              && r.value <= mmap.Length
              && Sorted(mmap[..r.value]) && Merged(mmap[..r.value]) && SameMeaning(old(mmap[..]), mmap[..r.value])
  {
    if mmap.Length == 0 {
      return Some(0);
    }
    var base := 0;
    ghost var was := mmap[..];
    assert mmap[..1] == was[..1];
    for cur := 1 to mmap.Length
      invariant base < cur && mmap[cur..] == was[cur..]
      invariant Sorted(mmap[..base + 1]) && Merged(mmap[..base + 1]) && SameMeaning(was[..cur], mmap[..base + 1])
      invariant mmap[base].End() == was[cur - 1].End() && Sorted(was[..cur])
    {
      var baseRange, curRange := mmap[base], mmap[cur];
      assert curRange == was[cur] by { assert mmap[cur..][0] == was[cur..][0]; }
      var baseEnd := baseRange.start + baseRange.count;
      if baseEnd > curRange.start {
        assert was[cur - 1].End() > was[cur].start;
        return None;
      }
      ghost var m := mmap[..base + 1];
      AbsorbOk(was[..cur], m, curRange);
      SortedAppend(was[..cur], curRange);
      assert was[..cur] + [curRange] == was[..cur + 1];
      if baseRange.kind == curRange.kind && baseEnd == curRange.start {
        mmap[base] := baseRange.(count := baseRange.count + curRange.count);
      } else {
        base := base + 1;
        mmap[base] := curRange;
      }
      assert mmap[..base + 1] == Absorb(m, curRange);
    }
    assert was[..mmap.Length] == was;
    return Some(base + 1);
  }

  lemma {:induction false} SortedAppend(m: seq<Entry>, e: Entry)
    requires Sorted(m) && m != [] && m[|m| - 1].End() <= e.start
    ensures Sorted(m + [e])
  {
  }
}
