/** Attached slices and mappings are nested: the ranges of two slices are disjoint unless one is below the other, and a mapping
    meets a slice other than its own only inside one of that slice's subslices. */
module SliceNesting {
  import opened MemTypes
  import opened SliceChildren
  import opened SliceTree

  /** `c` is a mapping among the children of `p`. */
  ghost predicate IsMapping(a: Arena, p: Id, c: Child) {
    Attached(a, p) && c.Mapping? && c.start in ChildrenOf(a, p) && ChildrenOf(a, p)[c.start] == c
  }

  /** `lo..hi` is outside slice `s` or inside one of its subslices. */
  ghost predicate Clear(a: Arena, s: Id, lo: Vpn, hi: Vpn)
    requires Attached(a, s)
  {
    || hi <= a[s].start || a[s].End() <= lo
    || exists k :: InSubslice(ChildrenOf(a, s), k, lo, hi)
  }

  ghost predicate InSubslice(cs: Children, k: Vpn, lo: Vpn, hi: Vpn) {
    k in cs && cs[k].Subslice? && cs[k].start <= lo && hi <= cs[k].End()
  }

  ghost predicate MappingNested(a: Arena, p: Id, c: Child, s: Id)
    requires IsMapping(a, p, c) && Attached(a, s)
  {
    s != p ==> Clear(a, s, c.start, c.End())
  }

  ghost predicate Nested(a: Arena) {
    forall p, c: Child, s {:trigger MappingNested(a, p, c, s)} ::
      IsMapping(a, p, c) && Attached(a, s) ==> MappingNested(a, p, c, s)
  }

  // ----- Trees are nested -----

  lemma {:induction false} ParentContains(a: Arena, root: Id, depth: map<Id, nat>, max: nat, s: Id, p: Id)
    requires TreeOk(a, root, depth, max) && Attached(a, s) && ParentOf(a, s) == Some(p)
    ensures Attached(a, p) && Links(a, p, s) && a[p].start <= a[s].start && a[s].End() <= a[p].End()
    ensures s in depth && p in depth && depth[s] == depth[p] + 1
  {
    assert UpOk(a, s, root, []) && DepthOk(a, root, s, depth, max);
    assert RangesOk(a, p);
  }

  /** An ancestor's range contains that of a slice, and if it is not the slice itself, one of its subslices does so too. */
  lemma {:induction false} AncestorContains(a: Arena, root: Id, depth: map<Id, nat>, max: nat, t: Id, n: nat, s: Id)
    requires TreeOk(a, root, depth, max) && Attached(a, t) && Ancestor(a, t, n) == Some(s)
    ensures Attached(a, s) && a[s].start <= a[t].start && a[t].End() <= a[s].End()
    ensures s in depth && t in depth && depth[t] == depth[s] + n
    ensures n > 0 ==> exists k :: InSubslice(ChildrenOf(a, s), k, a[t].start, a[t].End())
    decreases n
  {
    assert DepthOk(a, root, t, depth, max);
    if n > 0 {
      var p := ParentOf(a, t).value;
      ParentContains(a, root, depth, max, t, p);
      AncestorContains(a, root, depth, max, p, n - 1, s);
      if n == 1 {
        assert InSubslice(ChildrenOf(a, s), a[t].start, a[t].start, a[t].End());
      } else {
        var k :| InSubslice(ChildrenOf(a, s), k, a[p].start, a[p].End());
        assert InSubslice(ChildrenOf(a, s), k, a[t].start, a[t].End());
      }
    }
  }

  ghost predicate Apart(a: Arena, s: Id, t: Id)
    requires s in a && t in a
  {
    a[s].End() <= a[t].start || a[t].End() <= a[s].start
  }

  lemma {:induction false} SiblingsApart(a: Arena, root: Id, depth: map<Id, nat>, max: nat, s: Id, t: Id, p: Id)
    requires TreeOk(a, root, depth, max) && Attached(a, s) && Attached(a, t) && s != t
    requires ParentOf(a, s) == Some(p) && ParentOf(a, t) == Some(p)
    ensures Apart(a, s, t)
  {
    ParentContains(a, root, depth, max, s, p);
    ParentContains(a, root, depth, max, t, p);
    assert RangesOk(a, p);
  }

  /** The ranges of two slices are disjoint unless one is below the other. */
  lemma {:induction false} Laminar(a: Arena, root: Id, depth: map<Id, nat>, max: nat, s: Id, t: Id)
    requires TreeOk(a, root, depth, max) && Attached(a, s) && Attached(a, t)
    requires s in depth && t in depth && depth[s] >= depth[t]
    ensures Below(a, s, t) || Apart(a, s, t)
    decreases depth[s] + depth[t]
  {
    assert DepthOk(a, root, s, depth, max) && DepthOk(a, root, t, depth, max);
    if s == t {
      assert Ancestor(a, s, 0) == Some(t);
    } else if s == root {
      AttachedBelowRoot(a, root, depth, max, t);
      var n: nat :| Ancestor(a, t, n) == Some(root);
      AncestorContains(a, root, depth, max, t, n, root);
    } else {
      var p := ParentOf(a, s).value;
      ParentContains(a, root, depth, max, s, p);
      if depth[p] >= depth[t] {
        Laminar(a, root, depth, max, p, t);
        if Below(a, p, t) {
          BelowChild(a, s, p, t);
        }
      } else {
        Laminar(a, root, depth, max, t, p);
        if n: nat :| Ancestor(a, t, n) == Some(p) {
          AncestorContains(a, root, depth, max, t, n, p);
          assert n == 1;
          SameLevelApart(a, root, depth, max, s, t, p);
        }
      }
    }
  }

  lemma {:induction false} SameLevelApart(a: Arena, root: Id, depth: map<Id, nat>, max: nat, s: Id, t: Id, p: Id)
    requires TreeOk(a, root, depth, max) && Attached(a, s) && Attached(a, t) && s != t
    requires ParentOf(a, s) == Some(p) && Ancestor(a, t, 1) == Some(p)
    ensures Apart(a, s, t)
  {
    assert Ancestor(a, ParentOf(a, t).value, 0) == Some(p);
    SiblingsApart(a, root, depth, max, s, t, p);
  }

  /** A mapping that is not below slice `s` is outside of it. */
  lemma {:induction false} MappingOutside(a: Arena, root: Id, depth: map<Id, nat>, max: nat, p: Id, c: Child, s: Id)
    requires TreeOk(a, root, depth, max) && IsMapping(a, p, c) && Attached(a, s) && !Below(a, p, s)
    ensures c.End() <= a[s].start || a[s].End() <= c.start
  {
    assert DepthOk(a, root, s, depth, max) && DepthOk(a, root, p, depth, max) && RangesOk(a, p);
    if depth[s] >= depth[p] {
      Laminar(a, root, depth, max, s, p);
      if n: nat :| Ancestor(a, s, n) == Some(p) {
        AncestorContains(a, root, depth, max, s, n, p);
        assert Ancestor(a, p, 0) == Some(p);
        var k :| InSubslice(ChildrenOf(a, p), k, a[s].start, a[s].End());
        assert k != c.start;
      }
    } else {
      Laminar(a, root, depth, max, p, s);
    }
  }

  /** A mapping below slice `s` is inside of it, and if it is not one of its children, inside one of its subslices. */
  lemma {:induction false} MappingInside(a: Arena, root: Id, depth: map<Id, nat>, max: nat, p: Id, c: Child, s: Id)
    requires TreeOk(a, root, depth, max) && IsMapping(a, p, c) && Below(a, p, s)
    ensures Attached(a, s) && a[s].start <= c.start && c.End() <= a[s].End()
    ensures p != s ==> Clear(a, s, c.start, c.End())
  {
    assert RangesOk(a, p);
    var n: nat :| Ancestor(a, p, n) == Some(s);
    AncestorContains(a, root, depth, max, p, n, s);
    if p != s {
      var k :| InSubslice(ChildrenOf(a, s), k, a[p].start, a[p].End());
      assert InSubslice(ChildrenOf(a, s), k, c.start, c.End());
    }
  }

  lemma {:induction false} TreeIsNested(a: Arena, root: Id, depth: map<Id, nat>, max: nat)
    requires TreeOk(a, root, depth, max)
    ensures Nested(a)
  {
    forall p, c: Child, s | IsMapping(a, p, c) && Attached(a, s)
      ensures MappingNested(a, p, c, s)
    {
      if Below(a, p, s) {
        MappingInside(a, root, depth, max, p, c, s);
      } else {
        MappingOutside(a, root, depth, max, p, c, s);
      }
    }
  }

  // ----- Mappings -----

  /** A vacant range of `s` meets no mapping, wherever it is. */
  lemma {:induction false} VacantMeetsNoMapping(a: Arena, s: Id, start: Vpn, count: nat, p: Id, c: Child)
    requires Nested(a) && AllRangesOk(a) && Vacant(a, s, start, count) && IsMapping(a, p, c)
    ensures c.End() <= start || start + count <= c.start
  {
    assert RangesOk(a, s) && RangesOk(a, p) && MappingNested(a, p, c, s);
    if p != s && !(c.End() <= a[s].start || a[s].End() <= c.start) {
      var k :| InSubslice(ChildrenOf(a, s), k, c.start, c.End());
      assert ChildrenOf(a, s)[k].End() <= start || start + count <= k;
    }
  }

  /** Two mappings share no page. */
  lemma {:induction false} MappingsDisjoint(a: Arena, p: Id, c: Child, q: Id, d: Child, v: Vpn)
    requires Nested(a) && AllRangesOk(a) && IsMapping(a, p, c) && IsMapping(a, q, d) && c.Contains(v) && d.Contains(v)
    ensures p == q && c == d
  {
    assert RangesOk(a, p) && RangesOk(a, q) && MappingNested(a, q, d, p);
  }

  lemma {:induction false} InsertedMapping(a: Arena, s: Id, c: Child, p: Id, d: Child)
    requires Attached(a, s) && c.Mapping? && c.start !in ChildrenOf(a, s)
    ensures IsMapping(InsertChild(a, s, c), p, d) <==> IsMapping(a, p, d) || (p == s && d == c)
  {
  }

  lemma {:induction false} RemovedMapping(a: Arena, p: Id, k: Vpn)
    requires Attached(a, p)
    ensures forall q, d: Child :: IsMapping(PopChild(a, p, k), q, d) <==> IsMapping(a, q, d) && !(q == p && d.start == k)
  {
  }

  lemma {:induction false} InsertedSubslice(a: Arena, s: Id, c: Child)
    requires Attached(a, s) && c.Subslice? && c.id !in a && c.start !in ChildrenOf(a, s)
    ensures forall p, d: Child :: IsMapping(NewSlice(a, s, c), p, d) <==> IsMapping(a, p, d)
  {
  }

  /** Detaching slice `s` and everything below it leaves exactly the mappings that are not below it. */
  lemma {:induction false} DetachedMappings(a: Arena, a': Arena, root: Id, depth: map<Id, nat>, max: nat, s: Id, p: Id)
    requires TreeOk(a, root, depth, max) && Attached(a, s) && ParentOf(a, s) == Some(p) && Attached(a, p) && a'.Keys == a.Keys
    requires forall t :: t in a' ==> (Attached(a', t) <==> Attached(a, t) && !Below(a, t, s))
    requires forall t :: t in a' && !Below(a, t, s) ==> a'[t] == PopChild(a, p, a[s].start)[t]
    ensures forall q, e: Child :: IsMapping(a', q, e) <==> IsMapping(a, q, e) && !Below(a, q, s)
  {
    ParentContains(a, root, depth, max, s, p);
  }
}
