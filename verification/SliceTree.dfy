/** The tree of address space slices: every slice is attached, with a parent and children, or detached. */
module SliceTree {
  import opened Arith
  import opened MemTypes
  import opened SliceChildren

  datatype Inner = Inner(parent: Option<Id>, children: Children)

  datatype Slice = Slice(start: Vpn, count: nat, inner: Option<Inner>) {
    function End(): Vpn {
      start + count
    }
  }

  type Arena = map<Id, Slice>

  predicate Attached(a: Arena, s: Id) {
    s in a && a[s].inner.Some?
  }

  function ChildrenOf(a: Arena, s: Id): Children
    requires Attached(a, s)
  {
    a[s].inner.value.children
  }

  function ParentOf(a: Arena, s: Id): Option<Id>
    requires Attached(a, s)
  {
    a[s].inner.value.parent
  }

  /** The reference to `s` that its parent holds. */
  function Ref(a: Arena, s: Id): Child
    requires s in a
  {
    Subslice(s, a[s].start, a[s].count)
  }

  predicate Links(a: Arena, p: Id, s: Id)
    requires s in a
  {
    Attached(a, p) && a[s].start in ChildrenOf(a, p) && ChildrenOf(a, p)[a[s].start] == Ref(a, s)
  }

  // ----- Ancestors -----

  function Ancestor(a: Arena, s: Id, n: nat): Option<Id>
    decreases n
  {
    if n == 0 then Some(s)
    else if Attached(a, s) && ParentOf(a, s).Some? then Ancestor(a, ParentOf(a, s).value, n - 1)
    else None
  }

  /** `s` is `top` or one of its descendants. */
  ghost predicate Below(a: Arena, s: Id, top: Id) {
    exists n: nat :: Ancestor(a, s, n) == Some(top)
  }

  lemma {:induction false} BelowChild(a: Arena, s: Id, p: Id, top: Id)
    requires Attached(a, s) && ParentOf(a, s) == Some(p) && Below(a, p, top)
    ensures Below(a, s, top)
  {
    var n: nat :| Ancestor(a, p, n) == Some(top);
    assert Ancestor(a, s, n + 1) == Some(top);
  }

  lemma {:induction false} PopKeepsAncestor(a: Arena, p: Id, k: Vpn, s: Id, n: nat)
    requires Attached(a, p)
    ensures Ancestor(PopChild(a, p, k), s, n) == Ancestor(a, s, n)
    decreases n
  {
    if n > 0 && Attached(a, s) && ParentOf(a, s).Some? {
      PopKeepsAncestor(a, p, k, ParentOf(a, s).value, n - 1);
    }
  }

  /** Taking a child out of a slice does not change who is below whom by parent pointers. */
  lemma {:induction false} PopKeepsBelow(a: Arena, p: Id, k: Vpn, s: Id, top: Id)
    requires Attached(a, p)
    ensures Below(PopChild(a, p, k), s, top) <==> Below(a, s, top)
  {
    forall n: nat
      ensures Ancestor(PopChild(a, p, k), s, n) == Ancestor(a, s, n)
    {
      PopKeepsAncestor(a, p, k, s, n);
    }
  }

  // ----- Detaching -----

  ghost function AttachedSet(a: Arena): set<Id> {
    set s | s in a && a[s].inner.Some?
  }

  ghost function ChildPairs(a: Arena): set<(Id, Vpn)> {
    set s, k | s in a && a[s].inner.Some? && k in a[s].inner.value.children :: (s, k)
  }

  /** An attached slice whose parent is attached too is linked from it, or is being detached right now. */
  ghost predicate UpOk(a: Arena, s: Id, top: Id, stack: seq<Id>)
    requires Attached(a, s)
  {
    s != top && ParentOf(a, s).Some? ==> Attached(a, ParentOf(a, s).value) && (s in stack || Links(a, ParentOf(a, s).value, s))
  }

  /** The slices on the way from `top` to the current slice: each is the next one's parent. */
  ghost predicate StackOk(a: Arena, top: Id, stack: seq<Id>) {
    && (stack != [] ==> stack[0] == top)
    && (forall i :: 0 <= i < |stack| ==> Attached(a, stack[i]))
    && (forall i :: 0 < i < |stack| ==> ParentOf(a, stack[i]) == Some(stack[i - 1]))
    && (forall i, j :: 0 <= i < j < |stack| ==> stack[i] != stack[j])
  }

  /** If child `k` of `s` is a subslice, it is attached with `s` as its parent, and it is not being detached. */
  ghost predicate DownOk(a: Arena, s: Id, k: Vpn, top: Id, stack: seq<Id>)
    requires Attached(a, s) && k in ChildrenOf(a, s)
  {
    var c := ChildrenOf(a, s)[k];
    c.start == k &&
    (c.Subslice? ==>
       && Attached(a, c.id) && ParentOf(a, c.id) == Some(s) && c == Ref(a, c.id)
       && c.id !in stack && c.id != top)
  }

  /** What detaching has done so far to slice `s`. */
  ghost predicate Progress(a0: Arena, a: Arena, s: Id, top: Id)
    requires s in a0 && s in a
  {
    && a[s].start == a0[s].start && a[s].count == a0[s].count
    && (a[s] != a0[s] ==> Attached(a0, s) && Below(a0, s, top))
    && (Attached(a, s) ==> Attached(a0, s) && ParentOf(a, s) == ParentOf(a0, s))
  }

  /** No slice has moved. */
  ghost predicate SameRanges(a0: Arena, a: Arena) {
    a.Keys == a0.Keys && forall s :: s in a ==> a[s].start == a0[s].start && a[s].count == a0[s].count
  }

  ghost predicate Detaching(a0: Arena, a: Arena, top: Id, stack: seq<Id>) {
    && a.Keys == a0.Keys && top in a0
    && StackOk(a, top, stack)
    && (forall s, k {:trigger DownOk(a, s, k, top, stack)} ::
          Attached(a, s) && k in ChildrenOf(a, s) ==> DownOk(a, s, k, top, stack))
    && (forall s {:trigger UpOk(a, s, top, stack)} :: Attached(a, s) ==> UpOk(a, s, top, stack))
    && (forall s {:trigger Progress(a0, a, s, top)} :: s in a0 ==> Progress(a0, a, s, top))
  }

  function PopChild(a: Arena, s: Id, k: Vpn): Arena
    requires Attached(a, s)
  {
    a[s := a[s].(inner := Some(Inner(ParentOf(a, s), ChildrenOf(a, s) - {k})))]
  }

  function Detach(a: Arena, s: Id): Arena
    requires s in a
  {
    a[s := a[s].(inner := None)]
  }

  ghost predicate CurIs(stack: seq<Id>, cur: Id) {
    stack != [] && stack[|stack| - 1] == cur
  }

  lemma {:induction false} StackBelow(a0: Arena, a: Arena, top: Id, stack: seq<Id>, i: nat)
    requires Detaching(a0, a, top, stack) && i < |stack|
    ensures Below(a0, stack[i], top)
  {
    if i == 0 {
      assert Ancestor(a0, top, 0) == Some(top);
    } else {
      StackBelow(a0, a, top, stack, i - 1);
      assert Progress(a0, a, stack[i], top);
      BelowChild(a0, stack[i], stack[i - 1], top);
    }
  }

  lemma {:induction false} PopMappingStep(a0: Arena, a: Arena, top: Id, stack: seq<Id>, cur: Id, k: Vpn)
    requires Detaching(a0, a, top, stack) && CurIs(stack, cur)
    requires k in ChildrenOf(a, cur) && ChildrenOf(a, cur)[k].Mapping?
    ensures Detaching(a0, PopChild(a, cur, k), top, stack)
  {
    var a' := PopChild(a, cur, k);
    StackBelow(a0, a, top, stack, |stack| - 1);
    forall s, j | Attached(a', s) && j in ChildrenOf(a', s)
      ensures DownOk(a', s, j, top, stack)
    {
      assert DownOk(a, s, j, top, stack);
    }
    forall s | Attached(a', s)
      ensures UpOk(a', s, top, stack)
    {
      assert UpOk(a, s, top, stack);
    }
    forall s | s in a0
      ensures Progress(a0, a', s, top)
    {
      assert Progress(a0, a, s, top);
    }
  }

  lemma {:induction false} PopSubsliceStep(a0: Arena, a: Arena, top: Id, stack: seq<Id>, cur: Id, k: Vpn, id: Id)
    requires Detaching(a0, a, top, stack) && CurIs(stack, cur)
    requires k in ChildrenOf(a, cur) && ChildrenOf(a, cur)[k].Subslice? && ChildrenOf(a, cur)[k].id == id
    ensures Detaching(a0, PopChild(a, cur, k), top, stack + [id])
  {
    var a', stack' := PopChild(a, cur, k), stack + [id];
    StackBelow(a0, a, top, stack, |stack| - 1);
    assert DownOk(a, cur, k, top, stack);
    forall s, j | Attached(a', s) && j in ChildrenOf(a', s)
      ensures DownOk(a', s, j, top, stack')
    {
      assert DownOk(a, s, j, top, stack);
    }
    forall s | Attached(a', s)
      ensures UpOk(a', s, top, stack')
    {
      assert UpOk(a, s, top, stack);
    }
    forall s | s in a0
      ensures Progress(a0, a', s, top)
    {
      assert Progress(a0, a, s, top);
    }
  }

  /** A slice whose children are gone is nobody's parent any more, except perhaps of the top. */
  lemma {:induction false} NotAParent(a0: Arena, a: Arena, top: Id, stack: seq<Id>, cur: Id, s: Id)
    requires Detaching(a0, a, top, stack) && CurIs(stack, cur) && ChildrenOf(a, cur) == map[]
    requires Attached(a, s) && s != top
    ensures ParentOf(a, s) != Some(cur)
  {
    forall i | 0 < i < |stack|
      ensures ParentOf(a, stack[i]) != Some(cur)
    {
      assert stack[i - 1] != stack[|stack| - 1];
    }
    assert UpOk(a, s, top, stack);
  }

  lemma {:induction false} DetachStep(a0: Arena, a: Arena, top: Id, stack: seq<Id>, cur: Id)
    requires Detaching(a0, a, top, stack) && CurIs(stack, cur) && ChildrenOf(a, cur) == map[]
    ensures Detaching(a0, Detach(a, cur), top, stack[..|stack| - 1])
    ensures cur != top ==> |stack| > 1 && ParentOf(a, cur) == Some(stack[|stack| - 2])
  {
    var a', stack' := Detach(a, cur), stack[..|stack| - 1];
    StackBelow(a0, a, top, stack, |stack| - 1);
    forall s, j | Attached(a', s) && j in ChildrenOf(a', s)
      ensures DownOk(a', s, j, top, stack')
    {
      assert DownOk(a, s, j, top, stack);
    }
    forall s | Attached(a', s)
      ensures UpOk(a', s, top, stack')
    {
      assert UpOk(a, s, top, stack);
      if s != top {
        NotAParent(a0, a, top, stack, cur, s);
      }
      assert s in stack ==> s == cur || s in stack';
    }
    forall s | s in a0
      ensures Progress(a0, a', s, top)
    {
      assert Progress(a0, a, s, top);
    }
  }

  /** Once the top is detached, nothing below it is attached any more. */
  lemma {:induction false} NoneLeftBelow(a0: Arena, a: Arena, top: Id, s: Id, n: nat)
    requires Detaching(a0, a, top, []) && !Attached(a, top)
    requires Ancestor(a0, s, n) == Some(top)
    ensures !Attached(a, s)
    decreases n
  {
    if Attached(a, s) {
      assert Progress(a0, a, s, top) && UpOk(a, s, top, []);
      if n > 0 {
        NoneLeftBelow(a0, a, top, ParentOf(a, s).value, n - 1);
      }
    }
  }

  /** `top` can be detached: everything is linked as it should be, except that `top` itself is linked from nowhere. */
  ghost predicate Detachable(a: Arena, top: Id) {
    Attached(a, top) && Detaching(a, a, top, [top])
  }

  // ----- The tree as a whole -----

  ghost predicate RangesOk(a: Arena, s: Id)
    requires Attached(a, s)
  {
    ChildrenOk(ChildrenOf(a, s), a[s].start, a[s].End())
  }

  /** Depths grow by one from parent to child, up to `max`, and only the root has no parent. */
  ghost predicate DepthOk(a: Arena, root: Id, s: Id, depth: map<Id, nat>, max: nat)
    requires Attached(a, s)
  {
    s in depth && depth[s] <= max && (ParentOf(a, s).None? ==> s == root) &&
    (ParentOf(a, s).Some? ==> ParentOf(a, s).value in depth && depth[s] == depth[ParentOf(a, s).value] + 1)
  }

  ghost predicate AllRangesOk(a: Arena) {
    forall s {:trigger RangesOk(a, s)} :: Attached(a, s) ==> RangesOk(a, s)
  }

  /** Parents and children point to each other: every attached slice but the root is linked from its parent. */
  ghost predicate Linked(a: Arena, root: Id) {
    && Attached(a, root) && ParentOf(a, root) == None
    && (forall s, k {:trigger DownOk(a, s, k, root, [])} ::
          Attached(a, s) && k in ChildrenOf(a, s) ==> DownOk(a, s, k, root, []))
    && (forall s {:trigger UpOk(a, s, root, [])} :: Attached(a, s) ==> UpOk(a, s, root, []))
  }

  ghost predicate TreeOk(a: Arena, root: Id, depth: map<Id, nat>, max: nat) {
    && Linked(a, root) && AllRangesOk(a)
    && (forall s {:trigger DepthOk(a, root, s, depth, max)} :: Attached(a, s) ==> DepthOk(a, root, s, depth, max))
  }

  lemma {:induction false} RootDetachable(a: Arena, root: Id, depth: map<Id, nat>, max: nat)
    requires TreeOk(a, root, depth, max)
    ensures Detachable(a, root)
  {
    forall s, k | Attached(a, s) && k in ChildrenOf(a, s)
      ensures DownOk(a, s, k, root, [root])
    {
      assert DownOk(a, s, k, root, []);
    }
    forall s | Attached(a, s)
      ensures UpOk(a, s, root, [root])
    {
      assert UpOk(a, s, root, []);
    }
  }

  lemma {:induction false} AttachedBelowRoot(a: Arena, root: Id, depth: map<Id, nat>, max: nat, s: Id)
    requires TreeOk(a, root, depth, max) && Attached(a, s)
    ensures Below(a, s, root)
    decreases if s in depth then depth[s] else 0
  {
    assert DepthOk(a, root, s, depth, max) && UpOk(a, s, root, []);
    if s == root {
      assert Ancestor(a, s, 0) == Some(root);
    } else {
      var p := ParentOf(a, s).value;
      AttachedBelowRoot(a, root, depth, max, p);
      BelowChild(a, s, p, root);
    }
  }

  /** Taking a subslice out of its parent makes it ready to be detached. */
  lemma {:induction false} RemovedDetachable(a: Arena, root: Id, depth: map<Id, nat>, max: nat, p: Id, s: Id)
    requires TreeOk(a, root, depth, max) && Attached(a, s) && ParentOf(a, s) == Some(p)
    ensures Links(a, p, s) && Detachable(PopChild(a, p, a[s].start), s)
  {
    assert s != root && UpOk(a, s, root, []);
    var a' := PopChild(a, p, a[s].start);
    forall t, k | Attached(a', t) && k in ChildrenOf(a', t)
      ensures DownOk(a', t, k, s, [s])
    {
      assert DownOk(a, t, k, root, []);
    }
    forall t | Attached(a', t)
      ensures UpOk(a', t, s, [s])
    {
      assert UpOk(a, t, root, []);
    }
  }

  /** After a subslice has been removed and detached with all below it, the rest is still a tree. */
  lemma {:induction false} DetachedTreeOk(a: Arena, a': Arena, root: Id, depth: map<Id, nat>, max: nat, p: Id, s: Id)
    requires TreeOk(a, root, depth, max) && Attached(a, s) && ParentOf(a, s) == Some(p)
    requires Links(a, p, s) && a'.Keys == a.Keys
    requires var removed := PopChild(a, p, a[s].start);
             && (forall t :: t in a' ==> (Attached(a', t) <==> Attached(removed, t) && !Below(removed, t, s)))
             && (forall t :: t in a' && !Below(removed, t, s) ==> a'[t] == removed[t])
    ensures TreeOk(a', root, depth, max)
  {
    var removed := PopChild(a, p, a[s].start);
    RootNotBelow(a, root, depth, max, p, s);
    assert Ancestor(removed, s, 0) == Some(s);
    assert Below(removed, s, s);
    forall t, k | Attached(a', t) && k in ChildrenOf(a', t)
      ensures DownOk(a', t, k, root, [])
    {
      assert DownOk(a, t, k, root, []);
      var c := ChildrenOf(a', t)[k];
      if c.Subslice? && Below(removed, c.id, s) {
        ChildBelowMeansParent(removed, t, c.id, s);
      }
    }
    forall t | Attached(a', t)
      ensures UpOk(a', t, root, []) && RangesOk(a', t) && DepthOk(a', root, t, depth, max)
    {
      assert UpOk(a, t, root, []) && RangesOk(a, t) && DepthOk(a, root, t, depth, max);
      if t != root && ParentOf(a, t).Some? && Below(removed, ParentOf(a, t).value, s) {
        BelowChild(removed, t, ParentOf(a, t).value, s);
      }
    }
  }

  lemma {:induction false} ChildBelowMeansParent(a: Arena, t: Id, c: Id, s: Id)
    requires Attached(a, c) && ParentOf(a, c) == Some(t) && Below(a, c, s)
    ensures c == s || Below(a, t, s)
  {
    var n: nat :| Ancestor(a, c, n) == Some(s);
    if n > 0 {
      assert Ancestor(a, t, n - 1) == Some(s);
    }
  }

  lemma {:induction false} RootNotBelow(a: Arena, root: Id, depth: map<Id, nat>, max: nat, p: Id, s: Id)
    requires TreeOk(a, root, depth, max) && Attached(a, s) && ParentOf(a, s) == Some(p) && Attached(a, p)
    ensures !Below(PopChild(a, p, a[s].start), root, s)
  {
    var removed := PopChild(a, p, a[s].start);
    forall n: nat
      ensures Ancestor(removed, root, n) != Some(s)
    {
      assert n > 0 ==> Ancestor(removed, root, n) == None;
    }
  }

  // ----- Adding and removing children -----

  function InsertChild(a: Arena, s: Id, c: Child): Arena
    requires Attached(a, s)
  {
    a[s := a[s].(inner := Some(Inner(ParentOf(a, s), ChildrenOf(a, s)[c.start := c])))]
  }

  /** `c` can be placed in slice `s`: it is inside the slice and meets none of its children. */
  ghost predicate CanPlace(a: Arena, s: Id, c: Child) {
    && Attached(a, s) && c.count > 0 && a[s].start <= c.start && c.End() <= a[s].End()
    && forall k :: k in ChildrenOf(a, s) ==> ChildrenOf(a, s)[k].End() <= c.start || c.End() <= k
  }

  /** `k` is not the place of a subslice. */
  predicate NoSubsliceAt(a: Arena, s: Id, k: Vpn)
    requires Attached(a, s)
  {
    k in ChildrenOf(a, s) ==> ChildrenOf(a, s)[k].Mapping?
  }

  /** A mapping that takes no subslice's place keeps all links. */
  lemma {:induction false} LinkedMapping(a: Arena, root: Id, s: Id, c: Child)
    requires Linked(a, root) && Attached(a, s) && c.Mapping? && NoSubsliceAt(a, s, c.start)
    ensures Linked(InsertChild(a, s, c), root)
  {
    var a' := InsertChild(a, s, c);
    forall t, k | Attached(a', t) && k in ChildrenOf(a', t)
      ensures DownOk(a', t, k, root, [])
    {
      assert !(t == s && k == c.start) ==> DownOk(a, t, k, root, []);
    }
    forall t | Attached(a', t)
      ensures UpOk(a', t, root, [])
    {
      assert UpOk(a, t, root, []);
    }
  }

  /** A subslice that loses its place in its parent stays attached with no way to reach it. */
  lemma {:induction false} Orphaned(a: Arena, a': Arena, root: Id, s: Id, k: Vpn)
    requires Linked(a, root) && Attached(a, s) && !NoSubsliceAt(a, s, k)
    requires var id := ChildrenOf(a, s)[k].id;
             && Attached(a, id) ==> Attached(a', id) && ParentOf(a', id) == ParentOf(a, id) && Ref(a', id) == Ref(a, id)
    requires Attached(a', s) ==> !(k in ChildrenOf(a', s) && ChildrenOf(a', s)[k] == ChildrenOf(a, s)[k])
    ensures !Linked(a', root)
  {
    assert DownOk(a, s, k, root, []);
    assert !UpOk(a', ChildrenOf(a, s)[k].id, root, []);
  }

  lemma {:induction false} InsertMappingOk(a: Arena, root: Id, depth: map<Id, nat>, max: nat, s: Id, c: Child)
    requires TreeOk(a, root, depth, max) && CanPlace(a, s, c) && c.Mapping?
    ensures c.start !in ChildrenOf(a, s) && TreeOk(InsertChild(a, s, c), root, depth, max)
  {
    assert RangesOk(a, s);
    InsertKeeps(ChildrenOf(a, s), a[s].start, a[s].End(), c);
    LinkedMapping(a, root, s, c);
    var a' := InsertChild(a, s, c);
    forall t | Attached(a', t)
      ensures RangesOk(a', t) && DepthOk(a', root, t, depth, max)
    {
      assert RangesOk(a, t) && DepthOk(a, root, t, depth, max);
    }
  }

  function NewSlice(a: Arena, s: Id, c: Child): Arena
    requires Attached(a, s)
  {
    InsertChild(a, s, c)[c.id := Slice(c.start, c.count, Some(Inner(Some(s), map[])))]
  }

  function Max(x: nat, y: nat): nat {
    if x >= y then x else y
  }

  /** A new subslice that takes no other's place keeps all links. */
  lemma {:induction false} LinkedSubslice(a: Arena, root: Id, s: Id, c: Child)
    requires Linked(a, root) && Attached(a, s) && c.Subslice? && c.id !in a && NoSubsliceAt(a, s, c.start)
    ensures Linked(NewSlice(a, s, c), root)
  {
    var a' := NewSlice(a, s, c);
    forall t, k | Attached(a', t) && k in ChildrenOf(a', t)
      ensures DownOk(a', t, k, root, [])
    {
      assert !(t == s && k == c.start) ==> DownOk(a, t, k, root, []);
    }
    forall t | Attached(a', t)
      ensures UpOk(a', t, root, [])
    {
      if t != c.id {
        StillLinked(a, root, s, c, t);
      }
    }
  }

  lemma {:induction false} StillLinked(a: Arena, root: Id, s: Id, c: Child, t: Id)
    requires Linked(a, root) && Attached(a, s) && c.Subslice? && c.id !in a && NoSubsliceAt(a, s, c.start) && Attached(a, t)
    ensures UpOk(NewSlice(a, s, c), t, root, [])
  {
    assert UpOk(a, t, root, []);
  }

  lemma {:induction false} InsertSubsliceOk(a: Arena, root: Id, depth: map<Id, nat>, max: nat, s: Id, c: Child)
    requires TreeOk(a, root, depth, max) && CanPlace(a, s, c) && c.Subslice? && c.id !in a
    ensures s in depth && TreeOk(NewSlice(a, s, c), root, depth[c.id := depth[s] + 1], Max(max, depth[s] + 1))
  {
    assert RangesOk(a, s) && DepthOk(a, root, s, depth, max);
    InsertKeeps(ChildrenOf(a, s), a[s].start, a[s].End(), c);
    LinkedSubslice(a, root, s, c);
    var a', depth', max' := NewSlice(a, s, c), depth[c.id := depth[s] + 1], Max(max, depth[s] + 1);
    forall t | Attached(a', t)
      ensures RangesOk(a', t) && DepthOk(a', root, t, depth', max')
    {
      if t != c.id {
        KeptByInsert(a, root, depth, max, s, c, t);
      }
    }
  }

  lemma {:induction false} KeptByInsert(a: Arena, root: Id, depth: map<Id, nat>, max: nat, s: Id, c: Child, t: Id)
    requires TreeOk(a, root, depth, max) && CanPlace(a, s, c) && c.Subslice? && c.id !in a && s in depth
    requires c.start !in ChildrenOf(a, s) && Attached(a, t)
    requires ChildrenOk(ChildrenOf(a, s)[c.start := c], a[s].start, a[s].End())
    ensures var a' := NewSlice(a, s, c);
            RangesOk(a', t) && DepthOk(a', root, t, depth[c.id := depth[s] + 1], Max(max, depth[s] + 1))
  {
    assert UpOk(a, t, root, []) && RangesOk(a, t) && DepthOk(a, root, t, depth, max);
  }

  /** What a subslice in a vacant range does to the tree, with and without pages. */
  lemma {:induction false} SubslicePlaced(a: Arena, root: Id, depth: map<Id, nat>, max: nat, s: Id, c: Child)
    requires TreeOk(a, root, depth, max) && Vacant(a, s, c.start, c.count) && c.Subslice? && c.id !in a
    ensures s in depth && (AllRangesOk(NewSlice(a, s, c)) <==> c.count > 0)
    ensures c.count > 0 ==>
              && c.start !in ChildrenOf(a, s)
              && TreeOk(NewSlice(a, s, c), root, depth[c.id := depth[s] + 1], Max(max, depth[s] + 1))
    ensures Linked(NewSlice(a, s, c), root) <==> NoSubsliceAt(a, s, c.start)
  {
    var a' := NewSlice(a, s, c);
    assert RangesOk(a, s) && DepthOk(a, root, s, depth, max);
    if c.start in ChildrenOf(a, s) {
      OnlyEmptyRangesCollide(a, s, c.start, c.count);
    }
    if NoSubsliceAt(a, s, c.start) {
      LinkedSubslice(a, root, s, c);
    } else {
      assert DownOk(a, s, c.start, root, []);
      Orphaned(a, a', root, s, c.start);
    }
    if c.count > 0 {
      InsertSubsliceOk(a, root, depth, max, s, c);
    } else {
      assert c.start in ChildrenOf(a', s) && !RangesOk(a', s);
    }
  }

  lemma {:induction false} RemoveMappingOk(a: Arena, root: Id, depth: map<Id, nat>, max: nat, s: Id, k: Vpn)
    requires TreeOk(a, root, depth, max) && Attached(a, s) && k in ChildrenOf(a, s) && ChildrenOf(a, s)[k].Mapping?
    ensures TreeOk(PopChild(a, s, k), root, depth, max)
  {
    var a' := PopChild(a, s, k);
    forall t, j | Attached(a', t) && j in ChildrenOf(a', t)
      ensures DownOk(a', t, j, root, [])
    {
      assert DownOk(a, t, j, root, []);
    }
    forall t | Attached(a', t)
      ensures UpOk(a', t, root, []) && RangesOk(a', t) && DepthOk(a', root, t, depth, max)
    {
      assert UpOk(a, t, root, []) && RangesOk(a, t) && DepthOk(a, root, t, depth, max);
    }
  }

  // ----- Finding the mapping of a page -----

  /** `c` is a child of `s` that contains `v`, and `v` is not its first page. */
  ghost predicate Enters(a: Arena, s: Id, v: Vpn, c: Child) {
    Attached(a, s) && c.start in ChildrenOf(a, s) && ChildrenOf(a, s)[c.start] == c && c.Contains(v) && v != c.start
  }

  /** Slice `s` is reached from `top` by going down `n` subslices that `v` enters. */
  ghost predicate Path(a: Arena, top: Id, v: Vpn, n: nat, s: Id)
    decreases n
  {
    if n == 0 then s == top
    else exists t, c: Child :: Path(a, top, v, n - 1, t) && Enters(a, t, v, c) && c.Subslice? && c.id == s
  }

  /** `m` is the mapping of `v` below `top`: `v` lies in it, past the first page of every child on the way. */
  ghost predicate MappingFor(a: Arena, top: Id, v: Vpn, m: Child) {
    m.Mapping? && exists n: nat, s :: Path(a, top, v, n, s) && Enters(a, s, v, m)
  }

  lemma {:induction false} EntersUnique(a: Arena, s: Id, v: Vpn, c: Child)
    requires AllRangesOk(a) && Attached(a, s)
    ensures Enters(a, s, v, c) <==> GetChild(ChildrenOf(a, s), v) == Some(c)
  {
    assert RangesOk(a, s);
    GetChildFinds(ChildrenOf(a, s), a[s].start, a[s].End(), v, c);
  }

  lemma {:induction false} PathUnique(a: Arena, top: Id, v: Vpn, n: nat, s: Id, s': Id)
    requires AllRangesOk(a) && Path(a, top, v, n, s) && Path(a, top, v, n, s')
    ensures s == s'
    decreases n
  {
    if n > 0 {
      var t, c: Child :| Path(a, top, v, n - 1, t) && Enters(a, t, v, c) && c.Subslice? && c.id == s;
      var t', c': Child :| Path(a, top, v, n - 1, t') && Enters(a, t', v, c') && c'.Subslice? && c'.id == s';
      PathUnique(a, top, v, n - 1, t, t');
      EntersUnique(a, t, v, c);
      EntersUnique(a, t, v, c');
    }
  }

  /** Every longer path goes on from a shorter one through a subslice. */
  lemma {:induction false} PathGoesOn(a: Arena, top: Id, v: Vpn, k: nat, t: Id, n: nat, s: Id) returns (c: Child)
    requires AllRangesOk(a) && k < n && Path(a, top, v, k, t) && Path(a, top, v, n, s)
    ensures Enters(a, t, v, c) && c.Subslice?
    decreases n
  {
    var u, d: Child :| Path(a, top, v, n - 1, u) && Enters(a, u, v, d) && d.Subslice? && d.id == s;
    if k == n - 1 {
      PathUnique(a, top, v, k, t, u);
      c := d;
    } else {
      c := PathGoesOn(a, top, v, k, t, n - 1, u);
    }
  }

  /** The path ends at `s`: whatever `v` enters from `s` is the only mapping it can have. */
  lemma {:induction false} PathEnds(a: Arena, top: Id, v: Vpn, n: nat, s: Id, m: Child)
    requires AllRangesOk(a) && Path(a, top, v, n, s) && MappingFor(a, top, v, m)
    requires forall c: Child :: Enters(a, s, v, c) ==> c.Mapping?
    ensures Enters(a, s, v, m)
  {
    var k: nat, t :| Path(a, top, v, k, t) && Enters(a, t, v, m);
    if k < n {
      var c := PathGoesOn(a, top, v, k, t, n, s);
      EntersUnique(a, t, v, c);
      EntersUnique(a, t, v, m);
    } else if n < k {
      var c := PathGoesOn(a, top, v, n, s, k, t);
    } else {
      PathUnique(a, top, v, n, s, t);
    }
  }

  datatype Result<+T> = Ok(value: T) | Err(error: Error)
  datatype Error = InvalidState | InvalidArgument | ResourceOverlap | OutOfResources | BadAddress | Overflow | NoChild

  datatype MapBase = Fixed(start: Vpn) | Aligned(alignOrder: nat)

  const USIZE_MAX: nat := 0xFFFF_FFFF_FFFF_FFFF

  /** `start..start + count` is inside slice `s` and meets none of its children. */
  ghost predicate Vacant(a: Arena, s: Id, start: Vpn, count: nat) {
    && Attached(a, s) && a[s].start <= start && start + count <= a[s].End()
    && forall k :: k in ChildrenOf(a, s) ==> ChildrenOf(a, s)[k].End() <= start || start + count <= k
  }

  /** A range of no pages is vacant even where a child starts, so a child of no pages could take another one's key. */
  lemma {:induction false} OnlyEmptyRangesCollide(a: Arena, s: Id, k: Vpn, count: nat)
    requires Attached(a, s) && RangesOk(a, s) && k in ChildrenOf(a, s)
    ensures Vacant(a, s, k, count) <==> count == 0
  {
    assert ChildrenOf(a, s)[k].count > 0;
  }

  /** The answer of a search with the alignment `Pow2(order)` in slice `s`. */
  ghost predicate AlignedAnswer(a: Arena, s: Id, order: nat, count: nat, r: Result<Vpn>)
    requires Attached(a, s)
  {
    var spot := match r case Ok(v) => Found(v) case Err(e) => if e == Overflow then Underflow else NoSpot;
    && Answers(ChildrenOf(a, s), a[s].start, a[s].End(), Pow2(order), count, spot)
    && (r.Err? ==> r.error == Overflow || r.error == OutOfResources)
  }

  /** `r` is the answer to a request for `count` pages of slice `s`. */
  ghost predicate PlacedRight(a: Arena, s: Id, base: MapBase, count: nat, r: Result<Vpn>)
    requires s in a
  {
    match base
    case Fixed(start) =>
      r == (if start < a[s].start || start + count > a[s].End() then Err(InvalidArgument)
            else if !Attached(a, s) then Err(InvalidState)
            else if Vacant(a, s, start, count) then Ok(start)
            else Err(ResourceOverlap))
    case Aligned(order) =>
      if !Attached(a, s) then r == Err(InvalidState) else AlignedAnswer(a, s, order, count, r)
  }

  /** A place found is vacant. */
  lemma {:induction false} PlacedIsVacant(a: Arena, s: Id, base: MapBase, count: nat, r: Result<Vpn>)
    requires s in a && PlacedRight(a, s, base, count, r) && r.Ok? && (Attached(a, s) ==> RangesOk(a, s))
    ensures Vacant(a, s, r.value, count)
  {
    if base.Aligned? {
      RoomMeetsNoChild(ChildrenOf(a, s), a[s].start, a[s].End(), r.value, count + 1);
    }
  }

  /** A search gives up at a gap of one page before its first aligned page, although there is room behind it. */
  lemma {:induction false} UnderflowsThoughRoomy() returns (a: Arena)
    ensures Attached(a, 0) && RangesOk(a, 0) && AlignedAnswer(a, 0, 3, 1, Err(Overflow))
    ensures RoomAt(ChildrenOf(a, 0), a[0].start, a[0].End(), 8, 1, 16)
  {
    var cs: Children := map[2 := Mapping(0, 2, 4)];
    a := map[0 := Slice(1, 999, Some(Inner(None, cs)))];
    assert !Free(cs, 2) by { assert cs[2].Contains(2); }
    assert Pow2(3) == 8 && Underflows(cs, 1, 1000, 8, Gap(1, 1));
  }

  class SliceTree {
    var slices: Arena
    const root: Id
    ghost var depth: map<Id, nat>
    ghost var maxDepth: nat

    ghost predicate Valid()
      reads this
    {
      TreeOk(slices, root, depth, maxDepth)
    }

    /** A tree with nothing but an empty root slice. */
    constructor (root: Id, start: Vpn, count: nat)
      ensures Valid() && this.root == root
      ensures slices == map[root := Slice(start, count, Some(Inner(None, map[])))]
    {
      this.root := root;
      slices := map[root := Slice(start, count, Some(Inner(None, map[])))];
      depth, maxDepth := map[root := 0], 0;
    }

    /** Looks up the mapping of a page, going down through subslices. */
    method GetMapping(top: Id, v: Vpn) returns (r: Result<Child>)
      requires Valid() && top in slices
      ensures match r
              case Ok(m) => slices[top].start <= v < slices[top].End() && MappingFor(slices, top, v, m)
              case Err(e) =>
                if !(slices[top].start <= v < slices[top].End()) then e == BadAddress
                else if !Attached(slices, top) then e == InvalidState
                else e == BadAddress && forall m: Child :: !MappingFor(slices, top, v, m)
    {
      if !(slices[top].start <= v < slices[top].End()) {
        return Err(BadAddress);
      }
      if !Attached(slices, top) {
        return Err(InvalidState);
      }
      var s := top;
      ghost var n: nat := 0;
      assert DepthOk(slices, root, s, depth, maxDepth);
      while true
        invariant Attached(slices, s) && s in depth && Path(slices, top, v, n, s)
        decreases maxDepth - depth[s]
      {
        var child := GetChild(ChildrenOf(slices, s), v);
        forall c: Child
          ensures Enters(slices, s, v, c) <==> child == Some(c)
        {
          EntersUnique(slices, s, v, c);
        }
        if child.None? {
          NoMapping(slices, top, v, n, s);
          return Err(BadAddress);
        }
        if child.value.Mapping? {
          return Ok(child.value);
        }
        assert DownOk(slices, s, child.value.start, root, []);
        assert DepthOk(slices, root, s, depth, maxDepth) && DepthOk(slices, root, child.value.id, depth, maxDepth);
        assert Path(slices, top, v, n + 1, child.value.id);
        s, n := child.value.id, n + 1;
      }
    }

    /** Finds the place for a child that reserves `count` pages of slice `s`. */
    method FindPlace(s: Id, base: MapBase, count: nat) returns (r: Result<Vpn>)
      requires Valid() && s in slices && slices[s].End() <= USIZE_MAX
      ensures PlacedRight(slices, s, base, count, r)
    {
      match base {
        case Fixed(start) =>
          r := FindFixed(s, start, count);
        case Aligned(order) =>
          r := FindAligned(s, order, count);
      }
    }

    method FindFixed(s: Id, start: Vpn, count: nat) returns (r: Result<Vpn>)
      requires Valid() && s in slices && slices[s].End() <= USIZE_MAX
      ensures r == if start < slices[s].start || start + count > slices[s].End() then Err(InvalidArgument)
                   else if !Attached(slices, s) then Err(InvalidState)
                   else if Vacant(slices, s, start, count) then Ok(start)
                   else Err(ResourceOverlap)
    {
      if start + count > USIZE_MAX {
        return Err(InvalidArgument);
      }
      if start < slices[s].start || start + count > slices[s].End() {
        return Err(InvalidArgument);
      }
      if !Attached(slices, s) {
        return Err(InvalidState);
      }
      var cs := ChildrenOf(slices, s);
      assert RangesOk(slices, s);
      FitsIffDisjoint(cs, slices[s].start, slices[s].End(), start, count);
      var prev := PrevKey(cs.Keys, start);
      if prev.Some? && cs[prev.value].End() > start {
        return Err(ResourceOverlap);
      }
      var next := NextKey(cs.Keys, start);
      if next.Some? && start + count > cs[next.value].start {
        return Err(ResourceOverlap);
      }
      return Ok(start);
    }

    method FindAligned(s: Id, order: nat, count: nat) returns (r: Result<Vpn>)
      requires Valid() && s in slices
      ensures if Attached(slices, s) then AlignedAnswer(slices, s, order, count, r) else r == Err(InvalidState)
    {
      if !Attached(slices, s) {
        return Err(InvalidState);
      }
      var cs, lo, hi := ChildrenOf(slices, s), slices[s].start, slices[s].End();
      assert RangesOk(slices, s);
      var gaps := IterGaps(cs, lo, hi);
      var spot := FindSpot(gaps, Pow2(order), count, cs, lo, hi);
      match spot {
        case Found(start) => return Ok(start);
        case NoSpot => return Err(OutOfResources);
        case Underflow => return Err(Overflow);
      }
    }

    /** Creates subslice `id` of `s`.  One of no pages may take the place of the child that starts where it does. */
    method CreateSubslice(s: Id, id: Id, base: MapBase, count: nat) returns (r: Result<Vpn>)
      requires Valid() && s in slices && id !in slices && slices[s].End() <= USIZE_MAX
      modifies this
      ensures Valid() <==> r.Err? || count > 0
      ensures PlacedRight(old(slices), s, base, count, r)
      ensures r.Ok? ==> Vacant(old(slices), s, r.value, count) && slices == NewSlice(old(slices), s, Subslice(id, r.value, count))
      ensures r.Ok? ==> (Linked(slices, root) <==> NoSubsliceAt(old(slices), s, r.value))
      ensures r.Ok? && count > 0 ==> r.value !in ChildrenOf(old(slices), s)
      ensures r.Err? ==> slices == old(slices)
    {
      r := FindPlace(s, base, count);
      if r.Ok? {
        assert Attached(slices, s) ==> RangesOk(slices, s);
        PlacedIsVacant(slices, s, base, count, r);
        var c := Subslice(id, r.value, count);
        SubslicePlaced(slices, root, depth, maxDepth, s, c);
        slices := NewSlice(slices, s, c);
        maxDepth := Max(maxDepth, depth[s] + 1);
        depth := depth[id := depth[s] + 1];
      }
    }

    /** Inserts a mapping into a vacant range of `s`.  One of no pages may take the place of the child that starts where it
        does. */
    method InsertMapping(s: Id, c: Child)
      requires Valid() && Vacant(slices, s, c.start, c.count) && c.Mapping?
      modifies this`slices
      ensures slices == InsertChild(old(slices), s, c) && (Valid() <==> c.count > 0)
      ensures Linked(slices, root) <==> NoSubsliceAt(old(slices), s, c.start)
      ensures c.count > 0 ==> c.start !in ChildrenOf(old(slices), s)
    {
      assert RangesOk(slices, s);
      if c.start in ChildrenOf(slices, s) {
        OnlyEmptyRangesCollide(slices, s, c.start, c.count);
      }
      if c.count > 0 {
        InsertMappingOk(slices, root, depth, maxDepth, s, c);
      }
      ghost var a := slices;
      slices := InsertChild(slices, s, c);
      if NoSubsliceAt(a, s, c.start) {
        LinkedMapping(a, root, s, c);
      } else {
        assert DownOk(a, s, c.start, root, []);
        Orphaned(a, slices, root, s, c.start);
      }
      if c.count == 0 {
        assert c.start in ChildrenOf(slices, s) && !RangesOk(slices, s);
      }
    }

    /** Removes the child at `start` from the children of `s`.  A subslice would stay attached, with no way to reach it. */
    method RemoveChild(s: Id, start: Vpn)
      requires Valid() && Attached(slices, s) && start in ChildrenOf(slices, s)
      modifies this`slices
      ensures slices == PopChild(old(slices), s, start) && (Valid() <==> ChildrenOf(old(slices), s)[start].Mapping?)
      ensures Linked(slices, root) <==> ChildrenOf(old(slices), s)[start].Mapping?
    {
      ghost var a := slices;
      slices := PopChild(slices, s, start);
      if ChildrenOf(a, s)[start].Mapping? {
        RemoveMappingOk(a, root, depth, maxDepth, s, start);
      } else {
        assert DownOk(a, s, start, root, []) && DepthOk(a, root, ChildrenOf(a, s)[start].id, depth, maxDepth);
        Orphaned(a, slices, root, s, start);
      }
    }

    /** Takes subslice `s` out of its parent and detaches it with everything below it. */
    method UnmapSlice(s: Id) returns (r: Result<()>)
      requires Valid() && s in slices
      modifies this
      ensures Valid() && slices.Keys == old(slices).Keys && SameRanges(old(slices), slices)
      ensures r == if !Attached(old(slices), s) then Err(InvalidState)
                   else if ParentOf(old(slices), s) == None then Err(InvalidArgument) else Ok(())
      ensures r.Err? ==> slices == old(slices)
      ensures r.Ok? ==>
                && Attached(old(slices), ParentOf(old(slices), s).value)
                && (forall t :: t in slices ==> (Attached(slices, t) <==> Attached(old(slices), t) && !Below(old(slices), t, s)))
                && (forall t :: t in slices && !Below(old(slices), t, s) ==>
                      slices[t] == PopChild(old(slices), ParentOf(old(slices), s).value, old(slices)[s].start)[t])
      ensures r.Ok? ==> !Attached(slices, s) && Attached(slices, root)
    {
      if !Attached(slices, s) {
        return Err(InvalidState);
      }
      var parent := ParentOf(slices, s);
      if parent.None? {
        return Err(InvalidArgument);
      }
      var p := parent.value;
      RemovedDetachable(slices, root, depth, maxDepth, p, s);
      slices := PopChild(slices, p, slices[s].start);
      ghost var removed := slices;
      DetachChildren(s);
      forall t
        ensures Below(removed, t, s) <==> Below(old(slices), t, s)
      {
        PopKeepsBelow(old(slices), p, old(slices)[s].start, t, s);
      }
      assert Ancestor(removed, s, 0) == Some(s);
      DetachedTreeOk(old(slices), slices, root, depth, maxDepth, p, s);
      return Ok(());
    }

    /** Detaches every slice when the address space goes away. */
    method Drop()
      requires Valid()
      modifies this`slices
      ensures slices.Keys == old(slices).Keys && forall s :: s in slices ==> !Attached(slices, s)
    {
      RootDetachable(slices, root, depth, maxDepth);
      DetachChildren(root);
      forall s | s in slices
        ensures !Attached(slices, s)
      {
        if Attached(old(slices), s) {
          AttachedBelowRoot(old(slices), root, depth, maxDepth, s);
        }
      }
    }

    /** Detaches `top` and everything below it, with parent pointers and no stack. */
    method DetachChildren(top: Id)
      requires Detachable(slices, top)
      modifies this`slices
      ensures slices.Keys == old(slices).Keys
      ensures forall s :: s in slices ==> (Attached(slices, s) <==> Attached(old(slices), s) && !Below(old(slices), s, top))
      ensures forall s :: s in slices && !Below(old(slices), s, top) ==> slices[s] == old(slices)[s]
      ensures SameRanges(old(slices), slices)
    {
      var cur := top;
      ghost var stack := [top];
      while true
        invariant Detaching(old(slices), slices, top, stack) && CurIs(stack, cur)
        decreases ChildPairs(slices), AttachedSet(slices)
      {
        var first := NextKey(ChildrenOf(slices, cur).Keys, 0);
        if first.Some? {
          var k := first.value;
          var child := ChildrenOf(slices, cur)[k];
          PopShrinks(slices, cur, k);
          if child.Subslice? {
            PopSubsliceStep(old(slices), slices, top, stack, cur, k, child.id);
            slices := PopChild(slices, cur, k);
            cur := child.id;
            stack := stack + [cur];
          } else {
            PopMappingStep(old(slices), slices, top, stack, cur, k);
            slices := PopChild(slices, cur, k);
          }
        } else {
          assert ChildrenOf(slices, cur) == map[];
          DetachStep(old(slices), slices, top, stack, cur);
          DetachShrinks(slices, cur);
          var parent := ParentOf(slices, cur);
          slices := Detach(slices, cur);
          stack := stack[..|stack| - 1];
          if cur != top {
            cur := parent.value;
          } else {
            break;
          }
        }
      }
      DetachDone(old(slices), slices, top);
    }
  }

  lemma {:induction false} NoMapping(a: Arena, top: Id, v: Vpn, n: nat, s: Id)
    requires AllRangesOk(a) && Path(a, top, v, n, s)
    requires forall c: Child :: !Enters(a, s, v, c)
    ensures forall m: Child :: !MappingFor(a, top, v, m)
  {
    forall m: Child | MappingFor(a, top, v, m)
      ensures false
    {
      PathEnds(a, top, v, n, s, m);
    }
  }

  lemma {:induction false} PopShrinks(a: Arena, s: Id, k: Vpn)
    requires Attached(a, s) && k in ChildrenOf(a, s)
    ensures ChildPairs(PopChild(a, s, k)) < ChildPairs(a)
  {
    assert (s, k) in ChildPairs(a) && (s, k) !in ChildPairs(PopChild(a, s, k));
  }

  lemma {:induction false} DetachShrinks(a: Arena, s: Id)
    requires Attached(a, s) && ChildrenOf(a, s) == map[]
    ensures ChildPairs(Detach(a, s)) == ChildPairs(a) && AttachedSet(Detach(a, s)) < AttachedSet(a)
  {
    assert s in AttachedSet(a) && s !in AttachedSet(Detach(a, s));
  }

  lemma {:induction false} DetachDone(a0: Arena, a: Arena, top: Id)
    requires Detaching(a0, a, top, []) && !Attached(a, top)
    ensures forall s :: s in a ==> (Attached(a, s) <==> Attached(a0, s) && !Below(a0, s, top))
    ensures forall s :: s in a && !Below(a0, s, top) ==> a[s] == a0[s]
    ensures SameRanges(a0, a)
  {
    forall s | s in a
      ensures Attached(a, s) <==> Attached(a0, s) && !Below(a0, s, top)
      ensures !Below(a0, s, top) ==> a[s] == a0[s]
      ensures a[s].start == a0[s].start && a[s].count == a0[s].count
    {
      assert Progress(a0, a, s, top);
      if Below(a0, s, top) {
        var n: nat :| Ancestor(a0, s, n) == Some(top);
        NoneLeftBelow(a0, a, top, s, n);
      }
    }
  }
}
