/** The slabs of one size class: counts, bitmaps and the list of partial slabs. */
module SlabClass {
  import opened SeqLists
  import opened MemTypes
  import opened Bitmap
  import opened SizeClasses

  /** The part of a slab before its objects: the count of allocated objects and the bitmap. */
  datatype Slab = Slab(used: nat, bits: seq<bool>)

  /** The slabs by first frame, and the partial ones in list order. */
  datatype ClassState = ClassState(slabs: map<nat, Slab>, partial: seq<nat>)

  // ----- Bitmaps -----

  ghost function Count(bits: seq<bool>): nat {
    if bits == [] then 0 else (if bits[0] then 1 else 0) + Count(bits[1..])
  }

  lemma {:induction false} CountUpdate(bits: seq<bool>, i: nat, on: bool)
    requires i < |bits|
    ensures Count(bits[i := on]) + (if bits[i] then 1 else 0) == Count(bits) + (if on then 1 else 0)
  {
    if i == 0 {
      assert bits[i := on][1..] == bits[1..];
    } else {
      assert bits[i := on][1..] == bits[1..][i - 1 := on];
      CountUpdate(bits[1..], i - 1, on);
    }
  }

  lemma {:induction false} CountBounds(bits: seq<bool>)
    ensures Count(bits) <= |bits|
    ensures Count(bits) == |bits| <==> forall i :: 0 <= i < |bits| ==> bits[i]
    ensures Count(bits) == 0 <==> forall i :: 0 <= i < |bits| ==> !bits[i]
  {
    if bits != [] {
      var rest := bits[1..];
      CountBounds(rest);
      assert forall i :: 0 < i < |bits| ==> bits[i] == rest[i - 1];
      assert forall i :: 0 <= i < |rest| ==> rest[i] == bits[i + 1];
    }
  }

  function FirstZero(bits: seq<bool>, limit: nat, from: nat): (r: Option<nat>)
    requires from <= limit <= |bits| && forall j :: 0 <= j < from ==> bits[j]
    ensures IsFirstZero(bits, limit, r)
    decreases limit - from
  {
    if from == limit then None else if !bits[from] then Some(from) else FirstZero(bits, limit, from + 1)
  }

  // ----- The invariant of a class -----

  ghost predicate SlabOk(m: Meta, s: Slab) {
    |s.bits| == m.objects && s.used == Count(s.bits)
  }

  /** Every slab holds an object, and exactly those with room for another one are on the list of partial slabs. */
  ghost predicate ClassOk(m: Meta, cs: ClassState) {
    && MetaOk(m) && m.objects > 0
    && (forall p {:trigger cs.slabs[p]} :: p in cs.slabs ==> SlabOk(m, cs.slabs[p]) && cs.slabs[p].used > 0)
    && NoDup(cs.partial)
    && (forall p :: p in cs.partial <==> p in cs.slabs && cs.slabs[p].used < m.objects)
  }

  /** Object `i` of slab `p` is allocated. */
  ghost predicate LiveIn(cs: ClassState, p: nat, i: nat) {
    p in cs.slabs && i < |cs.slabs[p].bits| && cs.slabs[p].bits[i]
  }

  // ----- Allocating -----

  function PutFront(list: seq<nat>, p: nat, put: bool): seq<nat> {
    if put then [p] + list else list
  }

  /** The class after object `i` of slab `p` was allocated; `slab` and `rest` are the slab and the list without it. */
  function Allocated(m: Meta, cs: ClassState, p: nat, slab: Slab, rest: seq<nat>, i: nat): ClassState
    requires i < |slab.bits|
  {
    ClassState(cs.slabs[p := Slab(slab.used + 1, slab.bits[i := true])],
               PutFront(rest, p, slab.used + 1 < m.objects))
  }

  /** `slab` is the first partial slab, or a new one if there is none; `rest` are the partial slabs behind it. */
  ghost predicate Chosen(m: Meta, cs: ClassState, p: nat, slab: Slab, rest: seq<nat>) {
    && SlabOk(m, slab) && slab.used < m.objects
    && if cs.partial == [] then p !in cs.slabs && rest == [] && slab.used == 0
       else cs.partial == [p] + rest && p in cs.slabs && slab == cs.slabs[p]
  }

  lemma {:induction false} ChosenFirst(m: Meta, cs: ClassState)
    requires ClassOk(m, cs) && cs.partial != []
    ensures cs.partial[0] in cs.slabs && Chosen(m, cs, cs.partial[0], cs.slabs[cs.partial[0]], cs.partial[1..])
  {
    assert cs.partial[0] in cs.partial;
    assert cs.partial == [cs.partial[0]] + cs.partial[1..];
  }

  /** A chosen slab has a free object. */
  lemma {:induction false} ChosenHasRoom(m: Meta, cs: ClassState, p: nat, slab: Slab, rest: seq<nat>)
    requires Chosen(m, cs, p, slab, rest)
    ensures FirstZero(slab.bits, m.objects, 0).Some?
  {
    CountBounds(slab.bits);
  }

  lemma {:induction false} AllocatedOk(m: Meta, cs: ClassState, p: nat, slab: Slab, rest: seq<nat>, i: nat)
    requires ClassOk(m, cs) && Chosen(m, cs, p, slab, rest) && i < m.objects && !slab.bits[i]
    ensures ClassOk(m, Allocated(m, cs, p, slab, rest, i))
    ensures !LiveIn(cs, p, i)
    ensures forall q, j :: LiveIn(Allocated(m, cs, p, slab, rest, i), q, j) <==> LiveIn(cs, q, j) || (q == p && j == i)
  {
    var cs' := Allocated(m, cs, p, slab, rest, i);
    CountUpdate(slab.bits, i, true);
    CountBounds(slab.bits);
    PartialAfter(m, cs, p, slab, rest);
    PutFrontIs(rest, p, slab.used + 1 < m.objects);
  }

  lemma {:induction false} PutFrontIs(list: seq<nat>, p: nat, put: bool)
    requires NoDup(list) && p !in list
    ensures NoDup(PutFront(list, p, put))
    ensures forall q :: q in PutFront(list, p, put) <==> q in list || (put && q == p)
  {
    NoDupFront(list, p);
  }

  lemma {:induction false} PartialAfter(m: Meta, cs: ClassState, p: nat, slab: Slab, rest: seq<nat>)
    requires ClassOk(m, cs) && Chosen(m, cs, p, slab, rest)
    ensures NoDup(rest) && p !in rest
    ensures forall q :: q in rest <==> q != p && q in cs.slabs && cs.slabs[q].used < m.objects
  {
    if cs.partial != [] {
      assert cs.partial[0] == p && cs.partial[1..] == rest;
      NoDupRest(cs.partial);
    }
  }

  // ----- Freeing -----

  /** The class after object `i` of slab `p` was freed. */
  function Freed(m: Meta, cs: ClassState, p: nat, i: nat): ClassState
    requires p in cs.slabs && i < |cs.slabs[p].bits| && cs.slabs[p].used > 0
  {
    var slab := cs.slabs[p];
    if slab.used == 1 then
      ClassState(cs.slabs - {p}, if m.objects > 1 then Without(cs.partial, p) else cs.partial)
    else
      ClassState(cs.slabs[p := Slab(slab.used - 1, slab.bits[i := false])],
                 PutFront(cs.partial, p, slab.used == m.objects))
  }

  lemma {:induction false} FreedOk(m: Meta, cs: ClassState, p: nat, i: nat)
    requires ClassOk(m, cs) && LiveIn(cs, p, i)
    ensures cs.slabs[p].used > 0 && ClassOk(m, Freed(m, cs, p, i))
    ensures forall q, j :: LiveIn(Freed(m, cs, p, i), q, j) <==> LiveIn(cs, q, j) && !(q == p && j == i)
    ensures cs.slabs[p].used == 1 && m.objects > 1 ==> p in cs.partial
  {
    if cs.slabs[p].used == 1 {
      FreedLast(m, cs, p, i);
    } else {
      var slab := cs.slabs[p];
      CountUpdate(slab.bits, i, false);
      CountBounds(slab.bits);
      if slab.used == m.objects {
        PutFrontIs(cs.partial, p, true);
      }
    }
  }

  /** Freeing the last object of a slab. */
  lemma {:induction false} FreedLast(m: Meta, cs: ClassState, p: nat, i: nat)
    requires ClassOk(m, cs) && LiveIn(cs, p, i) && cs.slabs[p].used == 1
    ensures ClassOk(m, Freed(m, cs, p, i))
    ensures forall q, j :: LiveIn(Freed(m, cs, p, i), q, j) <==> LiveIn(cs, q, j) && !(q == p && j == i)
    ensures m.objects > 1 ==> p in cs.partial
  {
    var bits := cs.slabs[p].bits;
    CountUpdate(bits, i, false);
    CountBounds(bits[i := false]);
    var cleared := bits[i := false];
    assert forall j :: 0 <= j < |bits| && j != i ==> cleared[j] == bits[j];
    WithoutMembers(cs.partial, p);
  }
}
