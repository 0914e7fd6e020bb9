/** Linked lists as sequences of numbers. */
module SeqLists {
  ghost predicate NoDup(l: seq<nat>) {
    forall i, j :: 0 <= i < j < |l| ==> l[i] != l[j]
  }

  function Without(l: seq<nat>, p: nat): seq<nat> {
    if l == [] then [] else if l[0] == p then l[1..] else [l[0]] + Without(l[1..], p)
  }

  lemma {:induction false} WithoutMembers(l: seq<nat>, p: nat)
    requires NoDup(l)
    ensures NoDup(Without(l, p))
    ensures forall q :: q in Without(l, p) <==> q in l && q != p
    ensures |Without(l, p)| == if p in l then |l| - 1 else |l|
  {
    if l != [] {
      assert l == [l[0]] + l[1..];
      if l[0] == p {
        assert forall q :: q in l[1..] ==> q != p;
      } else {
        WithoutMembers(l[1..], p);
        assert l[0] !in l[1..];
        assert l[0] !in Without(l[1..], p);
      }
    }
  }

  lemma {:induction false} NoDupCount(l: seq<nat>, p: nat)
    requires NoDup(l)
    ensures multiset(l)[p] == if p in l then 1 else 0
  {
    if l != [] {
      assert l == [l[0]] + l[1..];
      NoDupCount(l[1..], p);
    }
  }

  lemma {:induction false} NoDupFront(l: seq<nat>, p: nat)
    requires NoDup(l) && p !in l
    ensures NoDup([p] + l) && forall q :: q in [p] + l <==> q in l || q == p
  {
  }

  lemma {:induction false} NoDupBack(l: seq<nat>, p: nat)
    requires NoDup(l) && p !in l
    ensures NoDup(l + [p]) && forall q :: q in l + [p] <==> q in l || q == p
  {
  }

  lemma {:induction false} NoDupRest(l: seq<nat>)
    requires NoDup(l) && l != []
    ensures NoDup(l[1..]) && forall q :: q in l[1..] <==> q in l && q != l[0]
  {
    assert forall q :: q in l <==> q == l[0] || q in l[1..];
    assert forall i :: 0 <= i < |l[1..]| ==> l[1..][i] == l[i + 1];
  }
}
