/** Products and powers of two. */
module Arith {
  lemma MulMono(a: nat, b: nat, n: nat)
    requires a <= b
    ensures a * n <= b * n
  {
  }

  lemma MulAssoc(a: nat, b: nat, n: nat)
    ensures (a * b) * n == b * (a * n) == a * (b * n)
  {
  }

  lemma MulAdd(a: nat, b: nat, n: nat)
    ensures (a + b) * n == a * n + b * n
  {
  }

  /** Multiples of `n` are at least `n` apart. */
  lemma MulGap(a: nat, b: nat, n: nat)
    requires a < b
    ensures a * n + n <= b * n
  {
    MulMono(a + 1, b, n);
    MulAdd(a, 1, n);
  }

  lemma DivModUnique(v: nat, d: nat, q: nat)
    requires d > 0 && q * d <= v < q * d + d
    ensures v / d == q && v % d == v - q * d
  {
    var r := v / d;
    if r < q {
      MulGap(r, q, d);
    } else if q < r {
      MulGap(q, r, d);
    }
  }

  function Pow2(k: nat): (p: nat)
    ensures p >= 1
  {
    if k == 0 then 1 else 2 * Pow2(k - 1)
  }

  lemma {:induction false} Pow2Mono(j: nat, k: nat)
    requires j <= k
    ensures Pow2(j) <= Pow2(k)
  {
    if j < k {
      Pow2Mono(j, k - 1);
    }
  }

  function Min(a: nat, b: nat): nat {
    if a <= b then a else b
  }

  function AlignDown(v: nat, align: nat): nat
    requires align > 0
  {
    v / align * align
  }

  function AlignUp(v: nat, align: nat): nat
    requires align > 0
  {
    AlignDown(v + align - 1, align)
  }

  function DivCeil(v: nat, d: nat): nat
    requires d > 0
  {
    (v + d - 1) / d
  }

  lemma AlignUpAligned(v: nat, align: nat)
    requires align > 0
    ensures AlignUp(v, align) % align == 0 && AlignUp(v, align) >= v
  {
    var q := (v + align - 1) / align;
    assert q * align % align == 0 by { MulMod(q, align); }
  }

  lemma {:induction false} MulMod(q: nat, d: nat)
    requires d > 0
    ensures q * d % d == 0
  {
    DivModUnique(q * d, d, q);
  }

  /** Rounding up gives the least multiple. */
  lemma {:induction false} AlignUpLeast(v: nat, align: nat, p: nat)
    requires align > 0 && v <= p && p % align == 0
    ensures AlignUp(v, align) <= p
  {
    var q, r := (v + align - 1) / align, p / align;
    assert q * align <= v + align - 1;
    if r < q {
      MulGap(r, q, align);
    } else {
      MulMono(q, r, align);
    }
  }

  function Times(a: nat, b: nat): nat {
    a * b
  }

  ghost predicate Multiple(n: nat, d: nat) {
    exists q: nat :: n == Times(q, d)
  }

  lemma {:induction false} MultipleMod(n: nat, d: nat)
    requires d > 0
    ensures Multiple(n, d) <==> n % d == 0
  {
    if n % d == 0 {
      assert n == Times(n / d, d);
    } else if q: nat :| n == Times(q, d) {
      MulMod(q, d);
    }
  }

  lemma {:induction false} MultipleSum(a: nat, b: nat, d: nat)
    requires Multiple(a, d) && Multiple(b, d)
    ensures Multiple(a + b, d) && (a >= b ==> Multiple(a - b, d))
  {
    var p: nat :| a == Times(p, d);
    var q: nat :| b == Times(q, d);
    MulAdd(p, q, d);
    assert a + b == Times(p + q, d);
    if p >= q {
      MulAdd(p - q, q, d);
      assert a - b == Times(p - q, d);
    } else {
      MulMono(p, q, d);
      assert a <= b && Times(0, d) == 0;
    }
  }

  lemma {:induction false} MultipleTimes(i: nat, n: nat, d: nat)
    requires Multiple(n, d)
    ensures Multiple(i * n, d)
  {
    var q: nat :| n == Times(q, d);
    MulAssoc(i, q, d);
    assert i * n == Times(i * q, d);
  }

  lemma {:induction false} MultipleTrans(n: nat, m: nat, d: nat)
    requires Multiple(n, m) && Multiple(m, d)
    ensures Multiple(n, d)
  {
    var q: nat :| n == Times(q, m);
    MultipleTimes(q, m, d);
  }

  /** Rounding down drops an offset within the multiple. */
  lemma {:induction false} AlignDownOffset(q: nat, d: nat, off: nat)
    requires off < d
    ensures AlignDown(q * d + off, d) == q * d
  {
    DivModUnique(q * d + off, d, q);
  }

  lemma {:induction false} DivOfProduct(i: nat, d: nat)
    requires d > 0
    ensures i * d / d == i
  {
    DivModUnique(i * d, d, i);
  }
}
