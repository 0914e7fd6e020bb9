/** Carving reserved ranges out of the usable memory. */
module UsableRanges {
  datatype Range = Range(start: nat, end: nat) {
    predicate Contains(f: nat) {
      start <= f < end
    }
  }

  ghost predicate InRanges(rs: seq<Range>, f: nat) {
    exists i :: 0 <= i < |rs| && rs[i].Contains(f)
  }

  /** Ascending and disjoint. */
  ghost predicate Sorted(rs: seq<Range>) {
    && (forall i :: 0 <= i < |rs| ==> rs[i].start <= rs[i].end)
    && (forall i, j :: 0 <= i < j < |rs| ==> rs[i].end <= rs[j].start)
  }

  lemma {:induction false} InAppend(rs: seq<Range>, r: Range, f: nat)
    ensures InRanges(rs + [r], f) <==> InRanges(rs, f) || r.Contains(f)
  {
    if InRanges(rs, f) {
      var i :| 0 <= i < |rs| && rs[i].Contains(f);
      assert (rs + [r])[i].Contains(f);
    }
    assert (rs + [r])[|rs|] == r;
  }

  // ----- Which reserved ranges are honoured -----

  /** Going over `u` is the end of reserved range `r`. */
  predicate Consumes(u: Range, r: Range) {
    r.start < u.end && u.start <= r.end <= u.end
  }

  /** No usable range consumes `r`, and there are usable ranges behind it: it is in the way of all later reserved ranges. */
  ghost predicate Stalls(usable: seq<Range>, r: Range) {
    && (forall n :: 0 <= n < |usable| ==> !Consumes(usable[n], r))
    && (exists n :: 0 <= n < |usable| && r.end < usable[n].start)
  }

  /** No reserved range has frame `f`, except ones that come after one that stalls. */
  ghost predicate Keep(usable: seq<Range>, reserved: seq<Range>, f: nat) {
    forall j {:trigger reserved[j].Contains(f)} ::
      0 <= j < |reserved| && reserved[j].Contains(f) ==> exists i :: 0 <= i < j && Stalls(usable, reserved[i])
  }

  /** Every usable frame is emitted that should be kept, and no other. */
  ghost predicate Carved(usable: seq<Range>, reserved: seq<Range>, out: seq<Range>, f: nat) {
    InRanges(out, f) <==> InRanges(usable, f) && Keep(usable, reserved, f)
  }

  // ----- State of the iteration -----

  /** All reserved ranges before `k` are consumed and end at or before `at`. */
  ghost predicate Consumed(usable: seq<Range>, reserved: seq<Range>, k: nat, at: nat)
    requires k <= |reserved|
  {
    forall j :: 0 <= j < k ==> reserved[j].end <= at && !Stalls(usable, reserved[j])
  }

  /** No usable range before `n` consumes reserved range `k`. */
  ghost predicate Waiting(usable: seq<Range>, reserved: seq<Range>, n: nat, k: nat)
    requires n <= |usable| && k <= |reserved|
  {
    k < |reserved| ==> forall m :: 0 <= m < n ==> !Consumes(usable[m], reserved[k])
  }

  /** The emitted ranges: ascending, disjoint, non-empty and before `at`. */
  ghost predicate OutOk(out: seq<Range>, at: nat) {
    Sorted(out) && forall i :: 0 <= i < |out| ==> out[i].start < out[i].end <= at
  }

  /** What is emitted of the usable range `u` so far is what should be kept before `at`. */
  ghost predicate EmittedTo(usable: seq<Range>, reserved: seq<Range>, before: seq<Range>, out: seq<Range>, u: Range, at: nat) {
    forall f: nat {:trigger InRanges(out, f)} ::
      InRanges(out, f) <==> InRanges(before, f) || (u.Contains(f) && f < at && Keep(usable, reserved, f))
  }

  // ----- Steps -----

  /** Frames before the next reserved range are in no reserved range. */
  lemma {:induction false} KeepGap(usable: seq<Range>, reserved: seq<Range>, k: nat, at: nat, f: nat)
    requires Sorted(reserved) && k <= |reserved| && Consumed(usable, reserved, k, at)
    requires at <= f && (k < |reserved| ==> f < reserved[k].start)
    ensures Keep(usable, reserved, f)
  {
  }

  /** Frames of the next reserved range are left out. */
  lemma {:induction false} KeepNotReserved(usable: seq<Range>, reserved: seq<Range>, k: nat, at: nat, f: nat)
    requires k < |reserved| && Consumed(usable, reserved, k, at) && reserved[k].Contains(f)
    ensures !Keep(usable, reserved, f)
  {
  }

  /** Behind a reserved range that stalls, everything is kept. */
  lemma {:induction false} KeepBehindStall(usable: seq<Range>, reserved: seq<Range>, k: nat, at: nat, f: nat)
    requires k < |reserved| && Consumed(usable, reserved, k, at) && at <= f && reserved[k].end <= f
    requires Stalls(usable, reserved[k])
    ensures Keep(usable, reserved, f)
  {
  }

  lemma {:induction false} IsStalled(usable: seq<Range>, reserved: seq<Range>, n: nat, k: nat)
    requires Sorted(usable) && n < |usable| && k < |reserved| && Waiting(usable, reserved, n, k)
    requires reserved[k].end < usable[n].start
    ensures Stalls(usable, reserved[k])
  {
    forall m | 0 <= m < |usable|
      ensures !Consumes(usable[m], reserved[k])
    {
      if m > n {
        assert usable[n].end <= usable[m].start;
      }
    }
  }

  /** Reporting the gap from `at` to the next reserved range and going past that range. */
  lemma {:induction false} PassReserved(usable: seq<Range>, reserved: seq<Range>, before: seq<Range>, out: seq<Range>,
                                        u: Range, k: nat, at: nat)
    requires Sorted(reserved) && k < |reserved| && Consumed(usable, reserved, k, at) && u.start <= at <= u.end
    requires reserved[k].start < u.end && reserved[k].end >= at
    requires EmittedTo(usable, reserved, before, out, u, at)
    ensures var out' := if reserved[k].start > at then out + [Range(at, reserved[k].start)] else out;
            EmittedTo(usable, reserved, before, out', u, reserved[k].end)
  {
    var r := reserved[k];
    var out' := if r.start > at then out + [Range(at, r.start)] else out;
    forall f: nat
      ensures InRanges(out', f) <==> InRanges(before, f) || (u.Contains(f) && f < r.end && Keep(usable, reserved, f))
    {
      InAppend(out, Range(at, r.start), f);
      if at <= f < r.start {
        KeepGap(usable, reserved, k, at, f);
      } else if at <= f && r.Contains(f) {
        KeepNotReserved(usable, reserved, k, at, f);
      }
    }
  }

  /** Reporting the rest of a usable range. */
  lemma {:induction false} PassRest(usable: seq<Range>, reserved: seq<Range>, before: seq<Range>, out: seq<Range>,
                                    n: nat, k: nat, at: nat)
    requires Sorted(usable) && Sorted(reserved) && n < |usable| && k <= |reserved| && Consumed(usable, reserved, k, at)
    requires usable[n].start <= at && Waiting(usable, reserved, n, k)
    requires k < |reserved| ==> reserved[k].start >= usable[n].end || reserved[k].end < at == usable[n].start
    requires EmittedTo(usable, reserved, before, out, usable[n], at)
    ensures var out' := if at < usable[n].end then out + [Range(at, usable[n].end)] else out;
            EmittedTo(usable, reserved, before, out', usable[n], usable[n].end)
  {
    var u := usable[n];
    var out' := if at < u.end then out + [Range(at, u.end)] else out;
    forall f: nat
      ensures InRanges(out', f) <==> InRanges(before, f) || (u.Contains(f) && f < u.end && Keep(usable, reserved, f))
    {
      InAppend(out, Range(at, u.end), f);
      if at <= f < u.end {
        if k < |reserved| && reserved[k].end < u.start == at {
          IsStalled(usable, reserved, n, k);
          KeepBehindStall(usable, reserved, k, at, f);
        } else {
          KeepGap(usable, reserved, k, at, f);
        }
      }
    }
  }

  lemma {:induction false} OutAppend(out: seq<Range>, at: nat, r: Range)
    requires OutOk(out, at) && at <= r.start < r.end
    ensures OutOk(out + [r], r.end)
  {
  }

  /** A reserved range that a usable range consumes does not stall, and the usable ranges so far do not consume the next. */
  lemma {:induction false} Advance(usable: seq<Range>, reserved: seq<Range>, n: nat, k: nat, at: nat)
    requires Sorted(usable) && Sorted(reserved) && n < |usable| && k < |reserved| && Consumed(usable, reserved, k, at)
    requires Consumes(usable[n], reserved[k]) && at <= reserved[k].end
    ensures Consumed(usable, reserved, k + 1, reserved[k].end) && Waiting(usable, reserved, n, k + 1)
  {
  }

  /** Usable range `n` is dealt with up to `at`, and the reserved ranges before `k` are consumed. */
  ghost predicate DoneTo(usable: seq<Range>, reserved: seq<Range>, n: nat, before: seq<Range>, out: seq<Range>, k: nat, at: nat) {
    && n < |usable| && k <= |reserved| && OutOk(out, at) && Consumed(usable, reserved, k, at)
    && Waiting(usable, reserved, n, k) && EmittedTo(usable, reserved, before, out, usable[n], at)
  }

  /** Usable range `n` is dealt with. */
  ghost predicate DoneWith(usable: seq<Range>, reserved: seq<Range>, n: nat, before: seq<Range>, out: seq<Range>, k: nat) {
    && n < |usable| && k <= |reserved| && OutOk(out, usable[n].end) && Consumed(usable, reserved, k, usable[n].end)
    && Waiting(usable, reserved, n + 1, k) && EmittedTo(usable, reserved, before, out, usable[n], usable[n].end)
  }

  function Report(out: seq<Range>, start: nat, end: nat): seq<Range> {
    if end > start then out + [Range(start, end)] else out
  }

  lemma {:induction false} StepOver(usable: seq<Range>, reserved: seq<Range>, n: nat, before: seq<Range>, out: seq<Range>,
                                    k: nat, at: nat)
    requires Sorted(usable) && Sorted(reserved) && DoneTo(usable, reserved, n, before, out, k, at) && k < |reserved|
    requires usable[n].start <= at <= usable[n].end && reserved[k].start < usable[n].end && reserved[k].end >= at
    ensures var r, u, out' := reserved[k], usable[n], Report(out, at, reserved[k].start);
            if r.end > u.end then DoneWith(usable, reserved, n, before, out', k)
            else if r.end == u.end then DoneWith(usable, reserved, n, before, out', k + 1)
            else DoneTo(usable, reserved, n, before, out', k + 1, r.end)
  {
    var r, u, out' := reserved[k], usable[n], Report(out, at, reserved[k].start);
    PassReserved(usable, reserved, before, out, u, k, at);
    if r.start > at {
      OutAppend(out, at, Range(at, r.start));
    }
    if r.end <= u.end {
      Advance(usable, reserved, n, k, at);
    }
  }

  lemma {:induction false} StepToEnd(usable: seq<Range>, reserved: seq<Range>, n: nat, before: seq<Range>, out: seq<Range>,
                                     k: nat, at: nat)
    requires Sorted(usable) && Sorted(reserved) && DoneTo(usable, reserved, n, before, out, k, at)
    requires usable[n].start <= at <= usable[n].end
    requires k < |reserved| ==> reserved[k].start >= usable[n].end || reserved[k].end < at == usable[n].start
    ensures DoneWith(usable, reserved, n, before, Report(out, at, usable[n].end), k)
  {
    PassRest(usable, reserved, before, out, n, k, at);
    if at < usable[n].end {
      OutAppend(out, at, Range(at, usable[n].end));
    }
  }

  /** Goes over usable range `n`: reports what is left of it and moves the cursor over the reserved ranges. */
  method CarveOne(usable: seq<Range>, reserved: seq<Range>, n: nat, before: seq<Range>, k0: nat, ghost at0: nat)
    returns (out: seq<Range>, k: nat)
    requires Sorted(usable) && Sorted(reserved) && n < |usable| && k0 <= |reserved|
    requires OutOk(before, at0) && at0 <= usable[n].start && Consumed(usable, reserved, k0, at0)
    requires Waiting(usable, reserved, n, k0)
    ensures DoneWith(usable, reserved, n, before, out, k)
  {
    var u := usable[n];
    var start := u.start;
    out, k := before, k0;
    assert DoneTo(usable, reserved, n, before, out, k, start);
    while k < |reserved|
      invariant k0 <= k <= |reserved| && u.start <= start <= u.end && DoneTo(usable, reserved, n, before, out, k, start)
      invariant start == if k == k0 then u.start else reserved[k - 1].end
      decreases |reserved| - k
    {
      var r := reserved[k];
      assert r.start <= r.end;
      if r.start >= u.end || r.end < start {
        break;
      }
      StepOver(usable, reserved, n, before, out, k, start);
      if r.start > start {
        out := out + [Range(start, r.start)];
      }
      start := r.end;
      if start <= u.end {
        k := k + 1;
      }
      if start >= u.end {
        return;
      }
    }
    StepToEnd(usable, reserved, n, before, out, k, start);
    if start < u.end {
      out := out + [Range(start, u.end)];
    }
  }

  /** Reports every usable frame that is to be kept, in ascending disjoint ranges. */
  method Carve(usable: seq<Range>, reserved: seq<Range>) returns (out: seq<Range>)
    requires Sorted(usable) && Sorted(reserved)
    ensures Sorted(out) && forall i :: 0 <= i < |out| ==> out[i].start < out[i].end
    ensures forall f: nat {:trigger InRanges(out, f)} :: Carved(usable, reserved, out, f)
  {
    out := [];
    var k: nat := 0;
    ghost var at: nat := 0;
    for n := 0 to |usable|
      invariant k <= |reserved| && OutOk(out, at) && (n < |usable| ==> at <= usable[n].start)
      invariant Consumed(usable, reserved, k, at) && Waiting(usable, reserved, n, k)
      invariant forall f: nat {:trigger InRanges(out, f)} ::
                  InRanges(out, f) <==> InRanges(usable[..n], f) && Keep(usable, reserved, f)
    {
      ghost var before := out;
      out, k := CarveOne(usable, reserved, n, out, k, at);
      at := usable[n].end;
      forall f: nat
        ensures InRanges(out, f) <==> InRanges(usable[..n + 1], f) && Keep(usable, reserved, f)
      {
        assert usable[..n + 1] == usable[..n] + [usable[n]];
        InAppend(usable[..n], usable[n], f);
        assert InRanges(before, f) <==> InRanges(usable[..n], f) && Keep(usable, reserved, f);
      }
    }
    assert usable[..|usable|] == usable;
    forall f: nat
      ensures Carved(usable, reserved, out, f)
    {
      assert InRanges(out, f) <==> InRanges(usable, f) && Keep(usable, reserved, f);
    }
  }

  // ----- When all reserved frames are left out -----

  /** No reserved frame is reported exactly if no usable frame is in a reserved range behind one that stalls. */
  lemma {:induction false} LeavesOutReserved(usable: seq<Range>, reserved: seq<Range>, out: seq<Range>)
    requires Sorted(usable) && Sorted(reserved) && forall f: nat {:trigger InRanges(out, f)} :: Carved(usable, reserved, out, f)
    ensures (forall f: nat {:trigger InRanges(out, f)} :: InRanges(out, f) ==> !InRanges(reserved, f)) <==>
            (forall f: nat, i, j {:trigger reserved[i], reserved[j].Contains(f)} ::
               0 <= i < j < |reserved| && reserved[j].Contains(f) && Stalls(usable, reserved[i]) ==> !InRanges(usable, f))
  {
    forall f: nat, i, j | 0 <= i < j < |reserved| && reserved[j].Contains(f) && Stalls(usable, reserved[i]) && InRanges(usable, f)
      ensures InRanges(out, f) && InRanges(reserved, f)
    {
      OneRange(reserved, f, j);
      assert Keep(usable, reserved, f);
      assert Carved(usable, reserved, out, f);
    }
    forall f: nat | InRanges(out, f) && InRanges(reserved, f)
      ensures exists i, j :: 0 <= i < j < |reserved| && reserved[j].Contains(f) && Stalls(usable, reserved[i]) &&
                             InRanges(usable, f)
    {
      var j :| 0 <= j < |reserved| && reserved[j].Contains(f);
      assert Carved(usable, reserved, out, f);
      var i :| 0 <= i < j && Stalls(usable, reserved[i]);
    }
  }

  lemma {:induction false} OneRange(rs: seq<Range>, f: nat, j: nat)
    requires Sorted(rs) && j < |rs| && rs[j].Contains(f)
    ensures forall i :: 0 <= i < |rs| && rs[i].Contains(f) ==> i == j
  {
  }

  /** It is enough that every reserved range ends in or at the edge of a usable range that it starts before the end of, or
      has no usable range behind it. */
  lemma {:induction false} NothingStalls(usable: seq<Range>, reserved: seq<Range>, out: seq<Range>)
    requires Sorted(usable) && Sorted(reserved) && forall f: nat {:trigger InRanges(out, f)} :: Carved(usable, reserved, out, f)
    requires forall i :: 0 <= i < |reserved| ==>
               || (exists n :: 0 <= n < |usable| && Consumes(usable[n], reserved[i]))
               || (forall n :: 0 <= n < |usable| ==> usable[n].start <= reserved[i].end)
    ensures forall f: nat :: InRanges(out, f) <==> InRanges(usable, f) && !InRanges(reserved, f)
  {
    forall f: nat
      ensures InRanges(out, f) <==> InRanges(usable, f) && !InRanges(reserved, f)
    {
      assert Carved(usable, reserved, out, f);
      if InRanges(reserved, f) {
        var j :| 0 <= j < |reserved| && reserved[j].Contains(f);
        assert forall i :: 0 <= i < j ==> !Stalls(usable, reserved[i]);
      }
    }
  }

  /** A reserved range in a hole between usable ranges stalls: the reserved range behind it is reported as usable. */
  lemma {:induction false} ReservedButReported(out: seq<Range>)
    requires forall f: nat {:trigger InRanges(out, f)} ::
               Carved([Range(0, 10), Range(20, 40)], [Range(12, 14), Range(25, 30)], out, f)
    ensures InRanges(out, 27)
  {
    var usable, reserved := [Range(0, 10), Range(20, 40)], [Range(12, 14), Range(25, 30)];
    assert usable[1].Contains(27);
    assert reserved[0].end < usable[1].start;
    assert Stalls(usable, reserved[0]);
    assert Keep(usable, reserved, 27);
    assert Carved(usable, reserved, out, 27);
  }
}
