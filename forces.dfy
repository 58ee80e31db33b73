/** Force accumulation: the effect of visiting one pair on an accumulator,
    the effect of a whole visit order, and `calculate_forces`, which runs the
    nested loops over rows [start, end) into an acceleration array. */
module Forces {
  import opened Vectors
  import opened Bodies
  import opened Pairs

  /** The loop body for one pair (i, j): when the pair passes the cutoff,
      add `onI` at entry i, then subtract `onJ` at entry j (a pair outside
      the system, which the loops never produce, changes nothing). */
  function Visit(bodies: seq<Body>, kern: Kernel, acc: seq<Vec2>, q: Pair): (r: seq<Vec2>)
    requires |acc| == |bodies|
    ensures |r| == |acc|
  {
    if q.i < |bodies| && q.j < |bodies| && kern.near(bodies[q.i], bodies[q.j]) then
      var bi, bj := bodies[q.i], bodies[q.j];
      var a := acc[q.i := Add(acc[q.i], kern.onI(bi, bj))];
      a[q.j := Sub(a[q.j], kern.onJ(bi, bj))]
    else
      acc
  }

  /** What visiting pair q adds to accumulator entry k (a pair outside the
      system adds nothing). */
  function Delta(bodies: seq<Body>, kern: Kernel, q: Pair, k: nat): Vec2 {
    if q.i < |bodies| && q.j < |bodies| && kern.near(bodies[q.i], bodies[q.j]) then
      var bi, bj := bodies[q.i], bodies[q.j];
      Sub(if k == q.i then kern.onI(bi, bj) else ZERO, if k == q.j then kern.onJ(bi, bj) else ZERO)
    else
      ZERO
  }

  /** A visited pair that fails the cutoff changes nothing; one that passes
      changes entry i by `+onI`, entry j by `-onJ`, and no other entry. */
  lemma VisitChanges(bodies: seq<Body>, kern: Kernel, acc: seq<Vec2>, q: Pair)
    requires |acc| == |bodies| && q.i < q.j < |bodies|
    ensures !kern.near(bodies[q.i], bodies[q.j]) ==> Visit(bodies, kern, acc, q) == acc
    ensures kern.near(bodies[q.i], bodies[q.j]) ==>
      && Visit(bodies, kern, acc, q)[q.i] == Add(acc[q.i], kern.onI(bodies[q.i], bodies[q.j]))
      && Visit(bodies, kern, acc, q)[q.j] == Sub(acc[q.j], kern.onJ(bodies[q.i], bodies[q.j]))
    ensures forall k :: 0 <= k < |acc| && k != q.i && k != q.j ==> Visit(bodies, kern, acc, q)[k] == acc[k]
  {
  }

  /** Entry by entry, a visit adds `Delta`. */
  lemma VisitAt(bodies: seq<Body>, kern: Kernel, acc: seq<Vec2>, q: Pair, k: nat)
    requires |acc| == |bodies| && k < |acc|
    ensures Visit(bodies, kern, acc, q)[k] == Add(acc[k], Delta(bodies, kern, q, k))
  {
  }

  /** The accumulator after visiting the first m pairs of `ps` in order. */
  function ApplyPrefix(bodies: seq<Body>, kern: Kernel, acc: seq<Vec2>, ps: seq<Pair>, m: nat): (r: seq<Vec2>)
    requires |acc| == |bodies| && m <= |ps|
    ensures |r| == |acc|
  {
    if m == 0 then acc
    else Visit(bodies, kern, ApplyPrefix(bodies, kern, acc, ps, m - 1), ps[m - 1])
  }

  /** The accumulator after visiting the pairs of `ps` in order. */
  function Apply(bodies: seq<Body>, kern: Kernel, acc: seq<Vec2>, ps: seq<Pair>): (r: seq<Vec2>)
    requires |acc| == |bodies|
    ensures |r| == |acc|
  {
    ApplyPrefix(bodies, kern, acc, ps, |ps|)
  }

  /** The sum of the contributions of the first m pairs of `ps` to entry k. */
  function TotalPrefix(bodies: seq<Body>, kern: Kernel, ps: seq<Pair>, m: nat, k: nat): Vec2
    requires m <= |ps|
  {
    if m == 0 then ZERO
    else Add(TotalPrefix(bodies, kern, ps, m - 1, k), Delta(bodies, kern, ps[m - 1], k))
  }

  /** The sum of the contributions of the pairs of `ps` to entry k. */
  function Total(bodies: seq<Body>, kern: Kernel, ps: seq<Pair>, k: nat): Vec2 {
    TotalPrefix(bodies, kern, ps, |ps|, k)
  }

  lemma {:induction false} ApplyPrefixAt(bodies: seq<Body>, kern: Kernel, acc: seq<Vec2>, ps: seq<Pair>, m: nat, k: nat)
    requires |acc| == |bodies| && m <= |ps| && k < |acc|
    ensures ApplyPrefix(bodies, kern, acc, ps, m)[k] == Add(acc[k], TotalPrefix(bodies, kern, ps, m, k))
    decreases m
  {
    if m == 0 {
      AddZero(acc[k]);
    } else {
      var a := ApplyPrefix(bodies, kern, acc, ps, m - 1);
      var t := TotalPrefix(bodies, kern, ps, m - 1, k);
      var d := Delta(bodies, kern, ps[m - 1], k);
      ApplyPrefixAt(bodies, kern, acc, ps, m - 1, k);
      VisitAt(bodies, kern, a, ps[m - 1], k);
      AddAssoc(acc[k], t, d);
    }
  }

  /** An accumulator only ever adds: entry k ends as its start value plus the
      total contribution of the visited pairs, whatever it held before. */
  lemma ApplyAt(bodies: seq<Body>, kern: Kernel, acc: seq<Vec2>, ps: seq<Pair>, k: nat)
    requires |acc| == |bodies| && k < |acc|
    ensures Apply(bodies, kern, acc, ps)[k] == Add(acc[k], Total(bodies, kern, ps, k))
  {
    ApplyPrefixAt(bodies, kern, acc, ps, |ps|, k);
  }

  /** Appending pairs does not change what a prefix contributes. */
  lemma {:induction false} TotalPrefixAppend(bodies: seq<Body>, kern: Kernel, xs: seq<Pair>, ys: seq<Pair>, m: nat, k: nat)
    requires m <= |xs|
    ensures TotalPrefix(bodies, kern, xs + ys, m, k) == TotalPrefix(bodies, kern, xs, m, k)
    decreases m
  {
    if m > 0 {
      TotalPrefixAppend(bodies, kern, xs, ys, m - 1, k);
      assert (xs + ys)[m - 1] == xs[m - 1];
    }
  }

  lemma {:induction false} TotalSuffix(bodies: seq<Body>, kern: Kernel, xs: seq<Pair>, ys: seq<Pair>, m: nat, k: nat)
    requires m <= |ys|
    ensures TotalPrefix(bodies, kern, xs + ys, |xs| + m, k) ==
      Add(Total(bodies, kern, xs, k), TotalPrefix(bodies, kern, ys, m, k))
    decreases m
  {
    var tx := Total(bodies, kern, xs, k);
    if m == 0 {
      TotalPrefixAppend(bodies, kern, xs, ys, |xs|, k);
      AddZero(tx);
    } else {
      var m' := m - 1;
      var l := |xs| + m';
      assert l + 1 == |xs| + m;
      TotalSuffix(bodies, kern, xs, ys, m', k);
      assert (xs + ys)[l] == ys[m'];
      var d := Delta(bodies, kern, ys[m'], k);
      assert TotalPrefix(bodies, kern, xs + ys, l + 1, k) == Add(TotalPrefix(bodies, kern, xs + ys, l, k), d);
      AddAssoc(tx, TotalPrefix(bodies, kern, ys, m', k), d);
    }
  }

  /** Contributions of consecutive visit orders add up. */
  lemma TotalAppend(bodies: seq<Body>, kern: Kernel, xs: seq<Pair>, ys: seq<Pair>, k: nat)
    ensures Total(bodies, kern, xs + ys, k) == Add(Total(bodies, kern, xs, k), Total(bodies, kern, ys, k))
  {
    TotalSuffix(bodies, kern, xs, ys, |ys|, k);
  }

  /** The sum of `onI(b_k, b_j)` over the j in [lo, hi) that pass the cutoff. */
  function RowGain(bodies: seq<Body>, kern: Kernel, k: nat, lo: nat, hi: nat): Vec2
    requires k < |bodies| && hi <= |bodies|
    decreases hi
  {
    if hi <= lo then ZERO
    else
      var bk, bj := bodies[k], bodies[hi - 1];
      Add(RowGain(bodies, kern, k, lo, hi - 1), if kern.near(bk, bj) then kern.onI(bk, bj) else ZERO)
  }

  /** The sum of `onJ(b_i, b_k)` over the i in [lo, hi) that pass the cutoff. */
  function ColumnLoss(bodies: seq<Body>, kern: Kernel, k: nat, lo: nat, hi: nat): Vec2
    requires k < |bodies| && hi <= |bodies|
    decreases hi
  {
    if hi <= lo then ZERO
    else
      var bi, bk := bodies[hi - 1], bodies[k];
      Add(ColumnLoss(bodies, kern, k, lo, hi - 1), if kern.near(bi, bk) then kern.onJ(bi, bk) else ZERO)
  }

  function Min(a: nat, b: nat): nat {
    if a <= b then a else b
  }

  /** What `calculate_forces(start, end, acc)` adds to entry k: the
      i-side contributions of row k when k is one of its rows, minus the
      j-side contributions of the rows in [start, end) that lie before k. */
  function Gain(bodies: seq<Body>, kern: Kernel, start: nat, end: nat, k: nat): Vec2
    requires k < |bodies|
  {
    var n := |bodies|;
    Sub(if start <= k < end then RowGain(bodies, kern, k, k + 1, n) else ZERO,
        ColumnLoss(bodies, kern, k, start, Min(end, k)))
  }

  lemma TotalSnoc(bodies: seq<Body>, kern: Kernel, ps: seq<Pair>, q: Pair, k: nat)
    ensures Total(bodies, kern, ps + [q], k) == Add(Total(bodies, kern, ps, k), Delta(bodies, kern, q, k))
  {
    TotalPrefixAppend(bodies, kern, ps, [q], |ps|, k);
    assert (ps + [q])[|ps|] == q;
  }

  /** The total of the pairs (i, lo), ..., (i, hi - 1) at entry k. */
  function RowPart(bodies: seq<Body>, kern: Kernel, i: nat, lo: nat, hi: nat, k: nat): Vec2
    requires i < |bodies| && hi <= |bodies| && k < |bodies|
  {
    Sub(if i == k then RowGain(bodies, kern, k, lo, hi) else ZERO,
        if lo <= k < hi && kern.near(bodies[i], bodies[k]) then kern.onJ(bodies[i], bodies[k]) else ZERO)
  }

  lemma RowPartStep(bodies: seq<Body>, kern: Kernel, i: nat, lo: nat, hi: nat, k: nat)
    requires i < lo < hi <= |bodies| && k < |bodies|
    ensures RowPart(bodies, kern, i, lo, hi, k) ==
      Add(RowPart(bodies, kern, i, lo, hi - 1, k), Delta(bodies, kern, Pair(i, hi - 1), k))
  {
    var bi, bj := bodies[i], bodies[hi - 1];
    var d := Delta(bodies, kern, Pair(i, hi - 1), k);
    if i == k {
      var a0 := RowGain(bodies, kern, k, lo, hi - 1);
      var c := if kern.near(bi, bj) then kern.onI(bi, bj) else ZERO;
      assert d == Sub(c, ZERO);
      var g := RowGain(bodies, kern, k, lo, hi);
      assert g == Add(a0, c);
      assert RowPart(bodies, kern, i, lo, hi, k) == Sub(g, ZERO);
      assert RowPart(bodies, kern, i, lo, hi - 1, k) == Sub(a0, ZERO);
      AddSubs(a0, ZERO, c, ZERO);
      AddZero(ZERO);
    } else if k == hi - 1 {
      var c := if kern.near(bi, bj) then kern.onJ(bi, bj) else ZERO;
      assert d == Sub(ZERO, c);
      assert RowPart(bodies, kern, i, lo, hi, k) == Sub(ZERO, c);
      assert RowPart(bodies, kern, i, lo, hi - 1, k) == Sub(ZERO, ZERO);
      AddSubs(ZERO, ZERO, ZERO, c);
      AddZero(ZERO);
      AddZero(c);
    } else {
      var r := RowPart(bodies, kern, i, lo, hi - 1, k);
      assert d == ZERO;
      assert RowPart(bodies, kern, i, lo, hi, k) == r;
      AddZero(r);
    }
  }

  /** Extending a row by one pair extends its total by that pair's `Delta`.
      The induction hypothesis is the left side of the implication rather
      than a precondition, which keeps the proof of `TotalRow` cheap for the
      solver. */
  lemma TotalRowStep(bodies: seq<Body>, kern: Kernel, i: nat, lo: nat, hi: nat, k: nat)
    requires i < lo < hi <= |bodies| && k < |bodies|
    ensures Total(bodies, kern, Row(i, lo, hi - 1), k) == RowPart(bodies, kern, i, lo, hi - 1, k) ==>
      Total(bodies, kern, Row(i, lo, hi), k) == RowPart(bodies, kern, i, lo, hi, k)
  {
    TotalSnoc(bodies, kern, Row(i, lo, hi - 1), Pair(i, hi - 1), k);
    RowPartStep(bodies, kern, i, lo, hi, k);
  }

  /** The total of the pairs (i, j), j in [lo, hi), at entry k is `RowPart`. */
  lemma {:induction false} TotalRow(bodies: seq<Body>, kern: Kernel, i: nat, lo: nat, hi: nat, k: nat)
    requires i < lo && i < |bodies| && hi <= |bodies| && k < |bodies|
    ensures Total(bodies, kern, Row(i, lo, hi), k) == RowPart(bodies, kern, i, lo, hi, k)
    decreases hi
  {
    if lo < hi {
      TotalRow(bodies, kern, i, lo, hi - 1, k);
      TotalRowStep(bodies, kern, i, lo, hi, k);
    } else {
      TotalRowEmpty(bodies, kern, i, lo, hi, k);
    }
  }

  lemma TotalRowEmpty(bodies: seq<Body>, kern: Kernel, i: nat, lo: nat, hi: nat, k: nat)
    requires hi <= lo && i < |bodies| && hi <= |bodies| && k < |bodies|
    ensures Total(bodies, kern, Row(i, lo, hi), k) == RowPart(bodies, kern, i, lo, hi, k)
  {
    assert Row(i, lo, hi) == [];
    assert RowGain(bodies, kern, k, lo, hi) == ZERO;
    assert RowPart(bodies, kern, i, lo, hi, k) == Sub(ZERO, ZERO);
  }

  /** The contribution of row i to entry k: its i-side terms when i == k,
      minus the j-side term of the pair (i, k) when i < k. */
  function RowShare(bodies: seq<Body>, kern: Kernel, i: nat, k: nat): Vec2
    requires i < |bodies| && k < |bodies|
  {
    RowPart(bodies, kern, i, i + 1, |bodies|, k)
  }

  /** Extending the rows [start, end - 1) by row end - 1 adds that row's
      share to `Gain`. */
  lemma GainStep(bodies: seq<Body>, kern: Kernel, start: nat, end: nat, k: nat)
    requires start < end <= |bodies| && k < |bodies|
    ensures Gain(bodies, kern, start, end, k) ==
      Add(Gain(bodies, kern, start, end - 1, k), RowShare(bodies, kern, end - 1, k))
  {
    if end <= k {
      GainStepBefore(bodies, kern, start, end, k);
    } else if end - 1 == k {
      GainStepAt(bodies, kern, start, end, k);
    } else {
      GainStepAfter(bodies, kern, start, end, k);
    }
  }

  // `GainStep` is split into these three cases to keep each proof small for
  // the solver.
  lemma GainStepBefore(bodies: seq<Body>, kern: Kernel, start: nat, end: nat, k: nat)
    requires start < end <= k < |bodies|
    ensures Gain(bodies, kern, start, end, k) ==
      Add(Gain(bodies, kern, start, end - 1, k), RowShare(bodies, kern, end - 1, k))
  {
    var b0 := ColumnLoss(bodies, kern, k, start, end - 1);
    var d := if kern.near(bodies[end - 1], bodies[k]) then kern.onJ(bodies[end - 1], bodies[k]) else ZERO;
    assert Gain(bodies, kern, start, end - 1, k) == Sub(ZERO, b0);
    assert RowShare(bodies, kern, end - 1, k) == Sub(ZERO, d);
    var cl := ColumnLoss(bodies, kern, k, start, end);
    assert cl == Add(b0, d);
    assert Gain(bodies, kern, start, end, k) == Sub(ZERO, cl);
    AddSubs(ZERO, b0, ZERO, d);
    AddZero(ZERO);
  }

  lemma GainStepAt(bodies: seq<Body>, kern: Kernel, start: nat, end: nat, k: nat)
    requires start < end == k + 1 <= |bodies|
    ensures Gain(bodies, kern, start, end, k) ==
      Add(Gain(bodies, kern, start, end - 1, k), RowShare(bodies, kern, end - 1, k))
  {
    var b0 := ColumnLoss(bodies, kern, k, start, k);
    var c := RowGain(bodies, kern, k, k + 1, |bodies|);
    assert Gain(bodies, kern, start, end - 1, k) == Sub(ZERO, b0);
    assert RowShare(bodies, kern, end - 1, k) == Sub(c, ZERO);
    assert Gain(bodies, kern, start, end, k) == Sub(c, b0);
    AddSubs(ZERO, b0, c, ZERO);
    AddZero(c);
    AddZero(b0);
  }

  lemma GainStepAfter(bodies: seq<Body>, kern: Kernel, start: nat, end: nat, k: nat)
    requires start < end <= |bodies| && k + 1 < end
    ensures Gain(bodies, kern, start, end, k) ==
      Add(Gain(bodies, kern, start, end - 1, k), RowShare(bodies, kern, end - 1, k))
  {
    var g := Gain(bodies, kern, start, end - 1, k);
    assert Gain(bodies, kern, start, end, k) == g;
    assert RowShare(bodies, kern, end - 1, k) == Sub(ZERO, ZERO);
    assert Add(g, Sub(ZERO, ZERO)) == g;
  }

  lemma TotalRowShare(bodies: seq<Body>, kern: Kernel, i: nat, end: nat, k: nat)
    requires end == i + 1 && i < |bodies| && k < |bodies|
    ensures Total(bodies, kern, Row(i, end, |bodies|), k) == RowShare(bodies, kern, i, k)
  {
    TotalRow(bodies, kern, i, end, |bodies|, k);
  }

  lemma TotalVisitsSnoc(bodies: seq<Body>, kern: Kernel, start: nat, end: nat, k: nat)
    requires start < end
    ensures Total(bodies, kern, Visits(start, end, |bodies|), k) ==
      Add(Total(bodies, kern, Visits(start, end - 1, |bodies|), k), Total(bodies, kern, Row(end - 1, end, |bodies|), k))
  {
    var n := |bodies|;
    var v, w := Visits(start, end - 1, n), Row(end - 1, end, n);
    TotalAppend(bodies, kern, v, w, k);
  }

  /** Entry k of the accumulator over rows [start, end) is `Gain`. */
  lemma {:induction false} TotalVisits(bodies: seq<Body>, kern: Kernel, start: nat, end: nat, k: nat)
    requires k < |bodies|
    ensures Total(bodies, kern, Visits(start, end, |bodies|), k) == Gain(bodies, kern, start, end, k)
    decreases end
  {
    if start < end {
      TotalVisits(bodies, kern, start, end - 1, k);
      if end <= |bodies| {
        TotalVisitsStep(bodies, kern, start, end, k);
      } else {
        TotalVisitsPast(bodies, kern, start, end, k);
      }
    } else {
      TotalVisitsEmpty(bodies, kern, start, end, k);
    }
  }

  /** One more row, within the bodies, extends the total by that row's share.
      This lemma and `TotalVisitsPast` take the induction hypothesis as the
      left side of an implication, which keeps `TotalVisits` cheap for the
      solver. */
  lemma TotalVisitsStep(bodies: seq<Body>, kern: Kernel, start: nat, end: nat, k: nat)
    requires start < end <= |bodies| && k < |bodies|
    ensures Total(bodies, kern, Visits(start, end - 1, |bodies|), k) == Gain(bodies, kern, start, end - 1, k) ==>
      Total(bodies, kern, Visits(start, end, |bodies|), k) == Gain(bodies, kern, start, end, k)
  {
    TotalVisitsSnoc(bodies, kern, start, end, k);
    TotalRowShare(bodies, kern, end - 1, end, k);
    GainStep(bodies, kern, start, end, k);
  }

  /** Rows past the last body add nothing. */
  lemma TotalVisitsPast(bodies: seq<Body>, kern: Kernel, start: nat, end: nat, k: nat)
    requires start < end && |bodies| < end && k < |bodies|
    ensures Total(bodies, kern, Visits(start, end - 1, |bodies|), k) == Gain(bodies, kern, start, end - 1, k) ==>
      Total(bodies, kern, Visits(start, end, |bodies|), k) == Gain(bodies, kern, start, end, k)
  {
    var n := |bodies|;
    var v := Visits(start, end - 1, n);
    assert Row(end - 1, end, n) == [];
    assert Visits(start, end, n) == v + [] == v;
    assert Min(end, k) == Min(end - 1, k);
  }

  lemma TotalVisitsEmpty(bodies: seq<Body>, kern: Kernel, start: nat, end: nat, k: nat)
    requires end <= start && k < |bodies|
    ensures Total(bodies, kern, Visits(start, end, |bodies|), k) == Gain(bodies, kern, start, end, k)
  {
    assert ColumnLoss(bodies, kern, k, start, Min(end, k)) == ZERO;
    assert Gain(bodies, kern, start, end, k) == Sub(ZERO, ZERO);
  }

  /** The sequential reference: `calculate_forces(0, N, acc)` on a zeroed
      accumulator. */
  function Sequential(bodies: seq<Body>, kern: Kernel): (r: seq<Vec2>)
    ensures |r| == |bodies|
  {
    Apply(bodies, kern, Zeros(|bodies|), Visits(0, |bodies|, |bodies|))
  }

  /** Entry k of the sequential result is the sum of the i-side contributions
      of the pairs (k, j), j > k, minus the sum of the j-side contributions of
      the pairs (i, k), i < k, counting only pairs that pass the cutoff. */
  lemma SequentialAt(bodies: seq<Body>, kern: Kernel, k: nat)
    requires k < |bodies|
    ensures Sequential(bodies, kern)[k] ==
      Sub(RowGain(bodies, kern, k, k + 1, |bodies|), ColumnLoss(bodies, kern, k, 0, k))
  {
    var n := |bodies|;
    ApplyAt(bodies, kern, Zeros(n), Visits(0, n, n), k);
    TotalVisits(bodies, kern, 0, n, k);
  }

  /** Appending pairs does not change the accumulator after a prefix. */
  lemma {:induction false} ApplyPrefixAppend(bodies: seq<Body>, kern: Kernel, acc: seq<Vec2>, xs: seq<Pair>, ys: seq<Pair>, m: nat)
    requires |acc| == |bodies| && m <= |xs|
    ensures ApplyPrefix(bodies, kern, acc, xs + ys, m) == ApplyPrefix(bodies, kern, acc, xs, m)
    decreases m
  {
    if m > 0 {
      ApplyPrefixAppend(bodies, kern, acc, xs, ys, m - 1);
      assert (xs + ys)[m - 1] == xs[m - 1];
    }
  }

  /** Visiting one more pair extends `Apply` by one `Visit`. */
  lemma ApplySnoc(bodies: seq<Body>, kern: Kernel, acc: seq<Vec2>, ps: seq<Pair>, q: Pair)
    requires |acc| == |bodies|
    ensures Apply(bodies, kern, acc, ps + [q]) == Visit(bodies, kern, Apply(bodies, kern, acc, ps), q)
  {
    ApplyPrefixAppend(bodies, kern, acc, ps, [q], |ps|);
    assert (ps + [q])[|ps|] == q;
  }

  lemma {:induction false} ApplySuffix(bodies: seq<Body>, kern: Kernel, acc: seq<Vec2>, xs: seq<Pair>, ys: seq<Pair>, m: nat)
    requires |acc| == |bodies| && m <= |ys|
    ensures ApplyPrefix(bodies, kern, acc, xs + ys, |xs| + m) ==
      ApplyPrefix(bodies, kern, Apply(bodies, kern, acc, xs), ys, m)
    decreases m
  {
    if m == 0 {
      ApplyPrefixAppend(bodies, kern, acc, xs, ys, |xs|);
    } else {
      var m' := m - 1;
      var l := |xs| + m';
      assert l + 1 == |xs| + m;
      ApplySuffix(bodies, kern, acc, xs, ys, m');
      assert (xs + ys)[l] == ys[m'];
    }
  }

  /** Visiting xs and then ys is visiting xs + ys. */
  lemma ApplyAppend(bodies: seq<Body>, kern: Kernel, acc: seq<Vec2>, xs: seq<Pair>, ys: seq<Pair>)
    requires |acc| == |bodies|
    ensures Apply(bodies, kern, acc, xs + ys) == Apply(bodies, kern, Apply(bodies, kern, acc, xs), ys)
  {
    ApplySuffix(bodies, kern, acc, xs, ys, |ys|);
  }

  /** Entry k of an accumulator after visiting rows [start, end) has gained
      `Gain`. */
  lemma ApplyGain(bodies: seq<Body>, kern: Kernel, acc: seq<Vec2>, start: nat, end: nat)
    requires |acc| == |bodies|
    ensures forall k :: 0 <= k < |acc| ==>
      Apply(bodies, kern, acc, Visits(start, end, |bodies|))[k] == Add(acc[k], Gain(bodies, kern, start, end, k))
  {
    forall k | 0 <= k < |acc|
      ensures Apply(bodies, kern, acc, Visits(start, end, |bodies|))[k] == Add(acc[k], Gain(bodies, kern, start, end, k))
    {
      ApplyAt(bodies, kern, acc, Visits(start, end, |bodies|), k);
      TotalVisits(bodies, kern, start, end, k);
    }
  }

  /** Rows [start, i + 1) are rows [start, i) and then row i (empty when
      i is past the last body). */
  lemma NextRow(bodies: seq<Body>, kern: Kernel, acc: seq<Vec2>, start: nat, i: nat)
    requires |acc| == |bodies| && start <= i
    ensures i < |bodies| ==>
      Apply(bodies, kern, acc, Visits(start, i + 1, |bodies|)) ==
      Apply(bodies, kern, Apply(bodies, kern, acc, Visits(start, i, |bodies|)), Row(i, i + 1, |bodies|))
    ensures |bodies| <= i ==> Visits(start, i + 1, |bodies|) == Visits(start, i, |bodies|)
  {
    var n := |bodies|;
    var v, w := Visits(start, i, n), Row(i, i + 1, n);
    assert Visits(start, i + 1, n) == v + w;
    if i < n {
      ApplyAppend(bodies, kern, acc, v, w);
    } else {
      assert w == [] && v + w == v;
    }
  }

  /** The body of the inner loop for the pair (i, j).  The bodies are only
      read while forces are computed, so they are passed as a value. */
  method VisitPair(bodies: seq<Body>, kern: Kernel, i: nat, j: nat, acc: array<Vec2>)
    requires acc.Length == |bodies| && i < j < |bodies|
    modifies acc
    ensures acc[..] == Visit(bodies, kern, old(acc[..]), Pair(i, j))
  {
    if kern.near(bodies[i], bodies[j]) {
      acc[i] := Add(acc[i], kern.onI(bodies[i], bodies[j]));
      acc[j] := Sub(acc[j], kern.onJ(bodies[i], bodies[j]));
    }
  }

  /** The inner loop of `calculate_forces` for row i: columns j in (i, n). */
  method VisitRow(bodies: seq<Body>, kern: Kernel, i: nat, acc: array<Vec2>)
    requires acc.Length == |bodies| && i < |bodies|
    modifies acc
    ensures acc[..] == Apply(bodies, kern, old(acc[..]), Row(i, i + 1, |bodies|))
  {
    var n := |bodies|;
    ghost var acc0 := acc[..];
    var j := i + 1;
    while j < n
      invariant i + 1 <= j <= n
      invariant acc[..] == Apply(bodies, kern, acc0, Row(i, i + 1, j))
    {
      VisitPair(bodies, kern, i, j, acc);
      assert Row(i, i + 1, j + 1) == Row(i, i + 1, j) + [Pair(i, j)];
      ApplySnoc(bodies, kern, acc0, Row(i, i + 1, j), Pair(i, j));
      j := j + 1;
    }
  }

  /** `calculate_forces(start, end, acc)`: visit rows [start, end), and in row
      i the columns (i, n), adding each passing pair's contributions to `acc`. */
  method CalculateForces(bodies: seq<Body>, kern: Kernel, start: nat, end: nat, acc: array<Vec2>)
    requires acc.Length == |bodies|
    modifies acc
    ensures acc[..] == Apply(bodies, kern, old(acc[..]), Visits(start, end, |bodies|))
    ensures forall k :: 0 <= k < acc.Length ==> acc[k] == Add(old(acc[k]), Gain(bodies, kern, start, end, k))
  {
    var n := |bodies|;
    ghost var acc0 := acc[..];
    var i := start;
    while i < end
      invariant start <= i && (i <= end || i == start)
      invariant acc[..] == Apply(bodies, kern, acc0, Visits(start, i, n))
    {
      if i < n {
        VisitRow(bodies, kern, i, acc);
      }
      NextRow(bodies, kern, acc0, start, i);
      i := i + 1;
    }
    assert i == end || end <= start;
    ApplyGain(bodies, kern, acc0, start, end);
  }
}
