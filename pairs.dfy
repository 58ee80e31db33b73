/** The order in which the nested loops of `calculate_forces` and of each
    worker visit pairs: rows i in [start, end), and in row i the columns j in
    [i + 1, n). */
module Pairs {
  import opened Partition

  datatype Pair = Pair(i: nat, j: nat)

  /** Pairs (i, lo), (i, lo + 1), ..., (i, hi - 1), in loop order. */
  function Row(i: nat, lo: nat, hi: nat): (r: seq<Pair>)
    ensures |r| == if lo <= hi then hi - lo else 0
    decreases hi
  {
    if hi <= lo then [] else Row(i, lo, hi - 1) + [Pair(i, hi - 1)]
  }

  /** Entry k of a row is the pair (i, lo + k). */
  lemma {:induction false} RowAt(i: nat, lo: nat, hi: nat)
    ensures forall k :: 0 <= k < |Row(i, lo, hi)| ==> Row(i, lo, hi)[k] == Pair(i, lo + k)
    decreases hi
  {
    if lo < hi {
      RowAt(i, lo, hi - 1);
      var r := Row(i, lo, hi - 1);
      assert Row(i, lo, hi) == r + [Pair(i, hi - 1)];
    }
  }

  /** The pairs visited for outer rows [start, end) of an n-body system, in
      the order the loops visit them. */
  function Visits(start: nat, end: nat, n: nat): seq<Pair>
    decreases end
  {
    if end <= start then [] else Visits(start, end - 1, n) + Row(end - 1, end, n)
  }

  /** Every visited pair has its outer index in [start, end) and lies in the
      upper triangle i < j < n. */
  lemma {:induction false} VisitsBounds(start: nat, end: nat, n: nat)
    ensures forall k :: 0 <= k < |Visits(start, end, n)| ==>
      var q := Visits(start, end, n)[k]; start <= q.i < end && q.i < q.j < n
    decreases end
  {
    if start < end {
      VisitsBounds(start, end - 1, n);
      RowAt(end - 1, end, n);
      var v: seq<Pair>, w: seq<Pair> := Visits(start, end - 1, n), Row(end - 1, end, n);
      assert Visits(start, end, n) == v + w;
      forall k | 0 <= k < |v + w|
        ensures start <= (v + w)[k].i < end && (v + w)[k].i < (v + w)[k].j < n
      {
        if k >= |v| {
          assert (v + w)[k] == w[k - |v|];
        }
      }
    }
  }

  /** Lexicographic order on pairs: the loops visit pairs in increasing order. */
  predicate Before(a: Pair, b: Pair) {
    a.i < b.i || (a.i == b.i && a.j < b.j)
  }

  predicate Increasing(s: seq<Pair>) {
    forall a, b :: 0 <= a < b < |s| ==> Before(s[a], s[b])
  }

  lemma {:induction false} VisitsIncreasing(start: nat, end: nat, n: nat)
    ensures Increasing(Visits(start, end, n))
    decreases end
  {
    if start < end {
      VisitsIncreasing(start, end - 1, n);
      VisitsBounds(start, end - 1, n);
      RowAt(end - 1, end, n);
      var v, w := Visits(start, end - 1, n), Row(end - 1, end, n);
      assert Visits(start, end, n) == v + w;
      forall a, b | 0 <= a < b < |v + w|
        ensures Before((v + w)[a], (v + w)[b])
      {
        if b < |v| {
        } else if a >= |v| {
          assert (v + w)[a] == w[a - |v|] && (v + w)[b] == w[b - |v|];
        } else {
          assert (v + w)[a] == v[a] && (v + w)[b] == w[b - |v|];
        }
      }
    }
  }

  /** Exactly the upper-triangle pairs with outer index in [start, end) are
      visited. */
  lemma {:induction false} VisitsMembers(start: nat, end: nat, n: nat, q: Pair)
    ensures q in Visits(start, end, n) <==> start <= q.i < end && q.i < q.j < n
    decreases end
  {
    if start < end {
      VisitsMembers(start, end - 1, n, q);
      RowAt(end - 1, end, n);
      var v, w := Visits(start, end - 1, n), Row(end - 1, end, n);
      assert Visits(start, end, n) == v + w;
      if q.i == end - 1 && end <= q.j < n {
        assert w[q.j - end] == q;
      }
    }
  }

  /** Visiting rows [start, mid) and then [mid, end) is visiting [start, end). */
  lemma {:induction false} VisitsSplit(start: nat, mid: nat, end: nat, n: nat)
    requires start <= mid <= end
    ensures Visits(start, end, n) == Visits(start, mid, n) + Visits(mid, end, n)
    decreases end
  {
    if mid < end {
      VisitsSplit(start, mid, end - 1, n);
      assert Visits(start, end, n) == Visits(start, end - 1, n) + Row(end - 1, end, n);
      assert Visits(mid, end, n) == Visits(mid, end - 1, n) + Row(end - 1, end, n);
    }
  }

  /** An increasing sequence holds each of its elements exactly once. */
  lemma {:induction false} IncreasingOnce(s: seq<Pair>, q: Pair)
    requires Increasing(s)
    ensures multiset(s)[q] == if q in s then 1 else 0
    decreases |s|
  {
    if s != [] {
      var init, last := s[..|s| - 1], s[|s| - 1];
      assert s == init + [last];
      assert Increasing(init) by {
        forall a, b | 0 <= a < b < |init| ensures Before(init[a], init[b]) {
          assert init[a] == s[a] && init[b] == s[b];
        }
      }
      IncreasingOnce(init, q);
      assert multiset(s) == multiset(init) + multiset{last};
      if q == last {
        forall k | 0 <= k < |init| ensures init[k] != q {
          assert Before(s[k], s[|s| - 1]);
        }
      }
    }
  }

  /** All pairs the first k workers visit, worker by worker. */
  function Schedule(n: nat, p: nat, k: nat): (r: seq<Pair>)
    requires k <= p
  {
    if k == 0 then [] else Schedule(n, p, k - 1) + Visits(Start(n, p, k - 1), End(n, p, k - 1), n)
  }

  /** The first k workers together visit exactly the rows [0, End(k - 1)). */
  lemma {:induction false} SchedulePrefix(n: nat, p: nat, k: nat)
    requires 1 <= k <= p
    ensures Schedule(n, p, k) == Visits(0, End(n, p, k - 1), n)
    decreases k
  {
    RangesTile(n, p);
    RangeBounds(n, p, k - 1);
    if k > 1 {
      SchedulePrefix(n, p, k - 1);
      VisitsSplit(0, Start(n, p, k - 1), End(n, p, k - 1), n);
    }
  }

  /** All workers together visit the same pairs, in the same order, as one
      sequential pass over rows [0, n). */
  lemma ScheduleIsSequential(n: nat, p: nat)
    requires p >= 1
    ensures Schedule(n, p, p) == Visits(0, n, n)
  {
    SchedulePrefix(n, p, p);
  }

  /** Over all workers, every pair 0 <= i < j < n is visited exactly once and
      no other pair (in particular none with i == j) is visited, whatever
      the worker count. */
  lemma PairsVisitedOnce(n: nat, p: nat, q: Pair)
    requires p >= 1
    ensures multiset(Schedule(n, p, p))[q] == if q.i < q.j < n then 1 else 0
  {
    ScheduleIsSequential(n, p);
    VisitsIncreasing(0, n, n);
    VisitsMembers(0, n, n, q);
    IncreasingOnce(Visits(0, n, n), q);
  }
}
