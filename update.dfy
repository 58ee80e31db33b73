/** `update`: one simulation step.  Every worker gets its own accumulator,
    cleared to zero; worker t runs the loops of `calculate_forces` over its
    row range into that accumulator; the accumulators are then summed entry
    by entry, and every body is integrated with the sum.  Workers are run one
    after another: they share nothing but the bodies, which are only read
    while forces are computed. */
module Simulation {
  import opened Vectors
  import opened Bodies
  import opened Partition
  import opened Pairs
  import opened Forces

  /** What worker t of p holds once its loops are done: the visits of its
      row range applied to a zeroed accumulator. */
  function WorkerResult(bodies: seq<Body>, kern: Kernel, p: nat, t: nat): (r: seq<Vec2>)
    requires t < p
    ensures |r| == |bodies|
  {
    var n := |bodies|;
    Apply(bodies, kern, Zeros(n), Visits(Start(n, p, t), End(n, p, t), n))
  }

  /** Entry i of the sum of the first m workers' results, added in worker
      order. */
  function WorkerSum(bodies: seq<Body>, kern: Kernel, p: nat, m: nat, i: nat): Vec2
    requires m <= p && i < |bodies|
  {
    if m == 0 then ZERO
    else Add(WorkerSum(bodies, kern, p, m - 1, i), WorkerResult(bodies, kern, p, m - 1)[i])
  }

  /** Summing the workers' results is totalling the pairs they visit. */
  lemma {:induction false} WorkerSumSchedule(bodies: seq<Body>, kern: Kernel, p: nat, m: nat, i: nat)
    requires m <= p && i < |bodies|
    ensures WorkerSum(bodies, kern, p, m, i) == Total(bodies, kern, Schedule(|bodies|, p, m), i)
    decreases m
  {
    var n := |bodies|;
    if m == 0 {
      assert Schedule(n, p, 0) == [];
    } else {
      var s := Schedule(n, p, m - 1);
      var v := Visits(Start(n, p, m - 1), End(n, p, m - 1), n);
      var tv := Total(bodies, kern, v, i);
      WorkerSumSchedule(bodies, kern, p, m - 1, i);
      ApplyAt(bodies, kern, Zeros(n), v, i);
      AddZero(tv);
      assert WorkerResult(bodies, kern, p, m - 1)[i] == tv;
      assert Schedule(n, p, m) == s + v;
      TotalAppend(bodies, kern, s, v, i);
    }
  }

  /** The reduction of all p workers' results is the sequential force
      computation, entry by entry, for every worker count p. */
  lemma ReducedIsSequential(bodies: seq<Body>, kern: Kernel, p: nat, i: nat)
    requires p >= 1 && i < |bodies|
    ensures WorkerSum(bodies, kern, p, p, i) == Sequential(bodies, kern)[i]
  {
    var n := |bodies|;
    WorkerSumSchedule(bodies, kern, p, p, i);
    ScheduleIsSequential(n, p);
    ApplyAt(bodies, kern, Zeros(n), Visits(0, n, n), i);
    AddZero(Total(bodies, kern, Visits(0, n, n), i));
  }

  /** Two worker counts give the same reduced accelerations. */
  lemma WorkerCountIrrelevant(bodies: seq<Body>, kern: Kernel, p: nat, q: nat, i: nat)
    requires p >= 1 && q >= 1 && i < |bodies|
    ensures WorkerSum(bodies, kern, p, p, i) == WorkerSum(bodies, kern, q, q, i)
  {
    ReducedIsSequential(bodies, kern, p, i);
    ReducedIsSequential(bodies, kern, q, i);
  }

  /** Entry i of the sum of the first m accumulators of `accs`. */
  function ColumnSum(accs: seq<array<Vec2>>, m: nat, i: nat): Vec2
    requires m <= |accs| && forall t :: 0 <= t < |accs| ==> i < accs[t].Length
    reads set t | 0 <= t < |accs| :: accs[t]
  {
    if m == 0 then ZERO else Add(ColumnSum(accs, m - 1, i), accs[m - 1][i])
  }

  /** Accumulators holding the workers' results sum to `WorkerSum`. */
  lemma {:induction false} ColumnSumWorkers(bodies: seq<Body>, kern: Kernel, p: nat, accs: seq<array<Vec2>>, m: nat, i: nat)
    requires |accs| == p && m <= p && i < |bodies|
    requires forall t :: 0 <= t < p ==> accs[t].Length == |bodies|
    requires forall t :: 0 <= t < p ==> accs[t][..] == WorkerResult(bodies, kern, p, t)
    ensures ColumnSum(accs, m, i) == WorkerSum(bodies, kern, p, m, i)
    decreases m
  {
    if m > 0 {
      ColumnSumWorkers(bodies, kern, p, accs, m - 1, i);
      assert accs[m - 1][i] == accs[m - 1][..][i];
    }
  }

  /** The initialisation loop of `update`: p accumulators of n entries, each
      a new array set to zero entry by entry. */
  method ZeroedAccumulators(p: nat, n: nat) returns (accs: seq<array<Vec2>>)
    ensures |accs| == p
    ensures forall t :: 0 <= t < p ==> fresh(accs[t]) && accs[t].Length == n && accs[t][..] == Zeros(n)
    ensures forall t, u :: 0 <= t < u < p ==> accs[t] != accs[u]
  {
    accs := [];
    var t := 0;
    while t < p
      invariant t <= p && |accs| == t
      invariant forall u :: 0 <= u < t ==> fresh(accs[u]) && accs[u].Length == n && accs[u][..] == Zeros(n)
      invariant forall u, v :: 0 <= u < v < t ==> accs[u] != accs[v]
    {
      var a := new Vec2[n];
      var i := 0;
      while i < n
        invariant i <= n
        invariant forall k :: 0 <= k < i ==> a[k] == ZERO
        invariant forall u :: 0 <= u < t ==> accs[u][..] == Zeros(n)
      {
        a[i] := ZERO;
        i := i + 1;
      }
      assert a[..] == Zeros(n);
      accs := accs + [a];
      t := t + 1;
    }
  }

  /** The launch loop of `update`: worker t computes its range from
      `chunk_size = n / p` and runs the loops of `calculate_forces` over it
      into its own accumulator. */
  method RunWorkers(bodies: seq<Body>, kern: Kernel, p: nat, accs: seq<array<Vec2>>)
    requires p >= 1 && |accs| == p
    requires forall t :: 0 <= t < p ==> accs[t].Length == |bodies| && accs[t][..] == Zeros(|bodies|)
    requires forall t, u :: 0 <= t < u < p ==> accs[t] != accs[u]
    modifies set t | 0 <= t < p :: accs[t]
    ensures forall t :: 0 <= t < p ==> accs[t][..] == WorkerResult(bodies, kern, p, t)
  {
    var n := |bodies|;
    var chunk := n / p;
    var t := 0;
    while t < p
      invariant t <= p
      invariant forall u :: 0 <= u < t ==> accs[u][..] == WorkerResult(bodies, kern, p, u)
      invariant forall u :: t <= u < p ==> accs[u][..] == Zeros(n)
    {
      var start := t * chunk;
      var end := if t == p - 1 then n else (t + 1) * chunk;
      assert start == Start(n, p, t) && end == End(n, p, t);
      CalculateForces(bodies, kern, start, end, accs[t]);
      t := t + 1;
    }
  }

  /** The aggregation loop of `update`: entry i is cleared, then every
      worker's entry i is added to it in worker order. */
  method Reduce(accs: seq<array<Vec2>>, n: nat) returns (acc: array<Vec2>)
    requires forall t :: 0 <= t < |accs| ==> accs[t].Length == n
    ensures fresh(acc) && acc.Length == n
    ensures forall i :: 0 <= i < n ==> acc[i] == ColumnSum(accs, |accs|, i)
  {
    acc := new Vec2[n];
    var i := 0;
    while i < n
      invariant i <= n
      invariant forall k :: 0 <= k < i ==> acc[k] == ColumnSum(accs, |accs|, k)
    {
      acc[i] := ZERO;
      var t := 0;
      while t < |accs|
        invariant t <= |accs|
        invariant acc[i] == ColumnSum(accs, t, i)
        invariant forall k :: 0 <= k < i ==> acc[k] == ColumnSum(accs, |accs|, k)
      {
        acc[i] := Add(acc[i], accs[t][i]);
        t := t + 1;
      }
      i := i + 1;
    }
  }

  /** The integration loop of `update`: for each body, the position moves by
      the velocity held before the step, then the velocity moves by the
      acceleration.  The step length is a parameter; `Update` passes `DT`. */
  method Integrate(bodies: array<Body>, acc: array<Vec2>, dt: real)
    requires acc.Length == bodies.Length
    modifies bodies
    ensures bodies[..] == Integrated(old(bodies[..]), acc[..], dt)
  {
    var i := 0;
    while i < bodies.Length
      invariant i <= bodies.Length
      invariant forall k :: 0 <= k < i ==> bodies[k] == Advance(old(bodies[k]), acc[k], dt)
      invariant forall k :: i <= k < bodies.Length ==> bodies[k] == old(bodies[k])
    {
      var b := bodies[i];
      b := b.(pos := Add(b.pos, Scale(b.vel, dt)));
      b := b.(vel := Add(b.vel, Scale(acc[i], dt)));
      assert b == Advance(bodies[i], acc[i], dt);
      bodies[i] := b;
      i := i + 1;
    }
  }

  /** One step: every body is advanced with the accelerations of the
      sequential force computation, whatever the number of workers; each
      position moves by its old velocity, and masses and radii stay. */
  method Update(bodies: array<Body>, kern: Kernel, numThreads: nat)
    requires numThreads >= 1
    modifies bodies
    ensures bodies[..] == Integrated(old(bodies[..]), Sequential(old(bodies[..]), kern), DT)
    ensures forall i :: 0 <= i < bodies.Length ==>
      && Sub(bodies[i].pos, old(bodies[i].pos)) == Scale(old(bodies[i].vel), DT)
      && bodies[i].mass == old(bodies[i].mass) && bodies[i].radius == old(bodies[i].radius)
  {
    var n := bodies.Length;
    var snapshot := bodies[..];
    var threadAcc := ZeroedAccumulators(numThreads, n);
    RunWorkers(snapshot, kern, numThreads, threadAcc);
    var acc := Reduce(threadAcc, n);
    forall i | 0 <= i < n
      ensures acc[i] == Sequential(snapshot, kern)[i]
    {
      ColumnSumWorkers(snapshot, kern, numThreads, threadAcc, numThreads, i);
      ReducedIsSequential(snapshot, kern, numThreads, i);
    }
    assert acc[..] == Sequential(snapshot, kern);
    Integrate(bodies, acc, DT);
    forall i | 0 <= i < n
      ensures Sub(bodies[i].pos, snapshot[i].pos) == Scale(snapshot[i].vel, DT)
      ensures bodies[i].mass == snapshot[i].mass && bodies[i].radius == snapshot[i].radius
    {
      AdvanceEffect(snapshot[i], acc[i], DT);
    }
  }
}
