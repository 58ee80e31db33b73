/** How `update` splits the outer row indices [0, n) among `p` workers:
    `chunk_size = n / p`, worker t starts at `t * chunk_size`, and every
    worker but the last ends where the next one starts; the last ends at n. */
module Partition {

  function Chunk(n: nat, p: nat): nat
    requires p >= 1
  {
    n / p
  }

  function Start(n: nat, p: nat, t: nat): nat
    requires t < p
  {
    t * Chunk(n, p)
  }

  function End(n: nat, p: nat, t: nat): nat
    requires t < p
  {
    if t == p - 1 then n else (t + 1) * Chunk(n, p)
  }

  lemma MulMono(a: nat, b: nat, c: nat)
    requires a <= b
    ensures a * c <= b * c
  {
  }

  /** Every range is well formed and lies inside [0, n). */
  lemma RangeBounds(n: nat, p: nat, t: nat)
    requires t < p
    ensures Start(n, p, t) <= End(n, p, t) <= n
  {
    var c := Chunk(n, p);
    assert p * c <= n;
    MulMono(t, p - 1, c);
    if t < p - 1 {
      MulMono(t + 1, p, c);
    } else {
      assert (p - 1) * c <= p * c;
    }
  }

  /** The ranges tile [0, n) in order: the first starts at 0, each one ends
      where the next begins, and the last ends at n. */
  lemma RangesTile(n: nat, p: nat)
    requires p >= 1
    ensures Start(n, p, 0) == 0
    ensures End(n, p, p - 1) == n
    ensures forall t :: 0 <= t < p - 1 ==> End(n, p, t) == Start(n, p, t + 1)
  {
  }

  /** Ranges of different workers never overlap. */
  lemma RangesDisjoint(n: nat, p: nat, t: nat, u: nat)
    requires t < u < p
    ensures End(n, p, t) <= Start(n, p, u)
  {
    MulMono(t + 1, u, Chunk(n, p));
  }

  /** Every worker but the last gets exactly `n / p` rows; the last one gets
      those plus the remainder `n % p`. */
  lemma RangeSizes(n: nat, p: nat, t: nat)
    requires t < p
    ensures t < p - 1 ==> End(n, p, t) - Start(n, p, t) == n / p
    ensures t == p - 1 ==> End(n, p, t) - Start(n, p, t) == n / p + n % p
  {
    var c := Chunk(n, p);
    assert n == p * c + n % p;
    assert (p - 1) * c == p * c - c;
  }

  /** With more workers than rows, all workers but the last are idle and the
      last one takes every row. */
  lemma MoreWorkersThanRows(n: nat, p: nat, t: nat)
    requires n < p && t < p
    ensures t < p - 1 ==> Start(n, p, t) == 0 && End(n, p, t) == 0
    ensures t == p - 1 ==> Start(n, p, t) == 0 && End(n, p, t) == n
  {
    assert Chunk(n, p) == 0;
  }

  /** The worker whose range holds row i. */
  function Owner(n: nat, p: nat, i: nat): nat
    requires p >= 1
  {
    var c := Chunk(n, p);
    if c == 0 || i / c >= p - 1 then p - 1 else i / c
  }

  /** Row i lies in worker t's range exactly when t is its owner: the union
      of the ranges is [0, n) and no row lies in two ranges. */
  lemma OwnerUnique(n: nat, p: nat, i: nat, t: nat)
    requires i < n && t < p
    ensures Start(n, p, t) <= i < End(n, p, t) <==> t == Owner(n, p, i)
  {
    var c := Chunk(n, p);
    var o := Owner(n, p, i);
    assert Start(n, p, o) <= i < End(n, p, o) by {
      if c != 0 {
        assert i == (i / c) * c + i % c;
        MulMono(o, i / c, c);
        if o < p - 1 {
          assert End(n, p, o) == (i / c) * c + c;
        }
      }
    }
    if t < o {
      RangesDisjoint(n, p, t, o);
    } else if o < t {
      RangesDisjoint(n, p, o, t);
    }
  }
}
