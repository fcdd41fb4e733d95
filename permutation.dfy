/** The drawers' contents: drawer `i` (1-based) holds the number `p[i - 1]`.
    The shuffled list handed to the graph is a permutation of 1..n. */
module Permutation {
  import opened Seqs

  /** The labels 1..n in increasing order (the drawer labels). */
  function Labels(n: nat): seq<int> {
    seq(n, i => i + 1)
  }

  lemma LabelsFacts(n: nat)
    ensures Distinct(Labels(n))
    ensures forall x :: x in Labels(n) <==> 1 <= x <= n
  {
    forall x | 1 <= x <= n ensures x in Labels(n) {
      assert Labels(n)[x - 1] == x;
    }
  }

  /** Every value lies in 1..|p| and no value occurs twice. */
  predicate IsPermutation(p: seq<int>) {
    (forall i :: 0 <= i < |p| ==> 1 <= p[i] <= |p|) && Distinct(p)
  }

  /** The number inside drawer `v`, which is also the next drawer a prisoner opens. */
  function Next(p: seq<int>, v: int): int
    requires 1 <= v <= |p|
  {
    p[v - 1]
  }

  /** Different drawers hold different numbers. */
  lemma NextInjective(p: seq<int>, a: int, b: int)
    requires IsPermutation(p) && 1 <= a <= |p| && 1 <= b <= |p|
    ensures Next(p, a) == Next(p, b) <==> a == b
  {
  }

  /** The drawer reached from `v` after following the numbers `k` times. */
  function Iterate(p: seq<int>, v: int, k: nat): (w: int)
    requires IsPermutation(p) && 1 <= v <= |p|
    ensures 1 <= w <= |p|
    decreases k
  {
    if k == 0 then v else Iterate(p, Next(p, v), k - 1)
  }

  lemma {:induction false} IterateAdd(p: seq<int>, v: int, a: nat, b: nat)
    requires IsPermutation(p) && 1 <= v <= |p|
    ensures Iterate(p, v, a + b) == Iterate(p, Iterate(p, v, a), b)
    decreases a
  {
    if a > 0 {
      IterateAdd(p, Next(p, v), a - 1, b);
    }
  }

  /** The identity arrangement: drawer `i` holds number `i`. */
  lemma IdentityIsPermutation(n: nat)
    ensures IsPermutation(Labels(n))
    ensures forall v :: 1 <= v <= n ==> Next(Labels(n), v) == v
  {
    LabelsFacts(n);
  }
}
