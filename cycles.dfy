/** The components of the drawer graph of a permutation are its cycles.
    This module finds them by walking each cycle from its smallest unvisited
    drawer, marking drawers in a visited array, and proves that the cycles
    found partition the drawers 1..n. */
module Cycles {
  import opened Seqs
  import opened Permutation

  /** `c` lists one cycle of `p` in walking order: its drawers are distinct
      labels, each holds the next one, and the last holds the first. */
  predicate IsCycle(p: seq<int>, c: seq<int>) {
    |c| >= 1 &&
    (forall j :: 0 <= j < |c| ==> 1 <= c[j] <= |p|) &&
    Distinct(c) &&
    (forall j :: 0 <= j < |c| - 1 ==> Next(p, c[j]) == c[j + 1]) &&
    Next(p, c[|c| - 1]) == c[0]
  }

  /** `cs` is a cycle decomposition of `p`: every entry is a cycle and,
      taken together, the entries hold every drawer 1..n exactly once. */
  predicate IsDecomposition(p: seq<int>, cs: seq<seq<int>>) {
    IsPermutation(p) &&
    (forall k :: 0 <= k < |cs| ==> IsCycle(p, cs[k])) &&
    multiset(Flatten(cs)) == multiset(Labels(|p|))
  }

  /** A drawer whose number lies in a cycle lies in that cycle too. */
  lemma CyclePredecessor(p: seq<int>, c: seq<int>, y: int)
    requires IsPermutation(p) && IsCycle(p, c) && 1 <= y <= |p|
    requires Next(p, y) in c
    ensures y in c
  {
    var j :| 0 <= j < |c| && c[j] == Next(p, y);
    var pred := if j == 0 then c[|c| - 1] else c[j - 1];
    assert Next(p, pred) == c[j];
    NextInjective(p, y, pred);
  }

  /** Walks the cycle through `start`, which no earlier cycle visited.
      `done` holds the drawers of the cycles already found; `visited`
      marks exactly those. The ghost `members` holds the drawers of `c`. */
  method WalkCycle(p: seq<int>, visited: array<bool>, start: int, ghost done: set<int>)
    returns (c: seq<int>, ghost members: set<int>)
    requires IsPermutation(p) && visited.Length == |p|
    requires 1 <= start <= |p| && !visited[start - 1]
    requires forall i :: 0 <= i < |p| ==> (visited[i] <==> i + 1 in done)
    requires forall y :: 1 <= y <= |p| && Next(p, y) in done ==> y in done
    modifies visited
    ensures IsCycle(p, c) && c[0] == start
    ensures forall v :: v in members <==> v in c
    ensures members !! done
    ensures forall i :: 0 <= i < |p| ==> (visited[i] <==> i + 1 in done || i + 1 in members)
  {
    c, members := [start], {start};
    visited[start - 1] := true;
    ghost var unvisited := set i | 0 <= i < visited.Length && !visited[i];
    var x := Next(p, start);
    while x != start
      invariant 1 <= x <= |p|
      invariant |c| >= 1 && c[0] == start
      invariant forall j :: 0 <= j < |c| ==> 1 <= c[j] <= |p|
      invariant forall j :: 0 <= j < |c| - 1 ==> Next(p, c[j]) == c[j + 1]
      invariant x == Next(p, c[|c| - 1])
      invariant Distinct(c)
      invariant forall v :: v in members <==> v in c
      invariant members !! done
      invariant forall i :: 0 <= i < |p| ==> (visited[i] <==> i + 1 in done || i + 1 in members)
      invariant forall i :: i in unvisited <==> 0 <= i < |p| && !visited[i]
      decreases unvisited
    {
      var last := c[|c| - 1];
      assert x !in c by {
        forall j | 0 < j < |c| ensures c[j] != x {
          NextInjective(p, c[j - 1], last);
        }
      }
      assert x !in done by {
        assert last in members;
      }
      DistinctSnoc(c, x);
      c, members := c + [x], members + {x};
      visited[x - 1] := true;
      unvisited := unvisited - {x - 1};
      x := Next(p, x);
    }
  }

  /** The cycles of `p`, one per smallest drawer of a cycle, found by walking
      every unvisited drawer in increasing order. */
  method Decompose(p: seq<int>) returns (cycles: seq<seq<int>>)
    requires IsPermutation(p)
    ensures IsDecomposition(p, cycles)
  {
    var n := |p|;
    var visited := new bool[n](i => false);
    cycles := [];
    ghost var flat: seq<int> := [];
    ghost var seen: set<int> := {};
    var l := 1;
    while l <= n
      invariant 1 <= l <= n + 1
      invariant flat == Flatten(cycles)
      invariant forall k :: 0 <= k < |cycles| ==> IsCycle(p, cycles[k])
      invariant Distinct(flat)
      invariant forall v :: v in flat <==> v in seen
      invariant forall v :: v in seen ==> 1 <= v <= n
      invariant forall i :: 0 <= i < n ==> (visited[i] <==> i + 1 in seen)
      invariant forall y :: 1 <= y <= n && Next(p, y) in seen ==> y in seen
      invariant forall v :: 1 <= v < l ==> v in seen
    {
      if !visited[l - 1] {
        var c, members := WalkCycle(p, visited, l, seen);
        ExtendSeen(p, flat, seen, c, members);
        FlattenSnoc(cycles, c);
        cycles, flat, seen := cycles + [c], flat + c, seen + members;
      } else {
        assert l in seen;
      }
      l := l + 1;
    }
    DistinctLabels(flat, n);
  }

  /** Adding a newly walked cycle to the drawers already seen keeps them
      distinct, within the labels and closed under predecessors. */
  lemma ExtendSeen(p: seq<int>, flat: seq<int>, seen: set<int>, c: seq<int>, members: set<int>)
    requires IsPermutation(p) && IsCycle(p, c)
    requires Distinct(flat) && (forall v :: v in flat <==> v in seen)
    requires forall v :: v in members <==> v in c
    requires members !! seen
    requires forall y :: 1 <= y <= |p| && Next(p, y) in seen ==> y in seen
    ensures Distinct(flat + c)
    ensures forall v :: v in flat + c <==> v in seen + members
    ensures forall v :: v in members ==> 1 <= v <= |p|
    ensures forall y :: 1 <= y <= |p| && Next(p, y) in seen + members ==> y in seen + members
  {
    forall i, j | 0 <= i < j < |flat + c| ensures (flat + c)[i] != (flat + c)[j] {
      if j < |flat| {
        assert (flat + c)[i] == flat[i] && (flat + c)[j] == flat[j];
      } else if i >= |flat| {
        assert (flat + c)[i] == c[i - |flat|] && (flat + c)[j] == c[j - |flat|];
      } else {
        assert (flat + c)[i] == flat[i] && (flat + c)[j] == c[j - |flat|];
        assert flat[i] in seen && c[j - |flat|] in members;
      }
    }
    forall y | 1 <= y <= |p| && Next(p, y) in members
      ensures y in members
    {
      CyclePredecessor(p, c, y);
    }
  }

  /** A list of distinct labels that holds every label 1..n is a
      rearrangement of 1..n. */
  lemma DistinctLabels(s: seq<int>, n: nat)
    requires Distinct(s)
    requires forall v :: v in s ==> 1 <= v <= n
    requires forall v :: 1 <= v <= n ==> v in s
    ensures multiset(s) == multiset(Labels(n))
  {
    LabelsFacts(n);
    forall x ensures multiset(s)[x] == multiset(Labels(n))[x] {
      DistinctCount(s, x);
      DistinctCount(Labels(n), x);
    }
  }

  /** Two different components share no drawer. */
  lemma ComponentsDisjoint(p: seq<int>, cs: seq<seq<int>>, k1: int, k2: int, x: int)
    requires IsDecomposition(p, cs)
    requires 0 <= k1 < |cs| && 0 <= k2 < |cs| && k1 != k2
    requires x in cs[k1]
    ensures x !in cs[k2]
  {
    var a := if k1 < k2 then k1 else k2;
    var b := if k1 < k2 then k2 else k1;
    if x in cs[k2] {
      FlattenSplit(cs, b);
      FlattenSplit(cs[..b], a);
      assert cs[..b][a] == cs[a];
      assert multiset(Flatten(cs))[x] >= multiset(cs[a])[x] + multiset(cs[b])[x];
      LabelsFacts(|p|);
      DistinctCount(Labels(|p|), x);
      assert false;
    }
  }

  /** Every drawer 1..n lies in exactly one component, and nothing else lies
      in any component. */
  lemma ExactlyOneComponent(p: seq<int>, cs: seq<seq<int>>, v: int)
    requires IsDecomposition(p, cs)
    ensures (exists k :: 0 <= k < |cs| && v in cs[k]) <==> 1 <= v <= |p|
    ensures forall k1, k2 :: 0 <= k1 < |cs| && 0 <= k2 < |cs| && v in cs[k1] && v in cs[k2] ==> k1 == k2
  {
    LabelsFacts(|p|);
    FlattenMember(cs, v);
    assert v in Flatten(cs) <==> v in multiset(Flatten(cs));
    assert v in Labels(|p|) <==> v in multiset(Labels(|p|));
    forall k1, k2 | 0 <= k1 < |cs| && 0 <= k2 < |cs| && v in cs[k1] && v in cs[k2]
      ensures k1 == k2
    {
      if k1 != k2 {
        ComponentsDisjoint(p, cs, k1, k2, v);
      }
    }
  }

  /** The components' lengths add up to n, and each lies between 1 and n. */
  lemma ComponentLengths(p: seq<int>, cs: seq<seq<int>>)
    requires IsDecomposition(p, cs)
    ensures |Flatten(cs)| == |p|
    ensures forall k :: 0 <= k < |cs| ==> 1 <= |cs[k]| <= |p|
  {
    calc {
      |Flatten(cs)|;
      |multiset(Flatten(cs))|;
      |multiset(Labels(|p|))|;
      |Labels(|p|)|;
    }
    forall k | 0 <= k < |cs| ensures |cs[k]| <= |p| {
      FlattenSplit(cs, k);
    }
  }

  /** Following the numbers from position `j` of a cycle for `k` steps
      reaches position `j + k`, wrapping round past the end. */
  lemma {:induction false} IterateInCycle(p: seq<int>, c: seq<int>, j: int, k: nat)
    requires IsPermutation(p) && IsCycle(p, c)
    requires 0 <= j < |c| && k < |c|
    ensures Iterate(p, c[j], k) == c[if j + k < |c| then j + k else j + k - |c|]
  {
    if j + k < |c| {
      WalkForward(p, c, j, k);
    } else {
      WalkForward(p, c, j, |c| - 1 - j);
      IterateAdd(p, c[j], |c| - 1 - j, 1);
      assert Iterate(p, c[j], |c| - j) == c[0];
      IterateAdd(p, c[j], |c| - j, j + k - |c|);
      WalkForward(p, c, 0, j + k - |c|);
    }
  }

  lemma {:induction false} WalkForward(p: seq<int>, c: seq<int>, j: int, k: nat)
    requires IsPermutation(p) && IsCycle(p, c)
    requires 0 <= j && j + k < |c|
    ensures Iterate(p, c[j], k) == c[j + k]
    decreases k
  {
    if k > 0 {
      assert Next(p, c[j]) == c[j + 1];
      WalkForward(p, c, j + 1, k - 1);
    }
  }

  /** Starting from any drawer of a cycle, following the numbers as many
      times as the cycle is long returns to that drawer, and no fewer
      steps do. */
  lemma CycleReturns(p: seq<int>, c: seq<int>, j: int)
    requires IsPermutation(p) && IsCycle(p, c)
    requires 0 <= j < |c|
    ensures Iterate(p, c[j], |c|) == c[j]
    ensures forall k :: 0 < k < |c| ==> Iterate(p, c[j], k) != c[j]
  {
    IterateInCycle(p, c, j, |c| - 1);
    IterateAdd(p, c[j], |c| - 1, 1);
    forall k | 0 < k < |c| ensures Iterate(p, c[j], k) != c[j] {
      IterateInCycle(p, c, j, k);
    }
  }

  /** The drawers of a cycle are exactly those reached from any one of
      them in fewer steps than the cycle's length. */
  lemma CycleIsOrbit(p: seq<int>, c: seq<int>, j: int, x: int)
    requires IsPermutation(p) && IsCycle(p, c)
    requires 0 <= j < |c|
    ensures x in c <==> exists k :: 0 <= k < |c| && Iterate(p, c[j], k) == x
  {
    if x in c {
      var i :| 0 <= i < |c| && c[i] == x;
      var k := if i >= j then i - j else |c| - j + i;
      IterateInCycle(p, c, j, k);
    }
    if exists k :: 0 <= k < |c| && Iterate(p, c[j], k) == x {
      var k :| 0 <= k < |c| && Iterate(p, c[j], k) == x;
      IterateInCycle(p, c, j, k);
    }
  }

  /** Two cycles of the same permutation that share a drawer have the same
      length and the same drawers: the cycle through a drawer is unique. */
  lemma CycleUnique(p: seq<int>, c1: seq<int>, c2: seq<int>, v: int)
    requires IsPermutation(p) && IsCycle(p, c1) && IsCycle(p, c2)
    requires v in c1 && v in c2
    ensures |c1| == |c2|
    ensures forall x :: x in c1 <==> x in c2
  {
    var j1 :| 0 <= j1 < |c1| && c1[j1] == v;
    var j2 :| 0 <= j2 < |c2| && c2[j2] == v;
    CycleReturns(p, c1, j1);
    CycleReturns(p, c2, j2);
    forall x ensures x in c1 <==> x in c2 {
      CycleIsOrbit(p, c1, j1, x);
      CycleIsOrbit(p, c2, j2, x);
    }
  }

  /** A drawer holding its own number is a cycle of length 1 by itself. */
  lemma FixedPointCycle(p: seq<int>, c: seq<int>, v: int)
    requires IsPermutation(p) && IsCycle(p, c)
    requires v in c && Next(p, v) == v
    ensures c == [v]
  {
    var j :| 0 <= j < |c| && c[j] == v;
    CycleReturns(p, c, j);
    assert Iterate(p, v, 1) == v;
    assert |c| == 1;
    assert c == [c[0]];
  }
}
