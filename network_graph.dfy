/** The `Graph` built from one shuffle: the drawer map, its edges, the
    components sorted by size (largest first), their number and sizes. */
module NetworkGraph {
  import opened Seqs
  import opened Permutation
  import opened Cycles

  /** The dictionary from drawer label `i` (1-based) to the number in it,
      as built by zipping 1..n with the list of numbers. */
  function DrawerMap(p: seq<int>): (m: map<int, int>)
    ensures forall i :: 1 <= i <= |p| ==> i in m && m[i] == Next(p, i)
    ensures forall i :: i in m ==> 1 <= i <= |p|
  {
    LabelsFacts(|p|);
    map i | i in Labels(|p|) :: p[i - 1]
  }

  /** The edges added to the graph: one pair (drawer, number) per drawer. */
  function Edges(p: seq<int>): set<(int, int)> {
    DrawerMap(p).Items
  }

  /** The graph is undirected: `a` and `b` are joined by an edge one way or
      the other. */
  predicate Adjacent(p: seq<int>, a: int, b: int) {
    (a, b) in Edges(p) || (b, a) in Edges(p)
  }

  /** An edge joins drawer `a` to the number in it, and for a permutation
      both ends are drawer labels. */
  lemma EdgesOfDrawers(p: seq<int>, a: int, b: int)
    ensures (a, b) in Edges(p) <==> 1 <= a <= |p| && b == Next(p, a)
    ensures IsPermutation(p) && (a, b) in Edges(p) ==> 1 <= b <= |p|
  {
    var m := DrawerMap(p);
    if (a, b) in m.Items {
      assert a in m && m[a] == b;
    }
    if 1 <= a <= |p| && b == Next(p, a) {
      assert a in m && m[a] == b;
      assert (a, b) in m.Items;
    }
  }

  /** Each component is a connected component of the undirected graph:
      consecutive drawers of the cycle are joined by an edge, and no edge
      leaves the component. */
  lemma ComponentsAreConnectedComponents(p: seq<int>, cs: seq<seq<int>>, k: int)
    requires IsDecomposition(p, cs) && 0 <= k < |cs|
    ensures forall j :: 0 <= j < |cs[k]| - 1 ==> Adjacent(p, cs[k][j], cs[k][j + 1])
    ensures forall x, y :: x in cs[k] && Adjacent(p, x, y) ==> y in cs[k]
  {
    var c := cs[k];
    forall j | 0 <= j < |c| - 1 ensures Adjacent(p, c[j], c[j + 1]) {
      EdgesOfDrawers(p, c[j], c[j + 1]);
    }
    forall x, y | x in c && Adjacent(p, x, y) ensures y in c {
      EdgesOfDrawers(p, x, y);
      EdgesOfDrawers(p, y, x);
      if (x, y) in Edges(p) {
        var j :| 0 <= j < |c| && c[j] == x;
        assert Next(p, c[j]) == c[if j < |c| - 1 then j + 1 else 0];
      } else {
        ExactlyOneComponent(p, cs, y);
        var k' :| 0 <= k' < |cs| && y in cs[k'];
        assert Next(p, y) in cs[k'] by {
          var j :| 0 <= j < |cs[k']| && cs[k'][j] == y;
          assert Next(p, cs[k'][j]) == cs[k'][if j < |cs[k']| - 1 then j + 1 else 0];
        }
        ExactlyOneComponent(p, cs, x);
        assert k' == k;
      }
    }
  }

  /** Components are ordered from largest to smallest. */
  predicate SortedBySize(cs: seq<seq<int>>) {
    forall i, j :: 0 <= i < j < |cs| ==> |cs[i]| >= |cs[j]|
  }

  /** Inserts `c` into a list sorted by size, after every strictly larger
      entry and before the rest, so that earlier entries of equal size stay
      first. */
  function InsertBySize(c: seq<int>, cs: seq<seq<int>>): (r: seq<seq<int>>)
    ensures multiset(r) == multiset(cs) + multiset{c}
  {
    if cs == [] || |cs[0]| <= |c| then
      [c] + cs
    else
      assert cs == [cs[0]] + cs[1..];
      [cs[0]] + InsertBySize(c, cs[1..])
  }

  lemma {:induction false} InsertKeepsElements(c: seq<int>, cs: seq<seq<int>>)
    ensures multiset(Flatten(InsertBySize(c, cs))) == multiset(c) + multiset(Flatten(cs))
  {
    var r := InsertBySize(c, cs);
    if cs == [] || |cs[0]| <= |c| {
      assert r[0] == c && r[1..] == cs;
    } else {
      InsertKeepsElements(c, cs[1..]);
      assert r[0] == cs[0] && r[1..] == InsertBySize(c, cs[1..]);
    }
  }

  lemma {:induction false} InsertKeepsSorted(c: seq<int>, cs: seq<seq<int>>)
    requires SortedBySize(cs)
    ensures SortedBySize(InsertBySize(c, cs))
  {
    var r := InsertBySize(c, cs);
    if cs == [] || |cs[0]| <= |c| {
      assert r[0] == c && r[1..] == cs;
    } else {
      var rest := InsertBySize(c, cs[1..]);
      InsertKeepsSorted(c, cs[1..]);
      assert r == [cs[0]] + rest;
      forall i | 0 <= i < |rest| ensures |cs[0]| >= |rest[i]| {
        assert rest[i] in multiset(rest);
        if rest[i] != c {
          assert rest[i] in multiset(cs[1..]);
          var j :| 0 <= j < |cs[1..]| && cs[1..][j] == rest[i];
          assert cs[j + 1] == rest[i];
        }
      }
    }
  }

  /** Python's stable `sorted(..., key=len, reverse=True)`: an insertion sort
      by size, largest first. */
  function SortBySize(cs: seq<seq<int>>): (r: seq<seq<int>>)
    ensures multiset(r) == multiset(cs)
    ensures SortedBySize(r)
  {
    if cs == [] then []
    else
      var rest := SortBySize(cs[1..]);
      SortStep(cs, rest);
      InsertBySize(cs[0], rest)
  }

  lemma SortStep(cs: seq<seq<int>>, rest: seq<seq<int>>)
    requires cs != [] && multiset(rest) == multiset(cs[1..]) && SortedBySize(rest)
    ensures multiset(InsertBySize(cs[0], rest)) == multiset(cs)
    ensures SortedBySize(InsertBySize(cs[0], rest))
  {
    InsertKeepsSorted(cs[0], rest);
    assert cs == [cs[0]] + cs[1..];
  }

  lemma {:induction false} SortKeepsElements(cs: seq<seq<int>>)
    ensures multiset(Flatten(SortBySize(cs))) == multiset(Flatten(cs))
  {
    if cs != [] {
      SortKeepsElements(cs[1..]);
      InsertKeepsElements(cs[0], SortBySize(cs[1..]));
    }
  }

  /** Reordering the components of a decomposition gives a decomposition. */
  lemma DecompositionReordered(p: seq<int>, cs: seq<seq<int>>, ds: seq<seq<int>>)
    requires IsDecomposition(p, cs)
    requires multiset(ds) == multiset(cs) && multiset(Flatten(ds)) == multiset(Flatten(cs))
    ensures IsDecomposition(p, ds)
  {
    forall k | 0 <= k < |ds| ensures IsCycle(p, ds[k]) {
      assert ds[k] in multiset(cs);
      var k' :| 0 <= k' < |cs| && cs[k'] == ds[k];
    }
  }

  /** The size list: the length of each component, in order. */
  function Sizes(cs: seq<seq<int>>): (r: seq<int>)
    ensures |r| == |cs|
    ensures forall k :: 0 <= k < |cs| ==> r[k] == |cs[k]|
  {
    seq(|cs|, k requires 0 <= k < |cs| => |cs[k]|)
  }

  lemma {:induction false} SumOfSizes(cs: seq<seq<int>>)
    ensures Sum(Sizes(cs)) == |Flatten(cs)|
  {
    if cs != [] {
      assert Sizes(cs)[1..] == Sizes(cs[1..]);
      SumOfSizes(cs[1..]);
    }
  }

  /** `cs` decomposes `p` into its cycles and lists them largest first. */
  ghost predicate SortedDecomposition(p: seq<int>, cs: seq<seq<int>>) {
    IsDecomposition(p, cs) && SortedBySize(cs)
  }

  /** Every entry of `s` lies between `lo` and `hi`. */
  predicate AllBetween(s: seq<int>, lo: int, hi: int) {
    forall k :: 0 <= k < |s| ==> lo <= s[k] <= hi
  }

  /** Each entry of `s` is at least as large as every later one. */
  predicate NonIncreasing(s: seq<int>) {
    forall i, j :: 0 <= i < j < |s| ==> s[i] >= s[j]
  }

  /** The size list of a decomposition sorted by size is non-increasing,
      sums to n, and holds sizes between 1 and n. */
  lemma SizesFacts(p: seq<int>, cs: seq<seq<int>>)
    requires IsDecomposition(p, cs) && SortedBySize(cs)
    ensures Sum(Sizes(cs)) == |p|
    ensures AllBetween(Sizes(cs), 1, |p|)
    ensures NonIncreasing(Sizes(cs))
  {
    SumOfSizes(cs);
    ComponentLengths(p, cs);
  }

  /** Python's `Graph`: built from the drawer contents, it holds the edges,
      the components sorted by size, their number and their sizes. */
  class Graph {
    var edges: set<(int, int)>
    var connectedComponents: seq<seq<int>>
    var numComponents: nat
    var subgraphNodesNum: seq<int>

    /** The fields are those of the graph of `prisonerNumbers`: its edges,
        its components as a decomposition sorted largest first, their
        number, and their sizes, which lie in 1..n, never increase and sum
        to n. */
    ghost predicate Describes(prisonerNumbers: seq<int>)
      reads this
    {
      && edges == Edges(prisonerNumbers)
      && SortedDecomposition(prisonerNumbers, connectedComponents)
      && numComponents == |connectedComponents| == |subgraphNodesNum|
      && subgraphNodesNum == Sizes(connectedComponents)
      && Sum(subgraphNodesNum) == |prisonerNumbers|
      && AllBetween(subgraphNodesNum, 1, |prisonerNumbers|)
      && NonIncreasing(subgraphNodesNum)
    }

    constructor (prisonerNumbers: seq<int>)
      requires IsPermutation(prisonerNumbers)
      ensures Describes(prisonerNumbers)
    {
      var graphDict := DrawerMap(prisonerNumbers);
      edges := graphDict.Items;
      var cycles := Decompose(prisonerNumbers);
      var sorted := SortBySize(cycles);
      SortKeepsElements(cycles);
      DecompositionReordered(prisonerNumbers, cycles, sorted);
      SizesFacts(prisonerNumbers, sorted);
      connectedComponents := sorted;
      numComponents := |sorted|;
      subgraphNodesNum := Sizes(sorted);
    }
  }

  /** The identity arrangement (and so a single drawer) has one component
      of size 1 per drawer. */
  lemma IdentityComponents(n: nat, cs: seq<seq<int>>)
    requires IsDecomposition(Labels(n), cs)
    ensures |cs| == n
    ensures forall k :: 0 <= k < |cs| ==> cs[k] == [cs[k][0]]
    ensures Sizes(cs) == seq(n, _ => 1)
  {
    IdentityIsPermutation(n);
    forall k | 0 <= k < |cs| ensures cs[k] == [cs[k][0]] {
      FixedPointCycle(Labels(n), cs[k], cs[k][0]);
    }
    UniformSizes(Labels(n), cs, 1);
  }

  /** A decomposition whose components all have size `size` has n / size
      of them. */
  lemma UniformSizes(p: seq<int>, cs: seq<seq<int>>, size: int)
    requires IsDecomposition(p, cs)
    requires forall k :: 0 <= k < |cs| ==> |cs[k]| == size
    ensures |cs| * size == |p|
    ensures Sizes(cs) == seq(|cs|, _ => size)
  {
    SumOfSizes(cs);
    ComponentLengths(p, cs);
    SumConstant(Sizes(cs), size);
  }

  /** Every cycle of the drawers [2,1,4,3] is {1,2} or {3,4}. */
  lemma CyclesOfTwoPairs(c: seq<int>)
    requires IsCycle([2, 1, 4, 3], c)
    ensures |c| == 2
    ensures (forall x :: x in c <==> x in [1, 2]) || (forall x :: x in c <==> x in [3, 4])
  {
    var p := [2, 1, 4, 3];
    assert IsPermutation(p);
    if c[0] <= 2 {
      assert IsCycle(p, [1, 2]) && c[0] in [1, 2];
      CycleUnique(p, c, [1, 2], c[0]);
    } else {
      assert IsCycle(p, [3, 4]) && c[0] in [3, 4];
      CycleUnique(p, c, [3, 4], c[0]);
    }
  }

  /** Drawers [2,1,4,3] form the components {1,2} and {3,4}, sizes [2,2]. */
  lemma ExampleTwoPairs(cs: seq<seq<int>>)
    requires IsDecomposition([2, 1, 4, 3], cs)
    ensures Sizes(cs) == [2, 2]
    ensures forall k :: 0 <= k < |cs| ==>
      (forall x :: x in cs[k] <==> x in [1, 2]) || (forall x :: x in cs[k] <==> x in [3, 4])
    ensures exists k :: 0 <= k < |cs| && 1 in cs[k]
    ensures exists k :: 0 <= k < |cs| && 3 in cs[k]
  {
    ExactlyOneComponent([2, 1, 4, 3], cs, 1);
    ExactlyOneComponent([2, 1, 4, 3], cs, 3);
    forall k | 0 <= k < |cs|
      ensures |cs[k]| == 2
      ensures (forall x :: x in cs[k] <==> x in [1, 2]) || (forall x :: x in cs[k] <==> x in [3, 4])
    {
      CyclesOfTwoPairs(cs[k]);
    }
    UniformSizes([2, 1, 4, 3], cs, 2);
  }

  /** The only cycle of the drawers [2,3,1] is {1,2,3}. */
  lemma CyclesOfThreeCycle(c: seq<int>)
    requires IsCycle([2, 3, 1], c)
    ensures |c| == 3
    ensures forall x :: x in c <==> x in [1, 2, 3]
  {
    var p := [2, 3, 1];
    assert IsPermutation(p);
    assert IsCycle(p, [1, 2, 3]) && c[0] in [1, 2, 3];
    CycleUnique(p, c, [1, 2, 3], c[0]);
  }

  /** Drawers [2,3,1] form the single component {1,2,3}, sizes [3]. */
  lemma ExampleOneCycle(cs: seq<seq<int>>)
    requires IsDecomposition([2, 3, 1], cs)
    ensures Sizes(cs) == [3]
    ensures forall x :: x in cs[0] <==> x in [1, 2, 3]
  {
    forall k | 0 <= k < |cs|
      ensures |cs[k]| == 3
      ensures forall x :: x in cs[k] <==> x in [1, 2, 3]
    {
      CyclesOfThreeCycle(cs[k]);
    }
    UniformSizes([2, 3, 1], cs, 3);
  }
}
