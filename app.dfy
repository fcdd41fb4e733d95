/** The app's running tally of component sizes. Each rerun of the script
    builds a fresh `Graph` from the shuffled drawers and adds its size list
    to the session state under the key "subgraph_nodes_num". */
module App {
  import opened Seqs
  import opened Permutation
  import opened Cycles
  import opened NetworkGraph

  datatype Option<T> = None | Some(value: T)

  /** The part of `st.session_state` the app writes: the list stored under
      "subgraph_nodes_num", `None` while the key is absent. */
  class SessionState {
    var subgraphNodesNum: Option<seq<int>>
    /** The size lists recorded so far, one per run, in order. */
    ghost var runs: seq<seq<int>>

    ghost predicate Valid()
      reads this
    {
      subgraphNodesNum == if runs == [] then None else Some(Flatten(runs))
    }

    /** The stored list, or the empty list while the key is absent. */
    function Stored(): seq<int>
      reads this
    {
      if subgraphNodesNum.Some? then subgraphNodesNum.value else []
    }

    /** A new session: the key is absent. */
    constructor ()
      ensures Valid() && runs == [] && subgraphNodesNum == None
    {
      subgraphNodesNum := None;
      runs := [];
    }

    /** Stores this run's sizes: sets the key on the first run, extends the
        stored list with `+=` on every later one. */
    method Record(sizes: seq<int>)
      requires Valid()
      modifies this
      ensures Valid() && runs == old(runs) + [sizes]
      ensures old(subgraphNodesNum).None? ==> subgraphNodesNum == Some(sizes)
      ensures old(subgraphNodesNum).Some? ==>
        subgraphNodesNum == Some(old(subgraphNodesNum).value + sizes)
      ensures Stored() == old(Stored()) + sizes
      ensures old(Stored()) <= Stored()
    {
      if subgraphNodesNum.None? {
        subgraphNodesNum := Some(sizes);
      } else {
        subgraphNodesNum := Some(subgraphNodesNum.value + sizes);
      }
      FlattenSnoc(runs, sizes);
      assert runs == [] ==> Flatten(runs + [sizes]) == sizes;
      runs := runs + [sizes];
    }

    /** One rerun of the script: the graph of this shuffle, then its sizes
        recorded. The stored list grows by exactly the number of components,
        and its sum by the number of drawers. */
    method Rerun(prisonerNumbers: seq<int>) returns (graph: Graph)
      requires Valid() && IsPermutation(prisonerNumbers)
      modifies this
      ensures fresh(graph) && SortedDecomposition(prisonerNumbers, graph.connectedComponents)
      ensures graph.subgraphNodesNum == Sizes(graph.connectedComponents)
      ensures graph.numComponents == |graph.connectedComponents|
      ensures Valid() && runs == old(runs) + [graph.subgraphNodesNum]
      ensures Stored() == old(Stored()) + graph.subgraphNodesNum
      ensures |Stored()| == |old(Stored())| + graph.numComponents
      ensures Sum(Stored()) == Sum(old(Stored())) + |prisonerNumbers|
      ensures AllBetween(Stored()[|old(Stored())|..], 1, |prisonerNumbers|)
    {
      ghost var before := Stored();
      graph := new Graph(prisonerNumbers);
      var sizes := graph.subgraphNodesNum;
      AppendSizes(before, sizes, |prisonerNumbers|);
      Record(sizes);
    }
  }

  /** Appending a size list that sums to `n`, with entries between 1 and
      `n`, adds `n` to the sum and only such entries. */
  lemma AppendSizes(before: seq<int>, sizes: seq<int>, n: int)
    requires Sum(sizes) == n
    requires AllBetween(sizes, 1, n)
    ensures Sum(before + sizes) == Sum(before) + n
    ensures AllBetween((before + sizes)[|before|..], 1, n)
  {
    SumAppend(before, sizes);
    assert (before + sizes)[|before|..] == sizes;
  }

  lemma AllBetweenConcat(a: seq<int>, b: seq<int>, lo: int, hi: int)
    requires AllBetween(a, lo, hi) && AllBetween(b, lo, hi)
    ensures AllBetween(a + b, lo, hi)
  {
    forall k | 0 <= k < |a + b| ensures lo <= (a + b)[k] <= hi {
      if k >= |a| {
        assert (a + b)[k] == b[k - |a|];
      }
    }
  }

  /** The stored sizes after `runs` reruns over `n` drawers: they sum to
      `runs * n` and each lies between 1 and n. */
  predicate Tally(stored: seq<int>, runs: nat, n: nat) {
    Sum(stored) == runs * n && AllBetween(stored, 1, n)
  }

  /** One more rerun keeps the tally. */
  lemma TallyStep(before: seq<int>, after: seq<int>, runs: nat, n: nat)
    requires Tally(before, runs, n)
    requires |before| <= |after| && after == before + after[|before|..]
    requires Sum(after) == Sum(before) + n
    requires AllBetween(after[|before|..], 1, n)
    ensures Tally(after, runs + 1, n)
  {
    AllBetweenConcat(before, after[|before|..], 1, n);
    assert (runs + 1) * n == runs * n + n;
  }

  /** The size list of each decomposition in `css`, in order. */
  function SizeLists(css: seq<seq<seq<int>>>): (r: seq<seq<int>>)
    ensures |r| == |css|
    ensures forall i :: 0 <= i < |css| ==> r[i] == Sizes(css[i])
  {
    seq(|css|, i requires 0 <= i < |css| => Sizes(css[i]))
  }

  /** The first |components| shuffles, each with the components its graph
      found: a decomposition sorted largest first. */
  ghost predicate RunsOf(shuffles: seq<seq<int>>, components: seq<seq<seq<int>>>) {
    |components| <= |shuffles| &&
    forall j :: 0 <= j < |components| ==> SortedDecomposition(shuffles[j], components[j])
  }

  /** One more run extends the runs and their size lists by one entry. */
  lemma RunsStep(shuffles: seq<seq<int>>, components: seq<seq<seq<int>>>, cs: seq<seq<int>>)
    requires RunsOf(shuffles, components) && |components| < |shuffles|
    requires SortedDecomposition(shuffles[|components|], cs)
    ensures RunsOf(shuffles, components + [cs])
    ensures SizeLists(components + [cs]) == SizeLists(components) + [Sizes(cs)]
  {
    var next := components + [cs];
    forall j | 0 <= j < |next| ensures SortedDecomposition(shuffles[j], next[j]) {
      if j < |components| {
        assert next[j] == components[j];
      }
    }
  }

  /** A session rerun once per shuffle, each a permutation of 1..n: the key
      is present exactly when there was a run, and the stored list is the
      concatenation of the runs' size lists, each read off that run's
      components sorted largest first. The stored sizes, each between 1 and
      n, sum to the number of runs times n. */
  method SimulateRuns(shuffles: seq<seq<int>>, n: nat)
    returns (stored: Option<seq<int>>, ghost components: seq<seq<seq<int>>>)
    requires forall i :: 0 <= i < |shuffles| ==> IsPermutation(shuffles[i]) && |shuffles[i]| == n
    ensures stored.None? <==> shuffles == []
    ensures |components| == |shuffles| && RunsOf(shuffles, components)
    ensures stored.Some? ==> stored.value == Flatten(SizeLists(components))
    ensures stored.Some? ==> Sum(stored.value) == |shuffles| * n
    ensures stored.Some? ==> AllBetween(stored.value, 1, n)
  {
    var session := new SessionState();
    components := [];
    var i := 0;
    while i < |shuffles|
      invariant 0 <= i <= |shuffles|
      invariant fresh(session) && session.Valid()
      invariant session.subgraphNodesNum.None? <==> i == 0
      invariant Tally(session.Stored(), i, n)
      invariant |components| == i && RunsOf(shuffles, components)
      invariant session.runs == SizeLists(components)
    {
      ghost var before := session.Stored();
      var graph := session.Rerun(shuffles[i]);
      TallyStep(before, session.Stored(), i, n);
      RunsStep(shuffles, components, graph.connectedComponents);
      components := components + [graph.connectedComponents];
      i := i + 1;
    }
    stored := session.subgraphNodesNum;
  }

  /** A fresh session rerun once over the drawers [2,1,4,3] stores the
      sizes [2,2]. */
  method FirstRunExample() returns (stored: Option<seq<int>>)
    ensures stored == Some([2, 2])
  {
    var session := new SessionState();
    var graph := session.Rerun([2, 1, 4, 3]);
    ExampleTwoPairs(graph.connectedComponents);
    stored := session.subgraphNodesNum;
  }
}
