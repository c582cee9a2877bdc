/** The evaluation scenarios of src/test.rs, stated on the network
    equations with the identity activation: whatever values satisfy the
    equations of the network built there, the outputs are the ones the
    tests expect. */
module Scenarios {
  import opened Nodes
  import opened Graphs
  import opened Networks
  import opened Genomes
  import opened Records

  function Identity(x: real): real { x }

  /** One input (node 0), the bias (node 1) and one output (node 2), joined 0 -> 2. */
  function OneEdge(weight: real, active: bool): Adjacency
  {
    [[Connection(2, 1, weight, active)], [], []]
  }

  lemma InDegOneEdge(weight: real, active: bool, vals: seq<real>)
    requires |vals| == 3
    ensures InDeg(OneEdge(weight, active), 0) == 0 && InDeg(OneEdge(weight, active), 1) == 0
    ensures InDeg(OneEdge(weight, active), 2) == (if active then 1 else 0)
    ensures InSum(OneEdge(weight, active), vals, 2) == (if active then vals[0] * weight else 0.0)
  {
    var g := OneEdge(weight, active);
    var R := Range(3);
    assert g[0][..0] == [] && g[1] == [] && g[2] == [];
    assert 0 in R && 1 in R && 2 in R;
    forall x ensures InDeg(g, x) == ConnCount(g[0], x) && InSum(g, vals, x) == ConnSum(g[0], vals[0], x) {
      assert CountFrom(g, x, R, 1) == ConnCount(g[0], x);
      assert CountFrom(g, x, R, 2) == CountFrom(g, x, R, 1);
      assert SumFrom(g, vals, x, R, 1) == ConnSum(g[0], vals[0], x);
      assert SumFrom(g, vals, x, R, 2) == SumFrom(g, vals, x, R, 1);
    }
    assert ConnSum(g[0], vals[0], 2) == ConnSum([], vals[0], 2) + (if active then vals[0] * weight else 0.0);
  }

  /** add_edge (src/test.rs:32-39): a single connection of weight 15 carries the input 1.0 as 15.0. */
  lemma SingleEdgeScenario(vals: seq<real>)
    requires NetworkEquations(OneEdge(15.0, true), Init([1.0], 3, 1), Identity, vals)
    ensures vals[2..3] == [15.0]
  {
    InDegOneEdge(15.0, true, vals);
    assert Settled(OneEdge(15.0, true), Init([1.0], 3, 1), Identity, vals, 0);
    assert Settled(OneEdge(15.0, true), Init([1.0], 3, 1), Identity, vals, 2);
  }

  /** disable_edge (src/test.rs:42-54): with the connection disabled the output
      keeps its start value 0.0; enabled again it is 15.0. */
  lemma DisabledEdgeScenario(off: seq<real>, on: seq<real>)
    requires NetworkEquations(OneEdge(15.0, false), Init([1.0], 3, 1), Identity, off)
    requires NetworkEquations(OneEdge(15.0, true), Init([1.0], 3, 1), Identity, on)
    ensures off[2..3] == [0.0] && on[2..3] == [15.0]
  {
    InDegOneEdge(15.0, false, off);
    assert Settled(OneEdge(15.0, false), Init([1.0], 3, 1), Identity, off, 2);
    SingleEdgeScenario(on);
  }

  /** Input i of the fully connected 4-by-4 genome: weight-1 connections to the outputs 5..8. */
  function Row(i: int): seq<Connection>
  {
    [Connection(5, i * 4, 1.0, true), Connection(6, i * 4 + 1, 1.0, true),
     Connection(7, i * 4 + 2, 1.0, true), Connection(8, i * 4 + 3, 1.0, true)]
  }

  /** Inputs 0..3, bias 4, outputs 5..8; every input feeds every output. */
  function FullyConnected(): Adjacency
  {
    [Row(0), Row(1), Row(2), Row(3), [], [], [], [], []]
  }

  lemma RowFeedsOnce(i: int, a: real, x: int)
    ensures ConnCount(Row(i), x) == (if 5 <= x < 9 then 1 else 0)
    ensures ConnSum(Row(i), a, x) == (if 5 <= x < 9 then a else 0.0)
  {
    var r := Row(i);
    assert r[..0] == [] && r[..4] == r;
    ConnPrefixStep(r, 0, a, x);
    ConnPrefixStep(r, 1, a, x);
    ConnPrefixStep(r, 2, a, x);
    ConnPrefixStep(r, 3, a, x);
  }

  /** The shape of FullyConnected, as facts about an arbitrary graph g and source set R. */
  ghost predicate FanShape(g: Adjacency, R: set<int>)
  {
    && |g| == 9
    && (forall i :: 0 <= i < 4 ==> g[i] == Row(i))
    && (forall i :: 4 <= i < 9 ==> g[i] == [])
    && (forall i :: 0 <= i < 9 ==> i in R)
  }

  lemma FanShapeHolds()
    ensures FanShape(FullyConnected(), Range(9))
  {
  }

  /** The number of connections entering x comes from the four inputs, one each. */
  lemma FullyConnectedInDeg(x: int)
    ensures InDeg(FullyConnected(), x) == (if 5 <= x < 9 then 4 else 0)
  {
    FanShapeHolds();
    FanInDeg(FullyConnected(), Range(9), x);
  }

  lemma FanInDeg(g: Adjacency, R: set<int>, x: int)
    requires FanShape(g, R)
    ensures CountFrom(g, x, R, 9) == (if 5 <= x < 9 then 4 else 0)
  {
    RowFeedsOnce(0, 0.0, x);
    RowFeedsOnce(1, 0.0, x);
    RowFeedsOnce(2, 0.0, x);
    RowFeedsOnce(3, 0.0, x);
    assert CountFrom(g, x, R, 1) == ConnCount(Row(0), x);
    assert CountFrom(g, x, R, 2) == CountFrom(g, x, R, 1) + ConnCount(Row(1), x);
    assert CountFrom(g, x, R, 3) == CountFrom(g, x, R, 2) + ConnCount(Row(2), x);
    assert CountFrom(g, x, R, 4) == CountFrom(g, x, R, 3) + ConnCount(Row(3), x);
    assert CountFrom(g, x, R, 5) == CountFrom(g, x, R, 4) && g[4] == [];
    assert CountFrom(g, x, R, 6) == CountFrom(g, x, R, 5) && g[5] == [];
    assert CountFrom(g, x, R, 7) == CountFrom(g, x, R, 6) && g[6] == [];
    assert CountFrom(g, x, R, 8) == CountFrom(g, x, R, 7) && g[7] == [];
    assert CountFrom(g, x, R, 9) == CountFrom(g, x, R, 8) && g[8] == [];
  }

  /** The weighted input of x is the sum of the four inputs' values when x is an output. */
  lemma FullyConnectedInSum(vals: seq<real>, x: int)
    requires |vals| == 9
    ensures InSum(FullyConnected(), vals, x) == (if 5 <= x < 9 then vals[0] + vals[1] + vals[2] + vals[3] else 0.0)
  {
    FanShapeHolds();
    FanInSum(FullyConnected(), Range(9), vals, x);
  }

  lemma FanInSum(g: Adjacency, R: set<int>, vals: seq<real>, x: int)
    requires FanShape(g, R) && |vals| == 9
    ensures SumFrom(g, vals, x, R, 9) == (if 5 <= x < 9 then vals[0] + vals[1] + vals[2] + vals[3] else 0.0)
  {
    RowFeedsOnce(0, vals[0], x);
    RowFeedsOnce(1, vals[1], x);
    RowFeedsOnce(2, vals[2], x);
    RowFeedsOnce(3, vals[3], x);
    assert SumFrom(g, vals, x, R, 1) == ConnSum(Row(0), vals[0], x);
    assert SumFrom(g, vals, x, R, 2) == SumFrom(g, vals, x, R, 1) + ConnSum(Row(1), vals[1], x);
    assert SumFrom(g, vals, x, R, 3) == SumFrom(g, vals, x, R, 2) + ConnSum(Row(2), vals[2], x);
    assert SumFrom(g, vals, x, R, 4) == SumFrom(g, vals, x, R, 3) + ConnSum(Row(3), vals[3], x);
    assert SumFrom(g, vals, x, R, 5) == SumFrom(g, vals, x, R, 4) && g[4] == [];
    assert SumFrom(g, vals, x, R, 6) == SumFrom(g, vals, x, R, 5) && g[5] == [];
    assert SumFrom(g, vals, x, R, 7) == SumFrom(g, vals, x, R, 6) && g[6] == [];
    assert SumFrom(g, vals, x, R, 8) == SumFrom(g, vals, x, R, 7) && g[7] == [];
    assert SumFrom(g, vals, x, R, 9) == SumFrom(g, vals, x, R, 8) && g[8] == [];
  }

  /** fully_connected (src/test.rs:7-18): four inputs of 1.0, every one feeding
      every output with weight 1, give 4.0 on each of the four outputs. */
  lemma FullyConnectedScenario(vals: seq<real>)
    requires NetworkEquations(FullyConnected(), Init([1.0, 1.0, 1.0, 1.0], 9, 4), Identity, vals)
    ensures vals[5..9] == [4.0, 4.0, 4.0, 4.0]
  {
    var g := FullyConnected();
    var init := Init([1.0, 1.0, 1.0, 1.0], 9, 4);
    forall x | 0 <= x < 9 ensures vals[x] == if x < 4 then 1.0 else if x == 4 then 1.0 else if 5 <= x then 4.0 else 0.0 {
      FullyConnectedInDeg(x);
      FullyConnectedInSum(vals, x);
      assert Settled(g, init, Identity, vals, x);
      if 5 <= x {
        forall i | 0 <= i < 4 ensures vals[i] == 1.0 {
          FullyConnectedInDeg(i);
          FullyConnectedInSum(vals, i);
          assert Settled(g, init, Identity, vals, i);
        }
      }
    }
  }

  lemma FullyConnectedAcyclic()
    ensures !HasCycle(FullyConnected())
  {
    var g := FullyConnected();
    var rank := [1, 1, 1, 1, 1, 0, 0, 0, 0];
    forall u, v | ActiveEdge(g, u, v) && 0 <= v < |g| ensures rank[v] < rank[u] {
      var k :| 0 <= k < |g[u]| && g[u][k].active && g[u][k].target == v;
    }
    RankedHasNoCycle(g, rank);
  }

  /** Connects input i of a 4-by-4 genome to every output, as the inner loop of the test does. */
  method ConnectInput(gn: Genome, i: int)
    requires gn.Valid() && gn.inputNodes == 4 && gn.outputNodes == 4 && gn.numNodes == 9
    requires 0 <= i < 4 && gn.adjs[i] == []
    modifies gn, gn.nodes[i]
    ensures gn.Valid() && gn.nodes == old(gn.nodes) && gn.numNodes == 9
    ensures gn.adjs == old(gn.adjs)[i := Row(i)]
  {
    for j := 0 to 4
      invariant gn.Valid() && gn.nodes == old(gn.nodes) && gn.numNodes == 9
      invariant gn.adjs == old(gn.adjs)[i := Row(i)[..j]]
    {
      gn.AddEdge(i, 5 + j, i * 4 + j, 1.0, true);
      assert Row(i)[..j] + [Row(i)[j]] == Row(i)[..j + 1];
    }
    assert Row(i)[..4] == Row(i);
  }

  /** fully_connected (src/test.rs:7-18) carried out on a genome: sixteen
      add_edge calls, then evaluate on four inputs of 1.0. */
  method FullyConnectedRun() returns (out: seq<real>)
    ensures out == [4.0, 4.0, 4.0, 4.0]
  {
    var gn := FullyConnectedGenome();
    FullyConnectedAcyclic();
    out := gn.Evaluate([1.0, 1.0, 1.0, 1.0], Identity);
    ghost var vals :| NetworkEquations(FullyConnected(), Init([1.0, 1.0, 1.0, 1.0], 9, 4), Identity, vals) && out == vals[5..9];
    FullyConnectedScenario(vals);
  }

  /** The sixteen add_edge calls of fully_connected, input by input. */
  method FullyConnectedGenome() returns (gn: Genome)
    ensures fresh(gn) && gn.Valid() && gn.inputNodes == 4 && gn.outputNodes == 4 && gn.numNodes == 9
    ensures gn.adjs == FullyConnected()
  {
    gn := new Genome(4, 4);
    for i := 0 to 4
      invariant gn.Valid() && fresh(gn) && fresh(gn.nodes)
      invariant gn.inputNodes == 4 && gn.outputNodes == 4 && gn.numNodes == 9
      invariant |gn.adjs| == 9 && forall u :: 0 <= u < 9 ==> gn.adjs[u] == if u < i then Row(u) else []
    {
      ConnectInput(gn, i);
    }
    assert gn.adjs == FullyConnected();
  }

  /** The genome of split_node_working after the split: 0 -> 2 disabled,
      0 -> 3 with weight 1.0 and 3 -> 2 with the old weight 10.0. */
  function SplitGraph(): Adjacency
  {
    [[Connection(2, 1, 10.0, false), Connection(3, 3, 1.0, true)], [], [], [Connection(2, 4, 10.0, true)]]
  }

  lemma SplitInputs(vals: seq<real>, x: int)
    requires |vals| == 4
    ensures InDeg(SplitGraph(), x) == (if x == 2 || x == 3 then 1 else 0)
    ensures InSum(SplitGraph(), vals, x) == (if x == 2 then vals[3] * 10.0 else if x == 3 then vals[0] * 1.0 else 0.0)
  {
    var g := SplitGraph();
    var R := Range(4);
    assert 0 in R && 3 in R;
    assert g[0][..0] == [] && g[0][..2] == g[0] && g[3][..0] == [] && g[3][..1] == g[3];
    ConnPrefixStep(g[0], 0, vals[0], x);
    ConnPrefixStep(g[0], 1, vals[0], x);
    ConnPrefixStep(g[3], 0, vals[3], x);
    assert CountFrom(g, x, R, 1) == ConnCount(g[0], x) && SumFrom(g, vals, x, R, 1) == ConnSum(g[0], vals[0], x);
    assert CountFrom(g, x, R, 3) == CountFrom(g, x, R, 1) && SumFrom(g, vals, x, R, 3) == SumFrom(g, vals, x, R, 1);
    assert CountFrom(g, x, R, 4) == CountFrom(g, x, R, 3) + ConnCount(g[3], x);
    assert SumFrom(g, vals, x, R, 4) == SumFrom(g, vals, x, R, 3) + ConnSum(g[3], vals[3], x);
  }

  /** split_node_working (src/test.rs:21-29): after splitting 0 -> 2 (weight 10)
      with a new node, the input 1.0 still arrives as 10.0. */
  lemma SplitScenario(vals: seq<real>)
    requires NetworkEquations(SplitGraph(), Init([1.0], 4, 1), Identity, vals)
    ensures vals[2..3] == [10.0]
  {
    var g := SplitGraph();
    var init := Init([1.0], 4, 1);
    SplitInputs(vals, 0);
    SplitInputs(vals, 2);
    SplitInputs(vals, 3);
    assert Settled(g, init, Identity, vals, 0);
    assert Settled(g, init, Identity, vals, 3);
    assert Settled(g, init, Identity, vals, 2);
  }

  lemma SplitAcyclic()
    ensures !HasCycle(SplitGraph())
  {
    var g := SplitGraph();
    var rank := [2, 0, 0, 1];
    forall u, v | ActiveEdge(g, u, v) && 0 <= v < |g| ensures rank[v] < rank[u] {
      var k :| 0 <= k < |g[u]| && g[u][k].active && g[u][k].target == v;
    }
    RankedHasNoCycle(g, rank);
  }

  lemma SplitOfOneEdge()
    ensures Subdivide(OneEdge(10.0, true), 0, 2, 3) == SplitGraph()
  {
    var g0 := OneEdge(10.0, true);
    assert SetActive(g0[0], 2, false) == [Connection(2, 1, 10.0, false)];
    assert WeightTo(g0[0], 2) == 10.0;
    var r := Subdivide(g0, 0, 2, 3);
    assert r[0] == [Connection(2, 1, 10.0, false)] + [Connection(3, 3, 1.0, true)];
    assert r[1] == [] && r[2] == [] && r[3] == [Connection(2, 4, 10.0, true)];
    forall i | 0 <= i < 4 ensures r[i] == SplitGraph()[i] {
      if i == 0 {} else if i == 1 {} else if i == 2 {} else {}
    }
  }

  /** The first two steps of split_node_working: add_edge, then split_edge with new global id 10. */
  method SplitNodeGenome() returns (gn: Genome)
    ensures fresh(gn) && gn.Valid() && gn.inputNodes == 1 && gn.outputNodes == 1 && gn.adjs == SplitGraph()
  {
    gn := OneEdgeGenome(10.0);
    gn.SplitEdge(0, 2, 3, 10);
    SplitOfOneEdge();
  }

  /** The genome of one input, one output and the connection 0 -> 2 of the given weight. */
  method OneEdgeGenome(weight: real) returns (gn: Genome)
    ensures fresh(gn) && gn.Valid() && gn.inputNodes == 1 && gn.outputNodes == 1
    ensures fresh(gn.nodes) && gn.adjs == OneEdge(weight, true) && gn.globals == [0, 1, 2]
  {
    gn := new Genome(1, 1);
    assert gn.adjs == [[], [], []] && gn.globals == [0, 1, 2];
    gn.AddEdge(0, 2, 1, weight, true);
    assert gn.adjs[0] == [] + [Connection(2, 1, weight, true)] && gn.adjs[1] == [] && gn.adjs[2] == [];
    forall i | 0 <= i < 3 ensures gn.adjs[i] == OneEdge(weight, true)[i] {
      if i == 0 {} else if i == 1 {} else {}
    }
  }

  lemma OneEdgeAcyclic(weight: real, active: bool)
    ensures !HasCycle(OneEdge(weight, active))
  {
    var g := OneEdge(weight, active);
    var rank := [1, 0, 0];
    forall u, v | ActiveEdge(g, u, v) && 0 <= v < |g| ensures rank[v] < rank[u] {
      var k :| 0 <= k < |g[u]| && g[u][k].active && g[u][k].target == v;
    }
    RankedHasNoCycle(g, rank);
  }

  /** add_edge carried out on a genome: add_edge, then evaluate with input 1.0. */
  method SingleEdgeRun() returns (out: seq<real>)
    ensures out == [15.0]
  {
    var gn := OneEdgeGenome(15.0);
    OneEdgeAcyclic(15.0, true);
    out := gn.Evaluate([1.0], Identity);
    ghost var vals :| NetworkEquations(OneEdge(15.0, true), Init([1.0], 3, 1), Identity, vals) && out == vals[2..3];
    SingleEdgeScenario(vals);
  }

  /** disable_edge carried out on a genome: add_edge, disable_edge and
      evaluate, then enable_edge and evaluate again. */
  method DisabledEdgeRun() returns (off: seq<real>, on: seq<real>)
    ensures off == [0.0] && on == [15.0]
  {
    var gn := OneEdgeGenome(15.0);
    gn.DisableEdge(0, 2);
    assert SetActive(OneEdge(15.0, true)[0], 2, false) == OneEdge(15.0, false)[0];
    assert gn.adjs == OneEdge(15.0, false);
    OneEdgeAcyclic(15.0, false);
    off := gn.Evaluate([1.0], Identity);
    ghost var offVals :| NetworkEquations(OneEdge(15.0, false), Init([1.0], 3, 1), Identity, offVals) && off == offVals[2..3];
    gn.EnableEdge(0, 2);
    assert SetActive(OneEdge(15.0, false)[0], 2, true) == OneEdge(15.0, true)[0];
    assert gn.adjs == OneEdge(15.0, true);
    OneEdgeAcyclic(15.0, true);
    on := gn.Evaluate([1.0], Identity);
    ghost var onVals :| NetworkEquations(OneEdge(15.0, true), Init([1.0], 3, 1), Identity, onVals) && on == onVals[2..3];
    DisabledEdgeScenario(offVals, onVals);
  }

  /** split_node_working carried out on a genome: add_edge, split_edge, evaluate. */
  method SplitNodeRun() returns (out: seq<real>)
    ensures out == [10.0]
  {
    var gn := SplitNodeGenome();
    SplitAcyclic();
    out := gn.Evaluate([1.0], Identity);
    ghost var vals :| NetworkEquations(SplitGraph(), Init([1.0], 4, 1), Identity, vals) && out == vals[2..3];
    SplitScenario(vals);
  }

  /** Connection totals of a graph whose first k lists have w connections each and the rest none. */
  lemma {:induction false} FanTotal(g: Adjacency, m: nat, k: nat, w: nat)
    requires m <= |g| && forall u :: 0 <= u < |g| ==> |g[u]| == if u < k then w else 0
    ensures TotalConnections(g, m) == w * (if m < k then m else k)
  {
    if m > 0 {
      FanTotal(g, m - 1, k, w);
    }
  }

  /** unflatte_size (src/test.rs:75-80): a 10-by-10 genome after connect_ends
      flattens to 10 * 10 + 10 records. */
  method FlattenSizeRun(weights: seq<real>) returns (n: int)
    requires |weights| == 110
    ensures n == 110
  {
    var gn := new Genome(10, 10);
    gn.ConnectEnds(weights);
    FanTotal(gn.adjs, 21, 11, 10);
    var genes := gn.Flatten();
    n := |genes|;
  }

  /** extra_random (src/test.rs:57-62): connect_ends on a 5-by-5 genome makes
      30 connections, and random_edge leaves the count as it was. */
  method ExtraRandomRun(weights: seq<real>, draws: seq<(int, int)>) returns (n: int)
    requires |weights| == 30 && |draws| == Attempts
    requires forall k :: 0 <= k < |draws| ==> 0 <= draws[k].0 <= 5 && 0 <= draws[k].1 <= 4
    ensures n == 30
  {
    var gn := new Genome(5, 5);
    gn.ConnectEnds(weights);
    var u, v := gn.RandomEdge(draws);
    n := gn.numConnections;
  }
}
