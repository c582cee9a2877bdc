/** A genome (src/genome.rs): an arena of nodes — inputs, then the bias at
    index `inputNodes`, then outputs, then hidden nodes — with the `edges`
    mirror of non-bias (from, to) pairs and the `numConnections` counter.
    The ghost fields `adjs` and `globals` give the abstract view: node i's
    connection list and global id. */
module Genomes {
  import opened Nodes
  import opened Graphs
  import DepthFirst
  import opened Networks
  import Evaluation
  import opened Records

  /** The order in which a BTreeSet of pairs iterates: lexicographic. */
  predicate PairLess(a: (int, int), b: (int, int))
  {
    a.0 < b.0 || (a.0 == b.0 && a.1 < b.1)
  }

  lemma PairLessTotal(a: (int, int), b: (int, int))
    ensures a == b || PairLess(a, b) || PairLess(b, a)
  {
  }

  /** The elements of s that come before e. */
  ghost function Below(s: set<(int, int)>, e: (int, int)): set<(int, int)>
  {
    set x | x in s && PairLess(x, e)
  }

  /** The first element of a non-empty set in iteration order. */
  method SetMin(s: set<(int, int)>) returns (m: (int, int))
    requires s != {}
    ensures m in s && forall x :: x in s && x != m ==> PairLess(m, x)
  {
    m :| m in s;
    var rest := s - {m};
    while rest != {}
      invariant rest <= s && m in s && m !in rest
      invariant forall x :: x in s - rest && x != m ==> PairLess(m, x)
      decreases |rest|
    {
      var x :| x in rest;
      PairLessTotal(x, m);
      ghost var m0 := m;
      if PairLess(x, m) {
        m := x;
      }
      forall y | y in s - (rest - {x}) && y != m ensures PairLess(m, y) {
        if y != x && y != m0 {
          assert y in s - rest;
        }
      }
      rest := rest - {x};
    }
  }

  /** Innovation number i * outputs + j of connect_ends is an index into its (inputs + 1) * outputs draws. */
  lemma FanIndex(i: int, j: int, inputs: nat, outputs: nat)
    requires 0 <= i <= inputs && 0 <= j < outputs
    ensures 0 <= i * outputs + j < (inputs + 1) * outputs
  {
    assert i * outputs <= inputs * outputs by {
      if i < inputs {
        assert (inputs - i) * outputs >= 0;
      }
    }
  }

  /** random_edge gives up after this many draws. */
  const Attempts := 100

  class Genome {
    const inputNodes: nat
    const outputNodes: nat
    var nodes: seq<Node>
    var numNodes: int
    var numConnections: int
    var edges: set<(int, int)>
    ghost var adjs: Adjacency
    ghost var globals: seq<int>

    ghost predicate Valid()
      reads this, nodes
    {
      && numNodes == |nodes| == |adjs| == |globals|
      && inputNodes + outputNodes + 1 <= numNodes
      && (forall i, j :: 0 <= i < j < |nodes| ==> nodes[i] != nodes[j])
      && (forall i :: 0 <= i < |nodes| ==>
            nodes[i].localId == i && nodes[i].globalId == globals[i] && nodes[i].adj == adjs[i])
      && (forall i :: 0 <= i < inputNodes + outputNodes + 1 ==> globals[i] == i)
      && WellFormed(adjs)
      && Loopless(adjs)
      && (forall e :: e in edges ==> 0 <= e.0 < numNodes && 0 <= e.1 < numNodes)
    }

    /** The bias node's local id. */
    function Bias(): int { inputNodes }

    /** Input, bias and output nodes come first; everything from here on is hidden. */
    function FirstHidden(): int { inputNodes + outputNodes + 1 }

    /** A genome with inputs, bias and outputs, global id equal to local id, and no connections. */
    constructor (inputNodes: nat, outputNodes: nat)
      ensures Valid() && fresh(nodes)
      ensures this.inputNodes == inputNodes && this.outputNodes == outputNodes
      ensures numNodes == inputNodes + outputNodes + 1
      ensures adjs == seq(numNodes, _ => []) && globals == seq(numNodes, i => i)
      ensures edges == {} && numConnections == 0
    {
      this.inputNodes := inputNodes;
      this.outputNodes := outputNodes;
      var n := inputNodes + outputNodes + 1;
      var ns: seq<Node> := [];
      for i := 0 to n
        invariant |ns| == i
        invariant forall k :: 0 <= k < i ==> fresh(ns[k]) && ns[k].localId == k && ns[k].globalId == k && ns[k].adj == []
        invariant forall k, l :: 0 <= k < l < i ==> ns[k] != ns[l]
      {
        var nd := new Node(i, i);
        ns := ns + [nd];
      }
      nodes := ns;
      numNodes := n;
      numConnections := 0;
      edges := {};
      adjs := seq(n, _ => []);
      globals := seq(n, i => i);
    }

    /** Appends a hidden node with the given global id; returns its local id. */
    method AddNode(globalId: int) returns (id: int)
      requires Valid()
      modifies this
      ensures Valid()
      ensures id == old(numNodes) && numNodes == old(numNodes) + 1
      ensures nodes[..id] == old(nodes) && fresh(nodes[id])
      ensures adjs == old(adjs) + [[]] && globals == old(globals) + [globalId]
      ensures edges == old(edges) && numConnections == old(numConnections)
    {
      var nd := new Node(numNodes, globalId);
      nodes := nodes + [nd];
      adjs := adjs + [[]];
      globals := globals + [globalId];
      numNodes := numNodes + 1;
      id := numNodes - 1;
    }

    /** Appends a connection from -> to; registers (from, to) in `edges` unless
        `from` is the bias, and counts it. */
    method AddEdge(from: int, to: int, inno: int, weight: real, active: bool)
      requires Valid()
      requires 0 <= from < numNodes && 0 <= to < numNodes && from != to
      modifies this, nodes[from]
      ensures Valid()
      ensures nodes == old(nodes) && globals == old(globals) && numNodes == old(numNodes)
      ensures adjs == AppendConnection(old(adjs), from, Connection(to, inno, weight, active))
      ensures edges == if from != Bias() then old(edges) + {(from, to)} else old(edges)
      ensures numConnections == old(numConnections) + 1
    {
      if from != inputNodes {
        edges := edges + {(from, to)};
      }
      numConnections := numConnections + 1;
      nodes[from].AddEdge(inno, weight, active, to);
      adjs := AppendConnection(adjs, from, Connection(to, inno, weight, active));
      ReplaceList(old(adjs), from, adjs[from]);
      forall i | 0 <= i < |nodes| ensures nodes[i].adj == adjs[i] {
        if i != from {
          assert nodes[i] != nodes[from];
        }
      }
    }

    /** Undoes the last AddEdge on `from`: pops its last connection, removes
        (from, to) from `edges` and decrements the counter. */
    method RmLast(from: int, to: int)
      requires Valid()
      requires 0 <= from < numNodes
      modifies this, nodes[from]
      ensures Valid()
      ensures nodes == old(nodes) && globals == old(globals) && numNodes == old(numNodes)
      ensures adjs == old(adjs)[from := DropLast(old(adjs)[from])]
      ensures edges == old(edges) - {(from, to)}
      ensures numConnections == old(numConnections) - 1
    {
      numConnections := numConnections - 1;
      edges := edges - {(from, to)};
      nodes[from].DelBack();
      adjs := adjs[from := DropLast(adjs[from])];
      ReplaceList(old(adjs), from, adjs[from]);
      forall i | 0 <= i < |nodes| ensures nodes[i].adj == adjs[i] {
        if i != from {
          assert nodes[i] != nodes[from];
        }
      }
    }

    method CheckEdge(u: int, v: int) returns (b: bool)
      ensures b <==> (u, v) in edges
    {
      b := (u, v) in edges;
    }

    /** Is there a connection from -> to, active or disabled? */
    method EdgeExist(from: int, to: int) returns (b: bool)
      requires Valid() && 0 <= from < numNodes
      ensures b <==> HasEdgeTo(adjs[from], to)
    {
      b := nodes[from].EdgeExist(to);
    }

    /** Deactivates every connection from -> to, removes the pair from `edges`
        and decrements the counter (even when nothing was active). */
    method DisableEdge(from: int, to: int)
      requires Valid() && 0 <= from < numNodes
      modifies this, nodes[from]
      ensures Valid()
      ensures nodes == old(nodes) && globals == old(globals) && numNodes == old(numNodes)
      ensures adjs == old(adjs)[from := SetActive(old(adjs)[from], to, false)]
      ensures edges == old(edges) - {(from, to)}
      ensures numConnections == old(numConnections) - 1
    {
      edges := edges - {(from, to)};
      numConnections := numConnections - 1;
      nodes[from].DisableEdge(to);
      adjs := adjs[from := SetActive(adjs[from], to, false)];
      ReplaceList(old(adjs), from, adjs[from]);
      forall i | 0 <= i < |nodes| ensures nodes[i].adj == adjs[i] {
        if i != from {
          assert nodes[i] != nodes[from];
        }
      }
    }

    /** Re-activates every connection from -> to, re-registers the pair unless
        `from` is the bias, and increments the counter. */
    method EnableEdge(from: int, to: int)
      requires Valid() && 0 <= from < numNodes && 0 <= to < numNodes
      modifies this, nodes[from]
      ensures Valid()
      ensures nodes == old(nodes) && globals == old(globals) && numNodes == old(numNodes)
      ensures adjs == old(adjs)[from := SetActive(old(adjs)[from], to, true)]
      ensures edges == if from != Bias() then old(edges) + {(from, to)} else old(edges)
      ensures numConnections == old(numConnections) + 1
    {
      if from != inputNodes {
        edges := edges + {(from, to)};
      }
      numConnections := numConnections + 1;
      nodes[from].EnableEdge(to);
      adjs := adjs[from := SetActive(adjs[from], to, true)];
      ReplaceList(old(adjs), from, adjs[from]);
      forall i | 0 <= i < |nodes| ensures nodes[i].adj == adjs[i] {
        if i != from {
          assert nodes[i] != nodes[from];
        }
      }
    }

    /** Splits from -> to with a new hidden node of global id `newNodeId`,
        unless some node already carries that id (then nothing changes). */
    method SplitEdge(from: int, to: int, inno: int, newNodeId: int)
      requires Valid()
      requires 0 <= from < numNodes && 0 <= to < numNodes
      modifies this, nodes[from]
      ensures Valid()
      ensures newNodeId in old(globals) ==>
        && nodes == old(nodes) && adjs == old(adjs) && globals == old(globals) && numNodes == old(numNodes)
        && edges == old(edges) && numConnections == old(numConnections)
      ensures newNodeId !in old(globals) ==>
        && numNodes == old(numNodes) + 1 && nodes[..old(numNodes)] == old(nodes) && fresh(nodes[old(numNodes)])
        && globals == old(globals) + [newNodeId]
        && adjs == Subdivide(old(adjs), from, to, inno)
        && edges == (old(edges) - {(from, to)}) + (if from != Bias() then {(from, old(numNodes))} else {})
                    + {(old(numNodes), to)}
        && numConnections == old(numConnections) + 1
    {
      var known := NodeExists(newNodeId);
      if known {
        return;
      }
      ghost var g0 := adjs;
      DisableEdge(from, to);
      ghost var g1 := adjs;
      var oldWeight := nodes[from].EdgeWeight(to);
      SetActiveKeepsTargets(g0[from], to, false, to);
      var id := AddNode(newNodeId);
      ghost var g2 := adjs;
      AddEdge(from, id, inno, 1.0, true);
      ghost var g3 := adjs;
      AddEdge(id, to, inno + 1, oldWeight, true);
      SubdivideSteps(g0, g1, g2, g3, adjs, from, to, inno, oldWeight);
    }

    /** The candidate connection random_edge builds from one draw: the source
        ranges over the inputs, the bias and the hidden nodes (an index past the
        bias skips the outputs), the target over the outputs and hidden nodes. */
    function Endpoints(draw: (int, int)): (e: (int, int))
      reads this
      requires 0 <= draw.0 <= numNodes - outputNodes - 1 && 0 <= draw.1 <= numNodes - inputNodes - 2
      ensures 0 <= e.0 <= Bias() || FirstHidden() <= e.0 < numNodes
      ensures Bias() < e.1 < numNodes
    {
      (if draw.0 > inputNodes then draw.0 + outputNodes else draw.0, inputNodes + 1 + draw.1)
    }

    /** u -> v may be added: no self-connection, not yet in `edges`, and the
        active connections stay acyclic with u -> v added. */
    ghost predicate Acceptable(u: int, v: int)
      reads this
      requires 0 <= u < |adjs|
    {
      u != v && (u, v) !in edges && !HasCycle(AppendConnection(adjs, u, Connection(v, -1, 1.0, true)))
    }

    /** Every draw is in the ranges random_edge draws from. */
    predicate Drawable(draws: seq<(int, int)>)
      reads this
    {
      forall k :: 0 <= k < |draws| ==>
        0 <= draws[k].0 <= numNodes - outputNodes - 1 && 0 <= draws[k].1 <= numNodes - inputNodes - 2
    }

    /** e is the candidate of the first draw that is acceptable, or (-1, -1) when none is. */
    ghost predicate FirstAcceptable(draws: seq<(int, int)>, e: (int, int))
      reads this
      requires numNodes == |adjs| && Drawable(draws)
    {
      && (e == (-1, -1) ==> forall k :: 0 <= k < |draws| ==> !Acceptable(Endpoints(draws[k]).0, Endpoints(draws[k]).1))
      && (e != (-1, -1) ==>
            exists k :: 0 <= k < |draws| && e == Endpoints(draws[k]) && Acceptable(e.0, e.1) &&
              forall j :: 0 <= j < k ==> !Acceptable(Endpoints(draws[j]).0, Endpoints(draws[j]).1))
    }

    /** Tries the candidate of each draw in turn: adds it, checks for a cycle,
        removes it again, and returns the first acceptable one, or (-1, -1). */
    method RandomEdge(draws: seq<(int, int)>) returns (u: int, v: int)
      requires Valid() && inputNodes + 2 <= numNodes
      requires |draws| == Attempts && Drawable(draws)
      modifies this, nodes
      ensures Valid()
      ensures nodes == old(nodes) && adjs == old(adjs) && globals == old(globals) && numNodes == old(numNodes)
      ensures edges == old(edges) && numConnections == old(numConnections)
      ensures FirstAcceptable(draws, (u, v))
      ensures u != -1 ==> 0 <= u < numNodes && 0 <= v < numNodes && u != v
    {
      for k := 0 to |draws|
        invariant Valid()
        invariant nodes == old(nodes) && adjs == old(adjs) && globals == old(globals) && numNodes == old(numNodes)
        invariant edges == old(edges) && numConnections == old(numConnections)
        invariant forall j :: 0 <= j < k ==> !Acceptable(Endpoints(draws[j]).0, Endpoints(draws[j]).1)
      {
        var e := Endpoints(draws[k]);
        var ok := TryEdge(e.0, e.1);
        if ok {
          return e.0, e.1;
        }
      }
      return -1, -1;
    }

    /** One candidate of random_edge: rejected when it joins a node to itself
        or is already present, otherwise added, checked for a cycle and removed again. */
    method TryEdge(a: int, b: int) returns (ok: bool)
      requires Valid() && 0 <= a < numNodes && 0 <= b < numNodes
      modifies this, nodes
      ensures Valid()
      ensures nodes == old(nodes) && adjs == old(adjs) && globals == old(globals) && numNodes == old(numNodes)
      ensures edges == old(edges) && numConnections == old(numConnections)
      ensures ok <==> Acceptable(a, b)
    {
      if a == b {
        return false;
      }
      var present := CheckEdge(a, b);
      if present {
        return false;
      }
      ghost var g0 := adjs;
      AddEdge(a, b, -1, 1.0, true);
      var cycle := CheckCycle();
      RmLast(a, b);
      AddThenDropLast(g0[a], Connection(b, -1, 1.0, true));
      assert adjs == g0;
      ok := !cycle;
    }

    /** The element of `edges` with exactly `draw` elements before it. */
    method NthEdge(draw: int) returns (e: (int, int))
      requires 0 <= draw < |edges|
      ensures e in edges && |Below(edges, e)| == draw
    {
      var rest := edges;
      var i := draw;
      ghost var skipped: set<(int, int)> := {};
      e := SetMin(rest);
      while i > 0
        invariant 0 <= i <= draw && rest <= edges && e in rest
        invariant forall x :: x in rest && x != e ==> PairLess(e, x)
        invariant skipped == edges - rest && |skipped| == draw - i && |rest| == |edges| - (draw - i)
        invariant forall x, y :: x in skipped && y in rest ==> PairLess(x, y)
      {
        skipped := skipped + {e};
        rest := rest - {e};
        i := i - 1;
        e := SetMin(rest);
      }
      assert Below(edges, e) == skipped;
    }

    /** A uniformly drawn element of `edges` in iteration order, or (-1, -1)
        when there is none; the genome is not changed. */
    method RandomSplit(draw: int) returns (e: (int, int))
      requires Valid()
      requires edges != {} ==> 0 <= draw < |edges|
      ensures e == (-1, -1) <==> edges == {}
      ensures edges != {} ==> e in edges && |Below(edges, e)| == draw
    {
      if |edges| == 0 {
        return (-1, -1);
      }
      e := NthEdge(draw);
    }

    /** Disables the drawn element of `edges`; false when `edges` is empty. */
    method RandomDisable(draw: int) returns (done: bool)
      requires Valid()
      requires edges != {} ==> 0 <= draw < |edges|
      modifies this, nodes
      ensures Valid()
      ensures done <==> old(edges) != {}
      ensures nodes == old(nodes) && globals == old(globals) && numNodes == old(numNodes)
      ensures !done ==> adjs == old(adjs) && edges == old(edges) && numConnections == old(numConnections)
      ensures done ==> exists e ::
        && e in old(edges) && |Below(old(edges), e)| == draw
        && adjs == old(adjs)[e.0 := SetActive(old(adjs)[e.0], e.1, false)]
        && edges == old(edges) - {e}
        && numConnections == old(numConnections) - 1
    {
      if |edges| == 0 {
        return false;
      }
      var e := NthEdge(draw);
      DisableEdge(e.0, e.1);
      return true;
    }

    /** Does some node carry global id `globalId`? */
    method NodeExists(globalId: int) returns (b: bool)
      requires Valid()
      ensures b <==> globalId in globals
    {
      for i := 0 to |nodes|
        invariant forall k :: 0 <= k < i ==> globals[k] != globalId
      {
        if nodes[i].globalId == globalId {
          return true;
        }
      }
      return false;
    }

    method LocalToGlobal(localId: int) returns (g: int)
      requires Valid() && 0 <= localId < numNodes
      ensures g == globals[localId]
    {
      g := nodes[localId].globalId;
    }
    /** The records of every connection, node by node and in list order. */
    ghost function Records(): seq<GenomeInfo>
      reads this
      requires |globals| == |adjs|
    {
      AllRecords(adjs, globals, |adjs|)
    }

    /** One record per connection, active or disabled, ordered by innovation number. */
    method Flatten() returns (genes: seq<GenomeInfo>)
      requires Valid()
      ensures InnoOrder(Records(), genes)
      ensures SortedByInno(genes) && multiset(genes) == multiset(Records())
      ensures |genes| == TotalConnections(adjs, numNodes)
    {
      var collected: seq<GenomeInfo> := [];
      for u := 0 to |nodes|
        invariant collected == AllRecords(adjs, globals, u)
      {
        var n := nodes[u];
        var adj := n.adj;
        for k := 0 to |adj|
          invariant collected == AllRecords(adjs, globals, u) + NodeRecords(adj[..k], globals, globals[u])
        {
          var c := adj[k];
          var to := nodes[c.target].globalId;
          NodeRecordsPrefix(adj, globals, globals[u], k);
          collected := collected + [GenomeInfo(n.globalId, to, c.inno, c.weight, c.active)];
        }
        assert adj[..|adj|] == adj;
      }
      genes := SortByInno(collected);
      SortRecordsSorted(collected);
      assert |genes| == |multiset(genes)| == |multiset(collected)| == |collected|;
      AllRecordsLength(adjs, globals, numNodes);
    }

    /** The connections connect_ends gives node i: one active connection to
        each output j, with innovation number i * outputNodes + j and that draw's weight. */
    function Fan(i: int, weights: seq<real>, m: nat): (f: seq<Connection>)
      requires 0 <= i <= inputNodes && |weights| == (inputNodes + 1) * outputNodes && m <= outputNodes
      ensures |f| == m
      ensures forall j :: 0 <= j < m ==> f[j].target == inputNodes + 1 + j && f[j].active
    {
      if m == 0 then []
      else
        FanIndex(i, m - 1, inputNodes, outputNodes);
        Fan(i, weights, m - 1) + [Connection(inputNodes + m, i * outputNodes + m - 1, weights[i * outputNodes + m - 1], true)]
    }

    /** The inner loop of connect_ends for source node i. */
    method ConnectNode(i: int, weights: seq<real>)
      requires Valid() && 0 <= i <= inputNodes && |weights| == (inputNodes + 1) * outputNodes
      modifies this, nodes[i]
      ensures Valid()
      ensures nodes == old(nodes) && globals == old(globals) && numNodes == old(numNodes)
      ensures adjs == old(adjs)[i := old(adjs)[i] + Fan(i, weights, outputNodes)]
      ensures forall e :: e in edges <==> e in old(edges) || (i != Bias() && e.0 == i && Bias() < e.1 < FirstHidden())
      ensures numConnections == old(numConnections) + outputNodes
    {
      assert old(adjs)[i] + Fan(i, weights, 0) == old(adjs)[i];
      for j := 0 to outputNodes
        invariant Valid()
        invariant nodes == old(nodes) && globals == old(globals) && numNodes == old(numNodes)
        invariant adjs == old(adjs)[i := old(adjs)[i] + Fan(i, weights, j)]
        invariant forall e :: e in edges <==> e in old(edges) || (i != Bias() && e.0 == i && Bias() < e.1 < inputNodes + 1 + j)
        invariant numConnections == old(numConnections) + j
      {
        FanIndex(i, j, inputNodes, outputNodes);
        ghost var a := adjs[i];
        var c := Connection(inputNodes + 1 + j, i * outputNodes + j, weights[i * outputNodes + j], true);
        AddEdge(i, inputNodes + 1 + j, i * outputNodes + j, weights[i * outputNodes + j], true);
        assert Fan(i, weights, j + 1) == Fan(i, weights, j) + [c];
        assert adjs[i] == old(adjs)[i] + Fan(i, weights, j + 1);
      }
    }

    /** Connects the inputs and the bias to every output; the weight of
        the connection with innovation number k is weights[k]. */
    method ConnectEnds(weights: seq<real>)
      requires Valid() && |weights| == (inputNodes + 1) * outputNodes
      modifies this, nodes
      ensures Valid()
      ensures nodes == old(nodes) && globals == old(globals) && numNodes == old(numNodes)
      ensures forall u :: 0 <= u < numNodes ==>
        adjs[u] == old(adjs)[u] + (if u <= inputNodes then Fan(u, weights, outputNodes) else [])
      ensures forall e :: e in edges <==> e in old(edges) || (0 <= e.0 < Bias() && Bias() < e.1 < FirstHidden())
      ensures numConnections == old(numConnections) + (inputNodes + 1) * outputNodes
    {
      for i := 0 to inputNodes + 1
        invariant Valid()
        invariant nodes == old(nodes) && globals == old(globals) && numNodes == old(numNodes)
        invariant forall u :: 0 <= u < numNodes ==>
          adjs[u] == old(adjs)[u] + (if u < i then Fan(u, weights, outputNodes) else [])
        invariant forall e :: e in edges <==> e in old(edges) || (0 <= e.0 < i && e.0 < Bias() && Bias() < e.1 < FirstHidden())
        invariant numConnections == old(numConnections) + i * outputNodes
      {
        ghost var a0 := adjs;
        ConnectNode(i, weights);
        assert (i + 1) * outputNodes == i * outputNodes + outputNodes;
        forall u | 0 <= u < numNodes
          ensures adjs[u] == old(adjs)[u] + (if u < i + 1 then Fan(u, weights, outputNodes) else [])
        {
          if u != i {
            assert adjs[u] == a0[u];
          }
        }
      }
    }

    /** A copy through the records: flatten, then un_flatten. When every input,
        bias and output id occurs in a record, the copy has the same records. */
    method Clone() returns (c: Genome)
      requires Valid() && Rebuildable(Records(), FirstHidden())
      ensures fresh(c) && c.Valid() && c.inputNodes == inputNodes && c.outputNodes == outputNodes
      ensures Covered(Ends(Records()), FirstHidden()) ==> multiset(c.Records()) == multiset(Records())
    {
      var genes := Flatten();
      SameRecords(genes, Records(), FirstHidden());
      c := Rebuild(genes, inputNodes, outputNodes);
    }

    /** Iterative three-colour depth-first search over the active connections:
        true exactly when they contain a directed cycle. */
    method CheckCycle() returns (cycle: bool)
      requires Valid()
      ensures cycle <==> HasCycle(adjs)
    {
      cycle := DepthFirst.Search(nodes, adjs);
    }

    /** The output nodes' values once the network has been evaluated on
        input with every node using act. On a network without an active
        cycle they are read off the one solution of the network equations. */
    method Evaluate(input: seq<real>, act: real -> real) returns (out: seq<real>)
      requires Valid() && |input| <= numNodes
      ensures |out| == outputNodes
      ensures !HasCycle(adjs) ==>
        exists vals :: NetworkEquations(adjs, Init(input, numNodes, Bias()), act, vals) && out == vals[Bias() + 1..FirstHidden()]
    {
      var vals := Evaluation.NodeValues(nodes, adjs, input, inputNodes, act);
      out := vals[inputNodes + 1..inputNodes + outputNodes + 1];
      assert out == vals[Bias() + 1..FirstHidden()];
    }
  }

  /** The four updates split_edge makes, one after the other, subdivide the connection. */
  lemma SubdivideSteps(g0: Adjacency, g1: Adjacency, g2: Adjacency, g3: Adjacency, g4: Adjacency,
                       from: int, to: int, inno: int, w: real)
    requires 0 <= from < |g0| && w == WeightTo(g0[from], to)
    requires g1 == g0[from := SetActive(g0[from], to, false)] && g2 == g1 + [[]]
    requires g3 == AppendConnection(g2, from, Connection(|g0|, inno, 1.0, true))
    requires g4 == AppendConnection(g3, |g0|, Connection(to, inno + 1, w, true))
    ensures g4 == Subdivide(g0, from, to, inno)
  {
    var r := Subdivide(g0, from, to, inno);
    forall k | 0 <= k < |r| ensures g4[k] == r[k] {
      if k == |g0| {
        assert g4[k] == [] + [Connection(to, inno + 1, w, true)];
      }
    }
  }

  /** A genome rebuilt from records that mention every input, bias and
      output id holds exactly those records. */
  /** un_flatten on records that can be rebuilt: a valid genome that, once
      the records mention every input, bias and output id, holds exactly them. */
  method Rebuild(genes: seq<GenomeInfo>, inputNodes: nat, outputNodes: nat) returns (c: Genome)
    requires Rebuildable(genes, inputNodes + outputNodes + 1)
    ensures fresh(c) && c.Valid() && c.inputNodes == inputNodes && c.outputNodes == outputNodes
    ensures Covered(Ends(genes), c.FirstHidden()) ==> multiset(c.Records()) == multiset(genes)
  {
    c := UnFlatten(genes, inputNodes, outputNodes);
    RebuiltRecords(c, genes);
  }

  lemma RebuiltRecords(c: Genome, genes: seq<GenomeInfo>)
    requires |c.globals| == |c.adjs| == c.numNodes && c.adjs == Build(c.numNodes, genes, Ends(genes))
    requires Covered(Ends(genes), c.FirstHidden()) ==> Relabels(genes, Ends(genes), c.globals)
    ensures Covered(Ends(genes), c.FirstHidden()) ==> multiset(c.Records()) == multiset(genes)
  {
    if Covered(Ends(genes), c.FirstHidden()) {
      BuildRecords(c.numNodes, genes, Ends(genes), c.globals);
    }
  }

  /** The ids the records mention, collected into an ordered set. */
  method SortedEnds(genes: seq<GenomeInfo>) returns (unique: seq<int>)
    ensures Increasing(unique) && Elements(unique) == Ends(genes)
  {
    unique := [];
    for i := 0 to |genes|
      invariant Increasing(unique) && Elements(unique) == Ends(genes[..i])
    {
      unique := OrderedInsert(unique, genes[i].from);
      unique := OrderedInsert(unique, genes[i].to);
      EndsAppend(genes[..i], genes[i]);
      assert genes[..i + 1] == genes[..i] + [genes[i]];
    }
    assert genes[..|genes|] == genes;
  }

  /** What the numbering pass has done to a fresh genome after the first k ordered ids. */
  ghost predicate Numbered(g: Genome, unique: seq<int>, k: int, mapping: map<int, int>)
    reads g, g.nodes
    requires 0 <= k <= |unique|
  {
    && g.Valid()
    && (forall v :: 0 <= v < |g.adjs| ==> g.adjs[v] == []) && g.edges == {} && g.numConnections == 0
    && IdsNumbered(g.globals, g.FirstHidden(), unique, k, mapping)
  }

  /** One step of the numbering pass: id unique[k] gets local id k, and a
      hidden node when it is at or above the first hidden id. */
  method NumberNext(g: Genome, unique: seq<int>, k: int, mapping: map<int, int>) returns (mapping': map<int, int>)
    requires Increasing(unique) && 0 <= k < |unique| && Numbered(g, unique, k, mapping)
    modifies g
    ensures Numbered(g, unique, k + 1, mapping')
    ensures old(g.nodes) <= g.nodes && forall i :: old(|g.nodes|) <= i < |g.nodes| ==> fresh(g.nodes[i])
  {
    NumberedStep(g.globals, g.FirstHidden(), unique, k, mapping);
    mapping' := mapping[unique[k] := |mapping|];
    assert mapping' == mapping[unique[k] := k];
    if unique[k] >= g.FirstHidden() {
      var id := g.AddNode(unique[k]);
      forall v | 0 <= v < |g.adjs| ensures g.adjs[v] == [] {
        if v < id {
          assert g.adjs[v] == old(g.adjs)[v];
        }
      }
    }
  }

  /** un_flatten's numbering pass over the ordered ids: id unique[k] gets
      local id k, and every id at or above the first hidden one gets a new
      hidden node, in increasing order. */
  method NumberIds(g: Genome, unique: seq<int>) returns (mapping: map<int, int>)
    requires g.Valid() && g.numNodes == g.FirstHidden()
    requires (forall v :: 0 <= v < |g.adjs| ==> g.adjs[v] == []) && g.edges == {} && g.numConnections == 0
    requires Increasing(unique)
    modifies g
    ensures g.Valid() && old(g.nodes) <= g.nodes && forall i :: old(|g.nodes|) <= i < |g.nodes| ==> fresh(g.nodes[i])
    ensures (forall v :: 0 <= v < |g.adjs| ==> g.adjs[v] == []) && g.edges == {} && g.numConnections == 0
    ensures mapping.Keys == Elements(unique) && forall y :: y in mapping ==> mapping[y] == Rank(Elements(unique), y)
    ensures Increasing(g.globals[g.FirstHidden()..])
    ensures Elements(g.globals[g.FirstHidden()..]) == HighIds(Elements(unique), g.FirstHidden())
    ensures Covered(Elements(unique), g.FirstHidden()) ==>
      |unique| <= g.numNodes && forall j :: 0 <= j < |unique| ==> g.globals[j] == unique[j]
  {
    mapping := map[];
    assert Elements(unique[..0]) == {};
    for k := 0 to |unique|
      invariant Numbered(g, unique, k, mapping)
      invariant old(g.nodes) <= g.nodes && forall i :: old(|g.nodes|) <= i < |g.nodes| ==> fresh(g.nodes[i])
    {
      mapping := NumberNext(g, unique, k, mapping);
    }
    assert unique[..|unique|] == unique;
    if Covered(Elements(unique), g.FirstHidden()) {
      forall j | 0 <= j < |unique| ensures g.globals[j] == unique[j] {
        SortedCovered(unique, g.FirstHidden(), j);
      }
    }
  }

  /** un_flatten's last pass: each record becomes a connection between the
      local ids of its endpoints. */
  method AddRecords(g: Genome, genes: seq<GenomeInfo>, mapping: map<int, int>, ghost u: set<int>)
    requires g.Valid() && g.edges == {} && g.numConnections == 0
    requires forall v :: 0 <= v < |g.adjs| ==> g.adjs[v] == []
    requires Ends(genes) <= u && |u| <= g.numNodes
    requires forall r :: r in genes ==> r.from != r.to
    requires mapping.Keys == u && forall y :: y in mapping ==> mapping[y] == Rank(u, y)
    modifies g, g.nodes
    ensures g.Valid() && g.nodes == old(g.nodes) && g.globals == old(g.globals) && g.numNodes == old(g.numNodes)
    ensures g.adjs == Build(g.numNodes, genes, u)
    ensures g.edges == EdgesOf(genes, u, g.Bias())
    ensures g.numConnections == |genes|
  {
    for i := 0 to |genes|
      invariant g.Valid() && g.nodes == old(g.nodes) && g.globals == old(g.globals) && g.numNodes == old(g.numNodes)
      invariant g.adjs == Build(g.numNodes, genes[..i], u)
      invariant g.edges == EdgesOf(genes[..i], u, g.Bias())
      invariant g.numConnections == i
    {
      var r := genes[i];
      assert r in genes;
      assert r.from in Ends(genes) && r.to in Ends(genes);
      var a := mapping[r.from];
      var b := mapping[r.to];
      RankBounds(u, r.from, r.to);
      RankBounds(u, r.to, r.from);
      RankInjective(u, r.from, r.to);
      assert genes[..i + 1][..i] == genes[..i];
      g.AddEdge(a, b, r.inno, r.weight, r.active);
    }
    assert genes[..|genes|] == genes;
  }

  /** un_flatten's first two passes: a new genome with a node for every id
      the records mention, numbered in increasing order (hidden nodes for
      the ids at or above the first hidden id), and the map from ids to
      local ids. */
  method Numbering(genes: seq<GenomeInfo>, inputNodes: nat, outputNodes: nat)
    returns (g: Genome, unique: seq<int>, mapping: map<int, int>)
    requires Rebuildable(genes, inputNodes + outputNodes + 1)
    ensures fresh(g) && fresh(g.nodes)
    ensures g.Valid() && g.inputNodes == inputNodes && g.outputNodes == outputNodes
    ensures (forall v :: 0 <= v < |g.adjs| ==> g.adjs[v] == []) && g.edges == {} && g.numConnections == 0
    ensures Increasing(unique) && Elements(unique) == Ends(genes) && |Ends(genes)| <= g.numNodes
    ensures g.numNodes == g.FirstHidden() + |HighIds(Ends(genes), g.FirstHidden())|
    ensures mapping.Keys == Ends(genes) && forall y :: y in mapping ==> mapping[y] == Rank(Ends(genes), y)
    ensures Increasing(g.globals[g.FirstHidden()..])
    ensures Elements(g.globals[g.FirstHidden()..]) == HighIds(Ends(genes), g.FirstHidden())
    ensures Covered(Ends(genes), g.FirstHidden()) ==>
      |unique| <= g.numNodes && forall j :: 0 <= j < |unique| ==> g.globals[j] == unique[j]
  {
    unique := SortedEnds(genes);
    g := new Genome(inputNodes, outputNodes);
    assert g.FirstHidden() == inputNodes + outputNodes + 1;
    mapping := NumberIds(g, unique);
    HiddenCount(g.globals[g.FirstHidden()..], Ends(genes), g.FirstHidden(), g.numNodes);
    FitsNodes(Ends(genes), g.FirstHidden(), g.numNodes);
  }

  /** Rebuilds a genome from records: the referenced ids, in increasing order,
      get the local ids 0, 1, 2, ...; each id at or above the first hidden one
      gets a new hidden node, and each record becomes a connection between the
      local ids of its endpoints. */
  method UnFlatten(genes: seq<GenomeInfo>, inputNodes: nat, outputNodes: nat) returns (g: Genome)
    requires Rebuildable(genes, inputNodes + outputNodes + 1)
    ensures fresh(g) && fresh(g.nodes) && g.Valid() && g.inputNodes == inputNodes && g.outputNodes == outputNodes
    ensures g.numNodes == g.FirstHidden() + |HighIds(Ends(genes), g.FirstHidden())|
    ensures Increasing(g.globals[g.FirstHidden()..]) && Elements(g.globals[g.FirstHidden()..]) == HighIds(Ends(genes), g.FirstHidden())
    ensures g.adjs == Build(g.numNodes, genes, Ends(genes))
    ensures g.edges == EdgesOf(genes, Ends(genes), g.Bias())
    ensures g.numConnections == |genes|
    ensures Covered(Ends(genes), g.FirstHidden()) ==> Relabels(genes, Ends(genes), g.globals)
  {
    var unique, mapping;
    g, unique, mapping := Numbering(genes, inputNodes, outputNodes);
    if Covered(Ends(genes), g.FirstHidden()) {
      RelabelsFromSorted(genes, unique, g.globals);
    }
    AddRecords(g, genes, mapping, Ends(genes));
  }
}
