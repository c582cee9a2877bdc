/** What Genome.evaluate computes (src/genome.rs:268-316), stated as values:
    every node of an acyclic network settles to its initial value when no
    active connection enters it, and otherwise to the activation of its
    initial value plus the weighted values of its active predecessors. */
module Networks {
  import opened Nodes
  import opened Graphs

  /** The number of active connections in adj that target x. */
  function ConnCount(adj: seq<Connection>, x: int): nat
  {
    if adj == [] then 0
    else ConnCount(adj[..|adj| - 1], x) + (if adj[|adj| - 1].active && adj[|adj| - 1].target == x then 1 else 0)
  }

  /** The weighted contribution a of source valued a makes to x through adj. */
  function ConnSum(adj: seq<Connection>, a: real, x: int): real
  {
    if adj == [] then 0.0
    else ConnSum(adj[..|adj| - 1], a, x) + (if adj[|adj| - 1].active && adj[|adj| - 1].target == x then a * adj[|adj| - 1].weight else 0.0)
  }

  /** Active connections into x from the sources in P below m. */
  function CountFrom(g: Adjacency, x: int, P: set<int>, m: nat): nat
    requires m <= |g|
  {
    if m == 0 then 0
    else CountFrom(g, x, P, m - 1) + (if m - 1 in P then ConnCount(g[m - 1], x) else 0)
  }

  /** Weighted input of x from the sources in P below m. */
  function SumFrom(g: Adjacency, vals: seq<real>, x: int, P: set<int>, m: nat): real
    requires m <= |g| && |vals| == |g|
  {
    if m == 0 then 0.0
    else SumFrom(g, vals, x, P, m - 1) + (if m - 1 in P then ConnSum(g[m - 1], vals[m - 1], x) else 0.0)
  }

  /** The number of active connections entering x. */
  function InDeg(g: Adjacency, x: int): nat
  {
    CountFrom(g, x, Range(|g|), |g|)
  }

  /** The weighted input of x. */
  function InSum(g: Adjacency, vals: seq<real>, x: int): real
    requires |vals| == |g|
  {
    SumFrom(g, vals, x, Range(|g|), |g|)
  }

  /** Starting values: the inputs from index 0 on, 1.0 on the bias, 0.0 elsewhere. */
  function Init(input: seq<real>, n: nat, bias: int): (init: seq<real>)
    ensures |init| == n
    ensures 0 <= bias < n ==> init[bias] == 1.0
    ensures forall i :: 0 <= i < n && i != bias ==> init[i] == if i < |input| then input[i] else 0.0
  {
    seq(n, i requires 0 <= i < n => if i == bias then 1.0 else if i < |input| then input[i] else 0.0)
  }

  /** Node x holds the value its inputs give it. */
  ghost predicate Settled(g: Adjacency, init: seq<real>, act: real -> real, vals: seq<real>, x: int)
    requires |vals| == |g| == |init| && 0 <= x < |g|
  {
    vals[x] == if InDeg(g, x) == 0 then init[x] else act(init[x] + InSum(g, vals, x))
  }

  /** Every node holds the value its inputs give it. */
  ghost predicate NetworkEquations(g: Adjacency, init: seq<real>, act: real -> real, vals: seq<real>)
  {
    |vals| == |g| == |init| && forall x :: 0 <= x < |g| ==> Settled(g, init, act, vals, x)
  }

  // ---- connection lists ----

  lemma ConnPrefixStep(adj: seq<Connection>, k: int, a: real, x: int)
    requires 0 <= k < |adj|
    ensures ConnCount(adj[..k + 1], x) == ConnCount(adj[..k], x) + (if adj[k].active && adj[k].target == x then 1 else 0)
    ensures ConnSum(adj[..k + 1], a, x) == ConnSum(adj[..k], a, x) + (if adj[k].active && adj[k].target == x then a * adj[k].weight else 0.0)
  {
    assert adj[..k + 1][..k] == adj[..k];
  }

  /** A prefix counts at most the whole list; when it counts all of it, it also sums all of it. */
  lemma {:induction false} ConnPrefixBound(adj: seq<Connection>, k: int, a: real, x: int)
    requires 0 <= k <= |adj|
    ensures ConnCount(adj[..k], x) <= ConnCount(adj, x)
    ensures ConnCount(adj[..k], x) == ConnCount(adj, x) ==> ConnSum(adj[..k], a, x) == ConnSum(adj, a, x)
    decreases |adj| - k
  {
    if k == |adj| {
      assert adj[..k] == adj;
    } else {
      ConnPrefixBound(adj, k + 1, a, x);
      ConnPrefixStep(adj, k, a, x);
    }
  }

  lemma {:induction false} ConnCountZero(adj: seq<Connection>, a: real, x: int)
    requires ConnCount(adj, x) == 0
    ensures ConnSum(adj, a, x) == 0.0
    ensures forall k :: 0 <= k < |adj| ==> !(adj[k].active && adj[k].target == x)
  {
    if adj != [] {
      ConnCountZero(adj[..|adj| - 1], a, x);
      assert forall k :: 0 <= k < |adj| - 1 ==> adj[k] == adj[..|adj| - 1][k];
    }
  }

  lemma {:induction false} ConnCountPositive(adj: seq<Connection>, x: int) returns (k: int)
    requires ConnCount(adj, x) > 0
    ensures 0 <= k < |adj| && adj[k].active && adj[k].target == x
  {
    if adj[|adj| - 1].active && adj[|adj| - 1].target == x {
      k := |adj| - 1;
    } else {
      k := ConnCountPositive(adj[..|adj| - 1], x);
      assert adj[k] == adj[..|adj| - 1][k];
    }
  }

  lemma {:induction false} ConnCountOfEdge(adj: seq<Connection>, k: int, x: int)
    requires 0 <= k < |adj| && adj[k].active && adj[k].target == x
    ensures ConnCount(adj, x) > 0
  {
    ConnPrefixStep(adj, k, 0.0, x);
    ConnPrefixBound(adj, k + 1, 0.0, x);
  }

  // ---- sets of sources ----

  lemma {:induction false} CountFromAdd(g: Adjacency, x: int, P: set<int>, u: int, m: nat)
    requires m <= |g| && u !in P
    ensures CountFrom(g, x, P + {u}, m) == CountFrom(g, x, P, m) + (if 0 <= u < m then ConnCount(g[u], x) else 0)
  {
    if m > 0 {
      CountFromAdd(g, x, P, u, m - 1);
    }
  }

  lemma {:induction false} SumFromAdd(g: Adjacency, vals: seq<real>, x: int, P: set<int>, u: int, m: nat)
    requires m <= |g| == |vals| && u !in P
    ensures SumFrom(g, vals, x, P + {u}, m) == SumFrom(g, vals, x, P, m) + (if 0 <= u < m then ConnSum(g[u], vals[u], x) else 0.0)
  {
    if m > 0 {
      SumFromAdd(g, vals, x, P, u, m - 1);
    }
  }

  /** Splitting the sources into those in S and the rest splits the count and the sum. */
  lemma {:induction false} FromSplit(g: Adjacency, vals: seq<real>, x: int, P: set<int>, S: set<int>, m: nat)
    requires m <= |g| == |vals| && S <= P
    ensures CountFrom(g, x, P, m) == CountFrom(g, x, S, m) + CountFrom(g, x, P - S, m)
    ensures SumFrom(g, vals, x, P, m) == SumFrom(g, vals, x, S, m) + SumFrom(g, vals, x, P - S, m)
  {
    if m > 0 {
      FromSplit(g, vals, x, P, S, m - 1);
    }
  }

  /** Sources that send nothing to x contribute nothing to it. */
  lemma {:induction false} CountFromZero(g: Adjacency, vals: seq<real>, x: int, Q: set<int>, m: nat)
    requires m <= |g| == |vals| && CountFrom(g, x, Q, m) == 0
    ensures SumFrom(g, vals, x, Q, m) == 0.0
    ensures forall u :: u in Q && 0 <= u < m ==> ConnCount(g[u], x) == 0
  {
    if m > 0 {
      CountFromZero(g, vals, x, Q, m - 1);
      if m - 1 in Q {
        ConnCountZero(g[m - 1], vals[m - 1], x);
      }
    }
  }

  lemma {:induction false} CountFromPositive(g: Adjacency, x: int, Q: set<int>, m: nat) returns (u: int)
    requires m <= |g| && CountFrom(g, x, Q, m) > 0
    ensures u in Q && 0 <= u < m && ConnCount(g[u], x) > 0
  {
    if m - 1 in Q && ConnCount(g[m - 1], x) > 0 {
      u := m - 1;
    } else {
      u := CountFromPositive(g, x, Q, m - 1);
    }
  }

  /** The weighted input of x only reads the values of sources that send to x. */
  lemma {:induction false} SumFromFrame(g: Adjacency, a: seq<real>, b: seq<real>, x: int, P: set<int>, m: nat)
    requires m <= |g| == |a| == |b|
    requires forall u :: u in P && 0 <= u < m && ConnCount(g[u], x) > 0 ==> a[u] == b[u]
    ensures SumFrom(g, a, x, P, m) == SumFrom(g, b, x, P, m)
  {
    if m > 0 {
      SumFromFrame(g, a, b, x, P, m - 1);
      if m - 1 in P && ConnCount(g[m - 1], x) == 0 {
        ConnCountZero(g[m - 1], a[m - 1], x);
        ConnCountZero(g[m - 1], b[m - 1], x);
      }
    }
  }

  lemma InSumFrame(g: Adjacency, a: seq<real>, b: seq<real>, x: int)
    requires |g| == |a| == |b|
    requires forall u :: 0 <= u < |g| && ConnCount(g[u], x) > 0 ==> a[u] == b[u]
    ensures InSum(g, a, x) == InSum(g, b, x)
  {
    SumFromFrame(g, a, b, x, Range(|g|), |g|);
  }

  lemma ActiveEdgeCounts(g: Adjacency, u: int, x: int)
    requires 0 <= u < |g|
    ensures ActiveEdge(g, u, x) <==> ConnCount(g[u], x) > 0
  {
    if ActiveEdge(g, u, x) {
      var k :| 0 <= k < |g[u]| && g[u][k].active && g[u][k].target == x;
      ConnCountOfEdge(g[u], k, x);
    }
    if ConnCount(g[u], x) > 0 {
      var k := ConnCountPositive(g[u], x);
    }
  }

  /** In an acyclic network the equations have one solution. */
  lemma EquationsDetermineValues(g: Adjacency, init: seq<real>, act: real -> real, a: seq<real>, b: seq<real>)
    requires NetworkEquations(g, init, act, a) && NetworkEquations(g, init, act, b)
    requires !HasCycle(g)
    ensures a == b
  {
    var D := set x | 0 <= x < |g| && a[x] != b[x];
    if D != {} {
      forall x | x in D ensures HasPredecessorIn(g, D, x) {
        assert Settled(g, init, act, a, x) && Settled(g, init, act, b, x);
        if forall u :: 0 <= u < |g| && ConnCount(g[u], x) > 0 ==> a[u] == b[u] {
          InSumFrame(g, a, b, x);
        }
        var u :| 0 <= u < |g| && ConnCount(g[u], x) > 0 && a[u] != b[u];
        ActiveEdgeCounts(g, u, x);
        assert u in D;
      }
      var x0 :| x0 in D;
      CycleFromPredecessors(g, D, x0);
    } else {
      forall x | 0 <= x < |g| ensures a[x] == b[x] {
        assert x !in D;
      }
    }
  }
}
