/** The directed graph a genome induces on its local ids, seen as a value:
    which connections are active, what a path and a cycle are, and two ways of
    deciding acyclicity (a strictly decreasing ranking, or a set of nodes each
    of which has a predecessor inside the set). */
module Graphs {
  import opened Nodes

  /** adjs[u] is node u's ordered list of outgoing connections. */
  type Adjacency = seq<seq<Connection>>

  /** The ids 0..m-1. */
  function Range(m: nat): (s: set<int>)
    ensures forall u :: u in s <==> 0 <= u < m
  {
    if m == 0 then {} else Range(m - 1) + {m - 1}
  }

  /** Adding a fresh id to a set grows it by one. */
  lemma AddFreshSize(s: set<int>, x: int)
    requires x !in s
    ensures |s + {x}| == |s| + 1
  {
  }

  lemma {:induction false} RangeSize(m: nat)
    ensures |Range(m)| == m
  {
    if m > 0 {
      RangeSize(m - 1);
      AddFreshSize(Range(m - 1), m - 1);
    }
  }

  /** Every connection targets a node of the graph. */
  predicate WellFormed(g: Adjacency)
  {
    forall u, k :: 0 <= u < |g| && 0 <= k < |g[u]| ==> 0 <= g[u][k].target < |g|
  }

  /** No connection targets its own source (Genome.add_edge asserts `from != to`). */
  predicate Loopless(g: Adjacency)
  {
    forall u, k :: 0 <= u < |g| && 0 <= k < |g[u]| ==> g[u][k].target != u
  }

  /** Some ACTIVE connection leads from u to v. */
  predicate ActiveEdge(g: Adjacency, u: int, v: int)
  {
    0 <= u < |g| && exists k :: 0 <= k < |g[u]| && g[u][k].active && g[u][k].target == v
  }

  predicate IsPath(g: Adjacency, p: seq<int>)
  {
    |p| >= 1 && forall i :: 0 <= i < |p| - 1 ==> ActiveEdge(g, p[i], p[i + 1])
  }

  predicate IsCycle(g: Adjacency, p: seq<int>)
  {
    |p| >= 2 && IsPath(g, p) && p[0] == p[|p| - 1]
  }

  /** The graph of active connections contains a directed cycle. */
  ghost predicate HasCycle(g: Adjacency)
  {
    exists p :: IsCycle(g, p)
  }

  /** `rank` strictly decreases along every active connection. */
  ghost predicate Ranked(g: Adjacency, rank: seq<int>)
  {
    |rank| == |g| &&
    forall u, v :: ActiveEdge(g, u, v) && 0 <= v < |g| ==> rank[v] < rank[u]
  }

  /** g with connection c appended to node u's list. */
  function AppendConnection(g: Adjacency, u: int, c: Connection): (r: Adjacency)
    requires 0 <= u < |g|
    ensures |r| == |g|
  {
    g[u := g[u] + [c]]
  }

  /** Replacing one list by one whose targets are in range and not the node itself keeps the graph well formed and loop-free. */
  lemma ReplaceList(g: Adjacency, u: int, l: seq<Connection>)
    requires WellFormed(g) && Loopless(g) && 0 <= u < |g|
    requires forall k :: 0 <= k < |l| ==> 0 <= l[k].target < |g| && l[k].target != u
    ensures WellFormed(g[u := l]) && Loopless(g[u := l])
  {
  }

  lemma ActiveEdgeTarget(g: Adjacency, u: int, v: int)
    requires WellFormed(g) && ActiveEdge(g, u, v)
    ensures 0 <= u < |g| && 0 <= v < |g|
  {
  }

  lemma {:induction false} RankDecreasesAlongPath(g: Adjacency, rank: seq<int>, p: seq<int>)
    requires WellFormed(g) && Ranked(g, rank) && IsPath(g, p) && |p| >= 2
    ensures 0 <= p[0] < |g| && 0 <= p[|p| - 1] < |g|
    ensures rank[p[|p| - 1]] < rank[p[0]]
  {
    assert ActiveEdge(g, p[0], p[1]);
    ActiveEdgeTarget(g, p[0], p[1]);
    if |p| > 2 {
      var p' := p[1..];
      assert IsPath(g, p') by {
        forall i | 0 <= i < |p'| - 1 ensures ActiveEdge(g, p'[i], p'[i + 1]) {
          assert ActiveEdge(g, p[i + 1], p[i + 2]);
        }
      }
      RankDecreasesAlongPath(g, rank, p');
    }
  }

  /** A ranking that decreases along every active connection rules out cycles. */
  lemma RankedHasNoCycle(g: Adjacency, rank: seq<int>)
    requires WellFormed(g) && Ranked(g, rank)
    ensures !HasCycle(g)
  {
    if HasCycle(g) {
      var p :| IsCycle(g, p);
      RankDecreasesAlongPath(g, rank, p);
    }
  }

  /** Sequences of more than n values drawn from [0, n) repeat a value. */
  lemma {:induction false} Pigeonhole(w: seq<int>, n: nat)
    requires forall k :: 0 <= k < |w| ==> 0 <= w[k] < n
    requires |w| > n
    ensures exists i, j :: 0 <= i < j < |w| && w[i] == w[j]
    decreases n
  {
    assert 0 <= w[0] < n;
    var last := |w| - 1;
    var x := w[last];
    if exists i :: 0 <= i < last && w[i] == x {
      var i :| 0 <= i < last && w[i] == x;
      assert w[i] == w[last];
    } else {
      var w' := seq(last, k requires 0 <= k < last => if w[k] > x then w[k] - 1 else w[k]);
      assert forall k :: 0 <= k < last ==> w[k] != x;
      Pigeonhole(w', n - 1);
      var i, j :| 0 <= i < j < |w'| && w'[i] == w'[j];
      assert w[i] == w[j];
    }
  }

  /** A backward walk: each entry is an active predecessor of the one before it. */
  ghost predicate BackwardWalk(g: Adjacency, w: seq<int>)
  {
    forall k :: 0 <= k < |w| - 1 ==> ActiveEdge(g, w[k + 1], w[k])
  }

  /** A backward walk that revisits a node contains a cycle. */
  lemma CycleFromRepeat(g: Adjacency, w: seq<int>, i: int, j: int)
    requires BackwardWalk(g, w) && 0 <= i < j < |w| && w[i] == w[j]
    ensures HasCycle(g)
  {
    var p := seq(j - i + 1, t requires 0 <= t < j - i + 1 => w[j - t]);
    assert IsPath(g, p) by {
      forall t | 0 <= t < |p| - 1 ensures ActiveEdge(g, p[t], p[t + 1]) {
        assert p[t] == w[j - t] && p[t + 1] == w[j - t - 1];
      }
    }
    assert IsCycle(g, p);
  }

  /** v has an active predecessor inside s. */
  ghost predicate HasPredecessorIn(g: Adjacency, s: set<int>, v: int)
  {
    exists u :: u in s && ActiveEdge(g, u, v)
  }

  /** If every node of a non-empty set has an active predecessor inside the set,
      walking backwards must revisit a node: the graph has a cycle. */
  lemma CycleFromPredecessors(g: Adjacency, s: set<int>, v0: int)
    requires v0 in s
    requires forall v :: v in s ==> 0 <= v < |g|
    requires forall v {:trigger HasPredecessorIn(g, s, v)} :: v in s ==> HasPredecessorIn(g, s, v)
    ensures HasCycle(g)
  {
    var w := [v0];
    while |w| <= |g|
      invariant |w| >= 1
      invariant forall k :: 0 <= k < |w| ==> w[k] in s
      invariant BackwardWalk(g, w)
      decreases |g| - |w|
    {
      var x := w[|w| - 1];
      assert HasPredecessorIn(g, s, x);
      var u :| u in s && ActiveEdge(g, u, x);
      ExtendWalk(g, w, u);
      w := w + [u];
    }
    Pigeonhole(w, |g|);
    var i, j :| 0 <= i < j < |w| && w[i] == w[j];
    CycleFromRepeat(g, w, i, j);
  }

  lemma ExtendWalk(g: Adjacency, w: seq<int>, u: int)
    requires BackwardWalk(g, w) && |w| >= 1 && ActiveEdge(g, u, w[|w| - 1])
    ensures BackwardWalk(g, w + [u])
  {
    var w' := w + [u];
    forall k | 0 <= k < |w'| - 1 ensures ActiveEdge(g, w'[k + 1], w'[k]) {
      if k < |w| - 1 {
        assert w'[k + 1] == w[k + 1] && w'[k] == w[k];
      }
    }
  }

  /** Cycles depend only on which (source, target) pairs are joined by an active connection. */
  lemma SameActiveEdgesSameCycles(g1: Adjacency, g2: Adjacency)
    requires forall u, v :: ActiveEdge(g1, u, v) <==> ActiveEdge(g2, u, v)
    ensures HasCycle(g1) <==> HasCycle(g2)
  {
    if HasCycle(g1) {
      var p :| IsCycle(g1, p);
      assert IsCycle(g2, p);
    }
    if HasCycle(g2) {
      var p :| IsCycle(g2, p);
      assert IsCycle(g1, p);
    }
  }

  /** A cycle made of a path inside `chain` closed by one more active connection. */
  lemma CycleThroughPathSuffix(g: Adjacency, chain: seq<int>, m: int, w: int)
    requires IsPath(g, chain) && 0 <= m < |chain| && chain[m] == w
    requires ActiveEdge(g, chain[|chain| - 1], w)
    ensures HasCycle(g)
  {
    var p := chain[m..] + [w];
    assert IsPath(g, p) by {
      forall i | 0 <= i < |p| - 1 ensures ActiveEdge(g, p[i], p[i + 1]) {
        if i < |chain| - m - 1 {
          assert p[i] == chain[m + i] && p[i + 1] == chain[m + i + 1];
        }
      }
    }
    assert IsCycle(g, p);
  }

  /** g with a new node |g| placed on the connections from -> to: those are
      disabled, from -> |g| is appended with weight 1.0 and innovation inno,
      and the new node gets |g| -> to with the old weight and innovation inno + 1
      (Genome.split_edge, src/genome.rs:211-220). */
  function Subdivide(g: Adjacency, from: int, to: int, inno: int): (r: Adjacency)
    requires 0 <= from < |g|
    ensures |r| == |g| + 1
  {
    g[from := SetActive(g[from], to, false) + [Connection(|g|, inno, 1.0, true)]]
      + [[Connection(to, inno + 1, WeightTo(g[from], to), true)]]
  }

  /** The active connections of a subdivided graph: into the new node only
      from `from`, out of it only to `to`, and otherwise old active connections. */
  lemma SubdivideEdges(g: Adjacency, from: int, to: int, inno: int, x: int, y: int)
    requires WellFormed(g) && 0 <= from < |g| && 0 <= to < |g|
    requires ActiveEdge(Subdivide(g, from, to, inno), x, y)
    ensures x == |g| ==> y == to
    ensures y == |g| ==> x == from
    ensures x != |g| && y != |g| ==> ActiveEdge(g, x, y)
  {
    var r: Adjacency := Subdivide(g, from, to, inno);
    var k :| 0 <= k < |r[x]| && r[x][k].active && r[x][k].target == y;
    if x == |g| {
    } else if x == from {
      if k < |g[from]| {
        assert r[x][k] == SetActive(g[from], to, false)[k];
        assert g[from][k].target == y && g[from][k].active;
      }
    } else {
      assert r[x] == g[x];
    }
  }

  lemma PathExtend(g: Adjacency, p: seq<int>, y: int)
    requires IsPath(g, p) && ActiveEdge(g, p[|p| - 1], y)
    ensures IsPath(g, p + [y])
  {
    var p' := p + [y];
    forall i | 0 <= i < |p'| - 1 ensures ActiveEdge(g, p'[i], p'[i + 1]) {
      if i < |p| - 1 {
        assert p'[i] == p[i] && p'[i + 1] == p[i + 1];
      }
    }
  }

  /** A path of the subdivided graph between old nodes shortcuts to a path of
      the original graph with the same ends, through from -> to. */
  lemma {:induction false} SubdividedPathInOriginal(g: Adjacency, from: int, to: int, inno: int, p: seq<int>)
    returns (p': seq<int>)
    requires WellFormed(g) && 0 <= from < |g| && 0 <= to < |g| && ActiveEdge(g, from, to)
    requires IsPath(Subdivide(g, from, to, inno), p) && p[0] != |g| && p[|p| - 1] != |g|
    ensures IsPath(g, p') && p'[0] == p[0] && p'[|p'| - 1] == p[|p| - 1]
    ensures |p| >= 2 ==> |p'| >= 2
    decreases |p|
  {
    var r := Subdivide(g, from, to, inno);
    var L := |p| - 1;
    if L == 0 {
      return p;
    }
    assert ActiveEdge(r, p[L - 1], p[L]);
    SubdivideEdges(g, from, to, inno, p[L - 1], p[L]);
    if p[L - 1] != |g| {
      assert IsPath(r, p[..L]);
      var q := SubdividedPathInOriginal(g, from, to, inno, p[..L]);
      PathExtend(g, q, p[L]);
      p' := q + [p[L]];
    } else {
      assert ActiveEdge(r, p[L - 2], p[L - 1]);
      SubdivideEdges(g, from, to, inno, p[L - 2], p[L - 1]);
      assert IsPath(r, p[..L - 1]);
      var q := SubdividedPathInOriginal(g, from, to, inno, p[..L - 1]);
      PathExtend(g, q, to);
      p' := q + [to];
    }
  }

  /** Splitting an active connection never creates a cycle. */
  lemma SubdivideKeepsAcyclic(g: Adjacency, from: int, to: int, inno: int)
    requires WellFormed(g) && 0 <= from < |g| && 0 <= to < |g| && ActiveEdge(g, from, to)
    requires !HasCycle(g)
    ensures !HasCycle(Subdivide(g, from, to, inno))
  {
    var r := Subdivide(g, from, to, inno);
    if HasCycle(r) {
      var p :| IsCycle(r, p);
      var c := p;
      if p[0] == |g| {
        assert ActiveEdge(r, p[0], p[1]);
        SubdivideEdges(g, from, to, inno, p[0], p[1]);
        assert IsPath(r, p[1..]);
        PathExtend(r, p[1..], p[1]);
        c := p[1..] + [p[1]];
      }
      assert IsCycle(r, c) && c[0] != |g|;
      var p' := SubdividedPathInOriginal(g, from, to, inno, c);
      assert IsCycle(g, p');
    }
  }
}
