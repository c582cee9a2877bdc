/** The invariant of the iterative three-colour depth-first search that
    Genome.check_cycle runs (src/genome.rs:318-351), and one lemma per step.

    Colours: 0 white (unvisited), 1 gray (expanded, not finished), 2 black.
    Ghost bookkeeping:
    - chain: the gray nodes in the order they turned gray; it is a path, and
      pos[k] is the stack slot of chain[k];
    - parent[t]: for a stack slot that is not (yet) expanded, the index in
      chain of the node that pushed it;
    - finished, rank: nodes blackened at least once, numbered in finishing
      order; every active successor of a finished node finished earlier. */
module DepthFirst {
  import opened Nodes
  import opened Graphs

  ghost predicate Colours(g: Adjacency, c: seq<int>)
  {
    |c| == |g| && forall v :: 0 <= v < |g| ==> 0 <= c[v] <= 2
  }

  ghost predicate Stack(g: Adjacency, q: seq<int>, parent: seq<int>)
  {
    |parent| == |q| && forall t :: 0 <= t < |q| ==> 0 <= q[t] < |g|
  }

  ghost predicate Positions(q: seq<int>, chain: seq<int>, pos: seq<int>)
  {
    && |pos| == |chain|
    && (forall k :: 0 <= k < |pos| ==> k <= pos[k] < |q| && q[pos[k]] == chain[k])
    && (forall k, l :: 0 <= k < l < |pos| ==> pos[k] < pos[l])
    && (|pos| > 0 ==> pos[0] == 0)
  }

  ghost predicate GrayChain(g: Adjacency, c: seq<int>, chain: seq<int>)
    requires Colours(g, c)
  {
    && (|chain| > 0 ==> IsPath(g, chain))
    && (forall k, l :: 0 <= k < l < |chain| ==> chain[k] != chain[l])
    && (forall v :: 0 <= v < |g| ==> (c[v] == 1 <==> v in chain))
  }

  /** Every stack slot that was not expanded was pushed by the last chain
      node below it, along an active connection. */
  ghost predicate Parents(g: Adjacency, q: seq<int>, parent: seq<int>, chain: seq<int>, pos: seq<int>)
    requires |parent| == |q| && |pos| == |chain|
  {
    && (|chain| == 0 ==> |q| <= 1)
    && forall t {:trigger parent[t]} :: 0 <= t < |q| && t !in pos ==>
         || (|chain| == 0 && t == 0)
         || (&& 0 <= parent[t] < |chain|
             && pos[parent[t]] < t
             && (parent[t] + 1 == |chain| || t < pos[parent[t] + 1])
             && ActiveEdge(g, chain[parent[t]], q[t]))
  }

  /** A stale copy of a gray node lies below the slot where that node was expanded. */
  ghost predicate GrayCopies(q: seq<int>, chain: seq<int>, pos: seq<int>)
    requires |pos| == |chain|
  {
    forall t, k :: 0 <= t < |q| && t !in pos && 0 <= k < |chain| && chain[k] == q[t] ==> t < pos[k]
  }

  ghost predicate Finished(g: Adjacency, c: seq<int>, finished: set<int>, rank: seq<int>, counter: int)
    requires Colours(g, c)
  {
    && |rank| == |g|
    && (forall v :: v in finished ==> 0 <= v < |g| && c[v] != 0 && rank[v] < counter)
    && (forall v :: 0 <= v < |g| && c[v] == 2 ==> v in finished)
    && (forall v, w :: v in finished && ActiveEdge(g, v, w) ==> w in finished && rank[w] < rank[v])
  }

  /** The active successors of the first `pending` chain nodes are finished
      or still on the stack above their parent's slot. */
  ghost predicate Pending(g: Adjacency, q: seq<int>, chain: seq<int>, pos: seq<int>, finished: set<int>, pending: int)
    requires Positions(q, chain, pos)
  {
    && 0 <= pending <= |chain|
    && forall k, w :: 0 <= k < pending && ActiveEdge(g, chain[k], w) ==> w in finished || w in q[pos[k] + 1..]
  }

  ghost predicate WhiteSet(g: Adjacency, c: seq<int>, white: set<int>)
    requires Colours(g, c)
  {
    && (forall v :: v in white ==> 0 <= v < |g|)
    && (forall v :: 0 <= v < |g| ==> (v in white <==> c[v] == 0))
  }

  ghost predicate Inv(g: Adjacency, c: seq<int>, q: seq<int>, parent: seq<int>, chain: seq<int>, pos: seq<int>,
                      finished: set<int>, rank: seq<int>, counter: int, white: set<int>, pending: int)
  {
    && WellFormed(g)
    && Colours(g, c)
    && Stack(g, q, parent)
    && Positions(q, chain, pos)
    && GrayChain(g, c, chain)
    && Parents(g, q, parent, chain, pos)
    && GrayCopies(q, chain, pos)
    && Finished(g, c, finished, rank, counter)
    && Pending(g, q, chain, pos, finished, pending)
    && WhiteSet(g, c, white)
  }

  /** No node has gone back to white between colourings c0 and c. */
  ghost predicate Advanced(c0: seq<int>, c: seq<int>)
  {
    |c| == |c0| && forall v :: 0 <= v < |c0| && c0[v] != 0 ==> c[v] != 0
  }

  /** The state before the search starts. */
  lemma Initial(g: Adjacency, white: set<int>)
    requires WellFormed(g)
    requires forall v :: v in white <==> 0 <= v < |g|
    ensures Inv(g, seq(|g|, _ => 0), [], [], [], [], {}, seq(|g|, _ => 0), 0, white, 0)
  {
  }

  /** Pushing an unvisited root on the empty stack. */
  lemma PushRoot(g: Adjacency, c: seq<int>, finished: set<int>, rank: seq<int>, counter: int, white: set<int>, i: int)
    requires Inv(g, c, [], [], [], [], finished, rank, counter, white, 0)
    requires 0 <= i < |g|
    ensures Inv(g, c, [i], [-1], [], [], finished, rank, counter, white, 0)
  {
  }

  /** The slot on top of the stack is never an expanded one unless its node is gray. */
  lemma TopNotExpanded(g: Adjacency, c: seq<int>, q: seq<int>, parent: seq<int>, chain: seq<int>, pos: seq<int>,
                       finished: set<int>, rank: seq<int>, counter: int, white: set<int>, pending: int)
    requires Inv(g, c, q, parent, chain, pos, finished, rank, counter, white, pending)
    requires |q| > 0 && c[q[|q| - 1]] != 1
    ensures forall k :: 0 <= k < |pos| ==> pos[k] < |q| - 1
    ensures |q| - 1 !in pos
    ensures |chain| == 0 || ActiveEdge(g, chain[|chain| - 1], q[|q| - 1])
    ensures |chain| == 0 ==> |q| == 1
  {
    var t := |q| - 1;
    assert forall k :: 0 <= k < |pos| ==> pos[k] != t by {
      forall k | 0 <= k < |pos| ensures pos[k] != t {
        assert chain[k] in chain;
      }
    }
    var k := parent[t];
  }

  // ---- expanding the top slot ----

  lemma ExpandPositions(q: seq<int>, chain: seq<int>, pos: seq<int>)
    requires Positions(q, chain, pos) && |q| > 0
    requires forall k :: 0 <= k < |pos| ==> pos[k] < |q| - 1
    requires |chain| == 0 ==> |q| == 1
    ensures Positions(q, chain + [q[|q| - 1]], pos + [|q| - 1])
  {
    var t := |q| - 1;
    var chain', pos' := chain + [q[t]], pos + [t];
    forall k | 0 <= k < |pos'| ensures k <= pos'[k] < |q| && q[pos'[k]] == chain'[k] {
      if k == |pos| && k > 0 {
        assert k - 1 <= pos[k - 1] < t;
      }
    }
  }

  lemma ExpandGrayChain(g: Adjacency, c: seq<int>, chain: seq<int>, v: int)
    requires Colours(g, c) && GrayChain(g, c, chain)
    requires 0 <= v < |g| && c[v] != 1
    requires |chain| == 0 || ActiveEdge(g, chain[|chain| - 1], v)
    ensures Colours(g, c[v := 1]) && GrayChain(g, c[v := 1], chain + [v])
  {
    var c', chain' := c[v := 1], chain + [v];
    assert v !in chain;
    assert IsPath(g, chain') by {
      forall i | 0 <= i < |chain'| - 1 ensures ActiveEdge(g, chain'[i], chain'[i + 1]) {
        if i < |chain| - 1 {
          assert chain'[i] == chain[i] && chain'[i + 1] == chain[i + 1];
        }
      }
    }
    forall u | 0 <= u < |g| ensures (c'[u] == 1 <==> u in chain') {
      assert u in chain' <==> u in chain || u == v;
    }
  }

  lemma ExpandParents(g: Adjacency, q: seq<int>, parent: seq<int>, chain: seq<int>, pos: seq<int>)
    requires |parent| == |q| && Positions(q, chain, pos) && Parents(g, q, parent, chain, pos)
    requires |q| > 0 && forall k :: 0 <= k < |pos| ==> pos[k] < |q| - 1
    ensures Parents(g, q, parent, chain + [q[|q| - 1]], pos + [|q| - 1])
  {
    var t := |q| - 1;
    var chain', pos' := chain + [q[t]], pos + [t];
    forall t' | 0 <= t' < |q| && t' !in pos'
      ensures && 0 <= parent[t'] < |chain'|
              && pos'[parent[t']] < t'
              && (parent[t'] + 1 == |chain'| || t' < pos'[parent[t'] + 1])
              && ActiveEdge(g, chain'[parent[t']], q[t'])
    {
      assert t' !in pos && t' != t;
      assert |chain| > 0;
      var k := parent[t'];
      assert chain'[k] == chain[k] && pos'[k] == pos[k];
      if k + 1 < |chain| {
        assert pos'[k + 1] == pos[k + 1];
      }
    }
  }

  lemma ExpandGrayCopies(q: seq<int>, chain: seq<int>, pos: seq<int>)
    requires |pos| == |chain| && GrayCopies(q, chain, pos) && |q| > 0
    ensures GrayCopies(q, chain + [q[|q| - 1]], pos + [|q| - 1])
  {
    var t := |q| - 1;
    var chain', pos' := chain + [q[t]], pos + [t];
    forall t', k | 0 <= t' < |q| && t' !in pos' && 0 <= k < |chain'| && chain'[k] == q[t']
      ensures t' < pos'[k]
    {
      assert t' !in pos && t' != t;
      if k < |chain| {
        assert chain[k] == q[t'] && pos'[k] == pos[k];
      }
    }
  }

  lemma ExpandPending(g: Adjacency, q: seq<int>, chain: seq<int>, pos: seq<int>, finished: set<int>)
    requires Positions(q, chain, pos) && Pending(g, q, chain, pos, finished, |chain|)
    requires |q| > 0 && Positions(q, chain + [q[|q| - 1]], pos + [|q| - 1])
    ensures Pending(g, q, chain + [q[|q| - 1]], pos + [|q| - 1], finished, |chain|)
  {
    var chain', pos' := chain + [q[|q| - 1]], pos + [|q| - 1];
    forall k, w | 0 <= k < |chain| && ActiveEdge(g, chain'[k], w)
      ensures w in finished || w in q[pos'[k] + 1..]
    {
      assert chain'[k] == chain[k] && pos'[k] == pos[k];
    }
  }

  lemma ExpandColours(g: Adjacency, c: seq<int>, finished: set<int>, rank: seq<int>, counter: int, white: set<int>, v: int)
    requires Colours(g, c) && Finished(g, c, finished, rank, counter) && WhiteSet(g, c, white)
    requires 0 <= v < |g|
    ensures Colours(g, c[v := 1])
    ensures Finished(g, c[v := 1], finished, rank, counter) && WhiteSet(g, c[v := 1], white - {v})
  {
  }

  /** Expanding the top slot: its node turns gray and joins the chain. */
  lemma Expand(g: Adjacency, c: seq<int>, q: seq<int>, parent: seq<int>, chain: seq<int>, pos: seq<int>,
               finished: set<int>, rank: seq<int>, counter: int, white: set<int>,
               c': seq<int>, chain': seq<int>, pos': seq<int>, white': set<int>)
    requires Inv(g, c, q, parent, chain, pos, finished, rank, counter, white, |chain|)
    requires |q| > 0 && c[q[|q| - 1]] != 1
    requires c' == c[q[|q| - 1] := 1] && chain' == chain + [q[|q| - 1]] && pos' == pos + [|q| - 1]
    requires white' == white - {q[|q| - 1]}
    ensures 0 <= q[|q| - 1] < |g|
    ensures Inv(g, c', q, parent, chain', pos', finished, rank, counter, white', |chain'| - 1)
  {
    var v := q[|q| - 1];
    TopNotExpanded(g, c, q, parent, chain, pos, finished, rank, counter, white, |chain|);
    ExpandPositions(q, chain, pos);
    ExpandGrayChain(g, c, chain, v);
    ExpandParents(g, q, parent, chain, pos);
    ExpandGrayCopies(q, chain, pos);
    ExpandPending(g, q, chain, pos, finished);
    ExpandColours(g, c, finished, rank, counter, white, v);
  }

  // ---- pushing a successor ----

  lemma PushParents(g: Adjacency, q: seq<int>, parent: seq<int>, chain: seq<int>, pos: seq<int>, w: int)
    requires |parent| == |q| && Positions(q, chain, pos) && Parents(g, q, parent, chain, pos)
    requires |chain| > 0 && ActiveEdge(g, chain[|chain| - 1], w)
    ensures Parents(g, q + [w], parent + [|chain| - 1], chain, pos)
  {
    var q', parent' := q + [w], parent + [|chain| - 1];
    forall t | 0 <= t < |q'| && t !in pos
      ensures && 0 <= parent'[t] < |chain|
              && pos[parent'[t]] < t
              && (parent'[t] + 1 == |chain| || t < pos[parent'[t] + 1])
              && ActiveEdge(g, chain[parent'[t]], q'[t])
    {
      if t < |q| {
        assert parent'[t] == parent[t] && q'[t] == q[t];
      }
    }
  }

  lemma PushPending(g: Adjacency, q: seq<int>, chain: seq<int>, pos: seq<int>, finished: set<int>, pending: int, w: int)
    requires Positions(q, chain, pos) && Pending(g, q, chain, pos, finished, pending)
    requires Positions(q + [w], chain, pos)
    ensures Pending(g, q + [w], chain, pos, finished, pending)
    ensures forall a :: 0 <= a <= |q| ==> (q + [w])[a..] == q[a..] + [w]
  {
    forall a | 0 <= a <= |q| ensures (q + [w])[a..] == q[a..] + [w] {
    }
  }

  /** Pushing an unvisited active successor of the node being expanded. */
  lemma PushChild(g: Adjacency, c: seq<int>, q: seq<int>, parent: seq<int>, chain: seq<int>, pos: seq<int>,
                  finished: set<int>, rank: seq<int>, counter: int, white: set<int>, w: int)
    requires |chain| > 0
    requires Inv(g, c, q, parent, chain, pos, finished, rank, counter, white, |chain| - 1)
    requires ActiveEdge(g, chain[|chain| - 1], w) && 0 <= w < |g| && c[w] == 0
    ensures Inv(g, c, q + [w], parent + [|chain| - 1], chain, pos, finished, rank, counter, white, |chain| - 1)
    ensures (q + [w])[pos[|chain| - 1] + 1..] == q[pos[|chain| - 1] + 1..] + [w]
  {
    assert w !in chain;
    assert Positions(q + [w], chain, pos);
    PushParents(g, q, parent, chain, pos, w);
    PushPending(g, q, chain, pos, finished, |chain| - 1, w);
  }

  /** Once every active successor of the node being expanded is finished or
      pushed above it, that node's successors are accounted for too. */
  lemma CompletePending(g: Adjacency, c: seq<int>, q: seq<int>, parent: seq<int>, chain: seq<int>, pos: seq<int>,
                        finished: set<int>, rank: seq<int>, counter: int, white: set<int>)
    requires |chain| > 0 && Inv(g, c, q, parent, chain, pos, finished, rank, counter, white, |chain| - 1)
    requires forall w :: ActiveEdge(g, chain[|chain| - 1], w) ==> w in finished || w in q[pos[|chain| - 1] + 1..]
    ensures Inv(g, c, q, parent, chain, pos, finished, rank, counter, white, |chain|)
  {
  }

  /** At most one chain node per stack slot. */
  lemma ChainFitsStack(q: seq<int>, chain: seq<int>, pos: seq<int>)
    requires Positions(q, chain, pos)
    ensures |chain| <= |q|
  {
    if |chain| > 0 {
      assert |chain| - 1 <= pos[|chain| - 1] < |q|;
    }
  }

  /** An empty stack carries no chain and no pending bookkeeping. */
  lemma EmptyStack(g: Adjacency, c: seq<int>, q: seq<int>, parent: seq<int>, chain: seq<int>, pos: seq<int>,
                   finished: set<int>, rank: seq<int>, counter: int, white: set<int>)
    requires Inv(g, c, q, parent, chain, pos, finished, rank, counter, white, |chain|) && |q| == 0
    ensures Inv(g, c, [], [], [], [], finished, rank, counter, white, 0)
  {
    ChainFitsStack(q, chain, pos);
    assert q == [] && parent == [] && chain == [] && pos == [];
  }

  // ---- popping a gray top ----

  /** A gray node on top of the stack is the last chain node, expanded in that very slot. */
  lemma TopIsLastGray(g: Adjacency, c: seq<int>, q: seq<int>, parent: seq<int>, chain: seq<int>, pos: seq<int>,
                      finished: set<int>, rank: seq<int>, counter: int, white: set<int>, pending: int)
    requires Inv(g, c, q, parent, chain, pos, finished, rank, counter, white, pending)
    requires |q| > 0 && c[q[|q| - 1]] == 1
    ensures |chain| > 0 && chain[|chain| - 1] == q[|q| - 1] && pos[|chain| - 1] == |q| - 1
  {
    var t := |q| - 1;
    var v := q[t];
    assert v in chain;
    var k :| 0 <= k < |chain| && chain[k] == v;
    assert pos[k] < |q|;
    assert t in pos;
    var K :| 0 <= K < |pos| && pos[K] == t;
    assert pos[|pos| - 1] < |q|;
  }

  lemma PopPositions(q: seq<int>, chain: seq<int>, pos: seq<int>)
    requires Positions(q, chain, pos) && |chain| > 0 && pos[|chain| - 1] == |q| - 1
    ensures Positions(q[..|q| - 1], chain[..|chain| - 1], pos[..|chain| - 1])
  {
  }

  lemma PopGrayChain(g: Adjacency, c: seq<int>, chain: seq<int>)
    requires Colours(g, c) && GrayChain(g, c, chain) && |chain| > 0 && 0 <= chain[|chain| - 1] < |g|
    ensures Colours(g, c[chain[|chain| - 1] := 2])
    ensures GrayChain(g, c[chain[|chain| - 1] := 2], chain[..|chain| - 1])
  {
    var K := |chain| - 1;
    var v := chain[K];
    var c', chain' := c[v := 2], chain[..K];
    if K > 0 {
      assert IsPath(g, chain') by {
        forall i | 0 <= i < |chain'| - 1 ensures ActiveEdge(g, chain'[i], chain'[i + 1]) {
          assert chain'[i] == chain[i] && chain'[i + 1] == chain[i + 1];
        }
      }
    }
    forall u | 0 <= u < |g| ensures (c'[u] == 1 <==> u in chain') {
      if u in chain' {
        var k :| 0 <= k < |chain'| && chain'[k] == u;
        assert chain[k] == u;
      }
      if u in chain && u != v {
        var k :| 0 <= k < |chain| && chain[k] == u;
        assert k != K;
        assert chain'[k] == u;
      }
    }
  }

  lemma PopParents(g: Adjacency, q: seq<int>, parent: seq<int>, chain: seq<int>, pos: seq<int>)
    requires |parent| == |q| && Positions(q, chain, pos) && Parents(g, q, parent, chain, pos)
    requires |chain| > 0 && pos[|chain| - 1] == |q| - 1
    ensures var t, K := |q| - 1, |chain| - 1;
      Parents(g, q[..t], parent[..t], chain[..K], pos[..K])
  {
    var t, K := |q| - 1, |chain| - 1;
    var q', parent', chain', pos' := q[..t], parent[..t], chain[..K], pos[..K];
    assert pos == pos' + [t];
    forall t' | 0 <= t' < |q'| && t' !in pos'
      ensures && 0 <= parent'[t'] < |chain'|
              && pos'[parent'[t']] < t'
              && (parent'[t'] + 1 == |chain'| || t' < pos'[parent'[t'] + 1])
              && ActiveEdge(g, chain'[parent'[t']], q'[t'])
    {
      assert t' !in pos;
      assert parent'[t'] == parent[t'] && q'[t'] == q[t'];
      var k := parent[t'];
      assert 0 <= k < |chain| && pos[k] < t';
      assert k < K;
      assert chain'[k] == chain[k] && pos'[k] == pos[k];
      if k + 1 < K {
        assert pos'[k + 1] == pos[k + 1];
      }
    }
  }

  lemma PopGrayCopies(q: seq<int>, chain: seq<int>, pos: seq<int>)
    requires Positions(q, chain, pos) && GrayCopies(q, chain, pos)
    requires |chain| > 0 && pos[|chain| - 1] == |q| - 1
    ensures GrayCopies(q[..|q| - 1], chain[..|chain| - 1], pos[..|chain| - 1])
  {
    var t, K := |q| - 1, |chain| - 1;
    var q', chain', pos' := q[..t], chain[..K], pos[..K];
    assert pos == pos' + [t];
    forall t', k | 0 <= t' < |q'| && t' !in pos' && 0 <= k < |chain'| && chain'[k] == q'[t']
      ensures t' < pos'[k]
    {
      assert t' !in pos;
      assert chain[k] == q[t'];
    }
  }

  lemma PopFinished(g: Adjacency, c: seq<int>, finished: set<int>, rank: seq<int>, counter: int, v: int)
    requires Colours(g, c) && Finished(g, c, finished, rank, counter)
    requires 0 <= v < |g| && c[v] == 1
    requires forall w :: ActiveEdge(g, v, w) ==> w in finished
    ensures Colours(g, c[v := 2])
    ensures Finished(g, c[v := 2], finished + {v},
                     if v in finished then rank else rank[v := counter],
                     if v in finished then counter else counter + 1)
  {
    var rank' := if v in finished then rank else rank[v := counter];
    forall u, w | u in finished + {v} && ActiveEdge(g, u, w)
      ensures w in finished + {v} && rank'[w] < rank'[u]
    {
      if u != v || v in finished {
        assert u in finished;
        assert w in finished;
        assert v !in finished ==> w != v;
      }
    }
  }

  lemma PopPending(g: Adjacency, q: seq<int>, chain: seq<int>, pos: seq<int>, finished: set<int>)
    requires Positions(q, chain, pos) && Pending(g, q, chain, pos, finished, |chain|)
    requires |chain| > 0 && pos[|chain| - 1] == |q| - 1 && chain[|chain| - 1] == q[|q| - 1]
    requires Positions(q[..|q| - 1], chain[..|chain| - 1], pos[..|chain| - 1])
    ensures forall w :: ActiveEdge(g, q[|q| - 1], w) ==> w in finished
    ensures Pending(g, q[..|q| - 1], chain[..|chain| - 1], pos[..|chain| - 1], finished + {q[|q| - 1]}, |chain| - 1)
  {
    var t, K := |q| - 1, |chain| - 1;
    var v := q[t];
    var q', chain', pos' := q[..t], chain[..K], pos[..K];
    assert q[t + 1..] == [];
    forall w | ActiveEdge(g, v, w) ensures w in finished {
      assert ActiveEdge(g, chain[K], w);
    }
    forall k, w | 0 <= k < K && ActiveEdge(g, chain'[k], w)
      ensures w in finished + {v} || w in q'[pos'[k] + 1..]
    {
      assert chain'[k] == chain[k] && pos'[k] == pos[k];
      assert pos[k] < pos[K];
      assert q[pos[k] + 1..] == q'[pos[k] + 1..] + [v];
    }
  }

  /** The top slot holds a gray node: it is the last chain node, and popping
      it finishes that node. */
  lemma Pop(g: Adjacency, c: seq<int>, q: seq<int>, parent: seq<int>, chain: seq<int>, pos: seq<int>,
            finished: set<int>, rank: seq<int>, counter: int, white: set<int>,
            c': seq<int>, q': seq<int>, parent': seq<int>, chain': seq<int>, pos': seq<int>,
            finished': set<int>, rank': seq<int>, counter': int)
    requires Inv(g, c, q, parent, chain, pos, finished, rank, counter, white, |chain|)
    requires |q| > 0 && c[q[|q| - 1]] == 1
    requires var v, t := q[|q| - 1], |q| - 1;
      && c' == c[v := 2] && q' == q[..t] && parent' == parent[..t] && finished' == finished + {v}
      && rank' == (if v in finished then rank else rank[v := counter])
      && counter' == (if v in finished then counter else counter + 1)
    requires |chain| > 0 && chain' == chain[..|chain| - 1] && pos' == pos[..|chain| - 1]
    ensures Inv(g, c', q', parent', chain', pos', finished', rank', counter', white, |chain'|)
  {
    TopIsLastGray(g, c, q, parent, chain, pos, finished, rank, counter, white, |chain|);
    var v := q[|q| - 1];
    PopPositions(q, chain, pos);
    PopGrayChain(g, c, chain);
    PopParents(g, q, parent, chain, pos);
    PopGrayCopies(q, chain, pos);
    PopPending(g, q, chain, pos, finished);
    PopFinished(g, c, finished, rank, counter, v);
  }

  /** A gray active successor of the node being expanded closes a cycle. */
  lemma GraySuccessorCloses(g: Adjacency, c: seq<int>, q: seq<int>, parent: seq<int>, chain: seq<int>, pos: seq<int>,
                            finished: set<int>, rank: seq<int>, counter: int, white: set<int>, pending: int, w: int)
    requires Inv(g, c, q, parent, chain, pos, finished, rank, counter, white, pending)
    requires |chain| > 0 && ActiveEdge(g, chain[|chain| - 1], w) && 0 <= w < |g| && c[w] == 1
    ensures HasCycle(g)
  {
    var m :| 0 <= m < |chain| && chain[m] == w;
    CycleThroughPathSuffix(g, chain, m, w);
  }

  /** When every node is coloured and the stack is empty, all nodes are
      finished and the finishing order ranks the graph: no cycle. */
  lemma Done(g: Adjacency, c: seq<int>, finished: set<int>, rank: seq<int>, counter: int, white: set<int>)
    requires Inv(g, c, [], [], [], [], finished, rank, counter, white, 0)
    requires forall v :: 0 <= v < |g| ==> c[v] != 0
    ensures !HasCycle(g)
  {
    assert forall v :: 0 <= v < |g| ==> v in finished by {
      forall v | 0 <= v < |g| ensures v in finished {
        assert v !in [];
      }
    }
    assert Ranked(g, rank);
    RankedHasNoCycle(g, rank);
  }

  /** Genome.check_cycle (src/genome.rs:318-351): the search itself, over the
      genome's node sequence; true exactly when the active connections
      contain a directed cycle. */
  method Search(nodes: seq<Node>, ghost g: Adjacency) returns (cycle: bool)
    requires |nodes| == |g| && WellFormed(g)
    requires forall v :: 0 <= v < |nodes| ==> nodes[v].adj == g[v]
    ensures cycle <==> HasCycle(g)
  {
    var color: seq<int> := seq(|nodes|, _ => 0);
    ghost var finished: set<int> := {};
    ghost var rank: seq<int> := seq(|nodes|, _ => 0);
    ghost var counter := 0;
    ghost var white: set<int> := {};
    for i := 0 to |nodes|
      invariant forall v :: v in white <==> 0 <= v < i
    {
      white := white + {i};
    }
    Initial(g, white);
    for i := 0 to |nodes|
      invariant Inv(g, color, [], [], [], [], finished, rank, counter, white, 0)
      invariant forall v :: 0 <= v < i ==> color[v] != 0
    {
      if color[i] != 0 {
        continue;
      }
      var found;
      found, color, finished, rank, counter, white := Visit(nodes, g, color, i, finished, rank, counter, white);
      if found {
        return true;
      }
    }
    Done(g, color, finished, rank, counter, white);
    return false;
  }

  /** One tree of the search: push the white root `i` and run the stack
      until it is empty or a gray successor is met. */
  method Visit(nodes: seq<Node>, ghost g: Adjacency, color0: seq<int>, i: int,
               ghost finished0: set<int>, ghost rank0: seq<int>, ghost counter0: int, ghost white0: set<int>)
    returns (found: bool, color: seq<int>, ghost finished: set<int>, ghost rank: seq<int>, ghost counter: int, ghost white: set<int>)
    requires |nodes| == |g|
    requires forall v :: 0 <= v < |nodes| ==> nodes[v].adj == g[v]
    requires Inv(g, color0, [], [], [], [], finished0, rank0, counter0, white0, 0)
    requires 0 <= i < |g| && color0[i] == 0
    ensures found ==> HasCycle(g)
    ensures !found ==> Inv(g, color, [], [], [], [], finished, rank, counter, white, 0)
    ensures !found ==> color[i] != 0 && Advanced(color0, color)
  {
    color, finished, rank, counter, white := color0, finished0, rank0, counter0, white0;
    PushRoot(g, color, finished, rank, counter, white, i);
    var q: seq<int> := [i];
    ghost var parent: seq<int> := [-1];
    ghost var chain: seq<int> := [];
    ghost var pos: seq<int> := [];
    while |q| != 0
      invariant Inv(g, color, q, parent, chain, pos, finished, rank, counter, white, |chain|)
      invariant |chain| <= |q| && Advanced(color0, color)
      invariant |q| > 0 ==> q[0] == i
      invariant |q| == 0 ==> color[i] != 0
      decreases white, 2 * |q| - |chain|
    {
      var v := q[|q| - 1];
      if color[v] != 1 {
        found, color, q, parent, chain, pos, white :=
          ExpandTop(nodes, g, color, q, parent, chain, pos, finished, rank, counter, white);
        if found {
          return;
        }
      } else {
        color, q, parent, chain, pos, finished, rank, counter :=
          PopTop(g, color, q, parent, chain, pos, finished, rank, counter, white);
      }
    }
    EmptyStack(g, color, q, parent, chain, pos, finished, rank, counter, white);
    found := false;
  }

  /** The node in the top slot is gray: pop it and colour it black. */
  method PopTop(ghost g: Adjacency, color0: seq<int>, q0: seq<int>, ghost parent0: seq<int>, ghost chain0: seq<int>,
                ghost pos0: seq<int>, ghost finished0: set<int>, ghost rank0: seq<int>, ghost counter0: int,
                ghost white: set<int>)
    returns (color: seq<int>, q: seq<int>, ghost parent: seq<int>, ghost chain: seq<int>, ghost pos: seq<int>,
             ghost finished: set<int>, ghost rank: seq<int>, ghost counter: int)
    requires Inv(g, color0, q0, parent0, chain0, pos0, finished0, rank0, counter0, white, |chain0|)
    requires |q0| > 0 && color0[q0[|q0| - 1]] == 1
    ensures Inv(g, color, q, parent, chain, pos, finished, rank, counter, white, |chain|)
    ensures |q| == |q0| - 1 && |chain| == |chain0| - 1 && q == q0[..|q|]
    ensures Advanced(color0, color) && color[q0[|q0| - 1]] == 2
  {
    var t := |q0| - 1;
    var v := q0[t];
    TopIsLastGray(g, color0, q0, parent0, chain0, pos0, finished0, rank0, counter0, white, |chain0|);
    ghost var K := |chain0| - 1;
    color := color0[v := 2];
    rank := if v in finished0 then rank0 else rank0[v := counter0];
    counter := if v in finished0 then counter0 else counter0 + 1;
    finished := finished0 + {v};
    q, parent, chain, pos := q0[..t], parent0[..t], chain0[..K], pos0[..K];
    Pop(g, color0, q0, parent0, chain0, pos0, finished0, rank0, counter0, white,
        color, q, parent, chain, pos, finished, rank, counter);
  }

  /** The node in the top slot is not gray: colour it gray, make it the last
      chain node and push its white active successors. */
  method ExpandTop(nodes: seq<Node>, ghost g: Adjacency, color0: seq<int>, q0: seq<int>, ghost parent0: seq<int>,
                   ghost chain0: seq<int>, ghost pos0: seq<int>, ghost finished: set<int>, ghost rank: seq<int>,
                   ghost counter: int, ghost white0: set<int>)
    returns (found: bool, color: seq<int>, q: seq<int>, ghost parent: seq<int>, ghost chain: seq<int>,
             ghost pos: seq<int>, ghost white: set<int>)
    requires |nodes| == |g|
    requires forall v :: 0 <= v < |nodes| ==> nodes[v].adj == g[v]
    requires Inv(g, color0, q0, parent0, chain0, pos0, finished, rank, counter, white0, |chain0|)
    requires |q0| > 0 && color0[q0[|q0| - 1]] != 1
    ensures found ==> HasCycle(g)
    ensures !found ==> Inv(g, color, q, parent, chain, pos, finished, rank, counter, white, |chain|)
    ensures !found ==> |chain| <= |q| && |q| >= |q0| && q[0] == q0[0]
    ensures !found ==> Advanced(color0, color)
    ensures !found ==> white <= white0 && (white == white0 ==> 2 * |q| - |chain| < 2 * |q0| - |chain0|)
  {
    var t := |q0| - 1;
    var v := q0[t];
    color := color0[v := 1];
    chain := chain0 + [v];
    pos := pos0 + [t];
    white := white0 - {v};
    Expand(g, color0, q0, parent0, chain0, pos0, finished, rank, counter, white0, color, chain, pos, white);
    assert nodes[v].adj == g[v];
    assert chain[|chain| - 1] == v && pos[|chain| - 1] == t;
    found, q, parent := ExpandChildren(nodes[v].adj, color, q0, g, parent0, chain, pos, finished, rank, counter, white);
    if !found {
      ChainFitsStack(q, chain, pos);
      assert q[0] == q0[0];
      assert white == white0 ==> v in finished;
    }
  }

  /** The successor loop of one expansion: the last chain node v sits in the
      top slot; push each white active successor, stop at a gray one. */
  method ExpandChildren(adj: seq<Connection>, color: seq<int>, q0: seq<int>, ghost g: Adjacency, ghost parent0: seq<int>,
                        ghost chain: seq<int>, ghost pos: seq<int>, ghost finished: set<int>, ghost rank: seq<int>,
                        ghost counter: int, ghost white: set<int>)
    returns (found: bool, q: seq<int>, ghost parent: seq<int>)
    requires Inv(g, color, q0, parent0, chain, pos, finished, rank, counter, white, |chain| - 1)
    requires |chain| > 0 && pos[|chain| - 1] == |q0| - 1
    requires 0 <= chain[|chain| - 1] < |g| && adj == g[chain[|chain| - 1]]
    ensures found ==> HasCycle(g)
    ensures !found ==> Inv(g, color, q, parent, chain, pos, finished, rank, counter, white, |chain|)
    ensures |q| >= |q0| && q[..|q0|] == q0
    ensures chain[|chain| - 1] in finished ==> q == q0
  {
    var v := chain[|chain| - 1];
    var t := |q0| - 1;
    q, parent := q0, parent0;
    assert WellFormed(g) && |color| == |g|;
    for k := 0 to |adj|
      invariant Inv(g, color, q, parent, chain, pos, finished, rank, counter, white, |chain| - 1)
      invariant forall m :: 0 <= m < k && adj[m].active ==> adj[m].target in finished || adj[m].target in q[t + 1..]
      invariant |q| >= |q0| && q[..|q0|] == q0
      invariant v in finished ==> q == q0
    {
      var e := adj[k];
      if !e.active {
        continue;
      }
      var w := e.target;
      assert ActiveEdge(g, v, w);
      if color[w] == 0 {
        PushChild(g, color, q, parent, chain, pos, finished, rank, counter, white, w);
        q := q + [w];
        parent := parent + [|chain| - 1];
      } else if color[w] == 1 {
        GraySuccessorCloses(g, color, q, parent, chain, pos, finished, rank, counter, white, |chain| - 1, w);
        return true, q, parent;
      }
    }
    forall w | ActiveEdge(g, v, w) ensures w in finished || w in q[t + 1..] {
      var m :| 0 <= m < |adj| && adj[m].active && adj[m].target == w;
    }
    CompletePending(g, color, q, parent, chain, pos, finished, rank, counter, white);
    found := false;
  }
}
