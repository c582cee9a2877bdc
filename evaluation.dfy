/** The topological evaluation of Genome.evaluate (src/genome.rs:268-316):
    Kahn's algorithm over the active connections, accumulating each node's
    weighted input and activating a node when its last input arrives. */
module Evaluation {
  import opened Nodes
  import opened Graphs
  import opened Networks

  /** The part of u's connection list already handled. */
  function Cur(g: Adjacency, u: int, k: int): seq<Connection>
  {
    if 0 <= u < |g| && 0 <= k <= |g[u]| then g[u][..k] else []
  }

  function ValAt(vals: seq<real>, u: int): real
  {
    if 0 <= u < |vals| then vals[u] else 0.0
  }

  ghost predicate Shape(g: Adjacency, init: seq<real>, vals: seq<real>, indeg: seq<int>, P: set<int>, u: int, k: int)
  {
    && |vals| == |g| && |indeg| == |g| && |init| == |g|
    && WellFormed(g) && Loopless(g)
    && (forall v :: v in P ==> 0 <= v < |g| && indeg[v] == 0)
    && (0 <= u < |g| ==> u !in P && indeg[u] == 0 && 0 <= k <= |g[u]|)
  }

  /** The queue holds, once each, the finished nodes not yet processed. */
  ghost predicate QueueOk(g: Adjacency, indeg: seq<int>, q: seq<int>, P: set<int>, u: int)
    requires |indeg| == |g|
  {
    && (forall i :: 0 <= i < |q| ==> 0 <= q[i] < |g| && indeg[q[i]] == 0 && q[i] !in P && q[i] != u)
    && (forall i, j :: 0 <= i < j < |q| ==> q[i] != q[j])
    && (forall x :: 0 <= x < |g| && indeg[x] == 0 ==> x in P || x == u || x in q)
  }

  /** The remaining in-degree of x: its connections not handled yet. */
  ghost predicate Counted(g: Adjacency, indeg: seq<int>, P: set<int>, u: int, k: int, x: int)
    requires |indeg| == |g| && 0 <= x < |g|
  {
    indeg[x] == InDeg(g, x) - CountFrom(g, x, P, |g|) - ConnCount(Cur(g, u, k), x)
  }

  /** An unfinished node holds its start value plus the inputs handled so far. */
  ghost predicate Partial(g: Adjacency, init: seq<real>, vals: seq<real>, P: set<int>, u: int, k: int, x: int)
    requires |vals| == |g| == |init| && 0 <= x < |g|
  {
    vals[x] == init[x] + SumFrom(g, vals, x, P, |g|) + ConnSum(Cur(g, u, k), ValAt(vals, u), x)
  }

  ghost predicate KahnInv(g: Adjacency, init: seq<real>, act: real -> real, vals: seq<real>, indeg: seq<int>, q: seq<int>, P: set<int>, u: int, k: int)
  {
    && Shape(g, init, vals, indeg, P, u, k)
    && QueueOk(g, indeg, q, P, u)
    && (forall x :: 0 <= x < |g| ==> Counted(g, indeg, P, u, k, x))
    && (forall x :: 0 <= x < |g| && indeg[x] != 0 ==> Partial(g, init, vals, P, u, k, x))
    && (forall x :: 0 <= x < |g| && indeg[x] == 0 ==> Settled(g, init, act, vals, x))
  }

  // ---- accounting ----

  lemma NoSelfInput(g: Adjacency, x: int)
    requires Loopless(g) && 0 <= x < |g|
    ensures ConnCount(g[x], x) == 0
  {
    if ConnCount(g[x], x) > 0 {
      var k := ConnCountPositive(g[x], x);
      assert false;
    }
  }

  lemma {:induction false} CountFromEmpty(g: Adjacency, vals: seq<real>, x: int, m: nat)
    requires m <= |g| == |vals|
    ensures CountFrom(g, x, {}, m) == 0 && SumFrom(g, vals, x, {}, m) == 0.0
  {
    if m > 0 {
      CountFromEmpty(g, vals, x, m - 1);
    }
  }

  /** The handled connections into x are at most all of them; when they are all,
      every source of x is handled and the handled sum is x's whole input. */
  lemma Accounted(g: Adjacency, vals: seq<real>, x: int, P: set<int>, u: int, k: int)
    requires |vals| == |g| && (forall v :: v in P ==> 0 <= v < |g|)
    requires 0 <= u < |g| ==> u !in P && 0 <= k <= |g[u]|
    ensures CountFrom(g, x, P, |g|) + ConnCount(Cur(g, u, k), x) <= InDeg(g, x)
    ensures CountFrom(g, x, P, |g|) + ConnCount(Cur(g, u, k), x) == InDeg(g, x) ==>
      && InSum(g, vals, x) == SumFrom(g, vals, x, P, |g|) + ConnSum(Cur(g, u, k), ValAt(vals, u), x)
      && forall v :: 0 <= v < |g| && ConnCount(g[v], x) > 0 ==> v in P || v == u
  {
    var S := if 0 <= u < |g| then P + {u} else P;
    FromSplit(g, vals, x, Range(|g|), S, |g|);
    if 0 <= u < |g| {
      CountFromAdd(g, x, P, u, |g|);
      SumFromAdd(g, vals, x, P, u, |g|);
      ConnPrefixBound(g[u], k, vals[u], x);
    }
    if CountFrom(g, x, P, |g|) + ConnCount(Cur(g, u, k), x) == InDeg(g, x) {
      CountFromZero(g, vals, x, Range(|g|) - S, |g|);
    }
  }

  // ---- setting up ----

  lemma Start(g: Adjacency, init: seq<real>, act: real -> real, vals: seq<real>, indeg: seq<int>, q: seq<int>)
    requires |vals| == |g| && |indeg| == |g| && |init| == |g| && WellFormed(g) && Loopless(g)
    requires vals == init
    requires forall x :: 0 <= x < |g| ==> indeg[x] == InDeg(g, x)
    requires forall i :: 0 <= i < |q| ==> 0 <= q[i] < |g| && indeg[q[i]] == 0
    requires forall i, j :: 0 <= i < j < |q| ==> q[i] < q[j]
    requires forall x :: 0 <= x < |g| && indeg[x] == 0 ==> x in q
    ensures KahnInv(g, init, act, vals, indeg, q, {}, -1, 0)
  {
    forall x | 0 <= x < |g| ensures Counted(g, indeg, {}, -1, 0, x) && Partial(g, init, vals, {}, -1, 0, x) {
      CountFromEmpty(g, vals, x, |g|);
    }
  }

  // ---- one connection of the node being processed ----

  /** Facts about the target x of the k-th connection of u, an active one. */
  lemma TargetFacts(g: Adjacency, init: seq<real>, act: real -> real, vals: seq<real>, indeg: seq<int>, q: seq<int>, P: set<int>, u: int, k: int)
    requires KahnInv(g, init, act, vals, indeg, q, P, u, k)
    requires 0 <= u < |g| && k < |g[u]| && g[u][k].active
    ensures 0 <= g[u][k].target < |g| && g[u][k].target != u && g[u][k].target !in P
    ensures indeg[g[u][k].target] >= 1
    ensures g[u][k].target !in q
  {
    var x := g[u][k].target;
    assert 0 <= x < |g| && Counted(g, indeg, P, u, k, x);
    ConnPrefixStep(g[u], k, vals[u], x);
    assert Cur(g, u, k + 1) == g[u][..k + 1];
    Accounted(g, vals, x, P, u, k + 1);
  }

  lemma StepCounted(g: Adjacency, indeg: seq<int>, indeg': seq<int>, P: set<int>, u: int, k: int, k': int)
    requires |indeg| == |indeg'| == |g| && 0 <= u < |g| && 0 <= k < |g[u]| && k' == k + 1
    requires forall x :: 0 <= x < |g| ==> Counted(g, indeg, P, u, k, x)
    requires g[u][k].active ==> 0 <= g[u][k].target < |g| && indeg' == indeg[g[u][k].target := indeg[g[u][k].target] - 1]
    requires !g[u][k].active ==> indeg' == indeg
    ensures forall x :: 0 <= x < |g| ==> Counted(g, indeg', P, u, k', x)
  {
    forall x | 0 <= x < |g| ensures Counted(g, indeg', P, u, k', x) {
      assert Counted(g, indeg, P, u, k, x);
      ConnPrefixStep(g[u], k, 0.0, x);
    }
  }

  /** After adding u's contribution to t, the unfinished node x still holds its partial sum. */
  lemma StepPartialAt(g: Adjacency, init: seq<real>, vals: seq<real>, P: set<int>, u: int, k: int, t: int, w: real, vals': seq<real>, x: int)
    requires |vals| == |g| == |init| && 0 <= u < |g| && 0 <= k < |g[u]| && g[u][k].active
    requires t == g[u][k].target && w == g[u][k].weight && 0 <= t < |g| && t != u && t !in P
    requires vals' == vals[t := vals[t] + vals[u] * w]
    requires 0 <= x < |g| && Partial(g, init, vals, P, u, k, x)
    ensures Partial(g, init, vals', P, u, k + 1, x)
  {
    SumFromFrame(g, vals, vals', x, P, |g|);
    ConnPrefixStep(g[u], k, vals[u], x);
    assert Cur(g, u, k + 1) == g[u][..k + 1] && Cur(g, u, k) == g[u][..k];
  }

  lemma StepPartial(g: Adjacency, init: seq<real>, vals: seq<real>, indeg: seq<int>, P: set<int>, u: int, k: int, t: int, w: real, vals': seq<real>, indeg': seq<int>)
    requires |vals| == |g| == |init| == |indeg| && 0 <= u < |g| && 0 <= k < |g[u]| && g[u][k].active
    requires t == g[u][k].target && w == g[u][k].weight && 0 <= t < |g| && t != u && t !in P && indeg[t] >= 1
    requires forall x :: 0 <= x < |g| && indeg[x] != 0 ==> Partial(g, init, vals, P, u, k, x)
    requires vals' == vals[t := vals[t] + vals[u] * w]
    requires indeg' == indeg[t := indeg[t] - 1]
    ensures forall x :: 0 <= x < |g| && indeg'[x] != 0 ==> Partial(g, init, vals', P, u, k + 1, x)
  {
    forall x | 0 <= x < |g| && indeg'[x] != 0 ensures Partial(g, init, vals', P, u, k + 1, x) {
      assert indeg[x] != 0;
      StepPartialAt(g, init, vals, P, u, k, t, w, vals', x);
    }
  }

  /** The node whose last input just arrived settles once activated. */
  lemma StepSettles(g: Adjacency, init: seq<real>, vals: seq<real>, indeg: seq<int>, P: set<int>, u: int, k: int, t: int)
    requires |vals| == |g| == |init| == |indeg| && (forall v :: v in P ==> 0 <= v < |g|)
    requires 0 <= u < |g| && u !in P && 0 <= k < |g[u]| && g[u][k].active
    requires t == g[u][k].target && 0 <= t < |g| && indeg[t] == 1
    requires Counted(g, indeg, P, u, k, t) && Partial(g, init, vals, P, u, k, t)
    ensures InDeg(g, t) != 0
    ensures InSum(g, vals, t) == vals[t] - init[t] + vals[u] * g[u][k].weight
  {
    ConnPrefixStep(g[u], k, vals[u], t);
    assert Cur(g, u, k + 1) == g[u][..k + 1];
    Accounted(g, vals, t, P, u, k + 1);
  }

  /** Nodes finished earlier keep their settled values. */
  lemma StepKeepsSettled(g: Adjacency, init: seq<real>, act: real -> real, vals: seq<real>, indeg: seq<int>, P: set<int>, u: int, k: int, vals': seq<real>)
    requires |vals| == |g| && |indeg| == |g| && |init| == |g|
    requires forall x :: 0 <= x < |g| ==> Counted(g, indeg, P, u, k, x)
    requires forall x :: 0 <= x < |g| && indeg[x] == 0 ==> Settled(g, init, act, vals, x)
    requires (forall v :: v in P ==> 0 <= v < |g|) && 0 <= u < |g| && u !in P && 0 <= k < |g[u]|
    requires 0 <= g[u][k].target < |g| && g[u][k].target != u && g[u][k].target !in P && indeg[g[u][k].target] >= 1
    requires |vals'| == |g| && forall y :: 0 <= y < |g| && y != g[u][k].target ==> vals'[y] == vals[y]
    ensures forall x :: 0 <= x < |g| && indeg[x] == 0 ==> Settled(g, init, act, vals', x)
  {
    var t := g[u][k].target;
    forall x | 0 <= x < |g| && indeg[x] == 0 ensures Settled(g, init, act, vals', x) {
      assert Counted(g, indeg, P, u, k, x) && Settled(g, init, act, vals, x);
      Accounted(g, vals, x, P, u, k);
      InSumFrame(g, vals, vals', x);
    }
  }

  lemma StepQueue(g: Adjacency, indeg: seq<int>, q: seq<int>, P: set<int>, u: int, t: int, indeg': seq<int>, q': seq<int>)
    requires |indeg| == |g| && QueueOk(g, indeg, q, P, u)
    requires 0 <= t < |g| && t != u && t !in P && t !in q && indeg[t] >= 1
    requires indeg' == indeg[t := indeg[t] - 1]
    requires q' == if indeg'[t] == 0 then q + [t] else q
    ensures QueueOk(g, indeg', q', P, u)
  {
  }

  /** An inactive connection changes nothing but the handled prefix. */
  lemma InactiveStep(g: Adjacency, init: seq<real>, act: real -> real, vals: seq<real>, indeg: seq<int>, q: seq<int>, P: set<int>, u: int, k: int)
    requires KahnInv(g, init, act, vals, indeg, q, P, u, k)
    requires 0 <= u < |g| && k < |g[u]| && !g[u][k].active
    ensures KahnInv(g, init, act, vals, indeg, q, P, u, k + 1)
  {
    StepCounted(g, indeg, indeg, P, u, k, k + 1);
    forall x | 0 <= x < |g| && indeg[x] != 0 ensures Partial(g, init, vals, P, u, k + 1, x) {
      assert Partial(g, init, vals, P, u, k, x);
      ConnPrefixStep(g[u], k, vals[u], x);
    }
  }

  /** An active connection whose target still waits for other inputs. */
  lemma PendingStep(g: Adjacency, init: seq<real>, act: real -> real, vals0: seq<real>, indeg0: seq<int>, q: seq<int>, P: set<int>, u: int, k: int,
                    t: int, w: real, vals: seq<real>, indeg: seq<int>)
    requires KahnInv(g, init, act, vals0, indeg0, q, P, u, k)
    requires 0 <= u < |g| && k < |g[u]| && g[u][k].active
    requires t == g[u][k].target && w == g[u][k].weight && 0 <= t < |g|
    requires vals == vals0[t := vals0[t] + vals0[u] * w] && indeg == indeg0[t := indeg0[t] - 1]
    requires indeg[t] != 0
    ensures KahnInv(g, init, act, vals, indeg, q, P, u, k + 1)
  {
    TargetFacts(g, init, act, vals0, indeg0, q, P, u, k);
    StepCounted(g, indeg0, indeg, P, u, k, k + 1);
    StepPartial(g, init, vals0, indeg0, P, u, k, t, w, vals, indeg);
    StepKeepsSettled(g, init, act, vals0, indeg0, P, u, k, vals);
    StepQueue(g, indeg0, q, P, u, t, indeg, q);
  }

  /** An active connection that delivers its target's last input: the target is activated and queued. */
  lemma SettleStep(g: Adjacency, init: seq<real>, act: real -> real, vals0: seq<real>, indeg0: seq<int>, q: seq<int>, P: set<int>, u: int, k: int,
                   t: int, w: real, vals: seq<real>, indeg: seq<int>, vals1: seq<real>, q1: seq<int>)
    requires KahnInv(g, init, act, vals0, indeg0, q, P, u, k)
    requires 0 <= u < |g| && k < |g[u]| && g[u][k].active
    requires t == g[u][k].target && w == g[u][k].weight && 0 <= t < |g|
    requires vals == vals0[t := vals0[t] + vals0[u] * w] && indeg == indeg0[t := indeg0[t] - 1]
    requires indeg[t] == 0 && vals1 == vals[t := act(vals[t])] && q1 == q + [t]
    ensures KahnInv(g, init, act, vals1, indeg, q1, P, u, k + 1)
  {
    TargetFacts(g, init, act, vals0, indeg0, q, P, u, k);
    StepCounted(g, indeg0, indeg, P, u, k, k + 1);
    StepPartial(g, init, vals0, indeg0, P, u, k, t, w, vals, indeg);
    PartialActivate(g, init, act, vals, indeg, P, u, k + 1, t, vals1);
    ActivateTarget(g, init, act, vals0, indeg0, q, P, u, k, t, w, vals, indeg, vals1);
    StepQueue(g, indeg0, q, P, u, t, indeg, q1);
  }

  /** Activating t leaves the partial sums of the unfinished nodes alone. */
  lemma PartialActivate(g: Adjacency, init: seq<real>, act: real -> real, vals: seq<real>, indeg: seq<int>, P: set<int>, u: int, k: int, t: int, vals1: seq<real>)
    requires |vals| == |g| == |init| == |indeg| && 0 <= t < |g| && indeg[t] == 0 && t !in P && t != u
    requires vals1 == vals[t := act(vals[t])]
    requires forall x :: 0 <= x < |g| && indeg[x] != 0 ==> Partial(g, init, vals, P, u, k, x)
    ensures forall x :: 0 <= x < |g| && indeg[x] != 0 ==> Partial(g, init, vals1, P, u, k, x)
  {
    forall x | 0 <= x < |g| && indeg[x] != 0 ensures Partial(g, init, vals1, P, u, k, x) {
      assert Partial(g, init, vals, P, u, k, x);
      SumFromFrame(g, vals, vals1, x, P, |g|);
    }
  }

  /** Once its last input arrives, t holds its activated input, and every finished node keeps its value. */
  lemma ActivateTarget(g: Adjacency, init: seq<real>, act: real -> real, vals0: seq<real>, indeg0: seq<int>, q: seq<int>, P: set<int>, u: int, k: int,
                       t: int, w: real, vals: seq<real>, indeg: seq<int>, vals1: seq<real>)
    requires KahnInv(g, init, act, vals0, indeg0, q, P, u, k)
    requires 0 <= u < |g| && k < |g[u]| && g[u][k].active
    requires t == g[u][k].target && w == g[u][k].weight && 0 <= t < |g| && t != u && t !in P
    requires vals == vals0[t := vals0[t] + vals0[u] * w] && indeg == indeg0[t := indeg0[t] - 1]
    requires indeg[t] == 0 && vals1 == vals[t := act(vals[t])]
    ensures forall x :: 0 <= x < |g| && indeg[x] == 0 ==> Settled(g, init, act, vals1, x)
  {
    assert Counted(g, indeg0, P, u, k, t) && Partial(g, init, vals0, P, u, k, t);
    StepSettles(g, init, vals0, indeg0, P, u, k, t);
    StepKeepsSettled(g, init, act, vals0, indeg0, P, u, k, vals1);
    NoSelfInput(g, t);
    InSumFrame(g, vals0, vals1, t);
    assert init[t] + InSum(g, vals1, t) == vals[t];
    assert Settled(g, init, act, vals1, t);
    forall x | 0 <= x < |g| && indeg[x] == 0 ensures Settled(g, init, act, vals1, x) {
      if x != t {
        assert indeg0[x] == 0;
      }
    }
  }

  /** Handling the k-th connection of u keeps the invariant. */
  method HandleConnection(ghost g: Adjacency, ghost init: seq<real>, act: real -> real, vals0: seq<real>, indeg0: seq<int>, q0: seq<int>, ghost P: set<int>, u: int, k: int, c: Connection)
    returns (vals: seq<real>, indeg: seq<int>, q: seq<int>)
    requires KahnInv(g, init, act, vals0, indeg0, q0, P, u, k)
    requires 0 <= u < |g| && k < |g[u]| && c == g[u][k]
    ensures KahnInv(g, init, act, vals, indeg, q, P, u, k + 1)
    ensures vals[u] == vals0[u]
  {
    if !c.active {
      vals, indeg, q := vals0, indeg0, q0;
      InactiveStep(g, init, act, vals, indeg, q, P, u, k);
      return;
    }
    TargetFacts(g, init, act, vals0, indeg0, q0, P, u, k);
    var t := c.target;
    var w := c.weight;
    vals := vals0[t := vals0[t] + vals0[u] * w];
    indeg := indeg0[t := indeg0[t] - 1];
    if indeg[t] == 0 {
      var vals1 := vals[t := act(vals[t])];
      q := q0 + [t];
      SettleStep(g, init, act, vals0, indeg0, q0, P, u, k, t, w, vals, indeg, vals1, q);
      vals := vals1;
    } else {
      q := q0;
      PendingStep(g, init, act, vals0, indeg0, q0, P, u, k, t, w, vals, indeg);
    }
  }

  // ---- one node ----

  lemma PopFront(g: Adjacency, init: seq<real>, act: real -> real, vals: seq<real>, indeg: seq<int>, q: seq<int>, P: set<int>)
    requires KahnInv(g, init, act, vals, indeg, q, P, -1, 0) && |q| > 0
    ensures 0 <= q[0] < |g| && q[0] !in P
    ensures KahnInv(g, init, act, vals, indeg, q[1..], P, q[0], 0)
  {
    var u := q[0];
    assert Cur(g, u, 0) == Cur(g, -1, 0);
    forall x | 0 <= x < |g| && indeg[x] != 0 ensures Partial(g, init, vals, P, u, 0, x) {
      assert Partial(g, init, vals, P, -1, 0, x);
    }
    forall x | 0 <= x < |g| && indeg[x] == 0 ensures x in P || x == u || x in q[1..] {
      assert x in P || x in q;
      if x in q && x != u {
        var i :| 0 <= i < |q| && q[i] == x;
        assert q[1..][i - 1] == x;
      }
    }
    forall x | 0 <= x < |g| ensures Counted(g, indeg, P, u, 0, x) {
      assert Counted(g, indeg, P, -1, 0, x);
    }
  }

  lemma FinishNode(g: Adjacency, init: seq<real>, act: real -> real, vals: seq<real>, indeg: seq<int>, q: seq<int>, P: set<int>, u: int)
    requires 0 <= u < |g| && KahnInv(g, init, act, vals, indeg, q, P, u, |g[u]|)
    ensures KahnInv(g, init, act, vals, indeg, q, P + {u}, -1, 0)
  {
    assert g[u][..|g[u]|] == g[u];
    forall x | 0 <= x < |g| ensures Counted(g, indeg, P + {u}, -1, 0, x) && (indeg[x] != 0 ==> Partial(g, init, vals, P + {u}, -1, 0, x)) {
      assert Counted(g, indeg, P, u, |g[u]|, x);
      CountFromAdd(g, x, P, u, |g|);
      SumFromAdd(g, vals, x, P, u, |g|);
      if indeg[x] != 0 {
        assert Partial(g, init, vals, P, u, |g[u]|, x);
      }
    }
  }

  /** Processes node u: hands its value to every active successor. */
  method ProcessNode(nodes: seq<Node>, ghost g: Adjacency, ghost init: seq<real>, act: real -> real, vals0: seq<real>, indeg0: seq<int>, q0: seq<int>, ghost P: set<int>, u: int)
    returns (vals: seq<real>, indeg: seq<int>, q: seq<int>)
    requires |nodes| == |g| && forall v :: 0 <= v < |g| ==> nodes[v].adj == g[v]
    requires KahnInv(g, init, act, vals0, indeg0, q0, P, u, 0) && 0 <= u < |g|
    ensures KahnInv(g, init, act, vals, indeg, q, P + {u}, -1, 0)
  {
    vals, indeg, q := vals0, indeg0, q0;
    var adj := nodes[u].adj;
    for k := 0 to |adj|
      invariant KahnInv(g, init, act, vals, indeg, q, P, u, k)
    {
      vals, indeg, q := HandleConnection(g, init, act, vals, indeg, q, P, u, k, adj[k]);
    }
    FinishNode(g, init, act, vals, indeg, q, P, u);
  }

  // ---- the whole evaluation ----

  /** With the queue empty, every node that is not finished lies downstream of a cycle. */
  lemma Drained(g: Adjacency, init: seq<real>, act: real -> real, vals: seq<real>, indeg: seq<int>, P: set<int>)
    requires KahnInv(g, init, act, vals, indeg, [], P, -1, 0)
    requires !HasCycle(g)
    ensures NetworkEquations(g, init, act, vals)
  {
    var D := set x | 0 <= x < |g| && indeg[x] != 0;
    if D != {} {
      forall x | x in D ensures HasPredecessorIn(g, D, x) {
        assert Counted(g, indeg, P, -1, 0, x);
        FromSplit(g, vals, x, Range(|g|), P, |g|);
        var v := CountFromPositive(g, x, Range(|g|) - P, |g|);
        ActiveEdgeCounts(g, v, x);
        assert v in D;
      }
      var x0 :| x0 in D;
      CycleFromPredecessors(g, D, x0);
    } else {
      forall x | 0 <= x < |g| ensures Settled(g, init, act, vals, x) {
        assert x !in D;
      }
    }
  }

  /** The values evaluate computes for every node. When no active cycle
      exists they solve the network equations, so they are the only solution. */
  method NodeValues(nodes: seq<Node>, ghost g: Adjacency, input: seq<real>, bias: int, act: real -> real) returns (vals: seq<real>)
    requires |nodes| == |g| && WellFormed(g) && Loopless(g)
    requires forall v :: 0 <= v < |g| ==> nodes[v].adj == g[v]
    requires |input| <= |g| && 0 <= bias < |g|
    ensures |vals| == |g|
    ensures !HasCycle(g) ==> NetworkEquations(g, Init(input, |g|, bias), act, vals)
  {
    var n := |nodes|;
    ghost var init := Init(input, n, bias);
    vals := seq(n, _ => 0.0);
    for i := 0 to |input|
      invariant |vals| == n
      invariant forall j :: 0 <= j < n ==> vals[j] == if j < i then input[j] else 0.0
    {
      vals := vals[i := input[i]];
    }
    vals := vals[bias := 1.0];
    assert vals == init;

    var indeg := seq(n, _ => 0);
    for u := 0 to n
      invariant |indeg| == n
      invariant forall x :: 0 <= x < n ==> indeg[x] == CountFrom(g, x, Range(n), u)
    {
      var adj := nodes[u].adj;
      for k := 0 to |adj|
        invariant |indeg| == n
        invariant forall x :: 0 <= x < n ==> indeg[x] == CountFrom(g, x, Range(n), u) + ConnCount(adj[..k], x)
      {
        forall x ensures ConnCount(adj[..k + 1], x) == ConnCount(adj[..k], x) + (if adj[k].active && adj[k].target == x then 1 else 0) {
          ConnPrefixStep(adj, k, 0.0, x);
        }
        if adj[k].active {
          var t := adj[k].target;
          indeg := indeg[t := indeg[t] + 1];
        }
      }
      assert adj[..|adj|] == adj;
    }

    var q: seq<int> := [];
    for u := 0 to n
      invariant forall i :: 0 <= i < |q| ==> 0 <= q[i] < u && indeg[q[i]] == 0
      invariant forall i, j :: 0 <= i < j < |q| ==> q[i] < q[j]
      invariant forall x :: 0 <= x < u && indeg[x] == 0 ==> x in q
    {
      if indeg[u] == 0 {
        q := q + [u];
      }
    }

    Start(g, init, act, vals, indeg, q);
    ghost var P: set<int> := {};
    while |q| != 0
      invariant KahnInv(g, init, act, vals, indeg, q, P, -1, 0)
      decreases Range(n) - P
    {
      PopFront(g, init, act, vals, indeg, q, P);
      var u := q[0];
      q := q[1..];
      vals, indeg, q := ProcessNode(nodes, g, init, act, vals, indeg, q, P, u);
      P := P + {u};
    }
    if !HasCycle(g) {
      Drained(g, init, act, vals, indeg, P);
    }
  }
}
