/** A genome node and its ordered list of outgoing connections (src/node.rs).
    A connection's target, an `Rc<RefCell<Node>>` in the source, is the target's
    local id: its index in the owning genome's node sequence. */
module Nodes {

  datatype Connection = Connection(target: int, inno: int, weight: real, active: bool)

  /** Some connection in `adj` targets `to`, whether active or disabled. */
  predicate HasEdgeTo(adj: seq<Connection>, to: int)
  {
    exists k :: 0 <= k < |adj| && adj[k].target == to
  }

  /** `adj` with the active flag of every connection to `to` set to `flag`. */
  function SetActive(adj: seq<Connection>, to: int, flag: bool): seq<Connection>
  {
    seq(|adj|, k requires 0 <= k < |adj| =>
      if adj[k].target == to then adj[k].(active := flag) else adj[k])
  }

  /** The weight of the first connection to `to`, or the sentinel -1.0. */
  function WeightTo(adj: seq<Connection>, to: int): (w: real)
    ensures !HasEdgeTo(adj, to) ==> w == -1.0
    ensures HasEdgeTo(adj, to) ==>
      exists k :: 0 <= k < |adj| && adj[k].target == to && w == adj[k].weight &&
        forall m :: 0 <= m < k ==> adj[m].target != to
  {
    if adj == [] then -1.0
    else if adj[0].target == to then adj[0].weight
    else
      var w := WeightTo(adj[1..], to);
      assert HasEdgeTo(adj, to) ==> HasEdgeTo(adj[1..], to) by {
        if HasEdgeTo(adj, to) {
          var k :| 0 <= k < |adj| && adj[k].target == to;
          assert adj[1..][k - 1].target == to;
        }
      }
      assert HasEdgeTo(adj[1..], to) ==>
        (exists k :: 0 <= k < |adj| && adj[k].target == to && w == adj[k].weight &&
          forall m :: 0 <= m < k ==> adj[m].target != to) by {
        if HasEdgeTo(adj[1..], to) {
          var k :| 0 <= k < |adj[1..]| && adj[1..][k].target == to && w == adj[1..][k].weight &&
            forall m :: 0 <= m < k ==> adj[1..][m].target != to;
          assert adj[k + 1].target == to && w == adj[k + 1].weight;
          assert forall m :: 0 <= m < k + 1 ==> adj[m].target != to by {
            forall m | 0 <= m < k + 1 ensures adj[m].target != to {
              if m > 0 { assert adj[m] == adj[1..][m - 1]; }
            }
          }
        }
      }
      w
  }

  /** `adj` without its last connection; `Vec::pop` on an empty vector changes nothing. */
  function DropLast(adj: seq<Connection>): seq<Connection>
  {
    if adj == [] then [] else adj[..|adj| - 1]
  }

  /** Flipping the flag of connections that do not exist changes nothing. */
  lemma SetActiveWithoutMatch(adj: seq<Connection>, to: int, flag: bool)
    requires !HasEdgeTo(adj, to)
    ensures SetActive(adj, to, flag) == adj
  {
    forall k | 0 <= k < |adj| ensures SetActive(adj, to, flag)[k] == adj[k] {
      assert adj[k].target != to;
    }
  }

  /** Disabling and then re-enabling the connections to `to` restores the list
      when all of them were active beforehand. */
  lemma DisableThenEnableRestores(adj: seq<Connection>, to: int)
    requires forall k :: 0 <= k < |adj| && adj[k].target == to ==> adj[k].active
    ensures SetActive(SetActive(adj, to, false), to, true) == adj
  {
  }

  /** Flipping active flags never changes which targets are present, nor any weight. */
  lemma SetActiveKeepsTargets(adj: seq<Connection>, to: int, flag: bool, x: int)
    ensures HasEdgeTo(SetActive(adj, to, flag), x) <==> HasEdgeTo(adj, x)
    ensures WeightTo(SetActive(adj, to, flag), x) == WeightTo(adj, x)
  {
    var r := SetActive(adj, to, flag);
    if HasEdgeTo(r, x) {
      var k :| 0 <= k < |r| && r[k].target == x;
      assert adj[k].target == x;
    }
    if HasEdgeTo(adj, x) {
      var k :| 0 <= k < |adj| && adj[k].target == x;
      assert r[k].target == x;
    }
    WeightToPointwise(adj, r, x);
  }

  lemma {:induction false} WeightToPointwise(a: seq<Connection>, b: seq<Connection>, x: int)
    requires |a| == |b|
    requires forall k :: 0 <= k < |a| ==> a[k].target == b[k].target && a[k].weight == b[k].weight
    ensures WeightTo(a, x) == WeightTo(b, x)
  {
    if a != [] {
      WeightToPointwise(a[1..], b[1..], x);
    }
  }

  /** Appending a connection and then popping the last one restores the list. */
  lemma AddThenDropLast(adj: seq<Connection>, c: Connection)
    ensures DropLast(adj + [c]) == adj
  {
  }

  class Node {
    const localId: int
    const globalId: int
    var adj: seq<Connection>

    constructor (localId: int, globalId: int)
      ensures this.localId == localId && this.globalId == globalId
      ensures adj == []
    {
      this.localId := localId;
      this.globalId := globalId;
      adj := [];
    }

    /** Linear scan: is there a connection (active or not) to `to`? */
    method EdgeExist(to: int) returns (b: bool)
      ensures b <==> HasEdgeTo(adj, to)
    {
      for k := 0 to |adj|
        invariant forall m :: 0 <= m < k ==> adj[m].target != to
      {
        if adj[k].target == to {
          return true;
        }
      }
      return false;
    }

    method AddEdge(inno: int, weight: real, active: bool, to: int)
      modifies this
      ensures adj == old(adj) + [Connection(to, inno, weight, active)]
    {
      adj := adj + [Connection(to, inno, weight, active)];
    }

    /** Clears the active flag of EVERY connection to `to`, not only the first. */
    method DisableEdge(to: int)
      modifies this
      ensures adj == SetActive(old(adj), to, false)
    {
      SetActiveInPlace(to, false);
    }

    /** Sets the active flag of every connection to `to`. */
    method EnableEdge(to: int)
      modifies this
      ensures adj == SetActive(old(adj), to, true)
    {
      SetActiveInPlace(to, true);
    }

    method SetActiveInPlace(to: int, flag: bool)
      modifies this
      ensures adj == SetActive(old(adj), to, flag)
    {
      for k := 0 to |adj|
        invariant |adj| == |old(adj)|
        invariant forall m :: 0 <= m < k ==> adj[m] == SetActive(old(adj), to, flag)[m]
        invariant forall m :: k <= m < |adj| ==> adj[m] == old(adj)[m]
      {
        if adj[k].target == to {
          adj := adj[k := adj[k].(active := flag)];
        }
      }
    }

    /** The weight of the first connection to `to`, active or not; -1.0 if there is none. */
    method EdgeWeight(to: int) returns (w: real)
      ensures w == WeightTo(adj, to)
    {
      for k := 0 to |adj|
        invariant WeightTo(adj, to) == WeightTo(adj[k..], to)
      {
        if adj[k].target == to {
          return adj[k].weight;
        }
        assert adj[k..][1..] == adj[k + 1..];
      }
      return -1.0;
    }

    method DelBack()
      modifies this
      ensures adj == DropLast(old(adj))
    {
      if |adj| > 0 {
        adj := adj[..|adj| - 1];
      }
    }
  }
}
