/** The population engine (src/population.rs): the two innovation registries,
    mutation wired through them, breeding by a two-cursor merge of the
    parents' innovation-ordered records, the counting part of the distance
    between two genomes, the first-match partition into species, and the
    bookkeeping that sizes each species' offspring. */
module Populations {
  import opened Nodes
  import opened Graphs
  import opened Records
  import opened Genomes

  // ---- innovation registries ----

  /** A lookup-or-allocate registry: the id handed out for each key, and the next id. */
  datatype Registry = Registry(ids: map<(int, int), int>, next: int)

  /** The id of key and the registry afterwards: a known key keeps its id,
      an unseen one gets the counter, which then moves on by one. */
  function Register(r: Registry, key: (int, int)): (int, Registry)
  {
    if key in r.ids then (r.ids[key], r)
    else (r.next, Registry(r.ids[key := r.next], r.next + 1))
  }

  /** Registers the keys in order. */
  function RegisterAll(r: Registry, keys: seq<(int, int)>): Registry
  {
    if keys == [] then r else Register(RegisterAll(r, keys[..|keys| - 1]), keys[|keys| - 1]).1
  }

  /** Every id handed out lies in [lo, next), and distinct keys have distinct ids. */
  predicate RegistryOk(r: Registry, lo: int)
  {
    && lo <= r.next
    && (forall k :: k in r.ids ==> lo <= r.ids[k] < r.next)
    && (forall k1, k2 :: k1 in r.ids && k2 in r.ids && k1 != k2 ==> r.ids[k1] != r.ids[k2])
  }

  /** r2 keeps every id r1 handed out, and its counter has not gone back. */
  predicate Extends(r1: Registry, r2: Registry)
  {
    r1.next <= r2.next && forall k :: k in r1.ids ==> k in r2.ids && r2.ids[k] == r1.ids[k]
  }

  /** The id returned is the one stored for key; a known key changes nothing,
      an unseen one takes the counter, which grows by exactly one. */
  lemma RegisterStores(r: Registry, key: (int, int))
    ensures key in Register(r, key).1.ids && Register(r, key).1.ids[key] == Register(r, key).0
    ensures key in r.ids ==> Register(r, key) == (r.ids[key], r)
    ensures key !in r.ids ==> Register(r, key).0 == r.next && Register(r, key).1.next == r.next + 1
    ensures Extends(r, Register(r, key).1)
  {
  }

  /** Asking again for the same key returns the same id and changes nothing. */
  lemma RegisterIdempotent(r: Registry, key: (int, int))
    ensures Register(Register(r, key).1, key) == (Register(r, key).0, Register(r, key).1)
  {
  }

  /** Registration keeps ids in range and distinct; a new key gets an id no other key has. */
  lemma RegisterKeepsOk(r: Registry, lo: int, key: (int, int))
    requires RegistryOk(r, lo)
    ensures RegistryOk(Register(r, key).1, lo)
    ensures key !in r.ids ==> forall k :: k in r.ids ==> r.ids[k] != Register(r, key).0
  {
  }

  /** Over any run of registrations the ids stay distinct and in range, the
      earlier ids are kept, and every key of the run has an id. */
  lemma {:induction false} RegisterAllOk(r: Registry, lo: int, keys: seq<(int, int)>)
    requires RegistryOk(r, lo)
    ensures RegistryOk(RegisterAll(r, keys), lo) && Extends(r, RegisterAll(r, keys))
    ensures forall k :: k in keys ==> k in RegisterAll(r, keys).ids
  {
    if keys != [] {
      var init, key := keys[..|keys| - 1], keys[|keys| - 1];
      var r0 := RegisterAll(r, init);
      RegisterAllOk(r, lo, init);
      RegisterKeepsOk(r0, lo, key);
      RegisterStores(r0, key);
      forall k | k in keys ensures k in RegisterAll(r, keys).ids {
        if k != key {
          assert k in init;
        }
      }
    }
  }

  // ---- the registry counters of Population::new ----

  /** The first innovation number and global id the registries hand out, as
      Population::new sets them: inputs * outputs and inputs + outputs. */
  function InitialCountersAsWritten(inputs: nat, outputs: nat): (int, int)
  {
    (inputs * outputs, inputs + outputs)
  }

  /** The first free innovation number and global id after connect_ends:
      (inputs + 1) * outputs innovation numbers and ids 0..inputs + outputs are taken. */
  function InitialCounters(inputs: nat, outputs: nat): (int, int)
  {
    ((inputs + 1) * outputs, inputs + outputs + 1)
  }

  // ---- breeding: the two-cursor merge ----

  /** The child's record for u's gene a when it matches v's gene b: u's
      endpoints and innovation number, with the chosen parent's weight and flag. */
  function Mix(a: GenomeInfo, b: GenomeInfo, fromU: bool): GenomeInfo
  {
    if fromU then a else a.(weight := b.weight, active := b.active)
  }

  /** The records breed gives the child from cursor positions i and j of the
      fitter parent's records gu and the other's gv: a gene of u alone is
      kept, a matching gene takes the weight and flag of the parent `pick`
      chooses for it, and a gene of v alone is skipped. */
  function Cross(gu: seq<GenomeInfo>, gv: seq<GenomeInfo>, pick: int -> bool, i: nat, j: nat): seq<GenomeInfo>
    requires i <= |gu| && j <= |gv|
    decreases |gu| - i + |gv| - j
  {
    if i == |gu| then []
    else if j == |gv| then [gu[i]] + Cross(gu, gv, pick, i + 1, j)
    else if gu[i].inno == gv[j].inno then [Mix(gu[i], gv[j], pick(i))] + Cross(gu, gv, pick, i + 1, j + 1)
    else if gu[i].inno < gv[j].inno then [gu[i]] + Cross(gu, gv, pick, i + 1, j)
    else Cross(gu, gv, pick, i, j + 1)
  }

  /** Every match the walk from (i, j) meets has the same endpoints in both parents. */
  predicate Agree(gu: seq<GenomeInfo>, gv: seq<GenomeInfo>, i: nat, j: nat)
    requires i <= |gu| && j <= |gv|
    decreases |gu| - i + |gv| - j
  {
    if i == |gu| || j == |gv| then true
    else if gu[i].inno == gv[j].inno then gu[i].from == gv[j].from && gu[i].to == gv[j].to && Agree(gu, gv, i + 1, j + 1)
    else if gu[i].inno < gv[j].inno then Agree(gu, gv, i + 1, j)
    else Agree(gu, gv, i, j + 1)
  }

  /** The child has one record per gene of u from i on, in u's order, with u's
      endpoints and innovation numbers; each takes its weight and flag from
      that gene or from a gene of v with the same innovation number, so a
      gene v alone has is never added. */
  lemma {:induction false} CrossFollowsU(gu: seq<GenomeInfo>, gv: seq<GenomeInfo>, pick: int -> bool, i: nat, j: nat)
    requires i <= |gu| && j <= |gv|
    ensures |Cross(gu, gv, pick, i, j)| == |gu| - i
    ensures forall k :: 0 <= k < |gu| - i ==>
      && Cross(gu, gv, pick, i, j)[k].from == gu[i + k].from
      && Cross(gu, gv, pick, i, j)[k].to == gu[i + k].to
      && Cross(gu, gv, pick, i, j)[k].inno == gu[i + k].inno
      && (Cross(gu, gv, pick, i, j)[k] == gu[i + k] ||
          exists b :: b in gv && b.inno == gu[i + k].inno && Cross(gu, gv, pick, i, j)[k] == Mix(gu[i + k], b, false))
    decreases |gu| - i + |gv| - j
  {
    var c := Cross(gu, gv, pick, i, j);
    if i == |gu| {
    } else if j == |gv| || gu[i].inno < gv[j].inno {
      CrossFollowsU(gu, gv, pick, i + 1, j);
      var rest := Cross(gu, gv, pick, i + 1, j);
      assert c == [gu[i]] + rest;
      forall k | 1 <= k < |gu| - i
        ensures c[k].from == gu[i + k].from && c[k].to == gu[i + k].to && c[k].inno == gu[i + k].inno
        ensures c[k] == gu[i + k] || exists b :: b in gv && b.inno == gu[i + k].inno && c[k] == Mix(gu[i + k], b, false)
      {
        assert c[k] == rest[k - 1] && i + 1 + (k - 1) == i + k;
      }
    } else if gu[i].inno == gv[j].inno {
      CrossFollowsU(gu, gv, pick, i + 1, j + 1);
      var rest := Cross(gu, gv, pick, i + 1, j + 1);
      assert c == [Mix(gu[i], gv[j], pick(i))] + rest;
      assert c[0] == gu[i] || (gv[j] in gv && gv[j].inno == gu[i].inno && c[0] == Mix(gu[i], gv[j], false));
      forall k | 1 <= k < |gu| - i
        ensures c[k].from == gu[i + k].from && c[k].to == gu[i + k].to && c[k].inno == gu[i + k].inno
        ensures c[k] == gu[i + k] || exists b :: b in gv && b.inno == gu[i + k].inno && c[k] == Mix(gu[i + k], b, false)
      {
        assert c[k] == rest[k - 1] && i + 1 + (k - 1) == i + k;
      }
    } else {
      CrossFollowsU(gu, gv, pick, i, j + 1);
    }
  }

  /** When every match is taken from u, the child's records are u's own. */
  lemma {:induction false} CrossOfFitter(gu: seq<GenomeInfo>, gv: seq<GenomeInfo>, pick: int -> bool, i: nat, j: nat)
    requires i <= |gu| && j <= |gv|
    requires forall k :: pick(k)
    ensures Cross(gu, gv, pick, i, j) == gu[i..]
    decreases |gu| - i + |gv| - j
  {
    if i == |gu| {
    } else if j == |gv| || gu[i].inno < gv[j].inno {
      CrossOfFitter(gu, gv, pick, i + 1, j);
      assert gu[i..] == [gu[i]] + gu[i + 1..];
    } else if gu[i].inno == gv[j].inno {
      CrossOfFitter(gu, gv, pick, i + 1, j + 1);
      assert gu[i..] == [gu[i]] + gu[i + 1..];
    } else {
      CrossOfFitter(gu, gv, pick, i, j + 1);
    }
  }

  /** The child mentions exactly the ids the fitter parent's records mention. */
  lemma CrossEnds(gu: seq<GenomeInfo>, gv: seq<GenomeInfo>, pick: int -> bool)
    ensures Ends(Cross(gu, gv, pick, 0, 0)) == Ends(gu)
    ensures forall r :: r in Cross(gu, gv, pick, 0, 0) ==> exists k :: 0 <= k < |gu| && r.from == gu[k].from && r.to == gu[k].to
  {
    var c := Cross(gu, gv, pick, 0, 0);
    CrossFollowsU(gu, gv, pick, 0, 0);
    forall y | y in Ends(c) ensures y in Ends(gu) {
      var r :| r in c && (y == r.from || y == r.to);
      var k :| 0 <= k < |c| && c[k] == r;
      assert gu[k] in gu;
    }
    forall y | y in Ends(gu) ensures y in Ends(c) {
      var r :| r in gu && (y == r.from || y == r.to);
      var k :| 0 <= k < |gu| && gu[k] == r;
      assert c[k] in c;
    }
  }

  // ---- the counting part of delta ----

  /** The walk of delta from cursor positions (i, j): the matching and disjoint
      genes it counts and the cursor positions it stops at. */
  function Tally(gu: seq<GenomeInfo>, gv: seq<GenomeInfo>, i: nat, j: nat): (nat, nat, nat, nat)
    requires i <= |gu| && j <= |gv|
    decreases |gu| - i + |gv| - j
  {
    if i == |gu| || j == |gv| then (0, 0, i, j)
    else if gu[i].inno == gv[j].inno then
      var t := Tally(gu, gv, i + 1, j + 1);
      (t.0 + 1, t.1, t.2, t.3)
    else if gu[i].inno < gv[j].inno then
      var t := Tally(gu, gv, i + 1, j);
      (t.0, t.1 + 1, t.2, t.3)
    else Tally(gu, gv, i, j + 1)
  }

  /** One step of delta's walk. */
  lemma TallyStep(gu: seq<GenomeInfo>, gv: seq<GenomeInfo>, i: nat, j: nat)
    requires i <= |gu| && j <= |gv|
    ensures i == |gu| || j == |gv| ==> Tally(gu, gv, i, j) == (0, 0, i, j)
    ensures i < |gu| && j < |gv| && gu[i].inno == gv[j].inno ==>
      var t := Tally(gu, gv, i + 1, j + 1); Tally(gu, gv, i, j) == (t.0 + 1, t.1, t.2, t.3)
    ensures i < |gu| && j < |gv| && gu[i].inno < gv[j].inno ==>
      var t := Tally(gu, gv, i + 1, j); Tally(gu, gv, i, j) == (t.0, t.1 + 1, t.2, t.3)
    ensures i < |gu| && j < |gv| && gu[i].inno > gv[j].inno ==> Tally(gu, gv, i, j) == Tally(gu, gv, i, j + 1)
  {
  }

  /** delta's walk over two innovation-ordered gene lists: it stops at
      the end of either list, at the indices Tally reports. */
  method CountGenes(gu: seq<GenomeInfo>, gv: seq<GenomeInfo>) returns (matching: int, disjoint: int, i: nat, j: nat)
    ensures (matching, disjoint, i, j) == Tally(gu, gv, 0, 0)
  {
    i, j := 0, 0;
    matching, disjoint := 0, 0;
    ghost var whole := Tally(gu, gv, 0, 0);
    while i < |gu| && j < |gv|
      invariant i <= |gu| && j <= |gv|
      invariant var t := Tally(gu, gv, i, j);
        matching + t.0 == whole.0 && disjoint + t.1 == whole.1 && t.2 == whole.2 && t.3 == whole.3
      decreases |gu| - i + |gv| - j
    {
      TallyStep(gu, gv, i, j);
      if gu[i].inno == gv[j].inno {
        matching := matching + 1;
        i, j := i + 1, j + 1;
      } else if gu[i].inno < gv[j].inno {
        disjoint := disjoint + 1;
        i := i + 1;
      } else {
        j := j + 1;
      }
    }
    TallyStep(gu, gv, i, j);
  }

  /** Every gene of u the walk passes is counted as matching or disjoint, and
      the walk stops when one of the lists is used up. */
  lemma {:induction false} TallyCounts(gu: seq<GenomeInfo>, gv: seq<GenomeInfo>, i: nat, j: nat)
    requires i <= |gu| && j <= |gv|
    ensures var t := Tally(gu, gv, i, j);
      && i <= t.2 <= |gu| && j <= t.3 <= |gv| && (t.2 == |gu| || t.3 == |gv|)
      && t.0 + t.1 == t.2 - i
    decreases |gu| - i + |gv| - j
  {
    if i == |gu| || j == |gv| {
    } else if gu[i].inno == gv[j].inno {
      TallyCounts(gu, gv, i + 1, j + 1);
    } else if gu[i].inno < gv[j].inno {
      TallyCounts(gu, gv, i + 1, j);
    } else {
      TallyCounts(gu, gv, i, j + 1);
    }
  }

  /** The size delta divides by: the longer list, or 1 when both are shorter than 20. */
  function Normaliser(lu: nat, lv: nat): (n: int)
  {
    var m := if lu < lv then lv else lu;
    if m < 20 then 1 else m
  }

  // ---- which genes of v the merge reads ----

  /** The cursor positions (i, j) at which the walk meets equal innovation numbers. */
  function MatchedAt(gu: seq<GenomeInfo>, gv: seq<GenomeInfo>, i: nat, j: nat): seq<(int, int)>
    requires i <= |gu| && j <= |gv|
    decreases |gu| - i + |gv| - j
  {
    if i == |gu| || j == |gv| then []
    else if gu[i].inno == gv[j].inno then [(i, j)] + MatchedAt(gu, gv, i + 1, j + 1)
    else if gu[i].inno < gv[j].inno then MatchedAt(gu, gv, i + 1, j)
    else MatchedAt(gu, gv, i, j + 1)
  }

  /** The genes breed and delta read at each match as written: gu[i] and gv[i]. */
  function ReadAsWritten(gu: seq<GenomeInfo>, gv: seq<GenomeInfo>): seq<(int, int)>
  {
    var m := MatchedAt(gu, gv, 0, 0);
    seq(|m|, k requires 0 <= k < |m| => (m[k].0, m[k].0))
  }

  /** Reading gv at the second cursor reads, at every match, a gene of v
      with the innovation number of u's gene. */
  lemma {:induction false} MatchedAtAgree(gu: seq<GenomeInfo>, gv: seq<GenomeInfo>, i: nat, j: nat)
    requires i <= |gu| && j <= |gv|
    ensures forall p :: p in MatchedAt(gu, gv, i, j) ==>
      i <= p.0 < |gu| && j <= p.1 < |gv| && gu[p.0].inno == gv[p.1].inno
    decreases |gu| - i + |gv| - j
  {
    if i == |gu| || j == |gv| {
    } else if gu[i].inno == gv[j].inno {
      MatchedAtAgree(gu, gv, i + 1, j + 1);
    } else if gu[i].inno < gv[j].inno {
      MatchedAtAgree(gu, gv, i + 1, j);
    } else {
      MatchedAtAgree(gu, gv, i, j + 1);
    }
  }

  /** u with innovation numbers 0 and 2, v with 2 alone: the match is met at
      i = 1, j = 0, and reading gv[i] reads past the end of v's one record. */
  lemma ReadPastEnd()
    ensures var gu := [GenomeInfo(0, 2, 0, 1.0, true), GenomeInfo(1, 2, 2, 1.0, true)];
      var gv := [GenomeInfo(1, 2, 2, 1.0, true)];
      ReadAsWritten(gu, gv) == [(1, 1)] && ReadAsWritten(gu, gv)[0].1 >= |gv|
      && MatchedAt(gu, gv, 0, 0) == [(1, 0)]
  {
    var gu := [GenomeInfo(0, 2, 0, 1.0, true), GenomeInfo(1, 2, 2, 1.0, true)];
    var gv := [GenomeInfo(1, 2, 2, 1.0, true)];
    assert MatchedAt(gu, gv, 2, 1) == [];
    assert MatchedAt(gu, gv, 1, 0) == [(1, 0)];
    assert MatchedAt(gu, gv, 0, 0) == [(1, 0)];
  }

  // ---- breed's hidden-node threshold ----

  /** The ids breed's numbering pass, as written, makes hidden nodes for:
      those at or above inputs + outputs. */
  function BreedHiddenAsWritten(ends: set<int>, inputs: nat, outputs: nat): (r: set<int>)
    ensures r <= ends && forall y :: y in r ==> y >= inputs + outputs
  {
    HighIds(ends, inputs + outputs)
  }

  /** Genome::new already made the node with id inputs + outputs (the last
      of the input, bias and output nodes). When a parent's records mention
      it, breed as written makes it a second, hidden node as well: one
      hidden node more than un_flatten makes for the same records. */
  lemma BreedHiddenAsWrittenExtra(ends: set<int>, inputs: nat, outputs: nat)
    requires inputs + outputs in ends
    ensures BreedHiddenAsWritten(ends, inputs, outputs) == HighIds(ends, inputs + outputs + 1) + {inputs + outputs}
    ensures |BreedHiddenAsWritten(ends, inputs, outputs)| == |HighIds(ends, inputs + outputs + 1)| + 1
  {
    var lo := inputs + outputs;
    assert HighIds(ends, lo) == HighIds(ends, lo + 1) + {lo};
    AddFreshSize(HighIds(ends, lo + 1), lo);
  }

  // ---- the counters of Population::new against connect_ends ----

  /** The innovation number connect_ends gives the connection from node i to output j. */
  function EndsInno(i: int, j: int, outputs: int): int
  {
    i * outputs + j
  }

  /** As written, the first split id is the last output's global id, which
      every genome already carries (so that split_edge does nothing), and the
      first innovation number is the one connect_ends gave the bias's
      connection to the first output. */
  lemma CountersCollide(inputs: nat, outputs: nat)
    requires outputs > 0
    ensures 0 <= InitialCountersAsWritten(inputs, outputs).1 < inputs + outputs + 1
    ensures InitialCountersAsWritten(inputs, outputs).0 == EndsInno(inputs, 0, outputs)
  {
  }

  /** The corrected counters start past everything connect_ends used: the
      split id above every input, bias and output id, the innovation number
      above every i * outputs + j it handed out. */
  lemma CountersFresh(inputs: nat, outputs: nat)
    ensures InitialCounters(inputs, outputs).1 >= inputs + outputs + 1
    ensures forall i, j :: 0 <= i <= inputs && 0 <= j < outputs ==> EndsInno(i, j, outputs) < InitialCounters(inputs, outputs).0
  {
    forall i, j | 0 <= i <= inputs && 0 <= j < outputs
      ensures EndsInno(i, j, outputs) < InitialCounters(inputs, outputs).0
    {
      FanIndex(i, j, inputs, outputs);
    }
  }

  // ---- split registration in mutate ----

  /** What mutate's split path does to the registries for a connection between
      global ids uG and vG: the split registry gives the new node's id n, the
      edge registry registers (uG, n) and then (n, vG). Returns n, the
      innovation number of (uG, n), and both registries afterwards. */
  function SplitRegistration(split: Registry, edges: Registry, uG: int, vG: int): (int, int, Registry, Registry)
  {
    var (n, split') := Register(split, (uG, vG));
    var (inno, edges1) := Register(edges, (uG, n));
    var (_, edges2) := Register(edges1, (n, vG));
    (n, inno, split', edges2)
  }

  /** The split registry records (uG, vG), the edge registry both new
      connections; when both are new their innovation numbers are consecutive,
      so split_edge's inno + 1 is the one the registry gave (n, vG). */
  lemma SplitInnosConsecutive(split: Registry, edges: Registry, uG: int, vG: int)
    ensures var (n, inno, split', edges') := SplitRegistration(split, edges, uG, vG);
      && (uG, vG) in split'.ids && split'.ids[(uG, vG)] == n
      && (uG, n) in edges'.ids && edges'.ids[(uG, n)] == inno && (n, vG) in edges'.ids
      && Extends(split, split') && Extends(edges, edges')
      && ((uG, n) !in edges.ids && (n, vG) !in edges.ids && (uG, n) != (n, vG) ==> edges'.ids[(n, vG)] == inno + 1)
  {
    var (n, split') := Register(split, (uG, vG));
    var (inno, edges1) := Register(edges, (uG, n));
    RegisterStores(split, (uG, vG));
    RegisterStores(edges, (uG, n));
    RegisterStores(edges1, (n, vG));
  }

  /** A known pair need not give consecutive numbers: with (uG, n) already
      registered as 5 and the counter at 9, (n, vG) gets 9, not 6. */
  lemma SplitInnosApart()
    ensures var edges := Registry(map[(0, 7) := 5], 9);
      var (n, inno, _, edges') := SplitRegistration(Registry(map[(0, 1) := 7], 8), edges, 0, 1);
      n == 7 && inno == 5 && edges'.ids[(7, 1)] == 9
  {
  }

  // ---- no parallel connections ----

  /** No node has two connections to the same target. */
  predicate Simple(g: Adjacency)
  {
    forall u, k1, k2 :: 0 <= u < |g| && 0 <= k1 < k2 < |g[u]| ==> g[u][k1].target != g[u][k2].target
  }

  /** Re-enabling keeps the targets, so no connection is duplicated. */
  lemma EnableKeepsSimple(g: Adjacency, u: int, v: int)
    requires Simple(g) && 0 <= u < |g|
    ensures Simple(g[u := SetActive(g[u], v, true)])
  {
    var g': Adjacency := g[u := SetActive(g[u], v, true)];
    forall x: int, k1: int, k2: int | 0 <= x < |g'| && 0 <= k1 < k2 < |g'[x]| ensures g'[x][k1].target != g'[x][k2].target {
      if x == u {
        assert g'[x][k1].target == g[u][k1].target && g'[x][k2].target == g[u][k2].target;
      }
    }
  }

  /** Appending a connection to a target the list does not have yet keeps it simple. */
  lemma AppendKeepsSimple(g: Adjacency, u: int, c: Connection)
    requires Simple(g) && 0 <= u < |g| && !HasEdgeTo(g[u], c.target)
    ensures Simple(AppendConnection(g, u, c))
  {
    var g': Adjacency := AppendConnection(g, u, c);
    forall x: int, k1: int, k2: int | 0 <= x < |g'| && 0 <= k1 < k2 < |g'[x]| ensures g'[x][k1].target != g'[x][k2].target {
      if x == u && k2 == |g[u]| {
        assert g'[x][k1] == g[u][k1];
      }
    }
  }

  /** Splitting a connection of a well-formed simple graph leaves it simple:
      the new node is a target nothing had before. */
  lemma SubdivideKeepsSimple(g: Adjacency, from: int, to: int, inno: int)
    requires Simple(g) && WellFormed(g) && 0 <= from < |g| && 0 <= to < |g|
    ensures Simple(Subdivide(g, from, to, inno))
  {
    var g1: Adjacency := g[from := SetActive(g[from], to, false)];
    assert Simple(g1) by {
      forall x: int, k1: int, k2: int | 0 <= x < |g1| && 0 <= k1 < k2 < |g1[x]| ensures g1[x][k1].target != g1[x][k2].target {
        if x == from {
          assert g1[x][k1].target == g[from][k1].target && g1[x][k2].target == g[from][k2].target;
        }
      }
    }
    var r: Adjacency := Subdivide(g, from, to, inno);
    forall x: int, k1: int, k2: int | 0 <= x < |r| && 0 <= k1 < k2 < |r[x]| ensures r[x][k1].target != r[x][k2].target {
      if x == from && k2 == |g[from]| {
        assert r[x][k1] == g1[from][k1] && g1[from][k1].target == g[from][k1].target;
      } else if x < |g| {
        assert r[x][k1] == g1[x][k1] || x == from;
      }
    }
  }

  // ---- speciation ----

  /** Who leads a species: a genome of the current population (by index), or
      a genome of the generation being sorted into species. */
  datatype Leader = Prev(index: int) | Fresh(index: int)

  datatype Species = Species(organisms: seq<int>, leader: int)

  /** The leader of each species of the previous generation. */
  function PrevLeaders(species: seq<Species>): (ls: seq<Leader>)
    ensures |ls| == |species|
  {
    seq(|species|, i requires 0 <= i < |species| => Prev(species[i].leader))
  }

  /** The first leader from position t on that x is close to, or |ls|. */
  function FirstClose(ls: seq<Leader>, close: (Leader, int) -> bool, x: int, t: nat): (f: nat)
    requires t <= |ls|
    ensures t <= f <= |ls|
    ensures forall s :: t <= s < f ==> !close(ls[s], x)
    ensures f < |ls| ==> close(ls[f], x)
    decreases |ls| - t
  {
    if t == |ls| then |ls|
    else if close(ls[t], x) then t
    else FirstClose(ls, close, x, t + 1)
  }

  /** The leaders and species after the first k genomes of the new generation:
      a genome joins the first species whose leader it is close to, and
      otherwise founds a new species that it leads. */
  function Grouping(prev: seq<Leader>, close: (Leader, int) -> bool, k: nat): (r: (seq<Leader>, seq<seq<int>>))
    ensures |r.0| == |r.1|
  {
    if k == 0 then (prev, seq(|prev|, _ => []))
    else
      var (ls, gs) := Grouping(prev, close, k - 1);
      var t := FirstClose(ls, close, k - 1, 0);
      if t < |ls| then (ls, gs[t := gs[t] + [k - 1]])
      else (ls + [Fresh(k - 1)], gs + [[k - 1]])
  }

  /** The number of groups that hold x. */
  function Occurrences(gs: seq<seq<int>>, x: int): nat
  {
    if gs == [] then 0 else Occurrences(gs[..|gs| - 1], x) + (if x in gs[|gs| - 1] then 1 else 0)
  }

  /** Every genome 0..n-1 is in exactly one group, each group lists its
      genomes in increasing order, and no group lists anything else. */
  predicate Partition(gs: seq<seq<int>>, n: nat)
  {
    && (forall s :: 0 <= s < |gs| ==> Increasing(gs[s]) && forall x :: x in gs[s] ==> 0 <= x < n)
    && (forall x :: 0 <= x < n ==> Occurrences(gs, x) == 1)
  }

  lemma {:induction false} OccurrencesNone(gs: seq<seq<int>>, x: int)
    requires forall s :: 0 <= s < |gs| ==> x !in gs[s]
    ensures Occurrences(gs, x) == 0
  {
    if gs != [] {
      OccurrencesNone(gs[..|gs| - 1], x);
    }
  }

  lemma {:induction false} OccurrencesUpdate(gs: seq<seq<int>>, t: int, g: seq<int>, x: int)
    requires 0 <= t < |gs|
    ensures Occurrences(gs[t := g], x) + (if x in gs[t] then 1 else 0) == Occurrences(gs, x) + (if x in g then 1 else 0)
  {
    var last := |gs| - 1;
    if t == last {
      assert gs[t := g][..last] == gs[..last];
    } else {
      OccurrencesUpdate(gs[..last], t, g, x);
      assert gs[t := g][..last] == gs[..last][t := g];
    }
  }

  lemma OccurrencesAppend(gs: seq<seq<int>>, g: seq<int>, x: int)
    ensures Occurrences(gs + [g], x) == Occurrences(gs, x) + (if x in g then 1 else 0)
  {
    assert (gs + [g])[..|gs|] == gs;
  }

  /** The species keep the previous generation's leaders in front, and every
      species founded since is led by its first member. */
  lemma {:induction false} GroupingShape(prev: seq<Leader>, close: (Leader, int) -> bool, k: nat)
    ensures var (ls, gs) := Grouping(prev, close, k);
      && |prev| <= |ls| && ls[..|prev|] == prev
      && forall s :: |prev| <= s < |ls| ==> ls[s].Fresh? && gs[s] != [] && gs[s][0] == ls[s].index
  {
    if k > 0 {
      GroupingShape(prev, close, k - 1);
      var (ls, gs) := Grouping(prev, close, k - 1);
      var t := FirstClose(ls, close, k - 1, 0);
      if t >= |ls| {
        assert (ls + [Fresh(k - 1)])[..|prev|] == ls[..|prev|];
      }
    }
  }

  /** After k genomes, the species partition 0..k-1. */
  lemma {:induction false} GroupingPartition(prev: seq<Leader>, close: (Leader, int) -> bool, k: nat)
    ensures Partition(Grouping(prev, close, k).1, k)
  {
    if k > 0 {
      GroupingPartition(prev, close, k - 1);
      var (ls0, gs0) := Grouping(prev, close, k - 1);
      var t := FirstClose(ls0, close, k - 1, 0);
      if t < |ls0| {
        PartitionJoin(gs0, k - 1, t);
      } else {
        PartitionNew(gs0, k - 1);
      }
    }
  }

  /** Adding the next genome to an existing group keeps a partition. */
  lemma PartitionJoin(gs0: seq<seq<int>>, x: nat, t: nat)
    requires Partition(gs0, x) && t < |gs0|
    ensures Partition(gs0[t := gs0[t] + [x]], x + 1)
  {
    var gs := gs0[t := gs0[t] + [x]];
    assert forall s :: 0 <= s < |gs0| ==> x !in gs0[s];
    OccurrencesNone(gs0, x);
    forall y | 0 <= y < x + 1 ensures Occurrences(gs, y) == 1 {
      OccurrencesUpdate(gs0, t, gs0[t] + [x], y);
    }
    forall s | 0 <= s < |gs| ensures Increasing(gs[s]) && forall y :: y in gs[s] ==> 0 <= y < x + 1 {
      if s == t {
        assert forall y :: y in gs0[t] ==> y < x;
        IncreasingAppend(gs0[t], x);
      }
    }
  }

  /** Opening a new group for the next genome keeps a partition. */
  lemma PartitionNew(gs0: seq<seq<int>>, x: nat)
    requires Partition(gs0, x)
    ensures Partition(gs0 + [[x]], x + 1)
  {
    var gs := gs0 + [[x]];
    assert forall s :: 0 <= s < |gs0| ==> x !in gs0[s];
    OccurrencesNone(gs0, x);
    forall y | 0 <= y < x + 1 ensures Occurrences(gs, y) == 1 {
      OccurrencesAppend(gs0, [x], y);
    }
    forall s | 0 <= s < |gs| ensures Increasing(gs[s]) && forall y :: y in gs[s] ==> 0 <= y < x + 1 {
      if s == |gs0| {
        assert gs[s] == [x];
      }
    }
  }

  lemma IncreasingAppend(s: seq<int>, x: int)
    requires Increasing(s) && forall y :: y in s ==> y < x
    ensures Increasing(s + [x])
  {
    var r := s + [x];
    forall a, b | 0 <= a < b < |r| ensures r[a] < r[b] {
      if b == |s| {
        assert r[a] == s[a] && s[a] in s;
      }
    }
  }

  /** Each genome of a group was close to none of the leaders before its
      group's, and was close to its group's leader or leads the group itself. */
  predicate FirstFit(ls: seq<Leader>, gs: seq<seq<int>>, close: (Leader, int) -> bool)
    requires |ls| == |gs|
  {
    forall s, x :: 0 <= s < |gs| && x in gs[s] ==> Joined(ls, close, s, x)
  }

  /** x is close to none of the first s leaders, and is close to leader s or is that leader. */
  predicate Joined(ls: seq<Leader>, close: (Leader, int) -> bool, s: int, x: int)
    requires 0 <= s < |ls|
  {
    (forall t :: 0 <= t < s ==> !close(ls[t], x)) && (close(ls[s], x) || ls[s] == Fresh(x))
  }

  /** A genome in a species was close to none of the leaders before it, and
      was close to that species' leader or founded the species. */
  lemma {:induction false} GroupingFirstClose(prev: seq<Leader>, close: (Leader, int) -> bool, k: nat)
    ensures FirstFit(Grouping(prev, close, k).0, Grouping(prev, close, k).1, close)
  {
    if k > 0 {
      GroupingFirstClose(prev, close, k - 1);
      var ls0 := Grouping(prev, close, k - 1).0;
      var gs0 := Grouping(prev, close, k - 1).1;
      var ls := Grouping(prev, close, k).0;
      var gs := Grouping(prev, close, k).1;
      var x := k - 1;
      var t := FirstClose(ls0, close, x, 0);
      if t < |ls0| {
        assert ls == ls0 && gs == gs0[t := gs0[t] + [x]];
      } else {
        assert ls == ls0 + [Fresh(x)] && gs == gs0 + [[x]];
      }
      forall s, y | 0 <= s < |gs| && y in gs[s]
        ensures Joined(ls, close, s, y)
      {
        if t < |ls0| {
          if s == t && y == x {
            forall q | 0 <= q < s ensures !close(ls[q], y) {
              assert ls[q] == ls0[q];
            }
          } else {
            assert y in gs0[s] && Joined(ls0, close, s, y);
            forall q | 0 <= q < s ensures !close(ls[q], y) {
              assert ls[q] == ls0[q];
            }
          }
        } else {
          if s == |gs0| {
            assert y == x;
            forall q | 0 <= q < s ensures !close(ls[q], y) {
              assert ls[q] == ls0[q];
            }
          } else {
            assert y in gs0[s] && ls[s] == ls0[s] && Joined(ls0, close, s, y);
            forall q | 0 <= q < s ensures !close(ls[q], y) {
              assert ls[q] == ls0[q];
            }
          }
        }
      }
    }
  }

  /** The non-empty groups, in order: the species speciate means to return. */
  function NonEmpty(gs: seq<seq<int>>): (r: seq<seq<int>>)
    ensures |r| <= |gs|
    ensures forall s :: 0 <= s < |r| ==> r[s] != []
  {
    if gs == [] then []
    else NonEmpty(gs[..|gs| - 1]) + (if gs[|gs| - 1] == [] then [] else [gs[|gs| - 1]])
  }

  /** Dropping the empty groups keeps a partition a partition. */
  lemma {:induction false} NonEmptyPartition(gs: seq<seq<int>>, n: nat)
    ensures forall g :: g in NonEmpty(gs) <==> g in gs && g != []
    ensures forall x :: Occurrences(NonEmpty(gs), x) == Occurrences(gs, x)
    ensures Partition(gs, n) ==> Partition(NonEmpty(gs), n)
  {
    if gs != [] {
      var init, last := gs[..|gs| - 1], gs[|gs| - 1];
      NonEmptyPartition(init, n);
      forall x ensures Occurrences(NonEmpty(gs), x) == Occurrences(gs, x) {
        if last != [] {
          OccurrencesAppend(NonEmpty(init), last, x);
        } else {
          assert NonEmpty(gs) == NonEmpty(init);
        }
      }
      forall g ensures g in NonEmpty(gs) <==> g in gs && g != [] {
        assert g in gs <==> g in init || g == last by {
          assert gs == init + [last];
        }
      }
      if Partition(gs, n) {
        forall s | 0 <= s < |NonEmpty(gs)|
          ensures Increasing(NonEmpty(gs)[s]) && forall x :: x in NonEmpty(gs)[s] ==> 0 <= x < n
        {
          var g := NonEmpty(gs)[s];
          assert g in NonEmpty(gs);
          var t :| 0 <= t < |gs| && gs[t] == g;
        }
      }
    }
  }

  /** The species speciate returns as written: every group, empty ones
      included, each with the leader 0 it was created with. */
  function SpeciesAsWritten(prev: seq<Leader>, close: (Leader, int) -> bool, n: nat): seq<Species>
  {
    var gs := Grouping(prev, close, n).1;
    seq(|gs|, s requires 0 <= s < |gs| => Species(gs[s], 0))
  }

  /** One previous species and two genomes close to nothing: the returned
      species are [], [0] and [1], all led by 0 — an empty species, and one
      whose leader is not among its members. */
  lemma SpeciesAsWrittenEmpty()
    ensures var r := SpeciesAsWritten([Prev(0)], (l, x) => false, 2);
      |r| == 3 && r[0].organisms == [] && r[2].organisms == [1] && r[2].leader !in r[2].organisms
  {
    var close: (Leader, int) -> bool := (l, x) => false;
    var e: seq<int> := [];
    var g0 := Grouping([Prev(0)], close, 0);
    assert g0.0 == [Prev(0)] && |g0.1| == 1 && g0.1[0] == e;
    assert g0.1 == [e];
    assert FirstClose([Prev(0)], close, 0, 0) == 1;
    var g1 := Grouping([Prev(0)], close, 1);
    assert g1.0 == [Prev(0), Fresh(0)];
    assert g1.1 == [e] + [[0]];
    assert FirstClose(g1.0, close, 1, 0) == 2;
    var g2 := Grouping([Prev(0)], close, 2);
    assert g2.0 == g1.0 + [Fresh(1)] && g2.1 == g1.1 + [[1]];
  }

  /** What speciate means to return: the non-empty groups, in order, each
      led by the member at the position draw(s, size) picks. */
  function Speciation(prev: seq<Species>, close: (Leader, int) -> bool, n: nat, draw: (int, int) -> int): seq<Species>
    requires forall k, m :: 0 < m ==> 0 <= draw(k, m) < m
  {
    var gs := NonEmpty(Grouping(PrevLeaders(prev), close, n).1);
    seq(|gs|, s requires 0 <= s < |gs| => Species(gs[s], gs[s][draw(s, |gs[s]|)]))
  }

  /** The species partition the n genomes, none is empty, and each is led by one of its members. */
  lemma SpeciationPartition(prev: seq<Species>, close: (Leader, int) -> bool, n: nat, draw: (int, int) -> int)
    requires forall k, m :: 0 < m ==> 0 <= draw(k, m) < m
    ensures var species := Speciation(prev, close, n, draw);
      && Partition(Members(species), n)
      && forall s :: 0 <= s < |species| ==> species[s].organisms != [] && species[s].leader in species[s].organisms
  {
    var gs := Grouping(PrevLeaders(prev), close, n).1;
    GroupingPartition(PrevLeaders(prev), close, n);
    NonEmptyPartition(gs, n);
    assert Members(Speciation(prev, close, n, draw)) == NonEmpty(gs);
  }

  /** The members of each species. */
  function Members(species: seq<Species>): (gs: seq<seq<int>>)
    ensures |gs| == |species| && forall s :: 0 <= s < |gs| ==> gs[s] == species[s].organisms
  {
    seq(|species|, s requires 0 <= s < |species| => species[s].organisms)
  }

  /** The last species that lists a, or -1: the one whose entries
      next_generation's bookkeeping keeps for a. */
  function LastHolder(species: seq<Species>, a: int): (h: int)
    ensures -1 <= h < |species|
    ensures h >= 0 ==> a in species[h].organisms
    ensures forall t :: h < t < |species| ==> a !in species[t].organisms
  {
    if species == [] then -1
    else if a in species[|species| - 1].organisms then |species| - 1
    else LastHolder(species[..|species| - 1], a)
  }

  /** The size of a's species, 0 for a genome in none. */
  function SizeOf(species: seq<Species>, a: int): int
  {
    var h := LastHolder(species, a);
    if h < 0 then 0 else |species[h].organisms|
  }

  /** The index of a's species, 0 for a genome in none. */
  function IndexOf(species: seq<Species>, a: int): int
  {
    var h := LastHolder(species, a);
    if h < 0 then 0 else h
  }

  lemma {:induction false} OccurrencesSome(gs: seq<seq<int>>, x: int, s: int)
    requires 0 <= s < |gs| && x in gs[s]
    ensures Occurrences(gs, x) >= 1
  {
    if s < |gs| - 1 {
      OccurrencesSome(gs[..|gs| - 1], x, s);
    }
  }

  lemma {:induction false} OccurrencesTwo(gs: seq<seq<int>>, x: int, s: int, t: int)
    requires 0 <= s < t < |gs| && x in gs[s] && x in gs[t]
    ensures Occurrences(gs, x) >= 2
  {
    if t == |gs| - 1 {
      OccurrencesSome(gs[..|gs| - 1], x, s);
    } else {
      OccurrencesTwo(gs[..|gs| - 1], x, s, t);
    }
  }

  /** When the species partition the genomes, the species that lists a is
      the one the bookkeeping finds. */
  lemma PartitionHolder(species: seq<Species>, n: nat, s: int, a: int)
    requires Partition(Members(species), n)
    requires 0 <= s < |species| && a in species[s].organisms
    ensures LastHolder(species, a) == s
  {
    var h := LastHolder(species, a);
    assert Members(species)[s] == species[s].organisms;
    if h > s {
      OccurrencesTwo(Members(species), a, s, h);
    }
  }

  /** The bookkeeping for the first k species followed by species k. */
  lemma LastHolderNext(species: seq<Species>, k: int, a: int)
    requires 0 <= k < |species|
    ensures LastHolder(species[..k + 1], a) == if a in species[k].organisms then k else LastHolder(species[..k], a)
  {
    assert species[..k + 1][..k] == species[..k];
  }

  /** speciate's main loop: genome idx joins the first species whose leader
      it is close to, or founds a species of its own. */
  method SortIntoSpecies(leaders0: seq<Leader>, sp0: seq<seq<int>>, close: (Leader, int) -> bool, n: nat)
    returns (leaders: seq<Leader>, sp: seq<seq<int>>)
    requires (leaders0, sp0) == Grouping(leaders0, close, 0)
    ensures (leaders, sp) == Grouping(leaders0, close, n)
  {
    leaders, sp := leaders0, sp0;
    for idx := 0 to n
      invariant (leaders, sp) == Grouping(leaders0, close, idx)
    {
      var i := 0;
      while i < |leaders| && !close(leaders[i], idx)
        invariant i <= |leaders| && forall s :: 0 <= s < i ==> !close(leaders[s], idx)
      {
        i := i + 1;
      }
      var added := i < |leaders|;
      assert i == FirstClose(leaders, close, idx, 0);
      if added {
        sp := sp[i := sp[i] + [idx]];
      } else {
        leaders := leaders + [Fresh(idx)];
        sp := sp + [[idx]];
      }
    }
  }

  /** speciate's copy of the species that are not empty. */
  method KeepNonEmpty(sp: seq<seq<int>>) returns (kept: seq<seq<int>>)
    ensures kept == NonEmpty(sp)
  {
    kept := [];
    for i := 0 to |sp|
      invariant kept == NonEmpty(sp[..i])
    {
      assert sp[..i + 1][..i] == sp[..i];
      if sp[i] != [] {
        kept := kept + [sp[i]];
      }
    }
    assert sp[..|sp|] == sp;
  }

  // ---- create_species and next_generation ----

  /** create_species' top_members: half the species' size, rounded half up. */
  function TopMembers(n: nat): (t: nat)
    ensures t <= n
  {
    (n + 1) / 2
  }

  /** Rounds n / 2 to the nearest whole number, halves up, and is positive exactly for a non-empty species. */
  lemma TopMembersRounds(n: nat)
    ensures n <= 2 * TopMembers(n) <= n + 1
    ensures TopMembers(n) > 0 <==> n > 0
  {
  }

  /** The species index and offspring count of each create_species call
      next_generation makes, as written: the counts are read at a cursor that
      moves on only past species that are not skipped. */
  function PlanAsWritten(sizes: seq<nat>, counts: seq<int>, k: nat, idx: nat): seq<(int, int)>
    requires |counts| == |sizes| && idx <= k <= |sizes|
    decreases |sizes| - k
  {
    if k == |sizes| then []
    else if sizes[k] == 0 || counts[idx] == 0 then PlanAsWritten(sizes, counts, k + 1, idx)
    else [(k, counts[idx])] + PlanAsWritten(sizes, counts, k + 1, idx + 1)
  }

  /** The calls next_generation means to make: species k, non-empty and with a
      non-zero count, gets counts[k] offspring. */
  function Plan(sizes: seq<nat>, counts: seq<int>, k: nat): seq<(int, int)>
    requires |counts| == |sizes| && k <= |sizes|
    decreases |sizes| - k
  {
    if k == |sizes| then []
    else if sizes[k] == 0 || counts[k] == 0 then Plan(sizes, counts, k + 1)
    else [(k, counts[k])] + Plan(sizes, counts, k + 1)
  }

  /** How many genomes create_species makes for an offspring count: its
      loop runs count times, and not at all for a negative count. */
  function Made(count: int): nat
  {
    if count < 0 then 0 else count
  }

  /** Which species, and which of its create_species rounds, makes each
      genome of a plan, in the order next_generation appends them. */
  function Lineage(plan: seq<(int, int)>): (r: seq<(int, int)>)
    ensures |r| == Total(plan)
  {
    if plan == [] then [] else Rounds(plan[0].0, Made(plan[0].1)) + Lineage(plan[1..])
  }

  /** The n rounds of create_species for species k. */
  function Rounds(k: int, n: nat): (r: seq<(int, int)>)
    ensures |r| == n && forall j :: 0 <= j < n ==> r[j] == (k, j)
  {
    seq(n, j => (k, j))
  }

  /** The lineage made so far, followed by the plan from species k on, is the
      lineage made once species k is done, followed by the plan from k + 1 on. */
  lemma LineageAdvance(lin: seq<(int, int)>, sizes: seq<nat>, counts: seq<int>, k: nat)
    requires |counts| == |sizes| && k < |sizes|
    ensures sizes[k] == 0 || counts[k] == 0 ==> lin + Lineage(Plan(sizes, counts, k)) == lin + Lineage(Plan(sizes, counts, k + 1))
    ensures sizes[k] != 0 && counts[k] != 0 ==>
      lin + Lineage(Plan(sizes, counts, k)) == (lin + Rounds(k, Made(counts[k]))) + Lineage(Plan(sizes, counts, k + 1))
  {
    PlanStep(sizes, counts, k);
    if sizes[k] == 0 || counts[k] == 0 {
      assert [] + Lineage(Plan(sizes, counts, k + 1)) == Lineage(Plan(sizes, counts, k + 1));
    } else {
      var r, rest := Rounds(k, Made(counts[k])), Lineage(Plan(sizes, counts, k + 1));
      assert lin + (r + rest) == (lin + r) + rest;
    }
  }

  /** The species next_generation breeds from: at generation 0 the
      population is first sorted into species, later the previous ones are kept. */
  function SpeciesOf(gen: int, previous: seq<Species>, close: (Leader, int) -> bool, n: nat, draw: (int, int) -> int): seq<Species>
    requires gen == 0 ==> forall k, m :: 0 < m ==> 0 <= draw(k, m) < m
  {
    if gen == 0 then Speciation(previous, close, n, draw) else previous
  }

  /** The genomes a plan makes. */
  function Total(plan: seq<(int, int)>): int
  {
    if plan == [] then 0 else Made(plan[0].1) + Total(plan[1..])
  }

  /** The genomes the counts from k on would make. */
  function Sum(counts: seq<int>, k: nat): int
    requires k <= |counts|
    decreases |counts| - k
  {
    if k == |counts| then 0 else Made(counts[k]) + Sum(counts, k + 1)
  }

  /** When every species is non-empty, the planned offspring add up to the sum of the counts. */
  lemma {:induction false} PlanTotal(sizes: seq<nat>, counts: seq<int>, k: nat)
    requires |counts| == |sizes| && k <= |sizes|
    requires forall s :: 0 <= s < |sizes| ==> sizes[s] > 0
    ensures Total(Plan(sizes, counts, k)) == Sum(counts, k)
    decreases |sizes| - k
  {
    if k < |sizes| {
      PlanTotal(sizes, counts, k + 1);
      var rest := Plan(sizes, counts, k + 1);
      if counts[k] != 0 {
        assert ([(k, counts[k])] + rest)[1..] == rest;
      }
    }
  }

  /** Two species of one genome each, counts 0 and 2: as written the second
      species reads the first one's count, so no offspring are made, where
      two are meant. */
  lemma PlanSkipMisreads()
    ensures PlanAsWritten([1, 1], [0, 2], 0, 0) == [] && Total(Plan([1, 1], [0, 2], 0)) == 2
  {
    assert Plan([1, 1], [0, 2], 0) == [(1, 2)];
  }

  /** The species of a partition of 0..n only name organisms below n. */
  lemma PartitionBounds(species: seq<Species>, n: nat)
    requires Partition(Members(species), n)
    ensures forall s, a :: 0 <= s < |species| && a in species[s].organisms ==> 0 <= a < n
  {
    forall s, a | 0 <= s < |species| && a in species[s].organisms ensures 0 <= a < n {
      assert Members(species)[s] == species[s].organisms;
    }
  }

  /** The size of every species. */
  function Sizes(species: seq<Species>): (r: seq<nat>)
    ensures |r| == |species| && forall s :: 0 <= s < |r| ==> r[s] == |species[s].organisms|
  {
    seq(|species|, s requires 0 <= s < |species| => |species[s].organisms|)
  }

  /** The offspring count of every species, as the fitness sharing rounds it. */
  function Counts(species: seq<Species>, offspring: int -> int): (r: seq<int>)
    ensures |r| == |species| && forall s :: 0 <= s < |r| ==> r[s] == offspring(s)
  {
    seq(|species|, s requires 0 <= s < |species| => offspring(s))
  }

  /** The entries of xs at the positions org lists, in order. */
  function Gathered<T>(xs: seq<T>, org: seq<int>): (r: seq<T>)
    requires forall i :: 0 <= i < |org| ==> 0 <= org[i] < |xs|
    ensures |r| == |org| && forall i :: 0 <= i < |r| ==> r[i] == xs[org[i]]
  {
    seq(|org|, i requires 0 <= i < |org| => xs[org[i]])
  }

  /** next_generation's gathering of a species' genomes and fitness values. */
  method Gather<T>(xs: seq<T>, org: seq<int>) returns (r: seq<T>)
    requires forall i :: 0 <= i < |org| ==> 0 <= org[i] < |xs|
    ensures r == Gathered(xs, org)
  {
    r := [];
    for i := 0 to |org|
      invariant r == Gathered(xs, org[..i])
    {
      r := r + [xs[org[i]]];
    }
    assert org[..|org|] == org;
  }

  /** Skipping species k, or making its count of offspring, moves the plan on by one species. */
  lemma PlanStep(sizes: seq<nat>, counts: seq<int>, k: nat)
    requires |counts| == |sizes| && k < |sizes|
    ensures Total(Plan(sizes, counts, k)) ==
      (if sizes[k] == 0 || counts[k] == 0 then 0 else Made(counts[k])) + Total(Plan(sizes, counts, k + 1))
    ensures Lineage(Plan(sizes, counts, k)) ==
      (if sizes[k] == 0 || counts[k] == 0 then [] else Rounds(k, Made(counts[k]))) + Lineage(Plan(sizes, counts, k + 1))
  {
    var rest := Plan(sizes, counts, k + 1);
    if sizes[k] != 0 && counts[k] != 0 {
      assert ([(k, counts[k])] + rest)[1..] == rest;
    } else {
      assert [] + Lineage(rest) == Lineage(rest);
    }
  }

  // ---- breed's two loops ----

  /** One step of the walk: the record the child takes at (i, j), if any, and the next positions. */
  lemma CrossStep(gu: seq<GenomeInfo>, gv: seq<GenomeInfo>, pick: int -> bool, i: nat, j: nat)
    requires i < |gu| && j <= |gv|
    ensures j == |gv| ==> Cross(gu, gv, pick, i, j) == [gu[i]] + Cross(gu, gv, pick, i + 1, j)
    ensures j < |gv| && gu[i].inno == gv[j].inno ==>
      Cross(gu, gv, pick, i, j) == [Mix(gu[i], gv[j], pick(i))] + Cross(gu, gv, pick, i + 1, j + 1)
    ensures j < |gv| && gu[i].inno < gv[j].inno ==> Cross(gu, gv, pick, i, j) == [gu[i]] + Cross(gu, gv, pick, i + 1, j)
    ensures j < |gv| && gu[i].inno > gv[j].inno ==> Cross(gu, gv, pick, i, j) == Cross(gu, gv, pick, i, j + 1)
  {
  }

  /** Moving one record from the front of the rest to the end of what was added keeps the whole. */
  lemma Shift(added: seq<GenomeInfo>, rest: seq<GenomeInfo>, r: GenomeInfo, rest': seq<GenomeInfo>, whole: seq<GenomeInfo>)
    requires added + rest == whole && rest == [r] + rest'
    ensures (added + [r]) + rest' == whole
  {
    assert (added + [r]) + rest' == added + ([r] + rest');
  }

  /** The child g holds exactly the connections of the records added so far. */
  ghost predicate Holds(g: Genome, added: seq<GenomeInfo>, u: set<int>)
    reads g, g.nodes
  {
    g.Valid() && g.adjs == Build(g.numNodes, added, u) && g.edges == EdgesOf(added, u, g.Bias()) && g.numConnections == |added|
  }

  /** One connection of the merge: the record r becomes a connection between
      the local ids of its endpoints. */
  method AddRecord(g: Genome, ghost added: seq<GenomeInfo>, r: GenomeInfo, mapping: map<int, int>, ghost u: set<int>)
    requires Holds(g, added, u) && |u| <= g.numNodes && r.from in u && r.to in u && r.from != r.to
    requires mapping.Keys == u && forall y :: y in mapping ==> mapping[y] == Rank(u, y)
    modifies g, g.nodes
    ensures Holds(g, added + [r], u)
    ensures g.nodes == old(g.nodes) && g.globals == old(g.globals) && g.numNodes == old(g.numNodes)
  {
    RankBounds(u, r.from, r.to);
    RankBounds(u, r.to, r.from);
    RankInjective(u, r.from, r.to);
    BuildAppend(g.numNodes, added, r, u, g.Bias());
    g.AddEdge(mapping[r.from], mapping[r.to], r.inno, r.weight, r.active);
  }

  /** The requirements of the merge on the child and on the fitter parent's records. */
  ghost predicate MergeReady(g: Genome, gu: seq<GenomeInfo>, mapping: map<int, int>, u: set<int>)
    reads g
  {
    && Ends(gu) <= u && |u| <= g.numNodes
    && (forall r :: r in gu ==> r.from != r.to)
    && mapping.Keys == u && forall y :: y in mapping ==> mapping[y] == Rank(u, y)
  }

  /** breed's first loop: while both parents have records left, a gene of u
      alone is added, a match is added with the weight and flag of the parent
      `pick` chooses, and a gene of v alone is skipped. */
  method WalkBoth(g: Genome, gu: seq<GenomeInfo>, gv: seq<GenomeInfo>, pick: int -> bool, mapping: map<int, int>, ghost u: set<int>,
                  ghost whole: seq<GenomeInfo>, ghost added: seq<GenomeInfo>, i0: nat, j0: nat)
    returns (i: nat, j: nat, ghost added': seq<GenomeInfo>)
    requires MergeReady(g, gu, mapping, u) && Holds(g, added, u)
    requires i0 <= |gu| && j0 <= |gv| && Agree(gu, gv, i0, j0) && added + Cross(gu, gv, pick, i0, j0) == whole
    modifies g, g.nodes
    ensures i <= |gu| && j <= |gv| && (i == |gu| || j == |gv|)
    ensures added' + Cross(gu, gv, pick, i, j) == whole && Holds(g, added', u)
    ensures g.nodes == old(g.nodes) && g.globals == old(g.globals) && g.numNodes == old(g.numNodes)
  {
    i, j, added' := i0, j0, added;
    while i < |gu| && j < |gv|
      invariant i <= |gu| && j <= |gv| && Agree(gu, gv, i, j)
      invariant added' + Cross(gu, gv, pick, i, j) == whole
      invariant Holds(g, added', u) && g.nodes == old(g.nodes) && g.globals == old(g.globals) && g.numNodes == old(g.numNodes)
      decreases |gu| - i + |gv| - j
    {
      assert gu[i] in gu;
      CrossStep(gu, gv, pick, i, j);
      if gu[i].inno == gv[j].inno {
        assert gu[i].from == gv[j].from && gu[i].to == gv[j].to;
        var r := Mix(gu[i], gv[j], pick(i));
        AddRecord(g, added', r, mapping, u);
        Shift(added', Cross(gu, gv, pick, i, j), r, Cross(gu, gv, pick, i + 1, j + 1), whole);
        added' := added' + [r];
        i, j := i + 1, j + 1;
      } else if gu[i].inno < gv[j].inno {
        AddRecord(g, added', gu[i], mapping, u);
        Shift(added', Cross(gu, gv, pick, i, j), gu[i], Cross(gu, gv, pick, i + 1, j), whole);
        added' := added' + [gu[i]];
        i := i + 1;
      } else {
        j := j + 1;
      }
    }
  }

  /** breed's second loop: the fitter parent's remaining records, each added as it is. */
  method AddRest(g: Genome, gu: seq<GenomeInfo>, gv: seq<GenomeInfo>, pick: int -> bool, mapping: map<int, int>, ghost u: set<int>,
                 ghost whole: seq<GenomeInfo>, ghost added: seq<GenomeInfo>, i0: nat, j: nat)
    requires MergeReady(g, gu, mapping, u) && Holds(g, added, u)
    requires i0 <= |gu| && j <= |gv| && (i0 == |gu| || j == |gv|) && added + Cross(gu, gv, pick, i0, j) == whole
    modifies g, g.nodes
    ensures Holds(g, whole, u)
    ensures g.nodes == old(g.nodes) && g.globals == old(g.globals) && g.numNodes == old(g.numNodes)
  {
    var i := i0;
    ghost var added' := added;
    while i < |gu|
      invariant i <= |gu| && (i == |gu| || j == |gv|)
      invariant added' + Cross(gu, gv, pick, i, j) == whole
      invariant Holds(g, added', u) && g.nodes == old(g.nodes) && g.globals == old(g.globals) && g.numNodes == old(g.numNodes)
    {
      assert gu[i] in gu;
      CrossStep(gu, gv, pick, i, j);
      AddRecord(g, added', gu[i], mapping, u);
      Shift(added', Cross(gu, gv, pick, i, j), gu[i], Cross(gu, gv, pick, i + 1, j), whole);
      added' := added' + [gu[i]];
      i := i + 1;
    }
    assert Cross(gu, gv, pick, i, j) == [];
    assert added' == whole;
  }

  /** breed's merge into the numbered child g: the walk over both parents'
      innovation-ordered records, then the rest of the fitter parent's. The
      child receives exactly the connections of Cross, in its order. */
  method Merge(g: Genome, gu: seq<GenomeInfo>, gv: seq<GenomeInfo>, pick: int -> bool, mapping: map<int, int>, ghost u: set<int>)
    requires g.Valid() && g.edges == {} && g.numConnections == 0
    requires forall v :: 0 <= v < |g.adjs| ==> g.adjs[v] == []
    requires Ends(gu) <= u && |u| <= g.numNodes
    requires forall r :: r in gu ==> r.from != r.to
    requires mapping.Keys == u && forall y :: y in mapping ==> mapping[y] == Rank(u, y)
    requires Agree(gu, gv, 0, 0)
    modifies g, g.nodes
    ensures g.Valid() && g.nodes == old(g.nodes) && g.globals == old(g.globals) && g.numNodes == old(g.numNodes)
    ensures g.adjs == Build(g.numNodes, Cross(gu, gv, pick, 0, 0), u)
    ensures g.edges == EdgesOf(Cross(gu, gv, pick, 0, 0), u, g.Bias())
    ensures g.numConnections == |Cross(gu, gv, pick, 0, 0)|
  {
    ghost var whole := Cross(gu, gv, pick, 0, 0);
    assert Build(g.numNodes, [], u) == g.adjs;
    assert [] + whole == whole;
    var i, j, added := WalkBoth(g, gu, gv, pick, mapping, u, whole, [], 0, 0);
    AddRest(g, gu, gv, pick, mapping, u, whole, added, i, j);
  }

  // ---- what one mutation does ----

  /** The split path of mutate on the connection e of a genome with
      connection lists adjs0 and global ids globals0: the registries after
      SplitRegistration, and the genome split at e with the registered node id
      and innovation number, or unchanged when a node already carries that id. */
  ghost predicate SplitOutcome(adjs0: Adjacency, globals0: seq<int>, split0: Registry, edges0: Registry, e: (int, int),
                               adjs1: Adjacency, globals1: seq<int>, split1: Registry, edges1: Registry)
    requires 0 <= e.0 < |adjs0| && 0 <= e.0 < |globals0| && 0 <= e.1 < |globals0|
  {
    var t := SplitRegistration(split0, edges0, globals0[e.0], globals0[e.1]);
    && split1 == t.2 && edges1 == t.3
    && (t.0 in globals0 ==> adjs1 == adjs0 && globals1 == globals0)
    && (t.0 !in globals0 ==> adjs1 == Subdivide(adjs0, e.0, e.1, t.1) && globals1 == globals0 + [t.0])
  }

  /** The add path of mutate on the candidate e: the edge registry registers
      the pair of global ids; an existing connection e.0 -> e.1 is re-enabled,
      otherwise an active one of weight 1 with the registered innovation number is appended. */
  ghost predicate AddOutcome(adjs0: Adjacency, globals0: seq<int>, edges0: Registry, e: (int, int), adjs1: Adjacency, edges1: Registry)
    requires 0 <= e.0 < |adjs0| && 0 <= e.0 < |globals0| && 0 <= e.1 < |globals0|
  {
    var (inno, edges') := Register(edges0, (globals0[e.0], globals0[e.1]));
    && edges1 == edges'
    && adjs1 == if HasEdgeTo(adjs0[e.0], e.1) then adjs0[e.0 := SetActive(adjs0[e.0], e.1, true)]
                else AppendConnection(adjs0, e.0, Connection(e.1, inno, 1.0, true))
  }

  /** The last step of mutate's add path: an existing connection u -> v is
      re-enabled, otherwise an active one of weight 1 is added. Either way no
      node gets two connections to the same target. */
  method AddOrEnable(g: Genome, u: int, v: int, inno: int)
    requires g.Valid() && 0 <= u < g.numNodes && 0 <= v < g.numNodes && u != v
    modifies g, g.nodes
    ensures g.Valid() && g.globals == old(g.globals)
    ensures g.adjs == if HasEdgeTo(old(g.adjs)[u], v) then old(g.adjs)[u := SetActive(old(g.adjs)[u], v, true)]
                      else AppendConnection(old(g.adjs), u, Connection(v, inno, 1.0, true))
    ensures Simple(old(g.adjs)) ==> Simple(g.adjs)
  {
    ghost var adjs0 := g.adjs;
    var present := g.EdgeExist(u, v);
    if present {
      g.EnableEdge(u, v);
      if Simple(adjs0) {
        EnableKeepsSimple(adjs0, u, v);
      }
    } else {
      g.AddEdge(u, v, inno, 1.0, true);
      if Simple(adjs0) {
        AppendKeepsSimple(adjs0, u, Connection(v, inno, 1.0, true));
      }
    }
  }

  /** The last step of mutate's split path: split_edge, which leaves g alone
      when it already has a node with the new id. Either way no node gets two
      connections to the same target. */
  method SplitOrKeep(g: Genome, u: int, v: int, inno: int, splitNode: int)
    requires g.Valid() && 0 <= u < g.numNodes && 0 <= v < g.numNodes
    modifies g, g.nodes
    ensures g.Valid()
    ensures splitNode in old(g.globals) ==> g.adjs == old(g.adjs) && g.globals == old(g.globals)
    ensures splitNode !in old(g.globals) ==> g.adjs == Subdivide(old(g.adjs), u, v, inno) && g.globals == old(g.globals) + [splitNode]
    ensures Simple(old(g.adjs)) ==> Simple(g.adjs)
  {
    ghost var adjs0 := g.adjs;
    g.SplitEdge(u, v, inno, splitNode);
    if splitNode !in old(g.globals) && Simple(adjs0) {
      SubdivideKeepsSimple(adjs0, u, v, inno);
    }
  }

  /** The parents' records in innovation order meet what Offspring needs
      when the records themselves do: the same ids, as many records, each
      with two different ends, and matches that agree on their ends. */
  lemma Reordered(ru: seq<GenomeInfo>, rv: seq<GenomeInfo>, gu: seq<GenomeInfo>, gv: seq<GenomeInfo>, base: nat)
    requires gu == SortRecords(ru) && gv == SortRecords(rv) && multiset(gu) == multiset(ru)
    requires Rebuildable(ru, base) && Agree(SortRecords(ru), SortRecords(rv), 0, 0)
    ensures Rebuildable(gu, base) && Agree(gu, gv, 0, 0)
    ensures Ends(gu) == Ends(ru) && |gu| == |ru|
  {
    SameEnds(gu, ru);
    assert |gu| == |multiset(gu)| == |multiset(ru)| == |ru|;
  }

  /** breed's first two lines: both parents' records, each in innovation order. */
  method FlattenBoth(u: Genome, v: Genome, ghost ru: seq<GenomeInfo>, ghost rv: seq<GenomeInfo>) returns (gu: seq<GenomeInfo>, gv: seq<GenomeInfo>)
    requires u.Valid() && v.Valid() && ru == u.Records() && rv == v.Records()
    ensures gu == SortRecords(ru) && gv == SortRecords(rv) && multiset(gu) == multiset(ru)
  {
    gu := u.Flatten();
    gv := v.Flatten();
  }

  /** breed on the flattened parents: Offspring, with its requirements met by Reordered. */
  method BreedFrom(gu: seq<GenomeInfo>, gv: seq<GenomeInfo>, pick: int -> bool, inputs: nat, outputs: nat,
                   ghost ru: seq<GenomeInfo>, ghost rv: seq<GenomeInfo>) returns (child: Genome)
    requires gu == SortRecords(ru) && gv == SortRecords(rv) && multiset(gu) == multiset(ru)
    requires Rebuildable(ru, inputs + outputs + 1) && Agree(SortRecords(ru), SortRecords(rv), 0, 0)
    ensures fresh(child) && Child(child, SortRecords(ru), SortRecords(rv), pick, inputs, outputs)
    ensures child.numConnections == |ru|
  {
    Reordered(ru, rv, gu, gv, inputs + outputs + 1);
    child := Offspring(gu, gv, pick, inputs, outputs);
  }

  /** What breed builds from the fitter parent's records gu and the other's
      gv: a valid genome with the population's inputs and outputs, a node for
      every id gu mentions (hidden ones in increasing order), the connections
      of Cross(gu, gv) on the ranks of those ids, one per gene of u, and,
      when the ids include every input, bias and output, exactly the records
      of Cross. */
  ghost predicate Child(child: Genome, gu: seq<GenomeInfo>, gv: seq<GenomeInfo>, pick: int -> bool, inputs: nat, outputs: nat)
    reads child, child.nodes
  {
    && child.Valid() && child.inputNodes == inputs && child.outputNodes == outputs
    && Increasing(child.globals[child.FirstHidden()..])
    && Elements(child.globals[child.FirstHidden()..]) == HighIds(Ends(gu), child.FirstHidden())
    && child.adjs == Build(child.numNodes, Cross(gu, gv, pick, 0, 0), Ends(gu))
    && child.numConnections == |gu|
    && (Covered(Ends(gu), child.FirstHidden()) ==> multiset(child.Records()) == multiset(Cross(gu, gv, pick, 0, 0)))
  }

  /** breed after the parents are flattened: a new genome numbered from the
      ids of gu, into which Merge adds the records of Cross. */
  method Offspring(gu: seq<GenomeInfo>, gv: seq<GenomeInfo>, pick: int -> bool, inputs: nat, outputs: nat) returns (child: Genome)
    requires Rebuildable(gu, inputs + outputs + 1) && Agree(gu, gv, 0, 0)
    ensures fresh(child) && Child(child, gu, gv, pick, inputs, outputs)
  {
    var unique, mapping;
    child, unique, mapping := Numbering(gu, inputs, outputs);
    NumberedRelabels(gu, gv, pick, unique, child.globals, child.FirstHidden());
    CrossFollowsU(gu, gv, pick, 0, 0);
    Merge(child, gu, gv, pick, mapping, Ends(gu));
    RebuiltRecords(child, Cross(gu, gv, pick, 0, 0));
  }

  /** When the records mention every input, bias and output id, the
      numbered genome's global ids name the ends of every crossed record. */
  lemma NumberedRelabels(gu: seq<GenomeInfo>, gv: seq<GenomeInfo>, pick: int -> bool, unique: seq<int>, globals: seq<int>, base: nat)
    requires Increasing(unique) && Elements(unique) == Ends(gu)
    requires Covered(Ends(gu), base) ==> |unique| <= |globals| && forall j :: 0 <= j < |unique| ==> globals[j] == unique[j]
    ensures Ends(Cross(gu, gv, pick, 0, 0)) == Ends(gu)
    ensures Covered(Ends(gu), base) ==> Relabels(Cross(gu, gv, pick, 0, 0), Ends(gu), globals)
  {
    CrossEnds(gu, gv, pick);
    if Covered(Ends(gu), base) {
      RelabelsFromSorted(Cross(gu, gv, pick, 0, 0), unique, globals);
    }
  }

  // ---- the population ----

  /** A genome as new leaves it: inputs, bias and outputs with global id
      equal to local id, the inputs and bias connected to every output with
      the given weights, and nothing else. */
  ghost predicate Started(g: Genome, inputs: nat, outputs: nat, weights: seq<real>)
    reads g, g.nodes
  {
    && g.Valid() && g.inputNodes == inputs && g.outputNodes == outputs
    && |weights| == (inputs + 1) * outputs && g.numNodes == g.FirstHidden()
    && g.globals == seq(g.numNodes, i => i)
    && (forall v :: 0 <= v < g.numNodes ==> g.adjs[v] == if v <= inputs then g.Fan(v, weights, outputs) else [])
    && g.numConnections == (inputs + 1) * outputs
  }

  /** The nodes of the genomes gs. */
  ghost function NodesOf(gs: seq<Genome>): (ns: set<Node>)
    reads gs
    ensures forall q, n :: 0 <= q < |gs| && n in gs[q].nodes ==> n in ns
  {
    set g, n | g in gs && n in g.nodes :: n
  }

  /** Each genome of pop was started with the weights at its own position. */
  ghost predicate AllStarted(pop: seq<Genome>, inputs: nat, outputs: nat, weights: seq<seq<real>>)
    reads pop, NodesOf(pop)
    decreases |pop|
  {
    && |pop| == |weights|
    && (pop != [] ==>
          && AllStarted(pop[..|pop| - 1], inputs, outputs, weights[..|weights| - 1])
          && Started(pop[|pop| - 1], inputs, outputs, weights[|weights| - 1]))
  }

  lemma {:induction false} AllStartedAt(pop: seq<Genome>, inputs: nat, outputs: nat, weights: seq<seq<real>>, l: int)
    requires AllStarted(pop, inputs, outputs, weights) && 0 <= l < |pop|
    ensures Started(pop[l], inputs, outputs, weights[l])
    decreases |pop|
  {
    if l < |pop| - 1 {
      AllStartedAt(pop[..|pop| - 1], inputs, outputs, weights[..|weights| - 1], l);
    }
  }

  /** One freshly started genome per weight vector, all distinct. */
  method StartAll(inputs: nat, outputs: nat, weights: seq<seq<real>>) returns (pop: seq<Genome>)
    requires forall k :: 0 <= k < |weights| ==> |weights[k]| == (inputs + 1) * outputs
    ensures |pop| == |weights|
    ensures forall k :: 0 <= k < |pop| ==> fresh(pop[k]) && Started(pop[k], inputs, outputs, weights[k])
    ensures forall k, l :: 0 <= k < l < |pop| ==> pop[k] != pop[l]
  {
    pop := [];
    for k := 0 to |weights|
      invariant |pop| == k
      invariant forall l :: 0 <= l < k ==> fresh(pop[l])
      invariant forall l, m :: 0 <= l < m < k ==> pop[l] != pop[m]
      invariant AllStarted(pop, inputs, outputs, weights[..k])
    {
      label Before:
      var g := StartOne(inputs, outputs, weights[k]);
      assert unchanged@Before(pop) && unchanged@Before(NodesOf(pop));
      assert (pop + [g])[..k] == pop && weights[..k + 1][..k] == weights[..k];
      pop := pop + [g];
    }
    assert weights[..|weights|] == weights;
    forall l | 0 <= l < |pop| ensures Started(pop[l], inputs, outputs, weights[l]) {
      AllStartedAt(pop, inputs, outputs, weights, l);
    }
  }

  /** One genome of Population::new: inputs, bias and outputs, joined by connect_ends. */
  method StartOne(inputs: nat, outputs: nat, weights: seq<real>) returns (g: Genome)
    requires |weights| == (inputs + 1) * outputs
    ensures fresh(g) && Started(g, inputs, outputs, weights)
  {
    g := new Genome(inputs, outputs);
    g.ConnectEnds(weights);
  }

  /** One round of create_species' loop: the children bred so far, the
      species' genomes, how many of them may be parents, and the draws that
      choose each child's parents and matching genes. */
  datatype Brood = Brood(children: seq<Genome>, curr: seq<Genome>, top: nat,
                         mate: int -> (int, int), pick: int -> (int -> bool))

  /** A generation and what it was bred from: see Population.Descended. */
  datatype Descent = Descent(newGen: seq<Genome>, pop: seq<Genome>, species: seq<Species>, lineage: seq<(int, int)>,
                             mate: (int, int, int) -> (int, int), pick: (int, int) -> (int -> bool))

  /** The population of one generation, the two innovation registries every
      genome draws from, the species of the previous generation and the
      generation count. */
  class Population {
    const inputs: nat
    const outputs: nat
    var population: seq<Genome>
    var innoCount: int
    var uniqueNodes: int
    var innoSplit: map<(int, int), int>
    var innoEdges: map<(int, int), int>
    var previousGen: seq<Species>
    var gen: int

    /** The registry of split nodes: (from, to) global ids to the new node's global id. */
    function SplitRegistry(): Registry
      reads this
    {
      Registry(innoSplit, uniqueNodes)
    }

    /** The registry of connections: (from, to) global ids to an innovation number. */
    function EdgeRegistry(): Registry
      reads this
    {
      Registry(innoEdges, innoCount)
    }

    /** Both registries hand out distinct ids, all above what connect_ends
        used; before the first generation there are no species, and after it
        the species partition the population. */
    ghost predicate Valid()
      reads this
    {
      && RegistryOk(SplitRegistry(), InitialCounters(inputs, outputs).1)
      && RegistryOk(EdgeRegistry(), InitialCounters(inputs, outputs).0)
      && gen >= 0
      && (gen == 0 ==> previousGen == [])
      && (gen > 0 ==> Partition(Members(previousGen), |population|))
    }

    /** size genomes, each connected by connect_ends with its own weights; the
        registries start empty, with counters past everything connect_ends used. */
    constructor (size: int, inputs: nat, outputs: nat, weights: seq<seq<real>>)
      requires |weights| == (if size < 0 then 0 else size)
      requires forall k :: 0 <= k < |weights| ==> |weights[k]| == (inputs + 1) * outputs
      ensures Valid() && this.inputs == inputs && this.outputs == outputs
      ensures |population| == |weights|
      ensures forall k :: 0 <= k < |population| ==> fresh(population[k]) && Started(population[k], inputs, outputs, weights[k])
      ensures forall k, l :: 0 <= k < l < |population| ==> population[k] != population[l]
      ensures innoSplit == map[] && innoEdges == map[] && (innoCount, uniqueNodes) == InitialCounters(inputs, outputs)
      ensures previousGen == [] && gen == 0
    {
      this.inputs := inputs;
      this.outputs := outputs;
      var pop := StartAll(inputs, outputs, weights);
      population := pop;
      gen := 0;
      previousGen := [];
      innoCount := (inputs + 1) * outputs;
      uniqueNodes := inputs + outputs + 1;
      innoSplit := map[];
      innoEdges := map[];
    }

    /** The split node's global id for the connection from -> to: the known
        one, or a new id from the counter. */
    method GetInnoSplit(from: int, to: int) returns (id: int)
      modifies this
      ensures (id, SplitRegistry()) == Register(old(SplitRegistry()), (from, to))
      ensures innoEdges == old(innoEdges) && innoCount == old(innoCount)
      ensures population == old(population) && previousGen == old(previousGen) && gen == old(gen)
    {
      if (from, to) !in innoSplit {
        innoSplit := innoSplit[(from, to) := uniqueNodes];
        uniqueNodes := uniqueNodes + 1;
      }
      id := innoSplit[(from, to)];
    }

    /** The innovation number of the connection from -> to between global
        ids: the known one, or a new number from the counter. */
    method GetInnoEdge(from: int, to: int) returns (inno: int)
      modifies this
      ensures (inno, EdgeRegistry()) == Register(old(EdgeRegistry()), (from, to))
      ensures innoSplit == old(innoSplit) && uniqueNodes == old(uniqueNodes)
      ensures population == old(population) && previousGen == old(previousGen) && gen == old(gen)
    {
      if (from, to) !in innoEdges {
        innoEdges := innoEdges[(from, to) := innoCount];
        innoCount := innoCount + 1;
      }
      inno := innoEdges[(from, to)];
    }

    /** mutate's split path on genome g: a drawn connection is split, its
        new node and both new connections registered (the second number is
        registered but not passed on). */
    method SplitMutation(g: Genome, draw: int)
      requires Valid() && g.Valid()
      requires g.edges != {} ==> 0 <= draw < |g.edges|
      modifies this, g, g.nodes
      ensures Valid() && g.Valid()
      ensures population == old(population) && previousGen == old(previousGen) && gen == old(gen)
      ensures old(g.edges) == {} ==>
        && SplitRegistry() == old(SplitRegistry()) && EdgeRegistry() == old(EdgeRegistry())
        && g.adjs == old(g.adjs) && g.globals == old(g.globals)
      ensures old(g.edges) != {} ==> exists e :: (
        && e in old(g.edges) && |Below(old(g.edges), e)| == draw
        && SplitOutcome(old(g.adjs), old(g.globals), old(SplitRegistry()), old(EdgeRegistry()), e,
                        g.adjs, g.globals, SplitRegistry(), EdgeRegistry()))
      ensures Simple(old(g.adjs)) ==> Simple(g.adjs)
    {
      var e := g.RandomSplit(draw);
      if e.0 != -1 {
        SplitFound(g, e);
      }
    }

    /** The split path of mutate once the connection e is drawn: the split is
        registered, then g splits e unless it already has the new node. */
    method SplitFound(g: Genome, e: (int, int))
      requires Valid() && g.Valid() && e in g.edges
      modifies this, g, g.nodes
      ensures Valid() && g.Valid()
      ensures population == old(population) && previousGen == old(previousGen) && gen == old(gen)
      ensures SplitOutcome(old(g.adjs), old(g.globals), old(SplitRegistry()), old(EdgeRegistry()), e,
                           g.adjs, g.globals, SplitRegistry(), EdgeRegistry())
      ensures Simple(old(g.adjs)) ==> Simple(g.adjs)
    {
      var uGlobal := g.LocalToGlobal(e.0);
      var vGlobal := g.LocalToGlobal(e.1);
      var splitNode, inno := RegisterSplit(uGlobal, vGlobal);
      SplitOrKeep(g, e.0, e.1, inno, splitNode);
    }

    /** mutate's registrations for splitting the connection uG -> vG: the
        new node's id, the number of uG -> new node, and that of new node ->
        vG, which is registered and then dropped. */
    method RegisterSplit(uG: int, vG: int) returns (splitNode: int, inno: int)
      requires Valid()
      modifies this
      ensures Valid()
      ensures (splitNode, inno, SplitRegistry(), EdgeRegistry()) == SplitRegistration(old(SplitRegistry()), old(EdgeRegistry()), uG, vG)
      ensures population == old(population) && previousGen == old(previousGen) && gen == old(gen)
    {
      RegisterKeepsOk(SplitRegistry(), InitialCounters(inputs, outputs).1, (uG, vG));
      splitNode := GetInnoSplit(uG, vG);
      RegisterKeepsOk(EdgeRegistry(), InitialCounters(inputs, outputs).0, (uG, splitNode));
      inno := GetInnoEdge(uG, splitNode);
      RegisterKeepsOk(EdgeRegistry(), InitialCounters(inputs, outputs).0, (splitNode, vG));
      var _ := GetInnoEdge(splitNode, vG);
    }

    /** mutate's add path on genome g: the first acceptable candidate among
        the draws is registered, then re-enabled if g already has a connection
        between its ends and added otherwise. */
    method AddMutation(g: Genome, draws: seq<(int, int)>)
      requires Valid() && g.Valid() && g.inputNodes + 2 <= g.numNodes
      requires |draws| == Attempts && g.Drawable(draws)
      modifies this, g, g.nodes
      ensures Valid() && g.Valid()
      ensures population == old(population) && previousGen == old(previousGen) && gen == old(gen)
      ensures SplitRegistry() == old(SplitRegistry()) && g.globals == old(g.globals)
      ensures exists e: (int, int) :: (
        && old(allocated(e)) && old(g.FirstAcceptable(draws, e))
        && (e == (-1, -1) ==> EdgeRegistry() == old(EdgeRegistry()) && g.adjs == old(g.adjs))
        && (e != (-1, -1) ==>
              && 0 <= e.0 < |old(g.adjs)| && 0 <= e.1 < |old(g.adjs)|
              && AddOutcome(old(g.adjs), old(g.globals), old(EdgeRegistry()), e, g.adjs, EdgeRegistry())))
      ensures Simple(old(g.adjs)) ==> Simple(g.adjs)
    {
      var u, v := g.RandomEdge(draws);
      assert old(g.FirstAcceptable(draws, (u, v)));
      if u != -1 {
        AddFound(g, u, v);
      }
    }

    /** The add path of mutate once the candidate u -> v is accepted: the
        pair of global ids is registered, then the connection enabled or added. */
    method AddFound(g: Genome, u: int, v: int)
      requires Valid() && g.Valid() && 0 <= u < g.numNodes && 0 <= v < g.numNodes && u != v
      modifies this, g, g.nodes
      ensures Valid() && g.Valid()
      ensures population == old(population) && previousGen == old(previousGen) && gen == old(gen)
      ensures SplitRegistry() == old(SplitRegistry()) && g.globals == old(g.globals)
      ensures AddOutcome(old(g.adjs), old(g.globals), old(EdgeRegistry()), (u, v), g.adjs, EdgeRegistry())
      ensures Simple(old(g.adjs)) ==> Simple(g.adjs)
    {
      var uGlobal := g.LocalToGlobal(u);
      var vGlobal := g.LocalToGlobal(v);
      var inno := RegisterEdge(uGlobal, vGlobal);
      AddOrEnable(g, u, v, inno);
    }

    /** mutate's registration for adding the connection uG -> vG. */
    method RegisterEdge(uG: int, vG: int) returns (inno: int)
      requires Valid()
      modifies this
      ensures Valid()
      ensures (inno, EdgeRegistry()) == Register(old(EdgeRegistry()), (uG, vG)) && SplitRegistry() == old(SplitRegistry())
      ensures population == old(population) && previousGen == old(previousGen) && gen == old(gen)
    {
      RegisterKeepsOk(EdgeRegistry(), InitialCounters(inputs, outputs).0, (uG, vG));
      inno := GetInnoEdge(uG, vG);
    }

    /** Mutates genome id: with choice below 0.3 tries to split a connection,
        otherwise tries to add one. */
    method Mutate(id: int, choice: real, splitDraw: int, edgeDraws: seq<(int, int)>)
      requires Valid() && 0 <= id < |population| && population[id].Valid()
      requires choice < 0.3 ==> (population[id].edges != {} ==> 0 <= splitDraw < |population[id].edges|)
      requires choice >= 0.3 ==>
        population[id].inputNodes + 2 <= population[id].numNodes && |edgeDraws| == Attempts && population[id].Drawable(edgeDraws)
      modifies this, population[id], population[id].nodes
      ensures Valid() && population == old(population) && population[id].Valid()
      ensures previousGen == old(previousGen) && gen == old(gen)
      ensures Extends(old(SplitRegistry()), SplitRegistry()) && Extends(old(EdgeRegistry()), EdgeRegistry())
      ensures Simple(old(population[id].adjs)) ==> Simple(population[id].adjs)
      ensures choice < 0.3 && old(population[id].edges) == {} ==>
        && SplitRegistry() == old(SplitRegistry()) && EdgeRegistry() == old(EdgeRegistry())
        && population[id].adjs == old(population[id].adjs) && population[id].globals == old(population[id].globals)
      ensures choice < 0.3 && old(population[id].edges) != {} ==> exists e :: (
        && e in old(population[id].edges) && |Below(old(population[id].edges), e)| == splitDraw
        && SplitOutcome(old(population[id].adjs), old(population[id].globals), old(SplitRegistry()), old(EdgeRegistry()), e,
                        population[id].adjs, population[id].globals, SplitRegistry(), EdgeRegistry()))
      ensures choice >= 0.3 ==> SplitRegistry() == old(SplitRegistry()) && population[id].globals == old(population[id].globals)
      ensures choice >= 0.3 ==> exists e: (int, int) :: (
        && old(allocated(e)) && old(population[id].FirstAcceptable(edgeDraws, e))
        && (e == (-1, -1) ==> EdgeRegistry() == old(EdgeRegistry()) && population[id].adjs == old(population[id].adjs))
        && (e != (-1, -1) ==>
              && 0 <= e.0 < |old(population[id].adjs)| && 0 <= e.1 < |old(population[id].adjs)|
              && AddOutcome(old(population[id].adjs), old(population[id].globals), old(EdgeRegistry()), e,
                            population[id].adjs, EdgeRegistry())))
    {
      var g := population[id];
      ghost var split0, edges0 := SplitRegistry(), EdgeRegistry();
      if choice < 0.3 {
        SplitMutation(g, splitDraw);
        if old(g.edges) != {} {
          ghost var e :| (
            && e in old(g.edges) && |Below(old(g.edges), e)| == splitDraw
            && SplitOutcome(old(g.adjs), old(g.globals), split0, edges0, e, g.adjs, g.globals, SplitRegistry(), EdgeRegistry()));
          SplitInnosConsecutive(split0, edges0, old(g.globals)[e.0], old(g.globals)[e.1]);
        }
      } else {
        AddMutation(g, edgeDraws);
        ghost var e: (int, int) :| (
          && old(allocated(e)) && old(g.FirstAcceptable(edgeDraws, e))
          && (e == (-1, -1) ==> EdgeRegistry() == edges0)
          && (e != (-1, -1) ==>
                && 0 <= e.0 < |old(g.adjs)| && 0 <= e.1 < |old(g.adjs)|
                && AddOutcome(old(g.adjs), old(g.globals), edges0, e, g.adjs, EdgeRegistry())));
        if e != (-1, -1) {
          RegisterStores(edges0, (old(g.globals)[e.0], old(g.globals)[e.1]));
        }
      }
    }

    /** What breed demands of a pair: both genomes well formed, u's nodes
        fit in a child, and genes with one innovation number join the same
        nodes in both. */
    ghost predicate Breedable(u: Genome, v: Genome)
      reads u, u.nodes, v, v.nodes
    {
      && u.Valid() && v.Valid()
      && Rebuildable(u.Records(), inputs + outputs + 1)
      && Agree(SortRecords(u.Records()), SortRecords(v.Records()), 0, 0)
    }

    /** child is what breed makes of u and v with the coin flips pick. */
    ghost predicate Bred(child: Genome, u: Genome, v: Genome, pick: int -> bool)
      reads child, child.nodes, u, u.nodes, v, v.nodes
    {
      u.Valid() && v.Valid() && Child(child, SortRecords(u.Records()), SortRecords(v.Records()), pick, inputs, outputs)
    }

    /** A child of u, the fitter parent, and v, built from their records in
        innovation order: see Child. */
    method Breed(u: Genome, v: Genome, pick: int -> bool) returns (child: Genome)
      requires Breedable(u, v)
      ensures fresh(child) && Bred(child, u, v, pick)
    {
      ghost var ru, rv := u.Records(), v.Records();
      var gu, gv := FlattenBoth(u, v, ru, rv);
      child := BreedFrom(gu, gv, pick, inputs, outputs, ru, rv);
    }

    /** The counting part of delta on u and v: the matching and disjoint
        genes met by the walk over their innovation-ordered records, the
        excess genes left over in both lists, and the normalising size. */
    method DeltaCounts(u: Genome, v: Genome) returns (matching: int, disjoint: int, excess: int, n: int)
      requires u.Valid() && v.Valid()
      ensures var gu, gv := SortRecords(u.Records()), SortRecords(v.Records());
        var t := Tally(gu, gv, 0, 0);
        && matching == t.0 && disjoint == t.1 && excess == (|gu| - t.2) + (|gv| - t.3)
        && n == Normaliser(|gu|, |gv|)
    {
      ghost var ru, rv := u.Records(), v.Records();
      var gu, gv := FlattenBoth(u, v, ru, rv);
      var i, j;
      matching, disjoint, i, j := CountGenes(gu, gv);
      excess := (|gu| - i) + (|gv| - j);
      n := if |gu| < |gv| then |gv| else |gu|;
      if n < 20 {
        n := 1;
      }
    }

    /** speciate on a generation of n genomes: the first loop lines up the
        previous generation's leaders, the second sorts each genome into the
        first species whose leader it is close to or founds a species, and
        the last two keep the non-empty species and draw a leader in each. */
    method Speciate(n: nat, close: (Leader, int) -> bool, draw: (int, int) -> int) returns (species: seq<Species>)
      requires forall k, m :: 0 < m ==> 0 <= draw(k, m) < m
      ensures species == Speciation(previousGen, close, n, draw)
      ensures Partition(Members(species), n)
      ensures forall s :: 0 <= s < |species| ==> species[s].organisms != [] && species[s].leader in species[s].organisms
    {
      ghost var prev := PrevLeaders(previousGen);
      var leaders: seq<Leader> := [];
      var sp: seq<seq<int>> := [];
      for i := 0 to |previousGen|
        invariant |leaders| == |sp| == i
        invariant forall s :: 0 <= s < i ==> leaders[s] == prev[s] && sp[s] == []
      {
        leaders := leaders + [Prev(previousGen[i].leader)];
        sp := sp + [[]];
      }
      assert leaders == prev && sp == seq(|prev|, _ => []);
      leaders, sp := SortIntoSpecies(leaders, sp, close, n);
      var kept := KeepNonEmpty(sp);
      species := [];
      for i := 0 to |kept|
        invariant |species| == i
        invariant forall s :: 0 <= s < i ==> species[s] == Species(kept[s], kept[s][draw(s, |kept[s]|)])
      {
        var u := draw(i, |kept[i]|);
        species := species + [Species(kept[i], kept[i][u])];
      }
      SpeciationPartition(previousGen, close, n, draw);
    }

    /** next_generation's first loop: for every genome a, the size and the
        index of the species that lists it (the last one, should several). */
    method AssignSpecies(m: nat) returns (sizes: seq<int>, mapping: seq<int>)
      requires forall s, a :: 0 <= s < |previousGen| && a in previousGen[s].organisms ==> 0 <= a < m && a < |population|
      ensures |sizes| == m && |mapping| == |population|
      ensures forall a :: 0 <= a < m ==> sizes[a] == SizeOf(previousGen, a)
      ensures forall a :: 0 <= a < |population| ==> mapping[a] == IndexOf(previousGen, a)
      ensures Partition(Members(previousGen), |population|) ==>
        forall s, a :: 0 <= s < |previousGen| && a in previousGen[s].organisms ==>
          mapping[a] == s && (a < m ==> sizes[a] == |previousGen[s].organisms|)
    {
      sizes := seq(m, _ => 0);
      mapping := seq(|population|, _ => 0);
      for k := 0 to |previousGen|
        invariant |sizes| == m && |mapping| == |population|
        invariant forall a :: 0 <= a < m ==> sizes[a] == SizeOf(previousGen[..k], a)
        invariant forall a :: 0 <= a < |population| ==> mapping[a] == IndexOf(previousGen[..k], a)
      {
        var org := previousGen[k].organisms;
        for p := 0 to |org|
          invariant |sizes| == m && |mapping| == |population|
          invariant forall a :: 0 <= a < m ==> sizes[a] == if a in org[..p] then |org| else SizeOf(previousGen[..k], a)
          invariant forall a :: 0 <= a < |population| ==> mapping[a] == if a in org[..p] then k else IndexOf(previousGen[..k], a)
        {
          assert org[..p + 1] == org[..p] + [org[p]];
          assert org[p] in previousGen[k].organisms;
          sizes := sizes[org[p] := |org|];
          mapping := mapping[org[p] := k];
        }
        assert org[..|org|] == org;
        forall a {
          LastHolderNext(previousGen, k, a);
        }
      }
      assert previousGen[..|previousGen|] == previousGen;
      if Partition(Members(previousGen), |population|) {
        forall s, a | 0 <= s < |previousGen| && a in previousGen[s].organisms {
          PartitionHolder(previousGen, |population|, s, a);
        }
      }
    }

    /** Each child q was bred from the pair mate(q) of curr with the coin flips pick(q). */
    ghost predicate AllBred(children: seq<Genome>, curr: seq<Genome>, mate: int -> (int, int), pick: int -> (int -> bool))
      reads children, NodesOf(children), curr, NodesOf(curr)
    {
      forall q :: 0 <= q < |children| ==>
        0 <= mate(q).0 < |curr| && 0 <= mate(q).1 < |curr| && Bred(children[q], curr[mate(q).0], curr[mate(q).1], pick(q))
    }

    /** Any two of gs can be bred. */
    ghost predicate AllBreedable(gs: seq<Genome>)
      reads gs, NodesOf(gs)
    {
      forall x, y :: 0 <= x < |gs| && 0 <= y < |gs| ==> Breedable(gs[x], gs[y])
    }

    /** One round of create_species' loop: the child of the next pair, drawn among the first top genomes. */
    method BreedAppend(children: seq<Genome>, curr: seq<Genome>, top: nat, mate: int -> (int, int), pick: int -> (int -> bool))
      returns (child: Genome)
      requires top <= |curr| && AllBreedable(curr[..top])
      requires 0 <= mate(|children|).0 < top && 0 <= mate(|children|).1 < top
      requires AllBred(children, curr, mate, pick)
      ensures fresh(child) && AllBred(children + [child], curr, mate, pick)
      ensures AllBreedable(curr[..top])
    {
      var j := |children|;
      var x, y := mate(j).0, mate(j).1;
      BreedableAt(curr, top, x, y);
      child := Breed(curr[x], curr[y], pick(j));
      BreedingStays(Brood(children, curr, top, mate, pick));
      AllBredAppend(children, child, curr, mate, pick, x, y);
    }

    lemma BreedableAt(curr: seq<Genome>, top: nat, x: int, y: int)
      requires top <= |curr| && AllBreedable(curr[..top]) && 0 <= x < top && 0 <= y < top
      ensures Breedable(curr[x], curr[y])
    {
      assert curr[..top][x] == curr[x] && curr[..top][y] == curr[y];
    }

    /** Whether genomes can be bred, and what earlier children were bred
        from, are facts about the genomes' own state, so they outlive any
        step that leaves the genomes and their nodes alone. */
    twostate lemma BreedingStays(b: Brood)
      requires b.top <= |b.curr|
      requires old(AllBred(b.children, b.curr, b.mate, b.pick)) && old(AllBreedable(b.curr[..b.top]))
      requires unchanged(b.children) && unchanged(NodesOf(b.children))
      requires unchanged(b.curr) && unchanged(NodesOf(b.curr))
      requires unchanged(b.curr[..b.top]) && unchanged(NodesOf(b.curr[..b.top]))
      ensures AllBred(b.children, b.curr, b.mate, b.pick) && AllBreedable(b.curr[..b.top])
    {
    }

    lemma AllBredAppend(children: seq<Genome>, child: Genome, curr: seq<Genome>, mate: int -> (int, int), pick: int -> (int -> bool), x: int, y: int)
      requires AllBred(children, curr, mate, pick)
      requires x == mate(|children|).0 && y == mate(|children|).1 && 0 <= x < |curr| && 0 <= y < |curr|
      requires Bred(child, curr[x], curr[y], pick(|children|))
      ensures AllBred(children + [child], curr, mate, pick)
    {
      var c := children + [child];
      forall q | 0 <= q < |c|
        ensures 0 <= mate(q).0 < |curr| && 0 <= mate(q).1 < |curr| && Bred(c[q], curr[mate(q).0], curr[mate(q).1], pick(q))
      {
        if q < |children| {
          assert c[q] == children[q];
        }
      }
    }

    /** create_species: numberOffspring children, each bred from a pair drawn
        among the species' first TopMembers genomes; mate(j) is the j-th
        draw and pick(j) the coin flips of the j-th breed. */
    method CreateSpecies(curr: seq<Genome>, fitness: seq<real>, numberOffspring: int,
                         mate: int -> (int, int), pick: int -> (int -> bool))
      returns (children: seq<Genome>)
      requires |curr| == |fitness|
      requires numberOffspring > 0 ==> TopMembers(|curr|) > 0
      requires forall j :: 0 <= j < numberOffspring ==>
        0 <= mate(j).0 < TopMembers(|curr|) && 0 <= mate(j).1 < TopMembers(|curr|)
      requires AllBreedable(curr[..TopMembers(|curr|)])
      ensures |children| == Made(numberOffspring)
      ensures forall j :: 0 <= j < |children| ==> Bred(children[j], curr[mate(j).0], curr[mate(j).1], pick(j))
    {
      var top := TopMembers(|curr|);
      children := [];
      var j := 0;
      while j < numberOffspring
        invariant 0 <= j == |children| <= Made(numberOffspring)
        invariant AllBred(children, curr, mate, pick)
        invariant AllBreedable(curr[..top])
      {
        assert top > 0;
        var child := BreedAppend(children, curr, top, mate, pick);
        children := children + [child];
        j := j + 1;
      }
      assert AllBred(children, curr, mate, pick);
    }

    /** Genome q of newGen is the child that round j of create_species for
        species k, where (k, j) == lineage[q], bred from the pair mate(k, j, t)
        of the species' first t == TopMembers members with the coin flips pick(k, j). */
    ghost predicate Descended(newGen: seq<Genome>, pop: seq<Genome>, species: seq<Species>, lineage: seq<(int, int)>,
                              mate: (int, int, int) -> (int, int), pick: (int, int) -> (int -> bool))
      reads newGen, NodesOf(newGen), pop, NodesOf(pop)
    {
      && |newGen| == |lineage|
      && forall q {:trigger ParentsIn(newGen[q], pop, species, lineage[q], mate, pick)} ::
           0 <= q < |newGen| ==> ParentsIn(newGen[q], pop, species, lineage[q], mate, pick)
    }

    /** child is the one bred in round r.1 of create_species for species r.0. */
    ghost predicate ParentsIn(child: Genome, pop: seq<Genome>, species: seq<Species>, r: (int, int),
                              mate: (int, int, int) -> (int, int), pick: (int, int) -> (int -> bool))
      reads child, child.nodes, pop, NodesOf(pop)
    {
      && 0 <= r.0 < |species|
      && var org := species[r.0].organisms;
      var m := mate(r.0, r.1, TopMembers(|org|));
      && 0 <= m.0 < |org| && 0 <= m.1 < |org| && 0 <= org[m.0] < |pop| && 0 <= org[m.1] < |pop|
      && Bred(child, pop[org[m.0]], pop[org[m.1]], pick(r.0, r.1))
    }

    /** Appending species k's create_species children extends the descent by its rounds. */
    lemma DescendedAppend(newGen: seq<Genome>, children: seq<Genome>, pop: seq<Genome>, species: seq<Species>,
                          lineage: seq<(int, int)>, k: int,
                          mate: (int, int, int) -> (int, int), pick: (int, int) -> (int -> bool))
      requires Descended(newGen, pop, species, lineage, mate, pick)
      requires 0 <= k < |species| && species[k].organisms != []
      requires forall i :: 0 <= i < |species[k].organisms| ==> 0 <= species[k].organisms[i] < |pop|
      requires forall k, j, t :: 0 < t ==> 0 <= mate(k, j, t).0 < t && 0 <= mate(k, j, t).1 < t
      requires var org := species[k].organisms;
        var curr := Gathered(pop, org);
        var top := TopMembers(|org|);
        forall j :: 0 <= j < |children| ==>
          Bred(children[j], curr[mate(k, j, top).0], curr[mate(k, j, top).1], pick(k, j))
      ensures Descended(newGen + children, pop, species, lineage + Rounds(k, |children|), mate, pick)
    {
      var org := species[k].organisms;
      var top := TopMembers(|org|);
      var all, lin := newGen + children, lineage + Rounds(k, |children|);
      var curr := Gathered(pop, org);
      forall q | 0 <= q < |all| ensures ParentsIn(all[q], pop, species, lin[q], mate, pick) {
        if q < |newGen| {
          assert ParentsIn(newGen[q], pop, species, lineage[q], mate, pick);
          assert all[q] == newGen[q] && lin[q] == lineage[q];
        } else {
          var j := q - |newGen|;
          var m := mate(k, j, top);
          assert Bred(children[j], curr[m.0], curr[m.1], pick(k, j));
          assert all[q] == children[j] && lin[q] == (k, j);
          assert curr[m.0] == pop[org[m.0]] && curr[m.1] == pop[org[m.1]];
        }
      }
    }

    /** Every genome bred in the new generation is well formed. */
    lemma DescendedValid(newGen: seq<Genome>, pop: seq<Genome>, species: seq<Species>, lineage: seq<(int, int)>,
                         mate: (int, int, int) -> (int, int), pick: (int, int) -> (int -> bool))
      requires Descended(newGen, pop, species, lineage, mate, pick)
      ensures forall q :: 0 <= q < |newGen| ==> newGen[q].Valid()
    {
      forall q | 0 <= q < |newGen| ensures newGen[q].Valid() {
        assert ParentsIn(newGen[q], pop, species, lineage[q], mate, pick);
      }
    }

    /** Genomes gathered from a population any two of which can be bred can be bred. */
    lemma BreedableGathered(pop: seq<Genome>, org: seq<int>, top: nat)
      requires AllBreedable(pop) && (forall i :: 0 <= i < |org| ==> 0 <= org[i] < |pop|) && top <= |org|
      ensures AllBreedable(Gathered(pop, org)[..top])
    {
      var curr := Gathered(pop, org)[..top];
      forall x, y | 0 <= x < |curr| && 0 <= y < |curr| ensures Breedable(curr[x], curr[y]) {
        assert curr[x] == pop[org[x]] && curr[y] == pop[org[y]];
      }
    }

    /** One round of next_generation's loop over the species: species k's
        genomes and fitness values are gathered, and create_species makes count
        children of them. */
    method SpeciesOffspring(species: seq<Species>, fitness: seq<real>, k: int, count: int,
                            mate: (int, int, int) -> (int, int), pick: (int, int) -> (int -> bool))
      returns (children: seq<Genome>)
      requires 0 <= k < |species| && species[k].organisms != [] && |fitness| == |population|
      requires forall i :: 0 <= i < |species[k].organisms| ==> 0 <= species[k].organisms[i] < |population|
      requires AllBreedable(population)
      requires forall k, j, t :: 0 < t ==> 0 <= mate(k, j, t).0 < t && 0 <= mate(k, j, t).1 < t
      ensures |children| == Made(count)
      ensures var org := species[k].organisms;
        var curr := Gathered(population, org);
        var top := TopMembers(|org|);
        forall j :: 0 <= j < |children| ==>
          Bred(children[j], curr[mate(k, j, top).0], curr[mate(k, j, top).1], pick(k, j))
    {
      var org := species[k].organisms;
      var curr := Gather(population, org);
      var fit := Gather(fitness, org);
      var top := TopMembers(|curr|);
      BreedableGathered(population, org, top);
      var mateK, pickK := j => mate(k, j, top), j => pick(k, j);
      children := CreateSpecies(curr, fit, count, mateK, pickK);
      forall j | 0 <= j < |children|
        ensures Bred(children[j], curr[mate(k, j, top).0], curr[mate(k, j, top).1], pick(k, j))
      {
        assert Bred(children[j], curr[mateK(j).0], curr[mateK(j).1], pickK(j));
      }
    }

    /** Species k's offspring appended to the generation bred so far. */
    method BreedInto(newGen: seq<Genome>, species: seq<Species>, fitness: seq<real>, k: int, count: int,
                     mate: (int, int, int) -> (int, int), pick: (int, int) -> (int -> bool), ghost lin: seq<(int, int)>)
      returns (next: seq<Genome>)
      requires 0 <= k < |species| && species[k].organisms != [] && |fitness| == |population|
      requires forall i :: 0 <= i < |species[k].organisms| ==> 0 <= species[k].organisms[i] < |population|
      requires AllBreedable(population) && Descended(newGen, population, species, lin, mate, pick)
      requires forall k, j, t :: 0 < t ==> 0 <= mate(k, j, t).0 < t && 0 <= mate(k, j, t).1 < t
      ensures Descended(next, population, species, lin + Rounds(k, Made(count)), mate, pick)
      ensures AllBreedable(population)
    {
      var children := SpeciesOffspring(species, fitness, k, count, mate, pick);
      DescentStays(Descent(newGen, population, species, lin, mate, pick));
      BreedingStays(Brood([], population, |population|, (j: int) => (0, 0), (j: int) => (q: int) => true));
      assert population[..|population|] == population;
      DescendedAppend(newGen, children, population, species, lin, k, mate, pick);
      next := newGen + children;
    }

    /** What a generation descends from, packed for DescentStays. */
    twostate lemma DescentStays(d: Descent)
      requires old(Descended(d.newGen, d.pop, d.species, d.lineage, d.mate, d.pick))
      requires unchanged(d.newGen) && unchanged(NodesOf(d.newGen)) && unchanged(d.pop) && unchanged(NodesOf(d.pop))
      ensures Descended(d.newGen, d.pop, d.species, d.lineage, d.mate, d.pick)
    {
    }

    /** next_generation's loop over the species: every non-empty species with
        a non-zero count gets create_species' offspring, bred from its first
        members; species k's j-th pair is mate(k, j, top) and its coin flips pick(k, j). */
    method Reproduce(species: seq<Species>, fitness: seq<real>, counts: seq<int>,
                     mate: (int, int, int) -> (int, int), pick: (int, int) -> (int -> bool))
      returns (newGen: seq<Genome>)
      requires |counts| == |species| && |fitness| == |population|
      requires forall s, a :: 0 <= s < |species| && a in species[s].organisms ==> 0 <= a < |population|
      requires AllBreedable(population)
      requires forall k, j, t :: 0 < t ==> 0 <= mate(k, j, t).0 < t && 0 <= mate(k, j, t).1 < t
      ensures |newGen| == Total(Plan(Sizes(species), counts, 0))
      ensures Descended(newGen, population, species, Lineage(Plan(Sizes(species), counts, 0)), mate, pick)
    {
      ghost var sizes := Sizes(species);
      ghost var lin: seq<(int, int)> := [];
      newGen := [];
      for k := 0 to |species|
        invariant lin + Lineage(Plan(sizes, counts, k)) == Lineage(Plan(sizes, counts, 0))
        invariant Descended(newGen, population, species, lin, mate, pick)
        invariant AllBreedable(population)
      {
        newGen, lin := SpeciesStep(newGen, species, fitness, counts, k, mate, pick, lin);
      }
    }

    /** One round of next_generation's loop over the species: species k is
        skipped when it is empty or its count is zero, and otherwise its
        offspring are appended. */
    method SpeciesStep(newGen: seq<Genome>, species: seq<Species>, fitness: seq<real>, counts: seq<int>, k: int,
                       mate: (int, int, int) -> (int, int), pick: (int, int) -> (int -> bool), ghost lin: seq<(int, int)>)
      returns (next: seq<Genome>, ghost lin': seq<(int, int)>)
      requires |counts| == |species| && 0 <= k < |species| && |fitness| == |population|
      requires forall s, a :: 0 <= s < |species| && a in species[s].organisms ==> 0 <= a < |population|
      requires AllBreedable(population) && Descended(newGen, population, species, lin, mate, pick)
      requires forall k, j, t :: 0 < t ==> 0 <= mate(k, j, t).0 < t && 0 <= mate(k, j, t).1 < t
      ensures lin + Lineage(Plan(Sizes(species), counts, k)) == lin' + Lineage(Plan(Sizes(species), counts, k + 1))
      ensures Descended(next, population, species, lin', mate, pick) && AllBreedable(population)
    {
      LineageAdvance(lin, Sizes(species), counts, k);
      var org := species[k].organisms;
      if org == [] || counts[k] == 0 {
        return newGen, lin;
      }
      assert forall i :: 0 <= i < |org| ==> org[i] in species[k].organisms;
      next := BreedInto(newGen, species, fitness, k, counts[k], mate, pick, lin);
      lin' := lin + Rounds(k, Made(counts[k]));
    }

    /** The part of next_generation that breeds the new generation: the
        species (sorted at the first generation) and the offspring of every
        species. The per-genome bookkeeping of AssignSpecies feeds only the
        fitness sharing, whose rounded counts are the parameter offspring. */
    method Generate(fitness: seq<real>, offspring: int -> int,
                    closeNow: (Leader, int) -> bool, drawNow: (int, int) -> int,
                    mate: (int, int, int) -> (int, int), pick: (int, int) -> (int -> bool))
      returns (species: seq<Species>, newGen: seq<Genome>)
      requires Valid() && |fitness| == |population| && AllBreedable(population)
      requires forall k, m :: 0 < m ==> 0 <= drawNow(k, m) < m
      requires forall k, j, t :: 0 < t ==> 0 <= mate(k, j, t).0 < t && 0 <= mate(k, j, t).1 < t
      ensures species == SpeciesOf(gen, previousGen, closeNow, |population|, drawNow)
      ensures |newGen| == Total(Plan(Sizes(species), Counts(species, offspring), 0))
      ensures Descended(newGen, population, species, Lineage(Plan(Sizes(species), Counts(species, offspring), 0)), mate, pick)
    {
      species := previousGen;
      if gen == 0 {
        species := Speciate(|population|, closeNow, drawNow);
      }
      PartitionBounds(species, |population|);
      newGen := Reproduce(species, fitness, Counts(species, offspring), mate, pick);
    }

    /** The end of next_generation: the bred generation is sorted into
        species against the leaders of the species it was bred from, and
        replaces the population. */
    method Advance(species: seq<Species>, newGen: seq<Genome>, closeNext: (Leader, int) -> bool, drawNext: (int, int) -> int,
                   ghost d: Descent)
      requires Valid() && |newGen| == |population|
      requires forall k, m :: 0 < m ==> 0 <= drawNext(k, m) < m
      requires d.newGen == newGen && d.pop == population && d.species == species
      requires Descended(d.newGen, d.pop, d.species, d.lineage, d.mate, d.pick)
      modifies this`population, this`previousGen, this`gen
      ensures Valid() && population == newGen && gen == old(gen) + 1
      ensures previousGen == Speciation(species, closeNext, |newGen|, drawNext)
      ensures Descended(population, old(population), species, d.lineage, d.mate, d.pick)
      ensures forall q :: 0 <= q < |population| ==> population[q].Valid()
    {
      label Bred:
      previousGen := species;
      previousGen := Speciate(|newGen|, closeNext, drawNext);
      population := newGen;
      gen := gen + 1;
      DescentStays@Bred(d);
      DescendedValid(d.newGen, d.pop, d.species, d.lineage, d.mate, d.pick);
    }

    /** next_generation: at the first generation the population is sorted
        into species; every species then breeds its share of the next
        generation, which must have the population's size (or the step
        aborts), is sorted into species against the old leaders, and
        replaces the population. offspring(s) is species s's offspring count
        as the fitness sharing rounds it. */
    method NextGeneration(fitness: seq<real>, offspring: int -> int,
                          closeNow: (Leader, int) -> bool, closeNext: (Leader, int) -> bool,
                          drawNow: (int, int) -> int, drawNext: (int, int) -> int,
                          mate: (int, int, int) -> (int, int), pick: (int, int) -> (int -> bool))
      returns (ok: bool)
      requires Valid() && |fitness| == |population| && AllBreedable(population)
      requires forall k, m :: 0 < m ==> 0 <= drawNow(k, m) < m
      requires forall k, m :: 0 < m ==> 0 <= drawNext(k, m) < m
      requires forall k, j, t :: 0 < t ==> 0 <= mate(k, j, t).0 < t && 0 <= mate(k, j, t).1 < t
      modifies this`population, this`previousGen, this`gen
      ensures SplitRegistry() == old(SplitRegistry()) && EdgeRegistry() == old(EdgeRegistry())
      ensures var species := SpeciesOf(old(gen), old(previousGen), closeNow, old(|population|), drawNow);
        ok <==> Total(Plan(Sizes(species), Counts(species, offspring), 0)) == old(|population|)
      ensures !ok ==> population == old(population) && gen == old(gen)
      ensures ok ==> Valid() && gen == old(gen) + 1 && |population| == old(|population|)
      ensures var species := SpeciesOf(old(gen), old(previousGen), closeNow, old(|population|), drawNow);
        ok ==> previousGen == Speciation(species, closeNext, |population|, drawNext)
      ensures var species := SpeciesOf(old(gen), old(previousGen), closeNow, old(|population|), drawNow);
        ok ==> Descended(population, old(population), species, Lineage(Plan(Sizes(species), Counts(species, offspring), 0)), mate, pick)
      ensures ok ==> forall q :: 0 <= q < |population| ==> population[q].Valid()
    {
      var species, newGen := Generate(fitness, offspring, closeNow, drawNow, mate, pick);
      if |newGen| != |population| {
        previousGen := species;
        return false;
      }
      ghost var lineage := Lineage(Plan(Sizes(species), Counts(species, offspring), 0));
      Advance(species, newGen, closeNext, drawNext, Descent(newGen, population, species, lineage, mate, pick));
      return true;
    }
  }
}
