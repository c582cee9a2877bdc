/** The flat gene records of src/genome.rs (GenomeInfo, flatten, un_flatten)
    as values: the records a genome lists, the dense relabelling un_flatten
    gives global ids, and the connection lists it rebuilds. */
module Records {
  import opened Nodes
  import opened Graphs

  /** One connection, with both endpoints named by global id. */
  datatype GenomeInfo = GenomeInfo(from: int, to: int, inno: int, weight: real, active: bool)

  /** The global id of local id x (every target of a well-formed genome is in range). */
  function GlobalOf(globals: seq<int>, x: int): int
  {
    if 0 <= x < |globals| then globals[x] else x
  }

  /** The record of connection c leaving a node with global id gu. */
  function Info(globals: seq<int>, gu: int, c: Connection): GenomeInfo
  {
    GenomeInfo(gu, GlobalOf(globals, c.target), c.inno, c.weight, c.active)
  }

  /** Node u's connections as records, in list order. */
  function NodeRecords(adj: seq<Connection>, globals: seq<int>, gu: int): (r: seq<GenomeInfo>)
    ensures |r| == |adj|
  {
    if adj == [] then []
    else NodeRecords(adj[..|adj| - 1], globals, gu) + [Info(globals, gu, adj[|adj| - 1])]
  }

  /** The records of nodes 0..m-1, node by node. */
  function AllRecords(g: Adjacency, globals: seq<int>, m: nat): seq<GenomeInfo>
    requires |globals| == |g| && m <= |g|
  {
    if m == 0 then [] else AllRecords(g, globals, m - 1) + NodeRecords(g[m - 1], globals, globals[m - 1])
  }

  /** The number of connections of nodes 0..m-1. */
  function TotalConnections(g: Adjacency, m: nat): nat
    requires m <= |g|
  {
    if m == 0 then 0 else TotalConnections(g, m - 1) + |g[m - 1]|
  }

  predicate SortedByInno(s: seq<GenomeInfo>)
  {
    forall i, j :: 0 <= i < j < |s| ==> s[i].inno <= s[j].inno
  }

  /** Every global id a record mentions. */
  function Ends(genes: seq<GenomeInfo>): set<int>
  {
    (set r | r in genes :: r.from) + (set r | r in genes :: r.to)
  }

  /** The local id un_flatten gives global id x: its position among the ids in u. */
  function Rank(u: set<int>, x: int): nat
  {
    |set y | y in u && y < x|
  }

  /** The ids below the first hidden one. */
  function LowIds(u: set<int>, base: int): set<int>
  {
    set y | y in u && y < base
  }

  /** The connection lists un_flatten builds on n nodes: record by record,
      a connection appended to the list of the source's rank. */
  function Build(n: nat, genes: seq<GenomeInfo>, u: set<int>): (g: Adjacency)
    ensures |g| == n
  {
    if genes == [] then seq(n, _ => [])
    else
      var r := genes[|genes| - 1];
      var g0 := Build(n, genes[..|genes| - 1], u);
      var a := Rank(u, r.from);
      if a < n then AppendConnection(g0, a, Connection(Rank(u, r.to), r.inno, r.weight, r.active)) else g0
  }

  // ---- lemmas ----

  lemma NodeRecordsAppend(adj: seq<Connection>, globals: seq<int>, gu: int, c: Connection)
    ensures NodeRecords(adj + [c], globals, gu) == NodeRecords(adj, globals, gu) + [Info(globals, gu, c)]
  {
    assert (adj + [c])[..|adj|] == adj;
  }

  lemma NodeRecordsPrefix(adj: seq<Connection>, globals: seq<int>, gu: int, k: int)
    requires 0 <= k < |adj|
    ensures NodeRecords(adj[..k + 1], globals, gu) == NodeRecords(adj[..k], globals, gu) + [Info(globals, gu, adj[k])]
  {
    assert adj[..k + 1][..k] == adj[..k];
  }

  lemma AppendWellFormed(g: Adjacency, u: int, c: Connection)
    requires WellFormed(g) && 0 <= u < |g| && 0 <= c.target < |g|
    ensures WellFormed(AppendConnection(g, u, c))
  {
    var g': Adjacency := AppendConnection(g, u, c);
    forall v, k | 0 <= v < |g'| && 0 <= k < |g'[v]| ensures 0 <= g'[v][k].target < |g'| {
      if v != u || k != |g[u]| {
        assert g'[v][k] == g[v][k];
      }
    }
  }

  /** Appending a connection to node u leaves the records of the nodes before u alone. */
  lemma {:induction false} AllRecordsAppendAfter(g: Adjacency, g': Adjacency, globals: seq<int>, m: nat, u: int, c: Connection)
    requires |globals| == |g| && m <= u < |g|
    requires g' == AppendConnection(g, u, c)
    ensures AllRecords(g', globals, m) == AllRecords(g, globals, m)
  {
    if m > 0 {
      AllRecordsAppendAfter(g, g', globals, m - 1, u, c);
      assert g'[m - 1] == g[m - 1];
    }
  }

  /** Appending a connection to a node's list adds exactly its record. */
  lemma {:induction false} AllRecordsAppend(g: Adjacency, g': Adjacency, globals: seq<int>, m: nat, u: int, c: Connection, r: GenomeInfo)
    requires |globals| == |g| && u < m <= |g| && 0 <= u
    requires g' == AppendConnection(g, u, c)
    requires r == Info(globals, globals[u], c)
    ensures multiset(AllRecords(g', globals, m)) == multiset(AllRecords(g, globals, m)) + multiset{r}
  {
    AllRecordsGrow(g, globals, m, u, c);
  }

  /** AllRecordsAppend with the new adjacency and the record written out. */
  lemma {:induction false} AllRecordsGrow(g: Adjacency, globals: seq<int>, m: nat, u: int, c: Connection)
    requires |globals| == |g| && u < m <= |g| && 0 <= u
    ensures multiset(AllRecords(AppendConnection(g, u, c), globals, m)) == multiset(AllRecords(g, globals, m)) + multiset{Info(globals, globals[u], c)}
  {
    AllRecordsSplit(g, globals, u + 1, m);
    AllRecordsGrowSplit(g, globals, m, u, c);
    MultisetInsert(AllRecords(AppendConnection(g, u, c), globals, m), AllRecords(g, globals, m),
                   AllRecords(g, globals, u + 1), Info(globals, globals[u], c), RecordsFrom(g, globals, u + 1, m));
  }

  /** Inserting r somewhere in a sequence adds r to its multiset. */
  lemma MultisetInsert(longer: seq<GenomeInfo>, shorter: seq<GenomeInfo>, head: seq<GenomeInfo>, r: GenomeInfo, tail: seq<GenomeInfo>)
    requires longer == head + [r] + tail && shorter == head + tail
    ensures multiset(longer) == multiset(shorter) + multiset{r}
  {
  }

  /** The records of nodes after u are untouched, so the new record sits
      between those up to u and those after. */
  lemma {:induction false} AllRecordsGrowSplit(g: Adjacency, globals: seq<int>, m: nat, u: int, c: Connection)
    requires |globals| == |g| && u < m <= |g| && 0 <= u
    ensures AllRecords(AppendConnection(g, u, c), globals, m)
         == AllRecords(g, globals, u + 1) + [Info(globals, globals[u], c)] + RecordsFrom(g, globals, u + 1, m)
  {
    var g' := AppendConnection(g, u, c);
    AllRecordsSplit(g', globals, u + 1, m);
    RecordsFromAppend(g, globals, u + 1, m, u, c);
    AllRecordsAppendHere(g, g', globals, u + 1, u, c, Info(globals, globals[u], c));
  }

  /** The records of nodes lo..m-1, node by node. */
  function RecordsFrom(g: Adjacency, globals: seq<int>, lo: nat, m: nat): seq<GenomeInfo>
    requires |globals| == |g| && lo <= m <= |g|
    decreases m - lo
  {
    if m == lo then [] else RecordsFrom(g, globals, lo, m - 1) + NodeRecords(g[m - 1], globals, globals[m - 1])
  }

  /** The records of nodes 0..m-1 are those before lo followed by those from lo on. */
  lemma {:induction false} AllRecordsSplit(g: Adjacency, globals: seq<int>, lo: nat, m: nat)
    requires |globals| == |g| && lo <= m <= |g|
    ensures AllRecords(g, globals, m) == AllRecords(g, globals, lo) + RecordsFrom(g, globals, lo, m)
    decreases m - lo
  {
    if m > lo {
      AllRecordsSplit(g, globals, lo, m - 1);
      var last := NodeRecords(g[m - 1], globals, globals[m - 1]);
      assert AllRecords(g, globals, lo) + RecordsFrom(g, globals, lo, m - 1) + last
          == AllRecords(g, globals, lo) + (RecordsFrom(g, globals, lo, m - 1) + last);
    }
  }

  /** Nodes from lo on are untouched by an append to an earlier node, and so are their records. */
  lemma {:induction false} RecordsFromAppend(g: Adjacency, globals: seq<int>, lo: nat, m: nat, u: int, c: Connection)
    requires |globals| == |g| && 0 <= u < lo <= m <= |g|
    ensures RecordsFrom(AppendConnection(g, u, c), globals, lo, m) == RecordsFrom(g, globals, lo, m)
    decreases m - lo
  {
    if m > lo {
      RecordsFromAppend(g, globals, lo, m - 1, u, c);
      assert AppendConnection(g, u, c)[m - 1] == g[m - 1];
    }
  }

  /** The records up to and including node u gain exactly r at the end. */
  lemma {:induction false} AllRecordsAppendHere(g: Adjacency, g': Adjacency, globals: seq<int>, m: nat, u: int, c: Connection, r: GenomeInfo)
    requires |globals| == |g| && 0 <= u < |g| && m == u + 1
    requires g' == AppendConnection(g, u, c)
    requires r == Info(globals, globals[u], c)
    ensures AllRecords(g', globals, m) == AllRecords(g, globals, m) + [r]
  {
    AllRecordsAppendAfter(g, g', globals, u, u, c);
    NodeRecordsAppend(g[u], globals, globals[u], c);
  }

  lemma {:induction false} AllRecordsLength(g: Adjacency, globals: seq<int>, m: nat)
    requires |globals| == |g| && m <= |g|
    ensures |AllRecords(g, globals, m)| == TotalConnections(g, m)
  {
    if m > 0 {
      AllRecordsLength(g, globals, m - 1);
    }
  }

  /** Every endpoint's rank is a local id whose global id is the endpoint itself. */
  ghost predicate Relabels(genes: seq<GenomeInfo>, u: set<int>, globals: seq<int>)
  {
    forall i :: 0 <= i < |genes| ==>
      && Rank(u, genes[i].from) < |globals| && globals[Rank(u, genes[i].from)] == genes[i].from
      && Rank(u, genes[i].to) < |globals| && globals[Rank(u, genes[i].to)] == genes[i].to
  }

  lemma BuildStep(n: nat, genes: seq<GenomeInfo>, u: set<int>, globals: seq<int>)
    requires |globals| == n && |genes| > 0 && Relabels(genes, u, globals)
    ensures Relabels(genes[..|genes| - 1], u, globals)
    ensures multiset(AllRecords(Build(n, genes, u), globals, n))
      == multiset(AllRecords(Build(n, genes[..|genes| - 1], u), globals, n)) + multiset{genes[|genes| - 1]}
  {
    var r := genes[|genes| - 1];
    var init := genes[..|genes| - 1];
    RelabelsPrefix(genes, u, globals);
    var c := Connection(Rank(u, r.to), r.inno, r.weight, r.active);
    var a := Rank(u, r.from);
    assert a < n && globals[a] == r.from && globals[c.target] == r.to;
    var g0, g1 := Build(n, init, u), Build(n, genes, u);
    assert g1 == AppendConnection(g0, a, c);
    assert Info(globals, globals[a], c) == r;
    AllRecordsAppend(g0, g1, globals, n, a, c, r);
  }

  lemma RelabelsPrefix(genes: seq<GenomeInfo>, u: set<int>, globals: seq<int>)
    requires |genes| > 0 && Relabels(genes, u, globals)
    ensures Relabels(genes[..|genes| - 1], u, globals)
  {
    var init := genes[..|genes| - 1];
    forall i | 0 <= i < |init|
      ensures Rank(u, init[i].from) < |globals| && globals[Rank(u, init[i].from)] == init[i].from
      ensures Rank(u, init[i].to) < |globals| && globals[Rank(u, init[i].to)] == init[i].to
    {
      assert init[i] == genes[i];
    }
  }

  /** When the global id stored at every rank is the id itself, flattening
      what un_flatten built gives back the records, up to order. */
  lemma {:induction false} BuildRecords(n: nat, genes: seq<GenomeInfo>, u: set<int>, globals: seq<int>)
    requires |globals| == n && Relabels(genes, u, globals)
    ensures multiset(AllRecords(Build(n, genes, u), globals, n)) == multiset(genes)
    decreases |genes|
  {
    if genes == [] {
      var g := Build(n, genes, u);
      EmptyRecords(g, globals, n);
    } else {
      BuildStep(n, genes, u, globals);
      BuildRecords(n, genes[..|genes| - 1], u, globals);
      MultisetLast(genes);
    }
  }

  lemma MultisetLast(genes: seq<GenomeInfo>)
    requires |genes| > 0
    ensures multiset(genes) == multiset(genes[..|genes| - 1]) + multiset{genes[|genes| - 1]}
  {
    assert genes == genes[..|genes| - 1] + [genes[|genes| - 1]];
  }

  lemma {:induction false} EmptyRecords(g: Adjacency, globals: seq<int>, m: nat)
    requires |globals| == |g| && m <= |g|
    requires forall v :: 0 <= v < |g| ==> g[v] == []
    ensures AllRecords(g, globals, m) == []
  {
    if m > 0 {
      EmptyRecords(g, globals, m - 1);
    }
  }

  lemma ProperSubsetSmaller<T>(a: set<T>, b: set<T>)
    requires a < b
    ensures |a| < |b|
  {
    var d := b - a;
    assert b == a + d && a * d == {};
    var x :| x in d;
  }

  /** Ranks are below the number of ids, and distinct ids get distinct ranks. */
  lemma RankBounds(u: set<int>, x: int, y: int)
    requires x in u && y in u
    ensures Rank(u, x) < |u|
    ensures x < y ==> Rank(u, x) < Rank(u, y)
  {
    var below := set z | z in u && z < x;
    assert below < u by { assert x in u && x !in below; }
    ProperSubsetSmaller(below, u);
    if x < y {
      var belowY := set z | z in u && z < y;
      assert below < belowY by { assert x in belowY && x !in below; }
      ProperSubsetSmaller(below, belowY);
    }
  }

  lemma RankInjective(u: set<int>, x: int, y: int)
    requires x in u && y in u && x != y
    ensures Rank(u, x) != Rank(u, y)
  {
    if x < y { RankBounds(u, x, y); } else { RankBounds(u, y, x); }
  }

  /** The ids of u split into those below base and the rest. */
  lemma SplitIds(u: set<int>, base: int)
    ensures |u| == |LowIds(u, base)| + |set y | y in u && y >= base|
  {
    var hi := set y | y in u && y >= base;
    assert u == LowIds(u, base) + hi;
    assert LowIds(u, base) * hi == {};
  }

  /** un_flatten's relabelling is the identity on the input, bias and output ids
      when all of them occur and no id is negative. */
  predicate Covered(u: set<int>, base: nat)
  {
    Range(base) <= u && forall y :: y in u ==> y >= 0
  }

  lemma LowRank(u: set<int>, base: nat, y: int)
    requires Covered(u, base) && 0 <= y < base
    ensures Rank(u, y) == y
  {
    assert (set z | z in u && z < y) == Range(y);
    RangeSize(y);
  }

  /** The ids of u at or above base. */
  function HighIds(u: set<int>, base: int): set<int>
  {
    set y | y in u && y >= base
  }

  /** A BTreeSet of ids, as the strictly increasing sequence it iterates in. */
  predicate Increasing(s: seq<int>)
  {
    forall i, j :: 0 <= i < j < |s| ==> s[i] < s[j]
  }

  /** Ids with at most base of them below base, and n - base at or above it, fit on n nodes. */
  lemma FitsNodes(u: set<int>, base: nat, n: int)
    requires |LowIds(u, base)| <= base && |HighIds(u, base)| == n - base
    ensures |u| <= n
  {
    SplitIds(u, base);
    assert HighIds(u, base) == set y | y in u && y >= base;
  }

  function Elements(s: seq<int>): set<int>
  {
    set y | y in s
  }

  /** The hidden ids, listed once each in increasing order after base nodes, count the nodes past base. */
  lemma HiddenCount(hidden: seq<int>, ends: set<int>, base: nat, n: int)
    requires Increasing(hidden) && Elements(hidden) == HighIds(ends, base) && |hidden| == n - base
    ensures n == base + |HighIds(ends, base)|
  {
    IncreasingCard(hidden);
  }

  lemma {:induction false} IncreasingCard(s: seq<int>)
    requires Increasing(s)
    ensures |Elements(s)| == |s|
  {
    if s != [] {
      var init := s[..|s| - 1];
      IncreasingCard(init);
      assert Elements(s) == Elements(init) + {s[|s| - 1]};
      assert s[|s| - 1] !in Elements(init);
    }
  }

  /** In an increasing sequence an element's rank among all elements is its index. */
  lemma RankInSorted(s: seq<int>, k: int)
    requires Increasing(s) && 0 <= k < |s|
    ensures Rank(Elements(s), s[k]) == k
  {
    assert (set y | y in Elements(s) && y < s[k]) == Elements(s[..k]) by {
      forall y | y in Elements(s) && y < s[k] ensures y in Elements(s[..k]) {
        var j :| 0 <= j < |s| && s[j] == y;
        assert j < k;
        assert s[..k][j] == y;
      }
    }
    IncreasingCard(s[..k]);
  }

  lemma EndsAppend(genes: seq<GenomeInfo>, r: GenomeInfo)
    ensures Ends(genes + [r]) == Ends(genes) + {r.from, r.to}
  {
    var g' := genes + [r];
    assert forall x :: x in g' <==> x in genes || x == r;
  }

  /** In a sorted list of ids that covers 0..base-1 and has no negative id,
      the first base entries are exactly those ids and the rest lie above. */
  lemma SortedCovered(s: seq<int>, base: nat, j: int)
    requires Increasing(s) && Covered(Elements(s), base) && 0 <= j < |s|
    ensures s[j] < base <==> j < base
    ensures j < base ==> s[j] == j
  {
    var u := Elements(s);
    RankInSorted(s, j);
    assert s[j] in u;
    if s[j] < base {
      LowRank(u, base, s[j]);
    } else {
      var below := set z | z in u && z < s[j];
      assert Range(base) <= below;
      RangeSize(base);
      SubsetSmaller(Range(base), below);
    }
  }

  lemma SubsetSmaller<T>(a: set<T>, b: set<T>)
    requires a <= b
    ensures |a| <= |b|
  {
    assert b == a + (b - a);
  }

  /** When the global ids of the first nodes are the sorted ids themselves,
      every endpoint's rank leads back to it. */
  lemma RelabelsFromSorted(genes: seq<GenomeInfo>, s: seq<int>, globals: seq<int>)
    requires Increasing(s) && Elements(s) == Ends(genes)
    requires |s| <= |globals| && forall j :: 0 <= j < |s| ==> globals[j] == s[j]
    ensures Relabels(genes, Ends(genes), globals)
  {
    forall i | 0 <= i < |genes|
      ensures Rank(Ends(genes), genes[i].from) < |globals| && globals[Rank(Ends(genes), genes[i].from)] == genes[i].from
      ensures Rank(Ends(genes), genes[i].to) < |globals| && globals[Rank(Ends(genes), genes[i].to)] == genes[i].to
    {
      assert genes[i] in genes;
      assert genes[i].from in Ends(genes) && genes[i].to in Ends(genes);
      assert genes[i].from in s && genes[i].to in s;
      var a :| 0 <= a < |s| && s[a] == genes[i].from;
      var b :| 0 <= b < |s| && s[b] == genes[i].to;
      RankInSorted(s, a);
      RankInSorted(s, b);
    }
  }

  /** Records with the same elements mention the same ids. */
  lemma SameEnds(a: seq<GenomeInfo>, b: seq<GenomeInfo>)
    requires multiset(a) == multiset(b)
    ensures Ends(a) == Ends(b)
    ensures forall r :: r in a <==> r in b
  {
    assert forall r :: r in a <==> r in multiset(a);
    assert forall r :: r in b <==> r in multiset(b);
  }

  /** Records in another order mention the same ids and can be rebuilt alike. */
  lemma SameRecords(a: seq<GenomeInfo>, b: seq<GenomeInfo>, base: nat)
    requires multiset(a) == multiset(b) && Rebuildable(b, base)
    ensures Ends(a) == Ends(b) && Rebuildable(a, base)
  {
    SameEnds(a, b);
  }

  /** What un_flatten needs of its records to stay in bounds: no record joins
      an id to itself, and at most base ids lie below the first hidden id. */
  predicate Rebuildable(genes: seq<GenomeInfo>, base: nat)
  {
    (forall r :: r in genes ==> r.from != r.to) && |LowIds(Ends(genes), base)| <= base
  }

  /** One step of the walk over the sorted ids: the next id is new, and when
      it is at or above base it extends the increasing list of hidden ids. */
  lemma UniqueStep(s: seq<int>, k: int, hidden: seq<int>, base: int)
    requires Increasing(s) && 0 <= k < |s|
    requires Increasing(hidden) && Elements(hidden) == HighIds(Elements(s[..k]), base)
    ensures s[k] !in Elements(s[..k])
    ensures Elements(s[..k + 1]) == Elements(s[..k]) + {s[k]}
    ensures s[k] >= base ==> Increasing(hidden + [s[k]]) && Elements(hidden + [s[k]]) == HighIds(Elements(s[..k + 1]), base)
    ensures s[k] < base ==> Elements(hidden) == HighIds(Elements(s[..k + 1]), base)
  {
    assert s[..k + 1] == s[..k] + [s[k]];
    assert forall y :: y in Elements(s[..k]) ==> y < s[k];
    if s[k] >= base {
      var h := hidden + [s[k]];
      forall a, b | 0 <= a < b < |h| ensures h[a] < h[b] {
        if b < |hidden| {
          assert h[a] == hidden[a] && h[b] == hidden[b];
        } else {
          assert h[a] == hidden[a] && hidden[a] in Elements(hidden);
        }
      }
      assert Elements(h) == Elements(hidden) + {s[k]};
    }
  }

  /** un_flatten's numbering after the first k ordered ids: those ids are
      mapped to their ranks, the hidden global ids (from base on) are the ones
      among them at or above base, in increasing order, and, when the low ids
      are all covered, the global id at every position from base on is the id
      of that rank. */
  predicate IdsNumbered(globals: seq<int>, base: nat, unique: seq<int>, k: int, mapping: map<int, int>)
    requires 0 <= k <= |unique| && base <= |globals|
  {
    && mapping.Keys == Elements(unique[..k]) && |mapping| == k
    && (forall y :: y in mapping ==> mapping[y] == Rank(Elements(unique), y))
    && Increasing(globals[base..]) && Elements(globals[base..]) == HighIds(Elements(unique[..k]), base)
    && (Covered(Elements(unique), base) ==>
         |globals| == (if k < base then base else k) && forall j :: base <= j < k ==> globals[j] == unique[j])
  }

  lemma MappingStep(unique: seq<int>, k: int, mapping: map<int, int>)
    requires Increasing(unique) && 0 <= k < |unique|
    requires mapping.Keys == Elements(unique[..k]) && |mapping| == k
    requires forall y :: y in mapping ==> mapping[y] == Rank(Elements(unique), y)
    ensures mapping[unique[k] := k].Keys == Elements(unique[..k + 1]) && |mapping[unique[k] := k]| == k + 1
    ensures forall y :: y in mapping[unique[k] := k] ==> mapping[unique[k] := k][y] == Rank(Elements(unique), y)
  {
    assert unique[..k + 1] == unique[..k] + [unique[k]];
    assert unique[k] !in Elements(unique[..k]);
    RankInSorted(unique, k);
  }

  lemma HiddenStep(globals: seq<int>, base: nat, unique: seq<int>, k: int)
    requires Increasing(unique) && 0 <= k < |unique| && base <= |globals|
    requires Increasing(globals[base..]) && Elements(globals[base..]) == HighIds(Elements(unique[..k]), base)
    ensures var globals' := if unique[k] >= base then globals + [unique[k]] else globals;
      Increasing(globals'[base..]) && Elements(globals'[base..]) == HighIds(Elements(unique[..k + 1]), base)
  {
    var hidden := globals[base..];
    UniqueStep(unique, k, hidden, base);
    if unique[k] >= base {
      assert (globals + [unique[k]])[base..] == hidden + [unique[k]];
    }
  }

  lemma CoveredStep(globals: seq<int>, base: nat, unique: seq<int>, k: int)
    requires Increasing(unique) && 0 <= k < |unique| && Covered(Elements(unique), base)
    requires |globals| == (if k < base then base else k) && forall j :: base <= j < k ==> globals[j] == unique[j]
    ensures var globals' := if unique[k] >= base then globals + [unique[k]] else globals;
      |globals'| == (if k + 1 < base then base else k + 1) && forall j :: base <= j < k + 1 ==> globals'[j] == unique[j]
  {
    SortedCovered(unique, base, k);
  }

  lemma NumberedStep(globals: seq<int>, base: nat, unique: seq<int>, k: int, mapping: map<int, int>)
    requires Increasing(unique) && 0 <= k < |unique| && base <= |globals|
    requires IdsNumbered(globals, base, unique, k, mapping)
    ensures IdsNumbered(if unique[k] >= base then globals + [unique[k]] else globals, base, unique, k + 1, mapping[unique[k] := k])
  {
    MappingStep(unique, k, mapping);
    HiddenStep(globals, base, unique, k);
    if Covered(Elements(unique), base) {
      CoveredStep(globals, base, unique, k);
    }
  }

  /** The pairs un_flatten puts in `edges`: ranked endpoints of every record whose source is not the bias. */
  function EdgesOf(genes: seq<GenomeInfo>, u: set<int>, bias: int): set<(int, int)>
  {
    if genes == [] then {}
    else
      var r := genes[|genes| - 1];
      EdgesOf(genes[..|genes| - 1], u, bias) + (if Rank(u, r.from) != bias then {(Rank(u, r.from), Rank(u, r.to))} else {})
  }

  /** Adding one record at the end adds its connection, and its pair unless it leaves the bias. */
  lemma BuildAppend(n: nat, genes: seq<GenomeInfo>, r: GenomeInfo, u: set<int>, bias: int)
    ensures Build(n, genes + [r], u) ==
      if Rank(u, r.from) < n then AppendConnection(Build(n, genes, u), Rank(u, r.from), Connection(Rank(u, r.to), r.inno, r.weight, r.active))
      else Build(n, genes, u)
    ensures EdgesOf(genes + [r], u, bias) ==
      EdgesOf(genes, u, bias) + (if Rank(u, r.from) != bias then {(Rank(u, r.from), Rank(u, r.to))} else {})
  {
    assert (genes + [r])[..|genes|] == genes;
  }

  // ---- sorting, as sort_by_key does it ----

  /** x placed after every record whose innovation number is at most x's. */
  function InsertRecord(s: seq<GenomeInfo>, x: GenomeInfo): seq<GenomeInfo>
  {
    if s == [] || s[|s| - 1].inno <= x.inno then s + [x]
    else InsertRecord(s[..|s| - 1], x) + [s[|s| - 1]]
  }

  /** The records in the order a stable sort by innovation number leaves them. */
  function SortRecords(s: seq<GenomeInfo>): seq<GenomeInfo>
  {
    if s == [] then [] else InsertRecord(SortRecords(s[..|s| - 1]), s[|s| - 1])
  }

  /** genes is records in the order the sort leaves them. */
  predicate InnoOrder(records: seq<GenomeInfo>, genes: seq<GenomeInfo>)
  {
    genes == SortRecords(records)
  }

  /** Where InsertRecord puts x: after the records at most x's innovation number. */
  lemma {:induction false} InsertionPoint(s: seq<GenomeInfo>, x: GenomeInfo) returns (i: int)
    requires SortedByInno(s)
    ensures 0 <= i <= |s|
    ensures forall k :: 0 <= k < i ==> s[k].inno <= x.inno
    ensures forall k :: i <= k < |s| ==> s[k].inno > x.inno
  {
    if s == [] || s[|s| - 1].inno <= x.inno {
      i := |s|;
    } else {
      i := InsertionPoint(s[..|s| - 1], x);
    }
  }

  /** Splicing x in at its insertion point keeps the order and adds exactly x. */
  lemma SpliceSorted(s: seq<GenomeInfo>, x: GenomeInfo, i: int)
    requires SortedByInno(s) && 0 <= i <= |s|
    requires forall k :: 0 <= k < i ==> s[k].inno <= x.inno
    requires forall k :: i <= k < |s| ==> s[k].inno > x.inno
    ensures SortedByInno(s[..i] + [x] + s[i..])
    ensures multiset(s[..i] + [x] + s[i..]) == multiset(s) + multiset{x}
  {
    var r := s[..i] + [x] + s[i..];
    forall a, b | 0 <= a < b < |r| ensures r[a].inno <= r[b].inno {
      if b < i {
        assert r[a] == s[a] && r[b] == s[b];
      } else if b == i {
        assert r[a] == s[a] && r[b] == x;
      } else if a < i {
        assert r[a] == s[a] && r[b] == s[b - 1];
      } else if a == i {
        assert r[a] == x && r[b] == s[b - 1];
      } else {
        assert r[a] == s[a - 1] && r[b] == s[b - 1];
      }
    }
    assert s == s[..i] + s[i..];
  }

  lemma InsertRecordSorted(s: seq<GenomeInfo>, x: GenomeInfo)
    requires SortedByInno(s)
    ensures SortedByInno(InsertRecord(s, x))
    ensures multiset(InsertRecord(s, x)) == multiset(s) + multiset{x}
  {
    var i := InsertionPoint(s, x);
    InsertRecordAt(s, x, i);
    SpliceSorted(s, x, i);
  }

  /** The sort orders by innovation number and keeps every record. */
  lemma {:induction false} SortRecordsSorted(s: seq<GenomeInfo>)
    ensures SortedByInno(SortRecords(s)) && multiset(SortRecords(s)) == multiset(s)
  {
    if s != [] {
      var init, last := s[..|s| - 1], s[|s| - 1];
      var t := SortRecords(init);
      SortRecordsSorted(init);
      InsertRecordSorted(t, last);
      assert SortRecords(s) == InsertRecord(t, last);
      MultisetLast(s);
    }
  }

  /** Records already in order are left as they are: the sort is stable. */
  lemma {:induction false} SortRecordsStable(s: seq<GenomeInfo>)
    requires SortedByInno(s)
    ensures SortRecords(s) == s
  {
    if s != [] {
      var init, last := s[..|s| - 1], s[|s| - 1];
      assert SortedByInno(init);
      SortRecordsStable(init);
      assert SortRecords(s) == InsertRecord(init, last);
      assert init == [] || init[|init| - 1].inno <= last.inno by {
        if init != [] {
          assert init[|init| - 1] == s[|s| - 2];
        }
      }
      assert InsertRecord(init, last) == init + [last];
      assert init + [last] == s;
    }
  }

  /** The records of s with innovation number n, in the order s holds them. */
  function WithInno(s: seq<GenomeInfo>, n: int): seq<GenomeInfo>
  {
    if s == [] then [] else WithInno(s[..|s| - 1], n) + (if s[|s| - 1].inno == n then [s[|s| - 1]] else [])
  }

  /** Appending one record extends the filtered records by it, when it carries n. */
  lemma WithInnoSnoc(s: seq<GenomeInfo>, y: GenomeInfo, n: int)
    ensures WithInno(s + [y], n) == WithInno(s, n) + (if y.inno == n then [y] else [])
  {
    assert (s + [y])[..|s|] == s;
  }

  /** Inserting x moves it only past records of a larger innovation number,
      so among the records numbered n it comes last. */
  lemma {:induction false} InsertRecordKeepsTies(s: seq<GenomeInfo>, x: GenomeInfo, n: int)
    ensures WithInno(InsertRecord(s, x), n) == WithInno(s, n) + (if x.inno == n then [x] else [])
    decreases |s|
  {
    if s == [] || s[|s| - 1].inno <= x.inno {
      WithInnoSnoc(s, x, n);
    } else {
      var init, last := s[..|s| - 1], s[|s| - 1];
      assert s == init + [last];
      InsertRecordKeepsTies(init, x, n);
      WithInnoSnoc(InsertRecord(init, x), last, n);
      WithInnoSnoc(init, last, n);
    }
  }

  /** The sort is stable: records with one innovation number keep their input order. */
  lemma {:induction false} SortRecordsKeepsTies(s: seq<GenomeInfo>, n: int)
    ensures WithInno(SortRecords(s), n) == WithInno(s, n)
  {
    if s != [] {
      var init, last := s[..|s| - 1], s[|s| - 1];
      SortRecordsKeepsTies(init, n);
      InsertRecordKeepsTies(SortRecords(init), last, n);
    }
  }

  /** The insertion point splits s into the records at most x's innovation number and those above. */
  lemma {:induction false} InsertRecordAt(s: seq<GenomeInfo>, x: GenomeInfo, i: int)
    requires 0 <= i <= |s|
    requires i > 0 ==> s[i - 1].inno <= x.inno
    requires forall k :: i <= k < |s| ==> s[k].inno > x.inno
    ensures InsertRecord(s, x) == s[..i] + [x] + s[i..]
    decreases |s|
  {
    if i < |s| {
      var init := s[..|s| - 1];
      InsertRecordAt(init, x, i);
      assert init[..i] == s[..i] && init[i..] + [s[|s| - 1]] == s[i..];
    } else {
      assert s[..i] == s && s[i..] == [];
    }
  }

  /** Inserts x after every record whose innovation number is at most x's. */
  method InsertByInno(s: seq<GenomeInfo>, x: GenomeInfo) returns (r: seq<GenomeInfo>)
    ensures r == InsertRecord(s, x)
  {
    var i := |s|;
    while i > 0 && s[i - 1].inno > x.inno
      invariant 0 <= i <= |s|
      invariant forall k :: i <= k < |s| ==> s[k].inno > x.inno
    {
      i := i - 1;
    }
    InsertRecordAt(s, x, i);
    r := s[..i] + [x] + s[i..];
  }

  /** sort_by_key on the innovation number. */
  method SortByInno(s: seq<GenomeInfo>) returns (r: seq<GenomeInfo>)
    ensures r == SortRecords(s)
  {
    r := [];
    for k := 0 to |s|
      invariant r == SortRecords(s[..k])
    {
      r := InsertByInno(r, s[k]);
      assert s[..k + 1][..k] == s[..k];
    }
    assert s[..|s|] == s;
  }

  /** Putting x between the ids below it and those above it keeps the sequence increasing. */
  lemma InsertIncreasing(s: seq<int>, i: int, x: int)
    requires Increasing(s) && 0 <= i <= |s|
    requires forall k :: 0 <= k < i ==> s[k] < x
    requires forall k :: i <= k < |s| ==> x < s[k]
    ensures Increasing(s[..i] + [x] + s[i..])
    ensures Elements(s[..i] + [x] + s[i..]) == Elements(s) + {x}
  {
    var r := s[..i] + [x] + s[i..];
    forall a, b | 0 <= a < b < |r| ensures r[a] < r[b] {
      if b < i {
        assert r[a] == s[a] && r[b] == s[b];
      } else if b == i {
        assert r[a] == s[a] && r[b] == x;
      } else if a < i {
        assert r[a] == s[a] && r[b] == s[b - 1];
      } else if a == i {
        assert r[a] == x && r[b] == s[b - 1];
      } else {
        assert r[a] == s[a - 1] && r[b] == s[b - 1];
      }
    }
    assert s == s[..i] + s[i..];
    assert Elements(r) == Elements(s[..i]) + {x} + Elements(s[i..]);
  }

  /** Inserts x into the ordered set s, as BTreeSet::insert does. */
  method OrderedInsert(s: seq<int>, x: int) returns (r: seq<int>)
    requires Increasing(s)
    ensures Increasing(r) && Elements(r) == Elements(s) + {x}
  {
    var i := 0;
    while i < |s| && s[i] < x
      invariant 0 <= i <= |s|
      invariant forall k :: 0 <= k < i ==> s[k] < x
    {
      i := i + 1;
    }
    if i < |s| && s[i] == x {
      r := s;
    } else {
      assert forall k :: i <= k < |s| ==> x < s[k] by {
        if i < |s| {
          assert x < s[i];
        }
      }
      InsertIncreasing(s, i, x);
      r := s[..i] + [x] + s[i..];
    }
  }
}
