# NEAT genome graphs and population bookkeeping in Dafny

This project models the core of a small NEAT (NeuroEvolution of Augmenting
Topologies) library written in Rust and proves properties of that model.
The core has three parts:

- the adjacency list of a node (`src/node.rs`);
- the genome (`src/genome.rs`). It is an arena of input, bias, output and
  hidden nodes joined by weighted, innovation-numbered connections that can
  be disabled. It also keeps a set `edges` of splittable connections and a
  connection counter. Its operations are mutation under an acyclicity check,
  cycle detection by an iterative three-colour depth-first search, Kahn-style
  evaluation, and the flatten/un_flatten round trip through innovation-ordered
  gene records;
- the population engine (`src/population.rs`). It holds two lookup-or-allocate
  innovation registries and uses them in `mutate`. It also covers breeding by
  a two-cursor merge of the parents' records, the counting part of the
  compatibility distance, the first-match partition into species,
  `create_species`, and the species bookkeeping of `next_generation`.

Modules:

- `Nodes` (`nodes.dfy`): `Connection` and the `Node` class, whose `adj` list
  is changed in place.
- `Graphs` (`graphs.dfy`): connection lists as values (`Adjacency`), paths,
  cycles, and the graph `split_edge` makes.
- `DepthFirst` (`depth_first.dfy`): `check_cycle`'s search and its invariant.
- `Networks` (`network.dfy`) and `Evaluation` (`evaluation.dfy`): the
  equations a network's values satisfy, and `evaluate`'s queue loop.
- `Records` (`records.dfy`): gene records, the stable sort by innovation
  number, and un_flatten's relabelling.
- `Genomes` (`genome.dfy`): the `Genome` class.
- `Populations` (`population.dfy`): the `Population` class, breeding,
  speciation and the generation step.
- `Scenarios` (`scenarios.dfy`): the unit tests of `src/test.rs`, restated as
  lemmas and methods on concrete genomes.

Representation choices:

- An `Rc<RefCell<Node>>` target becomes the target's index in the genome's
  node sequence.
- A `Genome` holds its `Node` objects in `nodes`. It also holds ghost copies
  of their lists (`adjs`) and of their global ids (`globals`), which `Valid()`
  ties to the nodes.
- A `BTreeSet<(i32, i32)>` is a `set` whose iteration order is lexicographic.
  A `BTreeSet<i32>` is a strictly increasing `seq<int>`.
- Weights and node values are `real`. The activation function is a parameter
  `act: real -> real`.
- Every random draw is a parameter with the range the source draws from:
  `random_edge`'s 100 attempts, the index into `edges`, `mutate`'s choice,
  breed's coin flips, `create_species`' parent pairs, and speciate's leaders.
- The compatibility test `delta(...) < 0.2` is a parameter
  `close(leader, genome)`.
- The rounded offspring count of each species is a parameter
  `offspring(species)`.

Where the code and its design notes disagree, the model follows the code.
The exceptions are the five defects listed under "## Findings". For each,
one member states the code as written, and the corrected behaviour is what
the rest of the model uses; "## Left out" names the members concerned. The
model follows the code in these places:

- `disable_edge`/`enable_edge` flip every connection to the target, not only
  the first.
- `create_species` neither ranks the members by fitness nor keeps a champion.
  It breeds random pairs among the first half of the members, in list order.
- `speciate` compares against `0.2`, not a named threshold constant.
- `evaluate` never applies the activation to a node whose in-degree is zero
  at the start. Such a node keeps its input, bias or 0.0 value
  (`Networks.NetworkEquations`).

## Model

| member | source | states |
|---|---|---|
| Nodes.Node.constructor | src/node.rs:21-30 | a new node has the given local and global id and an empty list |
| Nodes.Node.EdgeExist | src/node.rs:32-40 | true exactly when some connection, active or disabled, targets `to` |
| Nodes.Node.AddEdge | src/node.rs:46-49 | the list gains exactly one connection at its end, with the given target, number, weight and flag |
| Nodes.Node.DisableEdge | src/node.rs:51-58 | every connection to `to` is deactivated; length, order and all else unchanged |
| Nodes.Node.EnableEdge | src/node.rs:60-67 | every connection to `to` is activated; all else unchanged |
| Nodes.Node.SetActiveInPlace | src/node.rs:51-67 | the shared loop of disable/enable: the list becomes `SetActive(old list, to, flag)` |
| Nodes.Node.EdgeWeight | src/node.rs:69-77 | the weight of the first connection to `to`, active or not |
| Nodes.WeightTo | src/node.rs:69-77 | -1.0 when no connection targets `to`; otherwise the weight of a connection to `to` with none before it |
| Nodes.Node.DelBack | src/node.rs:79-81 | the list loses its last connection (an empty list stays empty) |
| Nodes.SetActiveWithoutMatch | src/node.rs:51-67 | flipping the flag of connections that do not exist changes nothing |
| Nodes.DisableThenEnableRestores | src/node.rs:51-67 | disable then enable restores the list when all connections to `to` were active |
| Nodes.SetActiveKeepsTargets | src/node.rs:51-77 | flipping flags changes neither which targets exist nor any weight lookup |
| Nodes.AddThenDropLast | src/node.rs:46-81 | add_edge followed by del_back restores the list |
| Genomes.Genome.constructor | src/genome.rs:28-46 | inputs + outputs + 1 nodes, global id = local id, no connections, empty `edges` |
| Genomes.Genome.AddNode | src/genome.rs:157-165 | one node appended with the given global id; its local id is the old node count; nothing else changes |
| Genomes.Genome.AddEdge | src/genome.rs:167-180 | requires from != to; appends one connection to `from`'s list, counts it, and adds (from, to) to `edges` iff `from` is not the bias |
| Genomes.Genome.RmLast | src/genome.rs:182-186 | pops `from`'s last connection, removes (from, to) from `edges`, and decrements the counter |
| Genomes.Genome.CheckEdge | src/genome.rs:188-190 | true iff (u, v) is in `edges` |
| Genomes.Genome.EdgeExist | src/genome.rs:192-194 | true iff `from` has a connection to `to`, active or not |
| Genomes.Genome.DisableEdge | src/genome.rs:196-200 | deactivates every from -> to connection, removes the pair from `edges`, and decrements the counter unconditionally |
| Genomes.Genome.EnableEdge | src/genome.rs:202-209 | activates every from -> to connection, re-adds the pair unless `from` is the bias, and increments the counter |
| Genomes.Genome.SplitEdge | src/genome.rs:211-220 | no change when a node already has the new global id; otherwise exactly one new node, lists equal to `Subdivide` (from -> to disabled, from -> new with weight 1.0 and `inno`, new -> to with the old weight and `inno + 1`), `edges` updated, and the counter up by exactly one net |
| Genomes.SubdivideSteps | src/genome.rs:215-219 | split_edge's four updates, one after the other, give `Subdivide` |
| Graphs.Subdivide | src/genome.rs:211-220 | the split graph has exactly one node more |
| Graphs.SubdivideKeepsAcyclic | src/genome.rs:211-220 | splitting an active connection of an acyclic graph never creates a cycle |
| Graphs.SubdivideEdges | src/genome.rs:211-220 | the new node's only active connections are from -> new and new -> to; every other active connection is an old one |
| Genomes.Genome.Endpoints | src/genome.rs:226-231 | a candidate's source is an input, the bias or a hidden node (skipping the outputs), and its target is an output or a hidden node |
| Genomes.Genome.TryEdge | src/genome.rs:232-243 | one attempt leaves the genome unchanged and succeeds exactly when u != v, (u, v) is not in `edges`, and adding u -> v keeps the active graph acyclic |
| Genomes.Genome.RandomEdge | src/genome.rs:222-246 | lists, `edges` and counter unchanged; the result is the first acceptable candidate of the 100 draws, or (-1, -1) |
| Genomes.Genome.NthEdge | src/genome.rs:259-264 | the element of `edges` with exactly `draw` elements before it in iteration order |
| Genomes.Genome.RandomSplit | src/genome.rs:252-266 | (-1, -1) iff `edges` is empty; otherwise the drawn member of `edges`; the genome is not changed |
| Genomes.Genome.RandomDisable | src/genome.rs:132-146 | false iff `edges` is empty (nothing changes); otherwise the drawn member is disabled as by disable_edge |
| Genomes.SetMin | src/genome.rs:259-264 | the first element of a non-empty set of pairs in iteration order |
| Genomes.Genome.NodeExists | src/genome.rs:148-155 | true iff some node carries the global id |
| Genomes.Genome.LocalToGlobal | src/genome.rs:248-250 | the global id of the node at the local id |
| Genomes.Genome.CheckCycle | src/genome.rs:318-351 | true iff the active connections contain a directed cycle |
| DepthFirst.Search | src/genome.rs:318-351 | the three-colour search over the node lists returns true iff the graph has a cycle |
| DepthFirst.Visit | src/genome.rs:326-348 | one tree of the search: a true result means a cycle; otherwise the invariant holds again and the root is no longer white |
| Graphs.RankedHasNoCycle | src/genome.rs:318-351 | a finishing order that decreases along every active connection rules out a cycle (the "no cycle" half of the search) |
| Graphs.CycleThroughPathSuffix | src/genome.rs:340-342 | meeting a gray successor closes a cycle (the "cycle" half of the search) |
| Genomes.Genome.Evaluate | src/genome.rs:268-316 | returns exactly `output_nodes` values; without an active cycle they are the output nodes' entries of the one solution of the network equations, with the bias at 1.0 and only active connections contributing |
| Evaluation.NodeValues | src/genome.rs:271-311 | the node values the queue loop computes solve the network equations whenever there is no active cycle |
| Evaluation.ProcessNode | src/genome.rs:298-310 | handling one dequeued node keeps the loop invariant, with that node finished |
| Evaluation.HandleConnection | src/genome.rs:299-309 | one connection of the dequeued node keeps the loop invariant |
| Evaluation.Drained | src/genome.rs:297-311 | once the queue is empty on an acyclic graph, every node is settled |
| Networks.Init | src/genome.rs:272-278 | inputs from index 0, 1.0 on the bias, 0.0 elsewhere |
| Networks.EquationsDetermineValues | src/genome.rs:268-316 | on an acyclic graph the network equations have at most one solution |
| Genomes.Genome.Flatten | src/genome.rs:75-90 | one record per connection, active or disabled: the genome's records in stable innovation order, as many as there are connections |
| Records.SortByInno | src/genome.rs:88 | returns the stable sort by innovation number |
| Records.SortRecordsSorted | src/genome.rs:88 | the sort orders by innovation number and keeps every record |
| Records.SortRecordsStable | src/genome.rs:88 | records already in order are left as they are |
| Records.SortRecordsKeepsTies | src/genome.rs:88 | the sort is stable: for every innovation number, the records carrying it keep their input order |
| Records.InsertRecordKeepsTies | src/genome.rs:88 | one insertion moves the record only past records of a larger number, so it comes last among those of its own |
| Records.InsertByInno | src/genome.rs:88 | one insertion step of the sort |
| Records.OrderedInsert | src/genome.rs:57-60 | BTreeSet insert: the result is increasing and holds exactly the old ids and x |
| Genomes.SortedEnds | src/genome.rs:57-60 | the ids the records mention, as an increasing sequence |
| Genomes.NumberNext | src/genome.rs:61-66 | id unique[k] gets local id k, plus a hidden node when it is at or above the first hidden id |
| Genomes.NumberIds | src/genome.rs:61-66 | every id is mapped to its rank among the ids; the hidden ids get nodes in increasing order; when all low ids occur, the global id at each rank is that id |
| Genomes.AddRecords | src/genome.rs:67-71 | each record becomes one connection between the ranks of its ends; `edges` and counter as add_edge leaves them |
| Genomes.Numbering | src/genome.rs:54-66 | a fresh genome with one hidden node per referenced id at or above inputs + outputs + 1, and the rank map |
| Genomes.UnFlatten | src/genome.rs:48-73 | input + output + 1 nodes plus one per referenced hidden id, one connection per record, `edges` and counter to match; when every low id occurs, the relabelling leads each rank back to its id |
| Records.BuildRecords | src/genome.rs:48-90 | when the relabelling leads back to every id, flattening what un_flatten built gives the records back, up to order |
| Genomes.Rebuild | src/genome.rs:48-73 | un_flatten of records that fit: a valid genome that holds exactly the records once every low id occurs |
| Genomes.Genome.Clone | src/genome.rs:92-100 | flatten then un_flatten: when every input, bias and output id occurs in a record, the copy has the same records |
| Records.SameRecords | src/genome.rs:92-100 | records in another order mention the same ids and fit alike |
| Genomes.Genome.Fan | src/genome.rs:103-113 | node i's connect_ends list: one active connection to each output |
| Genomes.FanIndex | src/genome.rs:105 | the innovation number i * outputs + j indexes one of the (inputs + 1) * outputs weights |
| Genomes.Genome.ConnectNode | src/genome.rs:103-113 | the inner loop for node i: its list gains the fan, `edges` gains (i, output) unless i is the bias, and the counter grows by `outputs` |
| Genomes.Genome.ConnectEnds | src/genome.rs:102-114 | inputs and bias joined to every output; `edges` gains exactly the input-to-output pairs; the counter grows by (inputs + 1) * outputs |
| Populations.Population.constructor | src/population.rs:34-53 | `size` genomes (none for a negative size), each started by connect_ends and all distinct; empty registries; generation 0 with no species; counters as corrected in the findings |
| Populations.StartOne | src/population.rs:37-39 | one genome of the population: Genome::new followed by connect_ends |
| Populations.StartAll | src/population.rs:35-40 | one distinct, freshly started genome per weight vector |
| Populations.AllStartedAt | src/population.rs:35-40 | every genome of the started population is started with its own weights |
| Populations.Population.GetInnoSplit | src/population.rs:64-70 | lookup-or-allocate: a known key returns its id with no change; an unseen key gets `unique_nodes`, which grows by one |
| Populations.Population.GetInnoEdge | src/population.rs:72-78 | lookup-or-allocate on the edge registry with `inno_count` |
| Populations.RegisterStores | src/population.rs:64-78 | a registry returns the stored id; a known key changes nothing; an unseen key takes the counter, which grows by exactly one |
| Populations.RegisterIdempotent | src/population.rs:64-78 | asking again for the same key returns the same id and changes nothing |
| Populations.RegisterKeepsOk | src/population.rs:64-78 | registration keeps every id distinct and in [lower bound, counter) for any lower bound; `Population.Valid()` takes the bounds from `InitialCounters`, the corrected start of the counters (see Findings), not from the values lines 45-46 set |
| Populations.RegisterAllOk | src/population.rs:64-78 | over any run of registrations the ids stay distinct and in range, old ids are kept, and the counter never goes back |
| Populations.Population.Mutate | src/population.rs:80-108 | the registries only grow, the invariant holds, and no node gains a second connection to a target; with choice < 0.3 and empty `edges` nothing changes, otherwise the drawn member of `edges` is split as `SplitOutcome` states; with choice >= 0.3 the first acceptable candidate, if any, is registered and enabled or added as `AddOutcome` states |
| Populations.Population.SplitMutation | src/population.rs:83-93 | empty `edges`: nothing changes; otherwise the drawn connection is registered and split as `SplitOutcome` states |
| Populations.Population.SplitFound | src/population.rs:86-92 | registers (uG, vG), (uG, n) and (n, vG), then split_edge with n and the (uG, n) number |
| Populations.Population.RegisterSplit | src/population.rs:89-91 | the three registrations of the split path; the third number is dropped |
| Populations.SplitInnosConsecutive | src/population.rs:89-92 | when both new connections are unseen, their numbers are consecutive, so split_edge's inno + 1 is the registry's number |
| Populations.SplitInnosApart | src/population.rs:90-92 | with (uG, n) already known, split_edge's inno + 1 differs from the number the registry gave (n, vG) |
| Populations.SplitOrKeep | src/population.rs:92 | split_edge inside mutate: no change when the node exists, otherwise `Subdivide`; the graph stays free of duplicate targets |
| Populations.Population.AddMutation | src/population.rs:94-107 | the first acceptable candidate, if any, is registered and then enabled or added as `AddOutcome` states |
| Populations.Population.AddFound | src/population.rs:98-105 | registers the pair of global ids, then enables an existing connection or adds an active one of weight 1.0 |
| Populations.Population.RegisterEdge | src/population.rs:100 | the registration of the add path |
| Populations.AddOrEnable | src/population.rs:101-105 | an existing connection is re-enabled, otherwise one is appended; never two connections to one target |
| Populations.EnableKeepsSimple | src/population.rs:101-102 | re-enabling never duplicates a connection |
| Populations.AppendKeepsSimple | src/population.rs:103-104 | appending to a target not yet present never duplicates a connection |
| Populations.SubdivideKeepsSimple | src/population.rs:92 | splitting never duplicates a connection |
| Populations.Population.Breed | src/population.rs:110-163 | the child is fresh and is what `Bred` describes: built from both parents' innovation-ordered records |
| Populations.Offspring | src/population.rs:118-161 | a valid child with the population's inputs and outputs, one node per id of u's records, and the connections of `Cross` in order |
| Populations.BreedFrom | src/population.rs:114-161 | breed on the flattened parents: one connection per gene of u |
| Populations.FlattenBoth | src/population.rs:114-115 | both parents' records, each in innovation order |
| Populations.Reordered | src/population.rs:114-115 | reordering by innovation number keeps what the merge needs of the records |
| Populations.Merge | src/population.rs:131-160 | the child receives exactly the connections of `Cross`, in its order, and `edges` and counter to match |
| Populations.WalkBoth | src/population.rs:131-153 | the first loop stops at the end of one list, having added what `Cross` adds up to that point |
| Populations.AddRest | src/population.rs:154-160 | the second loop adds the rest of u's records as they are |
| Populations.CrossFollowsU | src/population.rs:131-161 | the child has exactly one record per gene of u, in u's order, with u's ends and numbers; each takes its weight and flag from that gene or from v's gene with the same number; a gene only v has is never added |
| Populations.CrossOfFitter | src/population.rs:140-141 | when every coin picks u, the child's records are u's own |
| Populations.CrossEnds | src/population.rs:131-161 | the child mentions exactly the ids u's records mention |
| Populations.CountGenes | src/population.rs:190-202 | delta's walk: the matching and disjoint counts and the stop positions are those `Tally` gives |
| Populations.TallyCounts | src/population.rs:190-202 | matching + disjoint = genes of u passed, and the walk stops at the end of one list |
| Populations.TallyStep | src/population.rs:190-202 | one step of the walk: match, u-only gene, or v-only gene |
| Populations.Population.DeltaCounts | src/population.rs:180-207 | matching and disjoint as the walk counts them; excess = (\|u\| - i) + (\|v\| - j); n = max(\|u\|, \|v\|), or 1 when that is below 20 |
| Populations.Population.Speciate | src/population.rs:215-258 | the species are `Speciation` of the previous leaders: they partition the new generation, none is empty, and each is led by one of its members |
| Populations.SortIntoSpecies | src/population.rs:222-240 | speciate's main loop computes `Grouping` |
| Populations.FirstClose | src/population.rs:225-232 | the first leader the genome is close to, after none before it |
| Populations.GroupingPartition | src/population.rs:222-240 | after k genomes every index 0..k-1 is in exactly one species, in increasing order |
| Populations.GroupingFirstClose | src/population.rs:225-238 | every genome was close to none of the earlier leaders, and was close to its own species' leader or founded the species |
| Populations.GroupingShape | src/population.rs:216-238 | the previous leaders stay in front; every new species is led by its first member |
| Populations.KeepNonEmpty | src/population.rs:241-251 | the copy keeps exactly the non-empty species, in order |
| Populations.NonEmptyPartition | src/population.rs:241-251 | dropping empty species keeps every genome's count, so a partition stays a partition |
| Populations.SpeciationPartition | src/population.rs:241-256 | the species speciate means to return partition the generation; each is non-empty and led by a member |
| Populations.PrevLeaders | src/population.rs:218-221 | one leader per previous species |
| Populations.Population.AssignSpecies | src/population.rs:289-298 | for each genome, the size and index of the last species listing it; when the species partition the population, that is its own species |
| Populations.LastHolder | src/population.rs:292-298 | the last species listing a genome, and none after it does |
| Populations.PartitionHolder | src/population.rs:292-298 | with a partition, the bookkeeping finds the one species that lists the genome |
| Populations.LastHolderNext | src/population.rs:292-298 | the bookkeeping over one more species |
| Populations.TopMembers | src/population.rs:272 | top_members never exceeds the species' size |
| Populations.TopMembersRounds | src/population.rs:272 | top_members is n / 2 rounded half up, and it is positive iff the species is non-empty |
| Populations.Population.CreateSpecies | src/population.rs:260-281 | exactly `number_offspring` children (none for a negative count), child j bred from the j-th drawn pair among the first top_members |
| Populations.Population.BreedAppend | src/population.rs:274-279 | one round of the loop: the next child is bred from the next drawn pair |
| Populations.Population.AllBredAppend | src/population.rs:274-279 | appending the child of the next pair keeps every child tied to its pair |
| Populations.Population.BreedableAt | src/population.rs:276-278 | any two of the first top_members can be bred |
| Populations.Population.BreedableGathered | src/population.rs:318-322 | gathering genomes from a breedable population keeps them breedable |
| Populations.Gather | src/population.rs:318-322 | the genomes (or fitness values) at the positions a species lists, in order |
| Populations.Plan | src/population.rs:309-326 | the create_species calls next_generation means to make, per non-empty species with a non-zero count |
| Populations.PlanTotal | src/population.rs:309-326 | with every species non-empty, the planned offspring add up to the sum of the counts |
| Populations.PlanStep | src/population.rs:314-325 | skipping a species, or making its offspring, moves the plan, its total and its lineage on by one species |
| Populations.Population.Reproduce | src/population.rs:308-327 | the new generation is the concatenation, over the plan, of each species' create_species children: genome q is the child of round j for species k, where (k, j) is entry q of `Lineage`, bred (`Bred`) from the pair mate(k, j, top) of the species' first top_members with coin flips pick(k, j); it has exactly as many genomes as the plan makes |
| Populations.Population.SpeciesStep | src/population.rs:310-326 | one species of the loop: skipped when empty or with count 0, otherwise its children are appended; the lineage moves on by that species' rounds |
| Populations.Population.BreedInto | src/population.rs:318-325 | appending a species' create_species children extends the descent by its rounds |
| Populations.Population.SpeciesOffspring | src/population.rs:318-324 | gathers the species' genomes and fitness values; create_species' j-th child is bred from the j-th drawn pair of those genomes |
| Populations.Population.DescendedAppend | src/population.rs:324-325 | `new_gen.extend(adding)` keeps every genome tied to its species, round and parents |
| Populations.Population.DescendedValid | src/population.rs:324-325 | every genome of the new generation is a valid genome |
| Populations.Population.DescentStays | src/population.rs:329-332 | what a generation was bred from is a fact about the genomes alone, so assigning the population's fields keeps it |
| Populations.Lineage | src/population.rs:310-327 | one (species, round) entry per genome the plan makes, in the order the loop appends them |
| Populations.LineageAdvance | src/population.rs:315-325 | a skipped species adds no entry; a bred one adds its rounds 0..count-1 |
| Populations.Population.Generate | src/population.rs:283-327 | the species are sorted at generation 0 and kept otherwise (`SpeciesOf`); the new generation descends from them as `Reproduce` states, with as many genomes as the plan makes |
| Populations.Population.NextGeneration | src/population.rs:283-333 | registries unchanged; the step succeeds iff the plan makes exactly the population's size; on success the population is the new generation, each genome valid and the `Bred` child of its species' drawn pair among the old population (`Descended` over `Lineage` of the plan); it is sorted into species against the old leaders, and the generation count grows by one |
| Populations.Population.Advance | src/population.rs:329-332 | the new generation is sorted into species, replaces the population, and the generation count grows by one; the descent and validity of its genomes carry over |
| Populations.PartitionBounds | src/population.rs:292-297 | the species of a partition only list indices of the population |
| Populations.MatchedAtAgree | src/population.rs:131-153 | reading the second list at its own cursor reads, at every match, v's gene with u's innovation number |
| Populations.ReadPastEnd | src/population.rs:138-143 | reading genome_v at the first cursor (as breed does here and delta does at line 192) goes past the end of v's list at the first match of a two-against-one example |
| Populations.BreedHiddenAsWritten | src/population.rs:125-130 | the ids breed as written makes hidden nodes for lie at or above inputs + outputs |
| Populations.BreedHiddenAsWrittenExtra | src/population.rs:127 | as written, the id inputs + outputs, which Genome::new already made, gets a second, hidden node: one more than un_flatten makes |
| Populations.CountersCollide | src/population.rs:45-46 | the counters as written hand out an id every genome already has and the number connect_ends gave the bias's first connection |
| Populations.CountersFresh | src/population.rs:45-46 | the corrected counters start above every id and number connect_ends used |
| Populations.SpeciesAsWritten | src/population.rs:215-257 | speciate's return value as written: the grouped lists `sp`, every one led by 0, empty ones included |
| Populations.PlanAsWritten | src/population.rs:309-327 | the create_species calls as written, with the count read at the cursor `idx` |
| Populations.ReadAsWritten | src/population.rs:138-143 | at every match, the position breed reads genome_v at as written: the first cursor |
| Populations.InitialCountersAsWritten | src/population.rs:45-46 | the counters Population::new starts with: `inputs * outputs` and `inputs + outputs` |
| Populations.InitialCounters | src/population.rs:45-46 | the corrected start of the counters, just past the innovation numbers and ids connect_ends uses; `CountersFresh` states that |
| Populations.Register | src/population.rs:64-78 | one lookup-or-allocate on a registry as a value; `RegisterStores` and `RegisterIdempotent` state what it returns |
| Populations.SpeciesAsWrittenEmpty | src/population.rs:257 | as written, speciate returns empty species and a leader outside its species |
| Populations.PlanSkipMisreads | src/population.rs:309-326 | as written, a skipped species makes the next one read the wrong count, so fewer offspring are made |
| Scenarios.FullyConnectedRun | src/test.rs:7-18 | sixteen add_edge calls and evaluate on four 1.0 inputs give [4, 4, 4, 4] |
| Scenarios.FullyConnectedScenario | src/test.rs:7-18 | every solution of the fully connected 4-by-4 network gives 4.0 on each output |
| Scenarios.SplitNodeRun | src/test.rs:21-29 | add_edge, split_edge and evaluate give [10.0] |
| Scenarios.SplitScenario | src/test.rs:21-29 | after the split the input 1.0 still arrives as 10.0 |
| Scenarios.SplitOfOneEdge | src/test.rs:23-24 | splitting 0 -> 2 gives the expected three-connection graph |
| Scenarios.SingleEdgeScenario | src/test.rs:32-39 | a single connection of weight 15 carries 1.0 as 15.0 |
| Scenarios.OneEdgeAcyclic | src/test.rs:32-39 | the one-connection network has no cycle, so evaluate reaches its output |
| Scenarios.SingleEdgeRun | src/test.rs:32-39 | Genome::new(1, 1), add_edge(0, 2, 1, 15.0, true) and evaluate on [1.0] give [15.0] |
| Scenarios.DisabledEdgeScenario | src/test.rs:42-54 | disabled, the output keeps 0.0; re-enabled, it is 15.0 |
| Scenarios.DisabledEdgeRun | src/test.rs:42-54 | on the genome: add_edge, disable_edge(0, 2) and evaluate give [0.0]; enable_edge(0, 2) and evaluate again give [15.0] |
| Scenarios.ExtraRandomRun | src/test.rs:57-62 | connect_ends on 5-by-5 makes 30 connections, and random_edge leaves the count at 30 |
| Scenarios.FlattenSizeRun | src/test.rs:75-80 | a connected 10-by-10 genome flattens to 110 records |

## Left out

- `src/helper.rs`, `src/activation.rs`, `src/constants.rs`: random number wrappers, `pertube`, the float activation functions and tuning constants. Draws and the activation are parameters.
- `src/main.rs` (the XOR driver and its error metric) and `Genome::network_info`: I/O and driver code.
- `Population::evaluate_all`: it calls an external metric on float outputs.
- `Genome::permute_weights` and `Genome::new_weights`: they only redraw weights with float noise.
- `Population::initialize_inno`: nothing in the core calls it.
- `Node::evaluate`: it is the activation parameter `act`.
- The fields `active_edges` and `inactive_edges` of `Node`, `hidden_nodes` of `Genome` and `act` of all three structures: the source never updates them after construction.
- Float arithmetic:
  - `delta`'s weight-difference sum and final ratio (which divides by `matching`, possibly zero);
  - the fitness sharing, the sums and the `round()` of `next_generation`;
  - `create_species`' unused `best_ones` list.
  The count of each species is the parameter `offspring`, and the `0.2` test is the parameter `close`.
- `i32` overflow: counters, ids and innovation numbers are unbounded integers.
- `Rc<RefCell>` sharing: a connection's target is an index, so the model does not capture aliasing between nodes.
- `println!` calls inside `next_generation`.
- Populations.Population.NextGeneration: the source panics on `assert_eq!(new_gen.len(), self.population.len())`. The model returns false there instead, with the population and generation count unchanged.
- Populations.Population.NextGeneration: the offspring counts are read per species, as the corrected plan reads them, not at the cursor the source uses (`PlanAsWritten` and `PlanSkipMisreads` are the code as written). Populations.Population.Reproduce and Populations.Population.Generate read them the same way.
- Populations.Population.Generate: it does not call the per-genome bookkeeping (`AssignSpecies`). Its sizes and mapping feed only the float fitness sharing, which the parameter `offspring` stands for.
- Populations.Population.NextGeneration: it does not prove that the new generation is again pairwise breedable (`AllBreedable`), so a later call must establish that anew.
- Populations.Population.constructor: it starts the counters at `InitialCounters`, the corrected values. As written (`InitialCountersAsWritten`), the first split of every genome asks for the last output's global id, so split_edge is a no-op there, and the first new innovation number repeats the bias's first connection's (`CountersCollide`).
- Populations.Population.Speciate: it returns the non-empty species with their drawn leaders, the corrected value. As written (`SpeciesAsWritten`), previous_gen keeps empty species and every species is led by 0 (`SpeciesAsWrittenEmpty`).
- Populations.Offspring: it makes hidden nodes for global ids at or above inputs + outputs + 1, the corrected threshold. As written (`BreedHiddenAsWritten`), every child gets a second node carrying the last output's global id (`BreedHiddenAsWrittenExtra`).
- Genomes.Genome.Evaluate: on a network with an active cycle only the length of the output is stated. The queue loop then leaves some nodes unprocessed, and no equation describes their values.
- Genomes.Genome.Clone: it requires the records to fit: no record joins an id to itself, and no more ids below the first hidden one occur than there are such nodes. Otherwise the source indexes past its node vector. The same-records promise holds only when every input, bias and output id occurs in some record. Otherwise un_flatten's dense relabelling shifts ids, and the model says only that the copy is valid.
- Genomes.UnFlatten: the same requirement on the records as Clone, for the same reason.
- Populations.Population.Breed: it requires both parents to be valid and u's records to fit (as for Clone). It also requires genes with one innovation number to join the same ends in both parents. That is what the source's `assert_eq!` on `from`/`to` checks, once read at the right cursor. It reads v's gene at the second cursor, the corrected read (`ReadAsWritten` and `ReadPastEnd` are the code as written), and its child is made by `Offspring` with the corrected hidden-node threshold.
- Populations.Population.CreateSpecies, Populations.Population.Reproduce, Populations.Population.Generate and Populations.Population.NextGeneration: they require any two genomes of the population to be breedable, which is Breed's requirement applied to every pair the draws may pick.
- Populations.Population.Mutate: the partner `split_edge` number `inno + 1` is modelled as written. SplitInnosConsecutive and SplitInnosApart state when it agrees with the registry's number for (n, vG) and when it does not.

## Findings

| source | as written | input that shows it | evidently intended | confidence | as-written member | corrected member |
|---|---|---|---|---|---|---|
| src/population.rs:138-139, 143, 192 | at a match, `breed` and `delta` read `genome_v[i]`, the second list at the first list's cursor | u with innovation numbers 0 and 2, v with 2 alone: the match is met at i = 1, j = 0, and `genome_v[1]` is past the end of v | read `genome_v[j]` | not executed | Populations.ReadPastEnd | Populations.MatchedAtAgree, Populations.Merge |
| src/population.rs:127 | `breed` makes a hidden node for every id `>= inputs + outputs` | inputs = outputs = 1 and a record mentioning id 2 (the output node): breed adds a second node with global id 2 | `>= inputs + outputs + 1`, as `un_flatten` (src/genome.rs:63) | not executed | Populations.BreedHiddenAsWrittenExtra | Populations.Offspring |
| src/population.rs:45-46 | the counters start at `inputs * outputs` and `inputs + outputs` | any genome after `connect_ends`: the first split id is the last output's id, so `split_edge` does nothing; the first new innovation number is the bias's first connection's | start at `(inputs + 1) * outputs` and `inputs + outputs + 1` | not executed | Populations.CountersCollide | Populations.CountersFresh, Populations.Population.constructor |
| src/population.rs:309-326 | `species_fitness[idx]` is read at a cursor that moves on only past species that are not skipped | two species of one genome each, counts 0 and 2: the second species reads the first one's count 0, so no offspring are made | read species k's own count | not executed | Populations.PlanSkipMisreads | Populations.PlanTotal, Populations.Population.Reproduce |
| src/population.rs:257 | `speciate` returns `sp`, with empty species and every leader 0 | one previous species and two genomes close to nothing: species [], [0] and [1], the last led by 0 | return `new_species` with the drawn leaders | not executed | Populations.SpeciesAsWrittenEmpty | Populations.SpeciationPartition, Populations.Population.Speciate |
