/** The benchmark driver (core/Benchmark.js): the baseline TP/FN split of
    every ground-truth community, the seed labellings built step by step for
    the seeded algorithms, and the sweep over the benchmark parameters.

    The community-detection engine, the NMI comparison and the BFS that grows
    connected seeds are outside the repository; they are constant function
    parameters of the benchmark. `Math.random` is a stream of reals in
    [0, 1) read from the position `drawn`. */
module Benchmarks {
  import opened Wrappers
  import opened Sequences
  import opened Communities
  import opened Graphs
  import opened Sampling
  import opened Seeding

  // ---------------------------------------------------------------------
  // core/constants.js

  const RANDOM_STRUCTURE := "RANDOM"
  const CONNECTED_STRUCTURE := "CONNECTED"
  const SEED_SIZES: seq<int> := [5, 10, 25, 50]
  const COMPOSITION_RATIOS: seq<int> := [0, 25, 50, 75, 100]
  const SEED_STRUCTURES: seq<string> := [RANDOM_STRUCTURE, CONNECTED_STRUCTURE]
  const BASELINE_ALGORITHMS: seq<string> := ["fastGreedy", "louvain", "edgeBetweenness"]
  const MODIFIED_ALGORITHMS: seq<string> := ["fastGreedySeed", "louvainSeed", "edgeBetweennessSeed"]
  const COUNTERPARTS: map<string, string> :=
    map["fastGreedySeed" := "fastGreedy", "louvainSeed" := "louvain", "edgeBetweennessSeed" := "edgeBetweenness"]

  // ---------------------------------------------------------------------
  // getMaxValue

  /** An integer or `-Infinity`. */
  datatype Extended = NegInf | Finite(value: int)

  /** `x + 1`; `-Infinity` absorbs it. */
  function Succ(x: Extended): Extended {
    if x.NegInf? then NegInf else Finite(x.value + 1)
  }

  /** `getMaxValue(arr)`: the largest element, `-Infinity` for an empty
      array. */
  method GetMaxValue(arr: seq<int>) returns (m: Extended)
    ensures m.NegInf? <==> arr == []
    ensures m.Finite? ==> m.value in arr && forall x :: x in arr ==> x <= m.value
  {
    m := NegInf;
    for i := 0 to |arr|
      invariant m.NegInf? <==> i == 0
      invariant m.Finite? ==> m.value in arr[..i] && forall j :: 0 <= j < i ==> arr[j] <= m.value
    {
      var current := arr[i];
      if m.NegInf? || current > m.value {
        m := Finite(current);
      }
    }
    assert arr[..|arr|] == arr;
  }

  // ---------------------------------------------------------------------
  // calculateBaseline

  /** The position of the first largest entry: the scan keeps its current
      best unless a later entry is strictly larger. */
  function FirstMax(sizes: seq<int>): (k: nat)
    requires |sizes| > 0
    ensures k < |sizes|
    ensures forall j :: 0 <= j < |sizes| ==> sizes[j] <= sizes[k]
    ensures forall j :: 0 <= j < k ==> sizes[j] < sizes[k]
  {
    if |sizes| == 1 then 0
    else
      var k := FirstMax(sizes[..|sizes| - 1]);
      if sizes[|sizes| - 1] > sizes[k] then |sizes| - 1 else k
  }

  ghost function NodeSets(cs: seq<Community>): (sets: seq<set<int>>)
    reads set k | 0 <= k < |cs| :: cs[k]
    ensures |sets| == |cs| && forall k :: 0 <= k < |cs| ==> sets[k] == Elements(cs[k].nodes)
  {
    seq(|cs|, k reads set k | 0 <= k < |cs| :: cs[k] requires 0 <= k < |cs| => Elements(cs[k].nodes))
  }

  /** The node counts of the communities, in order. */
  ghost function SizesOf(cs: seq<Community>): (sizes: seq<int>)
    reads set k | 0 <= k < |cs| :: cs[k]
    ensures |sizes| == |cs| && forall k :: 0 <= k < |cs| ==> sizes[k] == |cs[k].nodes|
  {
    seq(|cs|, k reads set k | 0 <= k < |cs| :: cs[k] requires 0 <= k < |cs| => |cs[k].nodes|)
  }

  function Overlaps(gt: set<int>, sets: seq<set<int>>): (sizes: seq<int>)
    ensures |sizes| == |sets| && forall k :: 0 <= k < |sets| ==> sizes[k] == |gt * sets[k]|
  {
    seq(|sets|, k requires 0 <= k < |sets| => |gt * sets[k]|)
  }

  /** The TP and FN node lists kept for a ground-truth community. */
  datatype TpFn = TpFn(tp: seq<int>, fn: seq<int>)

  /** The scan for the detected community that shares the most nodes with
      a ground-truth community: each candidate is intersected with it and
      replaces the current best only when the overlap is strictly larger. */
  method LargestOverlap(gt: Community, communities: seq<Community>) returns (tp: Community?, ghost best: nat)
    ensures tp == null <==> |communities| == 0
    ensures tp != null ==>
              NoDuplicates(tp.nodes) &&
              best == FirstMax(Overlaps(Elements(gt.nodes), NodeSets(communities))) &&
              Elements(tp.nodes) == Elements(gt.nodes) * Elements(communities[best].nodes)
  {
    ghost var sizes := Overlaps(Elements(gt.nodes), NodeSets(communities));
    tp := null;
    best := 0;
    for i := 0 to |communities|
      invariant ScanUpTo(gt, communities, sizes, tp, best, i)
    {
      tp, best := ScanNext(gt, communities, sizes, tp, best, i);
    }
    assert sizes[..|communities|] == sizes;
  }

  /** After the first `i` candidates, `tp` is the overlap with the first
      of them of largest overlap, `best`. */
  ghost predicate ScanUpTo(gt: Community, communities: seq<Community>, sizes: seq<int>, tp: Community?, best: nat,
                           i: nat)
    reads gt, tp, set k | 0 <= k < |communities| :: communities[k]
  {
    i <= |sizes| == |communities| && (tp == null <==> i == 0) &&
    (tp != null ==>
       best < i && best == FirstMax(sizes[..i]) &&
       NoDuplicates(tp.nodes) && tp.Size() == sizes[best] &&
       Elements(tp.nodes) == Elements(gt.nodes) * Elements(communities[best].nodes))
  }

  /** One pass of the scan: the candidate replaces the best only on a
      strictly larger overlap. */
  method ScanNext(gt: Community, communities: seq<Community>, ghost sizes: seq<int>, tp: Community?, ghost best: nat,
                  i: nat)
    returns (tp': Community, ghost best': nat)
    requires i < |communities| && sizes == Overlaps(Elements(gt.nodes), NodeSets(communities))
    requires ScanUpTo(gt, communities, sizes, tp, best, i)
    ensures ScanUpTo(gt, communities, sizes, tp', best', i + 1)
  {
    var current: Community;
    ghost var walked: seq<int>;
    current, walked := gt.Intersect(communities[i]);
    DistinctCardinality(current.nodes);
    tp', best' := current, i;
    if tp == null {
      assert sizes[..1] == [sizes[0]];
    } else {
      FirstMaxSnoc(sizes, i);
      if current.Size() <= tp.Size() {
        tp', best' := tp, best;
      }
    }
  }

  /** One step of the scan: the first maximum of a longer prefix is the new
      entry exactly when it beats the previous first maximum. */
  lemma FirstMaxSnoc(sizes: seq<int>, i: nat)
    requires 0 < i < |sizes|
    ensures FirstMax(sizes[..i + 1]) ==
              if sizes[i] > sizes[FirstMax(sizes[..i])] then i else FirstMax(sizes[..i])
  {
    assert sizes[..i + 1][..i] == sizes[..i];
  }

  /** The inner loop of `calculateBaseline` for one ground-truth community:
      TP is its intersection with the first detected community of largest
      overlap and FN is the rest of it. With no detected community `tp`
      stays `null` and `gt.subtract(null)` throws. */
  method MaxTpSplit(gt: Community, communities: seq<Community>) returns (r: Result<TpFn>)
    ensures r.Success? <==> |communities| > 0
    ensures r.Failure? ==> r.error.TypeError?
    ensures r.Success? ==>
              var best := FirstMax(Overlaps(Elements(gt.nodes), NodeSets(communities)));
              Elements(r.value.tp) == Elements(gt.nodes) * Elements(communities[best].nodes) &&
              Elements(r.value.fn) == Elements(gt.nodes) - Elements(r.value.tp)
    ensures r.Success? ==> NoDuplicates(r.value.tp) && NoDuplicates(r.value.fn)
  {
    var tp: Community?;
    ghost var best: nat;
    tp, best := LargestOverlap(gt, communities);
    if tp == null {
      return Failure(TypeError("Cannot read properties of null (reading 'nodes')"));
    }
    var fn := gt.Subtract(tp);
    return Success(TpFn(tp.nodes, fn.nodes));
  }

  // ---------------------------------------------------------------------
  // Seed labellings

  /** Every seed label of `labels` names a ground-truth community (by its
      position) that holds the node. */
  ghost predicate Consistent(labels: seq<int>, groups: seq<set<int>>) {
    forall v :: 0 <= v < |labels| && labels[v] != -1 ==> 0 <= labels[v] < |groups| && v in groups[labels[v]]
  }

  ghost predicate PairwiseDisjoint(groups: seq<set<int>>) {
    forall k, k' :: 0 <= k < |groups| && 0 <= k' < |groups| && k != k' ==> groups[k] !! groups[k']
  }

  /** Every label `after` changes is set to the id that `id` holds. */
  ghost predicate RelabelledTo(before: seq<int>, after: seq<int>, id: Option<int>) {
    |after| == |before| &&
    forall v :: 0 <= v < |before| && after[v] != before[v] ==> id.Some? && after[v] == id.value
  }

  /** Every label `after` changes is set to one of `ids`. */
  ghost predicate RelabelledAmong(before: seq<int>, after: seq<int>, ids: seq<Option<int>>) {
    |after| == |before| &&
    forall v :: 0 <= v < |before| && after[v] != before[v] ==> Some(after[v]) in ids
  }

  /** Every node whose label `after` changes was not yet in community `id`
      and lies in its TP/FN split. */
  ghost predicate DrawnFromSplit(before: seq<int>, after: seq<int>, id: int, split: TpFn) {
    |after| == |before| &&
    forall v :: 0 <= v < |before| && after[v] != before[v] ==> before[v] != id && (v in split.tp || v in split.fn)
  }

  /** A pass for `ids[i]` extends what the passes for `ids[..i]` changed. */
  lemma RelabelledAmongStep(start: seq<int>, before: seq<int>, after: seq<int>, ids: seq<Option<int>>, i: nat)
    requires i < |ids| && RelabelledAmong(start, before, ids[..i]) && RelabelledTo(before, after, ids[i])
    ensures RelabelledAmong(start, after, ids[..i + 1])
  {
    assert ids[..i + 1] == ids[..i] + [ids[i]];
    forall v | 0 <= v < |start| && after[v] != start[v] ensures Some(after[v]) in ids[..i + 1] {
      if after[v] != before[v] {
        assert Some(after[v]) == ids[i];
      }
    }
  }

  /** No seed label of `before` is changed in `after`. */
  ghost predicate Preserved(before: seq<int>, after: seq<int>) {
    |before| == |after| && forall v :: 0 <= v < |before| && before[v] != -1 ==> after[v] == before[v]
  }

  lemma PreservedTransitive(a: seq<int>, b: seq<int>, c: seq<int>)
    requires Preserved(a, b) && Preserved(b, c)
    ensures Preserved(a, c)
  {
  }

  /** Labelling nodes of ground-truth community `id` with `id` keeps a
      consistent labelling consistent and removes no earlier seed label:
      a node already carrying a seed label lies in that label's community,
      which is disjoint from community `id` unless the label is `id`. */
  lemma LabellingKeepsSeeds(before: seq<int>, after: seq<int>, groups: seq<set<int>>, id: int)
    requires Consistent(before, groups) && PairwiseDisjoint(groups) && 0 <= id < |groups|
    requires |after| == |before|
    requires forall v :: 0 <= v < |after| && after[v] != before[v] ==> after[v] == id && v in groups[id]
    ensures Consistent(after, groups)
    ensures Preserved(before, after)
  {
    forall v | 0 <= v < |before| && before[v] != -1
      ensures after[v] == before[v]
    {
      if after[v] != before[v] {
        assert false;
      }
    }
  }

  /** The seed ids met in the first `k` labels, each once, in order of first
      appearance (`-1` marks an unseeded node). */
  function SeedIdsUpTo(labels: seq<int>, k: nat): (ids: seq<int>)
    requires k <= |labels|
    ensures NoDuplicates(ids)
    ensures forall id :: id in ids <==> id != -1 && id in labels[..k]
  {
    if k == 0 then []
    else
      var ids := SeedIdsUpTo(labels, k - 1);
      var id := labels[k - 1];
      assert labels[..k] == labels[..k - 1] + [id];
      if id != -1 && id !in ids then ids + [id] else ids
  }

  /** The first loop of `seedMembershipFactory`: the seed ids already in
      use, as the Set `alreadyPickedSeedCommunitiesIds` iterates them. */
  method SeedIdsInUse(labels: seq<int>) returns (ids: seq<int>)
    ensures ids == SeedIdsUpTo(labels, |labels|)
  {
    ids := [];
    for nodeId := 0 to |labels|
      invariant ids == SeedIdsUpTo(labels, nodeId)
    {
      var seedCommunityId := labels[nodeId];
      if seedCommunityId != -1 && seedCommunityId !in ids {
        ids := ids + [seedCommunityId];
      }
    }
  }

  /** The nodes carrying label `id`, collected by `addNode` into a new
      community in index order. */
  method PickedNodes(labels: seq<int>, id: int) returns (picked: Community)
    ensures fresh(picked)
    ensures Elements(picked.nodes) == Members(labels, id) && NoDuplicates(picked.nodes)
  {
    picked := new Community([]);
    for nodeId := 0 to |labels|
      invariant Elements(picked.nodes) == Members(labels[..nodeId], id) && NoDuplicates(picked.nodes)
    {
      ghost var before := picked.nodes;
      assert forall v :: v in Members(labels[..nodeId + 1], id) <==>
                         v in Members(labels[..nodeId], id) || (v == nodeId && labels[nodeId] == id);
      if labels[nodeId] == id {
        picked.AddNode(nodeId);
      }
      assert forall v :: v in Elements(picked.nodes) <==> v in Elements(before) || (v == nodeId && labels[nodeId] == id);
    }
    assert labels[..|labels|] == labels;
  }

  /** `for (let idx of vertices) seedMembership[idx] = id`: every node the
      list holds gets label `id`; a hole (`undefined`) and an id outside the
      labelling touch no node. */
  method LabelNodes(seedMembership: array<int>, vertices: seq<Option<int>>, id: int)
    modifies seedMembership
    ensures seedMembership[..] == Relabel(old(seedMembership[..]), vertices, id)
  {
    for i := 0 to |vertices|
      invariant forall v :: 0 <= v < seedMembership.Length ==>
                  seedMembership[v] == if Some(v) in vertices[..i] then id else old(seedMembership[v])
    {
      assert vertices[..i + 1] == vertices[..i] + [vertices[i]];
      var idx := vertices[i];
      if idx.Some? && 0 <= idx.value < seedMembership.Length {
        seedMembership[idx.value] := id;
      }
    }
    assert vertices[..|vertices|] == vertices;
  }

  /** A labelling after `for (let idx of picks) labels[idx] = id`. */
  function Relabel(labels: seq<int>, picks: seq<Option<int>>, id: int): (after: seq<int>)
    ensures |after| == |labels|
  {
    seq(|labels|, v requires 0 <= v < |labels| => if Some(v) in picks then id else labels[v])
  }

  /** Relabelling adds exactly the listed nodes to community `id`. */
  lemma RelabelMembers(labels: seq<int>, picks: seq<Option<int>>, id: int)
    requires forall v :: v in Present(picks) ==> 0 <= v < |labels|
    ensures Members(Relabel(labels, picks, id), id) == Members(labels, id) + Present(picks)
  {
    var after := Relabel(labels, picks, id);
    forall v | v in Members(after, id) ensures v in Members(labels, id) + Present(picks) {
      if Some(v) !in picks {
        assert after[v] == labels[v];
      }
    }
    forall v | v in Members(labels, id) + Present(picks) ensures v in Members(after, id) {
      assert after[v] == id;
    }
  }

  /** A node labelled `other` keeps that label when no seed label is
      overwritten and every changed label is a different id. */
  lemma OthersKept(before: seq<int>, after: seq<int>, id: int, other: int)
    requires Preserved(before, after) && other != id && other != -1
    requires forall v :: 0 <= v < |after| && after[v] != before[v] ==> after[v] == id
    ensures Members(after, other) == Members(before, other)
  {
    forall v | v in Members(after, other) ensures v in Members(before, other) {
      if after[v] != before[v] {
        assert false;
      }
    }
  }

  /** No ground-truth community is chosen twice. */
  ghost predicate DistinctIds(ids: seq<Option<int>>) {
    forall i, j :: 0 <= i < j < |ids| && ids[i].Some? ==> ids[i] != ids[j]
  }

  /** Every node of every group is a node of a labelling of length `n`. */
  ghost predicate Inside(groups: seq<set<int>>, n: int) {
    forall k, v :: 0 <= k < |groups| && v in groups[k] ==> 0 <= v < n
  }

  /** When the graph's labelling has one label per node, every node of every
      ground-truth community is a node of the graph. */
  lemma GroundTruthInside(graph: Graph)
    requires graph.Valid() && |graph.data.membership| == graph.data.n
    ensures Inside(NodeSets(graph.groundTruthCommunities), graph.data.n)
  {
    GroundTruthDisjoint(graph.groundTruthCommunities, graph.data.membership);
  }

  /** The split of community `id` is a partition of nodes of `labels` that
      holds every node `labels` already gives to `id`. */
  ghost predicate SplitFits(labels: seq<int>, id: int, split: TpFn) {
    Elements(split.tp) !! Elements(split.fn) &&
    Members(labels, id) <= Elements(split.tp) + Elements(split.fn) &&
    forall v :: v in Elements(split.tp) + Elements(split.fn) ==> 0 <= v < |labels|
  }

  /** The draws `Math.floor(Math.random() * len)` of one `getRandomItems`
      call, reading the stream from position `position`; `len` shrinks by
      one per draw. */
  function Draws(random: nat -> real, position: nat, len: nat, count: nat): (draws: seq<int>)
    requires count <= len
    ensures |draws| == count
  {
    seq(count, k requires 0 <= k < count => (random(position + k) * ((len - k) as real)).Floor)
  }

  /** A real in [0, 1) scaled by a positive length and floored lies in
      [0, len). */
  lemma ScaledDraw(u: real, len: nat)
    requires 0.0 <= u < 1.0 && len > 0
    ensures 0 <= (u * (len as real)).Floor < len
  {
    assert u * (len as real) < len as real;
  }

  lemma DrawsValid(random: nat -> real, position: nat, len: nat, count: nat)
    requires count <= len
    requires forall j :: 0.0 <= random(j) < 1.0
    ensures ValidDraws(Draws(random, position, len, count), len)
  {
    forall k | 0 <= k < count ensures 0 <= Draws(random, position, len, count)[k] < len - k {
      ScaledDraw(random(position + k), len - k);
    }
  }

  /** `tp ⊆ gt` and `fn = gt \ tp`: the split covers the ground-truth
      community and its halves are disjoint. */
  ghost predicate IsSplit(gt: set<int>, communities: seq<set<int>>, split: TpFn) {
    |communities| > 0 &&
    Elements(split.tp) == gt * communities[FirstMax(Overlaps(gt, communities))] &&
    Elements(split.fn) == gt - Elements(split.tp) &&
    NoDuplicates(split.tp) && NoDuplicates(split.fn)
  }

  lemma SplitPartitions(gt: set<int>, communities: seq<set<int>>, split: TpFn)
    requires IsSplit(gt, communities, split)
    ensures Elements(split.tp) + Elements(split.fn) == gt
    ensures Elements(split.tp) !! Elements(split.fn)
    ensures forall c :: c in communities ==> |gt * c| <= |Elements(split.tp)|
  {
    var sizes := Overlaps(gt, communities);
    var best := FirstMax(sizes);
    forall c | c in communities ensures |gt * c| <= |Elements(split.tp)| {
      var k :| 0 <= k < |communities| && communities[k] == c;
      assert sizes[k] <= sizes[best];
    }
  }

  /** The node sets of a list of node lists. */
  function Sets(lists: seq<seq<int>>): (sets: seq<set<int>>)
    ensures |sets| == |lists| && forall k :: 0 <= k < |lists| ==> sets[k] == Elements(lists[k])
  {
    seq(|lists|, k requires 0 <= k < |lists| => Elements(lists[k]))
  }

  /** The TP/FN table of one baseline run, one entry per ground-truth
      community, keyed by the community's position. */
  method TpTable(gts: seq<Community>, communities: seq<Community>) returns (r: Result<seq<TpFn>>)
    ensures r.Success? <==> |communities| > 0 || |gts| == 0
    ensures r.Failure? ==> r.error.TypeError?
    ensures r.Success? ==>
              |r.value| == |gts| &&
              forall k :: 0 <= k < |gts| ==> IsSplit(NodeSets(gts)[k], NodeSets(communities), r.value[k])
  {
    ghost var gtSets, sets := NodeSets(gts), NodeSets(communities);
    var table: seq<TpFn> := [];
    for k := 0 to |gts|
      invariant |table| == k && (k > 0 ==> |communities| > 0)
      invariant NodeSets(gts) == gtSets && NodeSets(communities) == sets
      invariant forall j :: 0 <= j < k ==> IsSplit(gtSets[j], sets, table[j])
    {
      var split := MaxTpSplit(gts[k], communities);
      if split.Failure? {
        return Failure(split.error);
      }
      assert gtSets[k] == Elements(gts[k].nodes);
      SplitsStep(gtSets, sets, table, split.value);
      table := table + [split.value];
    }
    return Success(table);
  }

  lemma SplitsStep(gtSets: seq<set<int>>, sets: seq<set<int>>, table: seq<TpFn>, split: TpFn)
    requires |table| < |gtSets|
    requires forall j :: 0 <= j < |table| ==> IsSplit(gtSets[j], sets, table[j])
    requires IsSplit(gtSets[|table|], sets, split)
    ensures forall j :: 0 <= j < |table| + 1 ==> IsSplit(gtSets[j], sets, (table + [split])[j])
  {
  }

  /** The TP/FN table as core/Benchmark.js:64 writes it: the key is
      `gt.id`, which no ground-truth community has, so every split is stored
      under the key `"undefined"` and each overwrites the one before. */
  function TpTableAsWritten(splits: seq<TpFn>): (table: map<string, TpFn>)
    ensures table.Keys == if splits == [] then {} else {"undefined"}
    ensures splits != [] ==> table["undefined"] == splits[|splits| - 1]
  {
    if splits == [] then map[] else TpTableAsWritten(splits[..|splits| - 1])["undefined" := splits[|splits| - 1]]
  }

  /** `maxTpCommunities[gt.id]` as core/Benchmark.js:238 reads it: the same
      key for every ground-truth community; destructuring a missing entry
      throws. */
  function TpLookupAsWritten(table: map<string, TpFn>): (r: Result<TpFn>)
    ensures r.Success? <==> "undefined" in table
    ensures r.Success? ==> r.value == table["undefined"]
    ensures r.Failure? ==> r.error.TypeError?
  {
    if "undefined" in table then Success(table["undefined"])
    else Failure(TypeError("Cannot destructure property 'tp' of undefined"))
  }

  /** With two ground-truth communities, each found exactly by the
      detection, the table as written hands the first community the split
      of the second: its "TP" nodes are not even members of it. */
  lemma TpTableAsWrittenMixesCommunities()
    ensures var groups := [{0, 1}, {2, 3}];
            var split := TpLookupAsWritten(TpTableAsWritten([TpFn([0, 1], []), TpFn([2, 3], [])]));
            split.Success? && !(Elements(split.value.tp) <= groups[0]) &&
            !IsSplit(groups[0], groups, split.value)
  {
    var split := TpLookupAsWritten(TpTableAsWritten([TpFn([0, 1], []), TpFn([2, 3], [])]));
    assert split.value.tp == [2, 3];
    assert 2 in Elements(split.value.tp);
  }

  /** A subset of a duplicate-free list's elements, listed without
      duplicates, is no longer than the list. */
  lemma SubsetSize(a: seq<int>, b: seq<int>)
    requires NoDuplicates(a) && NoDuplicates(b) && Elements(a) <= Elements(b)
    ensures |a| <= |b|
  {
    DistinctCardinality(a);
    DistinctCardinality(b);
    var A, B := Elements(a), Elements(b);
    assert B == A + (B - A);
    assert A * (B - A) == {};
  }

  // ---------------------------------------------------------------------
  // The benchmark

  /** A partition returned by the detection engine. */
  datatype Detection = Detection(modularity: real, membership: seq<int>)

  /** What the BFS growing a connected seed returns: the selected nodes (a
      Set, given in iteration order) and the queue to resume from. */
  datatype Selection = Selection(selected: seq<int>, queue: seq<int>)

  /** `this.baseline[graph][algorithm]`; the detected communities are kept
      as their node lists. */
  datatype BaselineEntry = BaselineEntry(
    membership: seq<int>,
    modularity: real,
    communities: seq<seq<int>>,
    maxTpCommunities: seq<TpFn>,
    communitiesCount: nat,
    nmi: real)

  datatype FlatBaseline = FlatBaseline(
    id: nat,
    graph: string,
    algorithm: string,
    membership: seq<int>,
    modularity: real,
    nmi: real,
    communitiesCount: nat)

  /** The path `graph / seedCount / structure / ratio / size / algorithm`
      of `this.result`. */
  datatype ResultKey = ResultKey(
    graph: string,
    seedCount: int,
    structure: string,
    ratio: int,
    size: int,
    algorithm: string)

  datatype SeedRecord = SeedRecord(seedMembership: seq<int>, queueBFS: Option<seq<int>>)

  datatype Parameters = Parameters(
    seedCount: int,
    seedSize: int,
    compositionRatio: int,
    seedStructure: string,
    prevSeedSize: Option<int>)

  /** What one seed community contributes to the factory's lists. */
  datatype Step = Step(declared: int, realSize: int, ratio: real, queue: Option<seq<int>>)

  datatype SeedOutcome = SeedOutcome(
    seedMembership: seq<int>,
    declaredSeedCommunitySizes: seq<int>,
    realSeedCommunitySizes: seq<int>,
    realSeedCommunityCompositionRatio: seq<real>,
    queueBFS: Option<seq<int>>)

  datatype FlatResult = FlatResult(
    id: nat,
    graph: string,
    algorithm: string,
    seedCountParam: int,
    seedSizeParam: real,
    compositionRatioParam: real,
    seedStructureParam: string,
    seedMembership: seq<int>,
    membership: seq<int>,
    modularity: real,
    nmi: real,
    communitiesCount: Extended,
    declaredSeedCommunitySizes: seq<int>,
    realSeedCommunitySizes: seq<int>,
    realSeedCommunityCompositionRatio: seq<real>)

  /** The baseline algorithm a seeded one is compared with; a name outside
      the table reads as the key `"undefined"`. */
  function Counterpart(algorithmName: string): string {
    if algorithmName in COUNTERPARTS then COUNTERPARTS[algorithmName] else "undefined"
  }

  /** Whether `key` agrees with `prefix` on its first `depth` fields. */
  predicate UnderPrefix(key: ResultKey, prefix: ResultKey, depth: nat) {
    key.graph == prefix.graph &&
    (depth >= 2 ==> key.seedCount == prefix.seedCount) &&
    (depth >= 3 ==> key.structure == prefix.structure) &&
    (depth >= 4 ==> key.ratio == prefix.ratio) &&
    (depth >= 5 ==> key.size == prefix.size)
  }

  /** Assigning `{}` at a level of `this.result` drops every entry below it. */
  function Reset(result: map<ResultKey, SeedRecord>, prefix: ResultKey, depth: nat): (r: map<ResultKey, SeedRecord>)
    ensures forall key :: key in r <==> key in result && !UnderPrefix(key, prefix, depth)
    ensures forall key :: key in r ==> r[key] == result[key]
  {
    map key | key in result && !UnderPrefix(key, prefix, depth) :: result[key]
  }

  function Names(graphs: seq<GraphData>): (names: set<string>)
    ensures forall name :: name in names <==> exists k :: 0 <= k < |graphs| && graphs[k].name == name
  {
    set k | 0 <= k < |graphs| :: graphs[k].name
  }

  function CommunityCounts(graphs: seq<GraphData>): (counts: seq<nat>)
    ensures |counts| == |graphs| && forall k :: 0 <= k < |graphs| ==> counts[k] == graphs[k].communities
  {
    seq(|graphs|, k requires 0 <= k < |graphs| => graphs[k].communities)
  }

  /** The shape of `PARAMETERS_STUB`: the seed count (not a list), then the
      seed sizes, the composition ratios and the seed structures. */
  const PARAMETERS_STUB_SHAPE: seq<StubEntry> :=
    [NotAList, Options(|SEED_SIZES|), Options(|COMPOSITION_RATIOS|), Options(|SEED_STRUCTURES|)]

  /** The number of steps of the progress bar. */
  function Steps(graphs: seq<GraphData>): nat {
    TotalSteps(CommunityCounts(graphs), StubProduct(PARAMETERS_STUB_SHAPE) * |MODIFIED_ALGORITHMS|)
  }

  /** 4 seed sizes, 5 ratios, 2 structures and 3 algorithms: 120 runs for
      every ground-truth community of every graph. */
  lemma StepsClosedForm(graphs: seq<GraphData>)
    ensures Steps(graphs) == 120 * Sum(CommunityCounts(graphs))
  {
    StubProductOfBenchmark(4, 5, 2);
    TotalStepsIsProduct(CommunityCounts(graphs), 120);
  }

  /** A baseline run as `calculateBaseline` records it: the detected
      partition, its communities (the groups of its labelling, in the order
      the grouping returns them) and the TP/FN split of every ground-truth
      community against them. */
  ghost predicate BaselineOf(gts: seq<set<int>>, detection: Detection, nmi: real, entry: BaselineEntry) {
    entry.membership == detection.membership && entry.modularity == detection.modularity && entry.nmi == nmi &&
    |entry.communities| == |GroupLabels(detection.membership)| &&
    (forall k :: 0 <= k < |entry.communities| ==>
       Elements(entry.communities[k]) == Members(detection.membership, GroupLabels(detection.membership)[k])) &&
    entry.communitiesCount == |entry.communities| &&
    |entry.maxTpCommunities| == |gts| &&
    forall k :: 0 <= k < |gts| ==> IsSplit(gts[k], Sets(entry.communities), entry.maxTpCommunities[k])
  }

  /** The node lists of some communities, read one by one. */
  method NodeLists(communities: seq<Community>) returns (lists: seq<seq<int>>)
    ensures |lists| == |communities| && forall k :: 0 <= k < |communities| ==> lists[k] == communities[k].nodes
  {
    lists := [];
    for k := 0 to |communities|
      invariant |lists| == k && forall j :: 0 <= j < k ==> lists[j] == communities[j].nodes
    {
      lists := lists + [communities[k].nodes];
    }
  }

  /** The quantities `seedMembershipFactory` derives for one seed community
      before it picks nodes. */
  datatype Prepared = Prepared(
    declared: int,
    tpNodes: seq<int>,
    fnNodes: seq<int>,
    currentSelected: seq<int>,
    alreadyTp: int,
    remainingTp: seq<int>,
    remainingFn: seq<int>,
    quota: Quota)

  /** `pr` holds what steps 1 to 5 derive for community `id` from `labels`,
      its TP/FN split and the composition ratio: the nodes already picked,
      how many of them are TP nodes, what is left of each pool (as Sets) and
      the new quotas. */
  ghost predicate PreparedFrom(pr: Prepared, labels: seq<int>, id: int, split: TpFn, ratio: int) {
    var already := Members(labels, id);
    Elements(pr.tpNodes) == Elements(split.tp) && Elements(pr.fnNodes) == Elements(split.fn) &&
    Elements(pr.currentSelected) == already && |pr.currentSelected| == |already| &&
    pr.alreadyTp == |Elements(split.tp) * already| &&
    Elements(pr.remainingTp) == Elements(split.tp) - already && NoDuplicates(pr.remainingTp) &&
    Elements(pr.remainingFn) == Elements(split.fn) - already && NoDuplicates(pr.remainingFn) &&
    pr.quota == NewPicks(pr.declared, ratio, |Elements(split.tp)|, |Elements(split.fn)|, |already|, pr.alreadyTp)
  }

  /** The new quotas top what is already in the seed up to the targets. */
  lemma PreparedTargets(labels: seq<int>, id: int, split: TpFn, ratio: int, pr: Prepared)
    requires PreparedFrom(pr, labels, id, split, ratio)
    ensures pr.alreadyTp + pr.quota.tp == TpTarget(pr.declared, ratio, |Elements(split.tp)|)
    ensures |pr.currentSelected| + pr.quota.tp + pr.quota.fn ==
            TpTarget(pr.declared, ratio, |Elements(split.tp)|) +
            FnTarget(pr.declared, ratio, |Elements(split.tp)|, |Elements(split.fn)|)
  {
  }

  /** The count behind a RANDOM step (core/Benchmark.js:247-253): when the
      nodes already in the seed lie in the TP/FN partition and each pool
      yields min(quota, what is left of it) new nodes, the seed ends with its
      old nodes plus both quotas, and its TP part meets the TP target. */
  lemma RandomPickSizes(already: set<int>, tp: set<int>, fn: set<int>, tpPicks: set<int>, fnPicks: set<int>,
                        q: Quota, declared: int, ratio: int)
    requires tp !! fn && already <= tp + fn
    requires q == NewPicks(declared, ratio, |tp|, |fn|, |already|, |tp * already|) && q.tp >= 0 && q.fn >= 0
    requires tpPicks <= tp - already && |tpPicks| == if q.tp < |tp - already| then q.tp else |tp - already|
    requires fnPicks <= fn - already && |fnPicks| == if q.fn < |fn - already| then q.fn else |fn - already|
    ensures |already + tpPicks + fnPicks| == |already| + q.tp + q.fn
    ensures |tp * (already + tpPicks + fnPicks)| == TpTarget(declared, ratio, |tp|)
  {
    QuotasFit(already, tp, fn, q, declared, ratio);
    UnionSizes(already, tp, fn, tpPicks, fnPicks);
  }

  /** Neither quota asks for more nodes than are left in its pool. */
  lemma QuotasFit(already: set<int>, tp: set<int>, fn: set<int>, q: Quota, declared: int, ratio: int)
    requires tp !! fn && already <= tp + fn
    requires q == NewPicks(declared, ratio, |tp|, |fn|, |already|, |tp * already|)
    ensures q.tp <= |tp - already| && q.fn <= |fn - already|
  {
    IntersectSubtractSizes(tp, already);
    IntersectSubtractSizes(fn, already);
    assert already == tp * already + fn * already;
    assert (tp * already) * (fn * already) == {};
    assert |already| == |tp * already| + |fn * already|;
  }

  /** New TP and FN picks outside the seed add their own sizes to it, and
      only the TP picks add to its TP part. */
  lemma UnionSizes(already: set<int>, tp: set<int>, fn: set<int>, tpPicks: set<int>, fnPicks: set<int>)
    requires tp !! fn && tpPicks <= tp - already && fnPicks <= fn - already
    ensures |already + tpPicks + fnPicks| == |already| + |tpPicks| + |fnPicks|
    ensures |tp * (already + tpPicks + fnPicks)| == |tp * already| + |tpPicks|
  {
    assert already * tpPicks == {};
    assert (already + tpPicks) * fnPicks == {};
    assert tp * (already + tpPicks + fnPicks) == tp * already + tpPicks;
    assert (tp * already) * tpPicks == {};
  }

  /** After a RANDOM step that labels the drawn TP nodes and then the drawn
      FN nodes, community `id` holds exactly the reported real size, and its
      TP part is the TP target. */
  lemma RandomStepCount(before: seq<int>, id: int, split: TpFn, ratio: int, pr: Prepared,
                        tpPicks: seq<Option<int>>, fnPicks: seq<Option<int>>)
    requires PreparedFrom(pr, before, id, split, ratio) && SplitFits(before, id, split)
    requires pr.quota.tp >= 0 && pr.quota.fn >= 0
    requires Present(tpPicks) <= Elements(pr.remainingTp) &&
             |Present(tpPicks)| == if pr.quota.tp < |pr.remainingTp| then pr.quota.tp else |pr.remainingTp|
    requires Present(fnPicks) <= Elements(pr.remainingFn) &&
             |Present(fnPicks)| == if pr.quota.fn < |pr.remainingFn| then pr.quota.fn else |pr.remainingFn|
    ensures var after := Relabel(Relabel(before, tpPicks, id), fnPicks, id);
            |Members(after, id)| == |pr.currentSelected| + pr.quota.tp + pr.quota.fn &&
            |Elements(split.tp) * Members(after, id)| == TpTarget(pr.declared, ratio, |Elements(split.tp)|)
  {
    var middle := Relabel(before, tpPicks, id);
    DistinctCardinality(pr.remainingTp);
    DistinctCardinality(pr.remainingFn);
    RelabelMembers(before, tpPicks, id);
    RelabelMembers(middle, fnPicks, id);
    RandomPickSizes(Members(before, id), Elements(split.tp), Elements(split.fn), Present(tpPicks), Present(fnPicks),
                    pr.quota, pr.declared, ratio);
  }

  /** A RANDOM step changes only nodes it drew from what was left of TP
      and FN: they now carry `id`, did not before, and lie in the split. */
  lemma RandomFrame(before: seq<int>, id: int, split: TpFn, ratio: int, pr: Prepared,
                    tpPicks: seq<Option<int>>, fnPicks: seq<Option<int>>)
    requires PreparedFrom(pr, before, id, split, ratio)
    requires Present(tpPicks) <= Elements(pr.remainingTp) && Present(fnPicks) <= Elements(pr.remainingFn)
    ensures var after := Relabel(Relabel(before, tpPicks, id), fnPicks, id);
            RelabelledTo(before, after, Some(id)) && DrawnFromSplit(before, after, id, split)
  {
    var middle := Relabel(before, tpPicks, id);
    var after := Relabel(middle, fnPicks, id);
    forall v | 0 <= v < |before| && after[v] != before[v]
      ensures after[v] == id && before[v] != id && (v in split.tp || v in split.fn)
    {
      if Some(v) in fnPicks {
        assert v in Elements(pr.remainingFn);
      } else {
        assert Some(v) in tpPicks;
        assert v in Elements(pr.remainingTp);
      }
      assert v !in Members(before, id);
    }
  }

  /** The path under which a seeded run is stored in `this.result`. */
  function KeyOf(graphName: string, p: Parameters, algorithmName: string): ResultKey {
    ResultKey(graphName, p.seedCount, p.seedStructure, p.compositionRatio, p.seedSize, algorithmName)
  }

  /** `getMaxValue(labels) + 1`: one more than the largest label, and
      `-Infinity` for an empty labelling. */
  ghost predicate CountOf(labels: seq<int>, count: Extended) {
    (count.NegInf? <==> labels == []) &&
    (count.Finite? ==> count.value - 1 in labels && forall x :: x in labels ==> x < count.value)
  }

  /** The flat record of a seeded run: its parameters (seed size and ratio
      as fractions), the seed labelling and the lists the factory reported,
      the detected partition with its modularity and NMI, and its label
      count. */
  ghost predicate FlatOf(record: FlatResult, graphName: string, algorithmName: string, p: Parameters,
                         outcome: SeedOutcome, detection: Detection, nmi: real)
  {
    record.graph == graphName && record.algorithm == algorithmName &&
    record.seedCountParam == p.seedCount && record.seedSizeParam == p.seedSize as real / 100.0 &&
    record.compositionRatioParam == p.compositionRatio as real / 100.0 &&
    record.seedStructureParam == p.seedStructure &&
    record.seedMembership == outcome.seedMembership && record.membership == detection.membership &&
    record.modularity == detection.modularity && record.nmi == nmi &&
    CountOf(detection.membership, record.communitiesCount) &&
    record.declaredSeedCommunitySizes == outcome.declaredSeedCommunitySizes &&
    record.realSeedCommunitySizes == outcome.realSeedCommunitySizes &&
    record.realSeedCommunityCompositionRatio == outcome.realSeedCommunityCompositionRatio
  }

  /** The path of the same run with the previous seed size. */
  function PrevKeyOf(graphName: string, p: Parameters, algorithmName: string): ResultKey
    requires p.prevSeedSize.Some?
  {
    KeyOf(graphName, p.(seedSize := p.prevSeedSize.value), algorithmName)
  }

  /** The previous seed size's seeds, if the run has one, are stored in
      `table` and consistent with the ground-truth communities `groups`. */
  ghost predicate PrevConsistent(table: map<ResultKey, SeedRecord>, graphName: string, p: Parameters,
                                 algorithmName: string, groups: seq<set<int>>)
  {
    p.prevSeedSize.Some? ==>
      PrevKeyOf(graphName, p, algorithmName) in table &&
      Consistent(table[PrevKeyOf(graphName, p, algorithmName)].seedMembership, groups)
  }

  /** Storing a record made from a starting labelling, which is either all
      unlabelled (`n` nodes) or the previous seed size's stored seeds, makes
      the seeds grow when seeding keeps a consistent start consistent and
      preserved. */
  lemma StoredSeedsGrow(before: map<ResultKey, SeedRecord>, graphName: string, p: Parameters,
                        algorithmName: string, groups: seq<set<int>>, n: int, start: seq<int>, rec: SeedRecord)
    requires PrevConsistent(before, graphName, p, algorithmName, groups)
    requires p.prevSeedSize.None? ==> n >= 0 && start == seq(n, _ => -1)
    requires p.prevSeedSize.Some? ==> start == before[PrevKeyOf(graphName, p, algorithmName)].seedMembership
    requires Consistent(start, groups) ==> Consistent(rec.seedMembership, groups) && Preserved(start, rec.seedMembership)
    ensures SeedsGrow(before, before[KeyOf(graphName, p, algorithmName) := rec], graphName, p, algorithmName, groups)
  {
    if p.prevSeedSize.None? {
      assert forall v :: 0 <= v < |start| ==> start[v] == -1;
    }
  }

  /** The seeds stored in `after` for a run are consistent with `groups`
      and keep every seed label of the previous seed size's seeds stored in
      `before`. */
  ghost predicate SeedsGrow(before: map<ResultKey, SeedRecord>, after: map<ResultKey, SeedRecord>,
                            graphName: string, p: Parameters, algorithmName: string, groups: seq<set<int>>)
  {
    KeyOf(graphName, p, algorithmName) in after &&
    Consistent(after[KeyOf(graphName, p, algorithmName)].seedMembership, groups) &&
    (p.prevSeedSize.Some? ==>
       PrevKeyOf(graphName, p, algorithmName) in before &&
       Preserved(before[PrevKeyOf(graphName, p, algorithmName)].seedMembership,
                 after[KeyOf(graphName, p, algorithmName)].seedMembership))
  }

  /** The path of a run in the sweep over the seed sizes. */
  function SizeKey(graphName: string, seedCount: int, structure: string, ratio: int, i: nat, algorithmName: string): ResultKey
    requires i < |SEED_SIZES|
  {
    ResultKey(graphName, seedCount, structure, ratio, SEED_SIZES[i], algorithmName)
  }

  /** For the first `k` seed sizes, every seeded algorithm's seeds are
      stored in `table`, consistent with `groups`, and keep the seed labels
      of the size before. */
  ghost predicate SizesGrown(table: map<ResultKey, SeedRecord>, graphName: string, seedCount: int,
                             structure: string, ratio: int, k: nat, groups: seq<set<int>>)
    requires k <= |SEED_SIZES|
  {
    forall i, a :: 0 <= i < k && a in MODIFIED_ALGORITHMS ==>
      SizeKey(graphName, seedCount, structure, ratio, i, a) in table &&
      Consistent(table[SizeKey(graphName, seedCount, structure, ratio, i, a)].seedMembership, groups) &&
      (i > 0 ==>
         SizeKey(graphName, seedCount, structure, ratio, i - 1, a) in table &&
         Preserved(table[SizeKey(graphName, seedCount, structure, ratio, i - 1, a)].seedMembership,
                   table[SizeKey(graphName, seedCount, structure, ratio, i, a)].seedMembership))
  }

  /** The seed sizes are swept in increasing order. */
  lemma SeedSizesIncrease()
    ensures forall j, i :: 0 <= j < i < |SEED_SIZES| ==> SEED_SIZES[j] < SEED_SIZES[i]
  {
  }

  /** The seeded algorithms have distinct names. */
  lemma ModifiedAlgorithmsDistinct()
    ensures forall j, i :: 0 <= j < i < |MODIFIED_ALGORITHMS| ==> MODIFIED_ALGORITHMS[j] != MODIFIED_ALGORITHMS[i]
  {
  }

  /** Storing the seeds of algorithm `i` keeps what the runs of the earlier
      algorithms established, and leaves the previous seed size's seeds
      (stored under another size) as they were at the start. */
  lemma GrowsAcrossAlgorithms(start: map<ResultKey, SeedRecord>, before: map<ResultKey, SeedRecord>,
                              after: map<ResultKey, SeedRecord>, graphName: string, p: Parameters, i: nat,
                              rec: SeedRecord, groups: seq<set<int>>)
    requires i < |MODIFIED_ALGORITHMS| && p.prevSeedSize != Some(p.seedSize)
    requires forall key :: key in start && key.size != p.seedSize ==> key in before && before[key] == start[key]
    requires after == before[KeyOf(graphName, p, MODIFIED_ALGORITHMS[i]) := rec]
    ensures forall a :: a in MODIFIED_ALGORITHMS[..i] && SeedsGrow(start, before, graphName, p, a, groups) ==>
              SeedsGrow(start, after, graphName, p, a, groups)
    ensures PrevConsistent(start, graphName, p, MODIFIED_ALGORITHMS[i], groups) ==>
              PrevConsistent(before, graphName, p, MODIFIED_ALGORITHMS[i], groups)
    ensures PrevConsistent(start, graphName, p, MODIFIED_ALGORITHMS[i], groups) &&
            SeedsGrow(before, after, graphName, p, MODIFIED_ALGORITHMS[i], groups) ==>
              SeedsGrow(start, after, graphName, p, MODIFIED_ALGORITHMS[i], groups)
  {
    ModifiedAlgorithmsDistinct();
    forall a | a in MODIFIED_ALGORITHMS[..i] && SeedsGrow(start, before, graphName, p, a, groups)
      ensures SeedsGrow(start, after, graphName, p, a, groups)
    {
      var j :| 0 <= j < i && MODIFIED_ALGORITHMS[j] == a;
      assert KeyOf(graphName, p, a) != KeyOf(graphName, p, MODIFIED_ALGORITHMS[i]);
    }
  }

  /** The parameters of the run at seed size `i` of a sweep. */
  function SizeParameters(seedCount: int, structure: string, ratio: int, i: nat): Parameters
    requires i < |SEED_SIZES|
  {
    Parameters(seedCount, SEED_SIZES[i], ratio, structure, if i == 0 then None else Some(SEED_SIZES[i - 1]))
  }

  /** One turn of the loop over the seeded algorithms: storing the record
      of algorithm `i` adds its key, keeps every record of another seed size
      and keeps the seeds of the earlier algorithms grown. */
  lemma AlgorithmsStep(start: map<ResultKey, SeedRecord>, before: map<ResultKey, SeedRecord>,
                       after: map<ResultKey, SeedRecord>, graphName: string, p: Parameters, i: nat,
                       rec: SeedRecord, groups: seq<set<int>>, grows: bool)
    requires i < |MODIFIED_ALGORITHMS| && (grows ==> p.prevSeedSize != Some(p.seedSize))
    requires before.Keys == start.Keys + set a | a in MODIFIED_ALGORITHMS[..i] :: KeyOf(graphName, p, a)
    requires forall key :: key in start && key.size != p.seedSize ==> before[key] == start[key]
    requires grows ==>
               forall a :: a in MODIFIED_ALGORITHMS[..i] && PrevConsistent(start, graphName, p, a, groups) ==>
                 SeedsGrow(start, before, graphName, p, a, groups)
    requires after == before[KeyOf(graphName, p, MODIFIED_ALGORITHMS[i]) := rec]
    requires grows && PrevConsistent(before, graphName, p, MODIFIED_ALGORITHMS[i], groups) ==>
               SeedsGrow(before, after, graphName, p, MODIFIED_ALGORITHMS[i], groups)
    ensures after.Keys == start.Keys + set a | a in MODIFIED_ALGORITHMS[..i + 1] :: KeyOf(graphName, p, a)
    ensures forall key :: key in start && key.size != p.seedSize ==> after[key] == start[key]
    ensures grows ==>
              forall a :: a in MODIFIED_ALGORITHMS[..i + 1] && PrevConsistent(start, graphName, p, a, groups) ==>
                SeedsGrow(start, after, graphName, p, a, groups)
  {
    assert MODIFIED_ALGORITHMS[..i + 1] == MODIFIED_ALGORITHMS[..i] + [MODIFIED_ALGORITHMS[i]];
    if grows {
      GrowsAcrossAlgorithms(start, before, after, graphName, p, i, rec, groups);
    }
  }

  /** One pass of the loop over the seed sizes extends `SizesGrown` by one
      size: clearing the new size's level keeps the smaller sizes' seeds,
      and each new seed grows from the seed of the size before. */
  lemma SizesGrowStep(table: map<ResultKey, SeedRecord>, reset: map<ResultKey, SeedRecord>,
                      after: map<ResultKey, SeedRecord>, graphName: string,
                      seedCount: int, structure: string, ratio: int, i: nat, groups: seq<set<int>>)
    requires i < |SEED_SIZES| && SizesGrown(table, graphName, seedCount, structure, ratio, i, groups)
    requires reset == Reset(table, ResultKey(graphName, seedCount, structure, ratio, SEED_SIZES[i], ""), 5)
    requires (forall key :: key in reset && key.size != SEED_SIZES[i] ==> key in after && after[key] == reset[key]) &&
             forall a :: a in MODIFIED_ALGORITHMS &&
                         PrevConsistent(reset, graphName, SizeParameters(seedCount, structure, ratio, i), a, groups) ==>
                           SeedsGrow(reset, after, graphName, SizeParameters(seedCount, structure, ratio, i), a, groups)
    ensures SizesGrown(after, graphName, seedCount, structure, ratio, i + 1, groups)
  {
    var p := SizeParameters(seedCount, structure, ratio, i);
    SeedSizesIncrease();
    forall j, a | 0 <= j <= i && a in MODIFIED_ALGORITHMS
      ensures SizeKey(graphName, seedCount, structure, ratio, j, a) in after
      ensures Consistent(after[SizeKey(graphName, seedCount, structure, ratio, j, a)].seedMembership, groups)
      ensures j > 0 ==>
                SizeKey(graphName, seedCount, structure, ratio, j - 1, a) in after &&
                Preserved(after[SizeKey(graphName, seedCount, structure, ratio, j - 1, a)].seedMembership,
                          after[SizeKey(graphName, seedCount, structure, ratio, j, a)].seedMembership)
    {
      if j < i {
        assert SizeKey(graphName, seedCount, structure, ratio, j, a) in reset;
        if j > 0 {
          assert SizeKey(graphName, seedCount, structure, ratio, j - 1, a) in reset;
        }
      } else {
        if i > 0 {
          assert PrevKeyOf(graphName, p, a) == SizeKey(graphName, seedCount, structure, ratio, i - 1, a);
          assert PrevKeyOf(graphName, p, a) in reset;
        }
        assert KeyOf(graphName, p, a) == SizeKey(graphName, seedCount, structure, ratio, i, a);
      }
    }
  }

  /** Position `k` of the flat list `flat` records the entry of `table`
      for the graph and the algorithm. */
  ghost predicate FlatRecordIn(table: map<string, map<string, BaselineEntry>>, flat: seq<FlatBaseline>,
                               name: string, algorithmName: string, k: nat)
  {
    name in table && algorithmName in table[name] && k < |flat| &&
    var e := table[name][algorithmName];
    flat[k] == FlatBaseline(k, name, algorithmName, e.membership, e.modularity, e.nmi, e.communitiesCount)
  }

  /** Storing the entry of baseline algorithm `i` and pushing its record
      keeps the flat prefix and the records of the earlier algorithms, and
      adds the record of algorithm `i` right after them. */
  lemma FlatRecordsStep(table: map<string, map<string, BaselineEntry>>, flat: seq<FlatBaseline>,
                        flatBefore: seq<FlatBaseline>, name: string, i: nat, entry: BaselineEntry)
    requires i < |BASELINE_ALGORITHMS| && name in table
    requires |flat| == |flatBefore| + i && flat[..|flatBefore|] == flatBefore
    requires forall j :: 0 <= j < i ==> FlatRecordIn(table, flat, name, BASELINE_ALGORITHMS[j], |flatBefore| + j)
    ensures var flat' := flat + [FlatBaseline(|flat|, name, BASELINE_ALGORITHMS[i], entry.membership, entry.modularity,
                                              entry.nmi, entry.communitiesCount)];
            flat'[..|flatBefore|] == flatBefore &&
            forall j :: 0 <= j <= i ==>
              FlatRecordIn(table[name := table[name][BASELINE_ALGORITHMS[i] := entry]], flat', name,
                           BASELINE_ALGORITHMS[j], |flatBefore| + j)
  {
    var flat' := flat + [FlatBaseline(|flat|, name, BASELINE_ALGORITHMS[i], entry.membership, entry.modularity,
                                      entry.nmi, entry.communitiesCount)];
    var table' := table[name := table[name][BASELINE_ALGORITHMS[i] := entry]];
    assert flat'[..|flatBefore|] == flat[..|flatBefore|];
    forall j | 0 <= j <= i
      ensures FlatRecordIn(table', flat', name, BASELINE_ALGORITHMS[j], |flatBefore| + j)
    {
      if j < i {
        assert FlatRecordIn(table, flat, name, BASELINE_ALGORITHMS[j], |flatBefore| + j);
        assert BASELINE_ALGORITHMS[j] != BASELINE_ALGORITHMS[i];
      }
    }
  }

  class Benchmark {
    const graphs: seq<GraphData>
    const runCommunityDetection: (string, int, seq<int>, Option<seq<int>>) -> Detection
    const compareCommunitiesNMI: (seq<int>, seq<int>) -> real
    const rankedPartialCompositionalBFS: (int, int, seq<int>, seq<int>, seq<int>, Option<seq<int>>, seq<int>) -> Selection
    const random: nat -> real
    /** How many values of the random stream have been read. */
    var drawn: nat
    var baseline: map<string, map<string, BaselineEntry>>
    var result: map<ResultKey, SeedRecord>
    var flatBaseline: seq<FlatBaseline>
    var flatResult: seq<FlatResult>

    ghost predicate RandomInRange() {
      forall j :: 0.0 <= random(j) < 1.0
    }

    /** The stream stays in [0, 1) and every flat record's id is its
        position. */
    ghost predicate Valid()
      reads this
    {
      RandomInRange() &&
      (forall i :: 0 <= i < |flatBaseline| ==> flatBaseline[i].id == i) &&
      (forall i :: 0 <= i < |flatResult| ==> flatResult[i].id == i)
    }

    /** `new Benchmark()` followed by the binding of the engine in `start`:
        one empty baseline table per graph, nothing else recorded. */
    constructor (graphs: seq<GraphData>,
                 runCommunityDetection: (string, int, seq<int>, Option<seq<int>>) -> Detection,
                 compareCommunitiesNMI: (seq<int>, seq<int>) -> real,
                 rankedPartialCompositionalBFS: (int, int, seq<int>, seq<int>, seq<int>, Option<seq<int>>, seq<int>) -> Selection,
                 random: nat -> real)
      requires forall j :: 0.0 <= random(j) < 1.0
      ensures Valid()
      ensures this.graphs == graphs && drawn == 0
      ensures baseline.Keys == Names(graphs) && forall name :: name in baseline ==> baseline[name] == map[]
      ensures result == map[] && flatBaseline == [] && flatResult == []
    {
      this.graphs := graphs;
      this.runCommunityDetection := runCommunityDetection;
      this.compareCommunitiesNMI := compareCommunitiesNMI;
      this.rankedPartialCompositionalBFS := rankedPartialCompositionalBFS;
      this.random := random;
      drawn := 0;
      baseline := map name | name in Names(graphs) :: map[];
      result := map[];
      flatBaseline := [];
      flatResult := [];
    }
  
    function Detect(graph: Graph, algorithmName: string): Detection {
      runCommunityDetection(algorithmName, graph.data.n, graph.data.edges, None)
    }

    /** `table` holds a run of `algorithmName` on `graph`, whose
        ground-truth communities have the node sets `gtSets`. */
    ghost predicate BaselineHolds(table: map<string, map<string, BaselineEntry>>, graph: Graph,
                                  gtSets: seq<set<int>>, algorithmName: string)
    {
      var name := graph.data.name;
      var detection := Detect(graph, algorithmName);
      name in table && algorithmName in table[name] &&
      BaselineOf(gtSets, detection, compareCommunitiesNMI(graph.groundTruthMembership, detection.membership),
                 table[name][algorithmName])
    }

    ghost predicate HasBaseline(graph: Graph, gtSets: seq<set<int>>, algorithmName: string)
      reads this
    {
      BaselineHolds(baseline, graph, gtSets, algorithmName)
    }

    /** Recording the run of a later baseline algorithm keeps the runs of
        the earlier ones: the algorithm names are distinct. */
    lemma KeepsEarlierRuns(table: map<string, map<string, BaselineEntry>>, graph: Graph, gtSets: seq<set<int>>,
                           i: nat, entry: BaselineEntry)
      requires i < |BASELINE_ALGORITHMS| && graph.data.name in table
      requires forall j :: 0 <= j < i ==> BaselineHolds(table, graph, gtSets, BASELINE_ALGORITHMS[j])
      ensures forall j :: 0 <= j < i ==>
                BaselineHolds(table[graph.data.name := table[graph.data.name][BASELINE_ALGORITHMS[i] := entry]],
                              graph, gtSets, BASELINE_ALGORITHMS[j])
    {
      var name := graph.data.name;
      var table' := table[name := table[name][BASELINE_ALGORITHMS[i] := entry]];
      forall j | 0 <= j < i
        ensures BaselineHolds(table', graph, gtSets, BASELINE_ALGORITHMS[j])
      {
        assert BASELINE_ALGORITHMS[j] != BASELINE_ALGORITHMS[i];
        assert table'[name][BASELINE_ALGORITHMS[j]] == table[name][BASELINE_ALGORITHMS[j]];
      }
    }

    /** The body of the loop of `calculateBaseline` up to the assignments:
        run the algorithm, group its labelling and split every ground-truth
        community into TP and FN. */
    method RunBaseline(graph: Graph, algorithmName: string) returns (r: Result<BaselineEntry>)
      ensures r.Success? <==> Detect(graph, algorithmName).membership != [] || |graph.groundTruthCommunities| == 0
      ensures r.Failure? ==> r.error.TypeError?
      ensures r.Success? ==>
                var detection := Detect(graph, algorithmName);
                BaselineOf(NodeSets(graph.groundTruthCommunities), detection,
                           compareCommunitiesNMI(graph.groundTruthMembership, detection.membership), r.value)
    {
      var data := graph.data;
      var detection := runCommunityDetection(algorithmName, data.n, data.edges, None);
      var nmi := compareCommunitiesNMI(graph.groundTruthMembership, detection.membership);
      var communities := Community.GetCommunitiesFromMembership(detection.membership);
      ghost var labels := GroupLabels(detection.membership);
      ghost var detected := NodeSets(communities);
      assert forall k :: 0 <= k < |detected| ==> detected[k] == Members(detection.membership, labels[k]);
      if detection.membership != [] {
        assert detection.membership[0] in labels;
      }
      var maxTpCommunities := TpTable(graph.groundTruthCommunities, communities);
      if maxTpCommunities.Failure? {
        return Failure(maxTpCommunities.error);
      }
      ghost var gtSets := NodeSets(graph.groundTruthCommunities);
      assert NodeSets(communities) == detected;
      var lists := NodeLists(communities);
      assert Sets(lists) == detected;
      return Success(BaselineEntry(detection.membership, detection.modularity, lists, maxTpCommunities.value,
                                   |communities|, nmi));
    }

    /** One pass of the loop of `calculateBaseline`: the run is recorded in
        both tables. A graph without a baseline table makes the assignment
        throw. */
    method AddBaseline(graph: Graph, algorithmName: string) returns (thrown: Option<Thrown>)
      requires Valid()
      modifies this`baseline, this`flatBaseline
      ensures Valid()
      ensures thrown.None? <==>
                graph.data.name in old(baseline) &&
                (Detect(graph, algorithmName).membership != [] || |graph.groundTruthCommunities| == 0)
      ensures thrown.Some? ==> thrown.value.TypeError? && baseline == old(baseline) && flatBaseline == old(flatBaseline)
      ensures thrown.None? ==>
                var name := graph.data.name;
                HasBaseline(graph, NodeSets(graph.groundTruthCommunities), algorithmName) &&
                baseline == old(baseline)[name := old(baseline)[name][algorithmName := baseline[name][algorithmName]]] &&
                var entry := baseline[name][algorithmName];
                flatBaseline == old(flatBaseline) +
                  [FlatBaseline(|old(flatBaseline)|, name, algorithmName, entry.membership, entry.modularity,
                                entry.nmi, entry.communitiesCount)]
    {
      var entry := RunBaseline(graph, algorithmName);
      if entry.Failure? {
        return Some(entry.error);
      }
      var name := graph.data.name;
      if name !in baseline {
        return Some(TypeError("Cannot set properties of undefined"));
      }
      var e := entry.value;
      baseline := baseline[name := baseline[name][algorithmName := e]];
      flatBaseline := flatBaseline + [FlatBaseline(|flatBaseline|, name, algorithmName, e.membership, e.modularity, e.nmi, e.communitiesCount)];
      return None;
    }

    /** What the first `i` passes of `calculateBaseline` have recorded,
        starting from the tables `before` and the flat list `flatBefore`:
        the flat list keeps `flatBefore` and then holds, for each of the
        first `i` algorithms, the record of the entry stored for it. */
    ghost predicate Recorded(graph: Graph, gtSets: seq<set<int>>, before: map<string, map<string, BaselineEntry>>,
                             flatBefore: seq<FlatBaseline>, i: nat)
      reads this
    {
      Valid() && RecordedIn(baseline, flatBaseline, graph, gtSets, before, flatBefore, i)
    }

    /** `Recorded` on the tables `table` and `flat`. */
    ghost predicate RecordedIn(table: map<string, map<string, BaselineEntry>>, flat: seq<FlatBaseline>, graph: Graph,
                               gtSets: seq<set<int>>, before: map<string, map<string, BaselineEntry>>,
                               flatBefore: seq<FlatBaseline>, i: nat)
    {
      i <= |BASELINE_ALGORITHMS| && |flat| == |flatBefore| + i &&
      flat[..|flatBefore|] == flatBefore &&
      table.Keys == before.Keys &&
      (forall name :: name in table && name != graph.data.name ==> table[name] == before[name]) &&
      forall j :: 0 <= j < i ==>
        BaselineHolds(table, graph, gtSets, BASELINE_ALGORITHMS[j]) &&
        FlatRecordIn(table, flat, graph.data.name, BASELINE_ALGORITHMS[j], |flatBefore| + j)
    }

    /** Storing the entry of baseline algorithm `i` in the graph's table and
        pushing its record extends `RecordedIn` by one algorithm. */
    lemma RecordedStep(table: map<string, map<string, BaselineEntry>>, flat: seq<FlatBaseline>, graph: Graph,
                       gtSets: seq<set<int>>, before: map<string, map<string, BaselineEntry>>,
                       flatBefore: seq<FlatBaseline>, i: nat, entry: BaselineEntry)
      requires i < |BASELINE_ALGORITHMS| && graph.data.name in table
      requires RecordedIn(table, flat, graph, gtSets, before, flatBefore, i)
      requires BaselineHolds(table[graph.data.name := table[graph.data.name][BASELINE_ALGORITHMS[i] := entry]],
                             graph, gtSets, BASELINE_ALGORITHMS[i])
      ensures RecordedIn(table[graph.data.name := table[graph.data.name][BASELINE_ALGORITHMS[i] := entry]],
                         flat + [FlatBaseline(|flat|, graph.data.name, BASELINE_ALGORITHMS[i], entry.membership,
                                              entry.modularity, entry.nmi, entry.communitiesCount)],
                         graph, gtSets, before, flatBefore, i + 1)
    {
      KeepsEarlierRuns(table, graph, gtSets, i, entry);
      FlatRecordsStep(table, flat, flatBefore, graph.data.name, i, entry);
    }

    /** One pass of the loop of `calculateBaseline`, as a step of
        `Recorded`. */
    method RecordRun(graph: Graph, ghost gtSets: seq<set<int>>, ghost before: map<string, map<string, BaselineEntry>>,
                     ghost flatBefore: seq<FlatBaseline>, i: nat) returns (thrown: Option<Thrown>)
      requires i < |BASELINE_ALGORITHMS| && gtSets == NodeSets(graph.groundTruthCommunities)
      requires Recorded(graph, gtSets, before, flatBefore, i)
      modifies this`baseline, this`flatBaseline
      ensures Valid()
      ensures thrown.Some? ==> thrown.value.TypeError?
      ensures thrown.None? ==> Recorded(graph, gtSets, before, flatBefore, i + 1)
    {
      ghost var table := baseline;
      ghost var flat := flatBaseline;
      thrown := AddBaseline(graph, BASELINE_ALGORITHMS[i]);
      if thrown.None? {
        RecordedStep(table, flat, graph, gtSets, before, flatBefore, i, baseline[graph.data.name][BASELINE_ALGORITHMS[i]]);
      }
    }

    /** `calculateBaseline(graph)`: a baseline run of every baseline
        algorithm, recorded for the graph. */
    method CalculateBaseline(graph: Graph) returns (thrown: Option<Thrown>)
      requires Valid()
      modifies this`baseline, this`flatBaseline
      ensures Valid()
      ensures thrown.Some? ==> thrown.value.TypeError?
      ensures thrown.None? ==>
                Recorded(graph, NodeSets(graph.groundTruthCommunities), old(baseline), old(flatBaseline),
                         |BASELINE_ALGORITHMS|)
    {
      ghost var gtSets := NodeSets(graph.groundTruthCommunities);
      for i := 0 to |BASELINE_ALGORITHMS|
        invariant Recorded(graph, gtSets, old(baseline), old(flatBaseline), i)
      {
        thrown := RecordRun(graph, gtSets, old(baseline), old(flatBaseline), i);
        if thrown.Some? {
          return;
        }
      }
      thrown := None;
    }
  
    /** After `calculateBaseline` on a graph record, the hypotheses under
        which the sweep over the seed sizes grows each seed from the last
        hold: the ground-truth communities are disjoint, and every seeded
        algorithm finds its counterpart's baseline recorded. */
    lemma BaselineMakesGrowthSound(graph: Graph, before: map<string, map<string, BaselineEntry>>,
                                   flatBefore: seq<FlatBaseline>)
      requires graph.Valid()
      requires Recorded(graph, NodeSets(graph.groundTruthCommunities), before, flatBefore, |BASELINE_ALGORITHMS|)
      ensures PairwiseDisjoint(NodeSets(graph.groundTruthCommunities))
      ensures forall a :: a in MODIFIED_ALGORITHMS ==>
                BaselineHolds(baseline, graph, NodeSets(graph.groundTruthCommunities), Counterpart(a))
    {
      var groups := NodeSets(graph.groundTruthCommunities);
      GroundTruthDisjoint(graph.groundTruthCommunities, graph.data.membership);
      forall a | a in MODIFIED_ALGORITHMS
        ensures BaselineHolds(baseline, graph, groups, Counterpart(a))
      {
        assert Counterpart(a) in BASELINE_ALGORITHMS;
        var j :| 0 <= j < |BASELINE_ALGORITHMS| && BASELINE_ALGORITHMS[j] == Counterpart(a);
        assert HasBaseline(graph, groups, BASELINE_ALGORITHMS[j]);
      }
    }

    // -------------------------------------------------------------------
    // seedMembershipFactory

    /** `this.baseline[graph][counterpart].maxTpCommunities[id]`, keyed by the
        position of the ground-truth community. */
    function SplitFor(graphName: string, algorithmName: string, id: int): (r: Result<TpFn>)
      reads this`baseline
      ensures r.Success? <==>
                graphName in baseline && Counterpart(algorithmName) in baseline[graphName] &&
                0 <= id < |baseline[graphName][Counterpart(algorithmName)].maxTpCommunities|
      ensures r.Failure? ==> r.error.TypeError?
    {
      var counterpart := Counterpart(algorithmName);
      if graphName !in baseline || counterpart !in baseline[graphName] then
        Failure(TypeError("Cannot read properties of undefined (reading 'maxTpCommunities')"))
      else if !(0 <= id < |baseline[graphName][counterpart].maxTpCommunities|) then
        Failure(TypeError("Cannot destructure property 'tp' of undefined"))
      else
        Success(baseline[graphName][counterpart].maxTpCommunities[id])
    }

    /** The record of the same run with the previous seed size. */
    function PreviousRecord(graphName: string, algorithmName: string, p: Parameters): (r: Result<SeedRecord>)
      reads this`result
      ensures r.Success? <==>
                p.prevSeedSize.Some? &&
                ResultKey(graphName, p.seedCount, p.seedStructure, p.compositionRatio, p.prevSeedSize.value, algorithmName) in result
      ensures r.Failure? ==> r.error.TypeError?
    {
      if p.prevSeedSize.None? then Failure(TypeError("Cannot read properties of undefined (reading 'fastGreedySeed')"))
      else
        var key := ResultKey(graphName, p.seedCount, p.seedStructure, p.compositionRatio, p.prevSeedSize.value, algorithmName);
        if key in result then Success(result[key])
        else Failure(TypeError("Cannot read properties of undefined (reading 'seedMembership')"))
    }

    /** The labelling a run starts from: all `-1` for the first seed size,
        otherwise a copy of the previous seed size's labelling. */
    method InitialLabels(graph: Graph, algorithmName: string, p: Parameters) returns (r: Result<array<int>>)
      ensures p.prevSeedSize.None? ==> (r.Success? <==> graph.data.n >= 0)
      ensures p.prevSeedSize.Some? ==> (r.Success? <==> PreviousRecord(graph.data.name, algorithmName, p).Success?)
      ensures r.Failure? ==> r.error.RangeError? || r.error.TypeError?
      ensures r.Success? ==>
                fresh(r.value) &&
                r.value[..] == if p.prevSeedSize.None? then seq(graph.data.n, _ => -1)
                               else PreviousRecord(graph.data.name, algorithmName, p).value.seedMembership
    {
      if p.prevSeedSize.None? {
        if graph.data.n < 0 {
          return Failure(RangeError("Invalid array length"));
        }
        var unseeded := new int[graph.data.n](_ => -1);
        return Success(unseeded);
      }
      var previous := PreviousRecord(graph.data.name, algorithmName, p);
      if previous.Failure? {
        return Failure(previous.error);
      }
      var copied := previous.value.seedMembership;
      var copy := new int[|copied|](i requires 0 <= i < |copied| => copied[i]);
      return Success(copy);
    }

    /** The `result` of `getRandomItems(arr, n)` for a non-negative `n`
        when the stream is read from `position`. */
    ghost function SampleAt(arr: seq<int>, n: nat, position: nat): seq<Option<int>>
      requires RandomInRange()
    {
      DrawsValid(random, position, |arr|, DrawCount(|arr|, n));
      Sampled(arr, n, Draws(random, position, |arr|, DrawCount(|arr|, n)))
    }

    /** The ground-truth communities to seed: the ids already in use when
        the labelling has any, otherwise the indexes of `seedCount` communities
        drawn at random. */
    method SeedIds(graph: Graph, seedCount: int, labels: seq<int>) returns (r: Result<seq<Option<int>>>)
      requires RandomInRange()
      modifies this`drawn
      ensures SeedIdsUpTo(labels, |labels|) != [] ==>
                r == Success(Somes(SeedIdsUpTo(labels, |labels|))) && drawn == old(drawn)
      ensures SeedIdsUpTo(labels, |labels|) == [] ==>
                (r.Success? <==> seedCount >= 0) &&
                drawn == old(drawn) + DrawCount(|graph.groundTruthCommunities|, seedCount)
      ensures r.Failure? ==> r.error.RangeError?
      ensures r.Success? ==> DistinctIds(r.value)
      ensures SeedIdsUpTo(labels, |labels|) == [] && r.Success? ==>
                r.value == SampleAt(Range(|graph.groundTruthCommunities|), seedCount, old(drawn)) &&
                |r.value| == seedCount &&
                (forall i :: 0 <= i < |r.value| ==> (r.value[i].Some? <==> i < |graph.groundTruthCommunities|)) &&
                forall i :: 0 <= i < |r.value| && r.value[i].Some? ==>
                  0 <= r.value[i].value < |graph.groundTruthCommunities|
    {
      var used := SeedIdsInUse(labels);
      if used != [] {
        return Success(Somes(used));
      }
      ghost var position := drawn;
      var gts := graph.groundTruthCommunities;
      var count := DrawCount(|gts|, seedCount);
      DrawsValid(random, drawn, |gts|, count);
      var draws := Draws(random, drawn, |gts|, count);
      var sample, consumed := GetRandomItems(gts, seedCount, draws);
      drawn := drawn + consumed;
      if sample.Failure? {
        return Failure(sample.error);
      }
      if seedCount != |gts| {
        PlacedDistinct(seedCount, count, Chosen(|gts|, draws, count));
      }
      assert sample.value.indexes == SampleAt(Range(|gts|), seedCount, position);
      return Success(sample.value.indexes);
    }
  
    /** Steps 1 to 5 for ground-truth community `id`: the nodes it already
        holds in the labelling, its declared size, its TP/FN split, what is
        left of TP and FN, and the new quotas. */
    method Prepare(graph: Graph, algorithmName: string, p: Parameters, labels: seq<int>, id: int)
      returns (r: Result<Prepared>)
      requires 0 <= id < |graph.groundTruthCommunities|
      ensures r.Success? <==>
                |graph.groundTruthCommunities[id].nodes| >= 2 && SplitFor(graph.data.name, algorithmName, id).Success?
      ensures r.Failure? ==> r.error.Error? || r.error.TypeError?
      ensures r.Success? ==>
                r.value.declared == DeclaredSeedSize(|graph.groundTruthCommunities[id].nodes|, p.seedSize).value &&
                PreparedFrom(r.value, labels, id, SplitFor(graph.data.name, algorithmName, id).value, p.compositionRatio)
    {
      var gt := graph.groundTruthCommunities[id];
      var alreadyPickedNodes := PickedNodes(labels, id);
      DistinctCardinality(alreadyPickedNodes.nodes);
      var alreadyPickedNodesSize := alreadyPickedNodes.Size();
      var seedCommunitySize := DeclaredSeedSize(gt.Size(), p.seedSize);
      if seedCommunitySize.Failure? {
        return Failure(seedCommunitySize.error);
      }
      var split := SplitFor(graph.data.name, algorithmName, id);
      if split.Failure? {
        return Failure(split.error);
      }
      var tp := new Community(split.value.tp);
      var fn := new Community(split.value.fn);
      FirstSeenCardinality(split.value.tp);
      FirstSeenCardinality(split.value.fn);
      var remainingTp := tp.Subtract(alreadyPickedNodes);
      var remainingFn := fn.Subtract(alreadyPickedNodes);
      var common, walked := tp.Intersect(alreadyPickedNodes);
      DistinctCardinality(common.nodes);
      var alreadyPickedTpNodesSize := common.Size();
      var quota := NewPicks(seedCommunitySize.value, p.compositionRatio, tp.Size(), fn.Size(),
                            alreadyPickedNodesSize, alreadyPickedTpNodesSize);
      return Success(Prepared(seedCommunitySize.value, tp.nodes, fn.nodes, alreadyPickedNodes.nodes,
                              alreadyPickedTpNodesSize, remainingTp.nodes, remainingFn.nodes, quota));
    }

    /** The RANDOM branch: draw the new TP and FN nodes among what is left
        of TP and FN, then label them. A negative quota makes `new Array`
        throw before any node is labelled. */
    method PickRandom(labels: array<int>, id: int, remainingTp: seq<int>, remainingFn: seq<int>, quota: Quota)
      returns (thrown: Option<Thrown>, ghost tpPicks: seq<Option<int>>, ghost fnPicks: seq<Option<int>>)
      requires RandomInRange()
      modifies this`drawn, labels
      ensures thrown.None? <==> quota.tp >= 0 && quota.fn >= 0
      ensures thrown.Some? ==> thrown.value.RangeError? && labels[..] == old(labels[..])
      ensures thrown.None? ==>
                drawn == old(drawn) + DrawCount(|remainingTp|, quota.tp) + DrawCount(|remainingFn|, quota.fn)
      ensures thrown.None? ==> labels[..] == Relabel(Relabel(old(labels[..]), tpPicks, id), fnPicks, id)
      ensures thrown.None? && NoDuplicates(remainingTp) ==>
                Present(tpPicks) <= Elements(remainingTp) &&
                |Present(tpPicks)| == if quota.tp < |remainingTp| then quota.tp else |remainingTp|
      ensures thrown.None? && NoDuplicates(remainingFn) ==>
                Present(fnPicks) <= Elements(remainingFn) &&
                |Present(fnPicks)| == if quota.fn < |remainingFn| then quota.fn else |remainingFn|
    {
      tpPicks, fnPicks := [], [];
      var tpCount := DrawCount(|remainingTp|, quota.tp);
      DrawsValid(random, drawn, |remainingTp|, tpCount);
      var tpDraws := Draws(random, drawn, |remainingTp|, tpCount);
      var tpVertices, tpDrawn := GetRandomItems(remainingTp, quota.tp, tpDraws);
      drawn := drawn + tpDrawn;
      if tpVertices.Failure? {
        return Some(tpVertices.error), tpPicks, fnPicks;
      }
      var fnCount := DrawCount(|remainingFn|, quota.fn);
      DrawsValid(random, drawn, |remainingFn|, fnCount);
      var fnDraws := Draws(random, drawn, |remainingFn|, fnCount);
      var fnVertices, fnDrawn := GetRandomItems(remainingFn, quota.fn, fnDraws);
      drawn := drawn + fnDrawn;
      if fnVertices.Failure? {
        return Some(fnVertices.error), tpPicks, fnPicks;
      }
      tpPicks, fnPicks := tpVertices.value.result, fnVertices.value.result;
      if NoDuplicates(remainingTp) {
        SampledPresent(remainingTp, quota.tp, tpDraws);
      }
      if NoDuplicates(remainingFn) {
        SampledPresent(remainingFn, quota.fn, fnDraws);
      }
      LabelNodes(labels, tpVertices.value.result, id);
      LabelNodes(labels, fnVertices.value.result, id);
      return None, tpPicks, fnPicks;
    }

    /** The RANDOM branch with its report: the realized size counts the
        nodes already picked and the new quotas. The picks are the drawn TP
        and FN nodes; when the split fits the labelling, the seed then holds
        exactly the realized size, with the TP target among them. */
    method SeedRandom(labels: array<int>, id: int, pr: Prepared, ghost split: TpFn, ghost ratio: int)
      returns (r: Result<Step>, ghost tpPicks: seq<Option<int>>, ghost fnPicks: seq<Option<int>>)
      requires RandomInRange()
      requires PreparedFrom(pr, labels[..], id, split, ratio)
      modifies this`drawn, labels
      ensures r.Success? <==> pr.quota.tp >= 0 && pr.quota.fn >= 0
      ensures r.Failure? ==> r.error.RangeError?
      ensures r.Success? ==>
                r.value.declared == pr.declared && r.value.queue.None? &&
                r.value.realSize == TpTarget(pr.declared, ratio, |Elements(split.tp)|) +
                                    FnTarget(pr.declared, ratio, |Elements(split.tp)|, |Elements(split.fn)|) &&
                r.value.ratio == RealizedRatio(TpTarget(pr.declared, ratio, |Elements(split.tp)|), r.value.realSize)
      ensures r.Success? ==> labels[..] == Relabel(Relabel(old(labels[..]), tpPicks, id), fnPicks, id)
      ensures r.Success? ==>
                Present(tpPicks) <= Elements(pr.remainingTp) && Present(fnPicks) <= Elements(pr.remainingFn)
      ensures r.Failure? ==> labels[..] == old(labels[..])
      ensures r.Success? ==>
                RelabelledTo(old(labels[..]), labels[..], Some(id)) && DrawnFromSplit(old(labels[..]), labels[..], id, split)
      ensures r.Success? && SplitFits(old(labels[..]), id, split) ==>
                |Members(labels[..], id)| == r.value.realSize &&
                |Elements(split.tp) * Members(labels[..], id)| == TpTarget(pr.declared, ratio, |Elements(split.tp)|)
    {
      ghost var before := labels[..];
      var thrown;
      thrown, tpPicks, fnPicks := PickRandom(labels, id, pr.remainingTp, pr.remainingFn, pr.quota);
      if thrown.Some? {
        return Failure(thrown.value), tpPicks, fnPicks;
      }
      RandomFrame(before, id, split, ratio, pr, tpPicks, fnPicks);
      if SplitFits(before, id, split) {
        RandomStepCount(before, id, split, ratio, pr, tpPicks, fnPicks);
      }
      PreparedTargets(before, id, split, ratio, pr);
      var tpSize := pr.alreadyTp + pr.quota.tp;
      var realSize := |pr.currentSelected| + pr.quota.tp + pr.quota.fn;
      assert tpSize == TpTarget(pr.declared, ratio, |Elements(split.tp)|);
      assert realSize == tpSize + FnTarget(pr.declared, ratio, |Elements(split.tp)|, |Elements(split.fn)|);
      return Success(Step(pr.declared, realSize, RealizedRatio(tpSize, realSize), None)), tpPicks, fnPicks;
    }

    /** The sizes a CONNECTED step reports: the distinct nodes of the
        selection, and how many of them are TP nodes. */
    method SelectionSizes(tpNodes: seq<int>, selection: seq<int>) returns (tpRealSize: nat, realSize: nat)
      ensures realSize == |Elements(selection)|
      ensures tpRealSize == |Elements(tpNodes) * Elements(selection)|
      ensures tpRealSize <= realSize
    {
      var selected := new Community(selection);
      var tp := new Community(tpNodes);
      var common, walked := tp.Intersect(selected);
      tpRealSize := common.Size();
      realSize := selected.Size();
      SubsetSize(common.nodes, selected.nodes);
      FirstSeenCardinality(selection);
      DistinctCardinality(common.nodes);
    }

    /** The CONNECTED branch: the BFS grows the seed from the nodes already
        picked, resuming from the previous seed size's queue when there are
        any. `sel` is the BFS selection: exactly its nodes are labelled, the
        real size counts its distinct nodes and the ratio their TP share. */
    method PickConnected(graph: Graph, algorithmName: string, p: Parameters, labels: array<int>, id: int,
                         pr: Prepared) returns (r: Result<Step>, ghost sel: Selection)
      requires 0 <= id < |graph.groundTruthCommunities|
      modifies labels
      ensures r.Success? <==> |pr.currentSelected| == 0 || PreviousRecord(graph.data.name, algorithmName, p).Success?
      ensures r.Failure? ==> r.error.TypeError? && labels[..] == old(labels[..])
      ensures r.Success? ==>
                sel == rankedPartialCompositionalBFS(
                         pr.quota.tp, pr.quota.fn, graph.groundTruthCommunities[id].nodes, pr.tpNodes, pr.fnNodes,
                         if |pr.currentSelected| > 0 then PreviousRecord(graph.data.name, algorithmName, p).value.queueBFS
                         else None,
                         pr.currentSelected)
      ensures r.Success? ==> labels[..] == Relabel(old(labels[..]), Somes(sel.selected), id)
      ensures r.Success? ==>
                var realSize := |Elements(sel.selected)|;
                r.value == Step(pr.declared, realSize,
                                RealizedRatio(|Elements(pr.tpNodes) * Elements(sel.selected)|, realSize), Some(sel.queue))
      ensures r.Success? ==>
                r.value.declared == pr.declared && r.value.queue.Some? && r.value.realSize >= 0 &&
                (r.value.realSize == 0 ==> r.value.ratio == -1.0) &&
                (r.value.realSize > 0 ==> 0.0 <= r.value.ratio <= 1.0)
      ensures r.Success? ==> RelabelledTo(old(labels[..]), labels[..], Some(id))
    {
      sel := Selection([], []);
      var currentQueue: Option<seq<int>> := None;
      if |pr.currentSelected| > 0 {
        var previous := PreviousRecord(graph.data.name, algorithmName, p);
        if previous.Failure? {
          return Failure(previous.error), sel;
        }
        currentQueue := previous.value.queueBFS;
      }
      var gt := graph.groundTruthCommunities[id];
      var selection := rankedPartialCompositionalBFS(pr.quota.tp, pr.quota.fn, gt.nodes, pr.tpNodes, pr.fnNodes,
                                                     currentQueue, pr.currentSelected);
      sel := selection;
      LabelNodes(labels, Somes(selection.selected), id);
      var tpRealSize, realSize := SelectionSizes(pr.tpNodes, selection.selected);
      if realSize > 0 {
        RealizedRatioRange(tpRealSize, realSize);
      }
      return Success(Step(pr.declared, realSize, RealizedRatio(tpRealSize, realSize), Some(selection.queue))), sel;
    }

    /** What one pass for `seedCommunityId` reports when it does not throw:
        the id names a ground-truth community of at least 2 nodes (its size
        taken from `gtSizes`) with a
        recorded TP/FN split, the declared size is the clamped percentage;
        a RANDOM seed has exactly the TP and FN targets as its size and the
        FN share of that size as its ratio; a CONNECTED seed reports the
        BFS queue, and a ratio that is the sentinel -1 for an empty seed and
        a fraction otherwise. */
    ghost predicate StepFits(graph: Graph, algorithmName: string, p: Parameters, gtSizes: seq<int>,
                             seedCommunityId: Option<int>, step: Step)
      reads this`baseline
    {
      seedCommunityId.Some? && 0 <= seedCommunityId.value < |gtSizes| &&
      var id := seedCommunityId.value;
      var gtSize := gtSizes[id];
      gtSize >= 2 && SplitFor(graph.data.name, algorithmName, id).Success? &&
      step.declared == DeclaredSeedSize(gtSize, p.seedSize).value &&
      (p.seedStructure == RANDOM_STRUCTURE ==>
         var split := SplitFor(graph.data.name, algorithmName, id).value;
         var tpTarget := TpTarget(step.declared, p.compositionRatio, |Elements(split.tp)|);
         step.realSize == tpTarget + FnTarget(step.declared, p.compositionRatio, |Elements(split.tp)|, |Elements(split.fn)|) &&
         step.ratio == RealizedRatio(tpTarget, step.realSize) && step.queue.None?) &&
      (p.seedStructure == CONNECTED_STRUCTURE ==>
         step.queue.Some? && step.realSize >= 0 &&
         (step.realSize == 0 ==> step.ratio == -1.0) && (step.realSize > 0 ==> 0.0 <= step.ratio <= 1.0))
    }

    /** The split recorded for community `id` exists and fits `labels`. */
    ghost predicate FitsSplit(graph: Graph, algorithmName: string, labels: seq<int>, id: int)
      reads this`baseline
    {
      SplitFor(graph.data.name, algorithmName, id).Success? &&
      SplitFits(labels, id, SplitFor(graph.data.name, algorithmName, id).value)
    }

    /** The seed of community `id` in `labels` holds exactly the realized
        size of `step`, and the TP target of its split lies among them. */
    ghost predicate SeedSized(graph: Graph, algorithmName: string, p: Parameters, labels: seq<int>, id: int, step: Step)
      reads this`baseline
    {
      SplitFor(graph.data.name, algorithmName, id).Success? &&
      var tp := Elements(SplitFor(graph.data.name, algorithmName, id).value.tp);
      |Members(labels, id)| == step.realSize &&
      |tp * Members(labels, id)| == TpTarget(step.declared, p.compositionRatio, |tp|)
    }

    /** Every reported step of either structure is sized within bounds:
        the declared size is between 2 and the ground-truth size, a RANDOM
        seed is never larger than declared, and the ratio is the sentinel
        -1 exactly for an empty seed, a fraction in [0, 1] otherwise. */
    lemma StepBounds(graph: Graph, algorithmName: string, p: Parameters, seedCommunityId: Option<int>, step: Step)
      requires StepFits(graph, algorithmName, p, SizesOf(graph.groundTruthCommunities), seedCommunityId, step)
      requires p.seedStructure == RANDOM_STRUCTURE || p.seedStructure == CONNECTED_STRUCTURE
      requires 0 <= p.compositionRatio <= 100
      ensures 2 <= step.declared <= |graph.groundTruthCommunities[seedCommunityId.value].nodes|
      ensures p.seedStructure == RANDOM_STRUCTURE ==> 0 <= step.realSize <= step.declared
      ensures step.realSize == 0 ==> step.ratio == -1.0
      ensures step.realSize > 0 ==> 0.0 <= step.ratio <= 1.0
    {
      if p.seedStructure == RANDOM_STRUCTURE {
        var split := SplitFor(graph.data.name, algorithmName, seedCommunityId.value).value;
        var tpSize, fnSize := |Elements(split.tp)|, |Elements(split.fn)|;
        TargetBounds(step.declared, p.compositionRatio, tpSize, fnSize);
        if step.realSize > 0 {
          RealizedRatioRange(TpTarget(step.declared, p.compositionRatio, tpSize), step.realSize);
        }
      }
    }

    /** One pass of the loop over the chosen ground-truth communities. */
    method SeedCommunity(graph: Graph, algorithmName: string, p: Parameters, labels: array<int>,
                         seedCommunityId: Option<int>, ghost groups: seq<set<int>>, ghost sound: bool)
      returns (r: Result<Step>)
      requires RandomInRange()
      requires sound ==> PairwiseDisjoint(groups) && SplitsPartition(graph, algorithmName, groups)
      modifies this`drawn, labels
      ensures seedCommunityId.None? || !(0 <= seedCommunityId.value < |graph.groundTruthCommunities|) ==>
                r.Failure? && r.error.TypeError?
      ensures p.seedStructure != RANDOM_STRUCTURE && p.seedStructure != CONNECTED_STRUCTURE ==> r.Failure?
      ensures r.Success? ==> StepFits(graph, algorithmName, p, SizesOf(graph.groundTruthCommunities), seedCommunityId, r.value)
      ensures r.Failure? ==> labels[..] == old(labels[..])
      ensures RelabelledTo(old(labels[..]), labels[..], seedCommunityId)
      ensures p.seedStructure == RANDOM_STRUCTURE && r.Success? ==>
                DrawnFromSplit(old(labels[..]), labels[..], seedCommunityId.value,
                               SplitFor(graph.data.name, algorithmName, seedCommunityId.value).value)
      ensures sound && p.seedStructure == RANDOM_STRUCTURE && Consistent(old(labels[..]), groups) ==>
                Consistent(labels[..], groups) && Preserved(old(labels[..]), labels[..])
      ensures sound && p.seedStructure == RANDOM_STRUCTURE && r.Success? &&
              Consistent(old(labels[..]), groups) && Inside(groups, labels.Length) ==>
                SeedSized(graph, algorithmName, p, labels[..], seedCommunityId.value, r.value)
    {
      if seedCommunityId.None? || !(0 <= seedCommunityId.value < |graph.groundTruthCommunities|) {
        return Failure(TypeError("Cannot read properties of undefined (reading 'size')"));
      }
      var id := seedCommunityId.value;
      ghost var before := labels[..];
      var prepared := Prepare(graph, algorithmName, p, labels[..], id);
      if prepared.Failure? {
        return Failure(prepared.error);
      }
      assert labels[..] == before;
      r := SeedPrepared(graph, algorithmName, p, labels, id, prepared.value, groups, sound);
    }

    /** The structure branch of one pass, once the sizes of community `id`
        are prepared: RANDOM draws from what is left of the TP and FN pools,
        CONNECTED grows the seed by the BFS, and any other structure throws. */
    method SeedPrepared(graph: Graph, algorithmName: string, p: Parameters, labels: array<int>, id: int,
                        pr: Prepared, ghost groups: seq<set<int>>, ghost sound: bool) returns (r: Result<Step>)
      requires RandomInRange()
      requires 0 <= id < |graph.groundTruthCommunities| && |graph.groundTruthCommunities[id].nodes| >= 2
      requires SplitFor(graph.data.name, algorithmName, id).Success?
      requires pr.declared == DeclaredSeedSize(|graph.groundTruthCommunities[id].nodes|, p.seedSize).value
      requires PreparedFrom(pr, labels[..], id, SplitFor(graph.data.name, algorithmName, id).value, p.compositionRatio)
      requires sound ==> PairwiseDisjoint(groups) && SplitsPartition(graph, algorithmName, groups)
      modifies this`drawn, labels
      ensures p.seedStructure != RANDOM_STRUCTURE && p.seedStructure != CONNECTED_STRUCTURE ==> r.Failure?
      ensures r.Success? ==> StepFits(graph, algorithmName, p, SizesOf(graph.groundTruthCommunities), Some(id), r.value)
      ensures r.Failure? ==> labels[..] == old(labels[..])
      ensures RelabelledTo(old(labels[..]), labels[..], Some(id))
      ensures p.seedStructure == RANDOM_STRUCTURE && r.Success? ==>
                DrawnFromSplit(old(labels[..]), labels[..], id, SplitFor(graph.data.name, algorithmName, id).value)
      ensures sound && p.seedStructure == RANDOM_STRUCTURE && Consistent(old(labels[..]), groups) ==>
                Consistent(labels[..], groups) && Preserved(old(labels[..]), labels[..])
      ensures sound && p.seedStructure == RANDOM_STRUCTURE && r.Success? &&
              Consistent(old(labels[..]), groups) && Inside(groups, labels.Length) ==>
                SeedSized(graph, algorithmName, p, labels[..], id, r.value)
    {
      ghost var before := labels[..];
      if p.seedStructure == RANDOM_STRUCTURE {
        ghost var tpPicks, fnPicks;
        r, tpPicks, fnPicks := SeedRandom(labels, id, pr, SplitFor(graph.data.name, algorithmName, id).value, p.compositionRatio);
        if sound && Consistent(before, groups) && r.Success? {
          RandomPassFacts(graph, algorithmName, p, groups, id, r.value, before, labels[..]);
        }
      } else if p.seedStructure == CONNECTED_STRUCTURE {
        ghost var sel;
        r, sel := PickConnected(graph, algorithmName, p, labels, id, pr);
      } else {
        return Failure(Error("UNKNOWN SEED STRUCTURE PARAMETER"));
      }
    }

    /** The loop of `seedMembershipFactory` over the chosen ground-truth
        communities: one step per id, in order, ending at the first throw.
        Only the chosen ids are written into the labelling. With RANDOM
        seeds, pairwise disjoint ground-truth communities `groups` and a
        recorded baseline of the counterpart algorithm, a labelling whose
        seed labels all name a community holding the node stays so, and no
        seed label is overwritten. */
    method SeedAll(graph: Graph, algorithmName: string, p: Parameters, labels: array<int>, ids: seq<Option<int>>,
                   ghost groups: seq<set<int>>, ghost sound: bool) returns (r: Result<seq<Step>>)
      requires RandomInRange()
      requires sound ==> PairwiseDisjoint(groups) && BaselineHolds(baseline, graph, groups, Counterpart(algorithmName))
      modifies this`drawn, labels
      ensures r.Success? ==>
                |r.value| == |ids| && forall k :: 0 <= k < |ids| ==> StepFits(graph, algorithmName, p, SizesOf(graph.groundTruthCommunities), ids[k], r.value[k])
      ensures RelabelledAmong(old(labels[..]), labels[..], ids)
      ensures sound && p.seedStructure == RANDOM_STRUCTURE && Consistent(old(labels[..]), groups) ==>
                Consistent(labels[..], groups) && Preserved(old(labels[..]), labels[..])
      ensures r.Success? && sound && p.seedStructure == RANDOM_STRUCTURE && Consistent(old(labels[..]), groups) &&
              Inside(groups, labels.Length) && DistinctIds(ids) ==>
                forall k :: 0 <= k < |ids| ==>
                  ids[k].Some? && SeedSized(graph, algorithmName, p, labels[..], ids[k].value, r.value[k])
    {
      ghost var keeps := sound && p.seedStructure == RANDOM_STRUCTURE && Consistent(labels[..], groups);
      ghost var sizes := keeps && Inside(groups, labels.Length) && DistinctIds(ids);
      if sound {
        BaselineSplits(graph, algorithmName, groups);
      }
      ghost var gtSizes := SizesOf(graph.groundTruthCommunities);
      var steps: seq<Step> := [];
      for i := 0 to |ids|
        invariant sound ==> SplitsPartition(graph, algorithmName, groups)
        invariant |steps| == i
        invariant SizesOf(graph.groundTruthCommunities) == gtSizes
        invariant forall k :: 0 <= k < i ==> StepFits(graph, algorithmName, p, gtSizes, ids[k], steps[k])
        invariant RelabelledAmong(old(labels[..]), labels[..], ids[..i])
        invariant keeps ==> Consistent(labels[..], groups) && Preserved(old(labels[..]), labels[..])
        invariant sizes ==> SeedsSized(graph, algorithmName, p, labels[..], ids, steps)
      {
        ghost var before := labels[..];
        var step := SeedCommunity(graph, algorithmName, p, labels, ids[i], groups, sound);
        RelabelledAmongStep(old(labels[..]), before, labels[..], ids, i);
        if keeps {
          PreservedTransitive(old(labels[..]), before, labels[..]);
        }
        if step.Failure? {
          return Failure(step.error);
        }
        if sizes {
          SizesStep(graph, algorithmName, p, before, labels[..], ids, steps, step.value);
        }
        steps := steps + [step.value];
      }
      assert ids[..|ids|] == ids;
      return Success(steps);
    }

    /** What a successful RANDOM pass for `id` gives the loop: the labelling
        stays consistent with the ground-truth communities, no seed label is
        overwritten, and the seed of `id` has the reported size. */
    lemma RandomPassFacts(graph: Graph, algorithmName: string, p: Parameters, groups: seq<set<int>>, id: int,
                          step: Step, before: seq<int>, after: seq<int>)
      requires PairwiseDisjoint(groups) && SplitsPartition(graph, algorithmName, groups)
      requires Consistent(before, groups) && RelabelledTo(before, after, Some(id))
      requires SplitFor(graph.data.name, algorithmName, id).Success?
      requires DrawnFromSplit(before, after, id, SplitFor(graph.data.name, algorithmName, id).value)
      requires SplitFits(before, id, SplitFor(graph.data.name, algorithmName, id).value) ==>
                 var tp := Elements(SplitFor(graph.data.name, algorithmName, id).value.tp);
                 |Members(after, id)| == step.realSize &&
                 |tp * Members(after, id)| == TpTarget(step.declared, p.compositionRatio, |tp|)
      ensures Consistent(after, groups) && Preserved(before, after)
      ensures Inside(groups, |before|) ==> SeedSized(graph, algorithmName, p, after, id, step)
    {
      KeepSeeds(graph, algorithmName, groups, id, before, after);
      if Inside(groups, |before|) {
        SplitFitsLabels(graph, algorithmName, groups, before, id);
      }
    }

    /** Every split recorded for the counterpart algorithm partitions the
        ground-truth community it belongs to. */
    ghost predicate SplitsPartition(graph: Graph, algorithmName: string, groups: seq<set<int>>)
      reads this`baseline
    {
      graph.data.name in baseline && Counterpart(algorithmName) in baseline[graph.data.name] &&
      var splits := baseline[graph.data.name][Counterpart(algorithmName)].maxTpCommunities;
      |splits| == |groups| &&
      forall id :: 0 <= id < |splits| ==>
        Elements(splits[id].tp) !! Elements(splits[id].fn) && Elements(splits[id].tp) + Elements(splits[id].fn) == groups[id]
    }

    /** A recorded baseline splits each ground-truth community into its
        overlap with the best-matching detected community and the rest. */
    lemma BaselineSplits(graph: Graph, algorithmName: string, groups: seq<set<int>>)
      requires BaselineHolds(baseline, graph, groups, Counterpart(algorithmName))
      ensures SplitsPartition(graph, algorithmName, groups)
    {
      var entry := baseline[graph.data.name][Counterpart(algorithmName)];
      forall id | 0 <= id < |entry.maxTpCommunities|
        ensures Elements(entry.maxTpCommunities[id].tp) !! Elements(entry.maxTpCommunities[id].fn)
        ensures Elements(entry.maxTpCommunities[id].tp) + Elements(entry.maxTpCommunities[id].fn) == groups[id]
      {
        SplitPartitions(groups[id], Sets(entry.communities), entry.maxTpCommunities[id]);
      }
    }

    /** One RANDOM pass keeps the labelling consistent with the
        ground-truth communities and removes no seed label. */
    lemma KeepSeeds(graph: Graph, algorithmName: string, groups: seq<set<int>>, id: int, before: seq<int>, after: seq<int>)
      requires Consistent(before, groups) && PairwiseDisjoint(groups) && SplitsPartition(graph, algorithmName, groups)
      requires RelabelledTo(before, after, Some(id)) && SplitFor(graph.data.name, algorithmName, id).Success?
      requires DrawnFromSplit(before, after, id, SplitFor(graph.data.name, algorithmName, id).value)
      ensures Consistent(after, groups) && Preserved(before, after)
    {
      assert SplitFor(graph.data.name, algorithmName, id).value ==
             baseline[graph.data.name][Counterpart(algorithmName)].maxTpCommunities[id];
      LabellingKeepsSeeds(before, after, groups, id);
    }

    /** When the recorded splits partition the ground-truth communities, the
        split of a community fits every labelling that is consistent with the
        communities and holds all their nodes. */
    lemma SplitFitsLabels(graph: Graph, algorithmName: string, groups: seq<set<int>>, labels: seq<int>, id: int)
      requires Consistent(labels, groups) && Inside(groups, |labels|)
      requires SplitsPartition(graph, algorithmName, groups)
      requires SplitFor(graph.data.name, algorithmName, id).Success?
      ensures FitsSplit(graph, algorithmName, labels, id)
    {
      assert SplitFor(graph.data.name, algorithmName, id).value ==
             baseline[graph.data.name][Counterpart(algorithmName)].maxTpCommunities[id];
      forall v | v in Members(labels, id) ensures v in groups[id] {
      }
    }

    /** Each community seeded so far holds the size its step reports. */
    ghost predicate SeedsSized(graph: Graph, algorithmName: string, p: Parameters, labels: seq<int>,
                               ids: seq<Option<int>>, steps: seq<Step>)
      reads this`baseline
    {
      |steps| <= |ids| &&
      forall k :: 0 <= k < |steps| ==>
        ids[k].Some? && ids[k].value >= 0 && SeedSized(graph, algorithmName, p, labels, ids[k].value, steps[k])
    }

    /** A step for the next id that overwrites no seed label leaves the
        seeds of the earlier, different ids as they were. */
    lemma SizesStep(graph: Graph, algorithmName: string, p: Parameters, before: seq<int>, after: seq<int>,
                    ids: seq<Option<int>>, steps: seq<Step>, step: Step)
      requires Preserved(before, after) && DistinctIds(ids) && |steps| < |ids|
      requires RelabelledTo(before, after, ids[|steps|]) && SeedsSized(graph, algorithmName, p, before, ids, steps)
      requires ids[|steps|].Some? && ids[|steps|].value >= 0
      requires SeedSized(graph, algorithmName, p, after, ids[|steps|].value, step)
      ensures SeedsSized(graph, algorithmName, p, after, ids, steps + [step])
    {
      var i := |steps|;
      forall k | 0 <= k < i ensures SeedSized(graph, algorithmName, p, after, ids[k].value, steps[k]) {
        assert ids[k] != ids[i];
        OthersKept(before, after, ids[i].value, ids[k].value);
      }
    }

    /** `seedMembershipFactory(graph, algorithmName, parameters)`: start from
        the previous seed size's labelling (or an unseeded one), choose the
        ground-truth communities (those already seeded, or `seedCount` drawn
        at random), run one pass per chosen community and report the
        labelling, the three per-community lists and the last BFS queue.
        `start` is the labelling it starts from, `ids` the chosen
        communities and `steps` what each pass reported. */
    method SeedMembershipFactory(graph: Graph, algorithmName: string, p: Parameters, ghost groups: seq<set<int>>,
                                 ghost sound: bool)
      returns (r: Result<SeedOutcome>, ghost start: seq<int>, ghost ids: seq<Option<int>>, ghost steps: seq<Step>)
      requires RandomInRange() && groups == NodeSets(graph.groundTruthCommunities)
      requires sound ==> PairwiseDisjoint(groups) && BaselineHolds(baseline, graph, groups, Counterpart(algorithmName))
      modifies this`drawn
      ensures r.Success? ==>
                (p.prevSeedSize.None? ==> graph.data.n >= 0) &&
                (p.prevSeedSize.Some? ==> old(PreviousRecord(graph.data.name, algorithmName, p)).Success?) &&
                start == if p.prevSeedSize.None? then seq(graph.data.n, _ => -1)
                         else old(PreviousRecord(graph.data.name, algorithmName, p)).value.seedMembership
      ensures r.Success? ==>
                |r.value.seedMembership| == |start| &&
                forall v :: 0 <= v < |start| && r.value.seedMembership[v] != start[v] ==>
                  Some(r.value.seedMembership[v]) in ids
      ensures r.Success? && SeedIdsUpTo(start, |start|) != [] ==> ids == Somes(SeedIdsUpTo(start, |start|))
      ensures r.Success? && SeedIdsUpTo(start, |start|) == [] ==>
                |ids| == p.seedCount &&
                (forall i :: 0 <= i < |ids| ==> (ids[i].Some? <==> i < |graph.groundTruthCommunities|)) &&
                forall i :: 0 <= i < |ids| && ids[i].Some? ==> 0 <= ids[i].value < |graph.groundTruthCommunities|
      ensures r.Success? ==> DistinctIds(ids)
      ensures r.Success? ==>
                var o := r.value;
                |steps| == |ids| && |o.declaredSeedCommunitySizes| == |ids| &&
                |o.realSeedCommunitySizes| == |ids| && |o.realSeedCommunityCompositionRatio| == |ids| &&
                (forall k :: 0 <= k < |ids| ==>
                   StepFits(graph, algorithmName, p, SizesOf(graph.groundTruthCommunities), ids[k], steps[k]) &&
                   o.declaredSeedCommunitySizes[k] == steps[k].declared &&
                   o.realSeedCommunitySizes[k] == steps[k].realSize &&
                   o.realSeedCommunityCompositionRatio[k] == steps[k].ratio) &&
                o.queueBFS == LastQueue(steps)
      ensures r.Success? && sound && p.seedStructure == RANDOM_STRUCTURE && Consistent(start, groups) ==>
                Consistent(r.value.seedMembership, groups) && Preserved(start, r.value.seedMembership)
      ensures r.Success? && sound && p.seedStructure == RANDOM_STRUCTURE && Consistent(start, groups) &&
              Inside(groups, |start|) ==>
                forall k :: 0 <= k < |ids| ==>
                  ids[k].Some? && SeedSized(graph, algorithmName, p, r.value.seedMembership, ids[k].value, steps[k])
    {
      start, ids, steps := [], [], [];
      var initial := InitialLabels(graph, algorithmName, p);
      if initial.Failure? {
        return Failure(initial.error), start, ids, steps;
      }
      var labels := initial.value;
      start := labels[..];
      r, ids, steps := SeedLabels(graph, algorithmName, p, labels, start, groups, sound);
    }

    /** The seeding half of `seedMembershipFactory`, from the starting
        labelling on: choose the ground-truth communities, run one pass per
        chosen community on `labels` and report the outcome. */
    method SeedLabels(graph: Graph, algorithmName: string, p: Parameters, labels: array<int>, ghost start: seq<int>,
                      ghost groups: seq<set<int>>, ghost sound: bool)
      returns (r: Result<SeedOutcome>, ghost ids: seq<Option<int>>, ghost steps: seq<Step>)
      requires RandomInRange() && labels[..] == start
      requires sound ==> PairwiseDisjoint(groups) && BaselineHolds(baseline, graph, groups, Counterpart(algorithmName))
      modifies this`drawn, labels
      ensures r.Success? ==>
                |r.value.seedMembership| == |start| &&
                forall v :: 0 <= v < |start| && r.value.seedMembership[v] != start[v] ==>
                  Some(r.value.seedMembership[v]) in ids
      ensures r.Success? && SeedIdsUpTo(start, |start|) != [] ==> ids == Somes(SeedIdsUpTo(start, |start|))
      ensures r.Success? && SeedIdsUpTo(start, |start|) == [] ==>
                |ids| == p.seedCount &&
                (forall i :: 0 <= i < |ids| ==> (ids[i].Some? <==> i < |graph.groundTruthCommunities|)) &&
                forall i :: 0 <= i < |ids| && ids[i].Some? ==> 0 <= ids[i].value < |graph.groundTruthCommunities|
      ensures r.Success? ==> DistinctIds(ids)
      ensures r.Success? ==>
                var o := r.value;
                |steps| == |ids| && |o.declaredSeedCommunitySizes| == |ids| &&
                |o.realSeedCommunitySizes| == |ids| && |o.realSeedCommunityCompositionRatio| == |ids| &&
                (forall k :: 0 <= k < |ids| ==>
                   StepFits(graph, algorithmName, p, SizesOf(graph.groundTruthCommunities), ids[k], steps[k]) &&
                   o.declaredSeedCommunitySizes[k] == steps[k].declared &&
                   o.realSeedCommunitySizes[k] == steps[k].realSize &&
                   o.realSeedCommunityCompositionRatio[k] == steps[k].ratio) &&
                o.queueBFS == LastQueue(steps)
      ensures r.Success? && sound && p.seedStructure == RANDOM_STRUCTURE && Consistent(start, groups) ==>
                Consistent(r.value.seedMembership, groups) && Preserved(start, r.value.seedMembership)
      ensures r.Success? && sound && p.seedStructure == RANDOM_STRUCTURE && Consistent(start, groups) &&
              Inside(groups, |start|) ==>
                forall k :: 0 <= k < |ids| ==>
                  ids[k].Some? && SeedSized(graph, algorithmName, p, r.value.seedMembership, ids[k].value, steps[k])
    {
      ids, steps := [], [];
      var chosen := SeedIds(graph, p.seedCount, labels[..]);
      if chosen.Failure? {
        return Failure(chosen.error), ids, steps;
      }
      var gtsIds := chosen.value;
      ids := gtsIds;
      var passes := SeedAll(graph, algorithmName, p, labels, gtsIds, groups, sound);
      if passes.Failure? {
        return Failure(passes.error), ids, steps;
      }
      var reported := passes.value;
      steps := reported;
      r := Success(OutcomeOf(labels[..], reported));
    }

    /** Run the seeded algorithm on the seed labelling of `o`, score it
        against the ground truth, store the seed under its path in
        `this.result` and push the flat record with the next id. */
    method StoreRun(graph: Graph, p: Parameters, algorithmName: string, o: SeedOutcome)
      requires Valid()
      modifies this`result, this`flatResult
      ensures Valid()
      ensures result == old(result)[KeyOf(graph.data.name, p, algorithmName) := SeedRecord(o.seedMembership, o.queueBFS)]
      ensures |flatResult| == |old(flatResult)| + 1 && flatResult[..|old(flatResult)|] == old(flatResult)
      ensures var detection := runCommunityDetection(algorithmName, graph.data.n, graph.data.edges, Some(o.seedMembership));
              FlatOf(flatResult[|old(flatResult)|], graph.data.name, algorithmName, p, o, detection,
                     compareCommunitiesNMI(graph.groundTruthMembership, detection.membership))
    {
      var detection := runCommunityDetection(algorithmName, graph.data.n, graph.data.edges, Some(o.seedMembership));
      var nmi := compareCommunitiesNMI(graph.groundTruthMembership, detection.membership);
      var maxValue := GetMaxValue(detection.membership);
      var communitiesCount := Succ(maxValue);
      result := result[KeyOf(graph.data.name, p, algorithmName) := SeedRecord(o.seedMembership, o.queueBFS)];
      flatResult := flatResult + [FlatResult(|flatResult|, graph.data.name, algorithmName, p.seedCount,
                                             p.seedSize as real / 100.0, p.compositionRatio as real / 100.0,
                                             p.seedStructure, o.seedMembership, detection.membership,
                                             detection.modularity, nmi, communitiesCount,
                                             o.declaredSeedCommunitySizes, o.realSeedCommunitySizes,
                                             o.realSeedCommunityCompositionRatio)];
    }

    /** The body of the innermost loop of `runBenchmark`: seed the
        algorithm, run it on the seeded labelling, score it against the
        ground truth, store the seed under its path in `this.result` and
        push its flat record. */
    method RunAlgorithm(graph: Graph, p: Parameters, algorithmName: string, ghost groups: seq<set<int>>,
                        ghost sound: bool)
      returns (thrown: Option<Thrown>, ghost outcome: SeedOutcome)
      requires Valid() && groups == NodeSets(graph.groundTruthCommunities)
      requires sound ==> PairwiseDisjoint(groups) && BaselineHolds(baseline, graph, groups, Counterpart(algorithmName))
      modifies this`drawn, this`result, this`flatResult
      ensures Valid()
      ensures thrown.Some? ==> result == old(result) && flatResult == old(flatResult)
      ensures thrown.None? ==>
                result == old(result)[KeyOf(graph.data.name, p, algorithmName) :=
                                        SeedRecord(outcome.seedMembership, outcome.queueBFS)] &&
                |flatResult| == |old(flatResult)| + 1 && flatResult[..|old(flatResult)|] == old(flatResult) &&
                var detection := runCommunityDetection(algorithmName, graph.data.n, graph.data.edges,
                                                       Some(outcome.seedMembership));
                FlatOf(flatResult[|old(flatResult)|], graph.data.name, algorithmName, p, outcome, detection,
                       compareCommunitiesNMI(graph.groundTruthMembership, detection.membership))
      ensures thrown.None? && sound && p.seedStructure == RANDOM_STRUCTURE &&
              PrevConsistent(old(result), graph.data.name, p, algorithmName, groups) ==>
                SeedsGrow(old(result), result, graph.data.name, p, algorithmName, groups)
    {
      ghost var grown := sound && p.seedStructure == RANDOM_STRUCTURE &&
                         PrevConsistent(result, graph.data.name, p, algorithmName, groups);
      var seeded, start, ids, steps := SeedMembershipFactory(graph, algorithmName, p, groups, sound);
      if seeded.Failure? {
        return Some(seeded.error), SeedOutcome([], [], [], [], None);
      }
      var o := seeded.value;
      outcome := o;
      if grown {
        assert p.prevSeedSize.Some? ==> start == result[PrevKeyOf(graph.data.name, p, algorithmName)].seedMembership;
        StoredSeedsGrow(result, graph.data.name, p, algorithmName, groups, graph.data.n, start,
                        SeedRecord(o.seedMembership, o.queueBFS));
      }
      StoreRun(graph, p, algorithmName, o);
      return None, o;
    }

    /** The loop over the seeded algorithms for one set of parameters; each
        run advances the progress counter by one. */
    method RunAlgorithms(graph: Graph, p: Parameters, iterations: nat, ghost groups: seq<set<int>>, ghost sound: bool)
      returns (r: Result<nat>)
      requires Valid() && groups == NodeSets(graph.groundTruthCommunities)
      requires sound ==> PairwiseDisjoint(groups) &&
                         forall j :: 0 <= j < |MODIFIED_ALGORITHMS| ==>
                           BaselineHolds(baseline, graph, groups, Counterpart(MODIFIED_ALGORITHMS[j]))
      modifies this`drawn, this`result, this`flatResult
      ensures Valid()
      ensures r.Success? ==>
                r.value == iterations + |MODIFIED_ALGORITHMS| &&
                |flatResult| == |old(flatResult)| + |MODIFIED_ALGORITHMS| &&
                flatResult[..|old(flatResult)|] == old(flatResult) &&
                result.Keys == old(result).Keys + set a | a in MODIFIED_ALGORITHMS :: KeyOf(graph.data.name, p, a)
      ensures r.Success? ==>
                forall key :: key in old(result) && key.size != p.seedSize ==> result[key] == old(result)[key]
      ensures r.Success? && sound && p.seedStructure == RANDOM_STRUCTURE && p.prevSeedSize != Some(p.seedSize) ==>
                forall a :: a in MODIFIED_ALGORITHMS && PrevConsistent(old(result), graph.data.name, p, a, groups) ==>
                  SeedsGrow(old(result), result, graph.data.name, p, a, groups)
    {
      ghost var grows := sound && p.seedStructure == RANDOM_STRUCTURE && p.prevSeedSize != Some(p.seedSize);
      var count := iterations;
      for i := 0 to |MODIFIED_ALGORITHMS|
        invariant Valid() && count == iterations + i
        invariant |flatResult| == |old(flatResult)| + i && flatResult[..|old(flatResult)|] == old(flatResult)
        invariant result.Keys == old(result).Keys + set a | a in MODIFIED_ALGORITHMS[..i] :: KeyOf(graph.data.name, p, a)
        invariant forall key :: key in old(result) && key.size != p.seedSize ==> result[key] == old(result)[key]
        invariant grows ==>
                    forall a :: a in MODIFIED_ALGORITHMS[..i] && PrevConsistent(old(result), graph.data.name, p, a, groups) ==>
                      SeedsGrow(old(result), result, graph.data.name, p, a, groups)
      {
        ghost var before := result;
        var thrown, outcome := RunAlgorithm(graph, p, MODIFIED_ALGORITHMS[i], groups, grows);
        if thrown.Some? {
          return Failure(thrown.value);
        }
        AlgorithmsStep(old(result), before, result, graph.data.name, p, i,
                       SeedRecord(outcome.seedMembership, outcome.queueBFS), groups, grows);
        count := count + 1;
      }
      assert MODIFIED_ALGORITHMS[..|MODIFIED_ALGORITHMS|] == MODIFIED_ALGORITHMS;
      return Success(count);
    }

    /** One pass of the loop over the seed sizes: clear the level of seed
        size `i` in `this.result`, then run the seeded algorithms with the
        size before as the previous seed size. */
    method RunSize(graph: Graph, seedCount: int, structure: string, ratio: int, i: nat,
                   prevSeedSize: Option<int>, iterations: nat, ghost groups: seq<set<int>>, ghost sound: bool)
      returns (r: Result<nat>)
      requires Valid() && groups == NodeSets(graph.groundTruthCommunities)
      requires i < |SEED_SIZES| && prevSeedSize == SizeParameters(seedCount, structure, ratio, i).prevSeedSize
      requires sound ==> structure == RANDOM_STRUCTURE && PairwiseDisjoint(groups) &&
                         forall a :: a in MODIFIED_ALGORITHMS ==> BaselineHolds(baseline, graph, groups, Counterpart(a))
      modifies this`drawn, this`result, this`flatResult
      ensures Valid()
      ensures r.Success? ==>
                r.value == iterations + |MODIFIED_ALGORITHMS| &&
                |flatResult| == |old(flatResult)| + |MODIFIED_ALGORITHMS|
      ensures r.Success? && sound && SizesGrown(old(result), graph.data.name, seedCount, structure, ratio, i, groups) ==>
                SizesGrown(result, graph.data.name, seedCount, structure, ratio, i + 1, groups)
    {
      var size := SEED_SIZES[i];
      ghost var table := result;
      result := Reset(result, ResultKey(graph.data.name, seedCount, structure, ratio, size, ""), 5);
      ghost var reset := result;
      ghost var p := SizeParameters(seedCount, structure, ratio, i);
      SeedSizesIncrease();
      r := RunAlgorithms(graph, Parameters(seedCount, size, ratio, structure, prevSeedSize), iterations, groups, sound);
      if r.Success? && sound && SizesGrown(table, graph.data.name, seedCount, structure, ratio, i, groups) {
        SizesGrowStep(table, reset, result, graph.data.name, seedCount, structure, ratio, i, groups);
      }
    }

    /** The loop over the seed sizes, smallest first: each size clears its
        level of `this.result` and extends the seeds of the size before. */
    method RunSizes(graph: Graph, seedCount: int, structure: string, ratio: int, iterations: nat,
                    ghost groups: seq<set<int>>) returns (r: Result<nat>)
      requires Valid() && groups == NodeSets(graph.groundTruthCommunities)
      modifies this`drawn, this`result, this`flatResult
      ensures Valid()
      ensures r.Success? ==>
                r.value == iterations + |SEED_SIZES| * |MODIFIED_ALGORITHMS| &&
                |flatResult| == |old(flatResult)| + |SEED_SIZES| * |MODIFIED_ALGORITHMS|
      ensures r.Success? && structure == RANDOM_STRUCTURE && PairwiseDisjoint(groups) &&
              (forall a :: a in MODIFIED_ALGORITHMS ==> BaselineHolds(baseline, graph, groups, Counterpart(a))) ==>
                SizesGrown(result, graph.data.name, seedCount, structure, ratio, |SEED_SIZES|, groups)
    {
      ghost var sound := structure == RANDOM_STRUCTURE && PairwiseDisjoint(groups) &&
                         forall a :: a in MODIFIED_ALGORITHMS ==> BaselineHolds(baseline, graph, groups, Counterpart(a));
      var count := iterations;
      var prevSeedSize: Option<int> := None;
      for i := 0 to |SEED_SIZES|
        invariant Valid() && count == iterations + 3 * i && |flatResult| == |old(flatResult)| + 3 * i
        invariant i < |SEED_SIZES| ==> prevSeedSize == SizeParameters(seedCount, structure, ratio, i).prevSeedSize
        invariant sound ==> SizesGrown(result, graph.data.name, seedCount, structure, ratio, i, groups)
      {
        var step := RunSize(graph, seedCount, structure, ratio, i, prevSeedSize, count, groups, sound);
        if step.Failure? {
          return Failure(step.error);
        }
        count := step.value;
        prevSeedSize := Some(SEED_SIZES[i]);
      }
      return Success(count);
    }

    /** The loop over the composition ratios; each clears its level. */
    method RunRatios(graph: Graph, seedCount: int, structure: string, iterations: nat) returns (r: Result<nat>)
      requires Valid()
      modifies this`drawn, this`result, this`flatResult
      ensures Valid()
      ensures r.Success? ==>
                r.value == iterations + |COMPOSITION_RATIOS| * |SEED_SIZES| * |MODIFIED_ALGORITHMS| &&
                |flatResult| == |old(flatResult)| + |COMPOSITION_RATIOS| * |SEED_SIZES| * |MODIFIED_ALGORITHMS|
    {
      var count := iterations;
      for i := 0 to |COMPOSITION_RATIOS|
        invariant Valid() && count == iterations + 12 * i && |flatResult| == |old(flatResult)| + 12 * i
      {
        var ratio := COMPOSITION_RATIOS[i];
        result := Reset(result, ResultKey(graph.data.name, seedCount, structure, ratio, 0, ""), 4);
        var step := RunSizes(graph, seedCount, structure, ratio, count, NodeSets(graph.groundTruthCommunities));
        if step.Failure? {
          return Failure(step.error);
        }
        count := step.value;
      }
      return Success(count);
    }

    /** The loop over the seed structures; each clears its level. */
    method RunStructures(graph: Graph, seedCount: int, iterations: nat) returns (r: Result<nat>)
      requires Valid()
      modifies this`drawn, this`result, this`flatResult
      ensures Valid()
      ensures r.Success? ==>
                r.value == iterations + StubProduct(PARAMETERS_STUB_SHAPE) * |MODIFIED_ALGORITHMS| &&
                |flatResult| == |old(flatResult)| + StubProduct(PARAMETERS_STUB_SHAPE) * |MODIFIED_ALGORITHMS|
    {
      StubProductOfBenchmark(|SEED_SIZES|, |COMPOSITION_RATIOS|, |SEED_STRUCTURES|);
      var count := iterations;
      for i := 0 to |SEED_STRUCTURES|
        invariant Valid() && count == iterations + 60 * i && |flatResult| == |old(flatResult)| + 60 * i
      {
        var structure := SEED_STRUCTURES[i];
        result := Reset(result, ResultKey(graph.data.name, seedCount, structure, 0, 0, ""), 3);
        var step := RunRatios(graph, seedCount, structure, count);
        if step.Failure? {
          return Failure(step.error);
        }
        count := step.value;
      }
      return Success(count);
    }

    /** The loop over the seed counts `1 .. communities`; each clears its
        level. */
    method RunCounts(graph: Graph, iterations: nat) returns (r: Result<nat>)
      requires Valid()
      modifies this`drawn, this`result, this`flatResult
      ensures Valid()
      ensures r.Success? ==>
                r.value == iterations + StubProduct(PARAMETERS_STUB_SHAPE) * |MODIFIED_ALGORITHMS| * graph.data.communities &&
                |flatResult| == |old(flatResult)| + StubProduct(PARAMETERS_STUB_SHAPE) * |MODIFIED_ALGORITHMS| * graph.data.communities
    {
      StubProductOfBenchmark(|SEED_SIZES|, |COMPOSITION_RATIOS|, |SEED_STRUCTURES|);
      var count := iterations;
      for seedCount := 1 to graph.data.communities + 1
        invariant Valid() && count == iterations + 120 * (seedCount - 1)
        invariant |flatResult| == |old(flatResult)| + 120 * (seedCount - 1)
      {
        result := Reset(result, ResultKey(graph.data.name, seedCount, "", 0, 0, ""), 2);
        var step := RunStructures(graph, seedCount, count);
        if step.Failure? {
          return Failure(step.error);
        }
        count := step.value;
      }
      return Success(count);
    }

    /** One pass of the loop over the graphs: build the graph, record its
        baseline, clear its results and sweep every parameter. */
    method RunGraph(data: GraphData, iterations: nat) returns (r: Result<nat>)
      requires Valid()
      modifies this`drawn, this`baseline, this`flatBaseline, this`result, this`flatResult
      ensures Valid()
      ensures r.Success? ==>
                r.value == iterations + StubProduct(PARAMETERS_STUB_SHAPE) * |MODIFIED_ALGORITHMS| * data.communities &&
                |flatResult| == |old(flatResult)| + StubProduct(PARAMETERS_STUB_SHAPE) * |MODIFIED_ALGORITHMS| * data.communities
    {
      var graph := new Graph(data);
      var thrown := CalculateBaseline(graph);
      if thrown.Some? {
        return Failure(thrown.value);
      }
      result := Reset(result, ResultKey(data.name, 0, "", 0, 0, ""), 1);
      r := RunCounts(graph, iterations);
    }

    /** `runBenchmark()`: the progress bar is sized to `steps`, and when no
        run throws the counter ends exactly there, with one flat record per
        step. */
    method RunBenchmark() returns (r: Result<nat>, steps: nat)
      requires Valid()
      modifies this`drawn, this`baseline, this`flatBaseline, this`result, this`flatResult
      ensures Valid()
      ensures steps == 120 * Sum(CommunityCounts(graphs))
      ensures r.Success? ==> r.value == steps && |flatResult| == |old(flatResult)| + steps
    {
      steps := Steps(graphs);
      StepsClosedForm(graphs);
      StubProductOfBenchmark(|SEED_SIZES|, |COMPOSITION_RATIOS|, |SEED_STRUCTURES|);
      var counts := CommunityCounts(graphs);
      var iterations := 0;
      for i := 0 to |graphs|
        invariant Valid()
        invariant iterations == TotalSteps(counts[..i], 120) && |flatResult| == |old(flatResult)| + iterations
      {
        var step := RunGraph(graphs[i], iterations);
        if step.Failure? {
          return Failure(step.error), steps;
        }
        assert counts[..i + 1][..i] == counts[..i];
        iterations := step.value;
      }
      assert counts[..|graphs|] == counts;
      return Success(iterations), steps;
    }
  }

  /** What `seedMembershipFactory` returns for the final labelling and the
      passes' reports: the three per-community lists in pass order and the
      last queue. */
  function OutcomeOf(labels: seq<int>, steps: seq<Step>): (o: SeedOutcome)
    ensures o.seedMembership == labels && o.queueBFS == LastQueue(steps)
    ensures |o.declaredSeedCommunitySizes| == |steps| && |o.realSeedCommunitySizes| == |steps| &&
            |o.realSeedCommunityCompositionRatio| == |steps|
    ensures forall k :: 0 <= k < |steps| ==>
              o.declaredSeedCommunitySizes[k] == steps[k].declared &&
              o.realSeedCommunitySizes[k] == steps[k].realSize &&
              o.realSeedCommunityCompositionRatio[k] == steps[k].ratio
  {
    SeedOutcome(labels,
                seq(|steps|, k requires 0 <= k < |steps| => steps[k].declared),
                seq(|steps|, k requires 0 <= k < |steps| => steps[k].realSize),
                seq(|steps|, k requires 0 <= k < |steps| => steps[k].ratio),
                LastQueue(steps))
  }

  /** The queue `seedMembershipFactory` returns: the one the last CONNECTED
      pass left, none when no pass reported one. */
  function LastQueue(steps: seq<Step>): Option<seq<int>> {
    if steps == [] then None
    else if steps[|steps| - 1].queue.Some? then steps[|steps| - 1].queue
    else LastQueue(steps[..|steps| - 1])
  }

  /** The queue returned is set by some step and no later step sets one;
      there is none only when no step set one. */
  lemma {:induction false} LastQueueIsLast(steps: seq<Step>)
    ensures LastQueue(steps).None? <==> forall k :: 0 <= k < |steps| ==> steps[k].queue.None?
    ensures LastQueue(steps).Some? ==>
              exists k :: 0 <= k < |steps| && steps[k].queue == LastQueue(steps) &&
                forall j :: k < j < |steps| ==> steps[j].queue.None?
    decreases |steps|
  {
    if steps != [] && steps[|steps| - 1].queue.None? {
      var init := steps[..|steps| - 1];
      LastQueueIsLast(init);
      assert forall k :: 0 <= k < |init| ==> init[k] == steps[k];
      if LastQueue(init).Some? {
        var k :| 0 <= k < |init| && init[k].queue == LastQueue(init) &&
                 forall j :: k < j < |init| ==> init[j].queue.None?;
        assert steps[k].queue == LastQueue(steps);
      }
    }
  }

}
