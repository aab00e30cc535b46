/** Dataset normalisation (graphs/export.js): relabelling a membership to
    consecutive community ids, turning a directed edge list into an
    undirected one without loops or repeated edges, and assembling the graph
    record from parsed nodes and edges. */
module Export {
  import opened Wrappers
  import opened Sequences
  import opened Decimal
  import opened Graphs

  // ---------------------------------------------------------------------
  // reindexMembership

  /** The distinct non-negative labels among the first `k` entries, in the
      order of their first appearance. */
  function LabelsUpTo(membership: seq<int>, k: nat): (labels: seq<int>)
    requires k <= |membership|
    ensures NoDuplicates(labels)
    ensures forall l :: l in labels ==> l >= 0
    ensures forall j :: 0 <= j < k && membership[j] >= 0 ==> membership[j] in labels
  {
    if k == 0 then []
    else
      var labels := LabelsUpTo(membership, k - 1);
      var l := membership[k - 1];
      if l >= 0 && l !in labels then labels + [l] else labels
  }

  /** Every label met in the first `k` entries is one of them. */
  lemma {:induction false} LabelsUpToSeen(membership: seq<int>, k: nat)
    requires k <= |membership|
    ensures forall l :: l in LabelsUpTo(membership, k) ==> l in membership[..k]
  {
    if k > 0 {
      LabelsUpToSeen(membership, k - 1);
      assert membership[..k] == membership[..k - 1] + [membership[k - 1]];
    }
  }

  /** The distinct non-negative labels of the whole membership. */
  function Labels(membership: seq<int>): seq<int> {
    LabelsUpTo(membership, |membership|)
  }

  /** The label `reindexMembership` gives position `i`: -1 for a negative
      label, otherwise the rank of the label's first appearance. */
  function NewLabel(membership: seq<int>, i: nat): int
    requires i < |membership|
  {
    if membership[i] < 0 then -1
    else
      assert membership[i] in Labels(membership);
      IndexOf(Labels(membership), membership[i])
  }

  function Reindexed(membership: seq<int>): (r: seq<int>)
    ensures |r| == |membership|
  {
    seq(|membership|, i requires 0 <= i < |membership| => NewLabel(membership, i))
  }

  /** One more entry extends the labels by at most its own label. */
  lemma LabelsStep(membership: seq<int>, k: nat)
    requires 0 < k <= |membership|
    ensures |LabelsUpTo(membership, k - 1)| <= |LabelsUpTo(membership, k)|
    ensures LabelsUpTo(membership, k)[..|LabelsUpTo(membership, k - 1)|] == LabelsUpTo(membership, k - 1)
  {
    var b := LabelsUpTo(membership, k - 1);
    var l := membership[k - 1];
    if l >= 0 && l !in b {
      assert (b + [l])[..|b|] == b;
    } else {
      assert b[..|b|] == b;
    }
  }

  /** The labels met in a prefix are a prefix of all labels. */
  lemma {:induction false} LabelsPrefix(membership: seq<int>, k: nat, k': nat)
    requires k <= k' <= |membership|
    ensures |LabelsUpTo(membership, k)| <= |LabelsUpTo(membership, k')|
    ensures LabelsUpTo(membership, k) == LabelsUpTo(membership, k')[..|LabelsUpTo(membership, k)|]
    decreases k' - k
  {
    if k < k' {
      LabelsPrefix(membership, k, k' - 1);
      LabelsStep(membership, k');
      var a := LabelsUpTo(membership, k);
      var b := LabelsUpTo(membership, k' - 1);
      var c := LabelsUpTo(membership, k');
      assert c[..|a|] == c[..|b|][..|a|];
    } else {
      assert LabelsUpTo(membership, k)[..|LabelsUpTo(membership, k)|] == LabelsUpTo(membership, k);
    }
  }

  /** A label's position among the labels met up to and including index
      `i` is the id `reindexMembership` gives index `i`. */
  lemma NewLabelAt(membership: seq<int>, i: nat, idx: nat)
    requires i < |membership| && membership[i] >= 0
    requires idx < |LabelsUpTo(membership, i + 1)| && LabelsUpTo(membership, i + 1)[idx] == membership[i]
    ensures NewLabel(membership, i) == idx
  {
    var all, seen := Labels(membership), LabelsUpTo(membership, i + 1);
    LabelsPrefix(membership, i + 1, |membership|);
    assert all[idx] == seen[idx] == membership[i];
    assert NoDuplicates(all);
    var found := IndexOf(all, membership[i]);
    assert all[found] == membership[i];
  }

  /** `reindexMembership(membership)`. */
  method ReindexMembership(membership: seq<int>) returns (r: seq<int>)
    ensures r == Reindexed(membership)
  {
    var n := |membership|;
    var newSeedMembership := new int[n];
    var idxs: map<int, int> := map[];
    var actFreeId := 0;
    ghost var labels: seq<int> := [];
    ghost var target := Reindexed(membership);
    for i := 0 to n
      invariant labels == LabelsUpTo(membership, i) && actFreeId == |labels|
      invariant forall l :: l in idxs <==> l in labels
      invariant forall l :: l in idxs ==> 0 <= idxs[l] < |labels| && labels[idxs[l]] == l
      invariant forall j :: 0 <= j < i ==> newSeedMembership[j] == target[j]
    {
      var communityId := membership[i];
      assert target[i] == NewLabel(membership, i);
      ghost var prev := labels;
      labels := LabelsUpTo(membership, i + 1);
      if communityId < 0 {
        newSeedMembership[i] := -1;
      } else if communityId in idxs {
        assert labels == prev;
        NewLabelAt(membership, i, idxs[communityId]);
        newSeedMembership[i] := idxs[communityId];
      } else {
        assert labels == prev + [communityId];
        NewLabelAt(membership, i, actFreeId);
        idxs := idxs[communityId := actFreeId];
        newSeedMembership[i] := actFreeId;
        actFreeId := actFreeId + 1;
      }
    }
    r := newSeedMembership[..];
  }

  /** Negative labels become -1; the others become ids in [0, k), `k` being
      the number of distinct non-negative labels. */
  lemma ReindexedRange(membership: seq<int>, i: nat)
    requires i < |membership|
    ensures membership[i] < 0 ==> Reindexed(membership)[i] == -1
    ensures membership[i] >= 0 ==> 0 <= Reindexed(membership)[i] < |Labels(membership)|
    ensures |Labels(membership)| == |set l | l in membership && l >= 0|
  {
    var labels := Labels(membership);
    LabelsUpToSeen(membership, |membership|);
    assert membership[..|membership|] == membership;
    DistinctCardinality(labels);
    assert Elements(labels) == set l | l in membership && l >= 0 by {
      forall l | l in membership && l >= 0 ensures l in labels {
        var j :| 0 <= j < |membership| && membership[j] == l;
      }
    }
  }

  /** Two positions with non-negative labels share a new label exactly when
      they share the old one. */
  lemma ReindexedSameLabel(membership: seq<int>, i: nat, j: nat)
    requires i < |membership| && j < |membership|
    requires membership[i] >= 0 && membership[j] >= 0
    ensures Reindexed(membership)[i] == Reindexed(membership)[j] <==> membership[i] == membership[j]
  {
  }

  /** Ids are handed out in order of first appearance: a label seen for the
      first time at position `i` gets the number of distinct labels before
      it. */
  lemma ReindexedFirstAppearance(membership: seq<int>, i: nat)
    requires i < |membership| && membership[i] >= 0
    requires forall j :: 0 <= j < i ==> membership[j] != membership[i]
    ensures Reindexed(membership)[i] == |LabelsUpTo(membership, i)|
  {
    var before := LabelsUpTo(membership, i);
    LabelsPrefix(membership, i + 1, |membership|);
    LabelsUpToSeen(membership, i);
    assert membership[i] !in membership[..i];
    assert membership[i] !in before;
    assert LabelsUpTo(membership, i + 1) == before + [membership[i]];
    assert Labels(membership)[|before|] == membership[i];
  }

  // ---------------------------------------------------------------------
  // The undirecting step of exportPolblogs

  datatype Edge = Edge(source: int, target: int)

  /** `[source, target].join(' ')`. */
  function EdgeKey(source: int, target: int): string {
    IntString(source) + " " + IntString(target)
  }

  /** `const [s, t] = key.split(' ')` followed by `[Number(s), Number(t)]`. */
  function KeyEdge(key: string): Edge
    requires |SplitSpace(key)| >= 2
  {
    var pieces := SplitSpace(key);
    Edge(ParseInt(pieces[0]), ParseInt(pieces[1]))
  }

  /** Reading an edge key back gives the edge. */
  lemma KeyEdgeOfKey(source: int, target: int)
    ensures SplitSpace(EdgeKey(source, target)) == [IntString(source), IntString(target)]
    ensures KeyEdge(EdgeKey(source, target)) == Edge(source, target)
  {
    IntStringNoSpace(source);
    IntStringNoSpace(target);
    SplitJoined(IntString(source), IntString(target));
    ParseIntString(source);
    ParseIntString(target);
  }

  /** The `i`-th input pair with its endpoints in ascending order. */
  function Ordered(edges: seq<int>, k: nat): Edge
    requires 2 * k + 1 < |edges|
  {
    var source, target := edges[2 * k], edges[2 * k + 1];
    if source > target then Edge(target, source) else Edge(source, target)
  }

  /** The ordered non-loop pairs among the first `k` input pairs, one per
      input pair, in input order. */
  function PairsUpTo(edges: seq<int>, k: nat): (pairs: seq<Edge>)
    requires 2 * k <= |edges|
    ensures forall i :: 0 <= i < |pairs| ==> pairs[i].source < pairs[i].target
  {
    if k == 0 then []
    else
      var pairs := PairsUpTo(edges, k - 1);
      var e := Ordered(edges, k - 1);
      if e.source != e.target then pairs + [e] else pairs
  }

  lemma {:induction false} PairsUpToMembers(edges: seq<int>, k: nat, e: Edge)
    requires 2 * k <= |edges|
    ensures e in PairsUpTo(edges, k) <==> exists j :: 0 <= j < k && Ordered(edges, j) == e && e.source != e.target
  {
    if k > 0 {
      PairsUpToMembers(edges, k - 1, e);
    }
  }

  /** The keys `edgesSink` receives for a list of edges. */
  function Keys(es: seq<Edge>): (keys: seq<string>)
    ensures |keys| == |es| && forall i :: 0 <= i < |es| ==> keys[i] == EdgeKey(es[i].source, es[i].target)
  {
    seq(|es|, i requires 0 <= i < |es| => EdgeKey(es[i].source, es[i].target))
  }

  /** The keys of one more edge are the keys before and the edge's key. */
  lemma KeysSnoc(es: seq<Edge>, e: Edge)
    ensures Keys(es + [e]) == Keys(es) + [EdgeKey(e.source, e.target)]
  {
    assert forall i :: 0 <= i < |es| ==> (es + [e])[i] == es[i];
  }

  /** Reading back a list of edge keys. */
  function KeysToEdges(keys: seq<string>): (es: seq<Edge>)
    requires forall i :: 0 <= i < |keys| ==> |SplitSpace(keys[i])| >= 2
    ensures |es| == |keys| && forall i :: 0 <= i < |keys| ==> es[i] == KeyEdge(keys[i])
  {
    seq(|keys|, i requires 0 <= i < |keys| => KeyEdge(keys[i]))
  }

  /** Writing edges as keys and reading them back is the identity. */
  lemma KeysRoundTrip(es: seq<Edge>)
    ensures forall i :: 0 <= i < |es| ==> |SplitSpace(Keys(es)[i])| >= 2
    ensures KeysToEdges(Keys(es)) == es
  {
    forall i | 0 <= i < |es| ensures |SplitSpace(Keys(es)[i])| >= 2 && KeyEdge(Keys(es)[i]) == es[i] {
      KeyEdgeOfKey(es[i].source, es[i].target);
    }
  }

  /** Two edges have the same key only if they are the same edge. */
  lemma KeyIn(es: seq<Edge>, e: Edge)
    ensures EdgeKey(e.source, e.target) in Keys(es) <==> e in es
  {
    if EdgeKey(e.source, e.target) in Keys(es) {
      var i :| 0 <= i < |es| && Keys(es)[i] == EdgeKey(e.source, e.target);
      KeyEdgeOfKey(e.source, e.target);
      KeyEdgeOfKey(es[i].source, es[i].target);
    }
  }

  /** Deduplicating the keys deduplicates the edges, in the same order. */
  lemma {:induction false} KeysFirstSeen(es: seq<Edge>)
    ensures FirstSeen(Keys(es)) == Keys(FirstSeen(es))
    decreases |es|
  {
    if es != [] {
      var init, e := es[..|es| - 1], es[|es| - 1];
      KeysFirstSeen(init);
      assert Keys(es)[..|es| - 1] == Keys(init);
      KeyIn(init, e);
      if e in init {
        assert FirstSeen(es) == FirstSeen(init);
      } else {
        assert FirstSeen(es) == FirstSeen(init) + [e];
        KeysSnoc(FirstSeen(init), e);
      }
    }
  }

  /** `[].concat(...pairs)`: the edges written back as a flat list. */
  function Flatten(es: seq<Edge>): (flat: seq<int>)
    ensures |flat| == 2 * |es|
    ensures forall k :: 0 <= k < |es| ==> flat[2 * k] == es[k].source && flat[2 * k + 1] == es[k].target
  {
    if es == [] then [] else Flatten(es[..|es| - 1]) + [es[|es| - 1].source, es[|es| - 1].target]
  }

  /** The undirected edges, in order of first appearance. */
  function UndirectedEdges(edges: seq<int>): seq<Edge>
    requires |edges| % 2 == 0
  {
    FirstSeen(PairsUpTo(edges, |edges| / 2))
  }

  /** What `edgesSink` holds after the first `k` input pairs: the `"s t"`
      key of each ordered non-loop pair, in input order. */
  function Sink(edges: seq<int>, k: nat): seq<string>
    requires 2 * k <= |edges|
  {
    if k == 0 then []
    else
      var e := Ordered(edges, k - 1);
      if e.source != e.target then Sink(edges, k - 1) + [EdgeKey(e.source, e.target)]
      else Sink(edges, k - 1)
  }

  /** The sink is the keys of the ordered non-loop pairs. */
  lemma {:induction false} SinkKeys(edges: seq<int>, k: nat)
    requires 2 * k <= |edges|
    ensures Sink(edges, k) == Keys(PairsUpTo(edges, k))
  {
    if k > 0 {
      SinkKeys(edges, k - 1);
      var pairs := PairsUpTo(edges, k - 1);
      var e := Ordered(edges, k - 1);
      if e.source != e.target {
        assert PairsUpTo(edges, k) == pairs + [e];
        assert Sink(edges, k) == Sink(edges, k - 1) + [EdgeKey(e.source, e.target)];
        KeysSnoc(pairs, e);
      } else {
        assert PairsUpTo(edges, k) == pairs;
      }
    }
  }

  /** Deduplicating the keys of all pairs and reading them back gives the
      undirected edges. */
  lemma UndirectKeys(edges: seq<int>, keys: seq<string>)
    requires |edges| % 2 == 0 && keys == FirstSeen(Sink(edges, |edges| / 2))
    ensures forall i :: 0 <= i < |keys| ==> |SplitSpace(keys[i])| >= 2
    ensures KeysToEdges(keys) == UndirectedEdges(edges)
  {
    var pairs := PairsUpTo(edges, |edges| / 2);
    SinkKeys(edges, |edges| / 2);
    KeysFirstSeen(pairs);
    KeysRoundTrip(FirstSeen(pairs));
  }

  /** The loop of the polblogs closure: the key of every input pair, put in
      ascending order, is pushed onto `edgesSink` unless the pair is a
      loop. */
  method CollectKeys(edges: seq<int>, ghost n: nat) returns (edgesSink: seq<string>)
    requires |edges| == 2 * n
    ensures edgesSink == Sink(edges, n)
  {
    edgesSink := [];
    var i := 0;
    ghost var k := 0;
    while i < |edges|
      invariant i == 2 * k && k <= n
      invariant edgesSink == Sink(edges, k)
    {
      var source := edges[i];
      var target := edges[i + 1];
      SinkStep(edges, k, source, target);
      if source > target {
        source, target := target, source;
      }
      if source != target {
        edgesSink := edgesSink + [EdgeKey(source, target)];
      }
      i, k := i + 2, k + 1;
    }
  }

  lemma SinkStep(edges: seq<int>, k: nat, source: int, target: int)
    requires 2 * k + 1 < |edges| && source == edges[2 * k] && target == edges[2 * k + 1]
    ensures source < target ==> Sink(edges, k + 1) == Sink(edges, k) + [EdgeKey(source, target)]
    ensures source > target ==> Sink(edges, k + 1) == Sink(edges, k) + [EdgeKey(target, source)]
    ensures source == target ==> Sink(edges, k + 1) == Sink(edges, k)
  {
  }

  /** The closure passed as `process` for polblogs, on the edge list: the
      pairs go through their `"s t"` keys and a `Set`. */
  method Undirect(edges: seq<int>) returns (flat: seq<int>)
    requires |edges| % 2 == 0
    ensures flat == Flatten(UndirectedEdges(edges))
  {
    var edgesSink := CollectKeys(edges, |edges| / 2);
    var keys := FirstSeen(edgesSink);
    UndirectKeys(edges, keys);
    flat := Flatten(KeysToEdges(keys));
  }

  /** Every undirected edge runs from the smaller to the larger endpoint (so
      there are no self-loops), no edge appears twice, and the edges are
      exactly the ordered non-loop input pairs. */
  lemma UndirectedEdgesSpec(edges: seq<int>, e: Edge)
    requires |edges| % 2 == 0
    ensures forall i :: 0 <= i < |UndirectedEdges(edges)| ==>
              UndirectedEdges(edges)[i].source < UndirectedEdges(edges)[i].target
    ensures NoDuplicates(UndirectedEdges(edges))
    ensures e in UndirectedEdges(edges) <==>
              exists j :: 0 <= j < |edges| / 2 && Ordered(edges, j) == e && e.source != e.target
  {
    var pairs := PairsUpTo(edges, |edges| / 2);
    PairsUpToMembers(edges, |edges| / 2, e);
    forall i | 0 <= i < |UndirectedEdges(edges)|
      ensures UndirectedEdges(edges)[i].source < UndirectedEdges(edges)[i].target
    {
      assert UndirectedEdges(edges)[i] in pairs;
    }
  }

  // ---------------------------------------------------------------------
  // exportParsedGraphFactory

  /** A parsed node: its id and the value found at the community attribute
      path. */
  datatype ParsedNode = ParsedNode(id: int, community: int)

  datatype ParsedEdge = ParsedEdge(source: int, target: int)

  /** The `process` argument of the factory: the identity, or the polblogs
      undirecting closure. */
  datatype Process = Identity | MakeUndirected

  function CommunityValues(nodes: seq<ParsedNode>): (values: seq<int>)
    ensures |values| == |nodes| && forall i :: 0 <= i < |nodes| ==> values[i] == nodes[i].community
  {
    seq(|nodes|, i requires 0 <= i < |nodes| => nodes[i].community)
  }

  /** The flat edge list `[s0 - delta, t0 - delta, s1 - delta, ...]`. */
  function Shifted(edges: seq<ParsedEdge>, deltaIds: int): (flat: seq<int>)
    ensures |flat| == 2 * |edges|
  {
    if edges == [] then []
    else
      var rest := Shifted(edges[..|edges| - 1], deltaIds);
      rest + [edges[|edges| - 1].source - deltaIds, edges[|edges| - 1].target - deltaIds]
  }

  /** Edge `k` lands at positions `2k` and `2k + 1`, shifted by `deltaIds`. */
  lemma {:induction false} ShiftedEndpoints(edges: seq<ParsedEdge>, deltaIds: int, k: nat)
    requires k < |edges|
    ensures Shifted(edges, deltaIds)[2 * k] == edges[k].source - deltaIds
    ensures Shifted(edges, deltaIds)[2 * k + 1] == edges[k].target - deltaIds
    decreases |edges|
  {
    if k < |edges| - 1 {
      ShiftedEndpoints(edges[..|edges| - 1], deltaIds, k);
    }
  }

  /** The numbering check of the factory: node `i` must carry id `i + deltaIds`. */
  predicate IdsInOrder(nodes: seq<ParsedNode>, deltaIds: int) {
    forall i :: 0 <= i < |nodes| ==> nodes[i].id - deltaIds == i
  }

  /** The record the factory hands to `saveIgraphJSON`, after `process`. */
  function Processed(process: Process, edges: seq<int>): seq<int>
    requires |edges| % 2 == 0
  {
    match process
    case Identity => edges
    case MakeUndirected => Flatten(UndirectedEdges(edges))
  }

  /** The node loop of the factory: checks each node's id against its
      position and collects the community values. */
  method ReadMembership(filename: string, deltaIds: int, nodes: seq<ParsedNode>) returns (r: Result<seq<int>>)
    ensures r.Success? <==> IdsInOrder(nodes, deltaIds)
    ensures r.Failure? ==> r.error == AssertionError(filename)
    ensures r.Success? ==> r.value == CommunityValues(nodes)
  {
    var membership := new int[|nodes|];
    for i := 0 to |nodes|
      invariant forall j :: 0 <= j < i ==> nodes[j].id - deltaIds == j
      invariant forall j :: 0 <= j < i ==> membership[j] == nodes[j].community
    {
      var node := nodes[i];
      if node.id - deltaIds != i {
        return Failure(AssertionError(filename));
      }
      membership[i] := node.community;
    }
    return Success(membership[..]);
  }

  /** The edge loop of the factory: every endpoint shifted by `deltaIds`. */
  method ShiftEdges(edgesOri: seq<ParsedEdge>, deltaIds: int) returns (edges: seq<int>)
    ensures edges == Shifted(edgesOri, deltaIds)
  {
    edges := [];
    for i := 0 to |edgesOri|
      invariant edges == Shifted(edgesOri[..i], deltaIds)
    {
      var e := edgesOri[i];
      assert edgesOri[..i + 1][..i] == edgesOri[..i] && edgesOri[..i + 1][i] == e;
      assert Shifted(edgesOri[..i + 1], deltaIds) == edges + [e.source - deltaIds, e.target - deltaIds];
      edges := edges + [e.source - deltaIds, e.target - deltaIds];
    }
    assert edgesOri[..|edgesOri|] == edgesOri;
  }

  /** `exportParsedGraphFactory(filename, path, deltaIds, process)({ nodes,
      edges })`: fails with the file name when a node is out of numbering;
      otherwise builds the record with the shifted edges, the count of
      distinct raw labels and the reindexed membership, and applies
      `process`. Writing the record to disk is not part of the model. */
  method ExportParsedGraph(filename: string, deltaIds: int, process: Process,
                           nodes: seq<ParsedNode>, edgesOri: seq<ParsedEdge>) returns (r: Result<GraphData>)
    ensures r.Success? <==> IdsInOrder(nodes, deltaIds)
    ensures r.Failure? ==> r.error == AssertionError(filename)
    ensures r.Success? ==>
              r.value == GraphData(filename, |nodes|, |edgesOri|, |Elements(CommunityValues(nodes))|,
                                   Processed(process, Shifted(edgesOri, deltaIds)),
                                   Reindexed(CommunityValues(nodes)))
  {
    var read := ReadMembership(filename, deltaIds, nodes);
    if read.Failure? {
      return Failure(read.error);
    }
    var membership := read.value;
    var edges := ShiftEdges(edgesOri, deltaIds);
    var communities := |Elements(membership)|;
    var reindexed := ReindexMembership(membership);
    if process == MakeUndirected {
      edges := Undirect(edges);
    }
    r := Success(GraphData(filename, |nodes|, |edgesOri|, communities, edges, reindexed));
  }
}
