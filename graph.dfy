/** The graph record (core/Graph.js): the dataset as read from disk, its
    ground-truth labelling, and the ground-truth communities grouped from
    that labelling. */
module Graphs {
  import opened Sequences
  import opened Communities

  /** A dataset in the `.igraph.json` layout written by graphs/export.js:
      `n` nodes, `m` edges, `communities` distinct labels, the flat edge list
      `[s0, t0, s1, t1, ...]` and one ground-truth label per node. */
  datatype GraphData = GraphData(
    name: string,
    n: int,
    m: int,
    communities: nat,
    edges: seq<int>,
    membership: seq<int>)

  /** `communities` are the groups of `membership`: one per distinct label,
      in the order `GroupLabels` gives, each holding exactly the positions
      carrying its label. */
  ghost predicate GroundTruthOf(communities: seq<Community>, membership: seq<int>)
    reads set k | 0 <= k < |communities| :: communities[k]
  {
    |communities| == |GroupLabels(membership)| &&
    forall k :: 0 <= k < |communities| ==>
      Elements(communities[k].nodes) == Members(membership, GroupLabels(membership)[k])
  }

  class Graph {
    const data: GraphData
    const groundTruthMembership: seq<int>
    const groundTruthCommunities: seq<Community>

    /** The labelling is the dataset's and the communities are its groups. */
    ghost predicate Valid()
      reads set k | 0 <= k < |groundTruthCommunities| :: groundTruthCommunities[k]
    {
      groundTruthMembership == data.membership && GroundTruthOf(groundTruthCommunities, data.membership)
    }

    /** `new Graph(data)`: stores the record, its labelling, and the
        communities grouped from the labelling. */
    constructor (data: GraphData)
      ensures this.data == data
      ensures groundTruthMembership == data.membership
      ensures GroundTruthOf(groundTruthCommunities, data.membership) && Valid()
      ensures |groundTruthCommunities| == |Elements(data.membership)|
      ensures forall k :: 0 <= k < |groundTruthCommunities| ==> fresh(groundTruthCommunities[k])
      ensures forall i, j :: 0 <= i < j < |groundTruthCommunities| ==>
                groundTruthCommunities[i] != groundTruthCommunities[j]
    {
      var communities := Community.GetCommunitiesFromMembership(data.membership);
      GroupingIsPartition(data.membership);
      this.data := data;
      groundTruthMembership := data.membership;
      groundTruthCommunities := communities;
    }
  }

  /** Every node of a grouped labelling lies in exactly one ground-truth
      community, the one at the position of its label. */
  lemma GroundTruthCovers(communities: seq<Community>, membership: seq<int>, j: int)
    requires GroundTruthOf(communities, membership) && 0 <= j < |membership|
    ensures membership[j] in GroupLabels(membership)
    ensures forall k :: 0 <= k < |communities| ==>
              (j in Elements(communities[k].nodes) <==> k == IndexOf(GroupLabels(membership), membership[j]))
  {
    EveryNodeInExactlyOne(membership, j);
  }

  /** Ground-truth communities are pairwise disjoint and hold only node
      indices of the labelling. */
  lemma GroundTruthDisjoint(communities: seq<Community>, membership: seq<int>)
    requires GroundTruthOf(communities, membership)
    ensures forall k, k' :: 0 <= k < k' < |communities| ==>
              Elements(communities[k].nodes) !! Elements(communities[k'].nodes)
    ensures forall k :: 0 <= k < |communities| ==>
              forall v :: v in Elements(communities[k].nodes) ==>
                0 <= v < |membership| && membership[v] == GroupLabels(membership)[k]
  {
    GroupingIsPartition(membership);
  }
}
