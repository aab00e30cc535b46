/** A community is a set of node ids (core/Community.js). The JavaScript class
    wraps a `Set`; the model keeps that Set's elements as a duplicate-free
    sequence in insertion order, which is the order in which the Set is
    iterated. `GetCommunitiesFromMembership` groups a label array into one
    community per distinct label. */
module Communities {
  import opened Wrappers
  import opened Sequences

  /** The contents of a JavaScript `Set` of node ids, in insertion order. */
  type NodeList = s: seq<int> | NoDuplicates(s) witness []

  /** The positions of `membership` that carry `communityId`. */
  function Members(membership: seq<int>, communityId: int): set<int> {
    set j | 0 <= j < |membership| && membership[j] == communityId
  }

  /** The largest integer that JavaScript treats as an array index key. */
  const MAX_ARRAY_INDEX := 0xFFFF_FFFE

  predicate IsIndexKey(key: int) {
    0 <= key <= MAX_ARRAY_INDEX
  }

  predicate IsOtherKey(key: int) {
    !IsIndexKey(key)
  }

  /** The order in which a JavaScript object enumerates keys that were
      inserted in the order `keys`: array-index keys in ascending numeric
      order, then every other key (negative labels such as -1 among them) in
      insertion order. This is the order of ramda's `values`. */
  function ObjectKeyOrder(keys: seq<int>): (r: seq<int>)
    requires NoDuplicates(keys)
    ensures NoDuplicates(r)
    ensures forall key :: key in r <==> key in keys
    ensures |r| == |keys|
    ensures forall i, j :: 0 <= i < j < |r| && IsIndexKey(r[j]) ==> IsIndexKey(r[i]) && r[i] < r[j]
    ensures Filter(r, IsOtherKey) == Filter(keys, IsOtherKey)
  {
    KeyOrderContents(keys);
    KeyOrderIndexFirst(keys);
    KeyOrderOthers(keys);
    SortDistinct(Filter(keys, IsIndexKey)) + Filter(keys, IsOtherKey)
  }

  /** The index keys in ascending order followed by the other keys hold
      every key once. */
  lemma KeyOrderContents(keys: seq<int>)
    requires NoDuplicates(keys)
    ensures var r := SortDistinct(Filter(keys, IsIndexKey)) + Filter(keys, IsOtherKey);
            NoDuplicates(r) && (forall key :: key in r <==> key in keys) && |r| == |keys|
  {
    var indexKeys := SortDistinct(Filter(keys, IsIndexKey));
    var otherKeys := Filter(keys, IsOtherKey);
    assert forall i, j :: 0 <= i < |indexKeys| && 0 <= j < |otherKeys| ==> indexKeys[i] != otherKeys[j] by {
      forall i, j | 0 <= i < |indexKeys| && 0 <= j < |otherKeys| ensures indexKeys[i] != otherKeys[j] {
        assert indexKeys[i] in indexKeys && otherKeys[j] in otherKeys;
      }
    }
    FilterSplitsLength(keys);
  }

  lemma KeyOrderIndexFirst(keys: seq<int>)
    requires NoDuplicates(keys)
    ensures var r := SortDistinct(Filter(keys, IsIndexKey)) + Filter(keys, IsOtherKey);
            forall i, j :: 0 <= i < j < |r| && IsIndexKey(r[j]) ==> IsIndexKey(r[i]) && r[i] < r[j]
  {
    IndexKeysFirst(SortDistinct(Filter(keys, IsIndexKey)), Filter(keys, IsOtherKey));
  }

  /** Ascending index keys followed by other keys: an index key is preceded
      only by smaller index keys. */
  lemma IndexKeysFirst(indexKeys: seq<int>, otherKeys: seq<int>)
    requires StrictlyIncreasing(indexKeys) && forall y :: y in indexKeys ==> IsIndexKey(y)
    requires forall y :: y in otherKeys ==> IsOtherKey(y)
    ensures var r := indexKeys + otherKeys;
            forall i, j :: 0 <= i < j < |r| && IsIndexKey(r[j]) ==> IsIndexKey(r[i]) && r[i] < r[j]
  {
    var r := indexKeys + otherKeys;
    forall j | |indexKeys| <= j < |r| ensures IsOtherKey(r[j]) {
      assert r[j] in otherKeys;
    }
    forall i, j | 0 <= i < j < |r| && IsIndexKey(r[j]) ensures IsIndexKey(r[i]) && r[i] < r[j] {
      if j >= |indexKeys| {
        assert false;
      }
      assert r[i] == indexKeys[i] && indexKeys[i] in indexKeys;
    }
  }

  lemma KeyOrderOthers(keys: seq<int>)
    requires NoDuplicates(keys)
    ensures var r := SortDistinct(Filter(keys, IsIndexKey)) + Filter(keys, IsOtherKey);
            Filter(r, IsOtherKey) == Filter(keys, IsOtherKey)
  {
    var indexKeys := SortDistinct(Filter(keys, IsIndexKey));
    var otherKeys := Filter(keys, IsOtherKey);
    OtherKeysAppend(indexKeys, otherKeys);
    OtherKeysNone(indexKeys);
    OtherKeysAll(otherKeys);
  }

  lemma {:induction false} FilterSplitsLength(keys: seq<int>)
    ensures |Filter(keys, IsIndexKey)| + |Filter(keys, IsOtherKey)| == |keys|
  {
    if keys != [] {
      FilterSplitsLength(keys[1..]);
    }
  }

  /** The other keys of a concatenation are those of each part, in order. */
  lemma {:induction false} OtherKeysAppend(a: seq<int>, b: seq<int>)
    ensures Filter(a + b, IsOtherKey) == Filter(a, IsOtherKey) + Filter(b, IsOtherKey)
  {
    if a == [] {
      assert a + b == b;
    } else {
      assert (a + b)[0] == a[0] && (a + b)[1..] == a[1..] + b;
      OtherKeysAppend(a[1..], b);
      if IsOtherKey(a[0]) {
        assert Filter(a + b, IsOtherKey) == [a[0]] + Filter(a[1..] + b, IsOtherKey);
        assert Filter(a, IsOtherKey) == [a[0]] + Filter(a[1..], IsOtherKey);
      } else {
        assert Filter(a + b, IsOtherKey) == Filter(a[1..] + b, IsOtherKey);
        assert Filter(a, IsOtherKey) == Filter(a[1..], IsOtherKey);
      }
    }
  }

  lemma {:induction false} OtherKeysAll(s: seq<int>)
    requires forall y :: y in s ==> IsOtherKey(y)
    ensures Filter(s, IsOtherKey) == s
  {
    if s != [] {
      assert s[0] in s && forall y :: y in s[1..] ==> y in s;
      OtherKeysAll(s[1..]);
      assert s == [s[0]] + s[1..];
    }
  }

  lemma {:induction false} OtherKeysNone(s: seq<int>)
    requires forall y :: y in s ==> IsIndexKey(y)
    ensures Filter(s, IsOtherKey) == []
  {
    if s != [] {
      assert s[0] in s && forall y :: y in s[1..] ==> y in s;
      OtherKeysNone(s[1..]);
    }
  }

  /** The labels of the communities `GetCommunitiesFromMembership` returns,
      in the order it returns them. */
  function GroupLabels(membership: seq<int>): (r: seq<int>)
    ensures NoDuplicates(r)
    ensures forall l :: l in r <==> l in membership
  {
    ObjectKeyOrder(FirstSeen(membership))
  }

  /** The label-to-nodes table the grouping loop has built after visiting
      the first `n` indices: each label seen so far maps to its indices in
      the order they were visited. */
  function GroupUpTo(membership: seq<int>, n: nat): (groups: map<int, seq<int>>)
    requires n <= |membership|
  {
    if n == 0 then map[]
    else
      var groups := GroupUpTo(membership, n - 1);
      var communityId := membership[n - 1];
      if communityId in groups then groups[communityId := groups[communityId] + [n - 1]]
      else groups[communityId := [n - 1]]
  }

  /** The table has an entry for exactly the labels among the first `n`
      indices. */
  lemma {:induction false} GroupUpToKeys(membership: seq<int>, n: nat, communityId: int)
    requires n <= |membership|
    ensures communityId in GroupUpTo(membership, n) <==>
              exists j :: 0 <= j < n && membership[j] == communityId
  {
    if n > 0 {
      GroupUpToKeys(membership, n - 1, communityId);
    }
  }

  /** Each entry lists exactly the visited indices carrying its label, in
      ascending order. */
  lemma {:induction false} GroupUpToMembers(membership: seq<int>, n: nat, communityId: int)
    requires n <= |membership| && communityId in GroupUpTo(membership, n)
    ensures NoDuplicates(GroupUpTo(membership, n)[communityId])
    ensures forall j :: j in GroupUpTo(membership, n)[communityId] <==>
              0 <= j < n && membership[j] == communityId
  {
    if n > 0 {
      var groups := GroupUpTo(membership, n - 1);
      if communityId in groups {
        GroupUpToMembers(membership, n - 1, communityId);
      } else if communityId == membership[n - 1] {
        GroupUpToKeys(membership, n - 1, communityId);
      }
    }
  }

  /** Each entry lists its indices in ascending order. */
  lemma {:induction false} GroupUpToAscending(membership: seq<int>, n: nat, communityId: int)
    requires n <= |membership| && communityId in GroupUpTo(membership, n)
    ensures StrictlyIncreasing(GroupUpTo(membership, n)[communityId])
  {
    if n > 0 {
      var groups := GroupUpTo(membership, n - 1);
      if communityId in groups {
        GroupUpToAscending(membership, n - 1, communityId);
        GroupUpToMembers(membership, n - 1, communityId);
        var s := groups[communityId];
        if communityId == membership[n - 1] {
          assert forall i :: 0 <= i < |s| ==> s[i] < n - 1 by {
            forall i | 0 <= i < |s| ensures s[i] < n - 1 {
              assert s[i] in s;
            }
          }
        }
      }
    }
  }

  /** The key order of the table after one more index: its label is
      appended when the table has no entry for it yet. */
  lemma KeysStep(membership: seq<int>, n: nat, keys: seq<int>)
    requires n < |membership| && keys == FirstSeen(membership[..n])
    ensures membership[n] in GroupUpTo(membership, n) ==> FirstSeen(membership[..n + 1]) == keys
    ensures membership[n] !in GroupUpTo(membership, n) ==> FirstSeen(membership[..n + 1]) == keys + [membership[n]]
  {
    var communityId := membership[n];
    GroupUpToKeys(membership, n, communityId);
    assert membership[..n + 1] == membership[..n] + [communityId];
    FirstSeenSnoc(membership[..n], communityId);
    if communityId in GroupUpTo(membership, n) {
      var j :| 0 <= j < n && membership[j] == communityId;
      assert membership[..n][j] == communityId;
    }
  }

  class Community {
    var nodes: NodeList

    /** `new Community(array)`: the Set keeps the first occurrence of each
        node. */
    constructor (initial: seq<int>)
      ensures nodes == FirstSeen(initial)
      ensures Elements(nodes) == Elements(initial)
    {
      assert forall x :: x in Elements(FirstSeen(initial)) <==> x in Elements(initial);
      nodes := FirstSeen(initial);
    }

    /** `new Community(node)` with a single, non-array argument. */
    constructor Singleton(node: int)
      ensures nodes == [node]
    {
      nodes := [node];
    }

    function HasNode(node: int): bool
      reads this
    {
      node in nodes
    }

    function Size(): nat
      reads this
    {
      |nodes|
    }

    /** `Set.add`: a new node goes to the end, a present one stays put. */
    method AddNode(node: int)
      modifies this
      ensures HasNode(node)
      ensures forall v :: old(HasNode(v)) ==> HasNode(v)
      ensures nodes == if node in old(nodes) then old(nodes) else old(nodes) + [node]
    {
      if node !in nodes {
        nodes := nodes + [node];
      }
    }

    /** The intersection, computed by walking the smaller of the two Sets and
        testing membership in the other; when both have the same size the
        argument's Set is walked. `walked` is the sequence that was walked. */
    method Intersect(community: Community) returns (r: Community, ghost walked: seq<int>)
      ensures fresh(r)
      ensures Elements(r.nodes) == Elements(nodes) * Elements(community.nodes)
      ensures NoDuplicates(r.nodes)
      ensures walked == nodes || walked == community.nodes
      ensures |walked| == if Size() < community.Size() then Size() else community.Size()
      ensures Size() == community.Size() ==> walked == community.nodes
    {
      var intersection: seq<int> := [];
      var filterable, comparable := community.nodes, nodes;
      if |nodes| < |community.nodes| {
        filterable, comparable := nodes, community.nodes;
      }
      for i := 0 to |filterable|
        invariant NoDuplicates(intersection)
        invariant forall x :: x in intersection <==> x in filterable[..i] && x in comparable
      {
        assert filterable[..i + 1] == filterable[..i] + [filterable[i]];
        if filterable[i] in comparable {
          intersection := intersection + [filterable[i]];
        }
      }
      assert filterable[..|filterable|] == filterable;
      assert forall x :: x in Elements(intersection) <==> x in Elements(nodes) * Elements(community.nodes);
      r := new Community(intersection);
      walked := filterable;
    }

    /** Set difference. The source calls `subtract` on communities but never
        defines it; this is its evident meaning, written in the style of
        `Intersect`: walk this Set and keep what the argument lacks. */
    method Subtract(community: Community) returns (r: Community)
      ensures fresh(r)
      ensures Elements(r.nodes) == Elements(nodes) - Elements(community.nodes)
      ensures NoDuplicates(r.nodes)
    {
      var difference: seq<int> := [];
      for i := 0 to |nodes|
        invariant NoDuplicates(difference)
        invariant forall x :: x in difference <==> x in nodes[..i] && x !in community.nodes
      {
        assert nodes[..i + 1] == nodes[..i] + [nodes[i]];
        if nodes[i] !in community.nodes {
          difference := difference + [nodes[i]];
        }
      }
      assert nodes[..|nodes|] == nodes;
      assert forall x :: x in Elements(difference) <==> x in Elements(nodes) - Elements(community.nodes);
      r := new Community(difference);
    }

    /** The grouping loop: a table from each label to a fresh community of
        the indices carrying it, and the labels in the order they were first
        inserted into the table. */
    static method GroupByLabel(membership: seq<int>) returns (byLabel: map<int, Community>, keys: seq<int>)
      ensures keys == FirstSeen(membership)
      ensures byLabel.Keys == GroupUpTo(membership, |membership|).Keys
      ensures forall l :: l in byLabel ==>
                fresh(byLabel[l]) && byLabel[l].nodes == GroupUpTo(membership, |membership|)[l]
      ensures forall l, l' :: l in byLabel && l' in byLabel && l != l' ==> byLabel[l] != byLabel[l']
    {
      byLabel := map[];
      keys := [];
      for nodeId := 0 to |membership|
        invariant keys == FirstSeen(membership[..nodeId])
        invariant byLabel.Keys == GroupUpTo(membership, nodeId).Keys
        invariant forall l :: l in byLabel ==>
                    fresh(byLabel[l]) && byLabel[l].nodes == GroupUpTo(membership, nodeId)[l]
        invariant forall l, l' :: l in byLabel && l' in byLabel && l != l' ==> byLabel[l] != byLabel[l']
      {
        var communityId := membership[nodeId];
        KeysStep(membership, nodeId, keys);
        if communityId !in byLabel {
          var community := new Community.Singleton(nodeId);
          byLabel := byLabel[communityId := community];
          keys := keys + [communityId];
        } else {
          GroupUpToMembers(membership, nodeId, communityId);
          byLabel[communityId].AddNode(nodeId);
        }
      }
      assert membership[..|membership|] == membership;
    }

    /** Groups node indices by label: one community per distinct label, in
        the order of `GroupLabels`, each holding its nodes in index order.
        Every label is grouped, the sentinel -1 included. */
    static method GetCommunitiesFromMembership(membership: seq<int>) returns (communities: seq<Community>)
      ensures |communities| == |GroupLabels(membership)|
      ensures forall k :: 0 <= k < |communities| ==> fresh(communities[k])
      ensures forall k :: 0 <= k < |communities| ==>
                GroupLabels(membership)[k] in GroupUpTo(membership, |membership|) &&
                communities[k].nodes == GroupUpTo(membership, |membership|)[GroupLabels(membership)[k]]
      ensures forall k :: 0 <= k < |communities| ==>
                Elements(communities[k].nodes) == Members(membership, GroupLabels(membership)[k])
      ensures forall i, j :: 0 <= i < j < |communities| ==> communities[i] != communities[j]
    {
      var byLabel, keys := GroupByLabel(membership);
      var order := ObjectKeyOrder(keys);
      forall i | 0 <= i < |order| ensures order[i] in byLabel {
        GroupedLabel(membership, order[i]);
      }
      communities := [];
      for k := 0 to |order|
        invariant |communities| == k
        invariant forall i :: 0 <= i < k ==> communities[i] == byLabel[order[i]]
      {
        communities := communities + [byLabel[order[k]]];
      }
      forall k | 0 <= k < |communities|
        ensures Elements(communities[k].nodes) == Members(membership, GroupLabels(membership)[k])
      {
        GroupedLabel(membership, order[k]);
      }
    }
  }

  /** Every label of the membership is grouped, and its group holds exactly
      the indices with that label. */
  lemma GroupedLabel(membership: seq<int>, communityId: int)
    requires communityId in membership
    ensures communityId in GroupUpTo(membership, |membership|)
    ensures Elements(GroupUpTo(membership, |membership|)[communityId]) == Members(membership, communityId)
  {
    GroupUpToKeys(membership, |membership|, communityId);
    GroupUpToMembers(membership, |membership|, communityId);
  }

  /** Every index of the membership lies in exactly one of the grouped
      communities: the one of its own label. */
  lemma EveryNodeInExactlyOne(membership: seq<int>, j: int)
    requires 0 <= j < |membership|
    ensures membership[j] in GroupLabels(membership)
    ensures forall k :: 0 <= k < |GroupLabels(membership)| ==>
              (j in Members(membership, GroupLabels(membership)[k]) <==>
               k == IndexOf(GroupLabels(membership), membership[j]))
  {
  }

  /** Two indices share a grouped community exactly when their labels are
      equal (the sentinel -1 included). */
  lemma SameCommunityIff(membership: seq<int>, i: int, j: int)
    requires 0 <= i < |membership| && 0 <= j < |membership|
    ensures (exists k :: 0 <= k < |GroupLabels(membership)|
               && i in Members(membership, GroupLabels(membership)[k])
               && j in Members(membership, GroupLabels(membership)[k]))
            <==> membership[i] == membership[j]
  {
    var labels := GroupLabels(membership);
    if membership[i] == membership[j] {
      var k := IndexOf(labels, membership[i]);
      assert i in Members(membership, labels[k]) && j in Members(membership, labels[k]);
    }
  }

  /** The grouped communities are non-empty and pairwise disjoint, and there
      are as many as there are distinct labels. */
  lemma GroupingIsPartition(membership: seq<int>)
    ensures |GroupLabels(membership)| == |Elements(membership)|
    ensures forall k, k' :: 0 <= k < k' < |GroupLabels(membership)| ==>
              Members(membership, GroupLabels(membership)[k]) !! Members(membership, GroupLabels(membership)[k'])
    ensures forall k :: 0 <= k < |GroupLabels(membership)| ==>
              Members(membership, GroupLabels(membership)[k]) != {}
  {
    var labels := GroupLabels(membership);
    DistinctCardinality(labels);
    assert forall l :: l in Elements(labels) <==> l in Elements(membership);
    assert Elements(labels) == Elements(membership);
    forall k | 0 <= k < |labels| ensures Members(membership, labels[k]) != {} {
      assert labels[k] in membership;
      var j :| 0 <= j < |membership| && membership[j] == labels[k];
      assert j in Members(membership, labels[k]);
    }
  }

  /** Intersection and difference split a community: |A ∩ B| + |A \ B| = |A|,
      and the intersection is no larger than either operand. */
  lemma IntersectSubtractSizes(a: set<int>, b: set<int>)
    ensures |a * b| + |a - b| == |a|
    ensures |a * b| <= |a| && |a * b| <= |b|
  {
    assert a == (a * b) + (a - b);
    assert (a * b) !! (a - b);
    assert b == (a * b) + (b - a);
    assert (a * b) !! (b - a);
  }

  /** `intersect` as written calls `hasNode` on the walked operand's raw
      `Set`, which has no such method: it throws as soon as the walked Set
      has an element, and succeeds (with the empty set) only when one operand
      is empty. */
  function IntersectAsWritten(a: NodeList, b: NodeList): (r: Result<seq<int>>)
    ensures r.Success? <==> (a == [] || b == [])
    ensures r.Success? ==> Elements(r.value) == Elements(a) * Elements(b)
  {
    var filterable := if |a| < |b| then a else b;
    if filterable == [] then Success([])
    else Failure(TypeError("comparable.hasNode is not a function"))
  }

  /** Counterexample: two overlapping communities make `intersect` throw where
      the intended result is their common node. */
  lemma IntersectAsWrittenThrows()
    ensures IntersectAsWritten([7], [7, 8]).Failure?
    ensures Elements([7]) * Elements([7, 8]) == {7}
  {
    assert forall x :: x in Elements([7]) * Elements([7, 8]) <==> x == 7;
  }

  /** `subtract` as written: the method is not defined on `Community`, so
      every call throws. */
  function SubtractAsWritten(a: NodeList, b: NodeList): (r: Result<seq<int>>)
    ensures r.Failure? && r.error.TypeError?
  {
    Failure(TypeError("gt.subtract is not a function"))
  }

  /** Counterexample: a ground-truth community minus a strict part of it
      fails as written where the intended result is the rest. */
  lemma SubtractAsWrittenThrows()
    ensures SubtractAsWritten([1, 2], [1]).Failure?
    ensures Elements([1, 2]) - Elements([1]) == {2}
  {
    assert forall x :: x in Elements([1, 2]) - Elements([1]) <==> x == 2;
  }
}
