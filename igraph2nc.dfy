/** The converter from the `.igraph.json` layout to the node/edge records of
    the network viewer (core/igraph2nc.js). */
module Igraph2nc {
  import opened Wrappers
  import opened Sequences
  import opened Decimal

  /** The JavaScript values the records hold. */
  datatype Value = Num(x: int) | Str(s: string) | Undefined

  /** One own property of a plain object. */
  datatype Prop = Prop(key: string, value: Value)

  /** A plain object as its own properties in enumeration order. Keys that
      look like array indexes, which JavaScript enumerates first, are not
      distinguished. */
  type Object = seq<Prop>

  /** `Object.keys(o)`. */
  function KeysOf(o: Object): (keys: seq<string>)
    ensures |keys| == |o|
  {
    if o == [] then [] else [o[0].key] + KeysOf(o[1..])
  }

  /** `o[key]`: the value of the first property with that key, `undefined`
      when there is none. */
  function Get(o: Object, key: string): Value {
    if o == [] then Undefined
    else if o[0].key == key then o[0].value
    else Get(o[1..], key)
  }

  /** `o[key] = value`: an existing key keeps its place and takes the new
      value, a new key goes last. */
  function Assign(o: Object, key: string, value: Value): Object {
    if o == [] then [Prop(key, value)]
    else if o[0].key == key then [Prop(key, value)] + o[1..]
    else [o[0]] + Assign(o[1..], key, value)
  }

  /** After `o[key] = value`, reading `key` gives `value` and reading any
      other key gives what it gave before. */
  lemma {:induction false} AssignGet(o: Object, key: string, value: Value, other: string)
    ensures Get(Assign(o, key, value), other) == if other == key then value else Get(o, other)
    decreases |o|
  {
    if o != [] && o[0].key != key {
      AssignGet(o[1..], key, value, other);
      assert Assign(o, key, value)[1..] == Assign(o[1..], key, value);
    }
  }

  /** An assignment keeps the key order when the key exists and appends the
      key otherwise, so keys stay unique. */
  lemma {:induction false} AssignKeys(o: Object, key: string, value: Value)
    ensures key in KeysOf(o) ==> KeysOf(Assign(o, key, value)) == KeysOf(o)
    ensures key !in KeysOf(o) ==> KeysOf(Assign(o, key, value)) == KeysOf(o) + [key]
    ensures NoDuplicates(KeysOf(o)) ==> NoDuplicates(KeysOf(Assign(o, key, value)))
    ensures Elements(KeysOf(Assign(o, key, value))) == Elements(KeysOf(o)) + {key}
    decreases |o|
  {
    if o != [] {
      if o[0].key != key {
        AssignKeys(o[1..], key, value);
        assert Assign(o, key, value)[1..] == Assign(o[1..], key, value);
      } else {
        assert Assign(o, key, value)[1..] == o[1..];
      }
    }
  }

  lemma {:induction false} KeysOfSnoc(o: Object, p: Prop)
    ensures KeysOf(o + [p]) == KeysOf(o) + [p.key]
    decreases |o|
  {
    if o != [] {
      KeysOfSnoc(o[1..], p);
      assert (o + [p])[1..] == o[1..] + [p];
    }
  }

  /** Assigning a new key appends it. */
  lemma {:induction false} AssignNew(o: Object, key: string, value: Value)
    requires key !in KeysOf(o)
    ensures Assign(o, key, value) == o + [Prop(key, value)]
    decreases |o|
  {
    if o != [] {
      AssignNew(o[1..], key, value);
      assert o == [o[0]] + o[1..];
    }
  }

  /** The four-property object literal of a node's attributes: a computed
      key for the algorithm, then
      `seedCommunityId`, `seedCommunityName` and `GroundTruth`, assigned left
      to right into an empty object as JavaScript evaluates a literal. */
  function Attributes(algorithmKey: string, algorithm: Value, seedId: Value, seedName: Value, groundTruth: Value): Object {
    var o1 := Assign([], algorithmKey, algorithm);
    var o2 := Assign(o1, "seedCommunityId", seedId);
    var o3 := Assign(o2, "seedCommunityName", seedName);
    Assign(o3, "GroundTruth", groundTruth)
  }

  /** The node model of `convert`: `seedCommunityId` and
      `seedCommunityName` are strings, then the computed algorithm key and
      `GroundTruth` are numbers, in the order the literal lists them. */
  function NodeModel(algorithmKey: string): (o: Object)
    ensures Get(o, algorithmKey) == Str("number") && Get(o, "GroundTruth") == Str("number")
    ensures algorithmKey != "seedCommunityId" ==> Get(o, "seedCommunityId") == Str("string")
    ensures algorithmKey != "seedCommunityName" ==> Get(o, "seedCommunityName") == Str("string")
    ensures !IsFixedKey(algorithmKey) ==>
              KeysOf(o) == ["seedCommunityId", "seedCommunityName", algorithmKey, "GroundTruth"]
  {
    var o1 := Assign([], "seedCommunityId", Str("string"));
    var o2 := Assign(o1, "seedCommunityName", Str("string"));
    var o3 := Assign(o2, algorithmKey, Str("number"));
    var o4 := Assign(o3, "GroundTruth", Str("number"));
    AssignGet(o3, "GroundTruth", Str("number"), algorithmKey);
    AssignGet(o2, algorithmKey, Str("number"), algorithmKey);
    AssignGet(o3, "GroundTruth", Str("number"), "seedCommunityId");
    AssignGet(o2, algorithmKey, Str("number"), "seedCommunityId");
    AssignGet(o1, "seedCommunityName", Str("string"), "seedCommunityId");
    AssignGet([], "seedCommunityId", Str("string"), "seedCommunityId");
    AssignGet(o3, "GroundTruth", Str("number"), "seedCommunityName");
    AssignGet(o2, algorithmKey, Str("number"), "seedCommunityName");
    AssignGet(o1, "seedCommunityName", Str("string"), "seedCommunityName");
    AssignGet(o3, "GroundTruth", Str("number"), "GroundTruth");
    AssignKeys([], "seedCommunityId", Str("string"));
    AssignKeys(o1, "seedCommunityName", Str("string"));
    AssignKeys(o2, algorithmKey, Str("number"));
    AssignKeys(o3, "GroundTruth", Str("number"));
    o4
  }

  predicate IsFixedKey(key: string) {
    key == "seedCommunityId" || key == "seedCommunityName" || key == "GroundTruth"
  }

  /** The three fixed keys always hold their own values, whatever the
      algorithm is called (a colliding algorithm key is overwritten). */
  lemma AttributesFixedKeys(algorithmKey: string, algorithm: Value, seedId: Value, seedName: Value, groundTruth: Value)
    ensures Get(Attributes(algorithmKey, algorithm, seedId, seedName, groundTruth), "seedCommunityId") == seedId
    ensures Get(Attributes(algorithmKey, algorithm, seedId, seedName, groundTruth), "seedCommunityName") == seedName
    ensures Get(Attributes(algorithmKey, algorithm, seedId, seedName, groundTruth), "GroundTruth") == groundTruth
  {
    var o1 := Assign([], algorithmKey, algorithm);
    var o2 := Assign(o1, "seedCommunityId", seedId);
    var o3 := Assign(o2, "seedCommunityName", seedName);
    AssignGet(o1, "seedCommunityId", seedId, "seedCommunityId");
    AssignGet(o2, "seedCommunityName", seedName, "seedCommunityId");
    AssignGet(o3, "GroundTruth", groundTruth, "seedCommunityId");
    AssignGet(o2, "seedCommunityName", seedName, "seedCommunityName");
    AssignGet(o3, "GroundTruth", groundTruth, "seedCommunityName");
    AssignGet(o3, "GroundTruth", groundTruth, "GroundTruth");
  }

  /** An algorithm key that is none of the fixed keys comes first and holds
      the algorithm's value; the object is then exactly the four properties
      in source order. */
  lemma AttributesAlgorithmKey(algorithmKey: string, algorithm: Value, seedId: Value, seedName: Value, groundTruth: Value)
    requires !IsFixedKey(algorithmKey)
    ensures Get(Attributes(algorithmKey, algorithm, seedId, seedName, groundTruth), algorithmKey) == algorithm
    ensures Attributes(algorithmKey, algorithm, seedId, seedName, groundTruth) ==
              [Prop(algorithmKey, algorithm), Prop("seedCommunityId", seedId),
               Prop("seedCommunityName", seedName), Prop("GroundTruth", groundTruth)]
  {
    var o1 := Assign([], algorithmKey, algorithm);
    var o2 := Assign(o1, "seedCommunityId", seedId);
    var o3 := Assign(o2, "seedCommunityName", seedName);
    assert KeysOf(o1) == [algorithmKey];
    AssignNew(o1, "seedCommunityId", seedId);
    KeysOfSnoc(o1, Prop("seedCommunityId", seedId));
    AssignNew(o2, "seedCommunityName", seedName);
    KeysOfSnoc(o2, Prop("seedCommunityName", seedName));
    AssignNew(o3, "GroundTruth", groundTruth);
  }

  /** The keys are unique. */
  lemma AttributesKeysUnique(algorithmKey: string, algorithm: Value, seedId: Value, seedName: Value, groundTruth: Value)
    ensures NoDuplicates(KeysOf(Attributes(algorithmKey, algorithm, seedId, seedName, groundTruth)))
  {
    var o1 := Assign([], algorithmKey, algorithm);
    var o2 := Assign(o1, "seedCommunityId", seedId);
    var o3 := Assign(o2, "seedCommunityName", seedName);
    assert KeysOf(o1) == [algorithmKey];
    AssignKeys(o1, "seedCommunityId", seedId);
    AssignKeys(o2, "seedCommunityName", seedName);
    AssignKeys(o3, "GroundTruth", groundTruth);
  }

  /** The keys are exactly the four named. */
  lemma AttributesKeySet(algorithmKey: string, algorithm: Value, seedId: Value, seedName: Value, groundTruth: Value)
    ensures Elements(KeysOf(Attributes(algorithmKey, algorithm, seedId, seedName, groundTruth))) ==
              {algorithmKey, "seedCommunityId", "seedCommunityName", "GroundTruth"}
  {
    var o1 := Assign([], algorithmKey, algorithm);
    var o2 := Assign(o1, "seedCommunityId", seedId);
    var o3 := Assign(o2, "seedCommunityName", seedName);
    assert KeysOf(o1) == [algorithmKey];
    assert Elements(KeysOf(o1)) == {algorithmKey};
    AssignKeys(o1, "seedCommunityId", seedId);
    AssignKeys(o2, "seedCommunityName", seedName);
    AssignKeys(o3, "GroundTruth", groundTruth);
  }

  /** `array[i]`: the element, or `undefined` outside the array. */
  function At(s: seq<int>, i: int): (v: Value)
    ensures v.Num? <==> 0 <= i < |s|
    ensures v.Num? ==> v.x == s[i]
  {
    if 0 <= i < |s| then Num(s[i]) else Undefined
  }

  /** `seedCommunityId === -1 ? "" : String(seedCommunityId)`. */
  function SeedString(v: Value): string {
    match v
    case Num(x) => if x == -1 then "" else IntString(x)
    case Str(s) => s
    case Undefined => "undefined"
  }

  /** The seed string is empty exactly for the unseeded label -1; any other
      label is written in decimal and reads back as itself. */
  lemma SeedStringSpec(x: int)
    ensures SeedString(Num(x)) == "" <==> x == -1
    ensures x != -1 ==> ParseInt(SeedString(Num(x))) == x
  {
    if x != -1 {
      ParseIntString(x);
    }
  }

  /** The converter's input: node count, the three labellings and the flat
      edge list. */
  datatype NcData = NcData(
    n: int,
    seedMembership: seq<int>,
    algorithmMembership: seq<int>,
    groundTruthMembership: seq<int>,
    edges: seq<int>)

  /** A node record; its `attributes` object. */
  datatype NcNode = NcNode(id: int, attributes: Object)

  /** An edge record (its `attributes` is always the empty object). */
  datatype NcEdge = NcEdge(source: int, target: Value)

  datatype NcDocument = NcDocument(kind: string, nodeModel: Object, nodes: seq<NcNode>, edges: seq<NcEdge>)

  /** The attribute key of the algorithm: `String(this.algorithmName)`. */
  function AlgorithmKey(name: Option<string>): string {
    if name.Some? then name.value else "undefined"
  }

  /** The record of node `i`. */
  function NodeRecord(d: NcData, algorithmKey: string, i: int): NcNode {
    var seed := Str(SeedString(At(d.seedMembership, i)));
    NcNode(i, Attributes(algorithmKey, At(d.algorithmMembership, i), seed, seed, At(d.groundTruthMembership, i)))
  }

  /** `map(nodeId => ..., range(0, n))`. */
  function NodeRecords(d: NcData, algorithmKey: string): (nodes: seq<NcNode>)
    ensures |nodes| == if d.n > 0 then d.n else 0
    ensures forall i :: 0 <= i < |nodes| ==> nodes[i] == NodeRecord(d, algorithmKey, i)
  {
    seq(if d.n > 0 then d.n else 0, i => NodeRecord(d, algorithmKey, i))
  }

  /** Node record `i` has id `i`; its seed attributes are the seed label's
      string (empty for -1) under both names; `GroundTruth` copies the
      ground-truth label and the algorithm key copies the algorithm's label
      (`undefined` past the end of a labelling). */
  lemma NodeRecordSpec(d: NcData, algorithmKey: string, i: int)
    ensures NodeRecord(d, algorithmKey, i).id == i
    ensures Get(NodeRecord(d, algorithmKey, i).attributes, "seedCommunityId") == Str(SeedString(At(d.seedMembership, i)))
    ensures Get(NodeRecord(d, algorithmKey, i).attributes, "seedCommunityName") == Str(SeedString(At(d.seedMembership, i)))
    ensures Get(NodeRecord(d, algorithmKey, i).attributes, "GroundTruth") == At(d.groundTruthMembership, i)
    ensures !IsFixedKey(algorithmKey) ==>
              Get(NodeRecord(d, algorithmKey, i).attributes, algorithmKey) == At(d.algorithmMembership, i)
  {
    var seed := Str(SeedString(At(d.seedMembership, i)));
    AttributesFixedKeys(algorithmKey, At(d.algorithmMembership, i), seed, seed, At(d.groundTruthMembership, i));
    if !IsFixedKey(algorithmKey) {
      AttributesAlgorithmKey(algorithmKey, At(d.algorithmMembership, i), seed, seed, At(d.groundTruthMembership, i));
    }
  }

  /** The edge records of a flat edge list, one per consecutive pair; an odd
      trailing source gets an `undefined` target. */
  function EdgeRecords(edges: seq<int>): (records: seq<NcEdge>)
    ensures |records| == (|edges| + 1) / 2
    decreases |edges|
  {
    if edges == [] then []
    else if |edges| == 1 then [NcEdge(edges[0], Undefined)]
    else [NcEdge(edges[0], Num(edges[1]))] + EdgeRecords(edges[2..])
  }

  /** Edge record `k` joins `edges[2k]` to `edges[2k + 1]`. */
  lemma {:induction false} EdgeRecordsAt(edges: seq<int>, k: nat)
    requires k < |EdgeRecords(edges)|
    ensures EdgeRecords(edges)[k] == NcEdge(edges[2 * k], At(edges, 2 * k + 1))
    decreases k
  {
    if k > 0 {
      EdgeRecordsAt(edges[2..], k - 1);
      assert edges[2..][2 * (k - 1)] == edges[2 * k];
    }
  }

  /** The endpoints of edge records, written back as a flat list. */
  function Endpoints(records: seq<NcEdge>): seq<Value> {
    if records == [] then [] else [Num(records[0].source), records[0].target] + Endpoints(records[1..])
  }

  function Nums(s: seq<int>): seq<Value> {
    seq(|s|, i requires 0 <= i < |s| => Num(s[i]))
  }

  /** For an even-length list the records lose nothing: their endpoints,
      read in order, are the list. */
  lemma {:induction false} EdgeRecordsRoundTrip(edges: seq<int>)
    requires |edges| % 2 == 0
    ensures Endpoints(EdgeRecords(edges)) == Nums(edges)
    decreases |edges|
  {
    if edges != [] {
      EdgeRecordsRoundTrip(edges[2..]);
      assert Nums(edges) == [Num(edges[0]), Num(edges[1])] + Nums(edges[2..]);
    }
  }

  class Converter {
    var data: Option<NcData>
    var algorithmName: Option<string>

    /** `new Igraph2ncConverter()`: both fields start `undefined`. */
    constructor ()
      ensures data == None && algorithmName == None
    {
      data := None;
      algorithmName := None;
    }

    /** `nodesToJSON()`: destructuring `this.data` throws while it is
        `undefined`. */
    function NodesToJSON(): (r: Result<seq<NcNode>>)
      reads this
      ensures r.Failure? <==> data.None?
      ensures r.Failure? ==> r.error.TypeError?
      ensures r.Success? ==> r.value == NodeRecords(data.value, AlgorithmKey(algorithmName))
    {
      if data.None? then Failure(TypeError("Cannot destructure 'this.data' as it is undefined."))
      else Success(NodeRecords(data.value, AlgorithmKey(algorithmName)))
    }

    /** `edgesToJSON()`: one record per step of two through the edge list. */
    method EdgesToJSON() returns (r: Result<seq<NcEdge>>)
      ensures r.Failure? <==> data.None?
      ensures r.Failure? ==> r.error.TypeError?
      ensures r.Success? ==> r.value == EdgeRecords(data.value.edges)
    {
      if data.None? {
        return Failure(TypeError("Cannot destructure 'this.data' as it is undefined."));
      }
      var edges := data.value.edges;
      var ncEdges: seq<NcEdge> := [];
      var i := 0;
      ghost var k := 0;
      while i < |edges|
        invariant i == 2 * k && k <= (|edges| + 1) / 2 && |ncEdges| == k
        invariant forall j :: 0 <= j < k ==> ncEdges[j] == NcEdge(edges[2 * j], At(edges, 2 * j + 1))
      {
        var source := edges[i];
        var target := if i + 1 < |edges| then Num(edges[i + 1]) else Undefined;
        ncEdges := ncEdges + [NcEdge(source, target)];
        i, k := i + 2, k + 1;
      }
      assert k == (|edges| + 1) / 2;
      forall j | 0 <= j < k
        ensures ncEdges[j] == EdgeRecords(edges)[j]
      {
        EdgeRecordsAt(edges, j);
      }
      return Success(ncEdges);
    }

    /** `convert(data, algorithmName)`: remembers both arguments, then builds
        the undirected document with a node model keyed by the algorithm's
        name and the node and edge records. */
    method Convert(data: NcData, algorithmName: string) returns (doc: NcDocument)
      modifies this
      ensures this.data == Some(data) && this.algorithmName == Some(algorithmName)
      ensures doc.kind == "undirected"
      ensures doc.nodeModel == NodeModel(algorithmName)
      ensures doc.nodes == NodeRecords(data, algorithmName)
      ensures doc.edges == EdgeRecords(data.edges)
    {
      this.data := Some(data);
      this.algorithmName := Some(algorithmName);
      var kind := "undirected";
      var nodeModel := NodeModel(algorithmName);
      var nodes := NodesToJSON();
      var edges := EdgesToJSON();
      doc := NcDocument(kind, nodeModel, nodes.value, edges.value);
    }
  }
}
