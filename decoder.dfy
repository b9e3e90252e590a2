/** The decoder `yaml_node_to_mrb`: from a node of a parsed document to an mruby value.
    `Decode` says what the value is; `DecodeNode` builds it as the C function does, filling a
    new array or hash item by item, and is proved to yield `Decode`. */
module Decoder {
  import opened Values
  import opened Document

  /** The value a node decodes to. A scalar becomes a string of the same bytes, a sequence an
      array, a mapping a hash filled pair by pair, and any other node type nil. */
  function Decode(nodes: seq<Node>, ghost rank: seq<nat>, id: nat, eq: KeyEq): (v: Value)
    requires Ranked(nodes, rank) && 1 <= id <= |nodes|
    decreases rank[id - 1], 1
  {
    match GetNode(nodes, id)
    case Scalar(bytes) => Str(bytes)
    case Sequence(items) => Arr(DecodeItems(nodes, rank, items, rank[id - 1], eq))
    case Mapping(pairs) =>
      Hash(HashFold(DecodePairs(nodes, rank, pairs, rank[id - 1], eq), eq))
    case NoNode => Nil
  }

  /** The items of a sequence, decoded in their stored order. */
  function DecodeItems(nodes: seq<Node>, ghost rank: seq<nat>, ids: seq<nat>, ghost r: nat, eq: KeyEq)
    : (vs: seq<Value>)
    requires Ranked(nodes, rank)
    requires forall k :: 0 <= k < |ids| ==> 1 <= ids[k] <= |nodes| && rank[ids[k] - 1] < r
    ensures |vs| == |ids|
    decreases r, 0, |ids|
  {
    if |ids| == 0 then []
    else DecodeItems(nodes, rank, ids[..|ids| - 1], r, eq) + [Decode(nodes, rank, ids[|ids| - 1], eq)]
  }

  /** The pairs of a mapping, each decoded to the key and the value that `mrb_hash_set`
      receives, in their stored order. */
  function DecodePairs(nodes: seq<Node>, ghost rank: seq<nat>, pairs: seq<NodePair>, ghost r: nat, eq: KeyEq)
    : (ps: seq<Entry>)
    requires Ranked(nodes, rank)
    requires forall k :: 0 <= k < |pairs| ==>
               && 1 <= pairs[k].key <= |nodes| && rank[pairs[k].key - 1] < r
               && 1 <= pairs[k].value <= |nodes| && rank[pairs[k].value - 1] < r
    ensures |ps| == |pairs|
    decreases r, 0, |pairs|
  {
    if |pairs| == 0 then []
    else
      var p := pairs[|pairs| - 1];
      DecodePairs(nodes, rank, pairs[..|pairs| - 1], r, eq)
        + [Entry(Decode(nodes, rank, p.key, eq), Decode(nodes, rank, p.value, eq))]
  }

  /** Item `k` of a sequence decodes to element `k` of the array: one for one, in order. */
  lemma {:induction false} DecodedItem(nodes: seq<Node>, rank: seq<nat>, ids: seq<nat>, r: nat, eq: KeyEq, k: nat)
    requires Ranked(nodes, rank)
    requires forall k :: 0 <= k < |ids| ==> 1 <= ids[k] <= |nodes| && rank[ids[k] - 1] < r
    requires k < |ids|
    ensures DecodeItems(nodes, rank, ids, r, eq)[k] == Decode(nodes, rank, ids[k], eq)
    decreases |ids|
  {
    if k < |ids| - 1 {
      DecodedItem(nodes, rank, ids[..|ids| - 1], r, eq, k);
    }
  }

  /** Pair `k` of a mapping decodes to pair `k` of what is set into the hash. */
  lemma {:induction false} DecodedPair(nodes: seq<Node>, rank: seq<nat>, pairs: seq<NodePair>, r: nat, eq: KeyEq, k: nat)
    requires Ranked(nodes, rank)
    requires forall k :: 0 <= k < |pairs| ==>
               && 1 <= pairs[k].key <= |nodes| && rank[pairs[k].key - 1] < r
               && 1 <= pairs[k].value <= |nodes| && rank[pairs[k].value - 1] < r
    requires k < |pairs|
    ensures DecodePairs(nodes, rank, pairs, r, eq)[k]
         == Entry(Decode(nodes, rank, pairs[k].key, eq), Decode(nodes, rank, pairs[k].value, eq))
    decreases |pairs|
  {
    if k < |pairs| - 1 {
      DecodedPair(nodes, rank, pairs[..|pairs| - 1], r, eq, k);
    }
  }

  lemma DecodeItemsStep(nodes: seq<Node>, rank: seq<nat>, ids: seq<nat>, r: nat, eq: KeyEq, k: nat)
    requires Ranked(nodes, rank)
    requires forall k :: 0 <= k < |ids| ==> 1 <= ids[k] <= |nodes| && rank[ids[k] - 1] < r
    requires k < |ids|
    ensures DecodeItems(nodes, rank, ids[..k + 1], r, eq)
         == DecodeItems(nodes, rank, ids[..k], r, eq) + [Decode(nodes, rank, ids[k], eq)]
  {
    assert ids[..k + 1][..k] == ids[..k];
  }

  lemma DecodePairsStep(nodes: seq<Node>, rank: seq<nat>, pairs: seq<NodePair>, r: nat, eq: KeyEq, k: nat)
    requires Ranked(nodes, rank)
    requires forall k :: 0 <= k < |pairs| ==>
               && 1 <= pairs[k].key <= |nodes| && rank[pairs[k].key - 1] < r
               && 1 <= pairs[k].value <= |nodes| && rank[pairs[k].value - 1] < r
    requires k < |pairs|
    ensures DecodePairs(nodes, rank, pairs[..k + 1], r, eq)
         == DecodePairs(nodes, rank, pairs[..k], r, eq)
              + [Entry(Decode(nodes, rank, pairs[k].key, eq), Decode(nodes, rank, pairs[k].value, eq))]
  {
    assert pairs[..k + 1][..k] == pairs[..k];
  }

  /** `yaml_node_to_mrb`, step by step. */
  method DecodeNode(nodes: seq<Node>, ghost rank: seq<nat>, id: nat, eq: KeyEq) returns (v: Value)
    requires Ranked(nodes, rank) && 1 <= id <= |nodes|
    ensures v == Decode(nodes, rank, id, eq)
    decreases rank[id - 1], 1
  {
    match GetNode(nodes, id)
    case Scalar(bytes) =>
      v := Str(bytes);
    case Sequence(items) =>
      var elems := DecodeSequence(nodes, rank, items, rank[id - 1], eq);
      v := Arr(elems);
    case Mapping(pairs) =>
      var entries := DecodeMapping(nodes, rank, pairs, rank[id - 1], eq);
      v := Hash(entries);
    case NoNode =>
      v := Nil;
  }

  /** The sequence branch: a new array, pushed one decoded item at a time. */
  method DecodeSequence(nodes: seq<Node>, ghost rank: seq<nat>, items: seq<nat>, ghost r: nat, eq: KeyEq)
    returns (result: seq<Value>)
    requires Ranked(nodes, rank)
    requires forall k :: 0 <= k < |items| ==> 1 <= items[k] <= |nodes| && rank[items[k] - 1] < r
    ensures result == DecodeItems(nodes, rank, items, r, eq)
    decreases r, 0
  {
    result := [];
    var k := 0;
    while k < |items|
      invariant 0 <= k <= |items|
      invariant result == DecodeItems(nodes, rank, items[..k], r, eq)
    {
      var child := DecodeNode(nodes, rank, items[k], eq);
      DecodeItemsStep(nodes, rank, items, r, eq, k);
      result := result + [child];
      k := k + 1;
    }
    assert items[..k] == items;
  }

  /** The mapping branch: a new hash, into which each pair is set once its key and then its
      value are decoded. */
  method DecodeMapping(nodes: seq<Node>, ghost rank: seq<nat>, pairs: seq<NodePair>, ghost r: nat, eq: KeyEq)
    returns (result: seq<Entry>)
    requires Ranked(nodes, rank)
    requires forall k :: 0 <= k < |pairs| ==>
               && 1 <= pairs[k].key <= |nodes| && rank[pairs[k].key - 1] < r
               && 1 <= pairs[k].value <= |nodes| && rank[pairs[k].value - 1] < r
    ensures result == HashFold(DecodePairs(nodes, rank, pairs, r, eq), eq)
    decreases r, 0
  {
    ghost var ps := DecodePairs(nodes, rank, pairs, r, eq);
    result := [];
    var k := 0;
    while k < |pairs|
      invariant 0 <= k <= |pairs| == |ps|
      invariant result == HashFold(ps[..k], eq)
    {
      var key, value := DecodePair(nodes, rank, pairs, k, r, eq);
      FoldStep(ps, k, result, key, value, eq);
      result := HashSet(result, key, value, eq);
      k := k + 1;
    }
    FoldAll(ps, eq);
  }

  /** The two conversions of one turn of the mapping loop, for pair `k`: the key node, then the
      value node. */
  method DecodePair(nodes: seq<Node>, ghost rank: seq<nat>, pairs: seq<NodePair>, k: nat, ghost r: nat, eq: KeyEq)
    returns (key: Value, value: Value)
    requires Ranked(nodes, rank)
    requires forall k :: 0 <= k < |pairs| ==>
               && 1 <= pairs[k].key <= |nodes| && rank[pairs[k].key - 1] < r
               && 1 <= pairs[k].value <= |nodes| && rank[pairs[k].value - 1] < r
    requires k < |pairs|
    ensures DecodePairs(nodes, rank, pairs, r, eq)[k] == Entry(key, value)
    decreases r, 0, 0
  {
    key := DecodeNode(nodes, rank, pairs[k].key, eq);
    value := DecodeNode(nodes, rank, pairs[k].value, eq);
    DecodedPair(nodes, rank, pairs, r, eq, k);
  }

  /** A scalar node becomes a string of the same bytes, a sequence node an array with one element
      per item, a mapping node a hash, and a node of any other type nil. */
  lemma DecodedKind(nodes: seq<Node>, rank: seq<nat>, id: nat, eq: KeyEq)
    requires Ranked(nodes, rank) && 1 <= id <= |nodes|
    ensures var v := Decode(nodes, rank, id, eq);
            && (nodes[id - 1].Scalar? <==> v.Str?)
            && (v.Str? ==> v.bytes == nodes[id - 1].value)
            && (nodes[id - 1].Sequence? <==> v.Arr?)
            && (v.Arr? ==> |v.elems| == |nodes[id - 1].items|)
            && (nodes[id - 1].Mapping? <==> v.Hash?)
            && (nodes[id - 1].NoNode? <==> v == Nil)
  {
  }

  /** A sequence node decodes to the array of its items, decoded in their stored order. */
  lemma DecodeSequenceNode(nodes: seq<Node>, rank: seq<nat>, id: nat, items: seq<nat>, eq: KeyEq)
    requires Ranked(nodes, rank) && 1 <= id <= |nodes| && nodes[id - 1] == Sequence(items)
    ensures forall k :: 0 <= k < |items| ==> 1 <= items[k] <= |nodes| && rank[items[k] - 1] < rank[id - 1]
    ensures Decode(nodes, rank, id, eq) == Arr(DecodeItems(nodes, rank, items, rank[id - 1], eq))
  {
    SequenceChildren(nodes, rank, id, items);
  }

  /** A mapping node decodes to the hash that setting its decoded pairs one by one builds. */
  lemma DecodeMappingNode(nodes: seq<Node>, rank: seq<nat>, id: nat, pairs: seq<NodePair>, eq: KeyEq)
    requires Ranked(nodes, rank) && 1 <= id <= |nodes| && nodes[id - 1] == Mapping(pairs)
    ensures forall k :: 0 <= k < |pairs| ==>
              && 1 <= pairs[k].key <= |nodes| && rank[pairs[k].key - 1] < rank[id - 1]
              && 1 <= pairs[k].value <= |nodes| && rank[pairs[k].value - 1] < rank[id - 1]
    ensures Decode(nodes, rank, id, eq) == Hash(HashFold(DecodePairs(nodes, rank, pairs, rank[id - 1], eq), eq))
  {
    MappingChildren(nodes, rank, id, pairs);
  }

  /** Decoding yields only strings, arrays, hashes and nil, all the way down. */
  lemma {:induction false} DecodedLoadable(nodes: seq<Node>, rank: seq<nat>, id: nat, eq: KeyEq)
    requires Ranked(nodes, rank) && 1 <= id <= |nodes|
    ensures Loadable(Decode(nodes, rank, id, eq))
    decreases rank[id - 1], 1
  {
    match nodes[id - 1]
    case Sequence(items) =>
      DecodeSequenceNode(nodes, rank, id, items, eq);
      ItemsLoadable(nodes, rank, items, rank[id - 1], eq);
    case Mapping(pairs) =>
      DecodeMappingNode(nodes, rank, id, pairs, eq);
      PairsLoadable(nodes, rank, pairs, rank[id - 1], eq);
      FoldedLoadable(DecodePairs(nodes, rank, pairs, rank[id - 1], eq), eq);
    case _ =>
  }

  lemma {:induction false} ItemsLoadable(nodes: seq<Node>, rank: seq<nat>, ids: seq<nat>, r: nat, eq: KeyEq)
    requires Ranked(nodes, rank)
    requires forall k :: 0 <= k < |ids| ==> 1 <= ids[k] <= |nodes| && rank[ids[k] - 1] < r
    ensures forall k :: 0 <= k < |ids| ==> Loadable(DecodeItems(nodes, rank, ids, r, eq)[k])
    decreases r, 0
  {
    forall k | 0 <= k < |ids| ensures Loadable(DecodeItems(nodes, rank, ids, r, eq)[k]) {
      DecodedItem(nodes, rank, ids, r, eq, k);
      DecodedLoadable(nodes, rank, ids[k], eq);
    }
  }

  lemma {:induction false} PairsLoadable(nodes: seq<Node>, rank: seq<nat>, pairs: seq<NodePair>, r: nat, eq: KeyEq)
    requires Ranked(nodes, rank)
    requires forall k :: 0 <= k < |pairs| ==>
               && 1 <= pairs[k].key <= |nodes| && rank[pairs[k].key - 1] < r
               && 1 <= pairs[k].value <= |nodes| && rank[pairs[k].value - 1] < r
    ensures var ps := DecodePairs(nodes, rank, pairs, r, eq);
            forall k :: 0 <= k < |ps| ==> Loadable(ps[k].key) && Loadable(ps[k].val)
    decreases r, 0
  {
    var ps := DecodePairs(nodes, rank, pairs, r, eq);
    forall k | 0 <= k < |ps| ensures Loadable(ps[k].key) && Loadable(ps[k].val) {
      DecodedPair(nodes, rank, pairs, r, eq, k);
      DecodedLoadable(nodes, rank, pairs[k].key, eq);
      DecodedLoadable(nodes, rank, pairs[k].value, eq);
    }
  }

  // ---------------------------------------------------------------------------
  // What decoding a mapping promises.

  /** Last write wins: the decoded hash maps a key to the decoded value of the LAST pair whose
      decoded key is equal to it. */
  lemma MappingLastWriteWins(nodes: seq<Node>, rank: seq<nat>, id: nat, pairs: seq<NodePair>, eq: KeyEq,
                             k: Value, j: nat)
    requires Equivalence(eq)
    requires Ranked(nodes, rank) && 1 <= id <= |nodes| && nodes[id - 1] == Mapping(pairs)
    requires j < |pairs| && eq(Decode(nodes, rank, pairs[j].key, eq), k)
    requires forall j' :: j < j' < |pairs| ==> !eq(Decode(nodes, rank, pairs[j'].key, eq), k)
    ensures HashGet(Decode(nodes, rank, id, eq).entries, k, eq) == Decode(nodes, rank, pairs[j].value, eq)
  {
    DecodeMappingNode(nodes, rank, id, pairs, eq);
    var ps := DecodePairs(nodes, rank, pairs, rank[id - 1], eq);
    forall j' | 0 <= j' < |pairs| ensures ps[j'].key == Decode(nodes, rank, pairs[j'].key, eq) {
      DecodedPair(nodes, rank, pairs, rank[id - 1], eq, j');
    }
    DecodedPair(nodes, rank, pairs, rank[id - 1], eq, j);
    LastWriteWins(ps, k, j, eq);
  }

  /** The decoded hash never holds two equal keys, and it holds a key exactly when some pair's
      decoded key is equal to it. */
  lemma MappingKeys(nodes: seq<Node>, rank: seq<nat>, id: nat, pairs: seq<NodePair>, eq: KeyEq, k: Value)
    requires Equivalence(eq)
    requires Ranked(nodes, rank) && 1 <= id <= |nodes| && nodes[id - 1] == Mapping(pairs)
    ensures UniqueKeys(Decode(nodes, rank, id, eq).entries, eq)
    ensures HasKey(Decode(nodes, rank, id, eq).entries, k, eq)
        <==> exists j :: 0 <= j < |pairs| && eq(Decode(nodes, rank, pairs[j].key, eq), k)
  {
    DecodeMappingNode(nodes, rank, id, pairs, eq);
    var ps := DecodePairs(nodes, rank, pairs, rank[id - 1], eq);
    forall j | 0 <= j < |pairs| ensures ps[j].key == Decode(nodes, rank, pairs[j].key, eq) {
      DecodedPair(nodes, rank, pairs, rank[id - 1], eq, j);
    }
    FoldedKeysUnique(ps, eq);
    FoldedKeyPresent(ps, k, eq);
    if HasKey(ps, k, eq) {
      var j :| 0 <= j < |ps| && eq(ps[j].key, k);
      assert eq(Decode(nodes, rank, pairs[j].key, eq), k);
    }
    if exists j :: 0 <= j < |pairs| && eq(Decode(nodes, rank, pairs[j].key, eq), k) {
      var j :| 0 <= j < |pairs| && eq(Decode(nodes, rank, pairs[j].key, eq), k);
      assert eq(ps[j].key, k);
    }
  }
}
