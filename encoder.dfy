/** The encoder `yaml_mrb_to_node`: from an mruby value to nodes appended to a document.
    `EncodeTree` says which nodes are appended; `Encode` appends them as the C function does,
    creating a container node first and then appending its children's ids one by one. */
module Encoder {
  import opened Values
  import opened Document

  /** The nodes that encoding `v` appends to a document whose next free id is `base`: the node
      of `v` itself (id `base`), followed by the nodes of its children in visiting order. */
  function EncodeTree(v: Value, base: nat, toS: ToS, eq: KeyEq): (t: seq<Node>)
    ensures |t| >= 1
    decreases Depth(v), 1
  {
    match v
    case Arr(es) =>
      var r := EncodeItems(v, |es|, base + 1, toS, eq);
      [Sequence(r.1)] + r.0
    case Hash(es) =>
      var r := EncodeEntries(v, |es|, base + 1, toS, eq);
      [Mapping(r.1)] + r.0
    case _ => [Scalar(AsString(v, toS))]
  }

  /** The nodes of the first `n` elements of array `a`, encoded one after another from id `base`
      on, with the ids of the elements' own nodes. */
  function EncodeItems(a: Value, n: nat, base: nat, toS: ToS, eq: KeyEq): (r: (seq<Node>, seq<nat>))
    requires a.Arr? && n <= |a.elems|
    ensures |r.1| == n
    decreases Depth(a), 0, n
  {
    if n == 0 then ([], [])
    else
      var prev := EncodeItems(a, n - 1, base, toS, eq);
      var id := base + |prev.0|;
      ElemShallower(a, n - 1);
      (prev.0 + EncodeTree(a.elems[n - 1], id, toS, eq), prev.1 + [id])
  }

  /** The nodes of the first `n` keys of hash `h` (in `mrb_hash_keys` order), each key encoded
      and then the value `mrb_hash_get` finds for it, with the pairs of their ids. */
  function EncodeEntries(h: Value, n: nat, base: nat, toS: ToS, eq: KeyEq): (r: (seq<Node>, seq<NodePair>))
    requires h.Hash? && n <= |h.entries|
    ensures |r.1| == n
    decreases Depth(h), 0, n
  {
    if n == 0 then ([], [])
    else
      var prev := EncodeEntries(h, n - 1, base, toS, eq);
      var key := h.entries[n - 1].key;
      var keyId := base + |prev.0|;
      EntryShallower(h, n - 1, eq);
      var keyNodes := EncodeTree(key, keyId, toS, eq);
      var childId := keyId + |keyNodes|;
      var childNodes := EncodeTree(HashGet(h.entries, key, eq), childId, toS, eq);
      (prev.0 + keyNodes + childNodes, prev.1 + [NodePair(keyId, childId)])
  }

  /** The first node appended for a value is its own: an array becomes a sequence node, a hash a
      mapping node, a string a scalar node of the same bytes, and any other object a scalar node
      of what its `to_s` gives. */
  lemma EncodedRoot(v: Value, base: nat, toS: ToS, eq: KeyEq)
    ensures var t := EncodeTree(v, base, toS, eq);
            && (v.Arr? <==> t[0].Sequence?)
            && (v.Hash? <==> t[0].Mapping?)
            && (v.Str? ==> t == [Scalar(v.bytes)])
            && (!v.Arr? && !v.Hash? && !v.Str? ==> t == [Scalar(toS(v))])
            && (v.Arr? ==> |t[0].items| == |v.elems|)
            && (v.Hash? ==> |t[0].pairs| == |v.entries|)
  {
  }

  /** One round of the array loop: appending the nodes of element `i` and then its id to the
      sequence node `id` gives the nodes of the first `i + 1` elements. */
  lemma ItemsStep(pre: seq<Node>, a: Value, i: nat, id: nat, toS: ToS, eq: KeyEq, childId: nat, nodes: seq<Node>)
    requires a.Arr? && i < |a.elems| && id == |pre| + 1
    requires childId == |pre| + |ArrayPrefix(a, i, id, toS, eq)| + 1
    requires nodes == pre + ArrayPrefix(a, i, id, toS, eq) + EncodeTree(a.elems[i], childId, toS, eq)
    ensures 1 <= childId <= |nodes| && nodes[id - 1].Sequence?
    ensures nodes[id - 1 := Sequence(nodes[id - 1].items + [childId])] == pre + ArrayPrefix(a, i + 1, id, toS, eq)
  {
    var done := EncodeItems(a, i, id + 1, toS, eq);
    var sub := EncodeTree(a.elems[i], childId, toS, eq);
    var next := EncodeItems(a, i + 1, id + 1, toS, eq);
    assert next == (done.0 + sub, done.1 + [childId]);
    SequenceStep(pre, done.1, done.0, sub, childId, nodes, next.1, next.0);
  }

  lemma SequenceStep(pre: seq<Node>, items: seq<nat>, rest: seq<Node>, sub: seq<Node>, childId: nat,
                     nodes: seq<Node>, items': seq<nat>, rest': seq<Node>)
    requires nodes == pre + ([Sequence(items)] + rest) + sub
    requires items' == items + [childId] && rest' == rest + sub
    ensures |pre| < |nodes| && nodes[|pre|] == Sequence(items)
    ensures nodes[|pre| := Sequence(nodes[|pre|].items + [childId])] == pre + ([Sequence(items')] + rest')
  {
    assert nodes == pre + [Sequence(items)] + (rest + sub);
    ReplaceAfter(pre, Sequence(items), Sequence(items + [childId]), rest + sub);
  }

  /** The nodes of sequence `id` once the first `i` elements have been encoded. */
  ghost function ArrayPrefix(a: Value, i: nat, id: nat, toS: ToS, eq: KeyEq): seq<Node>
    requires a.Arr? && i <= |a.elems|
  {
    [Sequence(EncodeItems(a, i, id + 1, toS, eq).1)] + EncodeItems(a, i, id + 1, toS, eq).0
  }

  /** One round of the hash loop, on the node list: the pair of ids appended to the mapping node
      right after `pre` lands in that node, and the nodes after it stay as they were. */
  lemma MappingStep(pre: seq<Node>, pairs: seq<NodePair>, rest: seq<Node>, keySub: seq<Node>, childSub: seq<Node>,
                    p: NodePair, nodes: seq<Node>, pairs': seq<NodePair>, rest': seq<Node>)
    requires nodes == pre + ([Mapping(pairs)] + rest) + keySub + childSub
    requires pairs' == pairs + [p] && rest' == rest + keySub + childSub
    ensures |pre| < |nodes| && nodes[|pre|] == Mapping(pairs)
    ensures nodes[|pre| := Mapping(nodes[|pre|].pairs + [p])] == pre + ([Mapping(pairs')] + rest')
  {
    assert nodes == pre + [Mapping(pairs)] + (rest + keySub + childSub);
    ReplaceAfter(pre, Mapping(pairs), Mapping(pairs + [p]), rest + keySub + childSub);
  }

  lemma EntriesUnfold(h: Value, i: nat, base: nat, toS: ToS, eq: KeyEq, keyId: nat, childId: nat)
    requires h.Hash? && i < |h.entries|
    requires keyId == base + |EncodeEntries(h, i, base, toS, eq).0|
    requires childId == keyId + |EncodeTree(h.entries[i].key, keyId, toS, eq)|
    ensures EncodeEntries(h, i + 1, base, toS, eq)
         == (EncodeEntries(h, i, base, toS, eq).0 + EncodeTree(h.entries[i].key, keyId, toS, eq)
               + EncodeTree(HashGet(h.entries, h.entries[i].key, eq), childId, toS, eq),
             EncodeEntries(h, i, base, toS, eq).1 + [NodePair(keyId, childId)])
  {
  }

  // ---------------------------------------------------------------------------
  // The imperative encoder.

  /** `yaml_mrb_to_node`: appends the nodes of `v` to the document and returns the id of the node
      of `v`. The nodes already in the document are left exactly as they were. */
  method Encode(doc: Document, v: Value, toS: ToS, eq: KeyEq) returns (id: nat)
    modifies doc
    ensures id == |old(doc.nodes)| + 1
    ensures doc.nodes == old(doc.nodes) + EncodeTree(v, id, toS, eq)
    decreases Depth(v), 1
  {
    match v
    case Arr(_) =>
      id := EncodeArray(doc, v, toS, eq);
    case Hash(_) =>
      id := EncodeHash(doc, v, toS, eq);
    case _ =>
      // the default branch converts with `mrb_obj_as_string` and falls through to the string branch
      var s := AsString(v, toS);
      id := doc.AddScalar(s);
  }

  /** The array branch: a sequence node, then each element encoded and its id appended. */
  method EncodeArray(doc: Document, v: Value, toS: ToS, eq: KeyEq) returns (id: nat)
    requires v.Arr?
    modifies doc
    ensures id == |old(doc.nodes)| + 1
    ensures doc.nodes == old(doc.nodes) + EncodeTree(v, id, toS, eq)
    decreases Depth(v), 0
  {
    var len := |v.elems|;
    ghost var pre := doc.nodes;
    id := doc.AddSequence();
    var i := 0;
    while i < len
      invariant 0 <= i <= len && id == |pre| + 1
      invariant doc.nodes == pre + ArrayPrefix(v, i, id, toS, eq)
    {
      var child := v.elems[i];
      ElemShallower(v, i);
      var childNode := Encode(doc, child, toS, eq);
      ItemsStep(pre, v, i, id, toS, eq, childNode, doc.nodes);
      doc.AppendSequenceItem(id, childNode);
      i := i + 1;
    }
    ArrayPrefixDone(v, id, toS, eq);
  }

  /** The hash branch: a mapping node, then for each key of `mrb_hash_keys` the key and the value
      `mrb_hash_get` finds for it encoded, and the pair of their ids appended. */
  method EncodeHash(doc: Document, v: Value, toS: ToS, eq: KeyEq) returns (id: nat)
    requires v.Hash?
    modifies doc
    ensures id == |old(doc.nodes)| + 1
    ensures doc.nodes == old(doc.nodes) + EncodeTree(v, id, toS, eq)
    decreases Depth(v), 0
  {
    var keys := HashKeys(v.entries);
    var len := |keys|;
    ghost var pre := doc.nodes;
    id := doc.AddMapping();
    var i := 0;
    while i < len
      invariant 0 <= i <= len && id == |pre| + 1
      invariant doc.nodes == pre + HashPrefix(v, i, id, toS, eq)
    {
      EncodePair(doc, v, keys[i], i, id, pre, toS, eq);
      i := i + 1;
    }
    HashPrefixDone(v, id, toS, eq);
  }

  /** The nodes of mapping `id` once the first `i` keys have been encoded. */
  ghost function HashPrefix(v: Value, i: nat, id: nat, toS: ToS, eq: KeyEq): seq<Node>
    requires v.Hash? && i <= |v.entries|
  {
    [Mapping(EncodeEntries(v, i, id + 1, toS, eq).1)] + EncodeEntries(v, i, id + 1, toS, eq).0
  }

  lemma ArrayPrefixDone(v: Value, id: nat, toS: ToS, eq: KeyEq)
    requires v.Arr?
    ensures ArrayPrefix(v, |v.elems|, id, toS, eq) == EncodeTree(v, id, toS, eq)
  {
  }

  lemma HashPrefixDone(v: Value, id: nat, toS: ToS, eq: KeyEq)
    requires v.Hash?
    ensures HashPrefix(v, |v.entries|, id, toS, eq) == EncodeTree(v, id, toS, eq)
  {
  }

  /** One turn of the hash branch's loop: encodes key `key`, the `i`-th of `mrb_hash_keys`, then
      the value `mrb_hash_get` finds for it, and appends the pair of their ids to mapping `id`. */
  method EncodePair(doc: Document, v: Value, key: Value, i: nat, id: nat, ghost pre: seq<Node>, toS: ToS, eq: KeyEq)
    requires v.Hash? && i < |v.entries| && key == v.entries[i].key && id == |pre| + 1
    requires doc.nodes == pre + HashPrefix(v, i, id, toS, eq)
    modifies doc
    ensures doc.nodes == pre + HashPrefix(v, i + 1, id, toS, eq)
    decreases Depth(v), 0, 0
  {
    var child := HashGet(v.entries, key, eq);
    EntryShallower(v, i, eq);
    var keyNode := Encode(doc, key, toS, eq);
    var childNode := Encode(doc, child, toS, eq);
    HashPrefixStep(pre, v, i, id, toS, eq, keyNode, childNode, doc.nodes);
    doc.AppendMappingPair(id, keyNode, childNode);
  }

  /** After the key and the value of entry `i` have been encoded behind the mapping's nodes,
      appending the pair of their ids to the mapping gives the nodes with `i + 1` keys. */
  lemma HashPrefixStep(pre: seq<Node>, v: Value, i: nat, id: nat, toS: ToS, eq: KeyEq,
                       keyNode: nat, childNode: nat, nodes: seq<Node>)
    requires v.Hash? && i < |v.entries| && id == |pre| + 1
    requires keyNode == |pre| + |HashPrefix(v, i, id, toS, eq)| + 1
    requires childNode == keyNode + |EncodeTree(v.entries[i].key, keyNode, toS, eq)|
    requires nodes == pre + HashPrefix(v, i, id, toS, eq) + EncodeTree(v.entries[i].key, keyNode, toS, eq)
                      + EncodeTree(HashGet(v.entries, v.entries[i].key, eq), childNode, toS, eq)
    ensures 1 <= id <= |nodes| && nodes[id - 1].Mapping? && 1 <= keyNode <= |nodes| && 1 <= childNode <= |nodes|
    ensures nodes[id - 1 := Mapping(nodes[id - 1].pairs + [NodePair(keyNode, childNode)])]
         == pre + HashPrefix(v, i + 1, id, toS, eq)
  {
    var done := EncodeEntries(v, i, id + 1, toS, eq);
    var keySub := EncodeTree(v.entries[i].key, keyNode, toS, eq);
    var childSub := EncodeTree(HashGet(v.entries, v.entries[i].key, eq), childNode, toS, eq);
    var next := EncodeEntries(v, i + 1, id + 1, toS, eq);
    EntriesUnfold(v, i, id + 1, toS, eq, keyNode, childNode);
    MappingStep(pre, done.1, done.0, keySub, childSub, NodePair(keyNode, childNode), nodes, next.1, next.0);
  }

  // ---------------------------------------------------------------------------
  // The layout of the appended nodes.

  /** Numbering the nodes of `t` from id `base`, every child id of a node is greater than the
      node's own id and names a node of `t`. */
  ghost predicate Nested(t: seq<Node>, base: nat) {
    forall i :: 0 <= i < |t| ==> ChildrenBetween(t[i], base + i, base + |t|)
  }

  lemma NestedConcat(x: seq<Node>, y: seq<Node>, base: nat)
    requires Nested(x, base) && Nested(y, base + |x|)
    ensures Nested(x + y, base)
  {
    forall i | 0 <= i < |x + y| ensures ChildrenBetween((x + y)[i], base + i, base + |x + y|) {
      if i < |x| {
        Widen(x[i], base + i, base + |x|, base + |x + y|);
      } else {
        assert (x + y)[i] == y[i - |x|];
      }
    }
  }

  lemma NestedConcat3(x: seq<Node>, y: seq<Node>, z: seq<Node>, base: nat)
    requires Nested(x, base) && Nested(y, base + |x|) && Nested(z, base + |x| + |y|)
    ensures Nested(x + y + z, base)
  {
    NestedConcat(x, y, base);
    NestedConcat(x + y, z, base);
  }

  lemma NestedCons(n: Node, t: seq<Node>, base: nat)
    requires ChildrenBetween(n, base, base + 1 + |t|) && Nested(t, base + 1)
    ensures Nested([n] + t, base)
  {
    forall i | 0 <= i < 1 + |t| ensures ChildrenBetween(([n] + t)[i], base + i, base + 1 + |t|) {
      if i > 0 {
        assert ([n] + t)[i] == t[i - 1];
      }
    }
  }

  /** The nodes appended for a value refer only to nodes appended after them, and never to a node
      outside the value's own nodes. */
  lemma {:induction false} TreeNested(v: Value, base: nat, toS: ToS, eq: KeyEq)
    ensures Nested(EncodeTree(v, base, toS, eq), base)
    decreases Depth(v), 1
  {
    match v
    case Arr(es) =>
      var r := EncodeItems(v, |es|, base + 1, toS, eq);
      ItemsNested(v, |es|, base + 1, toS, eq);
      ItemsPlaced(v, |es|, base + 1, toS, eq);
      forall k | 0 <= k < |r.1| ensures base < r.1[k] < base + 1 + |r.0| {
        assert ItemPlaced(v, k, r, base + 1, toS, eq);
      }
      NestedCons(Sequence(r.1), r.0, base);
    case Hash(es) =>
      var r := EncodeEntries(v, |es|, base + 1, toS, eq);
      EntriesNested(v, |es|, base + 1, toS, eq);
      EntriesPlaced(v, |es|, base + 1, toS, eq);
      forall k | 0 <= k < |r.1| ensures base < r.1[k].key < base + 1 + |r.0| && base < r.1[k].value < base + 1 + |r.0| {
        assert EntryPlaced(v, k, r, base + 1, toS, eq);
      }
      NestedCons(Mapping(r.1), r.0, base);
    case _ =>
  }

  lemma {:induction false} ItemsNested(a: Value, n: nat, base: nat, toS: ToS, eq: KeyEq)
    requires a.Arr? && n <= |a.elems|
    ensures Nested(EncodeItems(a, n, base, toS, eq).0, base)
    decreases Depth(a), 0, n
  {
    if n > 0 {
      var prev := EncodeItems(a, n - 1, base, toS, eq);
      var id := base + |prev.0|;
      ElemShallower(a, n - 1);
      ItemsNested(a, n - 1, base, toS, eq);
      TreeNested(a.elems[n - 1], id, toS, eq);
      NestedConcat(prev.0, EncodeTree(a.elems[n - 1], id, toS, eq), base);
    }
  }

  lemma {:induction false} EntriesNested(h: Value, n: nat, base: nat, toS: ToS, eq: KeyEq)
    requires h.Hash? && n <= |h.entries|
    ensures Nested(EncodeEntries(h, n, base, toS, eq).0, base)
    decreases Depth(h), 0, n
  {
    if n > 0 {
      EntriesNested(h, n - 1, base, toS, eq);
      EntryNested(h, n - 1, base, toS, eq);
    }
  }

  /** Appending the nodes of one more entry keeps the entries' nodes nested. */
  lemma {:induction false} EntryNested(h: Value, i: nat, base: nat, toS: ToS, eq: KeyEq)
    requires h.Hash? && i < |h.entries|
    requires Nested(EncodeEntries(h, i, base, toS, eq).0, base)
    ensures Nested(EncodeEntries(h, i + 1, base, toS, eq).0, base)
    decreases Depth(h), 0, 0
  {
    var prev := EncodeEntries(h, i, base, toS, eq).0;
    var key := h.entries[i].key;
    var keyId := base + |prev|;
    var keySub := EncodeTree(key, keyId, toS, eq);
    var childId := keyId + |keySub|;
    var child := HashGet(h.entries, key, eq);
    EntryShallower(h, i, eq);
    EntriesUnfold(h, i, base, toS, eq, keyId, childId);
    TreeNested(key, keyId, toS, eq);
    TreeNested(child, childId, toS, eq);
    NestedConcat3(prev, keySub, EncodeTree(child, childId, toS, eq), base);
  }

  /** In the encoding `r` of some of the elements of `a` from id `base` on, element `k` has the
      id `r.1[k]`, and the nodes from that id on are the ones encoding it. */
  ghost predicate ItemPlaced(a: Value, k: nat, r: (seq<Node>, seq<nat>), base: nat, toS: ToS, eq: KeyEq)
    requires a.Arr? && k < |a.elems| && k < |r.1|
  {
    base <= r.1[k] && SubAt(r.0, r.1[k] - base, EncodeTree(a.elems[k], r.1[k], toS, eq))
  }

  /** Element `k` has the id `r.1[k]`, and the nodes from that id on are the ones encoding it. */
  lemma {:induction false} ItemsPlaced(a: Value, n: nat, base: nat, toS: ToS, eq: KeyEq)
    requires a.Arr? && n <= |a.elems|
    ensures forall k :: 0 <= k < n ==> ItemPlaced(a, k, EncodeItems(a, n, base, toS, eq), base, toS, eq)
  {
    if n > 0 {
      var r := EncodeItems(a, n, base, toS, eq);
      var prev := EncodeItems(a, n - 1, base, toS, eq);
      var sub := EncodeTree(a.elems[n - 1], base + |prev.0|, toS, eq);
      assert r.0 == prev.0 + sub && r.1 == prev.1 + [base + |prev.0|];
      ItemsPlaced(a, n - 1, base, toS, eq);
      forall k | 0 <= k < n
        ensures ItemPlaced(a, k, r, base, toS, eq)
      {
        if k < n - 1 {
          assert ItemPlaced(a, k, prev, base, toS, eq);
          SubAtExtend(prev.0, prev.1[k] - base, EncodeTree(a.elems[k], prev.1[k], toS, eq), sub);
        } else {
          SubAtRight(prev.0, sub);
        }
      }
    }
  }

  /** In the encoding `r` of some of the keys of `h` from id `base` on, key `k` has the id
      `r.1[k].key` and the nodes from there on encode it; right after them, from the id
      `r.1[k].value` on, come the nodes encoding the value `mrb_hash_get` finds for it. */
  ghost predicate EntryPlaced(h: Value, k: nat, r: (seq<Node>, seq<NodePair>), base: nat, toS: ToS, eq: KeyEq)
    requires h.Hash? && k < |h.entries| && k < |r.1|
  {
    && base <= r.1[k].key
    && r.1[k].value == r.1[k].key + |EncodeTree(h.entries[k].key, r.1[k].key, toS, eq)|
    && SubAt(r.0, r.1[k].key - base, EncodeTree(h.entries[k].key, r.1[k].key, toS, eq))
    && SubAt(r.0, r.1[k].value - base, EncodeTree(HashGet(h.entries, h.entries[k].key, eq), r.1[k].value, toS, eq))
  }

  lemma {:induction false} EntriesPlaced(h: Value, n: nat, base: nat, toS: ToS, eq: KeyEq)
    requires h.Hash? && n <= |h.entries|
    ensures forall k :: 0 <= k < n ==> EntryPlaced(h, k, EncodeEntries(h, n, base, toS, eq), base, toS, eq)
  {
    if n > 0 {
      var prev := EncodeEntries(h, n - 1, base, toS, eq);
      var key := h.entries[n - 1].key;
      var keyId := base + |prev.0|;
      var keySub := EncodeTree(key, keyId, toS, eq);
      var childId := keyId + |keySub|;
      var childSub := EncodeTree(HashGet(h.entries, key, eq), childId, toS, eq);
      EntriesUnfold(h, n - 1, base, toS, eq, keyId, childId);
      var r := EncodeEntries(h, n, base, toS, eq);
      assert prev.0 + keySub + childSub == prev.0 + (keySub + childSub);
      assert r == (prev.0 + (keySub + childSub), prev.1 + [NodePair(keyId, childId)]);
      EntriesPlaced(h, n - 1, base, toS, eq);
      EntryPlacedLast(h, n - 1, base, toS, eq, prev, keySub, childSub, keyId, childId);
      EntriesPlacedGrow(h, n, prev, keySub + childSub, NodePair(keyId, childId), base, toS, eq);
    }
  }

  lemma EntriesPlacedGrow(h: Value, n: nat, prev: (seq<Node>, seq<NodePair>), more: seq<Node>, p: NodePair,
                          base: nat, toS: ToS, eq: KeyEq)
    requires h.Hash? && 0 < n <= |h.entries| && |prev.1| == n - 1
    requires forall k :: 0 <= k < n - 1 ==> EntryPlaced(h, k, prev, base, toS, eq)
    requires EntryPlaced(h, n - 1, (prev.0 + more, prev.1 + [p]), base, toS, eq)
    ensures forall k :: 0 <= k < n ==> EntryPlaced(h, k, (prev.0 + more, prev.1 + [p]), base, toS, eq)
  {
    forall k | 0 <= k < n - 1 ensures EntryPlaced(h, k, (prev.0 + more, prev.1 + [p]), base, toS, eq) {
      EntryPlacedExtend(h, k, prev, more, p, base, toS, eq);
    }
  }

  /** Entry `i` is placed right after the nodes of the entries before it. */
  lemma EntryPlacedLast(h: Value, i: nat, base: nat, toS: ToS, eq: KeyEq, prev: (seq<Node>, seq<NodePair>),
                        keySub: seq<Node>, childSub: seq<Node>, keyId: nat, childId: nat)
    requires h.Hash? && i < |h.entries| && |prev.1| == i
    requires keyId == base + |prev.0| && keySub == EncodeTree(h.entries[i].key, keyId, toS, eq)
    requires childId == keyId + |keySub|
    requires childSub == EncodeTree(HashGet(h.entries, h.entries[i].key, eq), childId, toS, eq)
    ensures EntryPlaced(h, i, (prev.0 + (keySub + childSub), prev.1 + [NodePair(keyId, childId)]), base, toS, eq)
  {
    var all := prev.0 + (keySub + childSub);
    SubAtRight(prev.0, keySub + childSub);
    SubAtSplit(all, |prev.0|, keySub, childSub);
  }

  lemma EntryPlacedExtend(h: Value, k: nat, r: (seq<Node>, seq<NodePair>), more: seq<Node>, p: NodePair,
                          base: nat, toS: ToS, eq: KeyEq)
    requires h.Hash? && k < |h.entries| && k < |r.1|
    requires EntryPlaced(h, k, r, base, toS, eq)
    ensures EntryPlaced(h, k, (r.0 + more, r.1 + [p]), base, toS, eq)
  {
    SubAtExtend(r.0, r.1[k].key - base, EncodeTree(h.entries[k].key, r.1[k].key, toS, eq), more);
    SubAtExtend(r.0, r.1[k].value - base,
                EncodeTree(HashGet(h.entries, h.entries[k].key, eq), r.1[k].value, toS, eq), more);
  }

  /** The ids of an array's elements increase in element order. */
  lemma ItemsOrdered(a: Value, n: nat, base: nat, toS: ToS, eq: KeyEq)
    requires a.Arr? && n <= |a.elems|
    ensures var r := EncodeItems(a, n, base, toS, eq);
            forall j, k :: 0 <= j < k < n ==> r.1[j] < r.1[k]
  {
    if n > 0 {
      var prev := EncodeItems(a, n - 1, base, toS, eq);
      ItemsOrdered(a, n - 1, base, toS, eq);
      ItemsPlaced(a, n - 1, base, toS, eq);
      forall j | 0 <= j < n - 1 ensures prev.1[j] < base + |prev.0| {
        assert ItemPlaced(a, j, prev, base, toS, eq);
      }
    }
  }

  /** A hash's pairs come in key order, each pair's key node before its value node, and the nodes
      of one pair before those of the next. */
  lemma EntriesOrdered(h: Value, n: nat, base: nat, toS: ToS, eq: KeyEq)
    requires h.Hash? && n <= |h.entries|
    ensures var r := EncodeEntries(h, n, base, toS, eq);
            && (forall k :: 0 <= k < n ==> r.1[k].key < r.1[k].value)
            && (forall j, k :: 0 <= j < k < n ==> r.1[j].value < r.1[k].key)
  {
    if n > 0 {
      var prev := EncodeEntries(h, n - 1, base, toS, eq);
      EntriesOrdered(h, n - 1, base, toS, eq);
      EntriesPlaced(h, n - 1, base, toS, eq);
      forall j | 0 <= j < n ensures EncodeEntries(h, n, base, toS, eq).1[j].key < EncodeEntries(h, n, base, toS, eq).1[j].value {
        EntriesPlaced(h, n, base, toS, eq);
        assert EntryPlaced(h, j, EncodeEntries(h, n, base, toS, eq), base, toS, eq);
      }
      forall j | 0 <= j < n - 1 ensures prev.1[j].value < base + |prev.0| {
        assert EntryPlaced(h, j, prev, base, toS, eq);
      }
    }
  }

  /** Encoding a value into an empty document yields an acyclic document: every child id is
      greater than its parent's id and names a node of the document. */
  lemma EncodedTopological(v: Value, toS: ToS, eq: KeyEq)
    ensures Topological(EncodeTree(v, 1, toS, eq))
  {
    TreeNested(v, 1, toS, eq);
  }
}
