/** Decoding what the encoder appended. A dumped value that is loaded again comes back as its
    canonical form: the same strings, arrays and hashes, with every other object replaced by the
    string its `to_s` gives. A value made only of strings, arrays and hashes without duplicate
    keys comes back unchanged. */
module RoundTrip {
  import opened Values
  import opened Document
  import opened Decoder
  import opened Encoder

  /** The value that `v` reads back as. */
  function Canon(v: Value, toS: ToS, eq: KeyEq): (c: Value)
    decreases Depth(v), 1
  {
    match v
    case Arr(es) => Arr(CanonElems(v, toS, eq))
    case Hash(es) => Hash(HashFold(CanonEntries(v, toS, eq), eq))
    case _ => Str(AsString(v, toS))
  }

  /** An array's elements, each read back. */
  function CanonElems(a: Value, toS: ToS, eq: KeyEq): (cs: seq<Value>)
    requires a.Arr?
    ensures |cs| == |a.elems|
    decreases Depth(a), 0
  {
    seq(|a.elems|, k requires 0 <= k < |a.elems| => (ElemShallower(a, k); Canon(a.elems[k], toS, eq)))
  }

  /** The pairs a dumped hash is read back from: each key in `mrb_hash_keys` order, with the value
      `mrb_hash_get` found for it, both read back. */
  function CanonEntries(h: Value, toS: ToS, eq: KeyEq): (ps: seq<Entry>)
    requires h.Hash?
    ensures |ps| == |h.entries|
    decreases Depth(h), 0
  {
    seq(|h.entries|, k requires 0 <= k < |h.entries| =>
      (EntryShallower(h, k, eq);
       Entry(Canon(h.entries[k].key, toS, eq), Canon(HashGet(h.entries, h.entries[k].key, eq), toS, eq))))
  }

  /** What the encoder appended for `v`, found anywhere in an acyclic document at id `base`,
      decodes to the canonical form of `v`. */
  lemma {:induction false} DecodeEncoded(nodes: seq<Node>, rank: seq<nat>, v: Value, base: nat, toS: ToS, eq: KeyEq)
    requires Ranked(nodes, rank) && 1 <= base
    requires SubAt(nodes, base - 1, EncodeTree(v, base, toS, eq))
    ensures Decode(nodes, rank, base, eq) == Canon(v, toS, eq)
    decreases Depth(v), 2
  {
    var t := EncodeTree(v, base, toS, eq);
    assert nodes[base - 1] == t[0];
    match v
    case Arr(es) =>
      var r := EncodeItems(v, |es|, base + 1, toS, eq);
      assert t == [Sequence(r.1)] + r.0;
      SubAtSplit(nodes, base - 1, [Sequence(r.1)], r.0);
      ItemsPlaced(v, |es|, base + 1, toS, eq);
      DecodeEncodedItems(nodes, rank, v, base + 1, r, toS, eq);
    case Hash(es) =>
      var r := EncodeEntries(v, |es|, base + 1, toS, eq);
      assert t == [Mapping(r.1)] + r.0;
      SubAtSplit(nodes, base - 1, [Mapping(r.1)], r.0);
      EntriesPlaced(v, |es|, base + 1, toS, eq);
      DecodeEncodedEntries(nodes, rank, v, base + 1, r, toS, eq);
    case _ =>
  }

  /** A sequence node whose items name the nodes of the encoded elements decodes to the
      canonical form of the array. */
  lemma {:induction false} DecodeEncodedItems(nodes: seq<Node>, rank: seq<nat>, v: Value, first: nat,
                                              r: (seq<Node>, seq<nat>), toS: ToS, eq: KeyEq)
    requires v.Arr? && Ranked(nodes, rank) && 2 <= first <= |nodes| + 1
    requires nodes[first - 2] == Sequence(r.1)
    requires |r.1| == |v.elems| && SubAt(nodes, first - 1, r.0)
    requires forall k :: 0 <= k < |v.elems| ==> ItemPlaced(v, k, r, first, toS, eq)
    ensures Decode(nodes, rank, first - 1, eq) == Canon(v, toS, eq)
    decreases Depth(v), 1
  {
    DecodeSequenceNode(nodes, rank, first - 1, r.1, eq);
    ItemsDecoded(nodes, rank, v, first, r, rank[first - 2], toS, eq);
  }

  /** The items of a sequence node whose elements start at id `first` decode to the elements of
      the array, each read back. */
  lemma ItemsDecoded(nodes: seq<Node>, rank: seq<nat>, v: Value, first: nat,
                     r: (seq<Node>, seq<nat>), bound: nat, toS: ToS, eq: KeyEq)
    requires v.Arr? && Ranked(nodes, rank) && 2 <= first
    requires |r.1| == |v.elems| && SubAt(nodes, first - 1, r.0)
    requires forall k :: 0 <= k < |v.elems| ==> ItemPlaced(v, k, r, first, toS, eq)
    requires forall k :: 0 <= k < |r.1| ==> 1 <= r.1[k] <= |nodes| && rank[r.1[k] - 1] < bound
    ensures DecodeItems(nodes, rank, r.1, bound, eq) == CanonElems(v, toS, eq)
    decreases Depth(v), 0, 1
  {
    var vs := DecodeItems(nodes, rank, r.1, bound, eq);
    forall k | 0 <= k < |v.elems| ensures vs[k] == CanonElems(v, toS, eq)[k] {
      DecodedItem(nodes, rank, r.1, bound, eq, k);
      DecodeEncodedItem(nodes, rank, v, first - 1, r, k, toS, eq);
    }
  }

  lemma {:induction false} DecodeEncodedItem(nodes: seq<Node>, rank: seq<nat>, v: Value, base: nat,
                                             r: (seq<Node>, seq<nat>), k: nat, toS: ToS, eq: KeyEq)
    requires v.Arr? && Ranked(nodes, rank) && 1 <= base && k < |v.elems| && k < |r.1|
    requires SubAt(nodes, base, r.0) && ItemPlaced(v, k, r, base + 1, toS, eq)
    ensures 1 <= r.1[k] <= |nodes|
    ensures Decode(nodes, rank, r.1[k], eq) == Canon(v.elems[k], toS, eq)
    decreases Depth(v), 0, 0
  {
    SubAtTrans(nodes, base, r.0, r.1[k] - (base + 1), EncodeTree(v.elems[k], r.1[k], toS, eq));
    ElemShallower(v, k);
    DecodeEncoded(nodes, rank, v.elems[k], r.1[k], toS, eq);
  }

  /** A mapping node whose pairs name the nodes of the encoded keys and of the values found for
      them decodes to the canonical form of the hash. */
  lemma {:induction false} DecodeEncodedEntries(nodes: seq<Node>, rank: seq<nat>, v: Value, first: nat,
                                                r: (seq<Node>, seq<NodePair>), toS: ToS, eq: KeyEq)
    requires v.Hash? && Ranked(nodes, rank) && 2 <= first <= |nodes| + 1
    requires nodes[first - 2] == Mapping(r.1)
    requires |r.1| == |v.entries| && SubAt(nodes, first - 1, r.0)
    requires forall k :: 0 <= k < |v.entries| ==> EntryPlaced(v, k, r, first, toS, eq)
    ensures Decode(nodes, rank, first - 1, eq) == Canon(v, toS, eq)
    decreases Depth(v), 1
  {
    DecodeMappingNode(nodes, rank, first - 1, r.1, eq);
    PairsDecoded(nodes, rank, v, first, r, rank[first - 2], toS, eq);
  }

  /** The pairs of a mapping node whose entries start at id `first` decode to the pairs a dumped
      hash is read back from. */
  lemma PairsDecoded(nodes: seq<Node>, rank: seq<nat>, v: Value, first: nat,
                     r: (seq<Node>, seq<NodePair>), bound: nat, toS: ToS, eq: KeyEq)
    requires v.Hash? && Ranked(nodes, rank) && 2 <= first
    requires |r.1| == |v.entries| && SubAt(nodes, first - 1, r.0)
    requires forall k :: 0 <= k < |v.entries| ==> EntryPlaced(v, k, r, first, toS, eq)
    requires forall k :: 0 <= k < |r.1| ==>
               && 1 <= r.1[k].key <= |nodes| && rank[r.1[k].key - 1] < bound
               && 1 <= r.1[k].value <= |nodes| && rank[r.1[k].value - 1] < bound
    ensures DecodePairs(nodes, rank, r.1, bound, eq) == CanonEntries(v, toS, eq)
    decreases Depth(v), 0, 1
  {
    var ps := DecodePairs(nodes, rank, r.1, bound, eq);
    forall k | 0 <= k < |v.entries| ensures ps[k] == CanonEntries(v, toS, eq)[k] {
      PairDecoded(nodes, rank, v, first, r, bound, k, toS, eq);
    }
  }

  lemma {:induction false} PairDecoded(nodes: seq<Node>, rank: seq<nat>, v: Value, first: nat,
                                       r: (seq<Node>, seq<NodePair>), bound: nat, k: nat, toS: ToS, eq: KeyEq)
    requires v.Hash? && Ranked(nodes, rank) && 2 <= first && k < |v.entries|
    requires |r.1| == |v.entries| && SubAt(nodes, first - 1, r.0) && EntryPlaced(v, k, r, first, toS, eq)
    requires forall k :: 0 <= k < |r.1| ==>
               && 1 <= r.1[k].key <= |nodes| && rank[r.1[k].key - 1] < bound
               && 1 <= r.1[k].value <= |nodes| && rank[r.1[k].value - 1] < bound
    ensures DecodePairs(nodes, rank, r.1, bound, eq)[k] == CanonEntries(v, toS, eq)[k]
    decreases Depth(v), 0, 0, 1
  {
    DecodedPair(nodes, rank, r.1, bound, eq, k);
    DecodeEncodedEntry(nodes, rank, v, first - 1, r, k, toS, eq);
  }

  lemma {:induction false} DecodeEncodedEntry(nodes: seq<Node>, rank: seq<nat>, v: Value, base: nat,
                                              r: (seq<Node>, seq<NodePair>), k: nat, toS: ToS, eq: KeyEq)
    requires v.Hash? && Ranked(nodes, rank) && 1 <= base && k < |v.entries| && k < |r.1|
    requires SubAt(nodes, base, r.0) && EntryPlaced(v, k, r, base + 1, toS, eq)
    ensures 1 <= r.1[k].key <= |nodes| && 1 <= r.1[k].value <= |nodes|
    ensures Decode(nodes, rank, r.1[k].key, eq) == Canon(v.entries[k].key, toS, eq)
    ensures Decode(nodes, rank, r.1[k].value, eq) == Canon(HashGet(v.entries, v.entries[k].key, eq), toS, eq)
    decreases Depth(v), 0, 0, 0
  {
    EntryShallower(v, k, eq);
    DecodeEncodedWithin(nodes, rank, r.0, base, v.entries[k].key, r.1[k].key, toS, eq);
    DecodeEncodedWithin(nodes, rank, r.0, base, HashGet(v.entries, v.entries[k].key, eq), r.1[k].value, toS, eq);
  }

  /** A value encoded from id `id` on, inside a segment that starts at position `base`. */
  lemma {:induction false} DecodeEncodedWithin(nodes: seq<Node>, rank: seq<nat>, seg: seq<Node>, base: nat,
                                               w: Value, id: nat, toS: ToS, eq: KeyEq)
    requires Ranked(nodes, rank) && 1 <= base < id
    requires SubAt(nodes, base, seg) && SubAt(seg, id - (base + 1), EncodeTree(w, id, toS, eq))
    ensures 1 <= id <= |nodes|
    ensures Decode(nodes, rank, id, eq) == Canon(w, toS, eq)
    decreases Depth(w), 3
  {
    SubAtTrans(nodes, base, seg, id - (base + 1), EncodeTree(w, id, toS, eq));
    DecodeEncoded(nodes, rank, w, id, toS, eq);
  }

  /** Encoding a value into an empty document and decoding the root gives its canonical form;
      the document is acyclic, so the root can be decoded. */
  lemma RoundTrip(v: Value, toS: ToS, eq: KeyEq)
    ensures var t := EncodeTree(v, 1, toS, eq);
            && Topological(t)
            && Ranked(t, Countdown(|t|))
            && Decode(t, Countdown(|t|), 1, eq) == Canon(v, toS, eq)
  {
    var t := EncodeTree(v, 1, toS, eq);
    EncodedTopological(v, toS, eq);
    TopologicalRanked(t);
    assert t[0..|t|] == t;
    DecodeEncoded(t, Countdown(|t|), v, 1, toS, eq);
  }

  /** A value of strings, arrays and hashes without duplicate keys is its own canonical form. */
  lemma {:induction false} PlainCanon(v: Value, toS: ToS, eq: KeyEq)
    requires Reflexive(eq) && Plain(v, eq)
    ensures Canon(v, toS, eq) == v
    decreases Depth(v)
  {
    match v
    case Str(_) =>
    case Arr(es) =>
      forall k | 0 <= k < |es| ensures CanonElems(v, toS, eq)[k] == es[k] {
        ElemShallower(v, k);
        PlainCanon(es[k], toS, eq);
      }
      assert CanonElems(v, toS, eq) == es;
    case Hash(es) =>
      forall k | 0 <= k < |es| ensures CanonEntries(v, toS, eq)[k] == es[k] {
        EntryShallower(v, k, eq);
        GetOwnKey(es, k, eq);
        PlainCanon(es[k].key, toS, eq);
        PlainCanon(es[k].val, toS, eq);
      }
      assert CanonEntries(v, toS, eq) == es;
      FoldDistinctKeys(es, eq);
  }

  /** A value read back is loadable: only strings, arrays, hashes and nil are ever decoded. */
  lemma CanonLoadable(v: Value, toS: ToS, eq: KeyEq)
    ensures Loadable(Canon(v, toS, eq))
  {
    RoundTrip(v, toS, eq);
    var t := EncodeTree(v, 1, toS, eq);
    DecodedLoadable(t, Countdown(|t|), 1, eq);
  }
}
