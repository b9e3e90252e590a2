/** The document `yaml_mrb_to_node` builds is a tree: every node it appends, except the first,
    is linked as a child exactly once, and the first is linked nowhere. A value that occurs twice
    in the mruby object is encoded twice, never shared. */
module Parents {
  import opened Values
  import opened Document
  import opened Encoder

  /** The ids a mapping's pairs link, each key id followed by its value id. */
  function PairIds(pairs: seq<NodePair>): (ids: seq<nat>)
    ensures |ids| == 2 * |pairs|
  {
    if |pairs| == 0 then []
    else PairIds(pairs[..|pairs| - 1]) + [pairs[|pairs| - 1].key, pairs[|pairs| - 1].value]
  }

  /** The ids a node links as its children. */
  function NodeChildren(n: Node): (ids: seq<nat>) {
    match n
    case Sequence(items) => items
    case Mapping(pairs) => PairIds(pairs)
    case _ => []
  }

  /** Every child id linked by the nodes of `t`, node after node. */
  function ChildIds(t: seq<Node>): (ids: seq<nat>) {
    if |t| == 0 then [] else ChildIds(t[..|t| - 1]) + NodeChildren(t[|t| - 1])
  }

  /** How many times `x` occurs in `s`. */
  function Count(s: seq<nat>, x: nat): (c: nat) {
    if |s| == 0 then 0 else Count(s[..|s| - 1], x) + (if s[|s| - 1] == x then 1 else 0)
  }

  lemma {:induction false} CountConcat(a: seq<nat>, b: seq<nat>, x: nat)
    ensures Count(a + b, x) == Count(a, x) + Count(b, x)
    decreases |b|
  {
    if |b| == 0 {
      assert a + b == a;
    } else {
      var front := b[..|b| - 1];
      assert (a + b)[..|a + b| - 1] == a + front;
      assert (a + b)[|a + b| - 1] == b[|b| - 1];
      CountConcat(a, front, x);
    }
  }

  lemma {:induction false} ChildIdsConcat(x: seq<Node>, y: seq<Node>)
    ensures ChildIds(x + y) == ChildIds(x) + ChildIds(y)
    decreases |y|
  {
    if |y| == 0 {
      assert x + y == x;
    } else {
      var front := y[..|y| - 1];
      assert (x + y)[..|x + y| - 1] == x + front;
      assert (x + y)[|x + y| - 1] == y[|y| - 1];
      ChildIdsConcat(x, front);
    }
  }

  lemma ChildIdsCons(n: Node, t: seq<Node>)
    ensures ChildIds([n] + t) == NodeChildren(n) + ChildIds(t)
  {
    ChildIdsConcat([n], t);
    assert [n][..0] == [];
  }

  /** The nodes appended for a value, numbered from `base`, link each id after `base` among
      them exactly once, and no other id. */
  lemma {:induction false} TreeChildren(v: Value, base: nat, toS: ToS, eq: KeyEq, x: nat)
    ensures var t := EncodeTree(v, base, toS, eq);
            Count(ChildIds(t), x) == if base < x < base + |t| then 1 else 0
    decreases Depth(v), 2
  {
    if v.Arr? {
      ArrayChildren(v, base, toS, eq, x);
    } else if v.Hash? {
      HashChildren(v, base, toS, eq, x);
    } else {
      assert EncodeTree(v, base, toS, eq) == [Scalar(AsString(v, toS))] + [];
      RootCounted(Scalar(AsString(v, toS)), [], [], base, x);
    }
  }

  lemma {:induction false} ArrayChildren(v: Value, base: nat, toS: ToS, eq: KeyEq, x: nat)
    requires v.Arr?
    ensures var t := EncodeTree(v, base, toS, eq);
            Count(ChildIds(t), x) == if base < x < base + |t| then 1 else 0
    decreases Depth(v), 1
  {
    var r := EncodeItems(v, |v.elems|, base + 1, toS, eq);
    ItemsChildren(v, |v.elems|, base + 1, toS, eq, x);
    RootCounted(Sequence(r.1), r.1, r.0, base, x);
  }

  lemma {:induction false} HashChildren(v: Value, base: nat, toS: ToS, eq: KeyEq, x: nat)
    requires v.Hash?
    ensures var t := EncodeTree(v, base, toS, eq);
            Count(ChildIds(t), x) == if base < x < base + |t| then 1 else 0
    decreases Depth(v), 1
  {
    var r := EncodeEntries(v, |v.entries|, base + 1, toS, eq);
    EntriesChildren(v, |v.entries|, base + 1, toS, eq, x);
    RootCounted(Mapping(r.1), PairIds(r.1), r.0, base, x);
  }

  /** The counting step of `TreeChildren`: a node at `base` linking `ids`, followed by nodes
      that, with `ids`, account for each id after `base` once. */
  lemma RootCounted(n: Node, ids: seq<nat>, rest: seq<Node>, base: nat, x: nat)
    requires NodeChildren(n) == ids
    requires Count(ids, x) + Count(ChildIds(rest), x) == if base + 1 <= x < base + 1 + |rest| then 1 else 0
    ensures Count(ChildIds([n] + rest), x) == if base < x < base + 1 + |rest| then 1 else 0
  {
    ChildIdsCons(n, rest);
    CountConcat(ids, ChildIds(rest), x);
  }

  /** The nodes of the first `n` elements of an array, together with the elements' own ids,
      account for each id of those nodes exactly once. */
  lemma {:induction false} ItemsChildren(a: Value, n: nat, base: nat, toS: ToS, eq: KeyEq, x: nat)
    requires a.Arr? && n <= |a.elems|
    ensures var r := EncodeItems(a, n, base, toS, eq);
            Count(r.1, x) + Count(ChildIds(r.0), x) == if base <= x < base + |r.0| then 1 else 0
    decreases Depth(a), 0, n
  {
    if n == 0 {
      NoneCounted(x);
    } else {
      var i := n - 1;
      ItemsChildren(a, i, base, toS, eq, x);
      ItemChildren(a, i, base, toS, eq, x);
      assert i + 1 == n;
    }
  }

  /** Appending the nodes of one more element, and its id, keeps each id accounted for exactly
      once. */
  lemma {:induction false} ItemChildren(a: Value, i: nat, base: nat, toS: ToS, eq: KeyEq, x: nat)
    requires a.Arr? && i < |a.elems|
    requires var r := EncodeItems(a, i, base, toS, eq);
             Count(r.1, x) + Count(ChildIds(r.0), x) == if base <= x < base + |r.0| then 1 else 0
    ensures var r := EncodeItems(a, i + 1, base, toS, eq);
            Count(r.1, x) + Count(ChildIds(r.0), x) == if base <= x < base + |r.0| then 1 else 0
    decreases Depth(a), 0, 0
  {
    var prev := EncodeItems(a, i, base, toS, eq);
    var id := base + |prev.0|;
    ElemShallower(a, i);
    var sub := EncodeTree(a.elems[i], id, toS, eq);
    TreeChildren(a.elems[i], id, toS, eq, x);
    ItemsUnfold(a, i, base, toS, eq, id);
    ItemCounted(prev.1, prev.0, sub, base, id, x);
  }

  lemma ItemsUnfold(a: Value, i: nat, base: nat, toS: ToS, eq: KeyEq, id: nat)
    requires a.Arr? && i < |a.elems|
    requires id == base + |EncodeItems(a, i, base, toS, eq).0|
    ensures EncodeItems(a, i + 1, base, toS, eq)
         == (EncodeItems(a, i, base, toS, eq).0 + EncodeTree(a.elems[i], id, toS, eq),
             EncodeItems(a, i, base, toS, eq).1 + [id])
  {
  }

  /** The counting step of `ItemsChildren`: one more element's nodes, at the next free id, and
      that id in the list of element ids. */
  lemma ItemCounted(ids: seq<nat>, nodes: seq<Node>, sub: seq<Node>, base: nat, id: nat, x: nat)
    requires Count(ids, x) + Count(ChildIds(nodes), x) == if base <= x < base + |nodes| then 1 else 0
    requires Count(ChildIds(sub), x) == if id < x < id + |sub| then 1 else 0
    requires 1 <= |sub| && id == base + |nodes|
    ensures Count(ids + [id], x) + Count(ChildIds(nodes + sub), x) == if base <= x < base + |nodes| + |sub| then 1 else 0
  {
    LinkedConcat(nodes, sub, x);
    CountConcat(ids, [id], x);
    CountOne(id, x);
  }

  lemma LinkedConcat(nodes: seq<Node>, sub: seq<Node>, x: nat)
    ensures Count(ChildIds(nodes + sub), x) == Count(ChildIds(nodes), x) + Count(ChildIds(sub), x)
  {
    ChildIdsConcat(nodes, sub);
    CountConcat(ChildIds(nodes), ChildIds(sub), x);
  }

  lemma NoneCounted(x: nat)
    ensures Count([], x) + Count(ChildIds([]), x) == 0
    ensures Count(PairIds([]), x) == 0
  {
  }

  lemma CountOne(y: nat, x: nat)
    ensures Count([y], x) == if y == x then 1 else 0
  {
    assert [y][..0] == [];
  }

  /** The same for the nodes of the first `n` keys of a hash and their pairs of ids. */
  lemma {:induction false} EntriesChildren(h: Value, n: nat, base: nat, toS: ToS, eq: KeyEq, x: nat)
    requires h.Hash? && n <= |h.entries|
    ensures var r := EncodeEntries(h, n, base, toS, eq);
            Count(PairIds(r.1), x) + Count(ChildIds(r.0), x) == if base <= x < base + |r.0| then 1 else 0
    decreases Depth(h), 0, n
  {
    if n == 0 {
      NoneCounted(x);
    } else {
      var i := n - 1;
      EntriesChildren(h, i, base, toS, eq, x);
      EntryChildren(h, i, base, toS, eq, x);
      assert i + 1 == n;
    }
  }

  /** Appending the nodes of one more key and its value, and their pair, keeps each id
      accounted for exactly once. */
  lemma {:induction false} EntryChildren(h: Value, i: nat, base: nat, toS: ToS, eq: KeyEq, x: nat)
    requires h.Hash? && i < |h.entries|
    requires var r := EncodeEntries(h, i, base, toS, eq);
             Count(PairIds(r.1), x) + Count(ChildIds(r.0), x) == if base <= x < base + |r.0| then 1 else 0
    ensures var r := EncodeEntries(h, i + 1, base, toS, eq);
            Count(PairIds(r.1), x) + Count(ChildIds(r.0), x) == if base <= x < base + |r.0| then 1 else 0
    decreases Depth(h), 0, 0
  {
    var prev := EncodeEntries(h, i, base, toS, eq);
    var key := h.entries[i].key;
    var keyId := base + |prev.0|;
    var keySub := EncodeTree(key, keyId, toS, eq);
    var childId := keyId + |keySub|;
    EntryShallower(h, i, eq);
    var childSub := EncodeTree(HashGet(h.entries, key, eq), childId, toS, eq);
    EntriesUnfold(h, i, base, toS, eq, keyId, childId);
    TreeChildren(key, keyId, toS, eq, x);
    TreeChildren(HashGet(h.entries, key, eq), childId, toS, eq, x);
    EntryCounted(prev.1, prev.0, keySub, childSub, base, keyId, childId, x);
  }

  /** The counting step of `EntryChildren`: the nodes of one more key and of its value, each
      at the next free id, and the pair of those ids. */
  lemma EntryCounted(pairs: seq<NodePair>, nodes: seq<Node>, keySub: seq<Node>, childSub: seq<Node>,
                     base: nat, keyId: nat, childId: nat, x: nat)
    requires Count(PairIds(pairs), x) + Count(ChildIds(nodes), x) == if base <= x < base + |nodes| then 1 else 0
    requires Count(ChildIds(keySub), x) == if keyId < x < keyId + |keySub| then 1 else 0
    requires Count(ChildIds(childSub), x) == if childId < x < childId + |childSub| then 1 else 0
    requires 1 <= |keySub| && 1 <= |childSub| && keyId == base + |nodes| && childId == keyId + |keySub|
    ensures Count(PairIds(pairs + [NodePair(keyId, childId)]), x) + Count(ChildIds(nodes + keySub + childSub), x)
            == if base <= x < base + |nodes| + |keySub| + |childSub| then 1 else 0
  {
    PairsStep(pairs, NodePair(keyId, childId));
    CountConcat(PairIds(pairs), [keyId, childId], x);
    CountConcat([keyId], [childId], x);
    CountOne(keyId, x);
    CountOne(childId, x);
    LinkedConcat(nodes + keySub, childSub, x);
    LinkedConcat(nodes, keySub, x);
  }

  lemma PairsStep(pairs: seq<NodePair>, p: NodePair)
    ensures PairIds(pairs + [p]) == PairIds(pairs) + [p.key, p.value]
  {
    assert (pairs + [p])[..|pairs|] == pairs;
  }

  /** In a document dumped from any value, every node but the root has exactly one parent link,
      and the root has none: each of the ids 2 to |t| occurs once among all sequence items and
      all pair keys and values, and no other id occurs there. */
  lemma SingleParent(v: Value, toS: ToS, eq: KeyEq)
    ensures var t := EncodeTree(v, 1, toS, eq);
            forall id: nat :: Count(ChildIds(t), id) == if 2 <= id <= |t| then 1 else 0
  {
    var t := EncodeTree(v, 1, toS, eq);
    forall id: nat ensures Count(ChildIds(t), id) == if 2 <= id <= |t| then 1 else 0 {
      TreeChildren(v, 1, toS, eq, id);
    }
  }
}
