/** The libyaml document the transcoder reads and builds: an arena of nodes addressed by
    1-based ids, with the append-only mutators the encoder calls. */
module Document {
  import opened Values

  /** A key/value pair of a mapping node, as the ids of its two nodes. */
  datatype NodePair = NodePair(key: nat, value: nat)

  /** A document node. The node with id `i` is the (i-1)-th element of the node list. */
  datatype Node =
    | Scalar(value: seq<byte>)       // YAML_SCALAR_NODE: its bytes, `length` of them
    | Sequence(items: seq<nat>)      // YAML_SEQUENCE_NODE: item ids, in stored order
    | Mapping(pairs: seq<NodePair>)  // YAML_MAPPING_NODE: pairs, in stored order
    | NoNode                         // YAML_NO_NODE: the remaining node type

  /** `yaml_document_get_node`: the node with id `id`. */
  function GetNode(nodes: seq<Node>, id: nat): (n: Node)
    requires 1 <= id <= |nodes|
    ensures n in nodes
  {
    nodes[id - 1]
  }

  /** Ids are stable as a document grows: after a node is appended, its id (the new node count)
      gives that node, and every earlier id still gives the node it gave before. */
  lemma GetNodeAppended(nodes: seq<Node>, m: Node, id: nat)
    requires 1 <= id <= |nodes| + 1
    ensures GetNode(nodes + [m], id) == if id == |nodes| + 1 then m else GetNode(nodes, id)
  {
  }

  // ---------------------------------------------------------------------------
  // Well-formedness: child ids name nodes of the document, and the graph is acyclic.

  predicate ChildrenBelow(rank: seq<nat>, n: Node, r: nat) {
    match n
    case Sequence(items) => forall k :: 0 <= k < |items| ==> 1 <= items[k] <= |rank| && rank[items[k] - 1] < r
    case Mapping(pairs) =>
      forall k :: 0 <= k < |pairs| ==>
        && 1 <= pairs[k].key <= |rank| && rank[pairs[k].key - 1] < r
        && 1 <= pairs[k].value <= |rank| && rank[pairs[k].value - 1] < r
    case _ => true
  }

  /** `rank` gives every node a number greater than the numbers of its children. A document has
      such a ranking exactly when every child id is valid and no node reaches itself; nodes may
      still be shared, as a libyaml alias shares the node of its anchor. */
  ghost predicate Ranked(nodes: seq<Node>, rank: seq<nat>) {
    && |rank| == |nodes|
    && forall i {:trigger nodes[i]} :: 0 <= i < |nodes| ==> ChildrenBelow(rank, nodes[i], rank[i])
  }

  /** The children of a mapping node of a ranked document are valid ids ranked below it. */
  lemma MappingChildren(nodes: seq<Node>, rank: seq<nat>, id: nat, pairs: seq<NodePair>)
    requires Ranked(nodes, rank) && 1 <= id <= |nodes| && nodes[id - 1] == Mapping(pairs)
    ensures forall k :: 0 <= k < |pairs| ==>
              && 1 <= pairs[k].key <= |nodes| && rank[pairs[k].key - 1] < rank[id - 1]
              && 1 <= pairs[k].value <= |nodes| && rank[pairs[k].value - 1] < rank[id - 1]
  {
    assert ChildrenBelow(rank, nodes[id - 1], rank[id - 1]);
  }

  /** The children of a sequence node of a ranked document are valid ids ranked below it. */
  lemma SequenceChildren(nodes: seq<Node>, rank: seq<nat>, id: nat, items: seq<nat>)
    requires Ranked(nodes, rank) && 1 <= id <= |nodes| && nodes[id - 1] == Sequence(items)
    ensures forall k :: 0 <= k < |items| ==> 1 <= items[k] <= |nodes| && rank[items[k] - 1] < rank[id - 1]
  {
    assert ChildrenBelow(rank, nodes[id - 1], rank[id - 1]);
  }

  predicate ChildrenBetween(n: Node, lo: int, hi: int) {
    match n
    case Sequence(items) => forall k :: 0 <= k < |items| ==> lo < items[k] < hi
    case Mapping(pairs) =>
      forall k :: 0 <= k < |pairs| ==> lo < pairs[k].key < hi && lo < pairs[k].value < hi
    case _ => true
  }

  /** Every child id is greater than the id of its parent and names a node of the document. */
  ghost predicate Topological(nodes: seq<Node>) {
    forall i :: 0 <= i < |nodes| ==> ChildrenBetween(nodes[i], i + 1, |nodes| + 1)
  }

  /** The ranking that gives the node with id `i` the number n + 1 - i. */
  function Countdown(n: nat): (rank: seq<nat>) {
    seq(n, i requires 0 <= i < n => n - i)
  }

  /** A document whose children all come after their parents is acyclic. */
  lemma TopologicalRanked(nodes: seq<Node>)
    requires Topological(nodes)
    ensures Ranked(nodes, Countdown(|nodes|))
  {
    var rank := Countdown(|nodes|);
    forall i | 0 <= i < |nodes| ensures ChildrenBelow(rank, nodes[i], rank[i]) {
      assert ChildrenBetween(nodes[i], i + 1, |nodes| + 1);
    }
  }

  // ---------------------------------------------------------------------------
  // Segments of a node list.

  /** `sub` occurs in `nodes` starting at position `off`. */
  predicate SubAt(nodes: seq<Node>, off: nat, sub: seq<Node>) {
    off + |sub| <= |nodes| && nodes[off..off + |sub|] == sub
  }

  lemma SubAtTrans(a: seq<Node>, o1: nat, b: seq<Node>, o2: nat, c: seq<Node>)
    requires SubAt(a, o1, b) && SubAt(b, o2, c)
    ensures SubAt(a, o1 + o2, c)
  {
    forall i | 0 <= i < |c| ensures a[o1 + o2 + i] == c[i] {
      assert b[o2 + i] == c[i];
    }
  }

  lemma SubAtSplit(a: seq<Node>, off: nat, x: seq<Node>, y: seq<Node>)
    requires SubAt(a, off, x + y)
    ensures SubAt(a, off, x) && SubAt(a, off + |x|, y)
  {
    forall i | 0 <= i < |x| ensures a[off + i] == x[i] {
      assert (x + y)[i] == x[i];
    }
    forall i | 0 <= i < |y| ensures a[off + |x| + i] == y[i] {
      assert (x + y)[|x| + i] == y[i];
    }
  }

  lemma SubAtExtend(a: seq<Node>, off: nat, x: seq<Node>, b: seq<Node>)
    requires SubAt(a, off, x)
    ensures SubAt(a + b, off, x)
  {
    forall i | 0 <= i < |x| ensures (a + b)[off + i] == x[i] {
      assert a[off + i] == x[i];
    }
  }

  lemma SubAtShift(a: seq<Node>, off: nat, x: seq<Node>, n: Node)
    requires SubAt(a, off, x)
    ensures SubAt([n] + a, off + 1, x)
  {
    forall i | 0 <= i < |x| ensures ([n] + a)[off + 1 + i] == x[i] {
      assert a[off + i] == x[i];
    }
  }

  lemma SubAtRight(x: seq<Node>, y: seq<Node>)
    ensures SubAt(x + y, |x|, y)
  {
  }

  lemma Widen(n: Node, lo: int, hi: int, hi': int)
    requires ChildrenBetween(n, lo, hi) && hi <= hi'
    ensures ChildrenBetween(n, lo, hi')
  {
  }

  /** Replacing the node right after `p` leaves the nodes around it as they were. */
  lemma ReplaceAfter(p: seq<Node>, x: Node, y: Node, rest: seq<Node>)
    ensures (p + [x] + rest)[|p| := y] == p + [y] + rest
  {
  }

  // ---------------------------------------------------------------------------
  // The document the encoder fills (yaml_document_t and its mutators).

  class Document {
    var nodes: seq<Node>

    /** `yaml_document_initialize` with no directives: an empty node list. */
    constructor ()
      ensures nodes == []
    {
      nodes := [];
    }

    /** `yaml_document_add_scalar`: appends a scalar node and returns its id. libyaml refuses
        bytes that are not valid UTF-8 and returns 0 instead, which the encoder would then link
        as a child id; that failure is not modelled, so every byte string is accepted here. */
    method AddScalar(value: seq<byte>) returns (id: nat)
      modifies this
      ensures nodes == old(nodes) + [Scalar(value)]
      ensures id == |nodes|
    {
      nodes := nodes + [Scalar(value)];
      id := |nodes|;
    }

    /** `yaml_document_add_sequence`: appends an empty sequence node and returns its id. */
    method AddSequence() returns (id: nat)
      modifies this
      ensures nodes == old(nodes) + [Sequence([])]
      ensures id == |nodes|
    {
      nodes := nodes + [Sequence([])];
      id := |nodes|;
    }

    /** `yaml_document_add_mapping`: appends an empty mapping node and returns its id. */
    method AddMapping() returns (id: nat)
      modifies this
      ensures nodes == old(nodes) + [Mapping([])]
      ensures id == |nodes|
    {
      nodes := nodes + [Mapping([])];
      id := |nodes|;
    }

    /** `yaml_document_append_sequence_item`: adds `item` at the end of the items of sequence
        node `sequence`; every other node is left as it was. */
    method AppendSequenceItem(sequence: nat, item: nat)
      requires 1 <= sequence <= |nodes| && nodes[sequence - 1].Sequence?
      requires 1 <= item <= |nodes|
      modifies this
      ensures nodes == old(nodes)[sequence - 1 := Sequence(old(nodes)[sequence - 1].items + [item])]
    {
      nodes := nodes[sequence - 1 := Sequence(nodes[sequence - 1].items + [item])];
    }

    /** `yaml_document_append_mapping_pair`: adds the pair (`key`, `value`) at the end of the
        pairs of mapping node `mapping`; every other node is left as it was. */
    method AppendMappingPair(mapping: nat, key: nat, value: nat)
      requires 1 <= mapping <= |nodes| && nodes[mapping - 1].Mapping?
      requires 1 <= key <= |nodes| && 1 <= value <= |nodes|
      modifies this
      ensures nodes == old(nodes)[mapping - 1 := Mapping(old(nodes)[mapping - 1].pairs + [NodePair(key, value)])]
    {
      nodes := nodes[mapping - 1 := Mapping(nodes[mapping - 1].pairs + [NodePair(key, value)])];
    }
  }
}
