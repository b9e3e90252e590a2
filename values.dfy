/** The mruby values the transcoder reads and builds, and the behaviour of an mruby
    hash that the transcoder relies on: lookup by the host's key equality, insertion
    order, and an update that overwrites the value of an equal key in place. */
module Values {

  newtype byte = b: int | 0 <= b < 0x100

  /** An mruby value, seen through the type tag `mrb_type` that the transcoder switches on. */
  datatype Value =
    | Nil                         // nil, what the decoder yields for a node type it does not know
    | Str(bytes: seq<byte>)       // MRB_TT_STRING
    | Arr(elems: seq<Value>)      // MRB_TT_ARRAY
    | Hash(entries: seq<Entry>)   // MRB_TT_HASH, entries in insertion order, default value nil
    | Other(tag: nat)             // any other object: numbers, symbols, true, false, user objects

  datatype Entry = Entry(key: Value, val: Value)

  /** The host's hash-key equality (`eql?` together with `hash`), left uninterpreted. */
  type KeyEq = (Value, Value) -> bool

  /** The host's `to_s` conversion, as used by `mrb_obj_as_string`, left uninterpreted. */
  type ToS = Value -> seq<byte>

  ghost predicate Equivalence(eq: KeyEq) {
    && (forall a :: eq(a, a))
    && (forall a, b :: eq(a, b) ==> eq(b, a))
    && (forall a, b, c :: eq(a, b) && eq(b, c) ==> eq(a, c))
  }

  ghost predicate Reflexive(eq: KeyEq) {
    forall a :: eq(a, a)
  }

  /** No two entries have keys the host considers equal: the invariant of an mruby hash. */
  ghost predicate UniqueKeys(es: seq<Entry>, eq: KeyEq) {
    forall i, j :: 0 <= i < j < |es| ==> !eq(es[i].key, es[j].key)
  }

  /** `mrb_obj_as_string`: a string is returned as it is, anything else is converted with `to_s`. */
  function AsString(v: Value, toS: ToS): (s: seq<byte>) {
    if v.Str? then v.bytes else toS(v)
  }

  // ---------------------------------------------------------------------------
  // Nesting depth: the measure that the recursive transcoders decrease.

  function Max(a: nat, b: nat): (m: nat) {
    if a < b then b else a
  }

  function Depth(v: Value): (d: nat)
    decreases v, 1
  {
    match v
    case Arr(es) => 1 + ElemsDepth(v, |es|)
    case Hash(es) => 1 + EntriesDepth(v, |es|)
    case _ => 0
  }

  function ElemsDepth(a: Value, n: nat): (d: nat)
    requires a.Arr? && n <= |a.elems|
    decreases a, 0, n
  {
    if n == 0 then 0 else Max(ElemsDepth(a, n - 1), Depth(a.elems[n - 1]))
  }

  function EntriesDepth(h: Value, n: nat): (d: nat)
    requires h.Hash? && n <= |h.entries|
    decreases h, 0, n
  {
    if n == 0 then 0
    else Max(EntriesDepth(h, n - 1), Max(Depth(h.entries[n - 1].key), Depth(h.entries[n - 1].val)))
  }

  lemma {:induction false} ElemsDepthBound(a: Value, n: nat, k: nat)
    requires a.Arr? && k < n <= |a.elems|
    ensures Depth(a.elems[k]) <= ElemsDepth(a, n)
  {
    if k < n - 1 {
      ElemsDepthBound(a, n - 1, k);
    }
  }

  lemma {:induction false} EntriesDepthBound(h: Value, n: nat, k: nat)
    requires h.Hash? && k < n <= |h.entries|
    ensures Depth(h.entries[k].key) <= EntriesDepth(h, n)
    ensures Depth(h.entries[k].val) <= EntriesDepth(h, n)
  {
    if k < n - 1 {
      EntriesDepthBound(h, n - 1, k);
    }
  }

  /** An element of an array is shallower than the array. */
  lemma ElemShallower(a: Value, k: nat)
    requires a.Arr? && k < |a.elems|
    ensures Depth(a.elems[k]) < Depth(a)
  {
    ElemsDepthBound(a, |a.elems|, k);
  }

  /** A key of a hash, and whatever a lookup in the hash yields, are shallower than the hash: a
      lookup yields the value of an entry, or nil on a miss. */
  lemma EntryShallower(h: Value, k: nat, eq: KeyEq)
    requires h.Hash? && k < |h.entries|
    ensures Depth(h.entries[k].key) < Depth(h)
    ensures Depth(HashGet(h.entries, h.entries[k].key, eq)) < Depth(h)
  {
    EntriesDepthBound(h, |h.entries|, k);
    var j := FindKey(h.entries, h.entries[k].key, eq);
    if j < |h.entries| {
      EntriesDepthBound(h, |h.entries|, j);
    }
  }

  // ---------------------------------------------------------------------------
  // What the decoder can produce.

  /** A value built only from strings, arrays, hashes and nil: never another kind of object. */
  predicate Loadable(v: Value) {
    match v
    case Other(_) => false
    case Arr(es) => forall k :: 0 <= k < |es| ==> Loadable(es[k])
    case Hash(es) => forall k :: 0 <= k < |es| ==> Loadable(es[k].key) && Loadable(es[k].val)
    case _ => true
  }

  /** A value that round-trips unchanged: strings, arrays and hashes whose keys are distinct
      under the host's key equality, all the way down. */
  ghost predicate Plain(v: Value, eq: KeyEq) {
    match v
    case Str(_) => true
    case Arr(es) => forall k :: 0 <= k < |es| ==> Plain(es[k], eq)
    case Hash(es) =>
      && UniqueKeys(es, eq)
      && forall k :: 0 <= k < |es| ==> Plain(es[k].key, eq) && Plain(es[k].val, eq)
    case _ => false
  }

  // ---------------------------------------------------------------------------
  // The mruby hash operations the transcoder calls.

  /** Where a lookup of `k` lands: the first entry whose key is equal to `k`, or |es| if none is. */
  function FindKey(es: seq<Entry>, k: Value, eq: KeyEq): (j: nat)
    ensures j <= |es|
    ensures j < |es| ==> eq(es[j].key, k)
    ensures forall i :: 0 <= i < j ==> !eq(es[i].key, k)
  {
    if |es| == 0 then 0
    else if eq(es[0].key, k) then 0
    else
      var j' := FindKey(es[1..], k, eq);
      assert forall i :: 1 <= i < 1 + j' ==> es[i] == es[1..][i - 1];
      1 + j'
  }

  /** `mrb_hash_get` on a hash whose default is nil: the value stored under a key equal to `k`,
      or nil when there is none. A hash's own default value or default proc is not modelled. */
  function HashGet(es: seq<Entry>, k: Value, eq: KeyEq): (v: Value) {
    var j := FindKey(es, k, eq);
    if j < |es| then es[j].val else Nil
  }

  /** A lookup yields the value of the first entry whose key is equal to `k`. */
  lemma GetFirst(es: seq<Entry>, k: Value, eq: KeyEq, j: nat)
    requires j < |es| && eq(es[j].key, k)
    requires forall i :: 0 <= i < j ==> !eq(es[i].key, k)
    ensures HashGet(es, k, eq) == es[j].val
  {
    FindKeyAt(es, k, eq, j);
  }

  /** A lookup of a key equal to no entry's key yields nil, the default of a hash without a
      default value or default proc. */
  lemma GetMissing(es: seq<Entry>, k: Value, eq: KeyEq)
    requires forall i :: 0 <= i < |es| ==> !eq(es[i].key, k)
    ensures HashGet(es, k, eq) == Nil
  {
    FindKeyAt(es, k, eq, |es|);
  }

  /** `mrb_hash_keys`: the keys in insertion order. */
  function HashKeys(es: seq<Entry>): (ks: seq<Value>)
    ensures |ks| == |es|
    ensures forall i :: 0 <= i < |es| ==> ks[i] == es[i].key
  {
    if |es| == 0 then [] else HashKeys(es[..|es| - 1]) + [es[|es| - 1].key]
  }

  /** `mrb_hash_set`: an equal key keeps its place and its original key object and gets the new
      value; a new key is appended at the end. */
  function HashSet(es: seq<Entry>, k: Value, v: Value, eq: KeyEq): (r: seq<Entry>)
    ensures |es| <= |r| <= |es| + 1
  {
    var j := FindKey(es, k, eq);
    if j < |es| then es[j := Entry(es[j].key, v)] else es + [Entry(k, v)]
  }

  /** Setting a key keeps every existing key object in its place, and grows the hash by one
      entry, the new pair at the end, exactly when no existing key is equal to it. */
  lemma SetShape(es: seq<Entry>, k: Value, v: Value, eq: KeyEq)
    ensures var r := HashSet(es, k, v, eq);
            && (forall i :: 0 <= i < |es| ==> r[i].key == es[i].key)
            && (|r| == |es| + 1 <==> forall i :: 0 <= i < |es| ==> !eq(es[i].key, k))
            && (|r| == |es| + 1 ==> r[|es|] == Entry(k, v))
  {
  }

  /** The hash that results from setting the pairs of `ps` one after another into a new hash. */
  function HashFold(ps: seq<Entry>, eq: KeyEq): (r: seq<Entry>)
    ensures |r| <= |ps|
  {
    if |ps| == 0 then []
    else
      var last := ps[|ps| - 1];
      HashSet(HashFold(ps[..|ps| - 1], eq), last.key, last.val, eq)
  }

  /** Folding one more pair sets it into the hash folded so far. */
  lemma FoldAll(ps: seq<Entry>, eq: KeyEq)
    ensures HashFold(ps[..|ps|], eq) == HashFold(ps, eq)
  {
    assert ps[..|ps|] == ps;
  }

  lemma FoldStep(ps: seq<Entry>, k: nat, h: seq<Entry>, key: Value, val: Value, eq: KeyEq)
    requires k < |ps| && ps[k] == Entry(key, val) && h == HashFold(ps[..k], eq)
    ensures HashFold(ps[..k + 1], eq) == HashSet(h, key, val, eq)
  {
    assert ps[..k + 1][..k] == ps[..k];
  }

  /** Every key and every value of the folded hash was carried by one of the pairs. */
  lemma {:induction false} FoldedFromPairs(ps: seq<Entry>, eq: KeyEq, i: nat)
    requires i < |HashFold(ps, eq)|
    ensures exists j :: 0 <= j < |ps| && ps[j].key == HashFold(ps, eq)[i].key
    ensures exists j :: 0 <= j < |ps| && ps[j].val == HashFold(ps, eq)[i].val
  {
    var front := ps[..|ps| - 1];
    var last := ps[|ps| - 1];
    var prev := HashFold(front, eq);
    var r := HashFold(ps, eq);
    var m := FindKey(prev, last.key, eq);
    if i == m || i == |prev| {
      assert r[i].val == last.val;
      if i == |prev| {
        assert r[i].key == last.key;
      } else {
        FoldedFromPairs(front, eq, i);
        var j :| 0 <= j < |front| && front[j].key == prev[i].key;
        assert ps[j].key == r[i].key;
      }
    } else {
      assert r[i] == prev[i];
      FoldedFromPairs(front, eq, i);
      var j :| 0 <= j < |front| && front[j].key == prev[i].key;
      var j' :| 0 <= j' < |front| && front[j'].val == prev[i].val;
      assert ps[j].key == r[i].key && ps[j'].val == r[i].val;
    }
  }

  /** Folding pairs of strings, arrays, hashes and nil builds a hash of such values. */
  lemma FoldedLoadable(ps: seq<Entry>, eq: KeyEq)
    requires forall j :: 0 <= j < |ps| ==> Loadable(ps[j].key) && Loadable(ps[j].val)
    ensures forall i :: 0 <= i < |HashFold(ps, eq)| ==>
              Loadable(HashFold(ps, eq)[i].key) && Loadable(HashFold(ps, eq)[i].val)
  {
    forall i | 0 <= i < |HashFold(ps, eq)|
      ensures Loadable(HashFold(ps, eq)[i].key) && Loadable(HashFold(ps, eq)[i].val)
    {
      FoldedFromPairs(ps, eq, i);
    }
  }

  /** FindKey is determined by the first position whose key is equal to `k`. */
  lemma FindKeyAt(es: seq<Entry>, k: Value, eq: KeyEq, q: nat)
    requires q <= |es|
    requires q < |es| ==> eq(es[q].key, k)
    requires forall i :: 0 <= i < q ==> !eq(es[i].key, k)
    ensures FindKey(es, k, eq) == q
  {
  }

  /** Some entry has a key equal to `k`. */
  ghost predicate HasKey(es: seq<Entry>, k: Value, eq: KeyEq) {
    exists i :: 0 <= i < |es| && eq(es[i].key, k)
  }

  /** Reading a key back after setting it yields what was set; other keys are unaffected. */
  lemma SetThenGet(es: seq<Entry>, k: Value, v: Value, k': Value, eq: KeyEq)
    requires Equivalence(eq)
    ensures HashGet(HashSet(es, k, v, eq), k', eq) == if eq(k, k') then v else HashGet(es, k', eq)
  {
    var r := HashSet(es, k, v, eq);
    var m := FindKey(es, k, eq);
    var p := FindKey(es, k', eq);
    if m < |es| {
      assert r == es[m := Entry(es[m].key, v)];
      FindKeyAt(r, k', eq, p);
      if eq(k, k') {
        forall i | 0 <= i < m ensures !eq(es[i].key, k') {
          assert !eq(es[i].key, k);
        }
        FindKeyAt(es, k', eq, m);
      } else {
        assert eq(es[m].key, k);
        assert p != m;
      }
    } else {
      assert r == es + [Entry(k, v)];
      if eq(k, k') {
        forall i | 0 <= i < |es| ensures !eq(es[i].key, k') {
          assert !eq(es[i].key, k);
        }
        FindKeyAt(r, k', eq, |es|);
      } else if p < |es| {
        FindKeyAt(r, k', eq, p);
      } else {
        FindKeyAt(r, k', eq, |r|);
      }
    }
  }

  /** After setting `k`, the keys present are those present before and `k`. */
  lemma SetKeys(es: seq<Entry>, k: Value, v: Value, k': Value, eq: KeyEq)
    requires Equivalence(eq)
    ensures HasKey(HashSet(es, k, v, eq), k', eq) <==> HasKey(es, k', eq) || eq(k, k')
  {
    var r := HashSet(es, k, v, eq);
    var m := FindKey(es, k, eq);
    SetShape(es, k, v, eq);
    if HasKey(es, k', eq) {
      var i :| 0 <= i < |es| && eq(es[i].key, k');
      assert eq(r[i].key, k');
    }
    if eq(k, k') {
      if m < |es| {
        assert eq(r[m].key, k');
      } else {
        assert eq(r[|es|].key, k');
      }
    }
    if HasKey(r, k', eq) {
      var i :| 0 <= i < |r| && eq(r[i].key, k');
      if i < |es| {
        assert eq(es[i].key, k');
      } else {
        assert r[i].key == k;
      }
    }
  }

  /** A hash built by setting pairs in order never holds two equal keys. */
  lemma {:induction false} FoldedKeysUnique(ps: seq<Entry>, eq: KeyEq)
    requires Equivalence(eq)
    ensures UniqueKeys(HashFold(ps, eq), eq)
  {
    if |ps| > 0 {
      var prev := HashFold(ps[..|ps| - 1], eq);
      var last := ps[|ps| - 1];
      FoldedKeysUnique(ps[..|ps| - 1], eq);
      var r := HashFold(ps, eq);
      assert r == HashSet(prev, last.key, last.val, eq);
      SetShape(prev, last.key, last.val, eq);
      forall i, j | 0 <= i < j < |r| ensures !eq(r[i].key, r[j].key) {
        if j == |prev| {
          assert r[j] == Entry(last.key, last.val);
          assert !eq(prev[i].key, last.key);
        }
      }
    }
  }

  /** A key is present after the fold exactly when some pair carried an equal key. */
  lemma {:induction false} FoldedKeyPresent(ps: seq<Entry>, k: Value, eq: KeyEq)
    requires Equivalence(eq)
    ensures HasKey(HashFold(ps, eq), k, eq) <==> HasKey(ps, k, eq)
  {
    if |ps| > 0 {
      var front := ps[..|ps| - 1];
      var last := ps[|ps| - 1];
      FoldedKeyPresent(front, k, eq);
      SetKeys(HashFold(front, eq), last.key, last.val, k, eq);
      if HasKey(front, k, eq) {
        var j :| 0 <= j < |front| && eq(front[j].key, k);
        assert eq(ps[j].key, k);
      }
      if HasKey(ps, k, eq) && !eq(last.key, k) {
        var j :| 0 <= j < |ps| && eq(ps[j].key, k);
        assert eq(front[j].key, k);
      }
    }
  }

  /** Last write wins: after setting the pairs of `ps` in order, a lookup of `k` yields the
      value of the LAST pair whose key is equal to `k`. */
  lemma {:induction false} LastWriteWins(ps: seq<Entry>, k: Value, j: nat, eq: KeyEq)
    requires Equivalence(eq)
    requires j < |ps| && eq(ps[j].key, k)
    requires forall j' :: j < j' < |ps| ==> !eq(ps[j'].key, k)
    ensures HashGet(HashFold(ps, eq), k, eq) == ps[j].val
  {
    var front := ps[..|ps| - 1];
    var last := ps[|ps| - 1];
    var prev := HashFold(front, eq);
    assert HashFold(ps, eq) == HashSet(prev, last.key, last.val, eq);
    SetThenGet(prev, last.key, last.val, k, eq);
    if j < |ps| - 1 {
      assert !eq(last.key, k);
      LastWriteWins(front, k, j, eq);
    }
  }

  /** A key that no pair carried is absent, and its lookup yields nil. */
  lemma AbsentKeyGetsNil(ps: seq<Entry>, k: Value, eq: KeyEq)
    requires Equivalence(eq)
    requires forall j :: 0 <= j < |ps| ==> !eq(ps[j].key, k)
    ensures HashGet(HashFold(ps, eq), k, eq) == Nil
  {
    FoldedKeyPresent(ps, k, eq);
    GetMissing(HashFold(ps, eq), k, eq);
  }

  /** Setting pairs whose keys are already distinct builds exactly those pairs, in order. */
  lemma {:induction false} FoldDistinctKeys(ps: seq<Entry>, eq: KeyEq)
    requires UniqueKeys(ps, eq)
    ensures HashFold(ps, eq) == ps
  {
    if |ps| > 0 {
      var front := ps[..|ps| - 1];
      var last := ps[|ps| - 1];
      assert UniqueKeys(front, eq);
      FoldDistinctKeys(front, eq);
      assert forall i :: 0 <= i < |front| ==> !eq(front[i].key, last.key);
      FindKeyAt(front, last.key, eq, |front|);
      assert HashFold(ps, eq) == front + [Entry(last.key, last.val)];
      assert front + [last] == ps;
    }
  }

  /** In a hash with distinct keys and a reflexive equality, looking up the i-th key yields
      the i-th value. */
  lemma GetOwnKey(es: seq<Entry>, i: nat, eq: KeyEq)
    requires Reflexive(eq) && UniqueKeys(es, eq)
    requires i < |es|
    ensures HashGet(es, es[i].key, eq) == es[i].val
  {
    FindKeyAt(es, es[i].key, eq, i);
  }
}
