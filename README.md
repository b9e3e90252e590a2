# mruby-yaml transcoder, modelled in Dafny

mruby-yaml adds two methods to mruby's `YAML` module.

- `YAML.load(str)` has libyaml parse the string into a document: an arena of nodes addressed by 1-based ids.
  - A parse error raises a `RuntimeError` carrying the parser's problem text.
  - Otherwise the root node is converted to an mruby value by `yaml_node_to_mrb`:
    - a scalar becomes a string with the same bytes;
    - a sequence becomes an array of its converted items, in order;
    - a mapping becomes a hash. The hash is filled with `mrb_hash_set`, one pair after another, so the last of several equal keys wins;
    - any other node becomes nil.
- `YAML.dump(obj)` builds a new document with `yaml_mrb_to_node`, then has libyaml's emitter write it out through `yaml_write`.
  - `yaml_write` appends every buffer it is handed to an initially empty string.
  - The converter appends nodes:
    - an array becomes a sequence node, added before its elements' nodes;
    - a hash becomes a mapping node. Its pairs come from walking `mrb_hash_keys` and looking each key up with `mrb_hash_get`;
    - a string becomes a scalar node;
    - any other object is first turned into a string by `to_s`, then handled as a string.

The model is split as the C file is.

- `Values` holds the mruby values. A hash is an ordered list of entries, compared under a key-equality parameter. The module defines `mrb_hash_get`, `mrb_hash_keys` and `mrb_hash_set` over that list.
- `Document` holds the libyaml document. It is a class whose node list the encoder's mutators append to.
- `Decoder` holds `yaml_node_to_mrb`.
  - A specification function is defined over documents that have a ranking (`Ranked`): every child id names a node of the document, and no node reaches itself.
  - Methods mirror the C loops over sequence items and mapping pairs, and are proved against that function.
- `Encoder` holds `yaml_mrb_to_node`.
  - Methods mutate a `Document`.
  - They are proved to append exactly the nodes of a specification function `EncodeTree`.
- `Sink` holds `yaml_write` and its `yaml_write_data_t`.
- `Yaml` holds `mrb_yaml_load` and `mrb_yaml_dump`.
- `Parents` proves that the dumped document is a tree: every node but the root is linked as a child exactly once.
- `RoundTrip` proves what a dump followed by a load returns:
  - the value's canonical form (`Canon`): non-string scalars become their `to_s` strings, and hashes are rebuilt through `mrb_hash_set`;
  - the value itself, when it is made only of strings, arrays and hashes without equal keys.

Two points about the code's behaviour worth knowing:

- **Aliases do not decode to nil.**
  - libyaml's loader resolves an alias into a second reference to its anchor's node id. `yaml_node_to_mrb` therefore never sees an alias node.
  - An alias decodes to a copy of the anchored value.
  - Only a node of type `YAML_NO_NODE` reaches the nil branch (src/yaml.c:198-199).
  - The model lets documents share nodes; `Ranked` allows that.
- **Parse errors skip cleanup.**
  - On a parse error, `mrb_raise` leaves `mrb_yaml_load` before the document and parser are deleted (src/yaml.c:75-79).
  - Cleanup is not modelled (see below).

## Model

| member | source | states |
|---|---|---|
| Values.FindKey | src/yaml.c:250 | the position found is that of the first entry whose key is equal to the looked-up key, or the length when there is none |
| Values.GetFirst | src/yaml.c:250 | `HashGet`, the model of `mrb_hash_get`, returns the value of the first entry whose key is equal to the looked-up key |
| Values.GetMissing | src/yaml.c:250 | `HashGet` of a key equal to no entry's key returns nil, the default of a hash that has no default value or proc of its own |
| Values.HashKeys | src/yaml.c:239-240 | `mrb_hash_keys` lists every entry's key, one per entry, in entry order |
| Values.SetShape | src/yaml.c:191 | `HashSet`, the model of `mrb_hash_set`, keeps every existing key in its place. It grows the hash by exactly one entry, the new pair at the end, if and only if no existing key equals the new one |
| Values.HashSet | src/yaml.c:191 | `mrb_hash_set` either replaces one entry's value or adds one entry: the hash grows by at most one. The full shape is stated by `SetShape` |
| Values.HashFold | src/yaml.c:182-193 | the hash filled with `mrb_hash_set`, one pair after another, has no more entries than there were pairs. Its contents are stated by the `Folded*` lemmas and `LastWriteWins` |
| Values.SetThenGet | src/yaml.c:191 | after setting k to v, a lookup of an equal key returns v, and a lookup of any other key returns what it returned before |
| Values.SetKeys | src/yaml.c:191 | after setting k, the keys present are those present before plus k |
| Values.FoldedKeysUnique | src/yaml.c:182-193 | `HashFold`, a hash filled pair by pair with `mrb_hash_set`, never holds two equal keys |
| Values.FoldedKeyPresent | src/yaml.c:182-193 | the filled hash has a key if and only if some pair had it |
| Values.LastWriteWins | src/yaml.c:182-193 | looking a key up in the filled hash gives the value of the last pair with an equal key |
| Values.AbsentKeyGetsNil | src/yaml.c:182-193 | a key equal to no pair's key is looked up as nil |
| Values.FoldDistinctKeys | src/yaml.c:182-193 | pairs with pairwise distinct keys fill a hash that is exactly those pairs, in order |
| Values.FoldedFromPairs | src/yaml.c:182-193 | every key and every value of the filled hash comes from one of the pairs |
| Values.FoldedLoadable | src/yaml.c:182-193 | if every pair is made of strings, arrays, hashes and nil, so is the filled hash |
| Values.GetOwnKey | src/yaml.c:247-250 | in a hash without equal keys, looking up an entry's own key gives that entry's value |
| Values.ElemShallower | src/yaml.c:220-223 | an array element is strictly shallower than the array, so the encoder's recursion ends |
| Values.EntryShallower | src/yaml.c:247-253 | a hash's key, and the value `mrb_hash_get` returns for it, are strictly shallower than the hash |
| Document.GetNode | src/yaml.c:185-186 | `yaml_document_get_node` returns a node of the document, for an id that names one |
| Document.GetNodeAppended | src/yaml.c:162 | appending a node keeps every id stable: the new id (the node count) gives the new node, and each earlier id the node it gave before |
| Document.TopologicalRanked | src/yaml.c:204-282 | a document whose every child id is greater than its parent's id is acyclic |
| Document.Document.constructor | src/yaml.c:106 | `yaml_document_initialize` starts with no nodes |
| Document.Document.AddScalar | src/yaml.c:275-276 | appends one scalar node holding the given bytes, and returns its id, the new node count |
| Document.Document.AddSequence | src/yaml.c:217-218 | appends one empty sequence node and returns its id |
| Document.Document.AddMapping | src/yaml.c:244-245 | appends one empty mapping node and returns its id |
| Document.Document.AppendSequenceItem | src/yaml.c:226 | adds the item id at the end of that sequence's items. Every other node is unchanged |
| Document.Document.AppendMappingPair | src/yaml.c:256-257 | adds the (key, value) pair at the end of that mapping's pairs. Every other node is unchanged |
| Decoder.DecodedItem | src/yaml.c:159-167 | the k-th element of a converted sequence is the conversion of its k-th item node |
| Decoder.DecodedPair | src/yaml.c:182-191 | the k-th pair handed to `mrb_hash_set` is (conversion of the key node, conversion of the value node) |
| Decoder.DecodedKind | src/yaml.c:141-200 | for each node kind, the value `Decode` converts it to: scalar iff string (same bytes), sequence iff array (one element per item), mapping iff hash, and no-node iff nil |
| Decoder.DecodeNode | src/yaml.c:137-201 | the recursive conversion computes `Decode`, the specification function of `yaml_node_to_mrb` (src/yaml.c:137-201), for the node |
| Decoder.DecodeSequence | src/yaml.c:151-170 | the push loop yields the items' conversions, in item order |
| Decoder.DecodeMapping | src/yaml.c:172-196 | the `mrb_hash_set` loop yields the hash obtained by setting each converted pair in turn |
| Decoder.DecodePair | src/yaml.c:185-189 | one loop step converts key node then value node, giving the k-th decoded pair |
| Decoder.DecodedLoadable | src/yaml.c:137-201 | every loaded value is made only of strings, arrays, hashes and nil |
| Decoder.MappingLastWriteWins | src/yaml.c:182-193 | in a converted mapping, a key looks up to the value of the last pair whose converted key equals it |
| Decoder.MappingKeys | src/yaml.c:182-193 | a converted mapping has no two equal keys, and has a key if and only if some pair's converted key equals it |
| Encoder.EncodeTree | src/yaml.c:204-282 | the specification function of `yaml_mrb_to_node`: the nodes it appends for a value, never fewer than one. What they are is stated by `EncodedRoot`, `ItemsPlaced`, `EntriesPlaced`, `TreeNested` and `Parents.SingleParent` |
| Encoder.EncodedRoot | src/yaml.c:209-278 | in `EncodeTree`, the first node appended is a sequence iff the value is an array (one item per element), a mapping iff a hash (one pair per entry), the string's bytes as a scalar for a string, and a scalar of `to_s` for anything else (`AsString`, src/yaml.c:267-274) |
| Encoder.Encode | src/yaml.c:204-282 | appends exactly the nodes of `EncodeTree` for the value and returns the id of the first one |
| Encoder.EncodeArray | src/yaml.c:211-231 | the sequence node comes first; its elements are appended after it and linked in order |
| Encoder.EncodeHash | src/yaml.c:233-262 | the mapping node comes first, then key and value nodes per key of `mrb_hash_keys`, linked as pairs in order |
| Encoder.EncodePair | src/yaml.c:247-258 | one loop step appends the key's nodes, then the nodes of `mrb_hash_get`'s value, then links the pair |
| Encoder.TreeNested | src/yaml.c:204-282 | every child id the encoder links lies after its parent and inside the nodes appended for the value |
| Parents.TreeChildren | src/yaml.c:204-282 | among the child ids linked inside the nodes `EncodeTree` appends from id `base`, each later id of those nodes occurs exactly once, and no other id occurs |
| Parents.SingleParent | src/yaml.c:204-282 | in a dumped document every id from 2 to the node count is linked as a child exactly once, and the root id 1 never is: the document is a tree, and nothing in it is shared |
| Encoder.ItemsPlaced | src/yaml.c:220-226 | the k-th item id of the sequence node is where the nodes encoding element k begin |
| Encoder.EntriesPlaced | src/yaml.c:247-257 | the k-th pair's key id is where the k-th key's nodes begin; its value id is where the nodes of that key's `mrb_hash_get` value begin, right after them |
| Encoder.ItemsOrdered | src/yaml.c:220-226 | item ids increase in element order |
| Encoder.EntriesOrdered | src/yaml.c:247-257 | within a pair the key node precedes the value node, and each pair's nodes precede the next pair's |
| Encoder.EncodedTopological | src/yaml.c:204-282 | a dumped document is acyclic with valid child ids |
| RoundTrip.DecodeEncoded | src/yaml.c:137-282 | the nodes appended for a value, wherever they sit in an acyclic document, convert back to the value's canonical form |
| RoundTrip.RoundTrip | src/yaml.c:137-282 | converting a value into a new document and converting its root back gives the canonical form |
| RoundTrip.PlainCanon | src/yaml.c:137-282 | a value of strings, arrays and hashes without equal keys is its own canonical form |
| RoundTrip.CanonLoadable | src/yaml.c:137-282 | a canonical form is made only of strings, arrays, hashes and nil |
| Sink.WriteData.constructor | src/yaml.c:113 | the output string starts empty |
| Sink.WriteData.Write | src/yaml.c:129-134 | `yaml_write` appends exactly the first `size` bytes of the buffer and always reports success |
| Sink.Concat | src/yaml.c:129-134 | the string `yaml_write` collects from a run of buffers; no buffers give the empty string |
| Sink.ConcatAppend | src/yaml.c:114-119 | the collected output of two runs of buffers is the two outputs one after the other |
| Sink.ConcatHolds | src/yaml.c:129-134 | in `Concat`, every buffer handed to the handler appears whole, at its position, in the output |
| Yaml.Load | src/yaml.c:53-90 | raises if and only if the parser failed, with the parser's problem text. Otherwise returns the root's conversion, made only of strings, arrays, hashes and nil |
| Yaml.Dump | src/yaml.c:93-126 | the returned string is the concatenation of what the emitter wrote for the document the encoder built from the value |
| Yaml.DumpThenLoad | src/yaml.c:53-126 | loading a dump, read back into its document, gives the dumped value's canonical form |
| Yaml.DumpThenLoadPlain | src/yaml.c:53-126 | loading a dump of strings, arrays and hashes without equal keys gives back the same value |

## Left out

- libyaml's parser and emitter are parameters.
  - The parser is given as the outcome it reports: a node list or a problem text.
  - The emitter is given as the buffers it passes to `yaml_write`.
  - Hence YAML syntax, escaping and the emitted text format are not modelled. `DumpThenLoad` assumes a parser that reads the emitted bytes back into the dumped document.
- Node tags, styles, anchors and scalar styles are not modelled. The converter ignores them, except that an alias shares its anchor's node; the model allows shared nodes.
- Yaml.Load requires a non-empty document with a ranking: every child id names a node, and there is no cycle.
  - For an id that names no node, `yaml_document_get_node` returns NULL, and the C code dereferences it (src/yaml.c:162, 185-186). libyaml's loader only produces child ids that name nodes, so the C never reaches that case; `Document.GetNode` requires an id in range.
  - On an empty input, `yaml_document_get_root_node` returns no node, and the C code passes it on unchecked.
  - A cyclic alias graph makes the C recursion in `yaml_node_to_mrb` overflow the C stack and crash.
  - The ranking is a ghost argument of `Load`.
- `to_s` (`mrb_obj_as_string`) is an uninterpreted parameter of the model.
- Host values are finite, immutable trees.
  - A self-containing array or hash (`a = []; a << a`) makes `yaml_mrb_to_node` (src/yaml.c:220-223, 247-253) recurse until the C stack overflows. `Value` cannot express such a value, and the `Depth` measure that ends the encoder's recursion relies on this.
  - `mrb_ary_ref` (src/yaml.c:222) reads the array afresh on every turn, so a `to_s` with side effects that shrinks the array makes later elements nil. The model's `to_s` has no side effects.
- Values.GetMissing: hash default values and default procs are not modelled; a miss yields nil.
  - In mruby, `mrb_hash_get` on a miss returns the hash's default, or what its default proc computes.
  - The encoder looks each key up again (src/yaml.c:250). A key that misses its own lookup (a NaN key, or a key mutated after insertion) therefore encodes as nil here, but as the hash's default in mruby. A hash that is its own default (`h.default = h`) makes that C recursion never end.
- Values.EntryShallower: states the bound only for the value a lookup yields here, an entry's value or nil. A default value or default proc result, which mruby can return for a key that misses its own lookup, is not covered.
- Document.Document.AddScalar: always succeeds.
  - libyaml's `yaml_document_add_scalar` refuses bytes that are not valid UTF-8 and returns 0. The C code passes that 0 on to `yaml_document_append_sequence_item` or `yaml_document_append_mapping_pair` unchecked (src/yaml.c:226, 256).
  - So `Yaml.DumpThenLoad` and `Yaml.DumpThenLoadPlain` describe mruby only when every string, and every `to_s` result, is valid UTF-8.
- Hash key equality (`eql?`/`hash`) is an uninterpreted parameter of the model. Lemmas about hash contents assume it is an equivalence.
- The mruby hash is an ordered list of entries. Its internal table is not modelled.
- Failures are not modelled:
  - allocation failures;
  - the return codes of the libyaml mutators, `yaml_emitter_*` and `yaml_parser_load`, beyond the parser's error flag;
  - raising from within `to_s`.
- GC arena save and restore are not modelled. They have no effect on the values computed.
- Cleanup is not modelled: `yaml_document_delete`, `yaml_parser_delete` and `yaml_emitter_delete`.
- `mrb_get_args` argument checking is not modelled. `load` starts from the parser's outcome on the argument string's bytes; the argument is assumed to be a String.
- The gem's `main` and `mruby_test` driver, and the gem init and final hooks, are not part of this model.
- Integer widths (`int` node ids, `mrb_int` lengths) are unbounded in the model.
