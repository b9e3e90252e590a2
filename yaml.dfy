/** The two methods the gem adds to the `YAML` module: `YAML.load` reads a document from a
    string and converts its root node, `YAML.dump` converts a value to a document and emits it.
    libyaml's parser and emitter are parameters of the model: the parser as the outcome it
    reports, the emitter as the buffers it hands to the write handler. */
module Yaml {
  import opened Values
  import opened Document
  import opened Decoder
  import opened Encoder
  import opened RoundTrip
  import opened Sink

  /** What `yaml_parser_load` leaves behind: the loaded document, or the error it stopped at
      with its `problem` text. */
  datatype Parsed = Parsed(nodes: seq<Node>) | ParseError(problem: string)

  /** How a call from the host returns: with a value, or by raising a `RuntimeError`. */
  datatype Outcome = Returned(value: Value) | Raised(message: string)

  /** libyaml's emitter: the buffers it writes for a document, in order. */
  type Emitter = seq<Node> -> seq<seq<byte>>

  /** libyaml's parser, from the bytes of the argument string. */
  type Parser = seq<byte> -> Parsed

  /** `mrb_yaml_load`, once the parser has run: a parse error raises a `RuntimeError` carrying
      the parser's problem text; otherwise the root node, the node with id 1, is converted. */
  function Load(p: Parsed, ghost rank: seq<nat>, eq: KeyEq): (o: Outcome)
    requires p.Parsed? ==> Ranked(p.nodes, rank) && 1 <= |p.nodes|
    ensures o.Raised? <==> p.ParseError?
    ensures o.Raised? ==> o.message == p.problem
    ensures o.Returned? ==> Loadable(o.value)
  {
    if p.ParseError? then Raised(p.problem)
    else
      DecodedLoadable(p.nodes, rank, 1, eq);
      Returned(Decode(p.nodes, rank, 1, eq))
  }

  /** `mrb_yaml_dump`: builds a document from the value, emits it and returns the bytes the
      write handler collected. */
  method Dump(v: Value, toS: ToS, eq: KeyEq, emit: Emitter) returns (out: seq<byte>)
    ensures out == Concat(emit(EncodeTree(v, 1, toS, eq)))
  {
    var doc := new Document();
    var root := Encode(doc, v, toS, eq);
    assert [] + EncodeTree(v, 1, toS, eq) == EncodeTree(v, 1, toS, eq);
    var data := new WriteData();
    var chunks := emit(doc.nodes);
    var i := 0;
    while i < |chunks|
      invariant 0 <= i <= |chunks|
      invariant data.str == Concat(chunks[..i])
    {
      var ok := data.Write(chunks[i], |chunks[i]|);
      assert chunks[..i + 1][..i] == chunks[..i];
      i := i + 1;
    }
    assert chunks[..i] == chunks;
    out := data.str;
  }

  /** Loading what was dumped, with a parser that reads the emitted bytes back into the document
      they came from, returns the canonical form of the dumped value. */
  lemma DumpThenLoad(v: Value, toS: ToS, eq: KeyEq, emit: Emitter, parse: Parser)
    requires var t := EncodeTree(v, 1, toS, eq); parse(Concat(emit(t))) == Parsed(t)
    ensures var t := EncodeTree(v, 1, toS, eq);
            && Ranked(t, Countdown(|t|))
            && Load(parse(Concat(emit(t))), Countdown(|t|), eq) == Returned(Canon(v, toS, eq))
  {
    RoundTrip.RoundTrip(v, toS, eq);
  }

  /** A value made of strings, arrays and hashes without duplicate keys comes back unchanged. */
  lemma DumpThenLoadPlain(v: Value, toS: ToS, eq: KeyEq, emit: Emitter, parse: Parser)
    requires Reflexive(eq) && Plain(v, eq)
    requires var t := EncodeTree(v, 1, toS, eq); parse(Concat(emit(t))) == Parsed(t)
    ensures var t := EncodeTree(v, 1, toS, eq);
            && Ranked(t, Countdown(|t|))
            && Load(parse(Concat(emit(t))), Countdown(|t|), eq) == Returned(v)
  {
    DumpThenLoad(v, toS, eq, emit, parse);
    PlainCanon(v, toS, eq);
  }
}
