/** The output side of the dumper: `yaml_write`, the handler libyaml's emitter calls with each
    buffer of bytes it has produced, and the string it appends them to. */
module Sink {
  import opened Values

  /** The bytes of a run of buffers, one after the other. */
  function Concat(chunks: seq<seq<byte>>): (out: seq<byte>)
    ensures |chunks| == 0 ==> out == []
  {
    if |chunks| == 0 then [] else Concat(chunks[..|chunks| - 1]) + chunks[|chunks| - 1]
  }

  /** Splitting a run of buffers anywhere does not change the bytes they carry. */
  lemma {:induction false} ConcatAppend(a: seq<seq<byte>>, b: seq<seq<byte>>)
    ensures Concat(a + b) == Concat(a) + Concat(b)
    decreases |b|
  {
    if |b| == 0 {
      assert a + b == a;
    } else {
      var front := b[..|b| - 1];
      assert (a + b)[..|a + b| - 1] == a + front;
      assert (a + b)[|a + b| - 1] == b[|b| - 1];
      ConcatAppend(a, front);
      assert Concat(a + b) == Concat(a + front) + b[|b| - 1];
      assert Concat(b) == Concat(front) + b[|b| - 1];
    }
  }

  /** Every buffer handed over shows up in the output, whole and in place. */
  lemma {:induction false} ConcatHolds(chunks: seq<seq<byte>>, i: nat)
    requires i < |chunks|
    ensures var at := |Concat(chunks[..i])|;
            at + |chunks[i]| <= |Concat(chunks)| && Concat(chunks)[at..at + |chunks[i]|] == chunks[i]
  {
    assert chunks == chunks[..i] + ([chunks[i]] + chunks[i + 1..]);
    ConcatAppend(chunks[..i], [chunks[i]] + chunks[i + 1..]);
    ConcatAppend([chunks[i]], chunks[i + 1..]);
    assert [chunks[i]][..0] == [];
  }

  /** `yaml_write_data_t`: the string the emitted document is collected in. */
  class WriteData {
    var str: seq<byte>

    /** `mrb_str_new(mrb, NULL, 0)`: the output starts empty. */
    constructor ()
      ensures str == []
    {
      str := [];
    }

    /** `yaml_write`: appends the first `size` bytes of `buffer` to the output and reports
        success to the emitter, always. */
    method Write(buffer: seq<byte>, size: nat) returns (ok: int)
      requires size <= |buffer|
      modifies this
      ensures str == old(str) + buffer[..size]
      ensures ok == 1
    {
      str := str + buffer[..size];
      ok := 1;
    }
  }
}
