/** `Chain`: one reused 48-byte hash input, refining the pure walk. */
module Chains {
  import opened Bytes
  import opened TweakHash

  const INDEX: nat := 23
  const POSITION: nat := 24
  const VALUE: nat := 25

  class Chain {
    const t: TweakHash
    const leaf: u32
    const buffer: array<byte>
    /** Hash calls made so far. */
    ghost var calls: nat

    /** The parameter, role and leaf prefix is intact; index, position and value may hold anything. */
    ghost predicate Valid()
      reads this, buffer
    {
      && buffer.Length == VALUE + ELEMENT_LENGTH
      && buffer[..INDEX] == t.parameter + [ROLE_CHAIN] + Be32(leaf)
    }

    constructor (t: TweakHash, leaf: u32)
      ensures Valid() && fresh(buffer)
      ensures this.t == t && this.leaf == leaf && calls == 0
      ensures buffer[INDEX..] == Zeros(VALUE + ELEMENT_LENGTH - INDEX)
    {
      this.t := t;
      this.leaf := leaf;
      var bytes := t.parameter + [ROLE_CHAIN] + Be32(leaf) + Zeros(VALUE + ELEMENT_LENGTH - INDEX);
      buffer := new byte[VALUE + ELEMENT_LENGTH](i requires 0 <= i < VALUE + ELEMENT_LENGTH => bytes[i]);
      calls := 0;
      new;
      assert buffer[..] == bytes;
      assert buffer[..INDEX] == buffer[..][..INDEX];
      assert buffer[INDEX..] == buffer[..][INDEX..];
    }

    /** Copy an element into the value bytes. */
    method SetValue(x: Element)
      requires Valid()
      modifies buffer
      ensures Valid() && buffer[..VALUE] == old(buffer[..VALUE]) && buffer[VALUE..] == x
    {
      forall j | 0 <= j < ELEMENT_LENGTH {
        buffer[VALUE + j] := x[j];
      }
      assert buffer[..INDEX] == old(buffer[..INDEX]);
    }

    /** Whatever earlier walks left in the buffer, this is the pure walk, in `to - from` hash calls. */
    method Walk(i: byte, from: byte, to: byte, x: Element) returns (r: Element)
      requires Valid()
      modifies this`calls, buffer
      ensures Valid()
      ensures r == t.Walk(leaf, i, from, to, x)
      ensures buffer[INDEX] == i && buffer[VALUE..] == r
      ensures buffer[POSITION] == if from < to then to else old(buffer[POSITION])
      ensures calls == old(calls) + if from < to then to - from else 0
    {
      buffer[INDEX] := i;
      assert buffer[..INDEX] == old(buffer[..INDEX]);
      SetValue(x);
      assert buffer[INDEX] == buffer[..VALUE][INDEX] && buffer[POSITION] == buffer[..VALUE][POSITION];
      var k: nat := from;
      ghost var value: Element := x;
      while k < to
        invariant from <= k && (k <= to || k == from)
        invariant Valid() && buffer[INDEX] == i && buffer[VALUE..] == value
        invariant t.Walk(leaf, i, from, to, x) == t.Walk(leaf, i, k, to, value)
        invariant buffer[POSITION] == if from < k then k else old(buffer[POSITION])
        invariant calls == old(calls) + (k - from)
      {
        ghost var before := buffer[..INDEX];
        buffer[POSITION] := k + 1;
        assert buffer[..INDEX] == before;
        assert buffer[..] == buffer[..INDEX] + [buffer[INDEX], buffer[POSITION]] + buffer[VALUE..];
        assert buffer[..] == t.ChainInput(leaf, i, k + 1, value);
        var h := t.hash(buffer[..]);
        calls := calls + 1;
        SetValue(h[..ELEMENT_LENGTH]);
        assert buffer[INDEX] == buffer[..VALUE][INDEX] && buffer[POSITION] == buffer[..VALUE][POSITION];
        value := h[..ELEMENT_LENGTH];
        k := k + 1;
      }
      r := buffer[VALUE..];
    }
  }
}
