/** One leaf: the 36 chains, walked to their ends, cut at a digit, or finished from a signature. */
module Leaves {
  import opened Bytes
  import opened TweakHash
  import Chains
  import Encoding

  const TOP: Digit := POSITIONS - 1

  /** Position 0 of every chain, and the last position of every chain. */
  const FIRST: Digits := Repeat(CHAINS, 0)
  const LAST: Digits := Repeat(CHAINS, TOP)

  function Repeat(n: nat, d: nat): (r: seq<nat>)
    ensures |r| == n && forall i :: 0 <= i < n ==> r[i] == d
  {
    seq(n, _ => d)
  }

  /** Every chain walked from its digit in `from` to its digit in `to`. */
  function WalkAll(t: TweakHash, leaf: u32, from: Digits, to: Digits, elements: Elements): Elements {
    Flatten(Walks(t, leaf, from, to, elements))
  }

  function Walks(t: TweakHash, leaf: u32, from: Digits, to: Digits, elements: Elements): (r: seq<Element>)
    ensures |r| == CHAINS
    ensures forall i :: 0 <= i < CHAINS ==> r[i] == t.Walk(leaf, i, from[i], to[i], Chunk(elements, i))
  {
    seq(CHAINS, i requires 0 <= i < CHAINS => t.Walk(leaf, i, from[i], to[i], Chunk(elements, i)))
  }

  lemma WalkAllChunk(t: TweakHash, leaf: u32, from: Digits, to: Digits, elements: Elements, i: nat)
    requires i < CHAINS
    ensures Chunk(WalkAll(t, leaf, from, to, elements), i) == t.Walk(leaf, i, from[i], to[i], Chunk(elements, i))
  {
    FlattenChunk(Walks(t, leaf, from, to, elements), i);
  }

  /** The chain ends of a leaf, over its 828 bytes of chain starts. */
  function EndsOf(t: TweakHash, leaf: u32, starts: Elements): Elements {
    WalkAll(t, leaf, FIRST, LAST, starts)
  }

  /** The signed elements: each chain cut at its digit. */
  function CutAt(t: TweakHash, leaf: u32, x: Digits, starts: Elements): Elements {
    WalkAll(t, leaf, FIRST, x, starts)
  }

  /** The verifier's ends: each element walked from its digit. */
  function FinishFrom(t: TweakHash, leaf: u32, x: Digits, elements: Elements): Elements {
    WalkAll(t, leaf, x, LAST, elements)
  }

  /** Finishing an honest cut gives the honest ends. */
  lemma FinishesCut(t: TweakHash, leaf: u32, x: Digits, starts: Elements)
    ensures FinishFrom(t, leaf, x, CutAt(t, leaf, x, starts)) == EndsOf(t, leaf, starts)
  {
    var cut := CutAt(t, leaf, x, starts);
    forall i | 0 <= i < CHAINS
      ensures Chunk(FinishFrom(t, leaf, x, cut), i) == Chunk(EndsOf(t, leaf, starts), i)
    {
      WalkAllChunk(t, leaf, FIRST, x, starts, i);
      WalkAllChunk(t, leaf, x, LAST, cut, i);
      WalkAllChunk(t, leaf, FIRST, LAST, starts, i);
      t.WalkSplits(leaf, i, 0, x[i], TOP, Chunk(starts, i));
    }
    EqualByChunks(FinishFrom(t, leaf, x, cut), EndsOf(t, leaf, starts), CHAINS);
  }

  // ----- second preimages inside a chain -----

  /** `x` enters `position` of a chain like the honest value does, without being the honest value. */
  ghost predicate StepSecondPreimage(t: TweakHash, leaf: u32, chain: byte, start: Element, position: byte, x: Element) {
    && 1 <= position
    && var honest := t.Walk(leaf, chain, 0, position - 1, start);
       x != honest && t.Step(leaf, chain, position, x) == t.Step(leaf, chain, position, honest)
  }

  /** Walking `x` on from position `k` enters the honest chain at `p`, coming from another value. */
  ghost predicate WalkMeets(t: TweakHash, leaf: u32, chain: byte, start: Element, k: nat, x: Element, p: byte) {
    k < p && StepSecondPreimage(t, leaf, chain, start, p, t.Walk(leaf, chain, k, p - 1, x))
  }

  /** A value that reaches the honest end of a chain of any length from position `k` is honest at `k`,
      or its own walk contains a second preimage. */
  lemma {:induction false} WalkExact(t: TweakHash, leaf: u32, chain: byte, start: Element, top: byte, k: nat, x: Element)
    requires k <= top && t.Walk(leaf, chain, k, top, x) == t.Walk(leaf, chain, 0, top, start)
    ensures || x == t.Walk(leaf, chain, 0, k, start)
            || exists p :: k < p <= top && WalkMeets(t, leaf, chain, start, k, x, p)
    decreases top - k
  {
    if k < top {
      var next := t.Step(leaf, chain, k + 1, x);
      WalkExact(t, leaf, chain, start, top, k + 1, next);
      t.WalkLast(leaf, chain, 0, k + 1, start);
      if next != t.Walk(leaf, chain, 0, k + 1, start) {
        var p :| k + 1 < p <= top && WalkMeets(t, leaf, chain, start, k + 1, next, p);
        assert WalkMeets(t, leaf, chain, start, k, x, p);
      } else if x != t.Walk(leaf, chain, 0, k, start) {
        assert WalkMeets(t, leaf, chain, start, k, x, k + 1);
      }
    } else {
      assert t.Walk(leaf, chain, k, top, x) == x;
    }
  }

  /** Finishing the elements from the digits meets the honest chain `c` at `p`. */
  ghost predicate FinishMeets(t: TweakHash, leaf: u32, x: Digits, elements: Elements, starts: Elements, c: nat, p: nat) {
    c < CHAINS && x[c] < p <= TOP && WalkMeets(t, leaf, c, Chunk(starts, c), x[c], Chunk(elements, c), p)
  }

  /** Elements that finish on the honest ends are the honest cut, or finishing them contains a second
      preimage. */
  lemma FinishExact(t: TweakHash, leaf: u32, x: Digits, elements: Elements, starts: Elements)
    requires FinishFrom(t, leaf, x, elements) == EndsOf(t, leaf, starts)
    ensures || elements == CutAt(t, leaf, x, starts)
            || exists c, p :: FinishMeets(t, leaf, x, elements, starts, c, p)
  {
    var cut := CutAt(t, leaf, x, starts);
    if !exists c, p :: FinishMeets(t, leaf, x, elements, starts, c, p) {
      forall i | 0 <= i < CHAINS
        ensures Chunk(elements, i) == Chunk(cut, i)
      {
        WalkAllChunk(t, leaf, FIRST, x, starts, i);
        WalkAllChunk(t, leaf, x, LAST, elements, i);
        WalkAllChunk(t, leaf, FIRST, LAST, starts, i);
        WalkExact(t, leaf, i, Chunk(starts, i), TOP, x[i], Chunk(elements, i));
        if p :| x[i] < p <= TOP && WalkMeets(t, leaf, i, Chunk(starts, i), x[i], Chunk(elements, i), p) {
          assert FinishMeets(t, leaf, x, elements, starts, i, p);
        }
      }
      EqualByChunks(elements, cut, CHAINS);
    }
  }

  // ----- the step-by-step code over one chain buffer -----

  /** Total distance between two digit vectors, chain by chain. */
  function Distance(from: seq<nat>, to: seq<nat>): nat
    requires |from| == |to|
  {
    if |from| == 0 then 0
    else
      var n := |from| - 1;
      Distance(from[..n], to[..n]) + if from[n] < to[n] then to[n] - from[n] else 0
  }

  lemma DistanceStep(from: seq<nat>, to: seq<nat>, i: nat)
    requires i < |from| == |to|
    ensures Distance(from[..i + 1], to[..i + 1]) == Distance(from[..i], to[..i]) + if from[i] < to[i] then to[i] - from[i] else 0
  {
    assert from[..i + 1][..i] == from[..i] && to[..i + 1][..i] == to[..i];
  }

  /** From position 0, the distance is the sum; to the top, it is what the sum leaves. This holds for any
      number of chains and positions. */
  lemma {:induction false} DistanceSplits(x: seq<nat>, top: nat)
    requires forall i :: 0 <= i < |x| ==> x[i] <= top
    ensures Distance(Repeat(|x|, 0), x) == Sum(x)
    ensures Distance(x, Repeat(|x|, top)) == |x| * top - Sum(x)
  {
    if |x| > 0 {
      var n := |x| - 1;
      DistanceSplits(x[..n], top);
      assert Repeat(|x|, 0)[..n] == Repeat(n, 0) && Repeat(|x|, top)[..n] == Repeat(n, top);
      assert |x| * top == n * top + top;
    }
  }

  /** Every accepted encoding costs the signer exactly 297 chain steps and the verifier exactly 243. */
  lemma AcceptedCost(t: TweakHash, salt: Salt, leaf: u32, message: Message)
    requires t.Encode(salt, leaf, message).Some?
    ensures var x := t.Encode(salt, leaf, message).value;
            Distance(FIRST, x) == TARGET_SUM == 297 && Distance(x, LAST) == CHAINS * (POSITIONS - 1) - TARGET_SUM == 243
  {
    DistanceSplits(t.Encode(salt, leaf, message).value, TOP);
  }

  /** The common loop of `Chain::ends`, `signing::ends` and `signing::sign`: one buffer, 36 walks. */
  method WalkEach(chain: Chains.Chain, from: Digits, to: Digits, elements: Elements) returns (r: Elements)
    requires chain.Valid()
    modifies chain`calls, chain.buffer
    ensures chain.Valid()
    ensures r == WalkAll(chain.t, chain.leaf, from, to, elements)
    ensures chain.calls == old(chain.calls) + Distance(from, to)
  {
    var ends := new Element[CHAINS](_ => Zeros(ELEMENT_LENGTH));
    for i := 0 to CHAINS
      invariant chain.Valid()
      invariant forall j :: 0 <= j < i ==> ends[j] == chain.t.Walk(chain.leaf, j, from[j], to[j], Chunk(elements, j))
      invariant chain.calls == old(chain.calls) + Distance(from[..i], to[..i])
    {
      DistanceStep(from, to, i);
      ends[i] := chain.Walk(i, from[i], to[i], Chunk(elements, i));
    }
    assert from[..CHAINS] == from && to[..CHAINS] == to;
    assert ends[..] == Walks(chain.t, chain.leaf, from, to, elements);
    r := Flatten(ends[..]);
  }

  /** `Chain::ends`. */
  method Finish(t: TweakHash, leaf: u32, x: Digits, elements: Elements) returns (r: Elements, ghost calls: nat)
    ensures r == FinishFrom(t, leaf, x, elements)
    ensures calls == Distance(x, LAST)
  {
    var chain := new Chains.Chain(t, leaf);
    r := WalkEach(chain, x, LAST, elements);
    calls := chain.calls;
  }

  /** `signing::ends`. */
  method Ends(t: TweakHash, leaf: u32, starts: Elements) returns (r: Elements)
    ensures r == EndsOf(t, leaf, starts)
  {
    var chain := new Chains.Chain(t, leaf);
    r := WalkEach(chain, FIRST, LAST, starts);
  }

  /** `signing::sign`: none for a salt that misses the target sum; 297 chain steps otherwise. */
  method Sign(t: TweakHash, leaf: u32, starts: Elements, message: Message, salt: Salt)
    returns (r: Option<Elements>, ghost calls: nat)
    ensures r == match t.Encode(salt, leaf, message) case None => None case Some(x) => Some(CutAt(t, leaf, x, starts))
    ensures calls == if r.Some? then TARGET_SUM else 0
  {
    var x := Encoding.Encode(t, salt, leaf, message);
    if x.None? {
      return None, 0;
    }
    var chain := new Chains.Chain(t, leaf);
    var elements := WalkEach(chain, FIRST, x.value, starts);
    AcceptedCost(t, salt, leaf, message);
    return Some(elements), chain.calls;
  }
}
