/**
 The tweakable hash of the scheme: Keccak-256 over `P ‖ tweak ‖ data`, truncated.
 Keccak-256 is an arbitrary total function from byte strings to 32 bytes; nothing is assumed of it.
 The functions here are the expression-style forms that the step-by-step code refines.
 */
module TweakHash {
  import opened Bytes

  const CHAINS: nat := 36
  const POSITIONS: nat := 16
  const TARGET_SUM: nat := 297
  const SALT_LENGTH: nat := 21
  const PARAMETER_LENGTH: nat := 18
  const ELEMENT_LENGTH: nat := 23
  const ELEMENTS_LENGTH: nat := 828
  const MESSAGE_LENGTH: nat := 32

  const ROLE_CHAIN: byte := 0
  const ROLE_TREE: byte := 1
  const ROLE_MESSAGE: byte := 2

  /** `root ‖ P`. */
  type PublicKey = b: Bytes | |b| == ELEMENT_LENGTH + PARAMETER_LENGTH witness Zeros(ELEMENT_LENGTH + PARAMETER_LENGTH)

  type Digest = b: Bytes | |b| == 32 witness Zeros(32)
  type Hash = Bytes -> Digest
  type Parameter = b: Bytes | |b| == PARAMETER_LENGTH witness Zeros(PARAMETER_LENGTH)
  type Element = b: Bytes | |b| == ELEMENT_LENGTH witness Zeros(ELEMENT_LENGTH)
  type Elements = b: Bytes | |b| == ELEMENTS_LENGTH witness Zeros(ELEMENTS_LENGTH)
  type Salt = b: Bytes | |b| == SALT_LENGTH witness Zeros(SALT_LENGTH)
  type Message = b: Bytes | |b| == MESSAGE_LENGTH witness Zeros(MESSAGE_LENGTH)

  /** A chain position, one nibble of the salted digest. */
  type Digit = x: int | 0 <= x < POSITIONS
  type Digits = x: seq<Digit> | |x| == CHAINS witness seq(CHAINS, _ => 0)

  // ----- concatenated elements -----

  /** The `i`-th 23-byte chunk. */
  function Chunk(b: Bytes, i: nat): (r: Element)
    requires ELEMENT_LENGTH * (i + 1) <= |b|
  {
    b[ELEMENT_LENGTH * i..ELEMENT_LENGTH * (i + 1)]
  }

  function Flatten(es: seq<Element>): (r: Bytes)
    ensures |r| == ELEMENT_LENGTH * |es|
  {
    if |es| == 0 then [] else es[0] + Flatten(es[1..])
  }

  lemma {:induction false} FlattenChunk(es: seq<Element>, i: nat)
    requires i < |es|
    ensures Chunk(Flatten(es), i) == es[i]
  {
    if i > 0 {
      FlattenChunk(es[1..], i - 1);
      assert Chunk(Flatten(es), i) == Chunk(Flatten(es[1..]), i - 1);
    }
  }

  /** Byte strings of the same whole number of chunks are equal when every chunk is. */
  lemma {:induction false} EqualByChunks(a: Bytes, b: Bytes, n: nat)
    requires |a| == |b| == ELEMENT_LENGTH * n
    requires forall i :: 0 <= i < n ==> Chunk(a, i) == Chunk(b, i)
    ensures a == b
  {
    if n > 0 {
      var m := ELEMENT_LENGTH * (n - 1);
      forall i | 0 <= i < n - 1
        ensures Chunk(a[..m], i) == Chunk(b[..m], i)
      {
        assert Chunk(a[..m], i) == Chunk(a, i) && Chunk(b[..m], i) == Chunk(b, i);
      }
      EqualByChunks(a[..m], b[..m], n - 1);
      assert a == a[..m] + Chunk(a, n - 1) && b == b[..m] + Chunk(b, n - 1);
    }
  }

  /** `as_chunks`. */
  function Chunks(b: Bytes): (r: seq<Element>)
    requires |b| % ELEMENT_LENGTH == 0
    ensures |b| == ELEMENT_LENGTH * |r|
    ensures forall i :: 0 <= i < |r| ==> r[i] == Chunk(b, i)
  {
    seq(|b| / ELEMENT_LENGTH, i requires 0 <= i < |b| / ELEMENT_LENGTH => Chunk(b, i))
  }

  lemma FlattenChunks(b: Bytes)
    requires |b| % ELEMENT_LENGTH == 0
    ensures Flatten(Chunks(b)) == b
  {
    var n := |Chunks(b)|;
    forall i | 0 <= i < n
      ensures Chunk(Flatten(Chunks(b)), i) == Chunk(b, i)
    {
      FlattenChunk(Chunks(b), i);
    }
    EqualByChunks(Flatten(Chunks(b)), b, n);
  }

  lemma ChunksFlatten(es: seq<Element>)
    ensures Chunks(Flatten(es)) == es
  {
    forall i | 0 <= i < |es|
      ensures Chunk(Flatten(es), i) == es[i]
    {
      FlattenChunk(es, i);
    }
  }

  // ----- digits -----

  /** `digest[i / 2] >> (4 * (i % 2)) & 0x0f`. */
  function Nibble(digest: Digest, i: nat): Digit
    requires i < 64
  {
    if i % 2 == 0 then digest[i / 2] % 16 else digest[i / 2] / 16
  }

  function Sum(x: seq<nat>): nat {
    if |x| == 0 then 0 else Sum(x[..|x| - 1]) + x[|x| - 1]
  }

  // ----- the tweakable hash under one parameter -----

  datatype TweakHash = TweakHash(hash: Hash, parameter: Parameter) {

    function MessageInput(salt: Salt, leaf: u32, message: Message): Bytes {
      salt + parameter + [ROLE_MESSAGE] + Le32(leaf) + message
    }

    function ChainInput(leaf: u32, chain: byte, position: byte, x: Element): Bytes {
      parameter + [ROLE_CHAIN] + Be32(leaf) + [chain, position] + x
    }

    function TreeTweak(level: byte, index: u32): Bytes {
      [ROLE_TREE, level] + Be32(index)
    }

    function LeafInput(leaf: u32, ends: Elements): Bytes {
      parameter + TreeTweak(0, leaf) + ends
    }

    function NodeInput(level: byte, index: u32, left: Element, right: Element): Bytes {
      parameter + TreeTweak(level, index) + left + right
    }

    function Truncated(input: Bytes): Element {
      hash(input)[..ELEMENT_LENGTH]
    }

    /** The 36 digits of a salted digest, before the target-sum test. */
    function DigitsOf(salt: Salt, leaf: u32, message: Message): Digits {
      var digest := hash(MessageInput(salt, leaf, message));
      seq(CHAINS, i requires 0 <= i < CHAINS => Nibble(digest, i))
    }

    /** The accepted encoding, if the digits meet the target sum. */
    function Encode(salt: Salt, leaf: u32, message: Message): Option<Digits> {
      var x := DigitsOf(salt, leaf, message);
      if Sum(x) == TARGET_SUM then Some(x) else None
    }

    function Step(leaf: u32, chain: byte, position: byte, x: Element): Element {
      Truncated(ChainInput(leaf, chain, position, x))
    }

    /** The step entering position `k` uses tweak `k`. */
    function Walk(leaf: u32, chain: byte, from: nat, to: nat, x: Element): Element
      requires to < 256
      decreases if from < to then to - from else 0
    {
      if from >= to then x
      else Walk(leaf, chain, from + 1, to, Step(leaf, chain, from + 1, x))
    }

    function LeafHash(leaf: u32, ends: Elements): Element {
      Truncated(LeafInput(leaf, ends))
    }

    function Node(level: byte, index: u32, left: Element, right: Element): Element {
      Truncated(NodeInput(level, index, left, right))
    }

    /** A walk may be split at any position in between. */
    lemma {:induction false} WalkSplits(leaf: u32, chain: byte, from: nat, mid: nat, to: nat, x: Element)
      requires from <= mid <= to < 256
      ensures Walk(leaf, chain, from, to, x) == Walk(leaf, chain, mid, to, Walk(leaf, chain, from, mid, x))
      decreases mid - from
    {
      if from < mid {
        WalkSplits(leaf, chain, from + 1, mid, to, Step(leaf, chain, from + 1, x));
      }
    }

    /** The last step of a walk, split off. */
    lemma WalkLast(leaf: u32, chain: byte, from: nat, to: nat, x: Element)
      requires from < to < 256
      ensures Walk(leaf, chain, from, to, x) == Step(leaf, chain, to, Walk(leaf, chain, from, to - 1, x))
    {
      WalkSplits(leaf, chain, from, to - 1, to, x);
      var y := Walk(leaf, chain, from, to - 1, x);
      assert Walk(leaf, chain, to - 1, to, y) == Walk(leaf, chain, to, to, Step(leaf, chain, to, y));
    }
  }

  // ----- separation of hash inputs -----

  /** Every hash call the scheme makes, with its coordinates. */
  datatype HashCall =
    | ChainCall(leaf: u32, chain: byte, position: byte, x: Element)
    | LeafCall(leaf: u32, ends: Elements)
    | NodeCall(level: byte, index: u32, left: Element, right: Element)
    | MessageCall(salt: Salt, leaf: u32, message: Message)
  {
    function Input(t: TweakHash): Bytes {
      match this
      case ChainCall(leaf, chain, position, x) => t.ChainInput(leaf, chain, position, x)
      case LeafCall(leaf, ends) => t.LeafInput(leaf, ends)
      case NodeCall(level, index, left, right) => t.NodeInput(level, index, left, right)
      case MessageCall(salt, leaf, message) => t.MessageInput(salt, leaf, message)
    }
  }

  lemma InputLengths(t: TweakHash, c: HashCall)
    ensures |c.Input(t)| == match c
                            case ChainCall(_, _, _, _) => 48
                            case LeafCall(_, _) => 852
                            case NodeCall(_, _, _, _) => 70
                            case MessageCall(_, _, _) => 76
  {
  }

  /** Two calls under one parameter share their input only if they are the same call. */
  lemma InputsSeparated(t: TweakHash, a: HashCall, b: HashCall)
    requires a.Input(t) == b.Input(t)
    ensures a == b
  {
    InputLengths(t, a);
    InputLengths(t, b);
    var u, v := a.Input(t), b.Input(t);
    match a
    case ChainCall(l, i, k, x) =>
      assert u[19..23] == Be32(l) && u[23] == i && u[24] == k && u[25..] == x;
      assert v[19..23] == Be32(b.leaf) && v[23] == b.chain && v[24] == b.position && v[25..] == b.x;
      Be32Injective(l, b.leaf);
    case LeafCall(l, e) =>
      assert u[20..24] == Be32(l) && u[24..] == e;
      assert v[20..24] == Be32(b.leaf) && v[24..] == b.ends;
      Be32Injective(l, b.leaf);
    case NodeCall(l, i, x, y) =>
      assert u[19] == l && u[20..24] == Be32(i) && u[24..47] == x && u[47..] == y;
      assert v[19] == b.level && v[20..24] == Be32(b.index) && v[24..47] == b.left && v[47..] == b.right;
      Be32Injective(i, b.index);
    case MessageCall(s, l, m) =>
      assert u[..21] == s && u[40..44] == Le32(l) && u[44..] == m;
      assert v[..21] == b.salt && v[40..44] == Le32(b.leaf) && v[44..] == b.message;
      Le32Injective(l, b.leaf);
  }
}
