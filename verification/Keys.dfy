/** An honest key: chain starts, parameter and the tree over its leaves. */
module Keys {
  import opened Bytes
  import opened TweakHash
  import Leaves
  import Merkle

  /** Two hash calls with every coordinate equal; only the hashed data may differ. */
  predicate SameTweak(a: HashCall, b: HashCall) {
    match a
    case ChainCall(leaf, chain, position, _) => b.ChainCall? && b.leaf == leaf && b.chain == chain && b.position == position
    case LeafCall(leaf, _) => b.LeafCall? && b.leaf == leaf
    case NodeCall(level, index, _, _) => b.NodeCall? && b.level == level && b.index == index
    case MessageCall(salt, leaf, _) => b.MessageCall? && b.salt == salt && b.leaf == leaf
  }

  /** What a signature of either kind carries. */
  datatype Parts = Parts(leaf: u32, salt: Salt, elements: Elements, path: seq<Element>)

  /** The node the verifier holds at a level, starting from the leaf it hashes. */
  function Running(t: TweakHash, message: Message, parts: Parts, level: nat): Element
    requires level <= |parts.path| <= Merkle.MAX_HEIGHT
  {
    var x := t.DigitsOf(parts.salt, parts.leaf, message);
    var ends := Leaves.FinishFrom(t, parts.leaf, x, parts.elements);
    Merkle.Fold(t.Node, parts.leaf, 0, t.LeafHash(parts.leaf, ends), parts.path[..level])
  }

  /** The hash calls of verifying a signature: the message, the rest of each chain from its digit, the
      leaf, and one node per level. */
  ghost predicate Checks(t: TweakHash, message: Message, parts: Parts, call: HashCall)
    requires |parts.path| <= Merkle.MAX_HEIGHT
  {
    var x := t.DigitsOf(parts.salt, parts.leaf, message);
    match call
    case MessageCall(salt, leaf, m) => salt == parts.salt && leaf == parts.leaf && m == message
    case ChainCall(leaf, chain, position, value) =>
      && leaf == parts.leaf && chain < CHAINS && x[chain] < position <= Leaves.TOP
      && value == t.Walk(leaf, chain, x[chain], position - 1, Chunk(parts.elements, chain))
    case LeafCall(leaf, ends) => leaf == parts.leaf && ends == Leaves.FinishFrom(t, leaf, x, parts.elements)
    case NodeCall(level, index, left, right) =>
      && 1 <= level <= |parts.path| && index == Shift(parts.leaf, level)
      && (left, right) == Merkle.Children(parts.leaf, level - 1, Running(t, message, parts, level - 1), parts.path[level - 1])
  }

  datatype Key = Key(t: TweakHash, height: nat, secrets: Bytes) {

    ghost predicate Valid() {
      height <= Merkle.MAX_HEIGHT && |secrets| == ELEMENTS_LENGTH * Pow2(height)
    }

    /** The 828 bytes of chain starts of a leaf, in leaf-major, chain-major order. */
    function Starts(leaf: nat): Elements
      requires Valid() && leaf < Pow2(height)
    {
      secrets[ELEMENTS_LENGTH * leaf..ELEMENTS_LENGTH * (leaf + 1)]
    }

    function Ends(leaf: u32): Elements
      requires Valid() && leaf < Pow2(height)
    {
      Leaves.EndsOf(t, leaf, Starts(leaf))
    }

    function LeafNodes(): (r: seq<Element>)
      requires Valid()
      ensures |r| == Pow2(height)
    {
      Merkle.Pow2U32(height);
      seq(Pow2(height), leaf requires 0 <= leaf < Pow2(height) => t.LeafHash(leaf, Ends(leaf)))
    }

    function Tree(): (r: Merkle.Tree<Element>)
      requires Valid()
      ensures r.Valid() && r.height == height
    {
      Merkle.Tree(height, LeafNodes(), t.Node)
    }

    function VerifyingKey(): PublicKey
      requires Valid()
    {
      Tree().Root() + t.parameter
    }

    // ----- second preimages -----

    /** The hash calls the key itself makes on chains, leaves and nodes. */
    ghost predicate Makes(call: HashCall)
      requires Valid()
    {
      match call
      case ChainCall(leaf, chain, position, x) =>
        && leaf < Pow2(height) && chain < CHAINS && 1 <= position <= Leaves.TOP
        && x == t.Walk(leaf, chain, 0, position - 1, Chunk(Starts(leaf), chain))
      case LeafCall(leaf, ends) => leaf < Pow2(height) && ends == Ends(leaf)
      case NodeCall(level, index, left, right) =>
        && 1 <= level <= height && index < Pow2(height - level)
        && left == Tree().Left(level, index) && right == Tree().Right(level, index)
      case MessageCall(_, _, _) => false
    }

    /** Another call under the tweak of a call of the key, on other data, with the same value. */
    ghost predicate SecondPreimage(foreign: HashCall, honest: HashCall)
      requires Valid()
    {
      && Makes(honest) && SameTweak(foreign, honest) && foreign != honest
      && t.Truncated(foreign.Input(t)) == t.Truncated(honest.Input(t))
    }

    /** Verifying this signature itself computes a second preimage: one of its own hash calls collides
        with a call of the key. */
    ghost predicate BrokenBy(message: Message, parts: Parts)
      requires Valid() && |parts.path| == height
    {
      exists foreign, honest :: Checks(t, message, parts, foreign) && SecondPreimage(foreign, honest)
    }

    /** A second preimage is a collision of the truncated hash: the two input strings differ. */
    lemma SecondPreimageCollides(foreign: HashCall, honest: HashCall)
      requires Valid() && SecondPreimage(foreign, honest)
      ensures foreign.Input(t) != honest.Input(t) && t.Truncated(foreign.Input(t)) == t.Truncated(honest.Input(t))
    {
      if foreign.Input(t) == honest.Input(t) {
        InputsSeparated(t, foreign, honest);
      }
    }

    lemma ChainWitness(message: Message, parts: Parts, c: nat, p: nat)
      requires Valid() && |parts.path| == height && parts.leaf < Pow2(height)
      requires Leaves.FinishMeets(t, parts.leaf, t.DigitsOf(parts.salt, parts.leaf, message), parts.elements, Starts(parts.leaf), c, p)
      ensures BrokenBy(message, parts)
    {
      var leaf, x := parts.leaf, t.DigitsOf(parts.salt, parts.leaf, message);
      var honest := t.Walk(leaf, c, 0, p - 1, Chunk(Starts(leaf), c));
      var foreign := t.Walk(leaf, c, x[c], p - 1, Chunk(parts.elements, c));
      assert Checks(t, message, parts, ChainCall(leaf, c, p, foreign));
      assert SecondPreimage(ChainCall(leaf, c, p, foreign), ChainCall(leaf, c, p, honest));
    }

    lemma LeafWitness(message: Message, parts: Parts)
      requires Valid() && |parts.path| == height && parts.leaf < Pow2(height)
      requires var ends := Leaves.FinishFrom(t, parts.leaf, t.DigitsOf(parts.salt, parts.leaf, message), parts.elements);
               ends != Ends(parts.leaf) && t.LeafHash(parts.leaf, ends) == t.LeafHash(parts.leaf, Ends(parts.leaf))
      ensures BrokenBy(message, parts)
    {
      var leaf := parts.leaf;
      var ends := Leaves.FinishFrom(t, leaf, t.DigitsOf(parts.salt, leaf, message), parts.elements);
      assert Checks(t, message, parts, LeafCall(leaf, ends));
      assert SecondPreimage(LeafCall(leaf, ends), LeafCall(leaf, Ends(leaf)));
    }

    lemma NodeWitness(message: Message, parts: Parts, l: nat)
      requires Valid() && |parts.path| == height && parts.leaf < Pow2(height) && l < height
      requires Tree().StepMeets(parts.leaf, l, Running(t, message, parts, l), parts.path[l])
      ensures BrokenBy(message, parts)
    {
      var up: u32 := Shift(parts.leaf, l + 1);
      var (left, right) := Merkle.Children(parts.leaf, l, Running(t, message, parts, l), parts.path[l]);
      assert Checks(t, message, parts, NodeCall(l + 1, up, left, right));
      NodeCollides(l + 1, up, left, right);
    }

    lemma NodeCollides(level: nat, index: u32, left: Element, right: Element)
      requires Valid() && Tree().NodeSecondPreimage(level, index, left, right)
      ensures exists honest :: SecondPreimage(NodeCall(level, index, left, right), honest)
    {
      var l, r := Tree().Left(level, index), Tree().Right(level, index);
      assert t.Node(level, index, left, right) == t.Node(level, index, l, r);
      assert Makes(NodeCall(level, index, l, r));
      assert SecondPreimage(NodeCall(level, index, left, right), NodeCall(level, index, l, r));
    }
  }
}
