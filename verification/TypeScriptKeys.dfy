/**
 The TypeScript package's secret keys and verifier: chains are walked without a shared buffer, the tree
 is filled and read by shifts, and one verifier serves both signature kinds. Keys, public keys,
 signatures and verdicts are specified by the same functions as the Rust ones, so they agree.
 */
module TypeScriptKeys {
  import opened Bytes
  import opened TweakHash
  import opened Instances
  import Keys
  import Leaves
  import Merkle
  import Xmss

  datatype CryptoError = InvalidLength | InvalidSignature | InvalidEncoding

  // ----- chains (`core.ts`) -----

  /** `walk`: the value is reassigned at each step. */
  method Walk(t: TweakHash, leaf: u32, i: byte, from: nat, to: nat, x: Element) returns (r: Element)
    requires to < 256
    ensures r == t.Walk(leaf, i, from, to, x)
  {
    r := x;
    var k := from;
    while k < to
      invariant t.Walk(leaf, i, from, to, x) == t.Walk(leaf, i, k, to, r)
    {
      r := t.hash(t.parameter + [ROLE_CHAIN] + Be32(leaf) + [i, k + 1] + r)[..ELEMENT_LENGTH];
      k := k + 1;
    }
  }

  /** `start`: chain starts in leaf-major, chain-major order. */
  function Start(secrets: Bytes, leaf: nat, i: nat): Element
    requires i < CHAINS && ELEMENTS_LENGTH * (leaf + 1) <= |secrets|
  {
    var offset := leaf * ELEMENTS_LENGTH + i * ELEMENT_LENGTH;
    secrets[offset..offset + ELEMENT_LENGTH]
  }

  /** The 828 bytes of chain starts of a leaf. */
  ghost function StartsOf(secrets: Bytes, leaf: nat): Elements
    requires ELEMENTS_LENGTH * (leaf + 1) <= |secrets|
  {
    secrets[ELEMENTS_LENGTH * leaf..ELEMENTS_LENGTH * (leaf + 1)]
  }

  lemma StartIsChunk(secrets: Bytes, leaf: nat, i: nat)
    requires i < CHAINS && ELEMENTS_LENGTH * (leaf + 1) <= |secrets|
    ensures Start(secrets, leaf, i) == Chunk(StartsOf(secrets, leaf), i)
  {
  }

  /** The chains of a leaf, walked from their starts: to their ends in `endsOf`, to the digits in
      `signLeaf`. */
  method WalkStarts(t: TweakHash, secrets: Bytes, leaf: u32, to: Digits) returns (r: seq<Element>)
    requires ELEMENTS_LENGTH * (leaf + 1) <= |secrets|
    ensures r == Leaves.Walks(t, leaf, Leaves.FIRST, to, StartsOf(secrets, leaf))
  {
    r := [];
    for i := 0 to CHAINS
      invariant r == Leaves.Walks(t, leaf, Leaves.FIRST, to, StartsOf(secrets, leaf))[..i]
    {
      StartIsChunk(secrets, leaf, i);
      var x := Walk(t, leaf, i, 0, to[i], Start(secrets, leaf, i));
      r := r + [x];
    }
  }

  /** `endsFromSignature`. */
  method EndsFromSignature(t: TweakHash, leaf: u32, x: Digits, elements: Elements) returns (r: seq<Element>)
    ensures r == Leaves.Walks(t, leaf, x, Leaves.LAST, elements)
  {
    r := [];
    for i := 0 to CHAINS
      invariant r == Leaves.Walks(t, leaf, x, Leaves.LAST, elements)[..i]
    {
      var end := Walk(t, leaf, i, x[i], POSITIONS - 1, elements[i * ELEMENT_LENGTH..(i + 1) * ELEMENT_LENGTH]);
      r := r + [end];
    }
  }

  /** `signLeaf`: the salt and the cut elements, or an error for a salt that misses the target. */
  method SignLeaf(t: TweakHash, secrets: Bytes, leaf: u32, message: Message, salt: Salt) returns (r: Result<Bytes, CryptoError>)
    requires ELEMENTS_LENGTH * (leaf + 1) <= |secrets|
    ensures r == match t.Encode(salt, leaf, message)
                 case None => Err(InvalidEncoding)
                 case Some(x) => Ok(salt + Leaves.CutAt(t, leaf, x, StartsOf(secrets, leaf)))
  {
    var x := t.Encode(salt, leaf, message);
    if x.None? {
      return Err(InvalidEncoding);
    }
    var elements := WalkStarts(t, secrets, leaf, x.value);
    return Ok(salt + Flatten(elements));
  }

  // ----- where a level starts (`hazmat/xmss.ts`) -----

  const LEAVES: nat := 256

  /** `x << k`. */
  function ShiftLeft(x: nat, k: nat): nat {
    if k == 0 then x else 2 * ShiftLeft(x, k - 1)
  }

  lemma {:induction false} ShiftLeftMultiplies(x: nat, k: nat)
    ensures ShiftLeft(x, k) == x * Pow2(k)
  {
    if k > 0 {
      ShiftLeftMultiplies(x, k - 1);
      Doubled(x, Pow2(k - 1));
    }
  }

  lemma Doubled(x: nat, p: nat)
    ensures 2 * (x * p) == x * (2 * p)
  {
  }

  function LevelOffset(l: nat): int
    requires l <= XMSS_HEIGHT
  {
    2 * LEAVES - ShiftLeft(2, XMSS_HEIGHT - l)
  }

  lemma LevelOffsetIsLevel(l: nat)
    requires l <= XMSS_HEIGHT
    ensures LevelOffset(l) == Merkle.Level(XMSS_HEIGHT, l)
  {
    ShiftLeftMultiplies(2, XMSS_HEIGHT - l);
    Pow2Eight();
  }

  /** `LEAVES >> l` is the number of nodes at level `l`. */
  lemma {:induction false} LevelCount(h: nat, l: nat)
    requires l <= h
    ensures Shift(Pow2(h), l) == Pow2(h - l)
  {
    if l > 0 {
      LevelCount(h, l - 1);
      assert Pow2(h - (l - 1)) == 2 * Pow2(h - l);
    }
  }

  // ----- the secret keys -----

  /** `winternitz.SecretKey` and `xmss.SecretKey`; only the latter caches nodes. */
  datatype SecretKey =
    | OneTimeKey(t: TweakHash, secrets: Bytes)
    | TreeKey(t: TweakHash, secrets: Bytes, nodes: seq<Element>)
  {
    function Kind(): Instance {
      if OneTimeKey? then OneTime else Tree
    }

    function Key(): Keys.Key {
      Keys.Key(t, Kind().Height(), secrets)
    }

    ghost predicate Valid() {
      Kind().Owns(Key()) && (TreeKey? ==> nodes == Key().Tree().Nodes())
    }
  }

  /** `fromSecrets` of both kinds: exactly the right lengths make a key. */
  method FromSecrets(kind: Instance, hash: Hash, secrets: Bytes, parameter: Bytes) returns (r: Result<SecretKey, CryptoError>)
    ensures if |secrets| == kind.SecretsLength() && |parameter| == PARAMETER_LENGTH
            then r.Ok? && r.value.Valid() && r.value.Kind() == kind
                 && r.value.Key() == Keys.Key(TweakHash(hash, parameter), kind.Height(), secrets)
            else r == Err(InvalidLength)
  {
    if |secrets| != kind.SecretsLength() || |parameter| != PARAMETER_LENGTH {
      return Err(InvalidLength);
    }
    var t := TweakHash(hash, parameter);
    if kind.OneTime? {
      return Ok(OneTimeKey(t, secrets));
    }
    Pow2Eight();
    var nodes := FillTree(t, secrets);
    return Ok(TreeKey(t, secrets, nodes));
  }

  /** The constructor's loops: the leaves, then level by level up to the root. */
  method FillTree(t: TweakHash, secrets: Bytes) returns (r: seq<Element>)
    requires Tree.Owns(Keys.Key(t, XMSS_HEIGHT, secrets))
    ensures r == Keys.Key(t, XMSS_HEIGHT, secrets).Tree().Nodes()
  {
    ghost var key := Keys.Key(t, XMSS_HEIGHT, secrets);
    Pow2Eight();
    LevelOffsetIsLevel(0);
    TreeLevels(key.Tree());
    Merkle.LeavesFirst(key.Tree());
    var nodes := new Element[2 * LEAVES - 1](_ => Zeros(ELEMENT_LENGTH));
    FillLeaves(t, secrets, nodes, key.LeafNodes());
    FillInner(t, nodes, key.Tree().Nodes());
    return nodes[..];
  }

  method FillLeaves(t: TweakHash, secrets: Bytes, nodes: array<Element>, ghost expected: seq<Element>)
    requires |secrets| == LEAVES * ELEMENTS_LENGTH && nodes.Length >= |expected| == LEAVES
    requires forall leaf :: 0 <= leaf < LEAVES ==>
               expected[leaf] == t.LeafHash(leaf, Leaves.EndsOf(t, leaf, StartsOf(secrets, leaf)))
    modifies nodes
    ensures nodes[..LEAVES] == expected
  {
    for leaf := 0 to LEAVES
      invariant nodes[..leaf] == expected[..leaf]
    {
      var ends := WalkStarts(t, secrets, leaf, Leaves.LAST);
      nodes[leaf] := t.LeafHash(leaf, Flatten(ends));
      assert nodes[..leaf + 1] == nodes[..leaf] + [nodes[leaf]];
    }
    assert nodes[..LEAVES] == expected[..LEAVES];
  }

  /** Level `l` lies right over the one below it, inside the array, and hashes from it. */
  ghost predicate LevelOver(t: TweakHash, expected: seq<Element>, l: nat)
    requires 1 <= l <= XMSS_HEIGHT
  {
    && 0 <= LevelOffset(l - 1) && LevelOffset(l) == LevelOffset(l - 1) + Shift(LEAVES, l - 1)
    && LevelOffset(l) + Shift(LEAVES, l) <= |expected|
    && Merkle.AllFromBelow(t.Node, expected, l, LevelOffset(l - 1), LevelOffset(l), Shift(LEAVES, l))
  }

  lemma TreeLevels(tree: Merkle.Tree<Element>)
    requires tree.Valid() && tree.height == XMSS_HEIGHT
    ensures forall l, t: TweakHash :: 1 <= l <= XMSS_HEIGHT && tree.node == t.Node ==> LevelOver(t, tree.Nodes(), l)
  {
    forall l, t: TweakHash | 1 <= l <= XMSS_HEIGHT && tree.node == t.Node
      ensures LevelOver(t, tree.Nodes(), l)
    {
      LevelShape(tree, l);
      LevelOffsetIsLevel(l - 1);
      Pow2Eight();
      LevelCount(XMSS_HEIGHT, l - 1);
    }
  }

  /** All levels up to `l` are in place. */
  ghost predicate Filled(nodes: array<Element>, expected: seq<Element>, l: nat)
    requires l <= XMSS_HEIGHT
    reads nodes
  {
    var end := LevelOffset(l) + Shift(LEAVES, l);
    nodes.Length == |expected| && 0 <= end <= |expected| && nodes[..end] == expected[..end]
  }

  /** One level; the loop inside it is the same in both packages. */
  method FillOver(t: TweakHash, nodes: array<Element>, l: nat, ghost expected: seq<Element>)
    requires 1 <= l <= XMSS_HEIGHT && Filled(nodes, expected, l - 1) && LevelOver(t, expected, l)
    modifies nodes
    ensures Filled(nodes, expected, l)
  {
    ghost var _ := Merkle.FillLevel(t.Node, nodes, l, LevelOffset(l - 1), LevelOffset(l), Shift(LEAVES, l), expected);
  }

  /** The loop over the inner levels. */
  method FillInner(t: TweakHash, nodes: array<Element>, ghost expected: seq<Element>)
    requires |expected| == 2 * LEAVES - 1 && Filled(nodes, expected, 0)
    requires forall l :: 1 <= l <= XMSS_HEIGHT ==> LevelOver(t, expected, l)
    modifies nodes
    ensures nodes[..] == expected
  {
    for l := 1 to XMSS_HEIGHT + 1
      invariant Filled(nodes, expected, l - 1)
    {
      FillOver(t, nodes, l, expected);
    }
    LastLevel();
    assert nodes[..|expected|] == nodes[..] && expected[..|expected|] == expected;
  }

  lemma LastLevel()
    ensures LevelOffset(XMSS_HEIGHT) + Shift(LEAVES, XMSS_HEIGHT) == 2 * LEAVES - 1
  {
    LevelOffsetIsLevel(XMSS_HEIGHT);
    LevelCount(XMSS_HEIGHT, XMSS_HEIGHT);
    Pow2Eight();
  }

  /** The shifts give the bounds and offsets of a level over the one below it. */
  lemma LevelShape(tree: Merkle.Tree<Element>, l: nat)
    requires tree.Valid() && tree.height == XMSS_HEIGHT && 1 <= l <= XMSS_HEIGHT
    ensures 0 <= LevelOffset(l - 1) && LevelOffset(l) == Merkle.LevelEnd(XMSS_HEIGHT, l - 1)
    ensures LevelOffset(l) + Shift(LEAVES, l) == Merkle.LevelEnd(XMSS_HEIGHT, l) <= |tree.Nodes()|
    ensures Shift(LEAVES, l) <= 0x8000_0000
    ensures Merkle.AllFromBelow(tree.node, tree.Nodes(), l, LevelOffset(l - 1), LevelOffset(l), Shift(LEAVES, l))
  {
    Merkle.LevelFromBelow(tree, l);
    LevelOffsetIsLevel(l - 1);
    LevelOffsetIsLevel(l);
    Pow2Eight();
    LevelCount(XMSS_HEIGHT, l);
  }

  /** The one node of a one-leaf key, recomputed. */
  method OnlyLeaf(k: SecretKey) returns (root: Element)
    requires k.Valid() && k.OneTimeKey?
    ensures root == k.Key().Tree().Root()
  {
    var ends := WalkStarts(k.t, k.secrets, 0, Leaves.LAST);
    root := k.t.LeafHash(0, Flatten(ends));
  }

  /** The last cached node. */
  lemma LastNode(k: SecretKey)
    requires k.Valid() && k.TreeKey?
    ensures 0 <= LevelOffset(XMSS_HEIGHT) < |k.nodes| && k.nodes[LevelOffset(XMSS_HEIGHT)] == k.Key().Tree().Root()
  {
    LevelOffsetIsLevel(XMSS_HEIGHT);
    k.Key().Tree().NodesAtLevel(XMSS_HEIGHT, 0);
  }

  /** `verifyingKey` of both kinds: the last cached node, or the leaf recomputed, before the parameter. */
  method VerifyingKey(k: SecretKey) returns (pk: PublicKey)
    requires k.Valid()
    ensures pk == k.Key().VerifyingKey()
  {
    if k.OneTimeKey? {
      var root := OnlyLeaf(k);
      return root + k.t.parameter;
    }
    LastNode(k);
    return k.nodes[LevelOffset(XMSS_HEIGHT)] + k.t.parameter;
  }

  /** `verifyingKey().toBytes().subarray(ELEMENT_LENGTH)`. */
  method ParameterOf(k: SecretKey) returns (parameter: Parameter)
    requires k.Valid()
    ensures parameter == k.t.parameter
  {
    var pk := VerifyingKey(k);
    parameter := pk[ELEMENT_LENGTH..];
  }

  /** The sibling of a level is cached where the source looks for it. */
  ghost predicate Cached(nodes: seq<Element>, leaf: u32, l: nat, sibling: Element)
    requires l <= XMSS_HEIGHT
  {
    var slot := LevelOffset(l) + Merkle.Sibling(Shift(leaf, l));
    0 <= slot < |nodes| && nodes[slot] == sibling
  }

  lemma SiblingsCached(tree: Merkle.Tree<Element>, leaf: u32)
    requires tree.Valid() && tree.height == XMSS_HEIGHT && leaf < Pow2(XMSS_HEIGHT)
    ensures forall l :: 0 <= l < XMSS_HEIGHT ==> Cached(tree.Nodes(), leaf, l, tree.Path(leaf)[l])
  {
    forall l | 0 <= l < XMSS_HEIGHT
      ensures Cached(tree.Nodes(), leaf, l, tree.Path(leaf)[l])
    {
      LevelOffsetIsLevel(l);
      tree.SiblingSlot(leaf, l);
    }
  }

  /** The path of a leaf, read from the cached nodes. */
  method ReadPath(nodes: seq<Element>, leaf: u32, ghost honest: seq<Element>) returns (path: seq<Element>)
    requires |honest| == XMSS_HEIGHT && forall l :: 0 <= l < XMSS_HEIGHT ==> Cached(nodes, leaf, l, honest[l])
    ensures path == honest
  {
    path := [];
    for l := 0 to XMSS_HEIGHT
      invariant path == honest[..l]
    {
      assert Cached(nodes, leaf, l, honest[l]);
      path := path + [nodes[LevelOffset(l) + Merkle.Sibling(Shift(leaf, l))]];
    }
  }

  /** `signAtWithSalt` of both kinds: the Rust signature, or an error naming what is wrong, the leaf
      first, then the lengths, then the salt. */
  method SignAtWithSalt(k: SecretKey, leaf: int, message: Bytes, salt: Bytes) returns (r: Result<Bytes, CryptoError>)
    requires k.Valid()
    ensures r == if leaf < 0 || leaf >= k.Kind().Leaves() then Err(InvalidEncoding)
                 else if |message| != MESSAGE_LENGTH || |salt| != SALT_LENGTH then Err(InvalidLength)
                 else match k.Kind().Sign(k.Key(), leaf, message, salt)
                      case None => Err(InvalidEncoding)
                      case Some(sig) => Ok(sig)
  {
    if leaf < 0 || leaf >= k.Kind().Leaves() {
      return Err(InvalidEncoding);
    }
    if k.OneTimeKey? {
      if |message| != MESSAGE_LENGTH || |salt| != SALT_LENGTH {
        return Err(InvalidLength);
      }
      r := SignLeaf(k.t, k.secrets, 0, message, salt);
      return;
    }
    Pow2Eight();
    SiblingsCached(k.Key().Tree(), leaf);
    var path := ReadPath(k.nodes, leaf, k.Key().Tree().Path(leaf));
    if |message| != MESSAGE_LENGTH || |salt| != SALT_LENGTH {
      return Err(InvalidLength);
    }
    var signed := SignLeaf(k.t, k.secrets, leaf, message, salt);
    if signed.Err? {
      return signed;
    }
    ghost var x := k.t.Encode(salt, leaf, message).value;
    Layout(leaf, salt, Leaves.CutAt(k.t, leaf, x, StartsOf(k.secrets, leaf)), path);
    return Ok(Be32(leaf) + signed.value + Flatten(path));
  }

  lemma Layout(leaf: u32, salt: Salt, elements: Elements, path: seq<Element>)
    ensures Be32(leaf) + (salt + elements) + Flatten(path) == Xmss.Assemble(leaf, salt, elements, path)
  {
    assert Be32(leaf) + (salt + elements) == Be32(leaf) + salt + elements;
  }

  // ----- the verifier (`verifying-key.ts`) -----

  /** `verify`: one body for both signature kinds, with offsets, leaf and path depending on the kind. */
  method Verify(hash: Hash, pk: PublicKey, message: Bytes, kind: Instance, encoded: Bytes) returns (r: Option<CryptoError>)
    requires |encoded| == kind.SignatureLength()
    ensures r == if |message| != MESSAGE_LENGTH then Some(InvalidLength)
                 else if kind.Verify(hash, pk, message, encoded) then None
                 else Some(InvalidSignature)
  {
    if |message| != MESSAGE_LENGTH {
      return Some(InvalidLength);
    }
    var digest: Message := message;
    var leaf: u32 := if kind.Tree? then FromBe32(encoded[..4]) else 0;
    Pow2Eight();
    if leaf >= LEAVES {
      return Some(InvalidSignature);
    }
    var salt := if kind.Tree? then 4 else 0;
    var elements := salt + SALT_LENGTH;
    var path := elements + ELEMENTS_LENGTH;
    var t := TweakHash(hash, pk[ELEMENT_LENGTH..]);
    var x := t.Encode(encoded[salt..elements], leaf, digest);
    if x.None? {
      return Some(InvalidSignature);
    }
    var ends := EndsFromSignature(t, leaf, x.value, encoded[elements..path]);
    var current := t.LeafHash(leaf, Flatten(ends));
    if kind.Tree? {
      current := Climb(t, leaf, current, encoded, path);
      assert current == Xmss.Climb(t, XMSS_HEIGHT, x.value, encoded);
    } else {
      assert encoded[elements..path] == encoded[SALT_LENGTH..];
    }
    return if current == pk[..ELEMENT_LENGTH] then None else Some(InvalidSignature);
  }

  /** The level loop; the sibling side is tested the other way round from the Rust loop. */
  method Climb(t: TweakHash, leaf: u32, start: Element, encoded: Bytes, path: nat) returns (current: Element)
    requires path + XMSS_HEIGHT * ELEMENT_LENGTH == |encoded|
    ensures current == Merkle.Fold(t.Node, leaf, 0, start, Chunks(encoded[path..]))
  {
    ghost var siblings := Chunks(encoded[path..]);
    current := start;
    for level := 1 to XMSS_HEIGHT + 1
      invariant Merkle.Fold(t.Node, leaf, level - 1, current, siblings[level - 1..])
                == Merkle.Fold(t.Node, leaf, 0, start, siblings)
    {
      var sibling: Element := encoded[path + (level - 1) * ELEMENT_LENGTH..path + level * ELEMENT_LENGTH];
      assert encoded[path..][ELEMENT_LENGTH * (level - 1)..ELEMENT_LENGTH * level] == sibling;
      assert siblings[level - 1..][1..] == siblings[level..];
      var index := Shift(leaf, level);
      if Shift(leaf, level - 1) % 2 == 1 {
        current := t.Node(level, index, sibling, current);
      } else {
        current := t.Node(level, index, current, sibling);
      }
    }
  }
}
