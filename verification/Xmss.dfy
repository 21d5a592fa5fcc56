/** The tree instance: `leaf ‖ salt ‖ elements ‖ path` signatures under a key of any height. */
module Xmss {
  import opened Bytes
  import opened TweakHash
  import Encoding
  import Leaves
  import Merkle
  import Keys

  const SALT: nat := 4
  const ELEMENTS: nat := 25
  const PATH: nat := 853

  function SignatureLength(h: nat): nat {
    PATH + ELEMENT_LENGTH * h
  }

  /** `Signature::leaf`. */
  function LeafOf(sig: Bytes): u32
    requires |sig| >= SALT
  {
    FromBe32(sig[..SALT])
  }

  function SaltOf(sig: Bytes): Salt
    requires |sig| >= ELEMENTS
  {
    sig[SALT..ELEMENTS]
  }

  function ElementsOf(sig: Bytes): Elements
    requires |sig| >= PATH
  {
    sig[ELEMENTS..PATH]
  }

  function PathOf(sig: Bytes, h: nat): seq<Element>
    requires |sig| == SignatureLength(h)
  {
    Chunks(sig[PATH..])
  }

  function PartsOf(sig: Bytes, h: nat): (r: Keys.Parts)
    requires |sig| == SignatureLength(h)
    ensures |r.path| == h
  {
    Keys.Parts(LeafOf(sig), SaltOf(sig), ElementsOf(sig), PathOf(sig, h))
  }

  /** The fixed signature layout. */
  function Assemble(leaf: u32, salt: Salt, elements: Elements, path: seq<Element>): (r: Bytes)
    ensures |r| == SignatureLength(|path|)
  {
    Be32(leaf) + salt + elements + Flatten(path)
  }

  lemma AssembleFields(leaf: u32, salt: Salt, elements: Elements, path: seq<Element>)
    ensures var sig := Assemble(leaf, salt, elements, path);
            LeafOf(sig) == leaf && SaltOf(sig) == salt && ElementsOf(sig) == elements && PathOf(sig, |path|) == path
  {
    var sig := Assemble(leaf, salt, elements, path);
    assert sig[..SALT] == Be32(leaf) && sig[PATH..] == Flatten(path);
    Be32Decodes(leaf);
    ChunksFlatten(path);
  }

  lemma FieldsAssemble(sig: Bytes, h: nat)
    requires |sig| == SignatureLength(h)
    ensures Assemble(LeafOf(sig), SaltOf(sig), ElementsOf(sig), PathOf(sig, h)) == sig
  {
    Be32Encodes(sig[..SALT]);
    FlattenChunks(sig[PATH..]);
    assert sig == sig[..SALT] + sig[SALT..ELEMENTS] + sig[ELEMENTS..PATH] + sig[PATH..];
  }

  /** Sign with an accepted salt: none for a leaf outside the tree or a salt that misses the target. */
  function Sign(key: Keys.Key, leaf: u32, message: Message, salt: Salt): (r: Option<Bytes>)
    requires key.Valid()
    ensures r.Some? ==> |r.value| == SignatureLength(key.height)
  {
    if leaf >= Pow2(key.height) then None
    else
      match key.t.Encode(salt, leaf, message)
      case None => None
      case Some(x) =>
        Some(Assemble(leaf, salt, Leaves.CutAt(key.t, leaf, x, key.Starts(leaf)), key.Tree().Path(leaf)))
  }

  /** The running node after the verifier's climb. */
  function Climb(t: TweakHash, h: nat, x: Digits, sig: Bytes): Element
    requires h <= Merkle.MAX_HEIGHT && |sig| == SignatureLength(h)
  {
    var leaf := LeafOf(sig);
    Merkle.Fold(t.Node, leaf, 0, t.LeafHash(leaf, Leaves.FinishFrom(t, leaf, x, ElementsOf(sig))), PathOf(sig, h))
  }

  predicate Verify(hash: Hash, h: nat, pk: PublicKey, message: Message, sig: Bytes)
    requires h <= Merkle.MAX_HEIGHT && |sig| == SignatureLength(h)
  {
    var leaf := LeafOf(sig);
    var t := TweakHash(hash, pk[ELEMENT_LENGTH..]);
    && leaf < Pow2(h)
    && var x := t.Encode(SaltOf(sig), leaf, message);
       x.Some? && Climb(t, h, x.value, sig) == pk[..ELEMENT_LENGTH]
  }

  lemma PublicKeyFields(key: Keys.Key)
    requires key.Valid()
    ensures TweakHash(key.t.hash, key.VerifyingKey()[ELEMENT_LENGTH..]) == key.t
    ensures key.VerifyingKey()[..ELEMENT_LENGTH] == key.Tree().Root()
  {
  }

  /** Signing correctness, for every key, height, leaf, message and salt: whatever is signed verifies. */
  lemma SignedVerifies(key: Keys.Key, leaf: u32, message: Message, salt: Salt)
    requires key.Valid() && Sign(key, leaf, message, salt).Some?
    ensures Verify(key.t.hash, key.height, key.VerifyingKey(), message, Sign(key, leaf, message, salt).value)
  {
    var t, tree, starts := key.t, key.Tree(), key.Starts(leaf);
    var x := t.Encode(salt, leaf, message).value;
    var sig := Sign(key, leaf, message, salt).value;
    AssembleFields(leaf, salt, Leaves.CutAt(t, leaf, x, starts), tree.Path(leaf));
    PublicKeyFields(key);
    Leaves.FinishesCut(t, leaf, x, starts);
    tree.FoldHonest(leaf, 0);
    assert tree.Path(leaf)[0..] == tree.Path(leaf);
  }

  /** Acceptance is exact up to a second preimage that comes with the signature: any byte string the
      honest key accepts is the honest signature for its own leaf and salt, or verifying it makes a hash
      call that collides with a call of the key under the same tweak. */
  lemma VerifiedIsSigned(key: Keys.Key, message: Message, sig: Bytes)
    requires key.Valid() && |sig| == SignatureLength(key.height)
    requires Verify(key.t.hash, key.height, key.VerifyingKey(), message, sig)
    ensures || Sign(key, LeafOf(sig), message, SaltOf(sig)) == Some(sig)
            || key.BrokenBy(message, PartsOf(sig, key.height))
  {
    PublicKeyFields(key);
    var parts, tree := PartsOf(sig, key.height), key.Tree();
    assert parts.path[..key.height] == parts.path;
    AcceptedExact(key, message, parts);
    FieldsAssemble(sig, key.height);
  }

  /** The same, over the parts of a signature. */
  lemma AcceptedExact(key: Keys.Key, message: Message, parts: Keys.Parts)
    requires key.Valid() && |parts.path| == key.height && parts.leaf < Pow2(key.height)
    requires Keys.Running(key.t, message, parts, key.height) == key.Tree().Root()
    ensures || key.BrokenBy(message, parts)
            || (parts.path == key.Tree().Path(parts.leaf)
                && parts.elements == Leaves.CutAt(key.t, parts.leaf, key.t.DigitsOf(parts.salt, parts.leaf, message), key.Starts(parts.leaf)))
  {
    var t, tree, leaf := key.t, key.Tree(), parts.leaf;
    var x := t.DigitsOf(parts.salt, leaf, message);
    var ends := Leaves.FinishFrom(t, leaf, x, parts.elements);
    assert parts.path[..key.height] == parts.path && tree.Path(leaf)[0..] == tree.Path(leaf);
    tree.FoldExact(leaf, 0, t.LeafHash(leaf, ends), parts.path);
    if l :| tree.FoldMeets(leaf, 0, t.LeafHash(leaf, ends), parts.path, l) {
      key.NodeWitness(message, parts, l);
    } else if ends != key.Ends(leaf) {
      key.LeafWitness(message, parts);
    } else {
      Leaves.FinishExact(t, leaf, x, parts.elements, key.Starts(leaf));
      if c, p :| Leaves.FinishMeets(t, leaf, x, parts.elements, key.Starts(leaf), c, p) {
        key.ChainWitness(message, parts, c, p);
      }
    }
  }

  // ----- the step-by-step code -----

  /** `raw::SecretKey`: the key with its cached tree. */
  datatype SecretKey = SecretKey(key: Keys.Key, nodes: seq<Element>) {
    ghost predicate Valid() {
      key.Valid() && nodes == key.Tree().Nodes()
    }
  }

  /** Build the cached tree in place, or refuse chain starts of the wrong length. */
  method FromSecrets(hash: Hash, h: nat, secrets: Bytes, parameter: Parameter) returns (r: Option<SecretKey>)
    requires h <= Merkle.MAX_HEIGHT
    ensures r.Some? <==> |secrets| == ELEMENTS_LENGTH * Pow2(h)
    ensures r.Some? ==> r.value.Valid() && r.value.key == Keys.Key(TweakHash(hash, parameter), h, secrets)
  {
    if |secrets| != ELEMENTS_LENGTH * Pow2(h) {
      return None;
    }
    var key := Keys.Key(TweakHash(hash, parameter), h, secrets);
    var leaves := Pow2(h);
    Merkle.Pow2U32(h);
    var nodes := new Element[2 * leaves - 1](_ => Zeros(ELEMENT_LENGTH));
    for leaf := 0 to leaves
      invariant forall s :: 0 <= s < leaf ==> nodes[s] == key.LeafNodes()[s]
    {
      var ends := Leaves.Ends(key.t, leaf, key.Starts(leaf));
      nodes[leaf] := key.t.LeafHash(leaf, ends);
    }
    assert nodes[..leaves] == key.LeafNodes();
    ghost var _ := Merkle.FillLevels(key.t.Node, h, nodes, key.Tree());
    return Some(SecretKey(key, nodes[..]));
  }

  /** `verifying_key`: the node in the last slot, and the parameter. */
  method VerifyingKey(sk: SecretKey) returns (pk: PublicKey)
    requires sk.Valid()
    ensures pk == sk.key.VerifyingKey()
  {
    var h := sk.key.height;
    sk.key.Tree().NodesAtLevel(h, 0);
    var root := sk.nodes[Merkle.Level(h, h)];
    assert root == sk.key.Tree().Root();
    pk := root + sk.key.t.parameter;
  }

  /** `sign_at_with_salt`: fill the signature buffer slice by slice. */
  method SignAtWithSalt(sk: SecretKey, leaf: u32, message: Message, salt: Salt) returns (r: Option<Bytes>)
    requires sk.Valid()
    ensures r == Sign(sk.key, leaf, message, salt)
  {
    if leaf >= Pow2(sk.key.height) {
      return None;
    }
    var elements, _ := Leaves.Sign(sk.key.t, leaf, sk.key.Starts(leaf), message, salt);
    if elements.None? {
      return None;
    }
    var sig := new byte[SignatureLength(sk.key.height)](_ => 0);
    CopyAt(sig, 0, Be32(leaf));
    CopyAt(sig, SALT, salt);
    CopyAt(sig, ELEMENTS, elements.value);
    var path := new Element[sk.key.height](_ => Zeros(ELEMENT_LENGTH));
    Merkle.ExtractPath(sk.key.height, sk.nodes, leaf, path, sk.key.Tree());
    assert sig[..PATH] == Be32(leaf) + salt + elements.value;
    CopyAt(sig, PATH, Flatten(path[..]));
    assert sig[..] == Assemble(leaf, salt, elements.value, path[..]);
    return Some(sig[..]);
  }

  /** `Signature::verify`: finish the chains, then update the running node level by level. */
  method VerifySignature(hash: Hash, h: nat, pk: PublicKey, message: Message, sig: Bytes) returns (accepted: bool)
    requires h <= Merkle.MAX_HEIGHT && |sig| == SignatureLength(h)
    ensures accepted == Verify(hash, h, pk, message, sig)
  {
    var leaf := LeafOf(sig);
    if leaf >= Pow2(h) {
      return false;
    }
    var t := TweakHash(hash, pk[ELEMENT_LENGTH..]);
    var x := Encoding.Encode(t, SaltOf(sig), leaf, message);
    if x.None? {
      return false;
    }
    var ends, _ := Leaves.Finish(t, leaf, x.value, ElementsOf(sig));
    var current := t.LeafHash(leaf, ends);
    var path := PathOf(sig, h);
    for level := 1 to h + 1
      invariant Merkle.Fold(t.Node, leaf, level - 1, current, path[level - 1..]) == Climb(t, h, x.value, sig)
    {
      var sibling := path[level - 1];
      var index := Shift(leaf, level);
      assert path[level - 1..][1..] == path[level..];
      if Shift(leaf, level - 1) % 2 == 0 {
        current := t.Node(level, index, current, sibling);
      } else {
        current := t.Node(level, index, sibling, current);
      }
    }
    return current == pk[..ELEMENT_LENGTH];
  }
}
