/** The two instances the crate seals: one-leaf Winternitz and the 256-leaf tree. */
module Instances {
  import opened Bytes
  import opened TweakHash
  import Encoding
  import Leaves
  import Merkle
  import Keys
  import Xmss
  import Winternitz

  const XMSS_HEIGHT: nat := 8

  datatype Instance = OneTime | Tree {

    /** Tree height, which is also the key-file tag. */
    function Height(): (r: byte)
      ensures r <= Merkle.MAX_HEIGHT
    {
      if OneTime? then 0 else XMSS_HEIGHT
    }

    function Leaves(): (r: nat)
      ensures r == Pow2(Height()) && 1 <= r <= 256
    {
      Pow2Eight();
      if OneTime? then 1 else 256
    }

    function SecretsLength(): nat {
      Leaves() * ELEMENTS_LENGTH
    }

    function SignatureLength(): nat {
      if OneTime? then Winternitz.SIGNATURE_LENGTH else Xmss.SignatureLength(XMSS_HEIGHT)
    }

    ghost predicate Owns(key: Keys.Key) {
      key.Valid() && key.height == Height()
    }

    function Sign(key: Keys.Key, leaf: u32, message: Message, salt: Salt): (r: Option<Bytes>)
      requires Owns(key)
      ensures r.Some? ==> |r.value| == SignatureLength()
    {
      if OneTime? then Winternitz.Sign(key, leaf, message, salt) else Xmss.Sign(key, leaf, message, salt)
    }

    predicate Verify(hash: Hash, pk: PublicKey, message: Message, sig: Bytes)
      requires |sig| == SignatureLength()
    {
      if OneTime? then Winternitz.Verify(hash, pk, message, sig) else Xmss.Verify(hash, XMSS_HEIGHT, pk, message, sig)
    }

    /** The leaf a signature is for. */
    function LeafOf(sig: Bytes): u32
      requires |sig| == SignatureLength()
    {
      if OneTime? then 0 else Xmss.LeafOf(sig)
    }

    function SaltOf(sig: Bytes): Salt
      requires |sig| == SignatureLength()
    {
      if OneTime? then sig[..SALT_LENGTH] else Xmss.SaltOf(sig)
    }

    function ElementsOf(sig: Bytes): Elements
      requires |sig| == SignatureLength()
    {
      if OneTime? then sig[SALT_LENGTH..] else Xmss.ElementsOf(sig)
    }

    function PartsOf(sig: Bytes): (r: Keys.Parts)
      requires |sig| == SignatureLength()
      ensures |r.path| == Height()
    {
      if OneTime? then Keys.Parts(0, sig[..SALT_LENGTH], sig[SALT_LENGTH..], []) else Xmss.PartsOf(sig, XMSS_HEIGHT)
    }
  }

  /** A signature of the key carries its chains cut at the digits of its message. */
  lemma SignedElement(i: Instance, key: Keys.Key, leaf: u32, message: Message, salt: Salt, chain: nat)
    requires i.Owns(key) && i.Sign(key, leaf, message, salt).Some? && chain < CHAINS
    ensures leaf < Pow2(key.height) && key.t.Encode(salt, leaf, message).Some?
    ensures var x := key.t.Encode(salt, leaf, message).value;
            Chunk(i.ElementsOf(i.Sign(key, leaf, message, salt).value), chain)
            == key.t.Walk(leaf, chain, 0, x[chain], Chunk(key.Starts(leaf), chain))
  {
    var sig := i.Sign(key, leaf, message, salt).value;
    var x := key.t.Encode(salt, leaf, message).value;
    var elements := Leaves.CutAt(key.t, leaf, x, key.Starts(leaf));
    if i.OneTime? {
      assert sig[SALT_LENGTH..] == elements;
    } else {
      Xmss.AssembleFields(leaf, salt, elements, key.Tree().Path(leaf));
    }
    Leaves.WalkAllChunk(key.t, leaf, Leaves.FIRST, x, key.Starts(leaf), chain);
  }

  /** Another salt or message whose salted digest has the same first 18 bytes, and so the same digits. */
  ghost predicate Reencodes(t: TweakHash, leaf: u32, message: Message, salt: Salt, other: Message, salt': Salt) {
    (other, salt') != (message, salt) && Encoding.Prefix(t, salt', leaf, other) == Encoding.Prefix(t, salt, leaf, message)
  }

  /** What it takes to get something else accepted at a leaf that signed once: verifying it computes a
      second preimage, or it shows the honest value of some chain at a position below the signed one, or
      its salted digest collides with the signed one on the 18 bytes that make the digits. */
  ghost predicate Forged(i: Instance, key: Keys.Key, message: Message, salt: Salt, other: Message, sig: Bytes)
    requires i.Owns(key) && |sig| == i.SignatureLength()
  {
    || key.BrokenBy(other, i.PartsOf(sig))
    || (exists chain :: 0 <= chain < CHAINS && GoesBack(i, key, message, salt, other, sig, chain))
    || Reencodes(key.t, i.LeafOf(sig), message, salt, other, i.SaltOf(sig))
  }

  /** What a leaf that signed once gives away: whatever the key accepts at that leaf is the signed message
      with the signed bytes, or it is forged. */
  lemma SignedLeafExact(i: Instance, key: Keys.Key, message: Message, salt: Salt, other: Message, sig: Bytes)
    requires i.Owns(key) && |sig| == i.SignatureLength()
    requires i.Sign(key, i.LeafOf(sig), message, salt).Some?
    requires i.Verify(key.t.hash, key.VerifyingKey(), other, sig)
    ensures || (other == message && i.Sign(key, i.LeafOf(sig), message, salt) == Some(sig))
            || Forged(i, key, message, salt, other, sig)
  {
    VerifiedIsSigned(i, key, other, sig);
    if !key.BrokenBy(other, i.PartsOf(sig)) {
      SignedOtherwise(i, key, i.LeafOf(sig), message, salt, other, i.SaltOf(sig));
    }
  }

  /** Two signatures of the key at one leaf: the same message and salt, or another step back or digest. */
  lemma SignedOtherwise(i: Instance, key: Keys.Key, leaf: u32, message: Message, salt: Salt, other: Message, salt': Salt)
    requires i.Owns(key) && i.Sign(key, leaf, message, salt).Some? && i.Sign(key, leaf, other, salt').Some?
    ensures || (other, salt') == (message, salt)
            || (exists chain :: 0 <= chain < CHAINS && GoesBack(i, key, message, salt, other, i.Sign(key, leaf, other, salt').value, chain))
            || Reencodes(key.t, leaf, message, salt, other, salt')
  {
    if key.t.Encode(salt, leaf, message) != key.t.Encode(salt', leaf, other) {
      SignedGoesBack(i, key, leaf, message, salt, other, salt');
    } else {
      EncodingReencodes(key.t, leaf, message, salt, other, salt');
      SignsExactly(i, key, leaf, message, salt);
    }
  }

  lemma EncodingReencodes(t: TweakHash, leaf: u32, message: Message, salt: Salt, other: Message, salt': Salt)
    requires t.Encode(salt, leaf, message) == t.Encode(salt', leaf, other)
    ensures t.Encode(salt, leaf, message).Some? ==> (other, salt') == (message, salt) || Reencodes(t, leaf, message, salt, other, salt')
  {
    Encoding.SameDigits(t, salt, salt', leaf, message, other);
  }

  lemma SignedGoesBack(i: Instance, key: Keys.Key, leaf: u32, message: Message, salt: Salt, other: Message, salt': Salt)
    requires i.Owns(key) && i.Sign(key, leaf, message, salt).Some? && i.Sign(key, leaf, other, salt').Some?
    requires key.t.Encode(salt, leaf, message) != key.t.Encode(salt', leaf, other)
    ensures exists chain :: 0 <= chain < CHAINS && GoesBack(i, key, message, salt, other, i.Sign(key, leaf, other, salt').value, chain)
  {
    SignsExactly(i, key, leaf, message, salt);
    SignsExactly(i, key, leaf, other, salt');
    Encoding.AcceptedIncomparable(key.t, salt, salt', leaf, leaf, message, other);
    var x, y := key.t.Encode(salt, leaf, message).value, key.t.Encode(salt', leaf, other).value;
    var chain :| 0 <= chain < CHAINS && y[chain] < x[chain];
    SignedElement(i, key, leaf, other, salt', chain);
    assert GoesBack(i, key, message, salt, other, i.Sign(key, leaf, other, salt').value, chain);
  }

  /** The element of a chain is the honest value at a position below the signed one. */
  ghost predicate GoesBack(i: Instance, key: Keys.Key, message: Message, salt: Salt, other: Message, sig: Bytes, chain: nat)
    requires i.Owns(key) && |sig| == i.SignatureLength() && chain < CHAINS
  {
    var leaf := i.LeafOf(sig);
    var signed, shown := key.t.Encode(salt, leaf, message), key.t.Encode(i.SaltOf(sig), leaf, other);
    && leaf < Pow2(key.height) && signed.Some? && shown.Some? && shown.value[chain] < signed.value[chain]
    && Chunk(i.ElementsOf(sig), chain) == key.t.Walk(leaf, chain, 0, shown.value[chain], Chunk(key.Starts(leaf), chain))
  }

  lemma SignatureLengths()
    ensures OneTime.SignatureLength() == 849 && Tree.SignatureLength() == 1037
  {
  }

  /** Exactly the leaves of the instance and the accepted salts sign. */
  lemma SignsExactly(i: Instance, key: Keys.Key, leaf: u32, message: Message, salt: Salt)
    requires i.Owns(key)
    ensures i.Sign(key, leaf, message, salt).Some? <==> leaf < i.Leaves() && key.t.Encode(salt, leaf, message).Some?
    ensures i.Sign(key, leaf, message, salt).Some? ==>
              var sig := i.Sign(key, leaf, message, salt).value;
              i.LeafOf(sig) == leaf && i.SaltOf(sig) == salt
  {
    if leaf < i.Leaves() && key.t.Encode(salt, leaf, message).Some? {
      var sig := i.Sign(key, leaf, message, salt).value;
      if i.OneTime? {
        assert sig[..SALT_LENGTH] == salt;
      } else {
        var x := key.t.Encode(salt, leaf, message).value;
        Xmss.AssembleFields(leaf, salt, Leaves.CutAt(key.t, leaf, x, key.Starts(leaf)), key.Tree().Path(leaf));
      }
    }
  }

  /** Signing correctness for both instances. */
  lemma SignedVerifies(i: Instance, key: Keys.Key, leaf: u32, message: Message, salt: Salt)
    requires i.Owns(key) && i.Sign(key, leaf, message, salt).Some?
    ensures i.Verify(key.t.hash, key.VerifyingKey(), message, i.Sign(key, leaf, message, salt).value)
  {
    if i.OneTime? {
      Winternitz.SignIsHeightZero(key, leaf, message, salt);
      Winternitz.VerifyIsHeightZero(key.t.hash, key.VerifyingKey(), message, i.Sign(key, leaf, message, salt).value);
    }
    Xmss.SignedVerifies(key, leaf, message, salt);
  }

  /** Acceptance is exact up to a second preimage that verifying the signature computes, for both
      instances. */
  lemma VerifiedIsSigned(i: Instance, key: Keys.Key, message: Message, sig: Bytes)
    requires i.Owns(key) && |sig| == i.SignatureLength()
    requires i.Verify(key.t.hash, key.VerifyingKey(), message, sig)
    ensures i.Sign(key, i.LeafOf(sig), message, i.SaltOf(sig)) == Some(sig) || key.BrokenBy(message, i.PartsOf(sig))
  {
    if i.OneTime? {
      var full := Be32(0) + sig;
      Winternitz.PartsAtHeightZero(sig);
      Winternitz.VerifyIsHeightZero(key.t.hash, key.VerifyingKey(), message, sig);
      Xmss.VerifiedIsSigned(key, message, full);
      if !key.BrokenBy(message, i.PartsOf(sig)) {
        Winternitz.SignIsHeightZero(key, 0, message, i.SaltOf(sig));
        var own := Winternitz.Sign(key, 0, message, i.SaltOf(sig)).value;
        assert own == (Be32(0) + own)[4..] == full[4..] == sig;
      }
    } else {
      Xmss.VerifiedIsSigned(key, message, sig);
    }
  }

  /** `VerifyingKey::verify`: the signature type selects the instance. */
  method VerifySignature(i: Instance, hash: Hash, pk: PublicKey, message: Message, sig: Bytes) returns (accepted: bool)
    requires |sig| == i.SignatureLength()
    ensures accepted == i.Verify(hash, pk, message, sig)
  {
    if i.OneTime? {
      accepted := Winternitz.VerifySignature(hash, pk, message, sig);
    } else {
      accepted := Xmss.VerifySignature(hash, XMSS_HEIGHT, pk, message, sig);
    }
  }

  // ----- raw keys: `OneTime::{from_secrets, verifying_key, sign_at_with_salt}` -----

  datatype RawKey = RawOneTime(key: Keys.Key) | RawTree(tree: Xmss.SecretKey) {
    function Instance(): Instance {
      if RawOneTime? then OneTime else Tree
    }

    function Key(): Keys.Key {
      if RawOneTime? then key else tree.key
    }

    ghost predicate Valid() {
      Instance().Owns(Key()) && (RawTree? ==> tree.Valid())
    }
  }

  /** Chain starts of any other length than the instance's are refused. */
  method FromSecrets(i: Instance, hash: Hash, secrets: Bytes, parameter: Parameter) returns (r: Option<RawKey>)
    ensures r.Some? <==> |secrets| == i.SecretsLength()
    ensures r.Some? ==> r.value.Valid() && r.value.Instance() == i
                        && r.value.Key() == Keys.Key(TweakHash(hash, parameter), i.Height(), secrets)
  {
    if i.OneTime? {
      r := if |secrets| == i.SecretsLength() then Some(RawOneTime(Keys.Key(TweakHash(hash, parameter), 0, secrets))) else None;
    } else {
      var tree := Xmss.FromSecrets(hash, XMSS_HEIGHT, secrets, parameter);
      assert Tree.SecretsLength() == ELEMENTS_LENGTH * Pow2(XMSS_HEIGHT);
      r := if tree.Some? then Some(RawTree(tree.value)) else None;
    }
  }

  method VerifyingKey(raw: RawKey) returns (pk: PublicKey)
    requires raw.Valid()
    ensures pk == raw.Key().VerifyingKey()
  {
    if raw.RawOneTime? {
      pk := Winternitz.VerifyingKey(raw.key);
    } else {
      pk := Xmss.VerifyingKey(raw.tree);
    }
  }

  method SignAtWithSalt(raw: RawKey, leaf: u32, message: Message, salt: Salt) returns (r: Option<Bytes>)
    requires raw.Valid()
    ensures r == raw.Instance().Sign(raw.Key(), leaf, message, salt)
  {
    if raw.RawOneTime? {
      r := Winternitz.SignAtWithSalt(raw.key, leaf, message, salt);
    } else {
      r := Xmss.SignAtWithSalt(raw.tree, leaf, message, salt);
    }
  }
}
