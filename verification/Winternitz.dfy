/** The one-leaf instance: `salt ‖ elements` signatures, the height-0 tree without its leaf prefix. */
module Winternitz {
  import opened Bytes
  import opened TweakHash
  import Encoding
  import Leaves
  import Keys
  import Xmss

  const SIGNATURE_LENGTH: nat := 849

  function Sign(key: Keys.Key, leaf: u32, message: Message, salt: Salt): (r: Option<Bytes>)
    requires key.Valid() && key.height == 0
    ensures r.Some? ==> |r.value| == SIGNATURE_LENGTH
  {
    if leaf != 0 then None
    else
      match key.t.Encode(salt, 0, message)
      case None => None
      case Some(x) => Some(salt + Leaves.CutAt(key.t, 0, x, key.Starts(0)))
  }

  predicate Verify(hash: Hash, pk: PublicKey, message: Message, sig: Bytes)
    requires |sig| == SIGNATURE_LENGTH
  {
    var t := TweakHash(hash, pk[ELEMENT_LENGTH..]);
    var x := t.Encode(sig[..SALT_LENGTH], 0, message);
    && x.Some?
    && t.LeafHash(0, Leaves.FinishFrom(t, 0, x.value, sig[SALT_LENGTH..])) == pk[..ELEMENT_LENGTH]
  }

  /** Signing is the tree instance at height 0, less the four zero bytes of the leaf. */
  lemma SignIsHeightZero(key: Keys.Key, leaf: u32, message: Message, salt: Salt)
    requires key.Valid() && key.height == 0
    ensures Xmss.Sign(key, leaf, message, salt) == match Sign(key, leaf, message, salt)
                                                   case None => None
                                                   case Some(sig) => Some(Be32(0) + sig)
  {
    if leaf == 0 && key.t.Encode(salt, 0, message).Some? {
      var elements := Leaves.CutAt(key.t, 0, key.t.Encode(salt, 0, message).value, key.Starts(0));
      assert key.Tree().Path(0) == [];
      assert Be32(0) + (salt + elements) == Be32(0) + salt + elements + [];
    }
  }

  /** The parts of a one-leaf signature are those of the tree signature with four zero bytes before it. */
  lemma PartsAtHeightZero(sig: Bytes)
    requires |sig| == SIGNATURE_LENGTH
    ensures Xmss.PartsOf(Be32(0) + sig, 0) == Keys.Parts(0, sig[..SALT_LENGTH], sig[SALT_LENGTH..], [])
  {
    var full := Be32(0) + sig;
    assert full[..4] == Be32(0);
    Be32Decodes(0);
    assert Xmss.SaltOf(full) == sig[..SALT_LENGTH];
    assert Xmss.ElementsOf(full) == sig[SALT_LENGTH..];
    assert Xmss.PathOf(full, 0) == [];
  }

  /** So is verification. */
  lemma VerifyIsHeightZero(hash: Hash, pk: PublicKey, message: Message, sig: Bytes)
    requires |sig| == SIGNATURE_LENGTH
    ensures Verify(hash, pk, message, sig) == Xmss.Verify(hash, 0, pk, message, Be32(0) + sig)
  {
    PartsAtHeightZero(sig);
  }

  // ----- the step-by-step code -----

  /** `raw::SecretKey::verifying_key`: recomputed from the chain starts, without a cached tree. */
  method VerifyingKey(key: Keys.Key) returns (pk: PublicKey)
    requires key.Valid() && key.height == 0
    ensures pk == key.VerifyingKey()
  {
    var ends := Leaves.Ends(key.t, 0, key.Starts(0));
    pk := key.t.LeafHash(0, ends) + key.t.parameter;
  }

  method SignAtWithSalt(key: Keys.Key, leaf: u32, message: Message, salt: Salt) returns (r: Option<Bytes>)
    requires key.Valid() && key.height == 0
    ensures r == Sign(key, leaf, message, salt)
  {
    if leaf != 0 {
      return None;
    }
    var elements, _ := Leaves.Sign(key.t, 0, key.Starts(0), message, salt);
    if elements.None? {
      return None;
    }
    var sig := new byte[SIGNATURE_LENGTH](_ => 0);
    CopyAt(sig, 0, salt);
    assert sig[..SALT_LENGTH] == salt;
    CopyAt(sig, SALT_LENGTH, elements.value);
    assert sig[..] == salt + elements.value;
    return Some(sig[..]);
  }

  method VerifySignature(hash: Hash, pk: PublicKey, message: Message, sig: Bytes) returns (accepted: bool)
    requires |sig| == SIGNATURE_LENGTH
    ensures accepted == Verify(hash, pk, message, sig)
  {
    var t := TweakHash(hash, pk[ELEMENT_LENGTH..]);
    var x := Encoding.Encode(t, sig[..SALT_LENGTH], 0, message);
    if x.None? {
      return false;
    }
    var ends, _ := Leaves.Finish(t, 0, x.value, sig[SALT_LENGTH..]);
    return t.LeafHash(0, ends) == pk[..ELEMENT_LENGTH];
  }
}
