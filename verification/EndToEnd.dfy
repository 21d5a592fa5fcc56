/**
 Signer, scheme and program together, against anyone: the account takes any instructions whatever, among
 them deliveries of the signer's signatures.
 */
module EndToEnd {
  import opened Bytes
  import opened TweakHash
  import opened Instances
  import opened Machine
  import opened MachineTheorems
  import opened Composition
  import Account
  import Records
  import Keys

  /** The account right after its creation. */
  function Created(hash: Hash, create: Account.Instruction): Bytes {
    Account.Process(hash, Zeros(Account.ACCOUNT_LENGTH), create).0
  }

  /** The account before instruction `k`. */
  function Before(hash: Hash, create: Account.Instruction, instructions: seq<Account.Instruction>, k: nat): (r: Bytes)
    requires k <= |instructions|
    ensures |r| == Account.ACCOUNT_LENGTH
  {
    Account.Run(hash, Created(hash, create), instructions[..k])
  }

  /** The leaves that were accepted before instruction `k`. */
  function Spent(hash: Hash, create: Account.Instruction, instructions: seq<Account.Instruction>, k: nat): seq<nat>
    requires k <= |instructions|
  {
    Account.AcceptedLeaves(hash, Created(hash, create), instructions[..k])
  }

  /** What instruction `k` of a run returns is what the account before it makes of it. */
  lemma {:induction false} OutcomeAt(hash: Hash, bytes: Bytes, instructions: seq<Account.Instruction>, k: nat)
    requires k < |instructions|
    ensures Outcomes(hash, bytes, instructions)[k]
            == Account.Process(hash, Account.Run(hash, bytes, instructions[..k]), instructions[k]).1
    decreases k
  {
    if k > 0 {
      var after := Account.Process(hash, bytes, instructions[0]).0;
      OutcomesUnfold(hash, bytes, instructions, k);
      OutcomeAt(hash, after, instructions[1..], k - 1);
      assert instructions[..k][1..] == instructions[1..][..k - 1];
    } else {
      assert instructions[..k] == [];
    }
  }

  /** Whatever is sent to it, the account keeps its key, and its used leaves are the accepted ones. */
  lemma AccountKept(i: Instance, hash: Hash, pk: PublicKey, create: Account.Instruction,
                    instructions: seq<Account.Instruction>, k: nat)
    requires create.named && create.owned && create.writable && create.signer && create.data == [CreateTag(i)] + pk
    requires k <= |instructions|
    ensures Holds(Before(hash, create, instructions, k), i, pk)
    ensures forall leaf: nat ::
              leaf in Account.UsedLeaves(Before(hash, create, instructions, k)) <==> leaf in Spent(hash, create, instructions, k)
  {
    var bytes := Created(hash, create);
    CreateHolds(i, hash, pk, create);
    Account.RunSound(hash, bytes, instructions[..k]);
    SameKey(bytes, Before(hash, create, instructions, k), i, pk);
  }

  lemma SameKey(bytes: Bytes, after: Bytes, i: Instance, pk: PublicKey)
    requires Holds(bytes, i, pk) && |after| == Account.ACCOUNT_LENGTH && after[..Account.KEY_END] == bytes[..Account.KEY_END]
    ensures Holds(after, i, pk)
  {
    assert after[0] == after[..Account.KEY_END][0] && bytes[0] == bytes[..Account.KEY_END][0];
    assert Account.KeyOf(after) == after[..Account.KEY_END][1..] && Account.KeyOf(bytes) == bytes[..Account.KEY_END][1..];
  }

  lemma GenuineAccepted(i: Instance, hash: Hash, pk: PublicKey, create: Account.Instruction,
                        instructions: seq<Account.Instruction>, k: nat, x: Release)
    requires create.named && create.owned && create.writable && create.signer && create.data == [CreateTag(i)] + pk
    requires k < |instructions| && Account.Delivers(instructions[k], x.message, x.signature) && Genuine(i, hash, pk, x)
    ensures Outcomes(hash, Created(hash, create), instructions)[k].Ok? <==> x.leaf !in Spent(hash, create, instructions, k)
  {
    AccountKept(i, hash, pk, create, instructions, k);
    OutcomeAt(hash, Created(hash, create), instructions, k);
    DeliverOne(i, hash, pk, Before(hash, create, instructions, k), instructions[k], x);
  }

  /** Nobody can keep a released signature out except by spending its leaf: among any other instructions,
      it is accepted if and only if its leaf has not been accepted before. */
  lemma ReleasedAccepted(i: Instance, hash: Hash, s: System, r: Records.Record, create: Account.Instruction,
                         instructions: seq<Account.Instruction>, k: nat, x: Release)
    requires Reachable(For(i, hash), s) && AccountFor(i, hash, s, r, create) && x in s.released
    requires k < |instructions| && Account.Delivers(instructions[k], x.message, x.signature)
    ensures Outcomes(hash, Created(hash, create), instructions)[k].Ok? <==> x.leaf !in Spent(hash, create, instructions, k)
  {
    ReleasedGenuine(i, hash, s, r, create, x);
    GenuineAccepted(i, hash, r.Key(i, hash).VerifyingKey(), create, instructions, k, x);
  }

  /** The message and signature an instruction carries. */
  function MessageIn(instruction: Account.Instruction): Message
    requires |instruction.data| > MESSAGE_LENGTH
  {
    instruction.data[1..][..MESSAGE_LENGTH]
  }

  function SignatureIn(instruction: Account.Instruction): Bytes
    requires |instruction.data| > MESSAGE_LENGTH
  {
    instruction.data[1..][MESSAGE_LENGTH..]
  }

  /** Only a well-formed delivery is accepted as one. */
  lemma AcceptedDelivers(hash: Hash, bytes: Bytes, instruction: Account.Instruction)
    requires |bytes| == Account.ACCOUNT_LENGTH && Account.Accepts(hash, bytes, instruction).Some?
    ensures |instruction.data| > MESSAGE_LENGTH
    ensures Account.Delivers(instruction, MessageIn(instruction), SignatureIn(instruction))
  {
    assert instruction.data == [2] + instruction.data[1..];
  }

  /** What may be said of an accepted signature: it is the key's own for its leaf, message and salt, or
      verifying it computes a second preimage; and if the signer has signed at that leaf, it is the
      signer's message and signature, or forged from them. */
  ghost predicate Accounted(i: Instance, key: Keys.Key, s: System, message: Message, sig: Bytes)
    requires i.Owns(key) && |sig| == i.SignatureLength()
  {
    && (i.Sign(key, i.LeafOf(sig), message, i.SaltOf(sig)) == Some(sig) || key.BrokenBy(message, i.PartsOf(sig)))
    && forall x :: x in s.released && x.leaf == i.LeafOf(sig) ==>
         (message == x.message && sig == x.signature) || Forged(i, key, x.message, x.salt, message, sig)
  }

  /** At a leaf where the signer signs. */
  lemma SignedLeafAccounted(i: Instance, hash: Hash, s: System, r: Records.Record, create: Account.Instruction, x: Release,
                            message: Message, sig: Bytes)
    requires Reachable(For(i, hash), s) && AccountFor(i, hash, s, r, create) && x in s.released
    requires |sig| == i.SignatureLength() && x.leaf == i.LeafOf(sig)
    requires i.Verify(hash, r.Key(i, hash).VerifyingKey(), message, sig)
    ensures i.Owns(r.Key(i, hash))
    ensures (message == x.message && sig == x.signature) || Forged(i, r.Key(i, hash), x.message, x.salt, message, sig)
  {
    ReleasedGenuine(i, hash, s, r, create, x);
    SignedLeafExact(i, r.Key(i, hash), x.message, x.salt, message, sig);
  }

  lemma VerifiedAccounted(i: Instance, hash: Hash, s: System, r: Records.Record, create: Account.Instruction,
                          message: Message, sig: Bytes)
    requires Reachable(For(i, hash), s) && AccountFor(i, hash, s, r, create)
    requires i.Owns(r.Key(i, hash)) && |sig| == i.SignatureLength()
    requires i.Verify(hash, r.Key(i, hash).VerifyingKey(), message, sig)
    ensures Accounted(i, r.Key(i, hash), s, message, sig)
  {
    VerifiedIsSigned(i, r.Key(i, hash), message, sig);
    forall x | x in s.released && x.leaf == i.LeafOf(sig)
      ensures (message == x.message && sig == x.signature) || Forged(i, r.Key(i, hash), x.message, x.salt, message, sig)
    {
      SignedLeafAccounted(i, hash, s, r, create, x, message, sig);
    }
  }

  /** An accepted delivery verifies at a leaf that was not accepted before. */
  lemma AcceptedVerifies(i: Instance, hash: Hash, pk: PublicKey, create: Account.Instruction,
                         instructions: seq<Account.Instruction>, k: nat)
    requires create.named && create.owned && create.writable && create.signer && create.data == [CreateTag(i)] + pk
    requires k < |instructions| && Account.Accepts(hash, Before(hash, create, instructions, k), instructions[k]).Some?
    ensures |instructions[k].data| > MESSAGE_LENGTH && |SignatureIn(instructions[k])| == i.SignatureLength()
    ensures i.LeafOf(SignatureIn(instructions[k])) !in Spent(hash, create, instructions, k)
    ensures i.Verify(hash, pk, MessageIn(instructions[k]), SignatureIn(instructions[k]))
  {
    var bytes := Before(hash, create, instructions, k);
    AccountKept(i, hash, pk, create, instructions, k);
    AcceptedDelivers(hash, bytes, instructions[k]);
    Account.DeliveryExact(hash, bytes, instructions[k], i, MessageIn(instructions[k]), SignatureIn(instructions[k]));
  }

  /** End to end. Take any reachable state of the signer, create an account for its key, and let anyone
      send it any instructions. Whatever it accepts as a signature is at a leaf it has not accepted before
      and is accounted for: at a leaf where the signer signs, in this run or later, only the signer's own
      message and bytes are accepted, or a forgery that carries its collision or preimage with it. */
  lemma AcceptedAccounted(i: Instance, hash: Hash, s: System, r: Records.Record, create: Account.Instruction,
                          instructions: seq<Account.Instruction>, k: nat)
    requires Reachable(For(i, hash), s) && AccountFor(i, hash, s, r, create)
    requires k < |instructions| && Account.Accepts(hash, Before(hash, create, instructions, k), instructions[k]).Some?
    ensures |instructions[k].data| > MESSAGE_LENGTH && |SignatureIn(instructions[k])| == i.SignatureLength()
    ensures i.Owns(r.Key(i, hash))
    ensures i.LeafOf(SignatureIn(instructions[k])) !in Spent(hash, create, instructions, k)
    ensures Accounted(i, r.Key(i, hash), s, MessageIn(instructions[k]), SignatureIn(instructions[k]))
  {
    AcceptedVerifies(i, hash, r.Key(i, hash).VerifyingKey(), create, instructions, k);
    VerifiedAccounted(i, hash, s, r, create, MessageIn(instructions[k]), SignatureIn(instructions[k]));
  }
}
