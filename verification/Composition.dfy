/** The host signer and the account program together. */
module Composition {
  import opened Bytes
  import opened TweakHash
  import opened Instances
  import opened Machine
  import opened MachineTheorems
  import Account
  import Records
  import Keys

  /** What each instruction of a run returned. */
  function Outcomes(hash: Hash, bytes: Bytes, instructions: seq<Account.Instruction>): (r: seq<Account.Outcome>)
    ensures |r| == |instructions|
    decreases |instructions|
  {
    if |instructions| == 0 then []
    else
      var (after, outcome) := Account.Process(hash, bytes, instructions[0]);
      [outcome] + Outcomes(hash, after, instructions[1..])
  }

  lemma OutcomesUnfold(hash: Hash, bytes: Bytes, instructions: seq<Account.Instruction>, k: nat)
    requires k < |instructions|
    ensures var (after, outcome) := Account.Process(hash, bytes, instructions[0]);
            Outcomes(hash, bytes, instructions)[k] == if k == 0 then outcome else Outcomes(hash, after, instructions[1..])[k - 1]
  {
  }

  /** The instructions deliver these signatures, one each, in this order. */
  ghost predicate Deliver(instructions: seq<Account.Instruction>, deliveries: seq<Release>) {
    && |instructions| == |deliveries|
    && forall k :: 0 <= k < |deliveries| ==>
         Account.Delivers(instructions[k], deliveries[k].message, deliveries[k].signature)
  }

  ghost function LeavesOf(deliveries: seq<Release>): set<nat> {
    set k | 0 <= k < |deliveries| :: deliveries[k].leaf as nat
  }

  ghost predicate LeafIn(x: Release, deliveries: seq<Release>) {
    exists k :: 0 <= k < |deliveries| && deliveries[k].leaf == x.leaf
  }

  /** A signature of the key, for its leaf. */
  ghost predicate Genuine(i: Instance, hash: Hash, pk: PublicKey, x: Release) {
    |x.signature| == i.SignatureLength() && i.LeafOf(x.signature) == x.leaf && i.Verify(hash, pk, x.message, x.signature)
  }

  /** The account holds this key. */
  ghost predicate Holds(bytes: Bytes, i: Instance, pk: PublicKey) {
    |bytes| == Account.ACCOUNT_LENGTH && Account.InstanceOf(bytes[0]) == Some(i) && Account.KeyOf(bytes) == pk
  }

  lemma DeliverOne(i: Instance, hash: Hash, pk: PublicKey, bytes: Bytes, instruction: Account.Instruction, x: Release)
    requires Holds(bytes, i, pk) && Genuine(i, hash, pk, x)
    requires Account.Delivers(instruction, x.message, x.signature)
    ensures var (after, outcome) := Account.Process(hash, bytes, instruction);
            && Holds(after, i, pk)
            && (outcome.Ok? <==> x.leaf !in Account.UsedLeaves(bytes))
            && Account.UsedLeaves(after) == Account.UsedLeaves(bytes) + {x.leaf as nat}
  {
    Account.DeliveryExact(hash, bytes, instruction, i, x.message, x.signature);
    var after := Account.Process(hash, bytes, instruction).0;
    assert after[..Account.KEY_END] == bytes[..Account.KEY_END];
    assert after[0] == after[..Account.KEY_END][0] && bytes[0] == bytes[..Account.KEY_END][0];
    assert Account.KeyOf(after) == after[..Account.KEY_END][1..] && Account.KeyOf(bytes) == bytes[..Account.KEY_END][1..];
  }

  lemma {:induction false} DeliveriesMark(i: Instance, hash: Hash, pk: PublicKey, bytes: Bytes,
                                          instructions: seq<Account.Instruction>, deliveries: seq<Release>)
    requires Holds(bytes, i, pk) && Deliver(instructions, deliveries)
    requires forall k :: 0 <= k < |deliveries| ==> Genuine(i, hash, pk, deliveries[k])
    ensures Account.UsedLeaves(Account.Run(hash, bytes, instructions)) == Account.UsedLeaves(bytes) + LeavesOf(deliveries)
    decreases |deliveries|
  {
    if |deliveries| > 0 {
      DeliverOne(i, hash, pk, bytes, instructions[0], deliveries[0]);
      RestDelivers(i, hash, pk, instructions, deliveries);
      DeliveriesMark(i, hash, pk, Account.Process(hash, bytes, instructions[0]).0, instructions[1..], deliveries[1..]);
      LeavesOfSplits(deliveries);
    }
  }

  lemma RestDelivers(i: Instance, hash: Hash, pk: PublicKey, instructions: seq<Account.Instruction>, deliveries: seq<Release>)
    requires Deliver(instructions, deliveries) && |deliveries| > 0
    requires forall k :: 0 <= k < |deliveries| ==> Genuine(i, hash, pk, deliveries[k])
    ensures Deliver(instructions[1..], deliveries[1..])
    ensures forall k :: 0 <= k < |deliveries[1..]| ==> Genuine(i, hash, pk, deliveries[1..][k])
  {
  }

  /** The leaf of delivery `k` is neither used nor delivered before. */
  ghost predicate First(used: set<nat>, deliveries: seq<Release>, k: nat)
    requires k < |deliveries|
  {
    deliveries[k].leaf as nat !in used && !LeafIn(deliveries[k], deliveries[..k])
  }

  /** It makes no difference to look at it after the first delivery. */
  lemma FirstAfter(used: set<nat>, deliveries: seq<Release>, k: nat)
    requires 0 < k < |deliveries|
    ensures First(used, deliveries, k) <==> First(used + {deliveries[0].leaf as nat}, deliveries[1..], k - 1)
  {
    LeafInSplits(deliveries, k);
  }

  lemma {:induction false} DeliveryAccepted(i: Instance, hash: Hash, pk: PublicKey, bytes: Bytes,
                                            instructions: seq<Account.Instruction>, deliveries: seq<Release>, k: nat)
    requires Holds(bytes, i, pk) && Deliver(instructions, deliveries) && k < |deliveries|
    requires forall j :: 0 <= j < |deliveries| ==> Genuine(i, hash, pk, deliveries[j])
    ensures Outcomes(hash, bytes, instructions)[k].Ok? <==> First(Account.UsedLeaves(bytes), deliveries, k)
    decreases k
  {
    DeliverOne(i, hash, pk, bytes, instructions[0], deliveries[0]);
    OutcomesUnfold(hash, bytes, instructions, k);
    if k > 0 {
      var after := Account.Process(hash, bytes, instructions[0]).0;
      RestDelivers(i, hash, pk, instructions, deliveries);
      DeliveryAccepted(i, hash, pk, after, instructions[1..], deliveries[1..], k - 1);
      FirstAfter(Account.UsedLeaves(bytes), deliveries, k);
    }
  }

  lemma LeavesOfSplits(deliveries: seq<Release>)
    requires |deliveries| > 0
    ensures LeavesOf(deliveries) == {deliveries[0].leaf as nat} + LeavesOf(deliveries[1..])
  {
    var rest := deliveries[1..];
    forall k: nat | k < |rest|
      ensures rest[k].leaf as nat in LeavesOf(deliveries)
    {
      assert rest[k] == deliveries[k + 1];
    }
    forall k: nat | 0 < k < |deliveries|
      ensures deliveries[k].leaf as nat in LeavesOf(rest)
    {
      assert rest[k - 1] == deliveries[k];
    }
  }

  lemma LeafInSplits(deliveries: seq<Release>, k: nat)
    requires 0 < k < |deliveries|
    ensures LeafIn(deliveries[k], deliveries[..k])
            <==> deliveries[k].leaf == deliveries[0].leaf || LeafIn(deliveries[1..][k - 1], deliveries[1..][..k - 1])
  {
    var y, before, rest := deliveries[k], deliveries[..k], deliveries[1..][..k - 1];
    if LeafIn(y, rest) {
      var j :| 0 <= j < |rest| && rest[j].leaf == y.leaf;
      assert before[j + 1] == rest[j];
    }
    if LeafIn(y, before) {
      var j :| 0 <= j < |before| && before[j].leaf == y.leaf;
      assert j > 0 ==> rest[j - 1] == before[j];
    }
    assert before[0] == deliveries[0];
  }

  /** The tag of an instance's create instruction. */
  function CreateTag(i: Instance): byte {
    if i.OneTime? then 0 else 1
  }

  lemma CreateHolds(i: Instance, hash: Hash, pk: PublicKey, create: Account.Instruction)
    requires create.named && create.owned && create.writable && create.signer && create.data == [CreateTag(i)] + pk
    ensures var (bytes, outcome) := Account.Process(hash, Zeros(Account.ACCOUNT_LENGTH), create);
            outcome.Ok? && Holds(bytes, i, pk) && Account.UsedLeaves(bytes) == {}
  {
    assert create.data[1..] == pk;
    var bytes := Account.Process(hash, Zeros(Account.ACCOUNT_LENGTH), create).0;
    assert bytes == [CreateTag(i) + 1] + pk + Zeros(32);
    Account.BlankUnused(bytes);
  }

  lemma DeliverToBlank(i: Instance, hash: Hash, pk: PublicKey, bytes: Bytes,
                       instructions: seq<Account.Instruction>, deliveries: seq<Release>)
    requires Holds(bytes, i, pk) && Account.UsedLeaves(bytes) == {} && Deliver(instructions, deliveries)
    requires forall k :: 0 <= k < |deliveries| ==> Genuine(i, hash, pk, deliveries[k])
    ensures forall k :: 0 <= k < |deliveries| ==>
              (Outcomes(hash, bytes, instructions)[k].Ok? <==> !LeafIn(deliveries[k], deliveries[..k]))
    ensures Account.UsedLeaves(Account.Run(hash, bytes, instructions)) == LeavesOf(deliveries)
  {
    DeliveriesMark(i, hash, pk, bytes, instructions, deliveries);
    forall k | 0 <= k < |deliveries|
      ensures Outcomes(hash, bytes, instructions)[k].Ok? <==> !LeafIn(deliveries[k], deliveries[..k])
    {
      DeliveryAccepted(i, hash, pk, bytes, instructions, deliveries, k);
    }
  }

  /** `r` is the record on file after a signer's run, and the account is created for its key. */
  ghost predicate AccountFor(i: Instance, hash: Hash, s: System, r: Records.Record, create: Account.Instruction) {
    && |s.log| > 0 && For(i, hash).RecordOf(s.Current()) == Some(r) && |r.secrets| == i.SecretsLength()
    && create.named && create.owned && create.writable && create.signer
    && create.data == [CreateTag(i)] + r.Key(i, hash).VerifyingKey()
  }

  /** Besides, only signatures released in that run are delivered. */
  ghost predicate Delivered(i: Instance, hash: Hash, s: System, r: Records.Record, create: Account.Instruction,
                            deliveries: seq<Release>)
  {
    AccountFor(i, hash, s, r, create) && forall x :: x in deliveries ==> x in s.released
  }

  lemma ReleasedGenuine(i: Instance, hash: Hash, s: System, r: Records.Record, create: Account.Instruction, x: Release)
    requires Reachable(For(i, hash), s) && AccountFor(i, hash, s, r, create) && x in s.released
    ensures Genuine(i, hash, r.Key(i, hash).VerifyingKey(), x) && i.Owns(r.Key(i, hash))
    ensures i.Sign(r.Key(i, hash), x.leaf, x.message, x.salt) == Some(x.signature)
  {
    ReleasedVerifies(i, hash, s, x);
  }

  /** Signer and program compose. Take any reachable state of the signer, after any number of
      reopenings, and create an account for its key. Deliver released signatures in any order, as often
      as one likes: each is accepted exactly the first time its leaf arrives, and in the end the bitmap
      is exactly the delivered leaves. */
  lemma SignerAndProgram(i: Instance, hash: Hash, s: System, r: Records.Record, create: Account.Instruction,
                         instructions: seq<Account.Instruction>, deliveries: seq<Release>)
    requires Reachable(For(i, hash), s) && Delivered(i, hash, s, r, create, deliveries)
    requires Deliver(instructions, deliveries)
    ensures var bytes := Account.Process(hash, Zeros(Account.ACCOUNT_LENGTH), create).0;
            && |bytes| == Account.ACCOUNT_LENGTH
            && (forall k :: 0 <= k < |deliveries| ==>
                  (Outcomes(hash, bytes, instructions)[k].Ok? <==> !LeafIn(deliveries[k], deliveries[..k])))
            && Account.UsedLeaves(Account.Run(hash, bytes, instructions)) == LeavesOf(deliveries)
  {
    var pk := r.Key(i, hash).VerifyingKey();
    CreateHolds(i, hash, pk, create);
    forall k | 0 <= k < |deliveries|
      ensures Genuine(i, hash, pk, deliveries[k])
    {
      ReleasedGenuine(i, hash, s, r, create, deliveries[k]);
    }
    DeliverToBlank(i, hash, pk, Account.Process(hash, Zeros(Account.ACCOUNT_LENGTH), create).0, instructions, deliveries);
  }

  /** In particular, distinct released signatures are all accepted: they are for distinct leaves. */
  lemma DistinctReleasesAccepted(i: Instance, hash: Hash, s: System, r: Records.Record, create: Account.Instruction,
                                 instructions: seq<Account.Instruction>, deliveries: seq<Release>)
    requires Reachable(For(i, hash), s) && Delivered(i, hash, s, r, create, deliveries)
    requires Deliver(instructions, deliveries)
    requires forall j, k :: 0 <= j < k < |deliveries| ==> deliveries[j] != deliveries[k]
    ensures var bytes := Account.Process(hash, Zeros(Account.ACCOUNT_LENGTH), create).0;
            forall k :: 0 <= k < |deliveries| ==> Outcomes(hash, bytes, instructions)[k].Ok?
  {
    SignerAndProgram(i, hash, s, r, create, instructions, deliveries);
    ForLawful(i, hash);
    DistinctLeaves(For(i, hash), s, deliveries);
  }

  lemma DistinctLeaves(m: Machine, s: System, deliveries: seq<Release>)
    requires m.Lawful() && Reachable(m, s) && forall x :: x in deliveries ==> x in s.released
    requires forall j, k :: 0 <= j < k < |deliveries| ==> deliveries[j] != deliveries[k]
    ensures forall k :: 0 <= k < |deliveries| ==> !LeafIn(deliveries[k], deliveries[..k])
  {
    ReachableInv(m, s);
    forall j, k | 0 <= j < k < |deliveries|
      ensures deliveries[j].leaf != deliveries[k].leaf
    {
      assert deliveries[j] in s.released && deliveries[k] in s.released;
    }
  }

  /** What acceptance on chain means: if the account holds an honest key, any accepted signature, from
      anyone, is the honest signature of that key for its leaf, message and salt, at a leaf not used
      before, unless verifying it computes a second preimage of one of the key's hash calls. */
  lemma AcceptedIsHonest(i: Instance, key: Keys.Key, bytes: Bytes, instruction: Account.Instruction, message: Message, sig: Bytes)
    requires i.Owns(key) && Holds(bytes, i, key.VerifyingKey())
    requires Account.Delivers(instruction, message, sig) && Account.Process(key.t.hash, bytes, instruction).1.Ok?
    ensures |sig| == i.SignatureLength() && i.LeafOf(sig) !in Account.UsedLeaves(bytes)
    ensures i.Sign(key, i.LeafOf(sig), message, i.SaltOf(sig)) == Some(sig) || key.BrokenBy(message, i.PartsOf(sig))
  {
    Account.DeliveryExact(key.t.hash, bytes, instruction, i, message, sig);
    VerifiedIsSigned(i, key, message, sig);
  }
}
