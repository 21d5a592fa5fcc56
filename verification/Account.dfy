/** The example program: a 74-byte account with an instance tag, a key and a used-leaf bitmap. */
module Account {
  import opened Bytes
  import opened TweakHash
  import opened Instances

  const KEY_END: nat := 42
  const ACCOUNT_LENGTH: nat := 74

  datatype ProgramError =
    | NotEnoughAccountKeys | IncorrectProgramId | InvalidAccountData | InvalidInstructionData
    | MissingRequiredSignature | AccountAlreadyInitialized | UninitializedAccount
    | BadSignature    // Custom(1)
    | LeafUsed        // Custom(2)

  // ----- bits of a byte -----

  /** `b & (1 << k) != 0`. */
  predicate HasBit(b: nat, k: nat) {
    if k == 0 then b % 2 == 1 else HasBit(b / 2, k - 1)
  }

  /** `b | (1 << k)`. */
  function SetBit(b: nat, k: nat): nat {
    if k == 0 then (if b % 2 == 1 then b else b + 1) else 2 * SetBit(b / 2, k - 1) + b % 2
  }

  lemma {:induction false} SetBitSets(b: nat, k: nat, j: nat)
    ensures HasBit(SetBit(b, k), j) <==> j == k || HasBit(b, j)
  {
    if k > 0 && j > 0 {
      SetBitSets(b / 2, k - 1, j - 1);
    }
  }

  lemma {:induction false} SetBitBound(b: nat, k: nat, n: nat)
    requires b < Pow2(n) && k < n
    ensures SetBit(b, k) < Pow2(n)
  {
    assert Pow2(n) == 2 * Pow2(n - 1);
    if k > 0 {
      assert b / 2 < Pow2(n - 1);
      SetBitBound(b / 2, k - 1, n - 1);
    }
  }

  function Marked(b: byte, k: nat): byte
    requires k < 8
  {
    Pow2Eight();
    SetBitBound(b, k, 8);
    SetBit(b, k)
  }

  // ----- the bitmap -----

  predicate Used(bytes: Bytes, leaf: nat)
    requires |bytes| == ACCOUNT_LENGTH && leaf < 256
  {
    HasBit(bytes[KEY_END + leaf / 8], leaf % 8)
  }

  function Mark(bytes: Bytes, leaf: nat): (r: Bytes)
    requires |bytes| == ACCOUNT_LENGTH && leaf < 256
    ensures |r| == ACCOUNT_LENGTH
  {
    bytes[KEY_END + leaf / 8 := Marked(bytes[KEY_END + leaf / 8], leaf % 8)]
  }

  ghost function UsedLeaves(bytes: Bytes): set<nat>
    requires |bytes| == ACCOUNT_LENGTH
  {
    set leaf: nat | 0 <= leaf < 256 && Used(bytes, leaf)
  }

  /** Marking a leaf marks that leaf, no other, and leaves tag and key alone. */
  lemma MarkMarks(bytes: Bytes, leaf: nat)
    requires |bytes| == ACCOUNT_LENGTH && leaf < 256
    ensures UsedLeaves(Mark(bytes, leaf)) == UsedLeaves(bytes) + {leaf}
    ensures Mark(bytes, leaf)[..KEY_END] == bytes[..KEY_END]
  {
    forall l: nat | l < 256
      ensures Used(Mark(bytes, leaf), l) <==> Used(bytes, l) || l == leaf
    {
      if l / 8 == leaf / 8 {
        SetBitSets(bytes[KEY_END + leaf / 8], leaf % 8, l % 8);
        assert l == leaf <==> l % 8 == leaf % 8;
      }
    }
  }

  lemma {:induction false} ZeroHasNoBits(k: nat)
    ensures !HasBit(0, k)
  {
    if k > 0 {
      ZeroHasNoBits(k - 1);
    }
  }

  lemma BlankUnused(bytes: Bytes)
    requires |bytes| == ACCOUNT_LENGTH && bytes[KEY_END..] == Zeros(32)
    ensures UsedLeaves(bytes) == {}
  {
    forall leaf: nat | leaf < 256
      ensures !Used(bytes, leaf)
    {
      assert bytes[KEY_END + leaf / 8] == bytes[KEY_END..][leaf / 8];
      ZeroHasNoBits(leaf % 8);
    }
  }

  // ----- instructions -----

  /** The account an instruction names first, and the instruction data. */
  datatype Instruction = Instruction(named: bool, owned: bool, writable: bool, signer: bool, data: Bytes)

  type Outcome = Result<(), ProgramError>

  /** The instance a tag byte selects. */
  function InstanceOf(tag: byte): Option<Instance> {
    if tag == 1 then Some(OneTime) else if tag == 2 then Some(Tree) else None
  }

  function KeyOf(bytes: Bytes): PublicKey
    requires |bytes| == ACCOUNT_LENGTH
  {
    bytes[1..KEY_END]
  }

  function Create(bytes: Bytes, signer: bool, tag: byte, key: Bytes): (Bytes, Outcome)
    requires |bytes| == ACCOUNT_LENGTH && tag <= 1
  {
    if !signer then (bytes, Err(MissingRequiredSignature))
    else if |key| != KEY_END - 1 then (bytes, Err(InvalidInstructionData))
    else if bytes[0] != 0 then (bytes, Err(AccountAlreadyInitialized))
    else ([tag + 1] + key + Zeros(32), Ok(()))
  }

  /** The leaf bound holds for whatever verifies, so the bitmap index is in range. */
  lemma VerifiedLeafInRange(hash: Hash, i: Instance, pk: PublicKey, message: Message, sig: Bytes)
    requires |sig| == i.SignatureLength() && i.Verify(hash, pk, message, sig)
    ensures i.LeafOf(sig) < i.Leaves()
  {
  }

  function Verify(hash: Hash, bytes: Bytes, data: Bytes): (Bytes, Outcome)
    requires |bytes| == ACCOUNT_LENGTH
  {
    if |data| < MESSAGE_LENGTH then (bytes, Err(InvalidInstructionData))
    else if bytes[0] == 0 then (bytes, Err(UninitializedAccount))
    else
      match InstanceOf(bytes[0])
      case None => (bytes, Err(InvalidAccountData))
      case Some(i) =>
        var sig := data[MESSAGE_LENGTH..];
        if |sig| != i.SignatureLength() then (bytes, Err(InvalidInstructionData))
        else if !i.Verify(hash, KeyOf(bytes), data[..MESSAGE_LENGTH], sig) then (bytes, Err(BadSignature))
        else
          VerifiedLeafInRange(hash, i, KeyOf(bytes), data[..MESSAGE_LENGTH], sig);
          var leaf := i.LeafOf(sig);
          if Used(bytes, leaf) then (bytes, Err(LeafUsed)) else (Mark(bytes, leaf), Ok(()))
  }

  function Process(hash: Hash, bytes: Bytes, instruction: Instruction): (r: (Bytes, Outcome))
    ensures |r.0| == |bytes|
  {
    var data := instruction.data;
    if !instruction.named then (bytes, Err(NotEnoughAccountKeys))
    else if !instruction.owned then (bytes, Err(IncorrectProgramId))
    else if !instruction.writable || |bytes| != ACCOUNT_LENGTH then (bytes, Err(InvalidAccountData))
    else if |data| == 0 then (bytes, Err(InvalidInstructionData))
    else if data[0] <= 1 then Create(bytes, instruction.signer, data[0], data[1..])
    else if data[0] == 2 then Verify(hash, bytes, data[1..])
    else (bytes, Err(InvalidInstructionData))
  }

  /** A rejected instruction leaves all bytes alone. */
  lemma RejectedUnchanged(hash: Hash, bytes: Bytes, instruction: Instruction)
    requires Process(hash, bytes, instruction).1.Err?
    ensures Process(hash, bytes, instruction).0 == bytes
  {
  }

  /** A well-formed verify instruction for a signature. */
  predicate Delivers(instruction: Instruction, message: Message, sig: Bytes) {
    instruction.named && instruction.owned && instruction.writable && instruction.data == [2] + message + sig
  }

  /** A delivery is a call of `verify` on the message and signature it carries. */
  lemma DeliveryVerifies(hash: Hash, bytes: Bytes, instruction: Instruction, message: Message, sig: Bytes)
    requires |bytes| == ACCOUNT_LENGTH && Delivers(instruction, message, sig)
    ensures Process(hash, bytes, instruction) == Verify(hash, bytes, message + sig)
  {
    assert instruction.data[0] == 2 && instruction.data[1..] == message + sig;
  }

  lemma VerifyExact(hash: Hash, bytes: Bytes, i: Instance, message: Message, sig: Bytes)
    requires |bytes| == ACCOUNT_LENGTH && InstanceOf(bytes[0]) == Some(i)
    ensures var (after, outcome) := Verify(hash, bytes, message + sig);
            && (outcome.Ok? <==> |sig| == i.SignatureLength() && i.Verify(hash, KeyOf(bytes), message, sig)
                                 && !Used(bytes, i.LeafOf(sig)))
            && after == if outcome.Ok? then Mark(bytes, i.LeafOf(sig)) else bytes
  {
    var data := message + sig;
    assert data[..MESSAGE_LENGTH] == message && data[MESSAGE_LENGTH..] == sig;
  }

  /** A delivered signature is accepted exactly when the account holds a key under which it verifies
      and its leaf is unused; then that leaf, and nothing else, becomes used. */
  lemma DeliveryExact(hash: Hash, bytes: Bytes, instruction: Instruction, i: Instance, message: Message, sig: Bytes)
    requires |bytes| == ACCOUNT_LENGTH && Delivers(instruction, message, sig) && InstanceOf(bytes[0]) == Some(i)
    ensures var (after, outcome) := Process(hash, bytes, instruction);
            && (outcome.Ok? <==> |sig| == i.SignatureLength() && i.Verify(hash, KeyOf(bytes), message, sig)
                                 && i.LeafOf(sig) !in UsedLeaves(bytes))
            && (outcome.Ok? ==> UsedLeaves(after) == UsedLeaves(bytes) + {i.LeafOf(sig)} && after[..KEY_END] == bytes[..KEY_END])
            && (outcome.Err? ==> after == bytes)
  {
    DeliveryVerifies(hash, bytes, instruction, message, sig);
    VerifyExact(hash, bytes, i, message, sig);
    if |sig| == i.SignatureLength() && i.Verify(hash, KeyOf(bytes), message, sig) {
      VerifiedLeafInRange(hash, i, KeyOf(bytes), message, sig);
      MarkMarks(bytes, i.LeafOf(sig));
    }
  }

  // ----- the same, from the bytes -----

  /** Bit `k` of a number. */
  lemma {:induction false} HasBitDivides(b: nat, k: nat)
    ensures HasBit(b, k) <==> b / Pow2(k) % 2 == 1
    decreases k
  {
    if k > 0 {
      HasBitDivides(b / 2, k - 1);
      DivideTwice(b, Pow2(k - 1));
    }
  }

  lemma DivideTwice(b: nat, p: nat)
    requires p > 0
    ensures b / 2 / p == b / (2 * p)
  {
    var q, r := b / 2 / p, b / 2 % p;
    assert b / 2 == p * q + r;
    Regroup(p, q);
    QuotientUnique(b, 2 * p, q, 2 * r + b % 2);
  }

  lemma Regroup(p: nat, q: nat)
    ensures 2 * (p * q) == (2 * p) * q
  {
  }

  /** A leaf is used when bit `leaf % 8`, counted from the lowest, of byte `42 + leaf / 8` is set. */
  lemma UsedExactly(bytes: Bytes, leaf: nat)
    requires |bytes| == 74 && leaf < 256
    ensures Used(bytes, leaf) <==> bytes[42 + leaf / 8] / Pow2(leaf % 8) % 2 == 1
  {
    HasBitDivides(bytes[42 + leaf / 8], leaf % 8);
  }

  /** What every instruction needs: the account named, owned by the program, writable and 74 bytes long. */
  ghost predicate Usable(bytes: Bytes, instruction: Instruction) {
    instruction.named && instruction.owned && instruction.writable && |bytes| == 74
  }

  /** A registration: tag 0 or 1 and 41 bytes of key, signed by a blank account. */
  ghost predicate Registers(bytes: Bytes, instruction: Instruction) {
    && Usable(bytes, instruction) && instruction.signer && bytes[0] == 0
    && |instruction.data| == 42 && instruction.data[0] <= 1
  }

  /** Exactly the registrations are accepted as such, and leave the tag plus one, the key and a blank bitmap. */
  lemma RegistersExactly(hash: Hash, bytes: Bytes, instruction: Instruction)
    ensures var (after, outcome) := Process(hash, bytes, instruction);
            && (outcome.Ok? && instruction.data[0] != 2 <==> Registers(bytes, instruction))
            && (Registers(bytes, instruction) ==>
                  && |after| == 74 && after[0] == instruction.data[0] + 1 && after[1..42] == instruction.data[1..]
                  && forall k :: 42 <= k < 74 ==> after[k] == 0)
  {
  }

  /** Nobody but the account's own signature gives it a tag, over any instruction. */
  lemma TagNeedsSignature(hash: Hash, bytes: Bytes, instruction: Instruction)
    requires |bytes| == 74 && Process(hash, bytes, instruction).0[0] != bytes[0]
    ensures Registers(bytes, instruction)
  {
    if Process(hash, bytes, instruction).1.Ok? && instruction.data[0] == 2 {
      VerifyKeepsTag(hash, bytes, instruction.data[1..]);
    }
  }

  lemma VerifyKeepsTag(hash: Hash, bytes: Bytes, data: Bytes)
    requires |bytes| == 74
    ensures Verify(hash, bytes, data).0[0] == bytes[0]
  {
  }

  /** A delivery as bytes: tag 2, message, signature. */
  ghost predicate IsDelivery(bytes: Bytes, instruction: Instruction) {
    Usable(bytes, instruction) && |instruction.data| >= 33 && instruction.data[0] == 2
  }

  /** A delivery to an account that holds a key, with a signature of that key's length. */
  ghost predicate Addressed(bytes: Bytes, instruction: Instruction) {
    && IsDelivery(bytes, instruction)
    && (bytes[0] == 1 || bytes[0] == 2) && |instruction.data| == if bytes[0] == 1 then 33 + 849 else 33 + 1037
  }

  function InstanceByTag(tag: byte): Instance {
    if tag == 1 then OneTime else Tree
  }

  ghost predicate Verifies(hash: Hash, bytes: Bytes, instruction: Instruction)
    requires Addressed(bytes, instruction)
  {
    InstanceByTag(bytes[0]).Verify(hash, bytes[1..42], instruction.data[1..33], instruction.data[33..])
  }

  /** The outcome of every addressed delivery: a signature that does not verify is bad, one that does is
      refused for a used leaf and accepted otherwise, and then its leaf's bit is set. */
  lemma AddressedExactly(hash: Hash, bytes: Bytes, instruction: Instruction)
    requires Addressed(bytes, instruction)
    ensures var (after, outcome) := Process(hash, bytes, instruction);
            var leaf := InstanceByTag(bytes[0]).LeafOf(instruction.data[33..]);
            && (outcome == Err(BadSignature) <==> !Verifies(hash, bytes, instruction))
            && (outcome == Err(LeafUsed) <==> Verifies(hash, bytes, instruction) && leaf in UsedLeaves(bytes))
            && (outcome == Ok(()) <==> Verifies(hash, bytes, instruction) && leaf !in UsedLeaves(bytes))
  {
    var data := instruction.data[1..];
    assert data[..32] == instruction.data[1..33] && data[32..] == instruction.data[33..];
    if Verifies(hash, bytes, instruction) {
      VerifiedLeafInRange(hash, InstanceByTag(bytes[0]), bytes[1..42], instruction.data[1..33], instruction.data[33..]);
    }
  }

  /** The outcome of everything else that is not accepted, in the order in which it is checked. */
  lemma RefusedExactly(hash: Hash, bytes: Bytes, instruction: Instruction)
    requires !Registers(bytes, instruction) && !Addressed(bytes, instruction)
    ensures var error := Process(hash, bytes, instruction).1;
            if !instruction.named then error == Err(NotEnoughAccountKeys)
            else if !instruction.owned then error == Err(IncorrectProgramId)
            else if !instruction.writable || |bytes| != 74 then error == Err(InvalidAccountData)
            else if |instruction.data| == 0 || instruction.data[0] > 2 then error == Err(InvalidInstructionData)
            else if instruction.data[0] < 2 && !instruction.signer then error == Err(MissingRequiredSignature)
            else if instruction.data[0] < 2 && |instruction.data| == 42 then error == Err(AccountAlreadyInitialized)
            else if instruction.data[0] == 2 && |instruction.data| >= 33 && bytes[0] == 0 then error == Err(UninitializedAccount)
            else if instruction.data[0] == 2 && |instruction.data| >= 33 && bytes[0] > 2 then error == Err(InvalidAccountData)
            else error == Err(InvalidInstructionData)
  {
  }

  // ----- whole runs -----

  function Run(hash: Hash, bytes: Bytes, instructions: seq<Instruction>): (r: Bytes)
    ensures |r| == |bytes|
    decreases |instructions|
  {
    if |instructions| == 0 then bytes
    else Run(hash, Process(hash, bytes, instructions[0]).0, instructions[1..])
  }

  /** The leaf an accepted verify instruction uses up, if this is one. */
  function Accepts(hash: Hash, bytes: Bytes, instruction: Instruction): Option<nat>
    requires |bytes| == ACCOUNT_LENGTH
  {
    if Process(hash, bytes, instruction).1.Ok? && instruction.data[0] == 2
    then Some(InstanceOf(bytes[0]).value.LeafOf(instruction.data[1..][MESSAGE_LENGTH..]))
    else None
  }

  /** The leaves of all accepted verify instructions, in order. */
  function AcceptedLeaves(hash: Hash, bytes: Bytes, instructions: seq<Instruction>): seq<nat>
    requires |bytes| == ACCOUNT_LENGTH
    decreases |instructions|
  {
    if |instructions| == 0 then []
    else
      var leaf := Accepts(hash, bytes, instructions[0]);
      (if leaf.Some? then [leaf.value] else [])
      + AcceptedLeaves(hash, Process(hash, bytes, instructions[0]).0, instructions[1..])
  }

  /** A new or created account: the bitmap stays inside the instance's leaves, blank before creation. */
  ghost predicate Sound(bytes: Bytes) {
    && |bytes| == ACCOUNT_LENGTH
    && (bytes[0] == 0 ==> UsedLeaves(bytes) == {})
    && match InstanceOf(bytes[0])
       case Some(i) => forall leaf :: leaf in UsedLeaves(bytes) ==> leaf < i.Leaves()
       case None => bytes[0] == 0
  }

  lemma ZeroedSound()
    ensures Sound(Zeros(ACCOUNT_LENGTH)) && UsedLeaves(Zeros(ACCOUNT_LENGTH)) == {}
  {
    BlankUnused(Zeros(ACCOUNT_LENGTH));
  }

  lemma StepSound(hash: Hash, bytes: Bytes, instruction: Instruction)
    requires Sound(bytes)
    ensures var after := Process(hash, bytes, instruction).0;
            && Sound(after)
            && (bytes[0] != 0 ==> after[..KEY_END] == bytes[..KEY_END])
            && match Accepts(hash, bytes, instruction)
               case Some(leaf) => leaf !in UsedLeaves(bytes) && UsedLeaves(after) == UsedLeaves(bytes) + {leaf}
               case None => UsedLeaves(after) == UsedLeaves(bytes)
  {
    var (after, outcome) := Process(hash, bytes, instruction);
    if outcome.Ok? {
      var data := instruction.data[1..];
      if instruction.data[0] == 2 {
        var i, sig := InstanceOf(bytes[0]).value, data[MESSAGE_LENGTH..];
        VerifiedLeafInRange(hash, i, KeyOf(bytes), data[..MESSAGE_LENGTH], sig);
        MarkMarks(bytes, i.LeafOf(sig));
        assert after[0] == after[..KEY_END][0] == bytes[..KEY_END][0];
      } else {
        assert after[KEY_END..] == Zeros(32);
        BlankUnused(after);
      }
    }
  }

  ghost predicate Distinct(s: seq<nat>) {
    forall j, k :: 0 <= j < k < |s| ==> s[j] != s[k]
  }

  /** Over every instruction sequence: tag and key never change once created, no leaf is accepted
      twice, and the bitmap is exactly the accepted leaves. */
  lemma {:induction false} RunSound(hash: Hash, bytes: Bytes, instructions: seq<Instruction>)
    requires Sound(bytes)
    ensures var end, leaves := Run(hash, bytes, instructions), AcceptedLeaves(hash, bytes, instructions);
            && Sound(end)
            && (bytes[0] != 0 ==> end[..KEY_END] == bytes[..KEY_END])
            && Distinct(leaves) && (forall leaf :: leaf in leaves ==> leaf !in UsedLeaves(bytes))
            && UsedLeaves(end) == UsedLeaves(bytes) + Elems(leaves)
    decreases |instructions|
  {
    if |instructions| > 0 {
      StepSound(hash, bytes, instructions[0]);
      var next := Process(hash, bytes, instructions[0]).0;
      RunSound(hash, next, instructions[1..]);
      if bytes[0] != 0 {
        assert next[0] == next[..KEY_END][0] == bytes[..KEY_END][0];
      }
    }
  }

  ghost function Elems(s: seq<nat>): set<nat> {
    set x | x in s
  }

  lemma {:induction false} DistinctCount(s: seq<nat>)
    requires Distinct(s)
    ensures |Elems(s)| == |s|
  {
    if |s| > 0 {
      DistinctCount(s[1..]);
      assert s[0] !in s[1..];
      assert Elems(s) == {s[0]} + Elems(s[1..]);
    }
  }

  lemma {:induction false} BoundedCount(s: set<nat>, n: nat)
    requires forall x :: x in s ==> x < n
    ensures |s| <= n
  {
    if n > 0 {
      BoundedCount(s - {n - 1}, n - 1);
    } else {
      assert s == {};
    }
  }

  /** From a zeroed account, the number of set bits is the number of accepted signatures: at most one
      for a Winternitz key and 256 for a tree. */
  lemma BitsCountAcceptances(hash: Hash, instructions: seq<Instruction>)
    ensures var end := Run(hash, Zeros(ACCOUNT_LENGTH), instructions);
            && |UsedLeaves(end)| == |AcceptedLeaves(hash, Zeros(ACCOUNT_LENGTH), instructions)|
            && match InstanceOf(end[0])
               case Some(i) => |UsedLeaves(end)| <= i.Leaves()
               case None => |UsedLeaves(end)| == 0
  {
    ZeroedSound();
    RunSound(hash, Zeros(ACCOUNT_LENGTH), instructions);
    DistinctCount(AcceptedLeaves(hash, Zeros(ACCOUNT_LENGTH), instructions));
    var end := Run(hash, Zeros(ACCOUNT_LENGTH), instructions);
    assert UsedLeaves(end) == Elems(AcceptedLeaves(hash, Zeros(ACCOUNT_LENGTH), instructions));
    if InstanceOf(end[0]).Some? {
      BoundedCount(UsedLeaves(end), InstanceOf(end[0]).value.Leaves());
    }
  }

  // ----- the in-place code -----

  class AccountInfo {
    const owned: bool
    const writable: bool
    const signer: bool
    const data: array<byte>

    constructor (owned: bool, writable: bool, signer: bool, data: array<byte>)
      ensures this.owned == owned && this.writable == writable && this.signer == signer && this.data == data
    {
      this.owned, this.writable, this.signer, this.data := owned, writable, signer, data;
    }

    method CreateKey(tag: byte, key: Bytes) returns (r: Outcome)
      requires data.Length == ACCOUNT_LENGTH && tag <= 1
      modifies data
      ensures (data[..], r) == Create(old(data[..]), signer, tag, key)
    {
      if !signer {
        return Err(MissingRequiredSignature);
      }
      if |key| != KEY_END - 1 {
        return Err(InvalidInstructionData);
      }
      if data[0] != 0 {
        return Err(AccountAlreadyInitialized);
      }
      data[0] := tag + 1;
      CopyAt(data, 1, key);
      assert data[..KEY_END] == [tag + 1] + key;
      CopyAt(data, KEY_END, Zeros(32));
      assert data[..] == [tag + 1] + key + Zeros(32);
      return Ok(());
    }

    method VerifyAndMark(hash: Hash, instruction: Bytes) returns (r: Outcome)
      requires data.Length == ACCOUNT_LENGTH
      modifies data
      ensures (data[..], r) == Verify(hash, old(data[..]), instruction)
    {
      if |instruction| < MESSAGE_LENGTH {
        return Err(InvalidInstructionData);
      }
      var key: PublicKey := data[1..KEY_END];
      assert data[..][1..KEY_END] == key;
      if data[0] == 0 {
        return Err(UninitializedAccount);
      }
      if data[0] > 2 {
        return Err(InvalidAccountData);
      }
      var i := if data[0] == 1 then OneTime else Tree;
      var digest, sig := instruction[..MESSAGE_LENGTH], instruction[MESSAGE_LENGTH..];
      if |sig| != i.SignatureLength() {
        return Err(InvalidInstructionData);
      }
      var verified := VerifySignature(i, hash, key, digest, sig);
      if !verified {
        return Err(BadSignature);
      }
      VerifiedLeafInRange(hash, i, key, digest, sig);
      var leaf := i.LeafOf(sig);
      var used := data[KEY_END + leaf / 8];
      if HasBit(used, leaf % 8) {
        return Err(LeafUsed);
      }
      data[KEY_END + leaf / 8] := Marked(used, leaf % 8);
      return Ok(());
    }
  }

  method ProcessInstruction(hash: Hash, accounts: seq<AccountInfo>, instruction: Bytes) returns (r: Outcome)
    modifies if |accounts| > 0 then {accounts[0].data} else {}
    ensures |accounts| == 0 ==> r == Err(NotEnoughAccountKeys)
    ensures |accounts| > 0 ==>
              var a := accounts[0];
              (a.data[..], r) == Process(hash, old(a.data[..]), Instruction(true, a.owned, a.writable, a.signer, instruction))
  {
    if |accounts| == 0 {
      return Err(NotEnoughAccountKeys);
    }
    var account := accounts[0];
    if !account.owned {
      return Err(IncorrectProgramId);
    }
    if !account.writable || account.data.Length != ACCOUNT_LENGTH {
      return Err(InvalidAccountData);
    }
    if |instruction| == 0 {
      return Err(InvalidInstructionData);
    }
    if instruction[0] <= 1 {
      r := account.CreateKey(instruction[0], instruction[1..]);
    } else if instruction[0] == 2 {
      r := account.VerifyAndMark(hash, instruction[1..]);
    } else {
      return Err(InvalidInstructionData);
    }
  }
}
