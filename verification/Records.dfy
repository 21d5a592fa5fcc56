/** The v2 key file: `version ‖ height ‖ P ‖ next leaf ‖ flag ‖ message ‖ salt ‖ chain starts`. */
module Records {
  import opened Bytes
  import opened TweakHash
  import opened Instances
  import Keys

  const VERSION: byte := 2
  const PARAMETER: nat := 2
  const NEXT_LEAF: nat := 20
  const HAS_MESSAGE: nat := 24
  const MESSAGE: nat := 25
  const SALT: nat := 57
  const SECRETS: nat := 78

  /** The usage state of a signer, with its key material. */
  datatype Record = Record(
    parameter: Parameter, nextLeaf: u32, lastMessage: Option<Message>, lastSalt: Salt, secrets: Bytes)
  {
    function Key(i: Instance, hash: Hash): Keys.Key {
      Keys.Key(TweakHash(hash, parameter), i.Height(), secrets)
    }

    /** The states a signer can be in: a recorded message has an accepted salt at the last leaf, and
        without a message the salt is blank. */
    predicate Consistent(i: Instance, hash: Hash) {
      && |secrets| == i.SecretsLength()
      && nextLeaf <= i.Leaves()
      && match lastMessage
         case Some(m) => nextLeaf > 0 && TweakHash(hash, parameter).Encode(lastSalt, nextLeaf - 1, m).Some?
         case None => lastSalt == Zeros(SALT_LENGTH)
    }
  }

  function RecordLength(i: Instance): nat {
    SECRETS + i.SecretsLength()
  }

  /** The header `write_record` writes; the salt is only written beside a message. */
  function Header(i: Instance, r: Record): (b: Bytes)
    ensures |b| == SECRETS
  {
    [VERSION, i.Height()] + r.parameter + Be32(r.nextLeaf)
    + match r.lastMessage
      case Some(m) => [1] + m + r.lastSalt
      case None => [0] + Zeros(MESSAGE_LENGTH + SALT_LENGTH)
  }

  function Print(i: Instance, r: Record): Bytes {
    Header(i, r) + r.secrets
  }

  /** What `open` restores, or none for a corrupt file. */
  function Parse(i: Instance, hash: Hash, b: Bytes): Option<Record> {
    if |b| != RecordLength(i) then None
    else
      var nextLeaf := FromBe32(b[NEXT_LEAF..HAS_MESSAGE]);
      var parameter: Parameter := b[PARAMETER..NEXT_LEAF];
      var lastMessage: Option<Message> := if b[HAS_MESSAGE] == 1 then Some(b[MESSAGE..SALT]) else None;
      var lastSalt: Salt := b[SALT..SECRETS];
      if || b[0] != VERSION || b[1] != i.Height() || b[HAS_MESSAGE] > 1 || nextLeaf > i.Leaves()
         || (lastMessage.Some? && nextLeaf == 0)
         || (match lastMessage
             case Some(m) => TweakHash(hash, parameter).Encode(lastSalt, nextLeaf - 1, m).None?
             case None => b[MESSAGE..SECRETS] != Zeros(SECRETS - MESSAGE))
      then None
      else Some(Record(parameter, nextLeaf, lastMessage, lastSalt, b[SECRETS..]))
  }

  lemma PrintFields(i: Instance, r: Record)
    ensures var b := Print(i, r);
            && |b| == SECRETS + |r.secrets| && b[0] == VERSION && b[1] == i.Height()
            && b[PARAMETER..NEXT_LEAF] == r.parameter && b[NEXT_LEAF..HAS_MESSAGE] == Be32(r.nextLeaf)
            && b[SECRETS..] == r.secrets
            && match r.lastMessage
               case Some(m) => b[HAS_MESSAGE] == 1 && b[MESSAGE..SALT] == m && b[SALT..SECRETS] == r.lastSalt
               case None => b[HAS_MESSAGE] == 0 && b[MESSAGE..SECRETS] == Zeros(SECRETS - MESSAGE)
  {
  }

  /** Every record a signer writes is accepted by `open` and restores the same state. */
  lemma PrintParses(i: Instance, hash: Hash, r: Record)
    requires r.Consistent(i, hash)
    ensures Parse(i, hash, Print(i, r)) == Some(r)
  {
    PrintFields(i, r);
    Be32Decodes(r.nextLeaf);
    var b := Print(i, r);
    if r.lastMessage.None? {
      assert b[SALT..SECRETS] == b[MESSAGE..SECRETS][SALT - MESSAGE..] == Zeros(SALT_LENGTH);
    }
  }

  /** A file of the right length is its fields. */
  lemma FileFields(b: Bytes)
    requires |b| >= SECRETS
    ensures b == b[..PARAMETER] + b[PARAMETER..NEXT_LEAF] + b[NEXT_LEAF..HAS_MESSAGE]
                 + ([b[HAS_MESSAGE]] + b[MESSAGE..SALT] + b[SALT..SECRETS]) + b[SECRETS..]
    ensures b[..PARAMETER] == [b[0], b[1]]
    ensures b[MESSAGE..SECRETS] == b[MESSAGE..SALT] + b[SALT..SECRETS]
    ensures b[MESSAGE..SECRETS] == Zeros(SECRETS - MESSAGE) ==> b[SALT..SECRETS] == Zeros(SALT_LENGTH)
  {
    if b[MESSAGE..SECRETS] == Zeros(SECRETS - MESSAGE) {
      assert b[SALT..SECRETS] == b[MESSAGE..SECRETS][SALT - MESSAGE..];
    }
  }

  /** Every file `open` accepts is a consistent state, reprinted byte for byte by `write_record`. */
  lemma ParsePrints(i: Instance, hash: Hash, b: Bytes)
    requires Parse(i, hash, b).Some?
    ensures Parse(i, hash, b).value.Consistent(i, hash)
    ensures Print(i, Parse(i, hash, b).value) == b
  {
    FileFields(b);
    Be32Encodes(b[NEXT_LEAF..HAS_MESSAGE]);
  }

  /** Distinct states have distinct files. */
  lemma PrintInjective(i: Instance, hash: Hash, r: Record, s: Record)
    requires r.Consistent(i, hash) && s.Consistent(i, hash) && Print(i, r) == Print(i, s)
    ensures r == s
  {
    PrintParses(i, hash, r);
    PrintParses(i, hash, s);
  }

  // ----- the step-by-step code -----

  /** `write_record`: fill the zeroed header field by field. */
  method WriteRecord(i: Instance, r: Record) returns (b: Bytes)
    ensures b == Print(i, r)
  {
    var header := new byte[SECRETS](_ => 0);
    header[0] := VERSION;
    header[1] := i.Height();
    assert header[..] == [VERSION, i.Height()] + Zeros(SECRETS - PARAMETER);
    CopyAt(header, PARAMETER, r.parameter);
    assert header[..] == [VERSION, i.Height()] + r.parameter + Zeros(SECRETS - NEXT_LEAF);
    CopyAt(header, NEXT_LEAF, Be32(r.nextLeaf));
    ghost var fixed := [VERSION, i.Height()] + r.parameter + Be32(r.nextLeaf);
    assert header[..] == fixed + Zeros(SECRETS - HAS_MESSAGE);
    if r.lastMessage.Some? {
      WriteMessage(header, fixed, r.lastMessage.value, r.lastSalt);
    } else {
      assert Zeros(SECRETS - HAS_MESSAGE) == [0] + Zeros(MESSAGE_LENGTH + SALT_LENGTH);
    }
    b := header[..] + r.secrets;
  }

  method WriteMessage(header: array<byte>, ghost fixed: Bytes, message: Message, salt: Salt)
    requires header.Length == SECRETS && |fixed| == HAS_MESSAGE && header[..] == fixed + Zeros(SECRETS - HAS_MESSAGE)
    modifies header
    ensures header[..] == fixed + ([1] + message + salt)
  {
    header[HAS_MESSAGE] := 1;
    CopyAt(header, MESSAGE, message);
    CopyAt(header, SALT, salt);
  }
}
