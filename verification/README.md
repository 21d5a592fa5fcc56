# Solana Winternitz, modelled and proved in Dafny

This project models the hash-based signature scheme of the `solana-winternitz` crate (target-sum
Winternitz chains under a Merkle tree, with Keccak-256), the host signer that keeps it one-time, the
example account program, and the TypeScript package's signer and verifier.

Keccak-256 is an arbitrary total function from byte strings to 32 bytes, passed around as a function
value. Nothing is assumed about it, in particular not that it has no collisions: where security rests
on the hash, every exception to a theorem is a collision that comes with the signature at hand: two
inputs under one tweak, one from the honest key and one that verifying this very signature hashes.

## Main results

1. **Acceptance is exact** (`Instances.VerifiedIsSigned`, `Instances.SignedVerifies`). What an honest key
   signs verifies, for every height, leaf, message and accepted salt. Conversely, any bytes it accepts are
   the honest signature for their own leaf and salt, or verifying them makes a hash call (`Keys.Checks`:
   the rest of a chain, the leaf, a node of the path) with the tweak and the truncated value, but not the
   data, of a call of the key. So a leaf that signed once gives away only what it signed
   (`Instances.SignedLeafExact`): anything else accepted there computes such a second preimage, or shows
   some chain's honest value below the position that was signed, or has a salted digest that collides with
   the signed one on the 18 bytes the digits come from.
2. **One message per leaf** (`MachineTheorems.OneMessagePerLeaf`). Over every run of any number of
   lock-contending signers, with failed sampling, failed and partial writes, kills between any two file
   operations, reopenings and power failures, two signatures handed out at one leaf are the same.
3. **What storage must guarantee** (`PowerFailures`). `open` reads a record without syncing, and a retry
   writes nothing. The rule above holds if a power failure never undoes a record that was opened with a
   message in it. A caller ensures that by syncing the key file and its directory first
   (`OneMessagePerLeafSynced`, `OneMessagePerLeafDurably`), and which opens need it is known exactly: after
   any run whose opens were durable, an open is safe if and only if the directory is synced at that open
   or the record holds no message, given another message, or another salt for the same one, that is
   accepted at the leaf (`OpenSafeIff`). Both can be checked beforehand; the flag byte is in the file.
   Without this the rule is false: `AssumptionNeeded` gives a hash, a key file and a run that signs two
   messages at leaf 0, and `LeafReused` does so from every key file with a leaf left, for any two new
   messages, or two salts of one (`SameMessageReused`). The documentation calls the signing state durable
   without naming this condition; the model follows the code. It also follows the code where a `create`
   that is killed leaves a file that neither `create` nor `open` accepts (`Creation`): from an unused path
   a signer can come to life if and only if the file is absent or a record.
4. **Signer and program compose** (`Composition.SignerAndProgram`). Released signatures, delivered in any
   order and repeated at will, are each accepted exactly the first time their leaf arrives; the final
   bitmap is the delivered leaves.
5. **End to end, against anyone** (`EndToEnd.ReleasedAccepted`, `EndToEnd.AcceptedAccounted`). The account may
   receive any instructions whatever. A released signature is accepted if and only if its leaf was not
   accepted before; and whatever is accepted is, at a leaf where the signer signs, the signer's own message
   and bytes, or a forgery that carries its collision or preimage (result 1) with it.
6. **The count of accepted encodings** (`Counting.LayerSize`). The inclusion-exclusion loop, with its
   dividing binomial fold, computes the number of digit vectors with the target sum: every division is
   exact and the final subtraction never underflows.
7. **What the bytes are** (`Formats`, `Account.RegistersExactly` and the lemmas beside it). Every string that is
   hashed, signed, stored or sent is given by position and in numbers, apart from the encoders and constants
   that build it; acceptance of a salt, a signature under any public key, a key file and an instruction is
   an if-and-only-if over those bytes. Likewise the signer: `open`, `create` and an attempt succeed exactly
   when the lock, the file system and the sampling let them.

## Layout

| file | module | content |
|---|---|---|
| Bytes.dfy | Bytes | bytes, big- and little-endian integers, shifts |
| TweakHash.dfy | TweakHash | hash inputs, digits, pure chain walk, separation of inputs |
| Encoding.dfy | Encoding | the nibble loop, incomparable encodings |
| Chains.dfy | Chains | the reused 48-byte chain buffer |
| Leaves.dfy | Leaves | 36 chains of one leaf, signer and verifier cost |
| Merkle.dfy | Merkle | recursive tree, flat layout, in-place construction, path folding |
| Keys.dfy | Keys | an honest key and its second preimages |
| Xmss.dfy, Winternitz.dfy, Instances.dfy | same names | the two signature formats and their dispatch |
| Records.dfy | Records | the key-file codec |
| Formats.dfy | Formats | every hashed, signed and stored byte by position, and acceptance, in numbers |
| Sampling.dfy | Sampling | bounded salt sampling, raw signing, key generation |
| Machine.dfy | Machine | the signer as a transition system over its files |
| MachineSafety.dfy, MachineTheorems.dfy | same names | its invariant and what all runs guarantee |
| Creation.dfy | Creation | interrupted creations, and where a signer can come to life |
| PowerFailures.dfy | PowerFailures | the durability condition, both ways |
| Signer.dfy | Signer | the Rust `SigningKey` as a class; every method is a run of the machine |
| TypeScriptSigner.dfy, TypeScriptKeys.dfy | same names | the TypeScript signer with its callback, verifier and key |
| Account.dfy | Account | the account program, in place, and its runs |
| Composition.dfy | Composition | signer and program together |
| EndToEnd.dfy | EndToEnd | the same under arbitrary instructions |
| Counting.dfy | Counting | `layer_size` |

The expression-style functions (`TweakHash.TweakHash.Walk`, `Leaves.WalkAll`, `Xmss.Sign`, ...) specify both
implementations. The Rust methods fill shared buffers and arrays; the TypeScript methods walk without a
shared buffer, address the tree by shifts, and check lengths and leaves in their own order. Both are
proved equal to the same functions, so keys, public keys, signatures and verdicts agree.

The machine is stated over the six operations it uses (record codec, consistency, sampling, signing);
`Machine.For` supplies the real ones and `Machine.ForLawful` shows they are lawful.

## Model

| member | source | states |
|---|---|---|
| TweakHash.InputsSeparated | src/lib.rs:166-250 | two hash calls under one parameter with equal inputs are the same call: kind, leaf, chain, position, level, index, salt, data |
| TweakHash.TweakHash.WalkSplits | src/lib.rs:194-205 | a chain walk may be split at any position, which lets the verifier finish what the signer began |
| TweakHash.TweakHash.WalkLast | src/lib.rs:194-205 | the last step of a walk, into position `to`, carries tweak position `to` |
| Encoding.Encode | src/lib.rs:160-174 | the digit loop and the u16 sum compute the specified encoding (what it is: `Formats.AcceptedExactly`) |
| Encoding.DigitsReadBack | src/lib.rs:169-172 | each of the first 18 digest bytes is read back from its two digits, low nibble first |
| Encoding.SameDigits | src/lib.rs:169-172 | two salted digests have the same digits exactly when they share their first 18 bytes |
| Encoding.EqualSumsIncomparable | src/lib.rs:27-30 | distinct vectors with equal sums are each strictly smaller somewhere, for any number of chains, positions and any target |
| Encoding.AcceptedIncomparable | src/lib.rs:27-30 | two distinct accepted encodings are each strictly smaller at some chain |
| Chains.Chain.constructor | src/lib.rs:186-192 | a new buffer holds parameter, role and leaf, and zeros |
| Chains.Chain.Walk | src/lib.rs:196-205 | whatever earlier walks left in the buffer, the result is the pure walk in `to - from` hash calls, and the prefix stays |
| Leaves.FinishesCut | src/lib.rs:207-218 | walking every chain from its signed digit to the end meets the key's chain ends |
| Leaves.WalkExact | src/lib.rs:194-205 | a value that reaches the honest end of a chain of any length is honest where it starts, or its own walk enters the honest chain from another value |
| Leaves.FinishExact | src/lib.rs:207-218 | elements that finish on the key's ends are the honest ones, or finishing one of them enters its honest chain from another value |
| Leaves.AcceptedCost | src/lib.rs:27-29 | every accepted encoding costs exactly 297 signer steps and 243 verifier steps |
| Leaves.DistanceSplits | src/lib.rs:27-30 | for any number of chains and positions, the steps from the start are the digit sum, the steps to the end what it leaves |
| Leaves.Finish | src/lib.rs:208-218 | the loop over one buffer finishes all chains, in as many hash calls as the digits leave |
| Leaves.Ends | src/lib.rs:260-271 | the loop over one buffer gives the chain ends of a leaf |
| Leaves.Sign | src/lib.rs:275-300 | no elements for a salt that misses the target; otherwise every chain cut at its digit, in 297 hash calls |
| Bytes.ShiftDivides | src/xmss.rs:103-104 | shifting a leaf index right is dividing it by a power of two |
| Bytes.ShiftBound | src/xmss.rs:103-104 | a shifted leaf index stays inside its level |
| Merkle.NodeHasOneSlot | src/xmss.rs:176-179 | each node (l, i) has one slot of the flat array, found again from the slot |
| Merkle.SlotHasOneNode | src/xmss.rs:176-179 | each of the 2·LEAVES−1 slots is exactly one node's, so the levels partition the array |
| Merkle.FillLevels | src/xmss.rs:207-218 | the nested loops fill the array with the recursive tree; the slots written are LEAVES, LEAVES + 1, ..., 2·LEAVES − 2, in this order |
| Merkle.ChildSlots | src/xmss.rs:207-218 | both children of an inner node lie in earlier slots, so they are filled before it |
| Merkle.Tree.NodesAtLevel | src/xmss.rs:176-183 | `nodes[level(l) + i]` is the recursive node (l, i) |
| Merkle.Tree.SiblingSlot | src/xmss.rs:249-257 | slot `level(l) + ((leaf >> l) ^ 1)` holds the authentication sibling of every leaf |
| Merkle.ExtractPath | src/xmss.rs:249-257 | the copied path is the honest sibling of every level |
| Merkle.Tree.ClimbHonest | src/xmss.rs:99-109 | after each verifier level the running node is the recursive node (level, leaf >> level) |
| Merkle.Tree.FoldHonest | src/xmss.rs:99-110 | from every level the honest path folds the honest node to the root |
| Merkle.Tree.FoldExact | src/xmss.rs:99-110 | a path that folds to the root is the honest path under the honest node, or a step of folding it hashes other children to an honest node |
| Keys.Key.SecondPreimageCollides | src/lib.rs:176-250 | a second preimage is two different input strings under one tweak with equal truncated hash |
| Xmss.AssembleFields | src/xmss.rs:13-18 | leaf, salt, elements and path are read back from an assembled signature |
| Xmss.FieldsAssemble | src/xmss.rs:13-18 | every signature-length byte string is the assembly of its fields |
| Xmss.SignedVerifies | src/xmss.rs:86-115 | whatever the key signs verifies under its verifying key, for every tree height |
| Xmss.VerifiedIsSigned | src/xmss.rs:86-115 | accepted bytes are the honest signature for their leaf and salt, or a hash call of verifying them is a second preimage of a call of the key |
| Xmss.FromSecrets | src/xmss.rs:192-224 | refuses exactly the wrong length; otherwise the cached array is the whole tree of the key |
| Xmss.VerifyingKey | src/xmss.rs:181-184 | the last slot and the parameter are root and parameter of the recursive tree |
| Xmss.SignAtWithSalt | src/xmss.rs:234-259 | the buffer filled slice by slice is the signature, or none for a bad leaf or salt |
| Xmss.VerifySignature | src/xmss.rs:86-115 | the level loop decides exactly the specified acceptance |
| Winternitz.SignIsHeightZero | src/winternitz.rs:181-195 | one-leaf signing is the tree instance at height 0 without the leaf prefix |
| Winternitz.VerifyIsHeightZero | src/winternitz.rs:69-84 | one-leaf verification is the tree instance at height 0 |
| Winternitz.VerifyingKey | src/winternitz.rs:143-152 | the recomputed leaf hash is the root of the height-0 tree |
| Winternitz.SignAtWithSalt | src/winternitz.rs:181-195 | the filled buffer is the 849-byte signature, or none |
| Winternitz.VerifySignature | src/winternitz.rs:69-84 | the code decides exactly the specified acceptance |
| Instances.SignatureLengths | src/winternitz.rs:8 | the two formats are 849 and 1037 bytes |
| Instances.SignsExactly | src/signer.rs:31-38 | a signature exists for exactly the instance's leaves and the accepted salts, and carries that leaf and salt |
| Instances.SignedVerifies | src/lib.rs:67-76 | signing correctness for both instances |
| Instances.VerifiedIsSigned | src/lib.rs:67-76 | the same for both instances |
| Instances.SignedLeafExact | src/lib.rs:27-30 | at a leaf that signed, only the signed message and bytes are accepted, or bytes that compute a second preimage, go back on a chain, or collide on the 18 digest bytes of the digits |
| Instances.FromSecrets | src/signer.rs:23-26 | a raw key exists exactly for chain starts of the instance's length |
| Instances.SignAtWithSalt | src/signer.rs:31-38 | raw keys with or without a cached tree sign the specified bytes |
| Records.PrintParses | src/signer.rs:164-208 | every record of a consistent state is accepted by `open` and restores that state |
| Records.ParsePrints | src/signer.rs:171-207 | every file `open` accepts is a consistent state, reprinted byte for byte |
| Records.PrintInjective | src/signer.rs:283-297 | distinct states have distinct files |
| Records.WriteRecord | src/signer.rs:283-297 | the header filled field by field, then the chain starts, is the record |
| Formats.MessageInputBytes | src/lib.rs:166-168 | the 76 message bytes by position: salt, parameter, role 2, the leaf little-endian, message |
| Formats.StepBytes | src/lib.rs:186-205 | the 48 chain bytes by position: parameter, role 0, the leaf big-endian, chain, position, value; the first 23 digest bytes are kept |
| Formats.LeafBytes | src/lib.rs:222-237 | the 852 leaf bytes by position: parameter, role 1, level 0, the leaf big-endian, 36 ends; 23 digest bytes are kept |
| Formats.NodeBytes | src/lib.rs:222-250 | the 70 node bytes by position: parameter, role 1, level, the index big-endian, left, right; 23 digest bytes are kept |
| Formats.AcceptedExactly | src/lib.rs:168-173 | a salt is accepted exactly when the nibbles of the first 18 digest bytes add up to 297; digit 2j is the low nibble of byte j, digit 2j + 1 the high one |
| Formats.AcceptedInLayer | src/tests.rs:111-118 | a salt is accepted exactly when its digits are in the counted layer of 36 digits under 16 at 243 verifier steps |
| Formats.LeafOfKey | src/xmss.rs:199-206 | a leaf node hashes 36 chain ends, each walked from position 0 to 15 from its 23 secret bytes, leaf-major, chain-major |
| Formats.NodeOfKey | src/xmss.rs:207-218 | node (l, i) hashes nodes (l − 1, 2i) and (l − 1, 2i + 1) under level l and index i |
| Formats.PublicKeyBytes | src/xmss.rs:181-184 | 23 bytes of root, then 18 of parameter |
| Formats.OneTimeSignatureBytes | src/winternitz.rs:181-195 | 849 bytes by position: salt, and 36 chains, each cut at its digit |
| Formats.TreeSignatureBytes | src/xmss.rs:234-259 | 1037 bytes by position: the leaf big-endian, salt, 36 chains cut at their digits, 8 siblings |
| Formats.SiblingOfLeaf | src/xmss.rs:249-257 | sibling l of a leaf is the node beside the one with index leaf / 2^l |
| Formats.VerifiesExactly | src/xmss.rs:86-115 | any bytes under any public key verify exactly when the leaf exists, the nibbles add up to 297, and some chain ends and nodes lead from them to the root |
| Formats.RecordBytes | src/signer.rs:283-297 | the record by position: version 2, height, parameter, the next leaf big-endian, flag, message and salt or zeros, chain starts |
| Formats.OpensExactly | src/signer.rs:171-195 | `open` accepts exactly the files of the right length, version, height and flag, with a next leaf in range and either zeros or a spent leaf with an accepted salt |
| Sampling.SampleSalt | src/hazmat.rs:43-57 | at most 4096 requests; the first one that is not a rejected salt is the last one made and gives the result; 4096 rejected salts exhaust |
| Sampling.SampleExactly | src/hazmat.rs:50-56 | for any k < 4096, if every request before k is a rejected salt and k is not, sampling has the outcome of k; only 4096 rejected salts exhaust it |
| Sampling.SignAt | src/hazmat.rs:59-71 | a bad leaf is refused before the source is used; a returned signature verifies and is for that leaf |
| Sampling.Generate | src/hazmat.rs:26-41 | succeeds exactly when every request is filled, and otherwise fails with the first error; leaf k's chain starts are request k, the parameter is the last request |
| Machine.AttemptConsistent | src/signer.rs:266-273 | an attempt from a consistent state leaves a consistent state, whatever the source does |
| Machine.ForLawful | src/signer.rs:249-311 | the real codec, sampling and signing satisfy what the protocol relies on |
| MachineSafety.StepInv | src/signer.rs:127-311 | every event of every process keeps the invariant: each record that may survive accounts for all signatures handed out |
| MachineSafety.RunInv | src/signer.rs:127-311 | so does every run |
| MachineTheorems.OneMessagePerLeaf | src/signer.rs:245-281 | two signatures handed out at one leaf, in any run, have the same message, salt and bytes |
| MachineTheorems.OneProcess | src/signer.rs:330-345 | in every run at most one process is behind the sidecar lock, and holds it |
| MachineTheorems.ReleasedVerifies | src/signer.rs:249-281 | every signature handed out is the honest one of the key on file, below its next leaf, and verifies |
| MachineTheorems.KeyFileAlwaysOpens | src/signer.rs:299-311 | once a record is durable or was opened with a message in it, no failure leaves a key file that `open` refuses |
| MachineTheorems.NeverRewinds | src/signer.rs:266-277 | across reopenings and failures the spent leaves of the key only grow, up to LEAVES |
| MachineTheorems.BudgetConserved | src/signer.rs:266-277 | between power failures the leaf on file rises by exactly one per persisted attempt, failed sampling included |
| MachineTheorems.RetriesRepeat | src/signer.rs:257-262 | retries, with crashes and reopenings between, hand out the recorded signature only and change neither state nor file |
| MachineTheorems.ReleaseSettles | src/signer.rs:278-281 | a fresh signature leaves the state from which retries repeat it |
| MachineTheorems.RetriesIgnoreSources | src/signer.rs:257-262 | over any run of retries, crashes and reopenings included, other random sources lead to the very same states |
| Creation.KilledCreateStrands | src/signer.rs:130-161 | a `create` killed after making its file, or while writing the record, leaves a file that is no record |
| Creation.StrandedWhilePowered | src/signer.rs:130-208 | while power stays, a file that is no record is never replaced, opened or signed from, synced or not |
| Creation.StrandedForever | src/signer.rs:130-208 | once it is synced, power failures change nothing either |
| Creation.ComesAliveIff | src/signer.rs:128-208 | from a path that nobody uses, a signer can come to life if and only if the file is absent or a record |
| PowerFailures.DurableOpensKeep | src/signer.rs:164-170 | if every open of a record with a message finds the directory synced, no power failure undoes such a record |
| PowerFailures.OneMessagePerLeafDurably | src/signer.rs:164-170 | then one message per leaf needs no assumption on power failures; opens of records without a message are free |
| PowerFailures.OneMessagePerLeafSynced | src/signer.rs:164-170 | in particular when whoever opens a record with a message opens what was synced since its last write or rename |
| PowerFailures.SyncRepairs | src/signer.rs:299-311 | after a kill between the rename and the directory sync, syncing and opening puts a signer on the new record, with nothing left to come back |
| PowerFailures.UnsyncedOpenReuses | src/signer.rs:257-262 | a signer on a signed record whose predecessor may come back has a continuation, every later open of which finds the directory synced, that also signs another message, or the same one under another salt, at that leaf |
| PowerFailures.OpenSafeIff | src/signer.rs:164-170 | after any run with durable opens, opening a record never leads to two different signatures at a leaf, over all continuations with durable opens, exactly when the directory is synced or the record holds no message (given another message or salt accepted at that leaf) |
| PowerFailures.LeafReused | src/signer.rs:164-208 | from every key file with room, for any two new messages with accepted salts, or two accepted salts of one, some run hands out both signatures at one leaf |
| PowerFailures.SameMessageReused | src/signer.rs:257-262 | in particular asking again for the same message after losing an unsynced record signs the leaf twice |
| PowerFailures.AssumptionNeeded | src/signer.rs:164-208 | a concrete hash, key file and run of the 256-leaf instance that signs two messages at leaf 0 |
| Signer.Store.OneMessagePerLeafHere | src/signer.rs:249-281 | whatever the signer code does on a store, no leaf gets two messages |
| Signer.Store.TryLock | src/signer.rs:330-345 | the lock is taken exactly when nobody holds it |
| Signer.Store.RenameTmp | src/signer.rs:309 | after a rename, reported or not, the key file is the old record or the new one |
| Signer.WriteFile | src/signer.rs:299-311 | succeeds exactly when its four file operations do; then the new record is in place and synced; a failure leaves the old or the new record and an unusable signer |
| Signer.SigningKey.Attempt | src/signer.rs:263-281 | one leaf is spent whatever happens; a signature is returned exactly when sampling and the four file operations succeed |
| Signer.SigningKey.SignWithRng | src/signer.rs:249-281 | the full case analysis: failed, retry, exhausted, attempt, with result, error (Io for a failed write, else the sampling error), state, file, requests and released signatures |
| Signer.SigningKey.Remaining | src/signer.rs:231-234 | the subtraction never underflows |
| Signer.OpenKey | src/signer.rs:163-208 | succeeds exactly when the lock is free, the file can be read and is a record; then restores the state on file under the lock; every error names its cause and leaves the lock as it was |
| Signer.CreateKey | src/signer.rs:128-161 | succeeds exactly when the lock is free, no file exists, the random source answers and four file operations succeed; then a blank, durable record is there under the lock; a failure frees the lock, and a sampling failure leaves an empty file |
| Signer.RequireNextLeafAtLeast | src/signer.rs:210-222 | keeps the signer, or reports both leaves and drops the lock |
| TypeScriptSigner.SigningKey.Close | packages/winternitz/src/signing-key.ts:168-173 | refuses during an attempt; otherwise an open signer frees the lock, and a closed one touches nothing |
| TypeScriptSigner.SigningKey.Perform | packages/winternitz/src/signing-key.ts:142-173 | nested sign, close and minimum calls and overwriting the message leave an attempt's signer, lock and file alone |
| TypeScriptSigner.SigningKey.SampleSalt | packages/winternitz/src/core.ts:110-117 | around any callback, sampling gives what the plain source would give for the message on entry, errors included, in as many requests, at most 4096 |
| TypeScriptSigner.SigningKey.RequireNextLeafAtLeast | packages/winternitz/src/signing-key.ts:122-129 | passes, or closes and reports an invalid minimum or both leaves; during an attempt it reports the refused close and changes nothing |
| TypeScriptSigner.SigningKey.SignWithRng | packages/winternitz/src/signing-key.ts:142-163 | whatever the callback does, the attempt is for the message and leaf on entry, with the Rust signer's outcome and error; it fails only with the file system or the sampling; a failed write closes the signer and frees the lock |
| TypeScriptKeys.Verify | packages/winternitz/src/verifying-key.ts:10-30 | the one verifier for both kinds accepts exactly what the Rust verifiers accept |
| TypeScriptKeys.Walk | packages/winternitz/src/core.ts:66-71 | the loop without a shared buffer is the same pure walk |
| TypeScriptKeys.FillTree | packages/winternitz/src/hazmat/xmss.ts:18-29 | the constructor's loops, addressed by shifts, cache the same recursive tree as the Rust key |
| TypeScriptKeys.FromSecrets | packages/winternitz/src/hazmat/xmss.ts:49-51 | exactly the right lengths make a key, the same as the Rust one, for both kinds |
| TypeScriptKeys.VerifyingKey | packages/winternitz/src/hazmat/xmss.ts:56-58 | the last cached node (or the recomputed leaf) and the parameter are the Rust public key |
| TypeScriptKeys.SignAtWithSalt | packages/winternitz/src/hazmat/xmss.ts:64-68 | with the path read from the cached nodes, the bytes are the Rust signature's; errors name a bad leaf, then a bad length, then a rejected salt |
| Account.SetBitSets | program/src/lib.rs:78-82 | setting a bit sets that bit and no other |
| Account.MarkMarks | program/src/lib.rs:77-82 | marking a leaf marks that leaf only and leaves tag and key alone |
| Account.RejectedUnchanged | program/src/lib.rs:15-84 | a rejected instruction leaves every byte as it was |
| Account.UsedExactly | program/src/lib.rs:78-82 | leaf n is used when bit n % 8, lowest first, of byte 42 + n / 8 is set |
| Account.RegistersExactly | program/src/lib.rs:34-48 | a create is accepted exactly for a named, owned, writable, blank 74-byte account that signs, with tag 0 or 1 and 41 key bytes; it leaves tag + 1, the key and a blank bitmap |
| Account.TagNeedsSignature | program/src/lib.rs:34-48 | no instruction changes the tag but a registration signed by the account |
| Account.AddressedExactly | program/src/lib.rs:51-84 | a delivery of the right length to a key account is a bad signature, a used leaf or accepted, each exactly when the signature fails, verifies at a used leaf, or verifies at a fresh one |
| Account.RefusedExactly | program/src/lib.rs:15-74 | every other instruction is refused with the error of the first check it fails |
| Account.DeliveryExact | program/src/lib.rs:51-84 | a signature is accepted exactly when it verifies under the stored key and its leaf is unused; then that leaf becomes used |
| Account.RunSound | program/src/lib.rs:15-84 | over any instructions tag and key stay once created, no leaf is accepted twice, and the bitmap is the accepted leaves |
| Account.BitsCountAcceptances | program/src/lib.rs:15-84 | from a zeroed account set bits equal accepted signatures, at most 1 or 256 |
| Account.AccountInfo.CreateKey | program/src/lib.rs:34-48 | the in-place code makes the specified change or none, with the specified error |
| Account.AccountInfo.VerifyAndMark | program/src/lib.rs:51-84 | the in-place code marks the leaf or changes nothing, with the specified error |
| Account.ProcessInstruction | program/src/lib.rs:15-31 | the dispatch in place, with the checks in order |
| Composition.SignerAndProgram | program/src/lib.rs:51-84 | released signatures, in any order and repeated, are accepted exactly the first time their leaf arrives; the bitmap is the delivered leaves |
| Composition.DistinctReleasesAccepted | README.md:73-75 | distinct released signatures are all accepted |
| Composition.AcceptedIsHonest | program/src/lib.rs:58-83 | whatever the program accepts under an honest key is that key's signature at an unused leaf, or verifying it computes a second preimage |
| EndToEnd.ReleasedAccepted | program/src/lib.rs:15-84 | among any other instructions, a released signature is accepted if and only if its leaf was not accepted before |
| EndToEnd.AcceptedAccounted | program/src/lib.rs:15-84 | under any instructions, whatever is accepted is at a fresh leaf, and where the signer signs it is the signer's message and bytes, or forged with its collision or preimage |
| Counting.FoldExact | src/tests.rs:65-69 | multiplying by n − i makes the fold's value divisible by i + 1 |
| Counting.BinomByFold | src/tests.rs:65-69 | the fold with division is the binomial coefficient of Pascal's rule |
| Counting.PointsExactly | src/tests.rs:62-63 | the counted set is all vectors of length v over [0, w) |
| Counting.CountsLayer | src/tests.rs:62-63 | the recurrence on the last coordinate counts the layer |
| Counting.AlternatingCounts | src/tests.rs:70-79 | the alternating sum equals the count, for every v, w and d |
| Counting.LayerSize | src/tests.rs:64-80 | the loop returns the number of points with sum v(w−1) − d; no division is inexact and the difference does not underflow |
| Counting.AcceptedAreLayer | src/tests.rs:111-118 | the encodings the scheme accepts are the layer at 243 verifier steps |

## Left out

- Keccak-256 itself, slice lists for hashing and the syscall table: one total function of the concatenated bytes stands for them.
- Probabilities: how likely a salt is accepted, security levels and the floating-point parameter test. A random source is any sequence of fills and failures.
- The real file system: files are values, a rename is atomic, and each operation works or fails, with or without its effect, as an arbitrary function of its number decides. Content lost before the first sync of `create` may come back as anything. Directory creation, permissions and failure to open the lock file are not modelled.
- Syncing the directory makes a rename durable in the model, which src/signer.rs:348-355 does on unix only; elsewhere the code syncs no directory, and a rename stays unsynced until the system writes it back (the event `Sync`).
- Removing or restoring key files by hand, and a replaced lock file, which the documentation forbids.
- Wiping of secrets, error texts, reference casts and other memory detail.
- Length-checking constructors: lengths are types or preconditions.
- The Solana runtime beyond owner, writable and signer flags and the account bytes.
- Account.SetBit: bytes are integers, so the bit operations are written as arithmetic on bits.
- Leaves.WalkEach: `Chain::ends`, `signing::ends` and `signing::sign` share one modelled loop, since they differ only in start and end positions.
- CHAINS, POSITIONS and TARGET_SUM are the source's constants, because digits are the nibbles of an 18-byte prefix; chain walks, incomparability and costs are proved for any number of chains, positions and any sum, and trees for any height up to 31, where leaf indices stay u32.
- Signer.Store: the class holds one process's view of one path; other processes appear in the machine, whose runs it extends.
- TypeScript `create` and `open`: they follow the Rust ones and share the record format, so only signing, closing and the minimum check are modelled for TypeScript.
