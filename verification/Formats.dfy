/**
 Every byte the scheme hashes, signs or stores, by its position and in numbers. The other modules build
 these strings from encoders and named offsets; here is what they come to.
 */
module Formats {
  import opened Bytes
  import opened TweakHash
  import opened Instances
  import opened Records
  import Counting
  import Encoding
  import Keys
  import Leaves
  import Merkle
  import Xmss

  // ----- four bytes -----

  /** Big-endian, most significant byte first. */
  ghost predicate BigEndian(b: Bytes, n: u32) {
    && |b| == 4
    && b[0] == n / 16777216 && b[1] == n / 65536 % 256 && b[2] == n / 256 % 256 && b[3] == n % 256
  }

  lemma BigEndianReads(b: Bytes)
    requires |b| == 4
    ensures BigEndian(b, FromBe32(b))
    ensures FromBe32(b) == 16777216 * (b[0] as int) + 65536 * (b[1] as int) + 256 * (b[2] as int) + b[3]
  {
    Be32Encodes(b);
  }

  // ----- hash inputs -----

  /** 76 bytes: salt, parameter, role 2, the leaf little-endian, message. */
  lemma MessageInputBytes(t: TweakHash, salt: Salt, leaf: u32, message: Message)
    ensures var u := t.MessageInput(salt, leaf, message);
            && |u| == 76 && u[..21] == salt && u[21..39] == t.parameter && u[39] == 2
            && u[40] == leaf % 256 && u[41] == leaf / 256 % 256 && u[42] == leaf / 65536 % 256 && u[43] == leaf / 16777216
            && u[44..] == message
  {
  }

  /** 48 bytes: parameter, role 0, the leaf big-endian, chain, position, value; 23 digest bytes are kept. */
  lemma StepBytes(t: TweakHash, leaf: u32, chain: byte, position: byte, x: Element)
    ensures var u := t.ChainInput(leaf, chain, position, x);
            && |u| == 48 && u[..18] == t.parameter && u[18] == 0 && BigEndian(u[19..23], leaf)
            && u[23] == chain && u[24] == position && u[25..] == x
            && t.Step(leaf, chain, position, x) == t.hash(u)[..23]
  {
  }

  /** 852 bytes: parameter, role 1, level 0, the leaf big-endian, 36 chain ends. */
  lemma LeafBytes(t: TweakHash, leaf: u32, ends: Elements)
    ensures var u := t.LeafInput(leaf, ends);
            && |u| == 852 && u[..18] == t.parameter && u[18] == 1 && u[19] == 0 && BigEndian(u[20..24], leaf)
            && u[24..] == ends
            && t.LeafHash(leaf, ends) == t.hash(u)[..23]
  {
    var u := t.LeafInput(leaf, ends);
    assert u[20..24] == Be32(leaf);
  }

  /** 70 bytes: parameter, role 1, level, the index big-endian, left child, right child. */
  lemma NodeBytes(t: TweakHash, level: byte, index: u32, left: Element, right: Element)
    ensures var u := t.NodeInput(level, index, left, right);
            && |u| == 70 && u[..18] == t.parameter && u[18] == 1 && u[19] == level && BigEndian(u[20..24], index)
            && u[24..47] == left && u[47..] == right
            && t.Node(level, index, left, right) == t.hash(u)[..23]
  {
    var u := t.NodeInput(level, index, left, right);
    assert u[20..24] == Be32(index);
  }

  // ----- digits -----

  /** The sum of the two nibbles of every byte. */
  function NibbleSum(b: Bytes): nat {
    if |b| == 0 then 0 else NibbleSum(b[..|b| - 1]) + b[|b| - 1] % 16 + b[|b| - 1] / 16
  }

  lemma SumTwo(x: Digits, n: nat)
    requires 2 <= n <= |x|
    ensures Sum(x[..n]) == Sum(x[..n - 2]) + x[n - 2] + x[n - 1]
  {
    assert x[..n][..n - 1] == x[..n - 1] && x[..n - 1][..n - 2] == x[..n - 2];
  }

  lemma {:induction false} DigitsSum(t: TweakHash, salt: Salt, leaf: u32, message: Message, j: nat)
    requires j <= 18
    ensures Sum(t.DigitsOf(salt, leaf, message)[..2 * j]) == NibbleSum(t.hash(t.MessageInput(salt, leaf, message))[..j])
  {
    if j > 0 {
      var x, d := t.DigitsOf(salt, leaf, message), t.hash(t.MessageInput(salt, leaf, message));
      DigitsSum(t, salt, leaf, message, j - 1);
      SumTwo(x, 2 * j);
      assert d[..j][..j - 1] == d[..j - 1];
      assert x[2 * j - 2] == Nibble(d, 2 * j - 2) && x[2 * j - 1] == Nibble(d, 2 * j - 1);
    }
  }

  /** A salt is accepted exactly when the nibbles of the first 18 digest bytes add up to 297; then digit
      2j is the low nibble of byte j, and digit 2j + 1 the high one. */
  lemma AcceptedExactly(t: TweakHash, salt: Salt, leaf: u32, message: Message)
    ensures var d := t.hash(t.MessageInput(salt, leaf, message));
            && (t.Encode(salt, leaf, message).Some? <==> NibbleSum(d[..18]) == 297)
            && match t.Encode(salt, leaf, message)
               case None => true
               case Some(x) => |x| == 36 && forall j :: 0 <= j < 18 ==> x[2 * j] == d[j] % 16 && x[2 * j + 1] == d[j] / 16
  {
    var x, d := t.DigitsOf(salt, leaf, message), t.hash(t.MessageInput(salt, leaf, message));
    DigitsSum(t, salt, leaf, message, 18);
    assert x[..36] == x;
    forall j | 0 <= j < 18
      ensures x[2 * j] == d[j] % 16 && x[2 * j + 1] == d[j] / 16
    {
      assert x[2 * j] == Nibble(d, 2 * j) && x[2 * j + 1] == Nibble(d, 2 * j + 1);
    }
  }

  /** So the accepted digit vectors are those that `layer_size` counts at 243 verifier steps. */
  lemma AcceptedInLayer(t: TweakHash, salt: Salt, leaf: u32, message: Message)
    ensures t.Encode(salt, leaf, message).Some? <==> t.DigitsOf(salt, leaf, message) in Counting.Layer(36, 16, 243)
  {
    Counting.AcceptedAreLayer(t.DigitsOf(salt, leaf, message));
  }

  // ----- instances and keys -----

  /** One leaf at height 0, and 256 leaves at height 8; 828 secret bytes a leaf. */
  lemma InstanceNumbers()
    ensures OneTime.Height() == 0 && OneTime.Leaves() == 1 && OneTime.SecretsLength() == 828
    ensures Tree.Height() == 8 && Tree.Leaves() == 256 && Tree.SecretsLength() == 211968
  {
  }

  /** The start of chain `c` of a leaf: leaf-major, chain-major. */
  function ChainStart(key: Keys.Key, leaf: nat, c: nat): Element
    requires key.Valid() && leaf < Pow2(key.height) && c < 36
  {
    key.secrets[828 * leaf + 23 * c..828 * leaf + 23 * c + 23]
  }

  lemma StartsChunk(key: Keys.Key, leaf: nat, c: nat)
    requires key.Valid() && leaf < Pow2(key.height) && c < 36
    ensures Chunk(key.Starts(leaf), c) == ChainStart(key, leaf, c)
  {
    SliceOfSlice(key.secrets, 828 * leaf, 828 * (leaf + 1), 23 * c, 23 * c + 23);
  }

  lemma SliceOfSlice(s: Bytes, a: nat, b: nat, c: nat, d: nat)
    requires a <= b <= |s| && c <= d <= b - a
    ensures s[a..b][c..d] == s[a + c..a + d]
  {
    var x, y := s[a..b][c..d], s[a + c..a + d];
    forall k | 0 <= k < d - c
      ensures x[k] == y[k]
    {
      assert x[k] == s[a..b][c + k];
    }
  }

  /** The leaf of a key hashes its 36 chains, each walked from its start to position 15. */
  lemma LeafOfKey(key: Keys.Key, leaf: u32, c: nat)
    requires key.Valid() && leaf < Pow2(key.height) && c < 36
    ensures key.Tree().TreeNode(0, leaf) == key.t.LeafHash(leaf, key.Ends(leaf))
    ensures key.Ends(leaf)[23 * c..23 * c + 23] == key.t.Walk(leaf, c, 0, 15, ChainStart(key, leaf, c))
  {
    StartsChunk(key, leaf, c);
    Leaves.WalkAllChunk(key.t, leaf, Leaves.FIRST, Leaves.LAST, key.Starts(leaf), c);
    assert key.Ends(leaf)[23 * c..23 * c + 23] == Chunk(key.Ends(leaf), c);
  }

  /** Every other node hashes its two children under its own level and index. */
  lemma NodeOfKey(key: Keys.Key, level: nat, index: u32)
    requires key.Valid() && 1 <= level <= key.height && index < Pow2(key.height - level)
    ensures 2 * index + 1 < Pow2(key.height - (level - 1))
    ensures key.Tree().TreeNode(level, index)
            == key.t.Node(level, index, key.Tree().TreeNode(level - 1, 2 * index), key.Tree().TreeNode(level - 1, 2 * index + 1))
  {
    key.Tree().NodeUnfolds(level, index);
  }

  /** The public key: 23 bytes of root, 18 of parameter. */
  lemma PublicKeyBytes(key: Keys.Key)
    requires key.Valid()
    ensures var pk := key.VerifyingKey();
            |pk| == 41 && pk[..23] == key.Tree().TreeNode(key.height, 0) && pk[23..] == key.t.parameter
  {
  }

  // ----- signatures -----

  /** Element `c` of a signature is the chain cut at its digit. */
  ghost predicate Cuts(key: Keys.Key, leaf: u32, x: Digits, elements: Bytes)
    requires key.Valid() && leaf < Pow2(key.height)
  {
    && |elements| == 828
    && forall c :: 0 <= c < 36 ==> elements[23 * c..23 * c + 23] == key.t.Walk(leaf, c, 0, x[c], ChainStart(key, leaf, c))
  }

  lemma CutAtCuts(key: Keys.Key, leaf: u32, x: Digits)
    requires key.Valid() && leaf < Pow2(key.height)
    ensures Cuts(key, leaf, x, Leaves.CutAt(key.t, leaf, x, key.Starts(leaf)))
  {
    var elements := Leaves.CutAt(key.t, leaf, x, key.Starts(leaf));
    forall c | 0 <= c < 36
      ensures elements[23 * c..23 * c + 23] == key.t.Walk(leaf, c, 0, x[c], ChainStart(key, leaf, c))
    {
      StartsChunk(key, leaf, c);
      Leaves.WalkAllChunk(key.t, leaf, Leaves.FIRST, x, key.Starts(leaf), c);
      assert elements[23 * c..23 * c + 23] == Chunk(elements, c);
    }
  }

  /** 849 bytes: salt, 36 elements. */
  lemma OneTimeSignatureBytes(key: Keys.Key, message: Message, salt: Salt)
    requires OneTime.Owns(key) && OneTime.Sign(key, 0, message, salt).Some?
    ensures var sig := OneTime.Sign(key, 0, message, salt).value;
            && |sig| == 849 && sig[..21] == salt
            && key.t.Encode(salt, 0, message).Some? && Cuts(key, 0, key.t.Encode(salt, 0, message).value, sig[21..])
  {
    var sig, x := OneTime.Sign(key, 0, message, salt).value, key.t.Encode(salt, 0, message).value;
    CutAtCuts(key, 0, x);
    assert sig[21..] == Leaves.CutAt(key.t, 0, x, key.Starts(0));
  }

  /** 1037 bytes: the leaf big-endian, salt, 36 elements, and 8 siblings from the leaf level up. */
  lemma TreeSignatureBytes(key: Keys.Key, leaf: u32, message: Message, salt: Salt)
    requires Tree.Owns(key) && Tree.Sign(key, leaf, message, salt).Some?
    ensures var sig := Tree.Sign(key, leaf, message, salt).value;
            && |sig| == 1037 && BigEndian(sig[..4], leaf) && sig[4..25] == salt && leaf < Pow2(key.height)
            && key.t.Encode(salt, leaf, message).Some? && Cuts(key, leaf, key.t.Encode(salt, leaf, message).value, sig[25..853])
            && forall l :: 0 <= l < 8 ==> sig[853 + 23 * l..853 + 23 * l + 23] == key.Tree().Path(leaf)[l]
  {
    var x := key.t.Encode(salt, leaf, message).value;
    CutAtCuts(key, leaf, x);
    AssembledBytes(leaf, salt, Leaves.CutAt(key.t, leaf, x, key.Starts(leaf)), key.Tree().Path(leaf));
  }

  lemma AssembledBytes(leaf: u32, salt: Salt, elements: Elements, path: seq<Element>)
    requires |path| == 8
    ensures var sig := Xmss.Assemble(leaf, salt, elements, path);
            && |sig| == 1037 && BigEndian(sig[..4], leaf) && sig[4..25] == salt && sig[25..853] == elements
            && forall l :: 0 <= l < 8 ==> sig[853 + 23 * l..853 + 23 * l + 23] == path[l]
  {
    var sig := Xmss.Assemble(leaf, salt, elements, path);
    assert sig[..4] == Be32(leaf) && sig[853..1037] == Flatten(path);
    forall l | 0 <= l < 8
      ensures sig[853 + 23 * l..853 + 23 * l + 23] == path[l]
    {
      FlattenChunk(path, l);
      SliceOfSlice(sig, 853, 1037, 23 * l, 23 * l + 23);
    }
  }

  /** The index beside another: the other child of the same node. */
  function Beside(n: nat): nat {
    if n % 2 == 0 then n + 1 else n - 1
  }

  lemma SiblingBeside(tree: Merkle.Tree<Element>, leaf: u32, l: nat, n: nat)
    requires tree.Valid() && leaf < Pow2(tree.height) && l < tree.height && n == Shift(leaf, l)
    ensures Beside(n) < Pow2(tree.height - l) && tree.Path(leaf)[l] == tree.TreeNode(l, Beside(n))
  {
    Merkle.SiblingInLevel(tree.height, leaf, l);
    assert tree.Path(leaf)[l] == tree.SiblingAt(leaf, l) && Beside(n) == Merkle.Sibling(n);
  }

  /** Sibling `l` of a path is the node beside the leaf's ancestor, whose index is leaf / 2^l. */
  lemma SiblingOfLeaf(key: Keys.Key, leaf: u32, l: nat, n: nat)
    requires key.Valid() && leaf < Pow2(key.height) && l < key.height && n == leaf / Pow2(l)
    ensures Beside(n) < Pow2(key.height - l) && key.Tree().Path(leaf)[l] == key.Tree().TreeNode(l, Beside(n))
  {
    ShiftDivides(leaf, l);
    SiblingBeside(key.Tree(), leaf, l, n);
  }

  /** What a verifier reads: the leaf, the salt and the elements, at these offsets. */
  lemma SignatureReads(i: Instance, sig: Bytes)
    requires |sig| == i.SignatureLength()
    ensures i.OneTime? ==> |sig| == 849 && i.LeafOf(sig) == 0 && i.SaltOf(sig) == sig[..21] && i.ElementsOf(sig) == sig[21..]
    ensures i.Tree? ==> |sig| == 1037 && BigEndian(sig[..4], i.LeafOf(sig)) && i.SaltOf(sig) == sig[4..25]
                        && i.ElementsOf(sig) == sig[25..853]
  {
    if i.Tree? {
      BigEndianReads(sig[..4]);
    }
  }

  // ----- acceptance -----

  /** The ends are the elements walked from their digits to position 15. */
  ghost predicate Finishes(t: TweakHash, leaf: u32, x: Digits, elements: Elements, ends: Elements) {
    forall c :: 0 <= c < 36 ==> ends[23 * c..23 * c + 23] == t.Walk(leaf, c, x[c], 15, elements[23 * c..23 * c + 23])
  }

  lemma FinishesExactly(t: TweakHash, leaf: u32, x: Digits, elements: Elements, ends: Elements)
    ensures Finishes(t, leaf, x, elements, ends) <==> ends == Leaves.FinishFrom(t, leaf, x, elements)
  {
    var finished := Leaves.FinishFrom(t, leaf, x, elements);
    forall c | 0 <= c < 36
      ensures finished[23 * c..23 * c + 23] == t.Walk(leaf, c, x[c], 15, elements[23 * c..23 * c + 23])
      ensures Chunk(ends, c) == ends[23 * c..23 * c + 23] && Chunk(finished, c) == finished[23 * c..23 * c + 23]
    {
      Leaves.WalkAllChunk(t, leaf, x, Leaves.LAST, elements, c);
      assert Chunk(elements, c) == elements[23 * c..23 * c + 23];
      assert Chunk(finished, c) == finished[23 * c..23 * c + 23];
    }
    if Finishes(t, leaf, x, elements, ends) {
      EqualByChunks(ends, finished, 36);
    }
  }

  /** Node `l + 1` hashes node `l` with sibling `l`, which is on the right when bit `l` of the leaf is 0. */
  ghost predicate Climbs(t: TweakHash, leaf: u32, from: nat, nodes: seq<Element>, path: seq<Element>) {
    && from + |path| < 256 && |nodes| == |path| + 1
    && forall l :: 0 <= l < |path| ==> nodes[l + 1] == Above(t, leaf, from + l, nodes[l], path[l])
  }

  function Above(t: TweakHash, leaf: u32, level: nat, current: Element, sibling: Element): Element
    requires level < 255
  {
    var up: u32 := Shift(leaf, level + 1);
    if Shift(leaf, level) % 2 == 0 then t.Node(level + 1, up, current, sibling) else t.Node(level + 1, up, sibling, current)
  }

  /** The nodes of a climb. */
  ghost function Climb(t: TweakHash, leaf: u32, from: nat, current: Element, path: seq<Element>): seq<Element>
    requires from + |path| < 256
    decreases |path|
  {
    [current] + if |path| == 0 then [] else Climb(t, leaf, from + 1, Above(t, leaf, from, current, path[0]), path[1..])
  }

  lemma ClimbsFrom(t: TweakHash, leaf: u32, from: nat, current: Element, nodes: seq<Element>, path: seq<Element>)
    requires |path| > 0 && Climbs(t, leaf, from + 1, nodes, path[1..]) && nodes[0] == Above(t, leaf, from, current, path[0])
    ensures Climbs(t, leaf, from, [current] + nodes, path)
  {
    var all := [current] + nodes;
    forall l | 0 <= l < |path|
      ensures all[l + 1] == Above(t, leaf, from + l, all[l], path[l])
    {
      if l > 0 {
        assert nodes[l - 1 + 1] == Above(t, leaf, from + 1 + (l - 1), nodes[l - 1], path[1..][l - 1]);
      }
    }
  }

  lemma {:induction false} ClimbClimbs(t: TweakHash, leaf: u32, from: nat, current: Element, path: seq<Element>)
    requires from + |path| < 256
    ensures var nodes := Climb(t, leaf, from, current, path);
            && Climbs(t, leaf, from, nodes, path) && nodes[0] == current
            && nodes[|path|] == Merkle.Fold(t.Node, leaf, from, current, path)
    decreases |path|
  {
    if |path| > 0 {
      var above := Above(t, leaf, from, current, path[0]);
      ClimbClimbs(t, leaf, from + 1, above, path[1..]);
      ClimbsFrom(t, leaf, from, current, Climb(t, leaf, from + 1, above, path[1..]), path);
    }
  }

  lemma {:induction false} ClimbsFold(t: TweakHash, leaf: u32, from: nat, nodes: seq<Element>, path: seq<Element>)
    requires Climbs(t, leaf, from, nodes, path)
    ensures nodes[|path|] == Merkle.Fold(t.Node, leaf, from, nodes[0], path)
    decreases |path|
  {
    if |path| > 0 {
      assert nodes[1] == Above(t, leaf, from + 0, nodes[0], path[0]);
      ClimbsFold(t, leaf, from + 1, nodes[1..], path[1..]);
    }
  }

  /** The siblings of a signature. */
  ghost function Siblings(i: Instance, sig: Bytes): seq<Element>
    requires |sig| == i.SignatureLength()
  {
    if i.OneTime? then [] else seq(8, l requires 0 <= l < 8 => sig[853 + 23 * l..853 + 23 * l + 23])
  }

  lemma SiblingsRead(sig: Bytes)
    requires |sig| == Tree.SignatureLength()
    ensures Siblings(Tree, sig) == Xmss.PathOf(sig, 8)
  {
    var path, read := Siblings(Tree, sig), Xmss.PathOf(sig, 8);
    forall l | 0 <= l < 8
      ensures path[l] == read[l]
    {
      assert read[l] == Chunk(sig[853..], l);
      assert Chunk(sig[853..], l) == sig[853 + 23 * l..853 + 23 * l + 23];
    }
  }

  /** Some ends and nodes lead from the signature to the root in the public key. */
  ghost predicate LeadsTo(i: Instance, t: TweakHash, x: Digits, sig: Bytes, root: Element)
    requires |sig| == i.SignatureLength()
  {
    var leaf, path := i.LeafOf(sig), Siblings(i, sig);
    exists ends, nodes :: Finishes(t, leaf, x, i.ElementsOf(sig), ends) && Climbs(t, leaf, 0, nodes, path)
                          && nodes[0] == t.LeafHash(leaf, ends) && nodes[|path|] == root
  }

  /** What verification decides, for any bytes under any public key: the leaf exists, the nibbles add up
      to 297, and the chains and the path lead to the root. */
  lemma VerifiesExactly(i: Instance, hash: Hash, pk: PublicKey, message: Message, sig: Bytes)
    requires |sig| == i.SignatureLength()
    ensures var t, leaf := TweakHash(hash, pk[23..]), i.LeafOf(sig);
            i.Verify(hash, pk, message, sig) <==>
              && leaf < i.Leaves()
              && NibbleSum(hash(t.MessageInput(i.SaltOf(sig), leaf, message))[..18]) == 297
              && LeadsTo(i, t, t.DigitsOf(i.SaltOf(sig), leaf, message), sig, pk[..23])
  {
    var t, leaf := TweakHash(hash, pk[23..]), i.LeafOf(sig);
    var x := t.DigitsOf(i.SaltOf(sig), leaf, message);
    AcceptedExactly(t, i.SaltOf(sig), leaf, message);
    LeadsExactly(i, t, x, sig, pk[..23]);
    if i.Tree? {
      Pow2Eight();
    }
  }

  lemma LeadsExactly(i: Instance, t: TweakHash, x: Digits, sig: Bytes, root: Element)
    requires |sig| == i.SignatureLength()
    ensures LeadsTo(i, t, x, sig, root) <==>
              root == if i.OneTime? then t.LeafHash(0, Leaves.FinishFrom(t, 0, x, sig[21..])) else Xmss.Climb(t, 8, x, sig)
  {
    var leaf, path := i.LeafOf(sig), Siblings(i, sig);
    var ends := Leaves.FinishFrom(t, leaf, x, i.ElementsOf(sig));
    FinishesExactly(t, leaf, x, i.ElementsOf(sig), ends);
    ClimbClimbs(t, leaf, 0, t.LeafHash(leaf, ends), path);
    if i.Tree? {
      SiblingsRead(sig);
    }
    if ends', nodes :| Finishes(t, leaf, x, i.ElementsOf(sig), ends') && Climbs(t, leaf, 0, nodes, path)
                       && nodes[0] == t.LeafHash(leaf, ends') && nodes[|path|] == root {
      FinishesExactly(t, leaf, x, i.ElementsOf(sig), ends');
      ClimbsFold(t, leaf, 0, nodes, path);
    }
  }

  // ----- key records -----

  ghost predicate AllZero(b: Bytes) {
    forall k :: 0 <= k < |b| ==> b[k] == 0
  }

  /** 78 bytes of header, then the chain starts: version 2, height, parameter, the next leaf big-endian,
      flag, message, salt; without a message, zeros. */
  lemma RecordBytes(i: Instance, r: Record)
    ensures var b := Print(i, r);
            && |b| == 78 + |r.secrets| && b[0] == 2 && b[1] == i.Height() && b[2..20] == r.parameter
            && BigEndian(b[20..24], r.nextLeaf) && b[78..] == r.secrets
            && match r.lastMessage
               case Some(m) => b[24] == 1 && b[25..57] == m && b[57..78] == r.lastSalt
               case None => b[24] == 0 && AllZero(b[25..78])
  {
    PrintFields(i, r);
    if r.lastMessage.None? {
      assert Print(i, r)[25..78] == Zeros(53);
    }
  }

  /** What `open` accepts, in full. */
  ghost predicate Opens(i: Instance, hash: Hash, b: Bytes) {
    && |b| == 78 + 828 * i.Leaves() && b[0] == 2 && b[1] == i.Height()
    && var next := FromBe32(b[20..24]);
       && next <= i.Leaves()
       && ((b[24] == 0 && AllZero(b[25..78]))
           || (b[24] == 1 && next > 0 && NibbleSum(hash(TweakHash(hash, b[2..20]).MessageInput(b[57..78], next - 1, b[25..57]))[..18]) == 297))
  }

  /** A file is accepted exactly when it has the right length, version, height and flag, a next leaf in
      range, and either no message and zeros, or a spent leaf and a salt whose digits meet the target. */
  lemma OpensExactly(i: Instance, hash: Hash, b: Bytes)
    ensures Parse(i, hash, b).Some? <==> Opens(i, hash, b)
    ensures Parse(i, hash, b).Some? ==>
              var r := Parse(i, hash, b).value;
              && r.parameter == b[2..20] && BigEndian(b[20..24], r.nextLeaf) && r.secrets == b[78..] && r.lastSalt == b[57..78]
              && r.lastMessage == if b[24] == 1 then Some(b[25..57]) else None
  {
    if |b| == 78 + 828 * i.Leaves() {
      BigEndianReads(b[20..24]);
      AllZeroIsZeros(b[25..78]);
      var next := FromBe32(b[20..24]);
      if next > 0 {
        AcceptedExactly(TweakHash(hash, b[2..20]), b[57..78], next - 1, b[25..57]);
      }
    }
  }

  lemma AllZeroIsZeros(b: Bytes)
    ensures AllZero(b) <==> b == Zeros(|b|)
  {
  }
}
