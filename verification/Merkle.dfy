/**
 The Merkle tree over any leaves and any node hash: recursive definition, flat level-major layout,
 in-place construction, path extraction and path folding.
 */
module Merkle {
  import opened Bytes

  /** Tallest tree whose leaf indices are u32 with room to spare; the source uses 0 and 8. */
  const MAX_HEIGHT: nat := 31

  lemma Pow2U32(k: nat)
    requires k <= MAX_HEIGHT
    ensures Pow2(k) <= 0x8000_0000
  {
    Pow2Monotone(k, MAX_HEIGHT);
    Pow2Eight();
    Pow2Adds(8, 8);
    Pow2Adds(16, 8);
    assert Pow2(7) == 128;
    Pow2Adds(24, 7);
  }

  /** `a ^ 1`. */
  function Sibling(a: nat): nat {
    if a % 2 == 0 then a + 1 else a - 1
  }

  // ----- where level `l` of a tree of height `h` lives in the flat array -----

  /** `2 * LEAVES - (2 << (HEIGHT - l))`. */
  function Level(h: nat, l: nat): nat
    requires l <= h
  {
    Pow2Monotone(h - l, h);
    2 * Pow2(h) - 2 * Pow2(h - l)
  }

  lemma LevelsTouch(h: nat, l: nat)
    requires l < h
    ensures Level(h, l + 1) == Level(h, l) + Pow2(h - l)
  {
  }

  /** Each slot's level and index: the inverse of `Level(l) + i`. */
  function SlotFrom(h: nat, l: nat, slot: nat): (nat, nat)
    requires l <= h && Level(h, l) <= slot
    decreases h - l
  {
    if l == h || slot < Level(h, l) + Pow2(h - l) then (l, slot - Level(h, l))
    else SlotFrom(h, l + 1, slot)
  }

  function Slot(h: nat, slot: nat): (nat, nat) {
    SlotFrom(h, 0, slot)
  }

  lemma {:induction false} SlotFromInverts(h: nat, from: nat, l: nat, i: nat)
    requires from <= l <= h && i < Pow2(h - l)
    ensures Level(h, from) <= Level(h, l) && SlotFrom(h, from, Level(h, l) + i) == (l, i)
    decreases l - from
  {
    if from < l {
      SlotFromInverts(h, from + 1, l, i);
      LevelsTouch(h, from);
    }
  }

  lemma {:induction false} SlotFromInRange(h: nat, from: nat, slot: nat)
    requires from <= h && Level(h, from) <= slot < 2 * Pow2(h) - 1
    ensures var (l, i) := SlotFrom(h, from, slot);
            from <= l <= h && i < Pow2(h - l) && slot == Level(h, l) + i
    decreases h - from
  {
    if from < h && slot >= Level(h, from) + Pow2(h - from) {
      SlotFromInRange(h, from + 1, slot);
    }
  }

  /** The levels partition the `2 * LEAVES - 1` slots: every node has one slot... */
  lemma NodeHasOneSlot(h: nat, l: nat, i: nat)
    requires l <= h && i < Pow2(h - l)
    ensures Level(h, l) + i < 2 * Pow2(h) - 1 && Slot(h, Level(h, l) + i) == (l, i)
  {
    SlotFromInverts(h, 0, l, i);
  }

  /** ... and every slot is one node's. */
  lemma SlotHasOneNode(h: nat, slot: nat)
    requires slot < 2 * Pow2(h) - 1
    ensures var (l, i) := Slot(h, slot);
            l <= h && i < Pow2(h - l) && slot == Level(h, l) + i
  {
    SlotFromInRange(h, 0, slot);
  }

  // ----- folding an authentication path -----

  /** The node hash: level, index in the level, left and right child. */
  type NodeHash<!E> = (byte, u32, E, E) -> E

  /** One verifier step: hash the current node with a sibling, on the side its index bit says. */
  function Parent<E>(node: NodeHash<E>, leaf: u32, level: nat, current: E, sibling: E): E
    requires level < 255
  {
    var index: u32 := Shift(leaf, level + 1);
    if Shift(leaf, level) % 2 == 0 then node(level + 1, index, current, sibling)
    else node(level + 1, index, sibling, current)
  }

  /** The children that step hashes, left and right. */
  function Children<E>(leaf: u32, level: nat, current: E, sibling: E): (E, E) {
    if Shift(leaf, level) % 2 == 0 then (current, sibling) else (sibling, current)
  }

  /** The rest of the climb from `level`, over the remaining siblings. */
  function Fold<E>(node: NodeHash<E>, leaf: u32, level: nat, current: E, path: seq<E>): E
    requires level + |path| <= 255
    decreases |path|
  {
    if |path| == 0 then current
    else Fold(node, leaf, level + 1, Parent(node, leaf, level, current, path[0]), path[1..])
  }

  lemma {:induction false} FoldLast<E>(node: NodeHash<E>, leaf: u32, level: nat, current: E, path: seq<E>)
    requires 0 < |path| && level + |path| <= 255
    ensures var n := |path| - 1;
            Fold(node, leaf, level, current, path)
            == Parent(node, leaf, level + n, Fold(node, leaf, level, current, path[..n]), path[n])
    decreases |path|
  {
    var n := |path| - 1;
    if n > 0 {
      FoldLast(node, leaf, level + 1, Parent(node, leaf, level, current, path[0]), path[1..]);
      assert path[1..][..n - 1] == path[..n][1..];
    } else {
      assert path[..n] == [];
    }
  }

  /** Siblings stay inside their level. */
  lemma SiblingInLevel(height: nat, leaf: nat, level: nat)
    requires leaf < Pow2(height) && level < height
    ensures Sibling(Shift(leaf, level)) < Pow2(height - level)
    ensures Shift(leaf, level) < Pow2(height - level)
  {
    ShiftBound(leaf, height - level, level);
    assert Pow2(height - level) == 2 * Pow2(height - level - 1);
  }

  /** An index is one child of its half; its sibling is the other. */
  lemma HalfAndSibling(index: nat, up: nat)
    requires up == index / 2
    ensures if index % 2 == 0 then index == 2 * up && Sibling(index) == 2 * up + 1
            else index == 2 * up + 1 && Sibling(index) == 2 * up
  {
  }

  // ----- the tree -----

  datatype Tree<!E(!new)> = Tree(height: nat, leaves: seq<E>, node: NodeHash<E>) {

    ghost predicate Valid() {
      height <= MAX_HEIGHT && |leaves| == Pow2(height)
    }

    /** The recursive Merkle tree. */
    function TreeNode(level: nat, index: nat): E
      requires Valid() && level <= height && index < Pow2(height - level)
      decreases level
    {
      Pow2U32(height - level);
      if level == 0 then leaves[index]
      else node(level, index, TreeNode(level - 1, 2 * index), TreeNode(level - 1, 2 * index + 1))
    }

    /** The children of an inner node. */
    function Left(level: nat, index: u32): E
      requires Valid() && 1 <= level <= height && index < Pow2(height - level)
    {
      TreeNode(level - 1, 2 * index)
    }

    function Right(level: nat, index: u32): E
      requires Valid() && 1 <= level <= height && index < Pow2(height - level)
    {
      TreeNode(level - 1, 2 * index + 1)
    }

    function Root(): E
      requires Valid()
    {
      TreeNode(height, 0)
    }

    /** The whole flat array, level-major: leaves first, root last. */
    function Nodes(): (r: seq<E>)
      requires Valid()
      ensures |r| == 2 * Pow2(height) - 1
    {
      seq(2 * Pow2(height) - 1, slot requires 0 <= slot < 2 * Pow2(height) - 1 => SlotNode(slot))
    }

    function SlotNode(slot: nat): E
      requires Valid() && slot < 2 * Pow2(height) - 1
    {
      SlotHasOneNode(height, slot);
      var (l, i) := Slot(height, slot);
      TreeNode(l, i)
    }

    /** `nodes[level(l) + i]` is the recursive node (l, i). */
    lemma NodesAtLevel(l: nat, i: nat)
      requires Valid() && l <= height && i < Pow2(height - l)
      ensures Level(height, l) + i < |Nodes()| && Nodes()[Level(height, l) + i] == TreeNode(l, i)
    {
      NodeHasOneSlot(height, l, i);
      assert Nodes()[Level(height, l) + i] == SlotNode(Level(height, l) + i);
    }

    /** The node above a leaf at a level: the recursive node (level, leaf >> level). */
    function Ancestor(leaf: u32, level: nat): E
      requires Valid() && leaf < Pow2(height) && level <= height
    {
      ShiftBound(leaf, height - level, level);
      TreeNode(level, Shift(leaf, level))
    }

    /** The honest sibling at a level: `(leaf >> level) ^ 1`. */
    function SiblingAt(leaf: u32, level: nat): E
      requires Valid() && leaf < Pow2(height) && level < height
    {
      SiblingInLevel(height, leaf, level);
      TreeNode(level, Sibling(Shift(leaf, level)))
    }

    /** The honest authentication path. */
    function Path(leaf: u32): (r: seq<E>)
      requires Valid() && leaf < Pow2(height)
      ensures |r| == height
      ensures forall l :: 0 <= l < height ==> r[l] == SiblingAt(leaf, l)
    {
      seq(height, l requires 0 <= l < height => SiblingAt(leaf, l))
    }

    /** Path extraction: slot `level(l) + ((leaf >> l) ^ 1)` holds the sibling at level `l`. */
    lemma SiblingSlot(leaf: u32, l: nat)
      requires Valid() && leaf < Pow2(height) && l < height
      ensures var slot := Level(height, l) + Sibling(Shift(leaf, l));
              slot < |Nodes()| && Nodes()[slot] == SiblingAt(leaf, l)
    {
      SiblingInLevel(height, leaf, l);
      NodesAtLevel(l, Sibling(Shift(leaf, l)));
    }

    lemma NodeUnfolds(level: nat, index: u32)
      requires Valid() && 1 <= level <= height && index < Pow2(height - level)
      ensures TreeNode(level, index) == node(level, index, Left(level, index), Right(level, index))
    {
    }

    /** The honest node above, from its children. */
    lemma AncestorUnfolds(leaf: u32, level: nat)
      requires Valid() && leaf < Pow2(height) && level < height
      ensures var up := Shift(leaf, level + 1);
              && up < Pow2(height - (level + 1))
              && Ancestor(leaf, level + 1) == node(level + 1, up, Left(level + 1, up), Right(level + 1, up))
    {
      ShiftBound(leaf, height - (level + 1), level + 1);
      NodeUnfolds(level + 1, Shift(leaf, level + 1));
    }

    /** An honest node and its sibling are the two children of the honest node above, on the sides the
        index bit says. */
    lemma ParentOf(leaf: u32, level: nat)
      requires Valid() && leaf < Pow2(height) && level < height
      requires Shift(leaf, level + 1) < Pow2(height - (level + 1))
      ensures var up := Shift(leaf, level + 1);
              if Shift(leaf, level) % 2 == 0
              then Ancestor(leaf, level) == Left(level + 1, up) && SiblingAt(leaf, level) == Right(level + 1, up)
              else Ancestor(leaf, level) == Right(level + 1, up) && SiblingAt(leaf, level) == Left(level + 1, up)
    {
      SiblingInLevel(height, leaf, level);
      HalfAndSibling(Shift(leaf, level), Shift(leaf, level + 1));
    }

    /** Climbing one level from an honest node with its honest sibling gives the honest parent. */
    lemma ParentHonest(leaf: u32, level: nat)
      requires Valid() && leaf < Pow2(height) && level < height
      ensures Parent(node, leaf, level, Ancestor(leaf, level), SiblingAt(leaf, level)) == Ancestor(leaf, level + 1)
    {
      AncestorUnfolds(leaf, level);
      ParentOf(leaf, level);
    }

    lemma RootIsAncestor(leaf: u32)
      requires Valid() && leaf < Pow2(height)
      ensures Ancestor(leaf, height) == Root()
    {
      ShiftBound(leaf, 0, height);
      assert Shift(leaf, height) == 0;
    }

    /** Path folding meets path extraction: from every level, for every leaf, the honest path folds
        the honest node to the root. */
    lemma {:induction false} FoldHonest(leaf: u32, level: nat)
      requires Valid() && leaf < Pow2(height) && level <= height
      ensures Fold(node, leaf, level, Ancestor(leaf, level), Path(leaf)[level..]) == Root()
      decreases height - level
    {
      if level < height {
        ParentHonest(leaf, level);
        FoldHonest(leaf, level + 1);
        assert Path(leaf)[level..][1..] == Path(leaf)[level + 1..];
      } else {
        RootIsAncestor(leaf);
      }
    }

    /** After each step of the verifier's climb over the honest path, the running node is the
        recursive node (level, leaf >> level). */
    lemma {:induction false} ClimbHonest(leaf: u32, level: nat)
      requires Valid() && leaf < Pow2(height) && level <= height
      ensures Fold(node, leaf, 0, leaves[leaf], Path(leaf)[..level]) == Ancestor(leaf, level)
    {
      if level > 0 {
        ClimbHonest(leaf, level - 1);
        ParentHonest(leaf, level - 1);
        var taken := Path(leaf)[..level];
        FoldLast(node, leaf, 0, leaves[leaf], taken);
        assert taken[..level - 1] == Path(leaf)[..level - 1];
      }
    }

    /** Other children than the honest ones, hashed under the same node tweak to the same node. */
    ghost predicate NodeSecondPreimage(level: nat, index: u32, left: E, right: E)
      requires Valid()
    {
      && 1 <= level <= height && index < Pow2(height - level)
      && (left != Left(level, index) || right != Right(level, index))
      && node(level, index, left, right) == node(level, index, Left(level, index), Right(level, index))
    }

    /** The step from `level` over these two has the honest parent's tweak and value, not its children. */
    ghost predicate StepMeets(leaf: u32, level: nat, current: E, sibling: E)
      requires Valid()
    {
      var (left, right) := Children(leaf, level, current, sibling);
      level < height && NodeSecondPreimage(level + 1, Shift(leaf, level + 1), left, right)
    }

    /** A node and sibling that climb to the honest parent are the honest ones, or second preimages. */
    lemma ParentExact(leaf: u32, level: nat, current: E, sibling: E)
      requires Valid() && leaf < Pow2(height) && level < height
      requires Parent(node, leaf, level, current, sibling) == Ancestor(leaf, level + 1)
      ensures (current == Ancestor(leaf, level) && sibling == SiblingAt(leaf, level)) || StepMeets(leaf, level, current, sibling)
    {
      AncestorUnfolds(leaf, level);
      ParentOf(leaf, level);
    }

    /** Folding this path meets the honest tree in the step from level `l`. */
    ghost predicate FoldMeets(leaf: u32, level: nat, current: E, path: seq<E>, l: nat)
      requires Valid() && |path| == height - level
    {
      level <= l < height && StepMeets(leaf, l, Fold(node, leaf, level, current, path[..l - level]), path[l - level])
    }

    lemma FoldMeetsLater(leaf: u32, level: nat, current: E, path: seq<E>, l: nat)
      requires Valid() && level < height && |path| == height - level
      requires FoldMeets(leaf, level + 1, Parent(node, leaf, level, current, path[0]), path[1..], l)
      ensures FoldMeets(leaf, level, current, path, l)
    {
      var taken := path[..l - level];
      assert taken[1..] == path[1..][..l - (level + 1)] && taken[0] == path[0];
    }

    lemma FoldExactStep(leaf: u32, level: nat, current: E, path: seq<E>)
      requires Valid() && leaf < Pow2(height) && level < height && |path| == height - level
      requires Parent(node, leaf, level, current, path[0]) == Ancestor(leaf, level + 1) && path[1..] == Path(leaf)[level + 1..]
      ensures (current == Ancestor(leaf, level) && path == Path(leaf)[level..]) || FoldMeets(leaf, level, current, path, level)
    {
      ParentExact(leaf, level, current, path[0]);
      if StepMeets(leaf, level, current, path[0]) {
        assert path[..level - level] == [];
      } else {
        assert path == [path[0]] + path[1..];
        assert Path(leaf)[level..] == [SiblingAt(leaf, level)] + Path(leaf)[level + 1..];
      }
    }

    /** A path that folds to the root is the honest path under the honest node, or folding it contains a
        second preimage. */
    lemma {:induction false} FoldExact(leaf: u32, level: nat, current: E, path: seq<E>)
      requires Valid() && leaf < Pow2(height) && level <= height && |path| == height - level
      requires Fold(node, leaf, level, current, path) == Root()
      ensures || (current == Ancestor(leaf, level) && path == Path(leaf)[level..])
              || exists l :: FoldMeets(leaf, level, current, path, l)
      decreases height - level
    {
      if level < height {
        var parent := Parent(node, leaf, level, current, path[0]);
        var next, rest := level + 1, path[1..];
        FoldExact(leaf, next, parent, rest);
        if l :| FoldMeets(leaf, next, parent, rest, l) {
          FoldMeetsLater(leaf, level, current, path, l);
        } else {
          FoldExactStep(leaf, level, current, path);
        }
      } else {
        RootIsAncestor(leaf);
      }
    }
  }

  // ----- the in-place builder -----

  /** The slot arithmetic of one inner node: its children are in earlier slots. */
  lemma ChildSlots(h: nat, l: nat, i: nat)
    requires h <= MAX_HEIGHT && 1 <= l <= h && i < Pow2(h - l)
    ensures 2 * i + 1 < Pow2(h - (l - 1)) && i < 0x8000_0000
    ensures var child, slot := Level(h, l - 1) + 2 * i, Level(h, l) + i;
            && child + 1 < slot < 2 * Pow2(h) - 1
            && Slot(h, slot) == (l, i) && Slot(h, child) == (l - 1, 2 * i) && Slot(h, child + 1) == (l - 1, 2 * i + 1)
  {
    Pow2U32(h - l);
    var k := h - l;
    assert Pow2(k + 1) == 2 * Pow2(k);
    LevelsTouch(h, l - 1);
    NodeHasOneSlot(h, l, i);
    NodeHasOneSlot(h, l - 1, 2 * i);
    NodeHasOneSlot(h, l - 1, 2 * i + 1);
  }

  lemma LeftInNodes<E(!new)>(tree: Tree<E>, l: nat, i: u32)
    requires tree.Valid() && 1 <= l <= tree.height && i < Pow2(tree.height - l)
    ensures var child := Level(tree.height, l - 1) + 2 * i;
            child < |tree.Nodes()| && tree.Nodes()[child] == tree.Left(l, i)
  {
    tree.NodesAtLevel(l - 1, 2 * i);
  }

  lemma RightInNodes<E(!new)>(tree: Tree<E>, l: nat, i: u32)
    requires tree.Valid() && 1 <= l <= tree.height && i < Pow2(tree.height - l)
    ensures var child := Level(tree.height, l - 1) + 2 * i + 1;
            child < |tree.Nodes()| && tree.Nodes()[child] == tree.Right(l, i)
  {
    tree.NodesAtLevel(l - 1, 2 * i + 1);
  }

  lemma NodeFromChildren<E(!new)>(tree: Tree<E>, l: nat, i: u32)
    requires tree.Valid() && 1 <= l <= tree.height && i < Pow2(tree.height - l)
    ensures var child, slot := Level(tree.height, l - 1) + 2 * i, Level(tree.height, l) + i;
            && child + 1 < slot < |tree.Nodes()|
            && tree.Nodes()[slot] == tree.node(l, i, tree.Nodes()[child], tree.Nodes()[child + 1])
  {
    ChildSlots(tree.height, l, i);
    LeftInNodes(tree, l, i);
    RightInNodes(tree, l, i);
    tree.NodesAtLevel(l, i);
    tree.NodeUnfolds(l, i);
  }

  /** The slots `from`, `from + 1`, ..., `to - 1`. */
  function Slots(from: nat, to: nat): seq<nat>
    requires from <= to
  {
    seq(to - from, k requires 0 <= k < to - from => from + k)
  }

  lemma SlotsJoin(a: nat, b: nat, c: nat)
    requires a <= b <= c
    ensures Slots(a, b) + Slots(b, c) == Slots(a, c)
  {
  }

  /** Fill the inner levels of the flat array, whose first slots hold the leaves. The slots written are
      `LEAVES, LEAVES + 1, ..., 2 * LEAVES - 2` in this order: each once, and (`ChildSlots`) after both
      of its children. */
  method FillLevels<E(!new)>(node: NodeHash<E>, h: nat, nodes: array<E>, ghost tree: Tree<E>) returns (ghost written: seq<nat>)
    requires tree.Valid() && tree.height == h && tree.node == node && nodes.Length == 2 * Pow2(h) - 1
    requires nodes[..Pow2(h)] == tree.leaves
    modifies nodes
    ensures nodes[..] == tree.Nodes()
    ensures written == Slots(Pow2(h), 2 * Pow2(h) - 1)
  {
    LeavesFirst(tree);
    LevelEnds(h);
    written := [];
    for l := 1 to h + 1
      invariant Pow2(h) <= LevelEnd(h, l - 1) <= nodes.Length
      invariant nodes[..LevelEnd(h, l - 1)] == tree.Nodes()[..LevelEnd(h, l - 1)]
      invariant written == Slots(Pow2(h), LevelEnd(h, l - 1))
    {
      ghost var level := FillTreeLevel(node, h, nodes, l, tree);
      SlotsJoin(Pow2(h), LevelEnd(h, l - 1), LevelEnd(h, l));
      written := written + level;
    }
    assert nodes[..nodes.Length] == nodes[..] && tree.Nodes()[..nodes.Length] == tree.Nodes();
  }

  method FillTreeLevel<E(!new)>(node: NodeHash<E>, h: nat, nodes: array<E>, l: nat, ghost tree: Tree<E>)
    returns (ghost written: seq<nat>)
    requires tree.Valid() && tree.height == h && tree.node == node && nodes.Length == 2 * Pow2(h) - 1 && 1 <= l <= h
    requires LevelEnd(h, l - 1) <= nodes.Length
    requires nodes[..LevelEnd(h, l - 1)] == tree.Nodes()[..LevelEnd(h, l - 1)]
    modifies nodes
    ensures LevelEnd(h, l - 1) <= LevelEnd(h, l) <= nodes.Length
    ensures nodes[..LevelEnd(h, l)] == tree.Nodes()[..LevelEnd(h, l)]
    ensures written == Slots(LevelEnd(h, l - 1), LevelEnd(h, l))
  {
    LevelFromBelow(tree, l);
    assert LevelEnd(h, l) == Level(h, l) + Pow2(h - l);
    written := FillLevel(node, nodes, l, Level(h, l - 1), Level(h, l), Pow2(h - l), tree.Nodes());
  }

  /** One past the last slot of a level: the first slot of the next. */
  function LevelEnd(h: nat, l: nat): nat
    requires l <= h
  {
    Level(h, l) + Pow2(h - l)
  }

  /** The leaves end the first level, the root the last, and every level lies between. */
  lemma LevelEnds(h: nat)
    ensures LevelEnd(h, 0) == Pow2(h) && LevelEnd(h, h) == 2 * Pow2(h) - 1
    ensures forall l :: 0 <= l <= h ==> Pow2(h) <= LevelEnd(h, l)
  {
    forall l | 0 <= l <= h
      ensures Pow2(h) <= LevelEnd(h, l)
    {
      Pow2Monotone(h - l, h);
    }
  }

  /** Every slot of a level is the node hash of the two slots below it. */
  ghost predicate FromBelow<E(!new)>(node: NodeHash<E>, s: seq<E>, l: byte, below: nat, start: nat, i: nat) {
    && i < 0x8000_0000 && below + 2 * i + 1 < start + i < |s|
    && s[start + i] == node(l, i, s[below + 2 * i], s[below + 2 * i + 1])
  }

  ghost predicate AllFromBelow<E(!new)>(node: NodeHash<E>, s: seq<E>, l: byte, below: nat, start: nat, count: nat) {
    forall i :: 0 <= i < count ==> FromBelow(node, s, l, below, start, i)
  }

  lemma LevelFromBelow<E(!new)>(tree: Tree<E>, l: nat)
    requires tree.Valid() && 1 <= l <= tree.height
    ensures var h := tree.height;
            && LevelEnd(h, l - 1) == Level(h, l)
            && LevelEnd(h, l) <= 2 * Pow2(h) - 1 && Pow2(h - l) <= 0x8000_0000
            && AllFromBelow(tree.node, tree.Nodes(), l, Level(h, l - 1), Level(h, l), Pow2(h - l))
  {
    var h := tree.height;
    LevelsTouch(h, l - 1);
    Pow2U32(h - l);
    var below, start, node, nodes := Level(h, l - 1), Level(h, l), tree.node, tree.Nodes();
    forall i: nat | i < Pow2(h - l)
      ensures FromBelow(node, nodes, l, below, start, i)
    {
      NodeFromChildren(tree, l, i);
    }
  }

  method FillLevel<E(!new)>(node: NodeHash<E>, nodes: array<E>, l: byte, below: nat, start: nat, count: nat,
                            ghost expected: seq<E>)
    returns (ghost written: seq<nat>)
    requires start + count <= nodes.Length == |expected| && count <= 0x8000_0000
    requires AllFromBelow(node, expected, l, below, start, count)
    requires nodes[..start] == expected[..start]
    modifies nodes
    ensures nodes[..start + count] == expected[..start + count]
    ensures written == Slots(start, start + count)
  {
    written := [];
    for i := 0 to count
      invariant nodes[..start + i] == expected[..start + i]
      invariant written == Slots(start, start + i)
    {
      assert FromBelow(node, expected, l, below, start, i);
      var child := below + 2 * i;
      assert nodes[child] == nodes[..start + i][child] && nodes[child + 1] == nodes[..start + i][child + 1];
      nodes[start + i] := node(l, i, nodes[child], nodes[child + 1]);
      written := written + [start + i];
      assert nodes[..start + i + 1] == nodes[..start + i] + [nodes[start + i]];
    }
  }

  /** Copy one cached sibling per level, leaf level first. */
  method ExtractPath<E(!new)>(h: nat, nodes: seq<E>, leaf: u32, slots: array<E>, ghost tree: Tree<E>)
    requires tree.Valid() && tree.height == h && nodes == tree.Nodes() && leaf < Pow2(h) && slots.Length == h
    modifies slots
    ensures slots[..] == tree.Path(leaf)
  {
    ghost var path := tree.Path(leaf);
    for l := 0 to h
      invariant forall k :: 0 <= k < l ==> slots[k] == path[k]
    {
      tree.SiblingSlot(leaf, l);
      slots[l] := nodes[Level(h, l) + Sibling(Shift(leaf, l))];
    }
  }

  lemma LeavesFirst<E(!new)>(tree: Tree<E>)
    requires tree.Valid()
    ensures tree.Nodes()[..Pow2(tree.height)] == tree.leaves
  {
    forall s | 0 <= s < Pow2(tree.height)
      ensures tree.Nodes()[s] == tree.leaves[s]
    {
      tree.NodesAtLevel(0, s);
    }
  }
}
