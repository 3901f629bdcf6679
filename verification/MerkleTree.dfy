/** The append-only Merkle tree: a frontier of left siblings, a map of all stored
    nodes and a ring of recent roots. */
module MerkleTree {
  import opened IntMath
  import opened Results
  import opened MerkleReference

  const ROOT_HISTORY_SIZE: nat := 30

  class MerkleStorage<H> {
    var nodes: map<(nat, nat), H>

    constructor ()
      ensures nodes == map[]
    {
      nodes := map[];
    }

    method Insert(level: nat, index: nat, hash: H)
      modifies this
      ensures nodes == old(nodes)[(level, index) := hash]
    {
      nodes := nodes[(level, index) := hash];
    }

    method Get(level: nat, index: nat) returns (hash: Option<H>)
      ensures hash == if (level, index) in nodes then Some(nodes[(level, index)]) else None
    {
      hash := if (level, index) in nodes then Some(nodes[(level, index)]) else None;
    }
  }

  datatype MerkleProof<H> = MerkleProof(root: H, pathElements: seq<H>, pathIndices: seq<nat>)

  // ----- what each part of the state stands for -----

  /** The left sibling remembered at a level: the node at the last even index visited. */
  ghost predicate IsFrontier<H(!new)>(t: Scheme<H>, leaves: seq<H>, level: nat, value: H) {
    value == if leaves == [] then t.Zero(level) else t.Node(leaves, level, EvenBelow(Ancestor(|leaves| - 1, level)))
  }

  /** A stored node exists exactly when its subtree holds a leaf, and has the reference value. */
  ghost predicate IsLevel<H(!new)>(t: Scheme<H>, leaves: seq<H>, level: nat, nodes: map<(nat, nat), H>) {
    && (forall k: nat :: (level, k) in nodes <==> leaves != [] && k <= Ancestor(|leaves| - 1, level))
    && (forall k: nat :: (level, k) in nodes ==> nodes[(level, k)] == t.Node(leaves, level, k))
  }

  /** Storage level `l` while an insertion has rewritten the levels below `i`. */
  ghost predicate LevelDuring<H(!new)>(t: Scheme<H>, leaves: seq<H>, leaf: H, i: nat, l: nat, nodes: map<(nat, nat), H>) {
    IsLevel(t, if l < i then leaves + [leaf] else leaves, l, nodes)
  }

  ghost predicate LevelsDuring<H(!new)>(t: Scheme<H>, leaves: seq<H>, leaf: H, levels: nat, i: nat, nodes: map<(nat, nat), H>) {
    forall l: nat :: l <= levels ==> LevelDuring(t, leaves, leaf, i, l, nodes)
  }

  /** The same for the frontier. */
  ghost predicate FrontierDuring<H(!new)>(t: Scheme<H>, leaves: seq<H>, leaf: H, i: nat, l: nat, value: H) {
    IsFrontier(t, if l < i then leaves + [leaf] else leaves, l, value)
  }

  /** The number of leaves at the latest state that wrote ring slot j (negative if none did). */
  function SlotState(n: nat, j: nat): int {
    n - (n - j) % 30
  }

  ghost predicate IsSlot<H(!new)>(t: Scheme<H>, leaves: seq<H>, levels: nat, blank: H, j: nat, value: H) {
    var s := SlotState(|leaves|, j);
    value == if 0 <= s <= |leaves| then t.Root(leaves[..s], levels) else blank
  }

  // ----- one level of an insertion -----

  lemma FrontierIsLeftSibling<H(!new)>(t: Scheme<H>, leaves: seq<H>, leaf: H, level: nat, value: H)
    requires IsFrontier(t, leaves, level, value)
    requires Ancestor(|leaves|, level) % 2 == 1
    ensures value == t.Node(leaves + [leaf], level, Ancestor(|leaves|, level) - 1)
    ensures IsFrontier(t, leaves + [leaf], level, value)
  {
    var a := Ancestor(|leaves|, level);
    if leaves == [] {
      AncestorOfZero(level);
    }
    AncestorOfNext(|leaves| - 1, level);
    NodeOffPath(t, leaves, leaf, level, a - 1);
  }

  lemma {:induction false} AncestorOfZero(level: nat)
    ensures Ancestor(0, level) == 0
  {
    if level > 0 {
      AncestorOfZero(level - 1);
    }
  }

  lemma RightSiblingIsZero<H(!new)>(t: Scheme<H>, leaves: seq<H>, leaf: H, level: nat)
    ensures t.Node(leaves + [leaf], level, Ancestor(|leaves|, level) + 1) == t.Zero(level)
  {
    NodeBeyondLast(t, leaves + [leaf], level, Ancestor(|leaves|, level) + 1);
  }

  /** Writing the node on the leaf's path brings a whole level up to date. */
  lemma LevelAfterPathNode<H(!new)>(t: Scheme<H>, leaves: seq<H>, leaf: H, level: nat, nodes: map<(nat, nat), H>, value: H)
    requires IsLevel(t, leaves, level, nodes)
    requires value == t.Node(leaves + [leaf], level, Ancestor(|leaves|, level))
    ensures IsLevel(t, leaves + [leaf], level, nodes[(level, Ancestor(|leaves|, level)) := value])
  {
    var a := Ancestor(|leaves|, level);
    var nodes' := nodes[(level, a) := value];
    if leaves == [] {
      AncestorOfZero(level);
    } else {
      AncestorOfNext(|leaves| - 1, level);
    }
    assert |leaves + [leaf]| - 1 == |leaves|;
    forall k: nat
      ensures (level, k) in nodes' <==> k <= a
    {
      assert (level, k) in nodes' <==> (level, k) in nodes || k == a;
    }
    forall k | (level, k) in nodes'
      ensures nodes'[(level, k)] == t.Node(leaves + [leaf], level, k)
    {
      if k != a {
        NodeOffPath(t, leaves, leaf, level, k);
      }
    }
  }

  /** Rewriting a stored node with its reference value changes nothing. */
  lemma RewriteKeepsLevel<H(!new)>(t: Scheme<H>, leaves: seq<H>, level: nat, nodes: map<(nat, nat), H>, k: nat, value: H)
    requires IsLevel(t, leaves, level, nodes) && leaves != [] && k <= Ancestor(|leaves| - 1, level)
    requires value == t.Node(leaves, level, k)
    ensures nodes[(level, k) := value] == nodes
  {
    assert (level, k) in nodes;
  }

  lemma OtherLevelsKeep<H(!new)>(t: Scheme<H>, leaves: seq<H>, level: nat, nodes: map<(nat, nat), H>, l: nat, k: nat, value: H)
    requires IsLevel(t, leaves, level, nodes) && l != level
    ensures IsLevel(t, leaves, level, nodes[(l, k) := value])
  {
  }

  lemma LevelsAfterPathNode<H(!new)>(
      t: Scheme<H>, leaves: seq<H>, leaf: H, levels: nat, i: nat, nodes: map<(nat, nat), H>, value: H)
    requires i <= levels && LevelsDuring(t, leaves, leaf, levels, i, nodes)
    requires value == t.Node(leaves + [leaf], i, Ancestor(|leaves|, i))
    ensures LevelsDuring(t, leaves, leaf, levels, i + 1, nodes[(i, Ancestor(|leaves|, i)) := value])
  {
    var nodes', done := nodes[(i, Ancestor(|leaves|, i)) := value], i + 1;
    forall l: nat | l <= levels
      ensures LevelDuring(t, leaves, leaf, done, l, nodes')
    {
      assert LevelDuring(t, leaves, leaf, i, l, nodes);
      if l == i {
        LevelAfterPathNode(t, leaves, leaf, i, nodes, value);
      } else {
        OtherLevelsKeep(t, if l < i then leaves + [leaf] else leaves, l, nodes, i, Ancestor(|leaves|, i), value);
      }
    }
  }

  // ----- the ring of roots -----

  lemma SlotsAfterInsert<H(!new)>(t: Scheme<H>, leaves: seq<H>, leaf: H, levels: nat, blank: H, j: nat, value: H)
    requires j < ROOT_HISTORY_SIZE && IsSlot(t, leaves, levels, blank, j, value)
    ensures j != (|leaves| + 1) % ROOT_HISTORY_SIZE ==> IsSlot(t, leaves + [leaf], levels, blank, j, value)
  {
    var n, s := |leaves|, SlotState(|leaves|, j);
    NextSlotState(n, j);
    if 0 <= s <= n {
      assert (leaves + [leaf])[..s] == leaves[..s];
    }
  }

  lemma NextSlotState(n: nat, j: nat)
    requires j < ROOT_HISTORY_SIZE
    ensures j != (n + 1) % ROOT_HISTORY_SIZE ==> SlotState(n + 1, j) == SlotState(n, j)
    ensures j == (n + 1) % ROOT_HISTORY_SIZE ==> SlotState(n + 1, j) == n + 1
    ensures SlotState(n, j) <= n
  {
  }

  lemma WrittenSlot<H(!new)>(t: Scheme<H>, leaves: seq<H>, levels: nat, blank: H, value: H)
    requires leaves != [] && value == t.Root(leaves, levels)
    ensures IsSlot(t, leaves, levels, blank, |leaves| % ROOT_HISTORY_SIZE, value)
  {
    var n := |leaves|;
    NextSlotState(n - 1, n % ROOT_HISTORY_SIZE);
    assert leaves[..n] == leaves;
  }

  // ----- the tree -----

  /** The table of zero subtree hashes, one per level, root level included. */
  method ZeroTable<H(!new)>(t: Scheme<H>, levels: nat) returns (zeros: seq<H>)
    ensures |zeros| == levels + 1
    ensures forall i :: 0 <= i <= levels ==> zeros[i] == t.Zero(i)
  {
    var current := t.zeroLeaf;
    zeros := [current];
    for i := 0 to levels
      invariant |zeros| == i + 1 && current == t.Zero(i)
      invariant forall k :: 0 <= k <= i ==> zeros[k] == t.Zero(k)
    {
      current := t.hash(current, current);
      zeros := zeros + [current];
    }
  }

  class IncrementalMerkleTree<H(!new,==)> {
    const levels: nat
    const scheme: Scheme<H>
    const blank: H  // the all-zero value that fills unused ring slots
    const zeros: seq<H>
    const filledSubtrees: array<H>
    const roots: array<H>
    const storage: MerkleStorage<H>

    var nextIndex: nat
    var currentRootIndex: nat

    ghost var leaves: seq<H>  // the leaves inserted so far, in order

    ghost predicate Shape()
      reads this
    {
      && |zeros| == levels + 1 && (forall i :: 0 <= i <= levels ==> zeros[i] == scheme.Zero(i))
      && filledSubtrees.Length == levels && filledSubtrees != roots
    }

    ghost predicate Ring(leaves: seq<H>)
      reads roots
    {
      && roots.Length == 30
      && forall j: nat :: j < 30 ==> IsSlot(scheme, leaves, levels, blank, j, roots[j])
    }

    ghost predicate Valid()
      reads this, filledSubtrees, roots, storage
    {
      && Shape()
      && nextIndex == |leaves| <= Pow2(levels)
      && currentRootIndex == |leaves| % ROOT_HISTORY_SIZE
      && (forall i: nat :: i < levels ==> IsFrontier(scheme, leaves, i, filledSubtrees[i]))
      && (forall l: nat :: l <= levels ==> IsLevel(scheme, leaves, l, storage.nodes))
      && Ring(leaves)
    }

    constructor (levels: nat, scheme: Scheme<H>, blank: H)
      ensures Valid() && fresh(filledSubtrees) && fresh(roots) && fresh(storage)
      ensures leaves == [] && this.levels == levels && this.scheme == scheme && this.blank == blank
    {
      var zeros := ZeroTable(scheme, levels);
      var filled := new H[levels](i requires 0 <= i < levels => zeros[i]);
      var ring := new H[ROOT_HISTORY_SIZE](_ => blank);
      ring[0] := zeros[levels];
      this.levels, this.scheme, this.blank, this.zeros := levels, scheme, blank, zeros;
      filledSubtrees, roots := filled, ring;
      storage := new MerkleStorage<H>();
      nextIndex, currentRootIndex := 0, 0;
      leaves := [];
      new;
      hide IsSlot;
      forall j: nat | j < 30
        ensures IsSlot(scheme, leaves, levels, blank, j, roots[j])
      {
        EmptySlot(scheme, levels, blank, j, roots[j]);
      }
    }

    /** get_zero: a table lookup, out of bounds above the root level. */
    method GetZero(level: nat) returns (res: Result<H>)
      requires Shape()
      ensures res == if level <= levels then Ok(scheme.Zero(level)) else Err(Panic)
    {
      if level >= |zeros| {
        return Err(Panic);
      }
      return Ok(zeros[level]);
    }

    /** root() */
    method Root() returns (root: H)
      requires Valid()
      ensures root == scheme.Root(leaves, levels)
    {
      root := roots[currentRootIndex];
      var n := |leaves|;
      assert IsSlot(scheme, leaves, levels, blank, currentRootIndex, roots[currentRootIndex]);
      assert SlotState(n, n % ROOT_HISTORY_SIZE) == n;
      assert leaves[..n] == leaves;
    }

    /** The tree while an insertion of `leaf` has finished the levels below `i`. */
    ghost predicate PartlyInserted(leaf: H, i: nat)
      reads this, filledSubtrees, storage
    {
      && Shape() && i <= levels && nextIndex == |leaves|
      && (forall k: nat :: k < levels ==> FrontierDuring(scheme, leaves, leaf, i, k, filledSubtrees[k]))
      && LevelsDuring(scheme, leaves, leaf, levels, i + 1, storage.nodes)
    }

    /** The pair of nodes hashed at level i: the left one becomes the frontier when it is new. */
    method Children(leaf: H, i: nat, currentIndex: nat, currentHash: H) returns (left: H, right: H)
      requires i < levels && PartlyInserted(leaf, i)
      requires currentIndex == Ancestor(nextIndex, i)
      requires currentHash == scheme.Node(leaves + [leaf], i, currentIndex)
      modifies filledSubtrees
      ensures forall k: nat :: k < levels ==> FrontierDuring(scheme, leaves, leaf, i + 1, k, filledSubtrees[k])
      ensures left == scheme.Node(leaves + [leaf], i, EvenBelow(currentIndex))
      ensures right == scheme.Node(leaves + [leaf], i, EvenBelow(currentIndex) + 1)
    {
      var zero := GetZero(i);
      assert FrontierDuring(scheme, leaves, leaf, i, i, filledSubtrees[i]);
      assert |leaves + [leaf]| - 1 == nextIndex;
      if currentIndex % 2 == 0 {
        filledSubtrees[i] := currentHash;
        left, right := currentHash, zero.value;
        RightSiblingIsZero(scheme, leaves, leaf, i);
      } else {
        FrontierIsLeftSibling(scheme, leaves, leaf, i, filledSubtrees[i]);
        left, right := filledSubtrees[i], currentHash;
      }
      forall k: nat | k < levels
        ensures FrontierDuring(scheme, leaves, leaf, i + 1, k, filledSubtrees[k])
      {
        assert FrontierDuring(scheme, leaves, leaf, i, k, old(filledSubtrees[k]));
      }
    }

    /** One lap of the loop of insert. */
    method InsertLevel(leaf: H, i: nat, currentIndex: nat, currentHash: H) returns (parentHash: H)
      requires i < levels && PartlyInserted(leaf, i)
      requires currentIndex == Ancestor(nextIndex, i)
      requires currentHash == scheme.Node(leaves + [leaf], i, currentIndex)
      modifies filledSubtrees, storage
      ensures PartlyInserted(leaf, i + 1)
      ensures parentHash == scheme.Node(leaves + [leaf], i + 1, currentIndex / 2)
    {
      ghost var next := leaves + [leaf];
      assert |next| - 1 == nextIndex;
      var left, right := Children(leaf, i, currentIndex, currentHash);
      var even := EvenBelow(Ancestor(nextIndex, i));
      assert LevelDuring(scheme, leaves, leaf, i + 1, i, storage.nodes);
      RewriteKeepsLevel(scheme, next, i, storage.nodes, even, left);
      storage.Insert(i, even, left);
      if currentIndex % 2 == 1 {
        RewriteKeepsLevel(scheme, next, i, storage.nodes, even + 1, right);
        storage.Insert(i, even + 1, right);
      }
      assert storage.nodes == old(storage.nodes);
      parentHash := scheme.hash(left, right);
      LevelsAfterPathNode(scheme, leaves, leaf, levels, i + 1, storage.nodes, parentHash);
      storage.Insert(i + 1, Ancestor(nextIndex, i + 1), parentHash);
    }

    /** Entering the loop of insert: the leaf itself is stored. */
    method StoreLeaf(leaf: H)
      requires Valid()
      modifies storage
      ensures PartlyInserted(leaf, 0)
    {
      forall l: nat | l <= levels
        ensures LevelDuring(scheme, leaves, leaf, 0, l, storage.nodes)
      {
        assert IsLevel(scheme, leaves, l, storage.nodes);
      }
      forall k: nat | k < levels
        ensures FrontierDuring(scheme, leaves, leaf, 0, k, filledSubtrees[k])
      {
        assert IsFrontier(scheme, leaves, k, filledSubtrees[k]);
      }
      LevelsAfterPathNode(scheme, leaves, leaf, levels, 0, storage.nodes, leaf);
      storage.Insert(0, nextIndex, leaf);
    }

    /** Leaving the loop of insert: the new root goes into the next ring slot. */
    method PushRoot(leaf: H, root: H)
      requires Ring(leaves) && currentRootIndex == |leaves| % ROOT_HISTORY_SIZE
      requires root == scheme.Root(leaves + [leaf], levels)
      modifies this`currentRootIndex, roots
      ensures Ring(leaves + [leaf]) && currentRootIndex == |leaves + [leaf]| % ROOT_HISTORY_SIZE
    {
      hide IsSlot, SlotState, Scheme.Root;
      ghost var next := leaves + [leaf];
      currentRootIndex := (currentRootIndex + 1) % ROOT_HISTORY_SIZE;
      roots[currentRootIndex] := root;
      WrittenSlot(scheme, next, levels, blank, root);
      forall j: nat | j < ROOT_HISTORY_SIZE
        ensures IsSlot(scheme, next, levels, blank, j, roots[j])
      {
        assert IsSlot(scheme, leaves, levels, blank, j, old(roots[j]));
        SlotsAfterInsert(scheme, leaves, leaf, levels, blank, j, old(roots[j]));
      }
    }

    /** insert(leaf): appends the leaf and returns the new reference root; a full tree panics. */
    method Insert(leaf: H) returns (res: Result<H>)
      requires Valid()
      modifies this, filledSubtrees, roots, storage
      ensures Valid()
      ensures res.Ok? <==> |old(leaves)| < Pow2(levels)
      ensures res.Ok? ==> leaves == old(leaves) + [leaf] && res.value == scheme.Root(leaves, levels)
      ensures res.Err? ==> res.failure == Panic && leaves == old(leaves)
    {
      if nextIndex >= Pow2(levels) {
        return Err(Panic);
      }
      var currentIndex, currentHash := nextIndex, leaf;
      ghost var before := leaves;
      StoreLeaf(leaf);
      for i := 0 to levels
        invariant PartlyInserted(leaf, i) && leaves == before && Ring(before)
        invariant nextIndex == old(nextIndex) && currentRootIndex == old(currentRootIndex)
        invariant currentIndex == Ancestor(nextIndex, i)
        invariant currentHash == scheme.Node(leaves + [leaf], i, currentIndex)
      {
        currentHash := InsertLevel(leaf, i, currentIndex, currentHash);
        currentIndex := currentIndex / 2;
      }
      RootIsAncestor(nextIndex, levels, levels);
      PushRoot(leaf, currentHash);
      FinishedInsertion(leaf);
      nextIndex := nextIndex + 1;
      leaves := leaves + [leaf];
      return Ok(currentHash);
    }

    lemma FinishedInsertion(leaf: H)
      requires PartlyInserted(leaf, levels)
      ensures forall k: nat :: k < levels ==> IsFrontier(scheme, leaves + [leaf], k, filledSubtrees[k])
      ensures forall l: nat :: l <= levels ==> IsLevel(scheme, leaves + [leaf], l, storage.nodes)
    {
      forall k: nat | k < levels
        ensures IsFrontier(scheme, leaves + [leaf], k, filledSubtrees[k])
      {
        assert FrontierDuring(scheme, leaves, leaf, levels, k, filledSubtrees[k]);
      }
      forall l: nat | l <= levels
        ensures IsLevel(scheme, leaves + [leaf], l, storage.nodes)
      {
        assert LevelDuring(scheme, leaves, leaf, levels + 1, l, storage.nodes);
      }
    }

    ghost predicate IsRecentRoot(root: H)
      reads this
    {
      exists s :: 0 <= s <= |leaves| < s + 30 && root == scheme.Root(leaves[..s], levels)
    }

    /** is_known_root(r): r is not the all-zero value and is the root of one of the
        last min(30, n + 1) states of the tree. */
    method IsKnownRoot(root: H) returns (known: bool)
      requires Valid()
      ensures known <==> root != blank && IsRecentRoot(root)
    {
      if root == blank {
        return false;
      }
      known := exists j :: 0 <= j < roots.Length && roots[j] == root;
      if known {
        ghost var j: nat :| j < roots.Length && roots[j] == root;
        assert IsSlot(scheme, leaves, levels, blank, j, roots[j]);
        assert 0 <= SlotState(|leaves|, j) <= |leaves| < SlotState(|leaves|, j) + ROOT_HISTORY_SIZE;
      }
      forall s | 0 <= s <= |leaves| < s + ROOT_HISTORY_SIZE
        ensures scheme.Root(leaves[..s], levels) == roots[s % ROOT_HISTORY_SIZE]
      {
        assert IsSlot(scheme, leaves, levels, blank, s % ROOT_HISTORY_SIZE, roots[s % ROOT_HISTORY_SIZE]);
        SlotOfRecentState(|leaves|, s);
      }
    }

    /** get_proof(index): fails exactly on an index not yet inserted; otherwise the path
        holds the reference siblings, stored or not, and folds the leaf to the current root. */
    method GetProof(index: nat) returns (res: Result<MerkleProof<H>>)
      requires Valid()
      ensures res.Ok? <==> index < |leaves|
      ensures res.Err? ==> res.failure == Panic
      ensures res.Ok? ==>
        var p := res.value;
        && p.root == scheme.Root(leaves, levels) && |p.pathElements| == |p.pathIndices| == levels
        && IsPath(scheme, leaves, index, 0, p.pathElements, p.pathIndices)
        && Fold(scheme, leaves[index], p.pathElements, p.pathIndices) == p.root
    {
      if index >= nextIndex {
        return Err(Panic);
      }
      var pathElements, pathIndices := [], [];
      var curr := index;
      for i := 0 to levels
        invariant curr == Ancestor(index, i) && |pathElements| == i
        invariant IsPath(scheme, leaves, index, 0, pathElements, pathIndices)
      {
        pathIndices := pathIndices + [curr % 2];
        var stored := storage.Get(i, Sibling(curr));
        var zero := GetZero(i);
        var sibling := if stored.Some? then stored.value else zero.value;
        assert IsLevel(scheme, leaves, i, storage.nodes);
        AbsentMeansZero(scheme, leaves, i, storage.nodes, Sibling(curr));
        pathElements := pathElements + [sibling];
        curr := curr / 2;
      }
      var root := Root();
      RootIsAncestor(index, levels, levels);
      PathFoldsToAncestor(scheme, leaves, index, 0, pathElements, pathIndices);
      return Ok(MerkleProof(root, pathElements, pathIndices));
    }
  }

  lemma SlotOfRecentState(n: nat, s: nat)
    requires s <= n < s + ROOT_HISTORY_SIZE
    ensures SlotState(n, s % ROOT_HISTORY_SIZE) == s
  {
  }

  lemma AbsentMeansZero<H(!new)>(t: Scheme<H>, leaves: seq<H>, level: nat, nodes: map<(nat, nat), H>, k: nat)
    requires IsLevel(t, leaves, level, nodes)
    ensures t.Node(leaves, level, k) == if (level, k) in nodes then nodes[(level, k)] else t.Zero(level)
  {
    if (level, k) !in nodes {
      NodeBeyondLast(t, leaves, level, k);
    }
  }

  /** Before the first insertion only slot 0 holds a root. */
  lemma EmptySlot<H(!new)>(t: Scheme<H>, levels: nat, blank: H, j: nat, value: H)
    requires j < 30 && value == if j == 0 then t.Zero(levels) else blank
    ensures IsSlot(t, [], levels, blank, j, value)
  {
    EmptyRoot(t, levels);
    var leaves: seq<H> := [];
    assert leaves[..0] == [];
  }

  lemma EmptyRoot<H(!new)>(t: Scheme<H>, levels: nat)
    ensures t.Root([], levels) == t.Zero(levels)
  {
    NodeBeyondLast(t, [], levels, 0);
  }
}
