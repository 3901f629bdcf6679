/** The tree the incremental structure stands for: the full binary tree over the
    inserted leaves, padded on the right with the zero leaf. */
module MerkleReference {
  import opened IntMath

  datatype Scheme<!H(!new)> = Scheme(hash: (H, H) -> H, zeroLeaf: H) {
    /** The root of an empty subtree. */
    function Zero(level: nat): H {
      if level == 0 then zeroLeaf else hash(Zero(level - 1), Zero(level - 1))
    }

    /** The node at a level (0 for the leaves) and an index within it. */
    function Node(leaves: seq<H>, level: nat, index: nat): H {
      if level == 0 then if index < |leaves| then leaves[index] else zeroLeaf
      else hash(Node(leaves, level - 1, 2 * index), Node(leaves, level - 1, 2 * index + 1))
    }

    function Root(leaves: seq<H>, levels: nat): H {
      Node(leaves, levels, 0)
    }
  }

  /** index >> level: the ancestor of a leaf at a level. */
  function Ancestor(index: nat, level: nat): nat {
    if level == 0 then index else Ancestor(index, level - 1) / 2
  }

  function EvenBelow(index: nat): nat {
    index - index % 2
  }

  lemma {:induction false} AncestorOfNext(n: nat, level: nat)
    ensures Ancestor(n, level) <= Ancestor(n + 1, level) <= Ancestor(n, level) + 1
  {
    if level > 0 {
      AncestorOfNext(n, level - 1);
    }
  }

  lemma {:induction false} AncestorIsMonotone(m: nat, n: nat, level: nat)
    requires m <= n
    ensures Ancestor(m, level) <= Ancestor(n, level)
  {
    if level > 0 {
      AncestorIsMonotone(m, n, level - 1);
    }
  }

  /** Appending a leaf changes no node outside the leaf's path. */
  lemma {:induction false} NodeOffPath<H(!new)>(t: Scheme<H>, leaves: seq<H>, leaf: H, level: nat, index: nat)
    requires Ancestor(|leaves|, level) != index
    ensures t.Node(leaves + [leaf], level, index) == t.Node(leaves, level, index)
  {
    if level > 0 {
      NodeOffPath(t, leaves, leaf, level - 1, 2 * index);
      NodeOffPath(t, leaves, leaf, level - 1, 2 * index + 1);
    }
  }

  /** A subtree to the right of the last leaf is empty. */
  lemma {:induction false} NodeBeyondLast<H(!new)>(t: Scheme<H>, leaves: seq<H>, level: nat, index: nat)
    requires leaves == [] || Ancestor(|leaves| - 1, level) < index
    ensures t.Node(leaves, level, index) == t.Zero(level)
  {
    if level > 0 {
      NodeBeyondLast(t, leaves, level - 1, 2 * index);
      NodeBeyondLast(t, leaves, level - 1, 2 * index + 1);
    }
  }

  /** Every leaf of a tree with 2^levels leaves hangs under the root. */
  lemma {:induction false} RootIsAncestor(index: nat, level: nat, levels: nat)
    requires level <= levels && index < Pow2(levels)
    ensures Ancestor(index, level) < Pow2(levels - level)
  {
    if level > 0 {
      RootIsAncestor(index, level - 1, levels);
    }
  }

  // ----- authentication paths -----

  function Sibling(index: nat): nat {
    if index % 2 == 0 then index + 1 else index - 1
  }

  /** Hash a value up along a path: bit 0 puts it on the left of its sibling. */
  function Fold<H(!new)>(t: Scheme<H>, value: H, siblings: seq<H>, bits: seq<nat>): H
    requires |siblings| == |bits|
  {
    if siblings == [] then value else
      var parent := if bits[0] == 0 then t.hash(value, siblings[0]) else t.hash(siblings[0], value);
      Fold(t, parent, siblings[1..], bits[1..])
  }

  /** The path of reference nodes beside a leaf, from a level upward. */
  ghost predicate IsPath<H(!new)>(t: Scheme<H>, leaves: seq<H>, index: nat, level: nat, siblings: seq<H>, bits: seq<nat>) {
    && |siblings| == |bits|
    && forall i :: 0 <= i < |siblings| ==>
        siblings[i] == t.Node(leaves, level + i, Sibling(Ancestor(index, level + i))) && bits[i] == Ancestor(index, level + i) % 2
  }

  lemma {:induction false} PathFoldsToAncestor<H(!new)>(t: Scheme<H>, leaves: seq<H>, index: nat, level: nat, siblings: seq<H>, bits: seq<nat>)
    requires IsPath(t, leaves, index, level, siblings, bits)
    ensures Fold(t, t.Node(leaves, level, Ancestor(index, level)), siblings, bits)
      == t.Node(leaves, level + |siblings|, Ancestor(index, level + |siblings|))
    decreases |siblings|
  {
    if siblings != [] {
      var a := Ancestor(index, level);
      assert t.Node(leaves, level + 1, a / 2) == t.hash(t.Node(leaves, level, 2 * (a / 2)), t.Node(leaves, level, 2 * (a / 2) + 1));
      assert siblings[0] == t.Node(leaves, level + 0, Sibling(Ancestor(index, level + 0)));
      forall i | 0 <= i < |siblings[1..]|
        ensures siblings[1..][i] == t.Node(leaves, level + 1 + i, Sibling(Ancestor(index, level + 1 + i)))
        ensures bits[1..][i] == Ancestor(index, level + 1 + i) % 2
      {
        assert siblings[1..][i] == siblings[i + 1] && level + (i + 1) == level + 1 + i;
      }
      PathFoldsToAncestor(t, leaves, index, level + 1, siblings[1..], bits[1..]);
    }
  }
}
