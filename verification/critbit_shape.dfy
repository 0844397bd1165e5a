/** The linked representation of the crit-bit tree: nodes, tagged pointers, and the relation
    between the heap and the tree value it represents. */
module CritBitShape {
  import opened Bytes
  import opened CritBitBits
  import opened CritBitTrie

  /** A child or root pointer: the low bit of the address tells nodes from strings. */
  datatype Ptr = Null | Str(s: cstring) | Ref(node: CbNode)

  class CbNode {
    var child: seq<Ptr>
    const byteIndex: nat
    const otherbits: nat

    constructor (byteIndex: nat, otherbits: nat)
      ensures this.byteIndex == byteIndex && this.otherbits == otherbits && child == [Null, Null]
    {
      this.byteIndex, this.otherbits := byteIndex, otherbits;
      child := [Null, Null];
    }
  }

  /** Where a pointer is stored: in the tree itself or in a node. */
  datatype Slot = Root | ChildOf(node: CbNode, direction: nat)

  /** A tree value that remembers which node is where. */
  datatype Shape = SLeaf(s: cstring) | SInner(node: CbNode, pos: nat, left: Shape, right: Shape)

  ghost function Nodes(t: Shape): set<CbNode> {
    match t
    case SLeaf(_) => {}
    case SInner(n, _, l, r) => {n} + Nodes(l) + Nodes(r)
  }

  ghost function ToTrie(t: Shape): Trie {
    match t
    case SLeaf(s) => Leaf(s)
    case SInner(_, p, l, r) => Inner(p, ToTrie(l), ToTrie(r))
  }

  ghost function SChild(t: Shape, bit: nat): Shape
    requires t.SInner?
  {
    if bit == 0 then t.left else t.right
  }

  /** No node occurs twice. */
  ghost predicate Separate(t: Shape) {
    t.SInner? ==> t.node !in Nodes(t.left) && t.node !in Nodes(t.right) && Nodes(t.left) !! Nodes(t.right)
                  && Separate(t.left) && Separate(t.right)
  }

  ghost predicate Labelled(n: CbNode, pos: nat) {
    n.byteIndex == pos / 8 && n.otherbits == OtherBits(pos)
  }

  /** In the current heap, `p` points to a tree of this shape. */
  ghost predicate Linked(p: Ptr, t: Shape)
    reads Nodes(t)
    decreases t
  {
    match t
    case SLeaf(s) => p == Str(s)
    case SInner(n, pos, l, r) =>
      p == Ref(n) && Labelled(n, pos) && |n.child| == 2 && Linked(n.child[0], l) && Linked(n.child[1], r)
  }

  // ---------- a tree with a hole ----------

  /** The part of a tree around one of its subtrees, innermost node first. */
  datatype Context = Top | Below(node: CbNode, pos: nat, direction: nat, sibling: Shape, up: Context)

  ghost function Fill(c: Context, t: Shape): Shape
    decreases c
  {
    match c
    case Top => t
    case Below(n, p, d, s, up) => Fill(up, if d == 0 then SInner(n, p, t, s) else SInner(n, p, s, t))
  }

  ghost function FillTrie(c: Context, t: Trie): Trie
    decreases c
  {
    match c
    case Top => t
    case Below(_, p, d, s, up) => FillTrie(up, if d == 0 then Inner(p, t, ToTrie(s)) else Inner(p, ToTrie(s), t))
  }

  lemma {:induction false} FillErases(c: Context, t: Shape)
    ensures ToTrie(Fill(c, t)) == FillTrie(c, ToTrie(t))
    decreases c
  {
    if c.Below? {
      FillErases(c.up,
                 if c.direction == 0 then SInner(c.node, c.pos, t, c.sibling) else SInner(c.node, c.pos, c.sibling, t));
    }
  }

  ghost function ContextNodes(c: Context): set<CbNode> {
    match c
    case Top => {}
    case Below(n, _, _, s, up) => {n} + Nodes(s) + ContextNodes(up)
  }

  ghost predicate ContextSeparate(c: Context) {
    c.Below? ==>
      c.node !in Nodes(c.sibling) && c.node !in ContextNodes(c.up) && Nodes(c.sibling) !! ContextNodes(c.up)
      && Separate(c.sibling) && ContextSeparate(c.up)
  }

  lemma {:induction false} FillSeparates(c: Context, t: Shape)
    requires ContextSeparate(c) && Separate(t) && ContextNodes(c) !! Nodes(t)
    ensures Separate(Fill(c, t)) && Nodes(Fill(c, t)) == ContextNodes(c) + Nodes(t)
    decreases c
  {
    if c.Below? {
      FillSeparates(
        c.up, if c.direction == 0 then SInner(c.node, c.pos, t, c.sibling) else SInner(c.node, c.pos, c.sibling, t));
    }
  }

  /** The slot of the hole holds `p`, and everything around the hole is linked up to the root. */
  ghost predicate ContextLinked(c: Context, root: Ptr, p: Ptr)
    reads ContextNodes(c)
    decreases c
  {
    match c
    case Top => root == p
    case Below(n, pos, d, s, up) =>
      Labelled(n, pos) && d <= 1 && |n.child| == 2 && n.child[d] == p && Linked(n.child[1 - d], s)
      && ContextLinked(up, root, Ref(n))
  }

  lemma {:induction false} FillLinks(c: Context, t: Shape, root: Ptr, p: Ptr)
    requires ContextLinked(c, root, p) && Linked(p, t)
    ensures Linked(root, Fill(c, t))
    decreases c
  {
    if c.Below? {
      FillLinks(c.up,
                if c.direction == 0 then SInner(c.node, c.pos, t, c.sibling) else SInner(c.node, c.pos, c.sibling, t),
                root, Ref(c.node));
    }
  }

  ghost predicate SlotIs(c: Context, slot: Slot) {
    match c
    case Top => slot == Root
    case Below(n, _, d, _, _) => slot == ChildOf(n, d)
  }

  /** Going down to one child: the rest of the tree becomes context. */
  ghost function Descend(c: Context, t: Shape, bit: nat): Context
    requires t.SInner?
  {
    Below(t.node, t.pos, bit, SChild(t, 1 - (if bit == 0 then 0 else 1)), c)
  }

  // ---------- insertion and deletion seen from inside ----------

  /** Insertion at the root is insertion below, put back in its context. */
  ghost predicate InsertsWithin(whole: Trie, c: Context, t: Shape, newpos: nat, u: cstring) {
    Insert(whole, newpos, u) == FillTrie(c, Insert(ToTrie(t), newpos, u))
  }

  ghost function FillOption(c: Context, t: Option<Trie>): Option<Trie> {
    match t
    case Some(u) => Some(FillTrie(c, u))
    case None => match c
                 case Top => None
                 case Below(_, _, _, s, up) => Some(FillTrie(up, ToTrie(s)))
  }

  ghost predicate DeletesWithin(whole: Trie, c: Context, t: Shape, u: cstring) {
    Delete(whole, u) == FillOption(c, Delete(ToTrie(t), u))
  }

  // ---------- one step down ----------

  lemma DescendLinks(c: Context, t: Shape, root: Ptr, p: Ptr, d: nat)
    requires t.SInner? && d <= 1 && Linked(p, t) && ContextLinked(c, root, p)
    requires ContextSeparate(c) && Separate(t) && ContextNodes(c) !! Nodes(t)
    ensures p == Ref(t.node) && Labelled(t.node, t.pos) && |t.node.child| == 2
    ensures var q, c', t' := t.node.child[d], Descend(c, t, d), SChild(t, d);
            Linked(q, t') && ContextLinked(c', root, q) && SlotIs(c', ChildOf(t.node, d))
            && ContextSeparate(c') && Separate(t') && ContextNodes(c') !! Nodes(t')
            && ContextNodes(c') + Nodes(t') == ContextNodes(c) + Nodes(t)
  {
  }

  lemma DescendInserts(whole: Trie, c: Context, t: Shape, newpos: nat, u: cstring)
    requires t.SInner? && t.pos <= newpos && InsertsWithin(whole, c, t, newpos, u)
    ensures InsertsWithin(whole, Descend(c, t, BitAt(u, t.pos)), SChild(t, BitAt(u, t.pos)), newpos, u)
  {
  }

  lemma DescendDeletes(whole: Trie, c: Context, t: Shape, u: cstring)
    requires t.SInner? && DeletesWithin(whole, c, t, u)
    ensures DeletesWithin(whole, Descend(c, t, BitAt(u, t.pos)), SChild(t, BitAt(u, t.pos)), u)
  {
  }
}
