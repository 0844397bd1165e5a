/** The crit-bit tree in the heap: a set of strings updated by splicing pointers. */
module CritBit {
  import opened Bits
  import opened Bytes
  import opened CritBitBits
  import opened CritBitOrder
  import opened CritBitShape
  import opened CritBitTrie

  /** Finds the first difference of a string from the leaf it leads to: the byte, the label of
      the critical bit, and (for the proof) the bit position. */
  method CriticalBit(p: cstring, str: cstring)
    returns (different: bool, newbyte: nat, newotherbits: nat, ghost pos: nat)
    ensures different <==> p != str
    ensures different ==> newbyte == pos / 8 && newotherbits == OtherBits(pos) && newbyte <= |p|
    ensures different ==> Agree(str, p, pos) && BitAt(str, pos) != BitAt(p, pos)
  {
    newbyte, newotherbits, pos := 0, 0, 0;
    var x := 0;
    while newbyte < |str|
      invariant newbyte <= |str| && newbyte <= |p| && p[..newbyte] == str[..newbyte]
    {
      // reads at most the terminating NUL of `p`
      if ByteAt(p, newbyte) != str[newbyte] {
        x := Xor(ByteAt(p, newbyte), str[newbyte]);
        break;
      }
      assert p[..newbyte + 1] == p[..newbyte] + [p[newbyte]];
      assert str[..newbyte + 1] == str[..newbyte] + [str[newbyte]];
      newbyte := newbyte + 1;
    }
    if newbyte == |str| {
      if ByteAt(p, newbyte) == 0 {
        assert p == p[..newbyte] && str == str[..newbyte];
        return false, newbyte, 0, 0;
      }
      x := ByteAt(p, newbyte);
      XorZero(x);
    }
    different := true;
    newotherbits := IsolateOthers(x);
    pos := FirstBit(p, str, newbyte);
  }

  lemma {:induction false} XorZero(x: nat)
    ensures Xor(x, 0) == x
    decreases x
  {
    if x > 0 {
      XorZero(x / 2);
    }
  }

  lemma {:induction false} XorBelow(w: nat, a: nat, b: nat)
    requires a < Pow2(w) && b < Pow2(w)
    ensures Xor(a, b) < Pow2(w)
    decreases w
  {
    if w > 0 {
      XorBelow(w - 1, a / 2, b / 2);
    }
  }

  /** The highest differing bit of the first differing byte is the first differing position. */
  lemma FirstBit(p: cstring, str: cstring, i: nat) returns (pos: nat)
    requires i <= |p| && i <= |str| && p[..i] == str[..i] && ByteAt(p, i) != ByteAt(str, i)
    ensures 0 < Xor(ByteAt(p, i), ByteAt(str, i)) < 256
    ensures i == pos / 8 && IsolateOthers(Xor(ByteAt(p, i), ByteAt(str, i))) == OtherBits(pos)
    ensures Agree(str, p, pos) && BitAt(str, pos) != BitAt(p, pos)
  {
    hide Xor, IsolateOthers, Log2Floor, Bit;
    var x := Xor(ByteAt(p, i), ByteAt(str, i));
    PowerOfByte();
    XorBelow(8, ByteAt(p, i), ByteAt(str, i));
    IsolateIsLabel(x);
    var h := Log2Floor(x);
    pos := 8 * i + 7 - h;
    SameAbove(p, str, i, h);
    forall k | 0 <= k < pos
      ensures BitAt(str, k) == BitAt(p, k)
    {
      if k / 8 < i {
        assert p[..i][k / 8] == str[..i][k / 8];
      } else {
        assert k / 8 == i && 7 - k % 8 > h;
      }
    }
  }

  /** Two bytes differ at the top bit of their exclusive or, and agree above it. */
  lemma SameAbove(p: cstring, str: cstring, i: nat, h: nat)
    requires Xor(ByteAt(p, i), ByteAt(str, i)) > 0 && h == Log2Floor(Xor(ByteAt(p, i), ByteAt(str, i)))
    ensures Bit(ByteAt(str, i), h) != Bit(ByteAt(p, i), h)
    ensures forall k: nat :: k > h ==> Bit(ByteAt(str, i), k) == Bit(ByteAt(p, i), k)
  {
    hide Xor, Log2Floor, Bit;
    var x := Xor(ByteAt(p, i), ByteAt(str, i));
    forall k: nat | k >= h
      ensures Bit(ByteAt(str, i), k) == Bit(ByteAt(p, i), k) <==> k != h
    {
      BitsAboveTop(x, k);
      BitXor(ByteAt(p, i), ByteAt(str, i), k);
    }
  }

  class CbTree {
    var root: Ptr
    ghost var shape: Option<Shape>
    ghost var Repr: set<object>

    ghost predicate Valid()
      reads this, Repr
    {
      match shape
      case None => Repr == {this} && root == Null
      case Some(t) => Repr == {this} + Nodes(t) && Separate(t) && Linked(root, t) && Good(ToTrie(t))
    }

    /** The tree value represented. */
    ghost function Value(): Option<Trie>
      reads this
    {
      match shape case None => None case Some(t) => Some(ToTrie(t))
    }

    /** The set of strings represented. */
    ghost function Contents(): set<cstring>
      reads this
    {
      Members(Value())
    }

    constructor ()
      ensures Valid() && Value() == None && Contents() == {} && Repr == {this}
    {
      root, shape, Repr := Null, None, {this};
    }

    /** The byte of `str` that a node looks at. */
    static function ByteFor(str: cstring, q: CbNode): byte {
      if q.byteIndex < |str| then str[q.byteIndex] else 0
    }

    /** The search loop: follows the bits of `str` down to a leaf. */
    method FindLeaf(str: cstring) returns (leaf: cstring)
      requires Valid() && root != Null
      ensures leaf == Walk(Value().value, str)
    {
      var p := root;
      ghost var t := shape.value;
      while p.Ref?
        invariant Linked(p, t) && Walk(ToTrie(t), str) == Walk(ToTrie(shape.value), str)
        decreases t
      {
        var q := p.node;
        var direction := Direction(q.otherbits, ByteFor(str, q));
        DirectionIsBit(str, t.pos);
        p := q.child[direction];
        t := SChild(t, direction);
      }
      leaf := p.s;
    }

    method Contains(str: cstring) returns (found: bool)
      requires Valid()
      ensures found <==> str in Contents()
    {
      if root == Null {
        return false;
      }
      var p := FindLeaf(str);
      WalkFinds(Value().value, str);
      found := str == p;
    }

    /** Returns 0 on success and 1 if the string was there already. */
    method Insert(str: cstring) returns (code: int)
      requires Valid()
      modifies Repr
      ensures Valid() && fresh(Repr - old(Repr))
      ensures Contents() == old(Contents()) + {str}
      ensures code == if str in old(Contents()) then 1 else 0
      ensures code == 1 ==> Value() == old(Value())
    {
      if root == Null {
        InsertFirst(str);
        return 0;
      }
      hide Linked, Good, Separate, Nodes, Strings;
      var p := FindLeaf(str);
      WalkFinds(Value().value, str);
      var different, newbyte, newotherbits;
      ghost var pos;
      different, newbyte, newotherbits, pos := CriticalBit(p, str);
      if !different {
        assert Contents() == old(Contents()) + {str};
        return 1;
      }
      InsertCorrect(Value().value, pos, str);
      SpliceIn(str, p, newbyte, newotherbits, pos);
      return 0;
    }

    method InsertFirst(str: cstring)
      requires Valid() && shape == None
      modifies this
      ensures Valid() && Value() == Some(Leaf(str)) && Repr == old(Repr)
    {
      root := Str(str);
      shape := Some(SLeaf(str));
    }

    /** Descends to the first slot whose node comes after the new one. */
    method FindSlot(str: cstring, newbyte: nat, newotherbits: nat, ghost newpos: nat)
      returns (wherep: Slot, p: Ptr, ghost c: Context, ghost t: Shape)
      requires Valid() && shape.Some?
      requires newbyte == newpos / 8 && newotherbits == OtherBits(newpos)
      ensures Linked(p, t) && ContextLinked(c, root, p) && SlotIs(c, wherep)
      ensures ContextSeparate(c) && Separate(t) && ContextNodes(c) !! Nodes(t)
      ensures ContextNodes(c) + Nodes(t) == Nodes(shape.value)
      ensures InsertsWithin(ToTrie(shape.value), c, t, newpos, str)
      ensures t.SInner? ==> t.pos > newpos
    {
      c, t, wherep, p := Top, shape.value, Root, root;
      while p.Ref?
        invariant Linked(p, t) && ContextLinked(c, root, p) && SlotIs(c, wherep)
        invariant ContextSeparate(c) && Separate(t) && ContextNodes(c) !! Nodes(t)
        invariant ContextNodes(c) + Nodes(t) == Nodes(shape.value)
        invariant InsertsWithin(ToTrie(shape.value), c, t, newpos, str)
        decreases t
      {
        var q := p.node;
        LabelsOrder(newpos, t.pos);
        if q.byteIndex > newbyte {
          break;
        }
        if q.byteIndex == newbyte && q.otherbits > newotherbits {
          break;
        }
        DescendLinks(c, t, root, p, BitAt(str, t.pos));
        DescendInserts(ToTrie(shape.value), c, t, newpos, str);
        DirectionIsBit(str, t.pos);
        var direction := Direction(q.otherbits, ByteFor(str, q));
        wherep := ChildOf(q, direction);
        p := q.child[direction];
        c, t := Descend(c, t, direction), SChild(t, direction);
      }
    }

    /** Second half of insertion: creates the new node and puts it into its slot. */
    method SpliceIn(str: cstring, p: cstring, newbyte: nat, newotherbits: nat, ghost newpos: nat)
      requires Valid() && shape.Some?
      requires newbyte == newpos / 8 && newotherbits == OtherBits(newpos)
      requires BitAt(str, newpos) != BitAt(p, newpos)
      requires Good(CritBitTrie.Insert(Value().value, newpos, str))
      modifies Repr
      ensures Valid() && fresh(Repr - old(Repr))
      ensures Value() == Some(CritBitTrie.Insert(old(Value()).value, newpos, str))
    {
      var newdirection := Direction(newotherbits, ByteAt(p, newbyte));
      DirectionIsBit(p, newpos);
      var wherep, old_p;
      ghost var c, t;
      wherep, old_p, c, t := FindSlot(str, newbyte, newotherbits, newpos);
      var newnode;
      ghost var joined;
      newnode, joined := NewNode(str, old_p, newdirection, newbyte, newotherbits, newpos, t);
      Store(wherep, Ref(newnode), old_p, c, joined);
    }

    /** The new inner node, with the new string on one side and what was there on the other. */
    method NewNode(str: cstring, p: Ptr, newdirection: nat, newbyte: nat, newotherbits: nat,
                   ghost newpos: nat, ghost t: Shape)
      returns (newnode: CbNode, ghost joined: Shape)
      requires Nodes(t) <= Repr && Linked(p, t) && Separate(t) && newdirection == 1 - BitAt(str, newpos)
      requires newbyte == newpos / 8 && newotherbits == OtherBits(newpos)
      ensures fresh(newnode) && Linked(Ref(newnode), joined) && Separate(joined)
      ensures Nodes(joined) == Nodes(t) + {newnode} && ToTrie(joined) == Joined(ToTrie(t), newpos, str)
    {
      newnode := new CbNode(newbyte, newotherbits);
      newnode.child := newnode.child[1 - newdirection := Str(str)];
      newnode.child := newnode.child[newdirection := p];
      assert Linked(p, t);
      joined :=
        if newdirection == 0 then SInner(newnode, newpos, t, SLeaf(str)) else SInner(newnode, newpos, SLeaf(str), t);
    }

    static lemma ContextApart(c: Context)
      requires ContextSeparate(c) && c.Below?
      ensures c.node !in ContextNodes(c.up) && c.node !in Nodes(c.sibling) && ContextNodes(c.up) !! Nodes(c.sibling)
    {
    }

    /** Stores a pointer into a slot; the new tree is the old context around the new subtree. */
    method Store(slot: Slot, p: Ptr, ghost was: Ptr, ghost c: Context, ghost t: Shape)
      requires SlotIs(c, slot) && ContextLinked(c, root, was)
      requires ContextSeparate(c) && Separate(t) && ContextNodes(c) !! Nodes(t)
      requires Linked(p, t) && Good(FillTrie(c, ToTrie(t)))
      modifies this, ContextNodes(c)
      ensures Valid() && Repr == {this} + ContextNodes(c) + Nodes(t)
      ensures Value() == Some(FillTrie(c, ToTrie(t)))
    {
      hide Good, ToTrie, FillTrie, Fill, Separate, ContextSeparate;
      if slot.Root? {
        root := p;
        assert Linked(p, t);
      } else {
        ContextApart(c);
        slot.node.child := slot.node.child[slot.direction := p];
        assert Linked(p, t);
        assert ContextLinked(c.up, root, Ref(slot.node));
      }
      FillLinks(c, t, root, p);
      FillSeparates(c, t);
      FillErases(c, t);
      shape := Some(Fill(c, t));
      Repr := {this} + Nodes(Fill(c, t));
    }

    /** Returns 0 on success and 1 if the string was not there. */
    method Delete(str: cstring) returns (code: int)
      requires Valid()
      modifies Repr
      ensures Valid() && Repr <= old(Repr)
      ensures Contents() == old(Contents()) - {str}
      ensures code == if str in old(Contents()) then 0 else 1
      ensures code == 1 ==> Value() == old(Value())
      ensures code == 0 ==> Value() == CritBitTrie.Delete(old(Value()).value, str)
    {
      if root == Null {
        return 1;
      }
      hide Linked, Good, Separate, Nodes, Strings, ContextSeparate, ContextLinked, FillTrie;
      var whereq, q, direction, p;
      ghost var c, t;
      whereq, q, direction, p, c, t := FindParent(str);
      WalkFinds(Value().value, str);
      if str != p.s {
        assert Contents() == old(Contents()) - {str};
        return 1;
      }
      DeleteCorrect(Value().value, str);
      if whereq == None {
        MakeEmpty();
      } else {
        SpliceOut(whereq.value, q.node, direction, p, c);
      }
      return 0;
    }

    /** The sibling of the removed leaf takes the place of their parent. */
    method SpliceOut(whereq: Slot, q: CbNode, direction: nat, ghost p: Ptr, ghost c: Context)
      requires c.Below? && c.node == q && c.direction == direction && SlotIs(c.up, whereq)
      requires ContextSeparate(c) && ContextLinked(c, root, p) && Good(FillTrie(c.up, ToTrie(c.sibling)))
      modifies this, ContextNodes(c)
      ensures Valid() && Repr == {this} + ContextNodes(c.up) + Nodes(c.sibling)
      ensures Value() == Some(FillTrie(c.up, ToTrie(c.sibling)))
    {
      Store(whereq, q.child[1 - direction], Ref(q), c.up, c.sibling);
    }

    method MakeEmpty()
      modifies this
      ensures Valid() && Value() == None && Repr == {this}
    {
      root, shape, Repr := Null, None, {this};
    }

    /** The search loop of deletion: remembers the slot of the last node on the way, that node,
        and the side of it that was taken. */
    method FindParent(str: cstring)
      returns (whereq: Option<Slot>, q: Ptr, direction: nat, p: Ptr, ghost c: Context, ghost t: Shape)
      requires Valid() && shape.Some?
      ensures t.SLeaf? && p == Str(t.s) && t.s == Walk(ToTrie(shape.value), str)
      ensures ContextSeparate(c) && ContextLinked(c, root, p)
      ensures DeletesWithin(ToTrie(shape.value), c, t, str)
      ensures match c
              case Top => whereq == None
              case Below(n, _, d, s, up) =>
                q == Ref(n) && direction == d && whereq.Some? && SlotIs(up, whereq.value)
      ensures ContextNodes(c) == Nodes(shape.value)
    {
      whereq, q, direction := None, Null, 0;
      c, t := Top, shape.value;
      var wherep := Root;
      p := root;
      while p.Ref?
        invariant Linked(p, t) && ContextLinked(c, root, p) && SlotIs(c, wherep)
        invariant ContextSeparate(c) && Separate(t) && ContextNodes(c) !! Nodes(t)
        invariant ContextNodes(c) + Nodes(t) == Nodes(shape.value)
        invariant DeletesWithin(ToTrie(shape.value), c, t, str)
        invariant Walk(ToTrie(t), str) == Walk(ToTrie(shape.value), str)
        invariant match c
                  case Top => whereq == None
                  case Below(n, _, d, s, up) =>
                    q == Ref(n) && direction == d && whereq.Some? && SlotIs(up, whereq.value)
        decreases t
      {
        DescendLinks(c, t, root, p, BitAt(str, t.pos));
        DescendDeletes(ToTrie(shape.value), c, t, str);
        DirectionIsBit(str, t.pos);
        whereq := Some(wherep);
        q := p;
        direction := Direction(q.node.otherbits, ByteFor(str, q.node));
        wherep := ChildOf(q.node, direction);
        p := q.node.child[direction];
        c, t := Descend(c, t, direction), SChild(t, direction);
      }
    }

    method Clear()
      requires Valid()
      modifies this
      ensures Valid() && Value() == None && Contents() == {} && Repr == {this}
    {
      MakeEmpty();
    }

    /** Calls back for every string below a node, from left to right, until the callback answers
        with something other than 0; `visited` lists the strings it was called for. */
    method Traverse(top: Ptr, ghost t: Shape, callback: cstring -> int) returns (ret: int, visited: seq<cstring>)
      requires Nodes(t) <= Repr && Linked(top, t)
      ensures Visit(ret, visited) == VisitAll(Listing(ToTrie(t)), callback)
      decreases t
    {
      if top.Ref? {
        var q := top.node;
        VisitConcat(Listing(ToTrie(t.left)), Listing(ToTrie(t.right)), callback);
        ret, visited := Traverse(q.child[0], t.left, callback);
        if ret != 0 {
          return;
        }
        var more;
        ret, more := Traverse(q.child[1], t.right, callback);
        visited := visited + more;
        return;
      }
      ret, visited := callback(top.s), [top.s];
    }

    /** Visits the strings below the last node that looks at a byte of the prefix. */
    method WalkPrefixed(prefix: cstring, callback: cstring -> int) returns (ret: int, visited: seq<cstring>)
      requires Valid()
      ensures Visit(ret, visited) ==
              VisitAll(match Value() case None => [] case Some(t) => Listing(PrefixTop(t, prefix)), callback)
    {
      hide Good, Strings, Listing;
      if root == Null {
        return 0, [];
      }
      var p, top := root, root;
      ghost var t, u := shape.value, shape.value;
      while p.Ref?
        invariant Linked(p, t) && Linked(top, u) && Good(ToTrie(t)) && Nodes(t) <= Nodes(u) <= Nodes(shape.value)
        invariant PrefixTop(ToTrie(shape.value), prefix) == PrefixTop(ToTrie(u), prefix)
        invariant t == u || (PrefixTop(ToTrie(u), prefix) == ToTrie(u) && (t.SInner? ==> t.pos / 8 >= |prefix|))
        decreases t
      {
        var q := p.node;
        var direction := Direction(q.otherbits, ByteFor(prefix, q));
        DirectionIsBit(prefix, t.pos);
        GoodChild(ToTrie(t), direction);
        p := q.child[direction];
        t := SChild(t, direction);
        if q.byteIndex < |prefix| {
          top := p;
          u := t;
        }
      }
      ret, visited := Traverse(top, u, callback);
    }
  }

  // ---------- runs of operations ----------

  datatype Edit = Add(path: cstring) | Remove(path: cstring)

  /** What a run of insertions and deletions does to a set of strings. */
  ghost function Applied(ss: set<cstring>, edits: seq<Edit>): set<cstring>
    decreases |edits|
  {
    if edits == [] then ss
    else
      var before := Applied(ss, edits[..|edits| - 1]);
      var last := edits[|edits| - 1];
      if last.Add? then before + {last.path} else before - {last.path}
  }

  /** Any run of insertions and deletions leaves a valid tree for the resulting set. */
  method Run(tree: CbTree, edits: seq<Edit>)
    requires tree.Valid()
    modifies tree.Repr
    ensures tree.Valid() && fresh(tree.Repr - old(tree.Repr))
    ensures tree.Contents() == Applied(old(tree.Contents()), edits)
  {
    for i := 0 to |edits|
      invariant tree.Valid() && fresh(tree.Repr - old(tree.Repr))
      invariant tree.Contents() == Applied(old(tree.Contents()), edits[..i])
    {
      assert edits[..i + 1][..i] == edits[..i];
      var code;
      if edits[i].Add? {
        code := tree.Insert(edits[i].path);
      } else {
        code := tree.Delete(edits[i].path);
      }
    }
    assert edits[..|edits|] == edits;
  }

  /** Trees for the same set are the same tree, node for node. */
  lemma SameContentsSameTree(a: CbTree, b: CbTree)
    requires a.Valid() && b.Valid() && a.Contents() == b.Contents()
    ensures a.Value() == b.Value()
  {
    if a.Value().Some? && b.Value().Some? {
      Canonical(a.Value().value, b.Value().value);
    }
  }

  /** Two runs that reach the same set leave identical trees, however they got there. */
  method CompareRuns(edits: seq<Edit>, edits': seq<Edit>) returns (a: CbTree, b: CbTree)
    requires Applied({}, edits) == Applied({}, edits')
    ensures a.Valid() && b.Valid() && a.Repr !! b.Repr && fresh(a.Repr) && fresh(b.Repr)
    ensures a.Contents() == Applied({}, edits) && b.Contents() == Applied({}, edits')
    ensures a.Value() == b.Value()
  {
    a := new CbTree();
    Run(a, edits);
    b := new CbTree();
    Run(b, edits');
    SameContentsSameTree(a, b);
  }

  datatype Visit = Visit(ret: int, visited: seq<cstring>)

  /** What a traversal with this callback visits of a list, and what it returns. */
  function VisitAll(ss: seq<cstring>, callback: cstring -> int): Visit {
    if ss == [] then Visit(0, [])
    else if callback(ss[0]) != 0 then Visit(callback(ss[0]), [ss[0]])
    else
      var v := VisitAll(ss[1..], callback);
      Visit(v.ret, [ss[0]] + v.visited)
  }

  /** A traversal goes on with the second part of a list unless it stopped in the first. */
  lemma {:induction false} VisitConcat(a: seq<cstring>, b: seq<cstring>, callback: cstring -> int)
    ensures var v, w := VisitAll(a, callback), VisitAll(b, callback);
            VisitAll(a + b, callback) == if v.ret != 0 then v else Visit(w.ret, v.visited + w.visited)
  {
    if a == [] {
      assert a + b == b;
      assert [] + VisitAll(b, callback).visited == VisitAll(b, callback).visited;
    } else {
      VisitConcat(a[1..], b, callback);
      assert (a + b)[1..] == a[1..] + b && (a + b)[0] == a[0];
      var v, w := VisitAll(a[1..], callback), VisitAll(b, callback);
      assert [a[0]] + (v.visited + w.visited) == ([a[0]] + v.visited) + w.visited;
    }
  }

  /** A walk visits a beginning of the list, and stops behind the first string for which the callback
      answers with something other than 0; that is what it returns. */
  lemma {:induction false} VisitStops(ss: seq<cstring>, callback: cstring -> int)
    ensures var v := VisitAll(ss, callback);
            && v.visited <= ss && (forall i :: 0 <= i < |v.visited| - 1 ==> callback(v.visited[i]) == 0)
            && (if v.ret == 0 then v.visited == ss && (forall s :: s in ss ==> callback(s) == 0)
                else v.visited != [] && v.ret == callback(v.visited[|v.visited| - 1]))
  {
    if ss != [] && callback(ss[0]) == 0 {
      VisitStops(ss[1..], callback);
      var v, w := VisitAll(ss, callback), VisitAll(ss[1..], callback);
      assert v.visited == [ss[0]] + w.visited && ss == [ss[0]] + ss[1..];
      forall i | 0 <= i < |v.visited| - 1
        ensures callback(v.visited[i]) == 0
      {
        assert i > 0 ==> v.visited[i] == w.visited[i - 1];
      }
    }
  }

  /** A callback that never stops the walk sees the whole list. */
  lemma {:induction false} VisitsAll(ss: seq<cstring>, callback: cstring -> int)
    requires forall s :: s in ss ==> callback(s) == 0
    ensures VisitAll(ss, callback) == Visit(0, ss)
  {
    if ss != [] {
      VisitsAll(ss[1..], callback);
      assert [ss[0]] + ss[1..] == ss;
    }
  }
}
