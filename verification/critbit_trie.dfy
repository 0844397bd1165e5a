/** The crit-bit tree as a value: what its shape means, and how insertion and deletion change
    the set of strings it stands for. */
module CritBitTrie {
  import opened Bytes
  import opened CritBitBits

  datatype Trie = Leaf(s: cstring) | Inner(pos: nat, left: Trie, right: Trie)

  /** The set a possibly empty tree stands for. */
  ghost function Members(t: Option<Trie>): set<cstring> {
    match t case None => {} case Some(u) => Strings(u)
  }

  ghost function Strings(t: Trie): (r: set<cstring>)
    ensures r != {}
  {
    match t
    case Leaf(s) => {s}
    case Inner(_, l, r) =>
      var x := Strings(l);
      assert x <= x + Strings(r);
      x + Strings(r)
  }

  ghost predicate Agree(a: cstring, b: cstring, p: nat) {
    forall k :: 0 <= k < p ==> BitAt(a, k) == BitAt(b, k)
  }

  /** All strings below a node at `p` agree before `p`. */
  ghost predicate AgreeBelow(ss: set<cstring>, p: nat) {
    forall a, b :: a in ss && b in ss ==> Agree(a, b, p)
  }

  ghost predicate AllAt(ss: set<cstring>, p: nat, bit: nat) {
    forall a :: a in ss ==> BitAt(a, p) == bit
  }

  ghost predicate Above(p: nat, t: Trie) {
    t.Inner? ==> p < t.pos
  }

  /** Positions strictly increase downwards; the strings below a node agree before its position
      and split on it. */
  ghost predicate Good(t: Trie) {
    match t
    case Leaf(_) => true
    case Inner(p, l, r) =>
      Good(l) && Good(r) && Above(p, l) && Above(p, r)
      && AllAt(Strings(l), p, 0) && AllAt(Strings(r), p, 1)
      && AgreeBelow(Strings(t), p)
  }

  function Child(t: Trie, bit: nat): Trie
    requires t.Inner?
  {
    if bit == 0 then t.left else t.right
  }

  lemma GoodChild(t: Trie, bit: nat)
    requires Good(t) && t.Inner?
    ensures Good(Child(t, bit)) && Above(t.pos, Child(t, bit))
  {
  }

  /** The leaf reached by following the bits of `u`. */
  function Walk(t: Trie, u: cstring): (s: cstring)
    decreases t
  {
    match t
    case Leaf(s) => s
    case Inner(p, l, r) => if BitAt(u, p) == 0 then Walk(l, u) else Walk(r, u)
  }

  lemma {:induction false} WalkIsMember(t: Trie, u: cstring)
    ensures Walk(t, u) in Strings(t)
  {
    if t.Inner? {
      WalkIsMember(Child(t, BitAt(u, t.pos)), u);
    }
  }

  /** A member is found by following its own bits: one comparison decides membership. */
  lemma {:induction false} WalkFinds(t: Trie, u: cstring)
    requires Good(t)
    ensures Walk(t, u) == u <==> u in Strings(t)
  {
    WalkIsMember(t, u);
    if t.Inner? && u in Strings(t) {
      WalkFinds(Child(t, BitAt(u, t.pos)), u);
    }
  }

  // ---------- insertion ----------

  /** The new inner node above what was at the insertion point. */
  function Joined(t: Trie, newpos: nat, u: cstring): Trie {
    if BitAt(u, newpos) == 1 then Inner(newpos, t, Leaf(u)) else Inner(newpos, Leaf(u), t)
  }

  /** Descends while positions do not exceed the new one. */
  function Insert(t: Trie, newpos: nat, u: cstring): Trie
    decreases t
  {
    if t.Leaf? || t.pos > newpos then Joined(t, newpos, u)
    else if BitAt(u, t.pos) == 0 then t.(left := Insert(t.left, newpos, u))
    else t.(right := Insert(t.right, newpos, u))
  }

  /** `p` is where `u` first differs from the leaf its bits lead to. */
  ghost predicate FirstDifferenceAt(t: Trie, u: cstring, p: nat) {
    var w := Walk(t, u);
    Agree(u, w, p) && BitAt(u, p) != BitAt(w, p)
  }

  lemma {:induction false} InsertCorrect(t: Trie, newpos: nat, u: cstring)
    requires Good(t) && FirstDifferenceAt(t, u, newpos)
    ensures Good(Insert(t, newpos, u)) && Strings(Insert(t, newpos, u)) == Strings(t) + {u}
    ensures forall p: nat :: Above(p, t) && p < newpos ==> Above(p, Insert(t, newpos, u))
    decreases t
  {
    var w := Walk(t, u);
    WalkIsMember(t, u);
    if t.Leaf? {
      JoinedGood(t, newpos, u, w);
    } else if t.pos > newpos {
      JoinedGood(t, newpos, u, w);
    } else {
      InsertCorrect(Child(t, BitAt(u, t.pos)), newpos, u);
      InsertedBelow(t, newpos, u);
    }
  }

  /** Insertion into a child, seen from its parent. */
  lemma InsertedBelow(t: Trie, newpos: nat, u: cstring)
    requires Good(t) && FirstDifferenceAt(t, u, newpos) && t.Inner? && t.pos <= newpos
    requires var c := Child(t, BitAt(u, t.pos));
             && Good(Insert(c, newpos, u)) && Strings(Insert(c, newpos, u)) == Strings(c) + {u}
             && forall p: nat :: Above(p, c) && p < newpos ==> Above(p, Insert(c, newpos, u))
    ensures Good(Insert(t, newpos, u)) && Strings(Insert(t, newpos, u)) == Strings(t) + {u}
    ensures forall p: nat :: Above(p, t) && p < newpos ==> Above(p, Insert(t, newpos, u))
  {
    var w, p := Walk(t, u), t.pos;
    WalkIsMember(t, u);
    var c := Child(t, BitAt(u, p));
    WalkIsMember(c, u);
    assert BitAt(w, p) == BitAt(u, p);
    AgreeWithMember(Strings(t), u, w, p);
  }

  lemma AgreeWithMember(ss: set<cstring>, u: cstring, w: cstring, p: nat)
    requires w in ss && AgreeBelow(ss, p) && Agree(u, w, p)
    ensures AgreeBelow(ss + {u}, p)
  {
    forall a, b | a in ss + {u} && b in ss + {u}
      ensures Agree(a, b, p)
    {
      assert a in ss ==> Agree(a, w, p);
      assert b in ss ==> Agree(b, w, p);
    }
  }

  lemma JoinedGood(t: Trie, newpos: nat, u: cstring, w: cstring)
    requires Good(t) && (t.Inner? ==> t.pos > newpos) && w in Strings(t)
    requires Agree(u, w, newpos) && BitAt(u, newpos) != BitAt(w, newpos)
    ensures Good(Joined(t, newpos, u)) && Strings(Joined(t, newpos, u)) == Strings(t) + {u}
  {
    var ss := Strings(t);
    forall a | a in ss
      ensures BitAt(a, newpos) == BitAt(w, newpos) && Agree(a, w, newpos)
    {
      if t.Inner? {
        assert Agree(a, w, t.pos);
      }
    }
    forall a, b | a in ss && b in ss
      ensures Agree(a, b, newpos)
    {
      assert Agree(a, w, newpos) && Agree(b, w, newpos);
    }
    AgreeWithMember(ss, u, w, newpos);
    assert {u} + ss == ss + {u};
  }

  // ---------- deletion ----------

  /** Removes the leaf that `u` leads to; its sibling takes the place of their parent. */
  function Delete(t: Trie, u: cstring): Option<Trie>
    decreases t
  {
    match t
    case Leaf(_) => None
    case Inner(p, l, r) =>
      if BitAt(u, p) == 0 then
        match Delete(l, u)
        case None => Some(r)
        case Some(l') => Some(Inner(p, l', r))
      else
        match Delete(r, u)
        case None => Some(l)
        case Some(r') => Some(Inner(p, l, r'))
  }

  lemma {:induction false} DeleteCorrect(t: Trie, u: cstring)
    requires Good(t) && u in Strings(t)
    ensures Members(Delete(t, u)) == Strings(t) - {u}
    ensures Delete(t, u).Some? ==>
              Good(Delete(t, u).value) && forall p: nat :: Above(p, t) ==> Above(p, Delete(t, u).value)
    decreases t
  {
    if t.Inner? {
      var p := t.pos;
      var c := Child(t, BitAt(u, p));
      var other := Child(t, 1 - BitAt(u, p));
      assert u in Strings(c);
      assert u !in Strings(other);
      DeleteCorrect(c, u);
      assert Strings(t) - {u} == (Strings(c) - {u}) + Strings(other);
      if Delete(c, u).Some? {
        var t' := Delete(t, u).value;
        assert Strings(t') == Strings(t) - {u};
        assert AgreeBelow(Strings(t'), p);
      }
    }
  }

  // ---------- canonicity ----------

  /** A good tree is determined by its set of strings. */
  lemma {:induction false} Canonical(t: Trie, t': Trie)
    requires Good(t) && Good(t') && Strings(t) == Strings(t')
    ensures t == t'
    decreases t
  {
    match t
    case Leaf(s) =>
      if t'.Inner? {
        var a, b := TwoSides(t');
      }
    case Inner(p, l, r) =>
      var a, b := TwoSides(t);
      if t'.Inner? {
        SamePosition(t, t');
        HalvesDetermined(t, t');
        Canonical(l, t'.left);
        Canonical(r, t'.right);
      }
  }

  /** An inner node has a string on either side, and they differ. */
  lemma TwoSides(t: Trie) returns (a: cstring, b: cstring)
    requires Good(t) && t.Inner?
    ensures a in Strings(t) && b in Strings(t) && a != b
    ensures BitAt(a, t.pos) == 0 && BitAt(b, t.pos) == 1
  {
    a :| a in Strings(t.left);
    b :| b in Strings(t.right);
  }

  /** The position at the root is where the strings first differ. */
  lemma SamePosition(t: Trie, t': Trie)
    requires Good(t) && Good(t') && t.Inner? && t'.Inner? && Strings(t) == Strings(t')
    ensures t.pos == t'.pos
  {
    var a, b := TwoSides(t);
    var a', b' := TwoSides(t');
    assert Agree(a, b, t'.pos);
    assert Agree(a', b', t.pos);
  }

  lemma HalvesDetermined(t: Trie, t': Trie)
    requires Good(t) && Good(t') && t.Inner? && t'.Inner? && Strings(t) == Strings(t') && t.pos == t'.pos
    ensures Strings(t.left) == Strings(t'.left) && Strings(t.right) == Strings(t'.right)
  {
    forall s
      ensures s in Strings(t.left) <==> s in Strings(t'.left)
      ensures s in Strings(t.right) <==> s in Strings(t'.right)
    {
      assert s in Strings(t) <==> s in Strings(t');
    }
  }
}
