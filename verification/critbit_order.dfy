/** Traversal order and prefix search of the crit-bit tree. */
module CritBitOrder {
  import opened Bits
  import opened Bytes
  import opened CritBitBits
  import opened CritBitTrie

  /** The order of `strcmp`: unsigned bytes, a string before its extensions. */
  ghost predicate Less(a: cstring, b: cstring) {
    exists i: nat :: LessAt(a, b, i)
  }

  ghost predicate LessAt(a: cstring, b: cstring, i: nat) {
    ByteAt(a, i) < ByteAt(b, i) && forall j: nat :: j < i ==> ByteAt(a, j) == ByteAt(b, j)
  }

  /** Strings that agree on all bits of a byte agree on the byte. */
  lemma BitsGiveByte(a: cstring, b: cstring, i: nat)
    requires forall k :: 8 * i <= k < 8 * i + 8 ==> BitAt(a, k) == BitAt(b, k)
    ensures ByteAt(a, i) == ByteAt(b, i)
  {
    PowerOfByte();
    forall j | 0 <= j < 8
      ensures Bit(ByteAt(a, i), j) == Bit(ByteAt(b, i), j)
    {
      assert BitAt(a, 8 * i + 7 - j) == BitAt(b, 8 * i + 7 - j);
    }
    BitsDetermine(8, ByteAt(a, i), ByteAt(b, i));
  }

  /** The string with the zero at the first differing bit is the smaller one. */
  lemma FirstBitDecides(a: cstring, b: cstring, p: nat)
    requires Agree(a, b, p) && BitAt(a, p) == 0 && BitAt(b, p) == 1
    ensures Less(a, b)
  {
    var i := p / 8;
    forall j: nat | j < i
      ensures ByteAt(a, j) == ByteAt(b, j)
    {
      BitsGiveByte(a, b, j);
    }
    PowerOfByte();
    var k := 7 - p % 8;
    forall j | k < j < 8
      ensures Bit(ByteAt(a, i), j) == Bit(ByteAt(b, i), j)
    {
      assert BitAt(a, 8 * i + 7 - j) == BitAt(b, 8 * i + 7 - j);
    }
    BitsCompare(8, ByteAt(a, i), ByteAt(b, i), k);
    assert LessAt(a, b, i);
  }

  /** The order in terms of the bytes themselves: a proper beginning comes first, otherwise the string
      with the smaller byte where they first differ. */
  lemma LessExact(a: cstring, b: cstring)
    ensures Less(a, b) <==> a < b || exists i :: 0 <= i < |a| && i < |b| && a[..i] == b[..i] && a[i] < b[i]
  {
    if i: nat :| LessAt(a, b, i) {
      assert i <= |a| && i < |b| by {
        assert i > |a| ==> ByteAt(a, |a|) == ByteAt(b, |a|);
        assert i >= |b| ==> ByteAt(b, i) == 0;
      }
      forall j | 0 <= j < i
        ensures a[j] == b[j]
      {
        assert ByteAt(a, j) == ByteAt(b, j);
      }
      assert a[..i] == b[..i];
      if i == |a| {
        assert a[..i] == a;
      }
    }
    if a < b {
      assert LessAt(a, b, |a|);
    } else if i :| 0 <= i < |a| && i < |b| && a[..i] == b[..i] && a[i] < b[i] {
      forall j: nat | j < i
        ensures ByteAt(a, j) == ByteAt(b, j)
      {
        assert a[..i][j] == b[..i][j];
      }
      assert LessAt(a, b, i);
    }
  }

  lemma LessIsStrict(a: cstring, b: cstring)
    requires Less(a, b)
    ensures a != b && !Less(b, a)
  {
    var i: nat :| LessAt(a, b, i);
    forall j: nat
      ensures !LessAt(b, a, j)
    {
      assert i < j || j < i || i == j;
    }
  }

  ghost predicate Ascending(ss: seq<cstring>) {
    forall i, j :: 0 <= i < j < |ss| ==> Less(ss[i], ss[j])
  }

  /** Left to right traversal. */
  function Listing(t: Trie): (ss: seq<cstring>) {
    match t
    case Leaf(s) => [s]
    case Inner(_, l, r) => Listing(l) + Listing(r)
  }

  lemma {:induction false} ListingMembers(t: Trie)
    ensures forall x :: x in Listing(t) <==> x in Strings(t)
  {
    if t.Inner? {
      ListingMembers(t.left);
      ListingMembers(t.right);
    }
  }

  /** Traversal visits the strings in strictly ascending order. */
  lemma {:induction false} ListingAscends(t: Trie)
    requires Good(t)
    ensures Ascending(Listing(t))
  {
    if t.Inner? {
      var l, r := Listing(t.left), Listing(t.right);
      ListingAscends(t.left);
      ListingAscends(t.right);
      ListingMembers(t.left);
      ListingMembers(t.right);
      forall i, j | 0 <= i < j < |l + r|
        ensures Less((l + r)[i], (l + r)[j])
      {
        if i < |l| <= j {
          var a, b := l[i], r[j - |l|];
          assert a in Strings(t.left) && b in Strings(t.right);
          assert Agree(a, b, t.pos);
          FirstBitDecides(a, b, t.pos);
        }
      }
    }
  }

  /** The subtree below the last node whose byte lies within the prefix. */
  function PrefixTop(t: Trie, prefix: cstring): Trie
    decreases t
  {
    if t.Leaf? || t.pos / 8 >= |prefix| then t
    else PrefixTop(Child(t, BitAt(prefix, t.pos)), prefix)
  }

  /** Extensions of a prefix share its bits. */
  lemma PrefixBits(prefix: cstring, s: cstring, p: nat)
    requires prefix <= s && p / 8 < |prefix|
    ensures BitAt(prefix, p) == BitAt(s, p)
  {
  }

  /** Strings that agree on all bits of a prefix agree on having it. */
  lemma AgreeOnPrefix(prefix: cstring, s: cstring, x: cstring)
    requires prefix <= s && Agree(s, x, 8 * |prefix|)
    ensures prefix <= x
  {
    forall i | 0 <= i < |prefix|
      ensures i < |x| && x[i] == prefix[i]
    {
      BitsGiveByte(s, x, i);
      assert ByteAt(x, i) == prefix[i] != 0;
    }
    if prefix != [] {
      var last := |prefix| - 1;
      assert prefix[last] == x[last];
    }
    assert prefix == x[..|prefix|];
  }

  /** If some string has the prefix, the subtree holds exactly the strings that have it. */
  lemma {:induction false} PrefixTopExact(t: Trie, prefix: cstring, s: cstring)
    requires Good(t) && s in Strings(t) && prefix <= s
    ensures forall x :: x in Strings(PrefixTop(t, prefix)) <==> x in Strings(t) && prefix <= x
    decreases t
  {
    if t.Leaf? || t.pos / 8 >= |prefix| {
      forall x | x in Strings(t)
        ensures prefix <= x
      {
        if t.Inner? {
          assert Agree(s, x, t.pos);
          AgreeOnPrefix(prefix, s, x);
        }
      }
    } else {
      var c := Child(t, BitAt(prefix, t.pos));
      PrefixBits(prefix, s, t.pos);
      PrefixTopExact(c, prefix, s);
      forall x | x in Strings(t) && prefix <= x
        ensures x in Strings(c)
      {
        PrefixBits(prefix, x, t.pos);
      }
    }
  }

  lemma {:induction false} PrefixTopWithin(t: Trie, prefix: cstring)
    ensures Strings(PrefixTop(t, prefix)) <= Strings(t)
    ensures Good(t) ==> Good(PrefixTop(t, prefix))
    decreases t
  {
    if t.Inner? && t.pos / 8 < |prefix| {
      PrefixTopWithin(Child(t, BitAt(prefix, t.pos)), prefix);
    }
  }

  /** What the walk visits has the prefix if and only if some stored string has it: the reached
      leaf is never compared with the prefix, so without such a string the walk visits
      strings that do not have it. */
  lemma PrefixTopCondition(t: Trie, prefix: cstring)
    requires Good(t)
    ensures (exists s :: s in Strings(t) && prefix <= s)
       <==> (forall x :: x in Strings(PrefixTop(t, prefix)) <==> x in Strings(t) && prefix <= x)
  {
    if s :| s in Strings(t) && prefix <= s {
      PrefixTopExact(t, prefix, s);
    } else {
      PrefixTopWithin(t, prefix);
      var x :| x in Strings(PrefixTop(t, prefix));
      assert !(prefix <= x);
    }
  }

  /** The failing case: with only "a" stored, walking the prefix "b" visits "a". */
  lemma PrefixWalkVisitsStranger()
    ensures var t := Leaf([97]);
            Good(t) && Listing(PrefixTop(t, [98])) == [[97]] && !([98] <= [97])
  {
    var a: seq<byte>, b: seq<byte> := [97], [98];
    assert a[0] != b[0];
    assert !(b <= a);
  }
}
