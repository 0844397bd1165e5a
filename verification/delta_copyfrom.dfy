/** Mapping copy sources of the original repository to the dump. */
module DeltaCopyfrom {
  import opened Bytes

  function SkipSlashes(s: seq<byte>): (r: seq<byte>)
    ensures |r| <= |s| && r == s[|s| - |r|..]
    ensures r == [] || r[0] != SLASH
    ensures forall i :: 0 <= i < |s| - |r| ==> s[i] == SLASH
  {
    if s != [] && s[0] == SLASH then SkipSlashes(s[1..]) else s
  }

  /** The copy source relative to the session prefix, or `None` if it lies outside. */
  method LocalCopyfromPath(prefix: seq<byte>, path: seq<byte>) returns (local: Option<seq<byte>>)
    ensures local == LocalPart(prefix, path)
    ensures local.Some? <==> prefix <= path
    ensures local.Some? ==>
              var n := |path| - |local.value|;
              && |prefix| <= n && path[n..] == local.value && (forall i :: |prefix| <= i < n ==> path[i] == 47)
              && (local.value == [] || local.value[0] != 47)
  {
    hide SkipSlashes;
    if !(prefix <= path) {
      return None;
    }
    var preflen := |prefix|;
    while preflen < |path| && path[preflen] == SLASH
      invariant |prefix| <= preflen <= |path| && forall i :: |prefix| <= i < preflen ==> path[i] == 47
    {
      preflen := preflen + 1;
    }
    SlashesBetween(path, |prefix|, preflen);
    local := Some(path[preflen..]);
    assert |path| - |local.value| == preflen;
  }

  lemma SlashesBetween(path: seq<byte>, i: nat, j: nat)
    requires i <= j <= |path| && (forall k :: i <= k < j ==> path[k] == 47) && (j < |path| ==> path[j] != 47)
    ensures SkipSlashes(path[i..]) == path[j..]
  {
    assert path[i..] == path[i..j] + path[j..];
    SlashesSkipped(path[i..j], path[j..]);
  }

  /** Exactly the slashes in front go. */
  lemma {:induction false} SlashesSkipped(gap: seq<byte>, s: seq<byte>)
    requires (forall i :: 0 <= i < |gap| ==> gap[i] == 47) && (s == [] || s[0] != 47)
    ensures SkipSlashes(gap + s) == s
  {
    if gap == [] {
      assert gap + s == s;
    } else {
      assert (gap + s)[1..] == gap[1..] + s;
      SlashesSkipped(gap[1..], s);
    }
  }

  /** What the mapping takes for the local path. */
  function LocalPart(prefix: seq<byte>, path: seq<byte>): Option<seq<byte>> {
    if prefix <= path then Some(SkipSlashes(path[|prefix|..])) else None
  }

  /** The local path of a path that is the prefix itself or lies below it. */
  function BelowPrefix(prefix: seq<byte>, path: seq<byte>): Option<seq<byte>> {
    if prefix == [] || path == prefix || (prefix < path && path[|prefix|] == SLASH)
    then Some(SkipSlashes(path[|prefix|..])) else None
  }

  /** Bytes are compared, not names: the mapping is right if and only if a path that begins with the
      prefix goes on with a slash there, or ends, or the prefix is empty. */
  lemma PrefixBoundary(prefix: seq<byte>, path: seq<byte>)
    ensures LocalPart(prefix, path) == BelowPrefix(prefix, path)
            <==> (prefix < path ==> prefix == [] || path[|prefix|] == SLASH)
  {
    if prefix <= path && |path| == |prefix| {
      assert path == prefix;
    }
  }

  /** The failing case: with prefix "foo", "foobar/x" is taken for "bar/x". */
  lemma SiblingTakenForChild()
    ensures var prefix, path := [102, 111, 111], [102, 111, 111, 98, 97, 114, 47, 120];
            LocalPart(prefix, path) == Some([98, 97, 114, 47, 120]) && BelowPrefix(prefix, path) == None
  {
    var prefix: seq<byte>, path: seq<byte> := [102, 111, 111], [102, 111, 111, 98, 97, 114, 47, 120];
    assert path[..3] == prefix && path[3..] == [98, 97, 114, 47, 120];
  }

  /** The greatest index below `n` whose revision does not exceed the wanted one, or -1. */
  function GreatestNotAfter(logs: seq<int>, original: int, n: nat): (rev: int)
    requires n <= |logs|
    ensures -1 <= rev < n
    ensures rev >= 0 ==> logs[rev] <= original
    ensures forall i :: rev < i < n ==> logs[i] > original
  {
    if n == 0 then -1
    else if logs[n - 1] <= original then n - 1
    else GreatestNotAfter(logs, original, n - 1)
  }

  /** Searches the revision list backwards, starting before its last element. */
  method LocalCopyfromRev(original: int, keepRevnums: bool, logs: seq<int>) returns (rev: int)
    ensures keepRevnums ==> rev == original
    ensures !keepRevnums && logs != [] ==> rev == GreatestNotAfter(logs, original, |logs| - 1)
    ensures !keepRevnums && logs == [] ==> rev == -2
  {
    if keepRevnums {
      return original;
    }
    rev := |logs| - 1;
    rev := rev - 1;
    while rev >= 0
      invariant if logs == [] then rev == -2 else -1 <= rev < |logs| - 1
      invariant logs != [] ==> GreatestNotAfter(logs, original, |logs| - 1) == GreatestNotAfter(logs, original, rev + 1)
    {
      if original == logs[rev] {
        break;
      } else if logs[rev] < original {
        break;
      }
      rev := rev - 1;
    }
  }

  ghost predicate StrictlyIncreasing(logs: seq<int>) {
    forall i, j :: 0 <= i < j < |logs| ==> logs[i] < logs[j]
  }

  /** For a strictly increasing log the answer splits the earlier revisions exactly into those not
      after the wanted one and the others, so it is the wanted revision itself if that is there. */
  lemma SearchIsExact(logs: seq<int>, original: int)
    requires StrictlyIncreasing(logs) && logs != []
    ensures var rev := GreatestNotAfter(logs, original, |logs| - 1);
            (forall i :: 0 <= i < |logs| - 1 ==> (logs[i] <= original <==> i <= rev))
            && (forall i :: 0 <= i < |logs| - 1 && logs[i] == original ==> rev == i)
            && (rev == -1 <==> |logs| == 1 || logs[0] > original)
  {
    var rev := GreatestNotAfter(logs, original, |logs| - 1);
    forall i | 0 <= i < |logs| - 1
      ensures logs[i] <= original <==> i <= rev
    {
      if i < rev {
        assert logs[i] < logs[rev];
      }
    }
  }
}
