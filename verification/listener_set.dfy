/** A listener set: the identity set of callbacks the emitter keeps per event
    key. Callbacks are compared by identity (Dafny equality on an opaque type)
    and iterated in insertion order, so a set is a sequence without repeats. */
module ListenerSets {

  /** No callback occurs twice in the set. */
  ghost predicate NoDuplicates<T>(s: seq<T>) {
    forall i, j :: 0 <= i < j < |s| ==> s[i] != s[j]
  }

  /** Inserts `x` as the last element in iteration order; a member that is
      already present keeps its place and nothing changes. */
  function Add<T(==)>(s: seq<T>, x: T): (r: seq<T>)
    ensures x in r
    ensures forall i :: 0 <= i < |s| ==> s[i] in r
    ensures forall i :: 0 <= i < |r| ==> r[i] in s || r[i] == x
    ensures x in s ==> r == s
    ensures x !in s ==> |r| == |s| + 1 && r[..|s|] == s && r[|s|] == x
    ensures NoDuplicates(s) ==> NoDuplicates(r)
  {
    if x in s then s else s + [x]
  }

  /** Removes `x`, keeping the remaining members in their relative order
      (`DeleteKeepsOrder`). */
  function Delete<T(==)>(s: seq<T>, x: T): (r: seq<T>)
    ensures x !in r
    ensures forall i :: 0 <= i < |s| && s[i] != x ==> s[i] in r
    ensures forall i :: 0 <= i < |r| ==> r[i] in s
    ensures x !in s ==> r == s
    ensures |r| <= |s|
    ensures NoDuplicates(s) ==> NoDuplicates(r)
    ensures NoDuplicates(s) && x in s ==> |r| == |s| - 1
    decreases |s|
  {
    if |s| == 0 then []
    else if s[0] == x then Delete(s[1..], x)
    else [s[0]] + Delete(s[1..], x)
  }

  /** In a set without duplicates, deleting the member at position `k`
      closes the gap and leaves every other member in its order. */
  lemma {:induction false} DeleteKeepsOrder<T>(s: seq<T>, k: int)
    requires NoDuplicates(s) && 0 <= k < |s|
    ensures Delete(s, s[k]) == s[..k] + s[k + 1..]
    decreases |s|
  {
    HeadNotInTail(s);
    if k == 0 {
      assert Delete(s, s[0]) == Delete(s[1..], s[0]);
    } else {
      var t := s[1..];
      assert t[k - 1] == s[k];
      DeleteKeepsOrder(t, k - 1);
      assert Delete(s, s[k]) == [s[0]] + Delete(t, s[k]);
      SpliceTail(s, k);
    }
  }

  lemma HeadNotInTail<T>(s: seq<T>)
    requires NoDuplicates(s) && s != []
    ensures NoDuplicates(s[1..]) && s[0] !in s[1..]
  {
    forall i | 0 <= i < |s| - 1
      ensures s[1..][i] != s[0]
    {
      assert s[1..][i] == s[i + 1];
    }
  }

  lemma SpliceTail<T>(s: seq<T>, k: int)
    requires 0 < k < |s|
    ensures [s[0]] + (s[1..][..k - 1] + s[1..][k..]) == s[..k] + s[k + 1..]
  {
    assert s[1..][..k - 1] == s[1..k];
    assert s[1..][k..] == s[k + 1..];
    assert [s[0]] + s[1..k] == s[..k];
  }

  /** The same, for whichever position the deleted member occupies. */
  lemma DeleteKeepsOrderAt<T>(s: seq<T>, x: T)
    ensures NoDuplicates(s) ==>
              forall k :: 0 <= k < |s| && s[k] == x ==> Delete(s, x) == s[..k] + s[k + 1..]
  {
    forall k | NoDuplicates(s) && 0 <= k < |s| && s[k] == x
      ensures Delete(s, x) == s[..k] + s[k + 1..]
    {
      DeleteKeepsOrder(s, k);
    }
  }

  /** Deleting a member that was just added gives back the set as it was
      before, in the same iteration order. */
  lemma {:induction false} DeleteUndoesAdd<T>(s: seq<T>, x: T)
    requires x !in s
    ensures Delete(Add(s, x), x) == s
  {
    assert Add(s, x) == s + [x];
    DeleteAppended(s, x);
  }

  lemma {:induction false} DeleteAppended<T>(s: seq<T>, x: T)
    requires x !in s
    ensures Delete(s + [x], x) == s
    decreases |s|
  {
    if |s| == 0 {
      assert s + [x] == [x];
    } else {
      var t := s + [x];
      assert t[1..] == s[1..] + [x];
      DeleteAppended(s[1..], x);
      assert [s[0]] + s[1..] == s;
    }
  }
}
