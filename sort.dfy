module Sorting {
  /** Non-decreasing keys. */
  predicate SortedBy<T>(s: seq<T>, key: T -> real) {
    forall i, j :: 0 <= i < j < |s| ==> key(s[i]) <= key(s[j])
  }

  /** The prefix `s[..i + 1]` is in order once position `j` is left out. */
  predicate SortedExcept<T>(s: seq<T>, i: nat, j: nat, key: T -> real)
    requires i < |s|
  {
    forall k, l :: 0 <= k < l <= i && k != j && l != j ==> key(s[k]) <= key(s[l])
  }

  /** The element at `j` has a smaller key than everything up to `i` after it. */
  predicate BelowRest<T>(s: seq<T>, i: nat, j: nat, key: T -> real)
    requires j <= i < |s|
  {
    forall l :: j < l <= i ==> key(s[j]) < key(s[l])
  }

  method SortBy<T>(a: array<T>, key: T -> real)
    modifies a
    ensures SortedBy(a[..], key)
    ensures multiset(a[..]) == multiset(old(a[..]))
  {
    if a.Length == 0 {
      return;
    }
    var i := 1;
    while i < a.Length
      invariant 1 <= i <= a.Length
      invariant SortedBy(a[..i], key)
      invariant multiset(a[..]) == multiset(old(a[..]))
    {
      InsertLast(a, i, key);
      i := i + 1;
    }
    assert a[..] == a[..a.Length];
  }

  method InsertLast<T>(a: array<T>, i: nat, key: T -> real)
    requires i < a.Length && SortedBy(a[..i], key)
    modifies a
    ensures SortedBy(a[..i + 1], key)
    ensures multiset(a[..]) == multiset(old(a[..]))
  {
    ghost var original := a[..];
    var j := i;
    while j > 0 && key(a[j]) < key(a[j - 1])
      invariant 0 <= j <= i
      invariant SortedExcept(a[..], i, j, key)
      invariant BelowRest(a[..], i, j, key)
      invariant multiset(a[..]) == multiset(original)
    {
      ghost var s := a[..];
      a[j - 1], a[j] := a[j], a[j - 1];
      SwapStep(s, a[..], i, j, key);
      j := j - 1;
    }
    InsertDone(a[..], i, j, key);
  }

  lemma SwapStep<T>(s: seq<T>, t: seq<T>, i: nat, j: nat, key: T -> real)
    requires 0 < j <= i < |s| && t == s[j - 1 := s[j]][j := s[j - 1]]
    requires SortedExcept(s, i, j, key) && BelowRest(s, i, j, key)
    requires key(s[j]) < key(s[j - 1])
    ensures SortedExcept(t, i, j - 1, key) && BelowRest(t, i, j - 1, key)
    ensures multiset(t) == multiset(s)
  {
    assert s == s[..j - 1] + [s[j - 1], s[j]] + s[j + 1..];
    assert t == s[..j - 1] + [s[j], s[j - 1]] + s[j + 1..];
  }

  lemma InsertDone<T>(s: seq<T>, i: nat, j: nat, key: T -> real)
    requires j <= i < |s|
    requires SortedExcept(s, i, j, key) && BelowRest(s, i, j, key)
    requires j == 0 || key(s[j - 1]) <= key(s[j])
    ensures SortedBy(s[..i + 1], key)
  {
  }

  /** Permutations of the two parts of a sequence, put together, are a
      permutation of the whole. */
  lemma PermutedHalves<T>(s: seq<T>, half: nat, left: seq<T>, right: seq<T>)
    requires half <= |s|
    requires multiset(left) == multiset(s[..half]) && multiset(right) == multiset(s[half..])
    ensures multiset(left + right) == multiset(s)
  {
    assert s == s[..half] + s[half..];
  }
}
