/** `Array.prototype.filter` over an immutable copy, with and without a
    callback that may throw, and what it means to keep the order. */
module Sequences {
  import opened Values

  /** `sub` is obtained from `s` by deleting elements, the rest kept in order. */
  ghost predicate IsSubsequence<T>(sub: seq<T>, s: seq<T>)
    decreases |s|
  {
    if s == [] then sub == []
    else (sub != [] && sub[0] == s[0] && IsSubsequence(sub[1..], s[1..])) || IsSubsequence(sub, s[1..])
  }

  lemma {:induction false} SubsequenceReflexive<T>(s: seq<T>)
    ensures IsSubsequence(s, s)
    decreases |s|
  {
    if s != [] { SubsequenceReflexive(s[1..]); }
  }

  lemma {:induction false} SubsequenceTransitive<T>(a: seq<T>, b: seq<T>, c: seq<T>)
    requires IsSubsequence(a, b) && IsSubsequence(b, c)
    ensures IsSubsequence(a, c)
    decreases |c|
  {
    if c == [] {
    } else if b != [] && b[0] == c[0] && IsSubsequence(b[1..], c[1..]) {
      if a != [] && a[0] == b[0] && IsSubsequence(a[1..], b[1..]) {
        SubsequenceTransitive(a[1..], b[1..], c[1..]);
      } else {
        assert IsSubsequence(a, b[1..]);
        SubsequenceTransitive(a, b[1..], c[1..]);
      }
    } else {
      SubsequenceTransitive(a, b, c[1..]);
    }
  }

  /** Members of a subsequence are members of the sequence. */
  lemma {:induction false} SubsequenceMembers<T>(sub: seq<T>, s: seq<T>)
    requires IsSubsequence(sub, s)
    ensures forall x :: x in sub ==> x in s
    decreases |s|
  {
    if s == [] {
    } else if sub != [] && sub[0] == s[0] && IsSubsequence(sub[1..], s[1..]) {
      SubsequenceMembers(sub[1..], s[1..]);
      assert sub == [sub[0]] + sub[1..];
    } else {
      SubsequenceMembers(sub, s[1..]);
    }
  }

  /** A sequence holding two different values has at least two elements. */
  lemma TwoMembers<T>(s: seq<T>, a: T, b: T)
    requires a in s && b in s && a != b
    ensures |s| >= 2
  {
  }

  /** No two positions of `s` share a key. */
  ghost predicate KeysDistinct<T, K>(s: seq<T>, key: T -> K)
  {
    forall i, j :: 0 <= i < j < |s| ==> key(s[i]) != key(s[j])
  }

  /** Deleting elements cannot make two keys collide. */
  lemma {:induction false} SubsequenceKeepsKeysDistinct<T, K>(sub: seq<T>, s: seq<T>, key: T -> K)
    requires IsSubsequence(sub, s) && KeysDistinct(s, key)
    ensures KeysDistinct(sub, key)
    decreases |s|
  {
    if s == [] {
    } else if sub != [] && sub[0] == s[0] && IsSubsequence(sub[1..], s[1..]) {
      SubsequenceKeepsKeysDistinct(sub[1..], s[1..], key);
      SubsequenceMembers(sub[1..], s[1..]);
      forall j | 0 < j < |sub|
        ensures key(sub[0]) != key(sub[j])
      {
        assert sub[j] == sub[1..][j - 1];
        assert sub[j] in sub[1..];
        assert sub[j] in s[1..];
        var m :| 0 <= m < |s[1..]| && s[1..][m] == sub[j];
        assert s[m + 1] == sub[j];
      }
      forall i, j | 0 <= i < j < |sub|
        ensures key(sub[i]) != key(sub[j])
      {
        if 0 < i {
          assert sub[i] == sub[1..][i - 1] && sub[j] == sub[1..][j - 1];
        }
      }
    } else {
      SubsequenceKeepsKeysDistinct(sub, s[1..], key);
    }
  }

  /** The result of `Array.prototype.filter` in the list handlers: either the
      kept elements or the error a throwing callback raised. */
  datatype Listing<T> = Listed(items: seq<T>) | Crashed

  /** `s.filter(keep)`: exactly the elements satisfying `keep`, each as often
      as in `s`, in their original order. */
  function Filter<T(!new)>(s: seq<T>, keep: T -> bool): (r: seq<T>)
    ensures IsSubsequence(r, s)
    ensures |r| <= |s|
    ensures forall x :: x in r <==> x in s && keep(x)
    ensures forall x :: multiset(r)[x] == if keep(x) then multiset(s)[x] else 0
  {
    if s == [] then []
    else
      var rest := Filter(s[1..], keep);
      assert s == [s[0]] + s[1..];
      if keep(s[0]) then [s[0]] + rest else rest
  }

  /** Filtering out an element that is there makes the sequence shorter. */
  lemma {:induction false} FilterDrops<T(!new)>(s: seq<T>, keep: T -> bool, i: nat)
    requires i < |s| && !keep(s[i])
    ensures |Filter(s, keep)| < |s|
  {
    if i == 0 {
      assert Filter(s, keep) == Filter(s[1..], keep);
    } else {
      assert s[1..][i - 1] == s[i];
      FilterDrops(s[1..], keep, i - 1);
      assert |Filter(s, keep)| <= 1 + |Filter(s[1..], keep)|;
    }
  }

  /** `s.filter(test)` where `test` throws (`None`) on some elements: the
      whole call throws as soon as one element does. */
  function TryFilter<T(!new)>(s: seq<T>, test: T -> Option<bool>): (r: Option<seq<T>>)
    ensures r.None? <==> exists i :: 0 <= i < |s| && test(s[i]).None?
    ensures r.Some? ==> IsSubsequence(r.value, s)
    ensures r.Some? ==> forall x :: x in r.value <==> x in s && test(x) == Some(true)
    ensures r.Some? ==> forall x :: multiset(r.value)[x] == if test(x) == Some(true) then multiset(s)[x] else 0
  {
    if s == [] then Some([])
    else
      var rest := TryFilter(s[1..], test);
      assert s == [s[0]] + s[1..];
      assert forall i :: 1 <= i < |s| ==> s[i] == s[1..][i - 1];
      if test(s[0]).None? || rest.None? then None
      else if test(s[0]).value then Some([s[0]] + rest.value)
      else rest
  }
}
