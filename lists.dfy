/** The array operations the store relies on (`find`, `filter`, `includes`),
    stated over sequences. */
module Lists {
  import opened Wrappers

  /** No element occurs twice. */
  predicate NoDuplicates<T(==)>(s: seq<T>) {
    forall i, j :: 0 <= i < j < |s| ==> s[i] != s[j]
  }

  /** `r` can be obtained from `s` by deleting elements: the elements of `r`
      appear in `s` in the same relative order. */
  ghost predicate IsSubsequence<T>(r: seq<T>, s: seq<T>)
    decreases |s|
  {
    r == [] || (s != [] && if r[0] == s[0] then IsSubsequence(r[1..], s[1..]) else IsSubsequence(r, s[1..]))
  }

  /** `s.find(p)`, returning the index of the first element that satisfies `p`. */
  function FindIndex<T>(s: seq<T>, p: T -> bool): (r: Option<nat>)
    ensures r.Some? ==> r.value < |s| && p(s[r.value]) && forall j :: 0 <= j < r.value ==> !p(s[j])
    ensures r.None? <==> forall j :: 0 <= j < |s| ==> !p(s[j])
  {
    if s == [] then None
    else if p(s[0]) then Some(0)
    else match FindIndex(s[1..], p)
      case None => None
      case Some(i) => Some(i + 1)
  }

  /** `s.filter(x => x !== e)`: every occurrence of `e` is dropped. */
  function Without<T(==,!new)>(s: seq<T>, e: T): (r: seq<T>)
    ensures forall x :: x in r <==> x in s && x != e
    ensures e !in s ==> r == s
  {
    if s == [] then []
    else if s[0] == e then Without(s[1..], e)
    else [s[0]] + Without(s[1..], e)
  }

  /** Filtering keeps the order of what it keeps. */
  lemma {:induction false} WithoutIsSubsequence<T(!new)>(s: seq<T>, e: T)
    ensures IsSubsequence(Without(s, e), s)
  {
    if s != [] {
      WithoutIsSubsequence(s[1..], e);
      var r := Without(s, e);
      if s[0] != e {
        assert r[1..] == Without(s[1..], e);
      } else if r != [] {
        assert r[0] in r;
      }
    }
  }

  /** Filtering removes exactly the occurrences of `e` and nothing else. */
  lemma {:induction false} WithoutMultiset<T(!new)>(s: seq<T>, e: T)
    ensures multiset(Without(s, e)) == multiset(s)[e := 0]
  {
    if s != [] {
      assert s == [s[0]] + s[1..];
      WithoutMultiset(s[1..], e);
    }
  }

  /** Filtering cannot create a duplicate. */
  lemma {:induction false} WithoutNoDuplicates<T(!new)>(s: seq<T>, e: T)
    requires NoDuplicates(s)
    ensures NoDuplicates(Without(s, e))
  {
    if s != [] {
      WithoutNoDuplicates(s[1..], e);
      if s[0] != e {
        var t := Without(s[1..], e);
        assert s[0] !in s[1..];
        assert s[0] !in t;
        assert forall i :: 0 < i < |t| + 1 ==> ([s[0]] + t)[i] == t[i - 1];
      }
    }
  }

  /** Filtering distributes over concatenation. */
  lemma {:induction false} WithoutAppend<T(!new)>(a: seq<T>, b: seq<T>, e: T)
    ensures Without(a + b, e) == Without(a, e) + Without(b, e)
  {
    if a != [] {
      assert (a + b)[1..] == a[1..] + b;
      WithoutAppend(a[1..], b, e);
    } else {
      assert a + b == b;
    }
  }
}
