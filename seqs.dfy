/** The Array.prototype operations the product table relies on (filter, find,
    reverse), modelled as functions on sequences, with the facts the pipeline
    needs about them. */
module Seqs {
  import opened Wrappers

  /** Array.prototype.filter: the elements satisfying f, in their original order. */
  function Filter<T>(f: T -> bool, s: seq<T>): (r: seq<T>)
    ensures |r| <= |s|
    ensures forall x :: x in r ==> x in s && f(x)
  {
    if s == [] then []
    else if f(s[0]) then [s[0]] + Filter(f, s[1..])
    else Filter(f, s[1..])
  }

  /** The index of the first element at or after i satisfying f, if there is one. */
  function FindFrom<T>(f: T -> bool, s: seq<T>, i: nat): (r: Option<nat>)
    requires i <= |s|
    ensures r.Some? ==> i <= r.value < |s| && f(s[r.value])
    ensures r.Some? ==> forall m :: i <= m < r.value ==> !f(s[m])
    ensures r.None? <==> forall k :: i <= k < |s| ==> !f(s[k])
    decreases |s| - i
  {
    if i == |s| then None
    else if f(s[i]) then Some(i)
    else FindFrom(f, s, i + 1)
  }

  /** The index of the first element satisfying f, if there is one. */
  function FindIndex<T>(f: T -> bool, s: seq<T>): (r: Option<nat>)
    ensures r.Some? ==> r.value < |s| && f(s[r.value])
    ensures r.Some? ==> forall m :: 0 <= m < r.value ==> !f(s[m])
    ensures r.None? <==> forall k :: 0 <= k < |s| ==> !f(s[k])
  {
    FindFrom(f, s, 0)
  }

  /** Array.prototype.find: the first element satisfying f, or undefined. */
  function Find<T>(f: T -> bool, s: seq<T>): (r: Option<T>)
    ensures r.None? <==> forall k :: 0 <= k < |s| ==> !f(s[k])
    ensures r.Some? ==> exists k :: 0 <= k < |s| && s[k] == r.value && f(s[k]) && forall m :: 0 <= m < k ==> !f(s[m])
  {
    match FindIndex(f, s)
    case None => None
    case Some(k) => Some(s[k])
  }

  /** Array.prototype.reverse, as a value. */
  function Reverse<T>(s: seq<T>): (r: seq<T>)
    ensures |r| == |s|
    ensures forall k :: 0 <= k < |s| ==> r[k] == s[|s| - 1 - k]
  {
    if s == [] then [] else Reverse(s[1..]) + [s[0]]
  }

  lemma ReverseInvolution<T>(s: seq<T>)
    ensures Reverse(Reverse(s)) == s
  {
    assert forall k :: 0 <= k < |s| ==> Reverse(Reverse(s))[k] == s[k];
  }

  lemma {:induction false} ReverseMultiset<T>(s: seq<T>)
    ensures multiset(Reverse(s)) == multiset(s)
  {
    if s != [] {
      ReverseMultiset(s[1..]);
      assert s == [s[0]] + s[1..];
    }
  }

  /** How many copies of x survive a filter. */
  lemma {:induction false} FilterCount<T>(f: T -> bool, s: seq<T>, x: T)
    ensures multiset(Filter(f, s))[x] == if f(x) then multiset(s)[x] else 0
  {
    if s != [] {
      FilterCount(f, s[1..], x);
      assert s == [s[0]] + s[1..];
    }
  }

  /** A filter keeps a sub-multiset of its input. */
  lemma FilterSubMultiset<T>(f: T -> bool, s: seq<T>)
    ensures multiset(Filter(f, s)) <= multiset(s)
  {
    forall x ensures multiset(Filter(f, s))[x] <= multiset(s)[x] {
      FilterCount(f, s, x);
    }
  }

  /** A filter that every element passes changes nothing. */
  lemma {:induction false} FilterAll<T>(f: T -> bool, s: seq<T>)
    requires forall k :: 0 <= k < |s| ==> f(s[k])
    ensures Filter(f, s) == s
  {
    if s != [] {
      FilterAll(f, s[1..]);
    }
  }

  lemma {:induction false} FilterAppend<T>(f: T -> bool, a: seq<T>, b: seq<T>)
    ensures Filter(f, a + b) == Filter(f, a) + Filter(f, b)
  {
    if a == [] {
      assert a + b == b;
    } else {
      assert (a + b)[1..] == a[1..] + b;
      FilterAppend(f, a[1..], b);
    }
  }

  /** Filtering commutes with reversal: a filter keeps relative order. */
  /** Filtering a + [e] + b is filtering a + b and then appending the filter of [e],
      when nothing in b passes in case e does. */
  lemma FilterSplice<T>(f: T -> bool, a: seq<T>, e: T, b: seq<T>)
    requires f(e) ==> forall k :: 0 <= k < |b| ==> !f(b[k])
    ensures Filter(f, a + [e] + b) == Filter(f, a + b) + Filter(f, [e])
  {
    FilterAppend(f, a + [e], b);
    FilterAppend(f, a, [e]);
    FilterAppend(f, a, b);
    var fa, fe, fb := Filter(f, a), Filter(f, [e]), Filter(f, b);
    if f(e) {
      FilterNone(f, b);
      assert fa + fb == fa;
      assert fa + fe + fb == fa + fe;
    } else {
      FilterNone(f, [e]);
      assert fa + fe == fa;
      assert (fa + fb) + fe == fa + fb;
    }
  }

  lemma {:induction false} FilterReverse<T>(f: T -> bool, s: seq<T>)
    ensures Filter(f, Reverse(s)) == Reverse(Filter(f, s))
  {
    if s != [] {
      FilterReverse(f, s[1..]);
      FilterAppend(f, Reverse(s[1..]), [s[0]]);
      if f(s[0]) {
        assert ([s[0]] + Filter(f, s[1..]))[1..] == Filter(f, s[1..]);
      }
    }
  }

  /** Two filters in a row are one filter by the conjunction. */
  lemma {:induction false} FilterFilter<T>(f: T -> bool, g: T -> bool, h: T -> bool, s: seq<T>)
    requires forall x :: h(x) == (f(x) && g(x))
    ensures Filter(f, Filter(g, s)) == Filter(h, s)
  {
    if s != [] {
      FilterFilter(f, g, h, s[1..]);
    }
  }

  /** Filters with the same verdict on every element agree. */
  lemma {:induction false} FilterSame<T>(f: T -> bool, g: T -> bool, s: seq<T>)
    requires forall x :: f(x) == g(x)
    ensures Filter(f, s) == Filter(g, s)
  {
    if s != [] {
      FilterSame(f, g, s[1..]);
    }
  }

  /** A filter that no element passes keeps nothing. */
  lemma {:induction false} FilterNone<T>(f: T -> bool, s: seq<T>)
    requires forall k :: 0 <= k < |s| ==> !f(s[k])
    ensures Filter(f, s) == []
  {
    if s != [] {
      FilterNone(f, s[1..]);
    }
  }

  /** A filter keeps exactly the elements of s that satisfy f. */
  lemma {:induction false} FilterMembers<T>(f: T -> bool, s: seq<T>, x: T)
    ensures x in Filter(f, s) <==> x in s && f(x)
  {
    if s != [] {
      FilterMembers(f, s[1..], x);
      assert s == [s[0]] + s[1..];
    }
  }

  predicate NoDuplicates<T(==)>(s: seq<T>)
  {
    forall i, j :: 0 <= i < j < |s| ==> s[i] != s[j]
  }

  /** A filter of a duplicate-free sequence is duplicate-free. */
  lemma {:induction false} FilterNoDuplicates<T>(f: T -> bool, s: seq<T>)
    requires NoDuplicates(s)
    ensures NoDuplicates(Filter(f, s))
  {
    if s != [] {
      assert NoDuplicates(s[1..]) by {
        forall i, j | 0 <= i < j < |s[1..]| ensures s[1..][i] != s[1..][j] {
          assert s[1..][i] == s[i + 1] && s[1..][j] == s[j + 1];
        }
      }
      FilterNoDuplicates(f, s[1..]);
      if f(s[0]) {
        var rest := Filter(f, s[1..]);
        FilterMembers(f, s[1..], s[0]);
        assert s[0] !in s[1..] by {
          forall k | 0 <= k < |s[1..]| ensures s[1..][k] != s[0] {
            assert s[1..][k] == s[k + 1];
          }
        }
        var r := [s[0]] + rest;
        forall i, j | 0 <= i < j < |r| ensures r[i] != r[j] {
          if i == 0 {
            assert r[j] == rest[j - 1] && rest[j - 1] in rest;
          } else {
            assert r[i] == rest[i - 1] && r[j] == rest[j - 1];
          }
        }
      }
    }
  }

  /** Array.prototype.reverse: the array is reversed where it stands. */
  method ReverseInPlace<T>(a: array<T>)
    modifies a
    ensures a[..] == Reverse(old(a[..]))
  {
    var lo, hi := 0, a.Length - 1;
    while lo < hi
      invariant 0 <= lo && hi == a.Length - 1 - lo && lo <= hi + 2
      invariant forall k :: 0 <= k < lo ==> a[k] == old(a[a.Length - 1 - k]) && a[a.Length - 1 - k] == old(a[k])
      invariant forall k :: lo <= k <= hi ==> a[k] == old(a[k])
    {
      a[lo], a[hi] := a[hi], a[lo];
      lo, hi := lo + 1, hi - 1;
    }
    assert forall k :: 0 <= k < a.Length ==> a[..][k] == Reverse(old(a[..]))[k];
  }
}
