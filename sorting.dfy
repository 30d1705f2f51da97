/** The comparators of the table's sort (src/App.jsx lines 43-56) and a stable
    insertion sort standing for Array.prototype.sort. SortSpec is the sort as a
    function; SortInPlace is the in-place array algorithm proved equal to it. */
module Sorting {
  import opened Text
  import opened Seqs
  import opened Catalog

  /** SORT_BY_ID, SORT_BY_PRODUCT, SORT_BY_CATEGORY, SORT_BY_USER. */
  datatype Column = ById | ByProduct | ByCategory | ByUser

  /** localeCompare, modelled on code-point order: negative, zero or positive. */
  function StrCompare(a: string, b: string): (r: int)
    ensures -1 <= r <= 1
    ensures r < 0 <==> StrLess(a, b)
    ensures r == 0 <==> a == b
    ensures r > 0 <==> StrLess(b, a)
  {
    StrLessTotal(a, b);
    StrLessAsymmetric(a, b);
    if StrLess(a, b) then -1 else if a == b then 0 else 1
  }

  /** The comparator handed to sort for the column. */
  function Compare(col: Column, p1: EnrichedProduct, p2: EnrichedProduct): (r: int)
    ensures col.ById? ==> (r < 0 <==> p1.id < p2.id) && (r == 0 <==> p1.id == p2.id)
    ensures col.ByProduct? ==> (r < 0 <==> StrLess(p1.name, p2.name)) && (r == 0 <==> p1.name == p2.name)
    ensures col.ByCategory? ==> (r < 0 <==> StrLess(p1.category.title, p2.category.title))
                                && (r == 0 <==> p1.category.title == p2.category.title)
    ensures col.ByUser? ==> (r < 0 <==> StrLess(p1.user.name, p2.user.name)) && (r == 0 <==> p1.user.name == p2.user.name)
  {
    match col
    case ByUser => StrCompare(p1.user.name, p2.user.name)
    case ByCategory => StrCompare(p1.category.title, p2.category.title)
    case ByProduct => StrCompare(p1.name, p2.name)
    case ById => p1.id - p2.id
  }

  /** p1 sorts strictly before p2. */
  predicate Less(col: Column, p1: EnrichedProduct, p2: EnrichedProduct)
  {
    Compare(col, p1, p2) < 0
  }

  /** p1 and p2 have the same sort key. */
  predicate Tied(col: Column, p1: EnrichedProduct, p2: EnrichedProduct)
  {
    !Less(col, p1, p2) && !Less(col, p2, p1)
  }

  lemma LessAsymmetric(col: Column, p: EnrichedProduct, q: EnrichedProduct)
    ensures Less(col, p, q) ==> !Less(col, q, p)
  {
    match col
    case ById =>
    case ByProduct => StrLessAsymmetric(p.name, q.name);
    case ByCategory => StrLessAsymmetric(p.category.title, q.category.title);
    case ByUser => StrLessAsymmetric(p.user.name, q.user.name);
  }

  /** Each comparator is a strict weak order: not-less is transitive. */
  lemma NotLessTransitive(col: Column, a: EnrichedProduct, b: EnrichedProduct, c: EnrichedProduct)
    ensures !Less(col, a, b) && !Less(col, b, c) ==> !Less(col, a, c)
  {
    match col
    case ById =>
    case ByProduct =>
      StrNotLessTransitive(a.name, b.name, c.name);
      StrLessAsymmetric(a.name, c.name);
    case ByCategory =>
      StrNotLessTransitive(a.category.title, b.category.title, c.category.title);
      StrLessAsymmetric(a.category.title, c.category.title);
    case ByUser =>
      StrNotLessTransitive(a.user.name, b.user.name, c.user.name);
      StrLessAsymmetric(a.user.name, c.user.name);
  }

  /** Ordered by the comparator: no element sorts strictly before an earlier one. */
  predicate Sorted(col: Column, s: seq<EnrichedProduct>)
  {
    forall i, j :: 0 <= i < j < |s| ==> !Less(col, s[j], s[i])
  }

  /** Inserts x into t from the right, passing only elements that sort strictly after x. */
  function Insert(col: Column, t: seq<EnrichedProduct>, x: EnrichedProduct): (r: seq<EnrichedProduct>)
    ensures |r| == |t| + 1
  {
    if t == [] || !Less(col, x, t[|t| - 1]) then t + [x]
    else Insert(col, t[..|t| - 1], x) + [t[|t| - 1]]
  }

  /** Insertion sort: each element in turn inserted into the sorted prefix before it. */
  function SortSpec(col: Column, s: seq<EnrichedProduct>): (r: seq<EnrichedProduct>)
    ensures |r| == |s|
  {
    if s == [] then [] else Insert(col, SortSpec(col, s[..|s| - 1]), s[|s| - 1])
  }

  lemma {:induction false} InsertMultiset(col: Column, t: seq<EnrichedProduct>, x: EnrichedProduct)
    ensures multiset(Insert(col, t, x)) == multiset(t) + multiset{x}
  {
    if t != [] && Less(col, x, t[|t| - 1]) {
      InsertMultiset(col, t[..|t| - 1], x);
      assert t == t[..|t| - 1] + [t[|t| - 1]];
    }
  }

  /** Insert puts x after a prefix of t and before a suffix whose elements all sort strictly after x. */
  lemma {:induction false} InsertSplits(col: Column, t: seq<EnrichedProduct>, x: EnrichedProduct) returns (j: nat)
    ensures j <= |t| && Insert(col, t, x) == t[..j] + [x] + t[j..]
    ensures forall k :: j <= k < |t| ==> Less(col, x, t[k])
  {
    if t == [] || !Less(col, x, t[|t| - 1]) {
      j := |t|;
      assert Insert(col, t, x) == t[..|t|] + [x] + t[|t|..];
    } else {
      var f := t[..|t| - 1];
      j := InsertSplits(col, f, x);
      assert t[..j] == f[..j];
      assert t[j..] == f[j..] + [t[|t| - 1]];
      assert Insert(col, t, x) == t[..j] + [x] + t[j..];
    }
  }

  /** Elements before the last are no later than the last, in a sorted sequence. */
  lemma SortedLast(col: Column, t: seq<EnrichedProduct>, y: EnrichedProduct)
    requires Sorted(col, t) && t != [] && y in t
    ensures !Less(col, t[|t| - 1], y)
  {
    var k :| 0 <= k < |t| && t[k] == y;
    if k < |t| - 1 {
      assert !Less(col, t[|t| - 1], t[k]);
    } else {
      LessAsymmetric(col, y, y);
    }
  }

  lemma SortedSnoc(col: Column, t: seq<EnrichedProduct>, x: EnrichedProduct)
    requires Sorted(col, t)
    requires forall y :: y in t ==> !Less(col, x, y)
    ensures Sorted(col, t + [x])
  {
    var r := t + [x];
    forall i, j | 0 <= i < j < |r| ensures !Less(col, r[j], r[i]) {
      if j == |t| {
        assert r[i] in t;
      } else {
        assert r[i] == t[i] && r[j] == t[j];
      }
    }
  }

  lemma SortedCons(col: Column, x: EnrichedProduct, t: seq<EnrichedProduct>)
    requires Sorted(col, t)
    requires forall y :: y in t ==> !Less(col, y, x)
    ensures Sorted(col, [x] + t)
  {
    var r := [x] + t;
    forall i, j | 0 <= i < j < |r| ensures !Less(col, r[j], r[i]) {
      if i == 0 {
        assert r[j] in t;
      } else {
        assert r[i] == t[i - 1] && r[j] == t[j - 1];
      }
    }
  }

  lemma {:induction false} InsertSorted(col: Column, t: seq<EnrichedProduct>, x: EnrichedProduct)
    requires Sorted(col, t)
    ensures Sorted(col, Insert(col, t, x))
  {
    if t == [] {
      SortedSnoc(col, t, x);
    } else if !Less(col, x, t[|t| - 1]) {
      forall y | y in t ensures !Less(col, x, y) {
        SortedLast(col, t, y);
        NotLessTransitive(col, x, t[|t| - 1], y);
      }
      SortedSnoc(col, t, x);
    } else {
      var f, last := t[..|t| - 1], t[|t| - 1];
      assert Sorted(col, f);
      InsertSorted(col, f, x);
      InsertMultiset(col, f, x);
      forall y | y in Insert(col, f, x) ensures !Less(col, last, y) {
        assert y in multiset(f) + multiset{x};
        if y == x {
          LessAsymmetric(col, x, last);
        } else {
          assert y in t;
          SortedLast(col, t, y);
        }
      }
      SortedSnoc(col, Insert(col, f, x), last);
    }
  }

  /** The sort result is ordered by the comparator. */
  lemma {:induction false} SortSpecSorted(col: Column, s: seq<EnrichedProduct>)
    ensures Sorted(col, SortSpec(col, s))
  {
    if s != [] {
      SortSpecSorted(col, s[..|s| - 1]);
      InsertSorted(col, SortSpec(col, s[..|s| - 1]), s[|s| - 1]);
    }
  }

  /** The sort result is a permutation of its input. */
  lemma {:induction false} SortSpecPermutation(col: Column, s: seq<EnrichedProduct>)
    ensures multiset(SortSpec(col, s)) == multiset(s)
  {
    if s != [] {
      SortSpecPermutation(col, s[..|s| - 1]);
      InsertMultiset(col, SortSpec(col, s[..|s| - 1]), s[|s| - 1]);
      assert s == s[..|s| - 1] + [s[|s| - 1]];
    }
  }

  /** The elements tied with x, as a filter predicate. */
  function TiedWith(col: Column, x: EnrichedProduct): EnrichedProduct -> bool
  {
    (y: EnrichedProduct) => Tied(col, x, y)
  }

  /** Nothing that sorts strictly after e is tied with x when e is. */
  lemma TiedNoneAfter(col: Column, e: EnrichedProduct, x: EnrichedProduct, b: seq<EnrichedProduct>)
    requires Tied(col, x, e)
    requires forall k :: 0 <= k < |b| ==> Less(col, e, b[k])
    ensures forall k :: 0 <= k < |b| ==> !TiedWith(col, x)(b[k])
  {
    forall k | 0 <= k < |b| ensures !Tied(col, x, b[k]) {
      NotLessTransitive(col, e, x, b[k]);
    }
  }

  lemma InsertStable(col: Column, t: seq<EnrichedProduct>, e: EnrichedProduct, x: EnrichedProduct)
    ensures Filter(TiedWith(col, x), Insert(col, t, e)) == Filter(TiedWith(col, x), t) + Filter(TiedWith(col, x), [e])
  {
    var f := TiedWith(col, x);
    var j := InsertSplits(col, t, e);
    var a, b := t[..j], t[j..];
    assert t == a + b;
    if f(e) {
      TiedNoneAfter(col, e, x, b);
    }
    FilterSplice(f, a, e, b);
  }

  /** The sort is stable: the elements tied with any x keep their relative order. */
  lemma {:induction false} SortSpecStable(col: Column, s: seq<EnrichedProduct>, x: EnrichedProduct)
    ensures Filter(TiedWith(col, x), SortSpec(col, s)) == Filter(TiedWith(col, x), s)
  {
    if s != [] {
      var f, last := s[..|s| - 1], s[|s| - 1];
      assert s == f + [last];
      assert SortSpec(col, s) == Insert(col, SortSpec(col, f), last);
      SortSpecStable(col, f, x);
      InsertStable(col, SortSpec(col, f), last, x);
      FilterAppend(TiedWith(col, x), f, [last]);
    }
  }

  /** A filter keeps a sorted sequence sorted. */
  lemma {:induction false} SortedFilter(col: Column, f: EnrichedProduct -> bool, s: seq<EnrichedProduct>)
    requires Sorted(col, s)
    ensures Sorted(col, Filter(f, s))
  {
    if s != [] {
      assert Sorted(col, s[1..]);
      SortedFilter(col, f, s[1..]);
      if f(s[0]) {
        var rest := Filter(f, s[1..]);
        forall y | y in rest ensures !Less(col, y, s[0]) {
          var k :| 0 <= k < |s[1..]| && s[1..][k] == y;
          assert s[k + 1] == y;
        }
        SortedCons(col, s[0], rest);
      }
    }
  }

  /** Insert places x right after the last element of t that does not sort strictly after it. */
  lemma {:induction false} InsertAt(col: Column, t: seq<EnrichedProduct>, x: EnrichedProduct, j: nat)
    requires j <= |t| && (j == 0 || !Less(col, x, t[j - 1]))
    requires forall k :: j <= k < |t| ==> Less(col, x, t[k])
    ensures Insert(col, t, x) == t[..j] + [x] + t[j..]
    decreases |t|
  {
    if j < |t| {
      var f := t[..|t| - 1];
      assert Less(col, x, t[|t| - 1]);
      InsertAt(col, f, x, j);
      assert t[..j] == f[..j];
      assert t[j..] == f[j..] + [t[|t| - 1]];
    } else {
      assert t[..j] == t;
    }
  }

  /** Swapping x with its left neighbour in t[..j] + [x] + t[j..]. */
  lemma SwapLeft(t: seq<EnrichedProduct>, x: EnrichedProduct, j: nat, u: seq<EnrichedProduct>)
    requires 0 < j <= |t|
    requires |u| == |t| + 1
    requires u[..j - 1] == t[..j - 1] && u[j - 1] == x && u[j] == t[j - 1] && u[j + 1..] == t[j..]
    ensures u == t[..j - 1] + [x] + t[j - 1..]
  {
    var w := t[..j - 1] + [x] + t[j - 1..];
    assert |w| == |u|;
    forall k | 0 <= k < |u| ensures u[k] == w[k] {
      if k < j - 1 {
        assert u[k] == u[..j - 1][k];
      } else if k > j {
        assert u[k] == u[j + 1..][k - j - 1];
      }
    }
  }

  /** The inner loop of the insertion sort: a[i] moves left past every
      element of a[..i] that sorts strictly after it. */
  method InsertLast(a: array<EnrichedProduct>, col: Column, i: nat)
    requires i < a.Length
    modifies a
    ensures a[..i + 1] == Insert(col, old(a[..i]), old(a[i]))
    ensures a[i + 1..] == old(a[i + 1..])
  {
    ghost var t := a[..i];
    ghost var x := a[i];
    ghost var rest := a[i + 1..];
    var j := i;
    assert t[..j] == t && t[j..] == [];
    assert a[..i + 1] == t + [x];
    while j > 0 && Less(col, a[j], a[j - 1])
      invariant 0 <= j <= i
      invariant a[..i + 1] == t[..j] + [x] + t[j..]
      invariant a[i + 1..] == rest
      invariant forall k :: j <= k < i ==> Less(col, x, t[k])
    {
      assert a[j] == x && a[j - 1] == t[j - 1] by {
        assert a[j] == a[..i + 1][j];
        assert a[j - 1] == a[..i + 1][j - 1];
      }
      ghost var before := a[..i + 1];
      a[j - 1], a[j] := a[j], a[j - 1];
      assert a[..i + 1][..j - 1] == before[..j - 1];
      assert a[..i + 1][j + 1..] == before[j + 1..];
      SwapLeft(t, x, j, a[..i + 1]);
      j := j - 1;
    }
    assert a[j] == a[..i + 1][j];
    assert j > 0 ==> a[j - 1] == a[..i + 1][j - 1];
    InsertAt(col, t, x, j);
  }

  /** One more element of the input: the sort of the longer prefix inserts it into the sort of the shorter. */
  lemma SortSpecStep(col: Column, s: seq<EnrichedProduct>, i: nat)
    requires i < |s|
    ensures SortSpec(col, s[..i + 1]) == Insert(col, SortSpec(col, s[..i]), s[i])
  {
    assert s[..i + 1][..i] == s[..i];
  }

  /** Array.prototype.sort with the column's comparator, as a stable in-place insertion sort. */
  method SortInPlace(a: array<EnrichedProduct>, col: Column)
    modifies a
    ensures a[..] == SortSpec(col, old(a[..]))
    ensures Sorted(col, a[..]) && multiset(a[..]) == multiset(old(a[..]))
  {
    ghost var s := a[..];
    var i := 0;
    while i < a.Length
      invariant 0 <= i <= a.Length
      invariant a[..i] == SortSpec(col, s[..i])
      invariant a[i..] == s[i..]
    {
      assert a[i] == a[i..][0] == s[i];
      InsertLast(a, col, i);
      SortSpecStep(col, s, i);
      assert a[..i + 1] == SortSpec(col, s[..i + 1]);
      assert a[i + 1..] == s[i + 1..];
      i := i + 1;
    }
    assert a[..] == a[..a.Length] && s == s[..a.Length];
    SortSpecSorted(col, s);
    SortSpecPermutation(col, s);
  }
}
