/** filterTable (src/App.jsx lines 25-75): the visible rows, computed from the
    joined products and the view state by five stages in a fixed order: user
    filter, sort, reversal, category filter, search. Pipeline is the stage
    sequence as a function; FilterTable is the method that, like the source,
    sorts and reverses an array in place. */
module Table {
  import opened Wrappers
  import opened Seqs
  import opened Text
  import opened Catalog
  import opened Sorting

  /** sortingOrder: '' | 'asc' | 'desc'. */
  datatype Order = Unsorted | Asc | Desc

  /** `query.trim().toLowerCase()`. */
  function Normalize(query: string): (r: string)
    ensures |r| <= |query|
    ensures forall k :: 0 <= k < |r| ==> !('A' <= r[k] <= 'Z')
  {
    Lower(Trim(query))
  }

  /** `if (selectedUser)`: null and the empty string switch the user filter off. */
  predicate UserFilterOn(selectedUser: Option<string>)
  {
    selectedUser.Some? && selectedUser.value != ""
  }

  /** `product => product.user.name === name`. */
  function OwnedBy(name: string): EnrichedProduct -> bool
  {
    (p: EnrichedProduct) => p.user.name == name
  }

  /** `p => categories.includes(p.category.id)`. */
  function InCategories(categories: seq<int>): EnrichedProduct -> bool
  {
    (p: EnrichedProduct) => p.category.id in categories
  }

  /** `person => person.name.toLowerCase().includes(normalized)`: the product's own name. */
  function NameContains(normalized: string): EnrichedProduct -> bool
  {
    (p: EnrichedProduct) => Contains(Lower(p.name), normalized)
  }

  function UserStage(selectedUser: Option<string>, s: seq<EnrichedProduct>): seq<EnrichedProduct>
  {
    if UserFilterOn(selectedUser) then Filter(OwnedBy(selectedUser.value), s) else s
  }

  function SortStage(sortingColumn: Option<Column>, s: seq<EnrichedProduct>): seq<EnrichedProduct>
  {
    if sortingColumn.Some? then SortSpec(sortingColumn.value, s) else s
  }

  function OrderStage(sortingOrder: Order, s: seq<EnrichedProduct>): seq<EnrichedProduct>
  {
    if sortingOrder == Desc then Reverse(s) else s
  }

  function CategoryStage(categories: seq<int>, s: seq<EnrichedProduct>): seq<EnrichedProduct>
  {
    if |categories| > 0 then Filter(InCategories(categories), s) else s
  }

  function SearchStage(normalized: string, s: seq<EnrichedProduct>): seq<EnrichedProduct>
  {
    if normalized != "" then Filter(NameContains(normalized), s) else s
  }

  /** filterTable as a function of its six arguments. */
  function Pipeline(products: seq<EnrichedProduct>, selectedUser: Option<string>, sortingColumn: Option<Column>,
                    sortingOrder: Order, query: string, categories: seq<int>): (r: seq<EnrichedProduct>)
    ensures |r| <= |products|
    ensures !UserFilterOn(selectedUser) && |categories| == 0 && Normalize(query) == "" ==> |r| == |products|
  {
    SearchStage(Normalize(query),
      CategoryStage(categories,
        OrderStage(sortingOrder,
          SortStage(sortingColumn,
            UserStage(selectedUser, products)))))
  }

  /** p passes the user filter, or the filter is off. */
  predicate UserOk(selectedUser: Option<string>, p: EnrichedProduct)
  {
    UserFilterOn(selectedUser) ==> p.user.name == selectedUser.value
  }

  /** p passes the category filter, or the filter is off. */
  predicate CategoryOk(categories: seq<int>, p: EnrichedProduct)
  {
    |categories| > 0 ==> p.category.id in categories
  }

  /** p passes the search, or the normalized query is empty. */
  predicate SearchOk(normalized: string, p: EnrichedProduct)
  {
    normalized != "" ==> Contains(Lower(p.name), normalized)
  }

  /** p passes every filter that is switched on. */
  predicate Admits(selectedUser: Option<string>, categories: seq<int>, normalized: string, p: EnrichedProduct)
  {
    UserOk(selectedUser, p) && CategoryOk(categories, p) && SearchOk(normalized, p)
  }

  function AdmittedBy(selectedUser: Option<string>, categories: seq<int>, normalized: string): EnrichedProduct -> bool
  {
    (p: EnrichedProduct) => Admits(selectedUser, categories, normalized, p)
  }

  /** Lines 42-61 of filterTable: the rows are copied into an array, sorted in place when a column
      is set, and reversed in place when the order is 'desc'. */
  method SortRows(rows: seq<EnrichedProduct>, sortingColumn: Option<Column>, sortingOrder: Order)
    returns (ordered: seq<EnrichedProduct>)
    ensures ordered == OrderStage(sortingOrder, SortStage(sortingColumn, rows))
  {
    var buffer := new EnrichedProduct[|rows|](k requires 0 <= k < |rows| => rows[k]);
    assert buffer[..] == rows;
    if sortingColumn.Some? {
      SortInPlace(buffer, sortingColumn.value);
    }
    ghost var sorted := buffer[..];
    assert sorted == SortStage(sortingColumn, rows);
    if sortingOrder == Desc {
      ReverseInPlace(buffer);
    }
    ordered := buffer[..];
  }

  /** filterTable: copy, filter by user, sort in place, reverse in place, filter by category, search. */
  method FilterTable(productsToFilter: seq<EnrichedProduct>, selectedUser: Option<string>, sortingColumn: Option<Column>,
                     sortingOrder: Order, query: string, categories: seq<int>) returns (visibleProducts: seq<EnrichedProduct>)
    ensures visibleProducts == Pipeline(productsToFilter, selectedUser, sortingColumn, sortingOrder, query, categories)
  {
    visibleProducts := productsToFilter;
    var normalized := Normalize(query);
    if UserFilterOn(selectedUser) {
      visibleProducts := Filter(OwnedBy(selectedUser.value), visibleProducts);
    }
    assert visibleProducts == UserStage(selectedUser, productsToFilter);
    visibleProducts := SortRows(visibleProducts, sortingColumn, sortingOrder);
    ghost var ordered := visibleProducts;
    if |categories| > 0 {
      visibleProducts := Filter(InCategories(categories), visibleProducts);
    }
    assert visibleProducts == CategoryStage(categories, ordered);
    ghost var categorized := visibleProducts;
    if normalized != "" {
      visibleProducts := Filter(NameContains(normalized), visibleProducts);
    }
    assert visibleProducts == SearchStage(normalized, categorized);
  }

  // Each filter stage is a filter by its part of Admits, whether or not it is switched on.

  lemma UserStageIsFilter(selectedUser: Option<string>, s: seq<EnrichedProduct>)
    ensures UserStage(selectedUser, s) == Filter((p: EnrichedProduct) => UserOk(selectedUser, p), s)
  {
    var f := (p: EnrichedProduct) => UserOk(selectedUser, p);
    if UserFilterOn(selectedUser) {
      FilterSame(OwnedBy(selectedUser.value), f, s);
    } else {
      FilterAll(f, s);
    }
  }

  lemma CategoryStageIsFilter(categories: seq<int>, s: seq<EnrichedProduct>)
    ensures CategoryStage(categories, s) == Filter((p: EnrichedProduct) => CategoryOk(categories, p), s)
  {
    var f := (p: EnrichedProduct) => CategoryOk(categories, p);
    if |categories| > 0 {
      FilterSame(InCategories(categories), f, s);
    } else {
      FilterAll(f, s);
    }
  }

  lemma SearchStageIsFilter(normalized: string, s: seq<EnrichedProduct>)
    ensures SearchStage(normalized, s) == Filter((p: EnrichedProduct) => SearchOk(normalized, p), s)
  {
    var f := (p: EnrichedProduct) => SearchOk(normalized, p);
    if normalized != "" {
      FilterSame(NameContains(normalized), f, s);
    } else {
      FilterAll(f, s);
    }
  }

  /** The category and search stages together are one filter by their parts of Admits. */
  lemma LateStagesAreFilter(categories: seq<int>, normalized: string, s: seq<EnrichedProduct>)
    ensures SearchStage(normalized, CategoryStage(categories, s))
         == Filter((p: EnrichedProduct) => CategoryOk(categories, p) && SearchOk(normalized, p), s)
  {
    var c := (p: EnrichedProduct) => CategoryOk(categories, p);
    var q := (p: EnrichedProduct) => SearchOk(normalized, p);
    CategoryStageIsFilter(categories, s);
    SearchStageIsFilter(normalized, CategoryStage(categories, s));
    FilterFilter(q, c, (p: EnrichedProduct) => CategoryOk(categories, p) && SearchOk(normalized, p), s);
  }

  /** Reversing before the category and search stages is reversing after them. */
  lemma LateStagesCommuteWithReverse(categories: seq<int>, normalized: string, s: seq<EnrichedProduct>)
    ensures SearchStage(normalized, CategoryStage(categories, Reverse(s)))
         == Reverse(SearchStage(normalized, CategoryStage(categories, s)))
  {
    LateStagesAreFilter(categories, normalized, s);
    LateStagesAreFilter(categories, normalized, Reverse(s));
    FilterReverse((p: EnrichedProduct) => CategoryOk(categories, p) && SearchOk(normalized, p), s);
  }

  /** The 'desc' result is exactly the reverse of the 'asc' result with the same other arguments,
      whether or not a column is sorted. */
  // The two orders are parameters rather than the literals Desc and Asc: with literal
  // arguments the verifier unfolds Pipeline far more and the proof becomes costly.
  lemma DescMirrorsAsc(products: seq<EnrichedProduct>, selectedUser: Option<string>, sortingColumn: Option<Column>,
                       query: string, categories: seq<int>, descending: Order, ascending: Order)
    requires descending == Desc && ascending != Desc
    ensures Pipeline(products, selectedUser, sortingColumn, descending, query, categories)
         == Reverse(Pipeline(products, selectedUser, sortingColumn, ascending, query, categories))
  {
    var sorted := SortStage(sortingColumn, UserStage(selectedUser, products));
    LateStagesCommuteWithReverse(categories, Normalize(query), sorted);
  }

  /** With no column, the result is the input filtered by every active filter, in input order,
      reversed when the order is 'desc'. */
  lemma UnsortedIsFiltered(products: seq<EnrichedProduct>, selectedUser: Option<string>, sortingColumn: Option<Column>,
                           sortingOrder: Order, query: string, categories: seq<int>)
    requires sortingColumn.None?
    ensures Pipeline(products, selectedUser, sortingColumn, sortingOrder, query, categories)
         == OrderStage(sortingOrder, Filter(AdmittedBy(selectedUser, categories, Normalize(query)), products))
  {
    var n := Normalize(query);
    var u := (p: EnrichedProduct) => UserOk(selectedUser, p);
    var late := (p: EnrichedProduct) => CategoryOk(categories, p) && SearchOk(n, p);
    var filtered := UserStage(selectedUser, products);
    var admitted := Filter(AdmittedBy(selectedUser, categories, n), products);
    UserStageIsFilter(selectedUser, products);
    FilterFilter(late, u, AdmittedBy(selectedUser, categories, n), products);
    LateStagesAreFilter(categories, n, filtered);
    assert SearchStage(n, CategoryStage(categories, filtered)) == admitted;
    var out := Pipeline(products, selectedUser, sortingColumn, sortingOrder, query, categories);
    assert out == SearchStage(n, CategoryStage(categories, OrderStage(sortingOrder, filtered)));
    if sortingOrder == Desc {
      LateStagesCommuteWithReverse(categories, n, filtered);
      assert out == Reverse(admitted);
    } else {
      assert out == admitted;
    }
  }

  /** Nothing selected, no column, order not 'desc', and a query that trims to nothing:
      the input passes through unchanged. */
  lemma NoFiltersPassThrough(products: seq<EnrichedProduct>, selectedUser: Option<string>, sortingColumn: Option<Column>,
                             sortingOrder: Order, query: string, categories: seq<int>)
    requires !UserFilterOn(selectedUser) && |categories| == 0 && Trim(query) == ""
    requires sortingColumn.None? && sortingOrder != Desc
    ensures Pipeline(products, selectedUser, sortingColumn, sortingOrder, query, categories) == products
  {
    UnsortedIsFiltered(products, selectedUser, sortingColumn, sortingOrder, query, categories);
    FilterAll(AdmittedBy(selectedUser, categories, Normalize(query)), products);
  }

  /** Filtering two permutations of each other gives permutations of each other. */
  lemma FilterPermuted(f: EnrichedProduct -> bool, a: seq<EnrichedProduct>, b: seq<EnrichedProduct>)
    requires multiset(a) == multiset(b)
    ensures multiset(Filter(f, a)) == multiset(Filter(f, b))
  {
    var fa, fb := multiset(Filter(f, a)), multiset(Filter(f, b));
    forall x ensures fa[x] == fb[x] {
      FilterCount(f, a, x);
      FilterCount(f, b, x);
    }
    assert fa == fb;
  }

  /** The visible rows are a permutation of the input rows that pass every active filter. */
  lemma PipelinePermutation(products: seq<EnrichedProduct>, selectedUser: Option<string>, sortingColumn: Option<Column>,
                            sortingOrder: Order, query: string, categories: seq<int>)
    ensures multiset(Pipeline(products, selectedUser, sortingColumn, sortingOrder, query, categories))
         == multiset(Filter(AdmittedBy(selectedUser, categories, Normalize(query)), products))
  {
    var n := Normalize(query);
    var u := (p: EnrichedProduct) => UserOk(selectedUser, p);
    var late := (p: EnrichedProduct) => CategoryOk(categories, p) && SearchOk(n, p);
    var filtered := UserStage(selectedUser, products);
    var sorted := SortStage(sortingColumn, filtered);
    var ordered := OrderStage(sortingOrder, sorted);
    UserStageIsFilter(selectedUser, products);
    if sortingColumn.Some? {
      SortSpecPermutation(sortingColumn.value, filtered);
    }
    ReverseMultiset(sorted);
    assert multiset(ordered) == multiset(filtered);
    LateStagesAreFilter(categories, n, ordered);
    FilterPermuted(late, ordered, filtered);
    FilterFilter(late, u, AdmittedBy(selectedUser, categories, n), products);
  }

  /** Every visible row came from the input (as a sub-multiset) and passes every active filter. */
  lemma PipelineSound(products: seq<EnrichedProduct>, selectedUser: Option<string>, sortingColumn: Option<Column>,
                      sortingOrder: Order, query: string, categories: seq<int>)
    ensures multiset(Pipeline(products, selectedUser, sortingColumn, sortingOrder, query, categories)) <= multiset(products)
    ensures forall p :: p in Pipeline(products, selectedUser, sortingColumn, sortingOrder, query, categories) ==>
              && (UserFilterOn(selectedUser) ==> p.user.name == selectedUser.value)
              && (|categories| > 0 ==> p.category.id in categories)
              && (Normalize(query) != "" ==> Contains(Lower(p.name), Normalize(query)))
  {
    var out := Pipeline(products, selectedUser, sortingColumn, sortingOrder, query, categories);
    var f := AdmittedBy(selectedUser, categories, Normalize(query));
    PipelinePermutation(products, selectedUser, sortingColumn, sortingOrder, query, categories);
    FilterSubMultiset(f, products);
    forall p | p in out ensures Admits(selectedUser, categories, Normalize(query), p) {
      assert p in multiset(out);
      assert p in Filter(f, products);
    }
  }

  /** With a column and order not 'desc', the rows are ordered by that column's comparator;
      with 'desc' they are in the opposite order. */
  lemma PipelineSorted(products: seq<EnrichedProduct>, selectedUser: Option<string>, col: Column,
                       sortingOrder: Order, query: string, categories: seq<int>)
    ensures sortingOrder != Desc ==> Sorted(col, Pipeline(products, selectedUser, Some(col), sortingOrder, query, categories))
    ensures sortingOrder == Desc ==> Sorted(col, Reverse(Pipeline(products, selectedUser, Some(col), sortingOrder, query, categories)))
  {
    var n := Normalize(query);
    var sorted := SortSpec(col, UserStage(selectedUser, products));
    var late := (p: EnrichedProduct) => CategoryOk(categories, p) && SearchOk(n, p);
    SortSpecSorted(col, UserStage(selectedUser, products));
    LateStagesAreFilter(categories, n, sorted);
    SortedFilter(col, late, sorted);
    if sortingOrder == Desc {
      DescMirrorsAsc(products, selectedUser, Some(col), query, categories, Desc, Asc);
      ReverseInvolution(Pipeline(products, selectedUser, Some(col), Asc, query, categories));
    }
  }

  /** Sorting by id ascending: ids never decrease, and the rows are a permutation of the filtered input. */
  lemma SortByIdAscending(products: seq<EnrichedProduct>, selectedUser: Option<string>, query: string, categories: seq<int>)
    ensures var out := Pipeline(products, selectedUser, Some(ById), Asc, query, categories);
      && (forall i, j :: 0 <= i < j < |out| ==> out[i].id <= out[j].id)
      && multiset(out) == multiset(Filter(AdmittedBy(selectedUser, categories, Normalize(query)), products))
  {
    PipelineSorted(products, selectedUser, ById, Asc, query, categories);
    PipelinePermutation(products, selectedUser, Some(ById), Asc, query, categories);
  }

  /** With every filter cleared, all products are visible, in some order. */
  lemma ClearedFiltersShowAll(products: seq<EnrichedProduct>, selectedUser: Option<string>, sortingColumn: Option<Column>,
                              sortingOrder: Order, query: string, categories: seq<int>)
    requires !UserFilterOn(selectedUser) && |categories| == 0 && Trim(query) == ""
    ensures multiset(Pipeline(products, selectedUser, sortingColumn, sortingOrder, query, categories)) == multiset(products)
  {
    PipelinePermutation(products, selectedUser, sortingColumn, sortingOrder, query, categories);
    FilterAll(AdmittedBy(selectedUser, categories, Normalize(query)), products);
  }
}
