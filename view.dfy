/** The interactive state of the App component (src/App.jsx lines 78-106 and
    212-216): which user is selected, which category ids are selected, the
    sort column and order, and the search text, with the transitions the
    controls trigger. NextSort and Toggled are those transitions as functions;
    the ViewState class holds the state as fields and updates them in place. */
module View {
  import opened Wrappers
  import opened Seqs
  import opened Catalog
  import opened Sorting
  import opened Table

  /** The pair (sortingColumn, sortingOrder). */
  datatype SortState = SortState(column: Option<Column>, order: Order)

  /** handleSorting: another column starts at 'asc'; the same column goes 'asc' to 'desc', then back to unsorted. */
  function NextSort(s: SortState, newColumn: Column): (r: SortState)
    ensures r.column.Some? ==> r.column == Some(newColumn)
    ensures r.order == Asc <==> s.column != Some(newColumn)
    ensures r.order == Desc <==> s == SortState(Some(newColumn), Asc)
    ensures r.column.None? <==> s == SortState(Some(newColumn), Desc)
    ensures s == SortState(Some(newColumn), Unsorted) ==> r == s
  {
    if s.column != Some(newColumn) then SortState(Some(newColumn), Asc)
    else if s.order == Asc then SortState(s.column, Desc)
    else if s.order == Desc then SortState(None, Unsorted)
    else s
  }

  /** The order is '' exactly when no column is set. */
  predicate Consistent(s: SortState)
  {
    s.order == Unsorted <==> s.column.None?
  }

  lemma NextSortConsistent(s: SortState, newColumn: Column)
    requires Consistent(s)
    ensures Consistent(NextSort(s, newColumn))
    ensures NextSort(s, newColumn) != s
  {
  }

  /** From the unsorted state, one column's header cycles through 'asc', 'desc' and back to unsorted. */
  lemma SortCycle(s: SortState, c: Column)
    requires s.column.None?
    ensures NextSort(s, c) == SortState(Some(c), Asc)
    ensures NextSort(NextSort(s, c), c) == SortState(Some(c), Desc)
    ensures NextSort(NextSort(NextSort(s, c), c), c) == SortState(None, Unsorted)
  {
  }

  /** Clicking the header of the column sorted 'asc' reverses the visible rows. */
  lemma SecondClickReverses(products: seq<EnrichedProduct>, selectedUser: Option<string>, query: string,
                            categories: seq<int>, s: SortState, c: Column)
    requires s.column == Some(c) && s.order == Asc
    ensures var n := NextSort(s, c);
      Pipeline(products, selectedUser, n.column, n.order, query, categories)
      == Reverse(Pipeline(products, selectedUser, s.column, s.order, query, categories))
  {
    var n := NextSort(s, c);
    assert n == SortState(Some(c), Desc);
    DescMirrorsAsc(products, selectedUser, s.column, query, categories, n.order, s.order);
  }

  /** Three clicks on one header from an unsorted state show the rows as before the first click. */
  lemma ThreeClicksRestoreRows(products: seq<EnrichedProduct>, selectedUser: Option<string>, query: string,
                               categories: seq<int>, s: SortState, c: Column)
    requires s.column.None? && s.order != Desc
    ensures var n := NextSort(NextSort(NextSort(s, c), c), c);
      Pipeline(products, selectedUser, n.column, n.order, query, categories)
      == Pipeline(products, selectedUser, s.column, s.order, query, categories)
  {
    var n := NextSort(NextSort(NextSort(s, c), c), c);
    SortCycle(s, c);
    UnsortedIsFiltered(products, selectedUser, n.column, n.order, query, categories);
    UnsortedIsFiltered(products, selectedUser, s.column, s.order, query, categories);
  }

  /** `s => s !== id`. */
  function Other(id: int): int -> bool
  {
    (x: int) => x != id
  }

  /** handleCategoriesFilter: remove id if it is selected, otherwise append it. */
  function Toggled(selected: seq<int>, id: int): (r: seq<int>)
    ensures forall x :: x in r ==> x in selected || x == id
    ensures id !in selected ==> id in r
    ensures id in selected ==> id !in r
  {
    if id in selected then Filter(Other(id), selected) else selected + [id]
  }

  /** Toggling flips whether id is selected and leaves every other id as it was. */
  lemma ToggleFlips(selected: seq<int>, id: int, other: int)
    ensures id in Toggled(selected, id) <==> id !in selected
    ensures other != id ==> (other in Toggled(selected, id) <==> other in selected)
  {
    FilterMembers(Other(id), selected, id);
    FilterMembers(Other(id), selected, other);
  }

  /** Toggling twice selects the same ids as before. */
  lemma ToggleTwiceSameIds(selected: seq<int>, id: int, x: int)
    ensures x in Toggled(Toggled(selected, id), id) <==> x in selected
  {
    ToggleFlips(selected, id, x);
    ToggleFlips(Toggled(selected, id), id, x);
  }

  /** Toggling an unselected id twice restores the list exactly (push, then filter it out). */
  lemma ToggleTwiceAbsent(selected: seq<int>, id: int)
    requires id !in selected
    ensures Toggled(Toggled(selected, id), id) == selected
  {
    assert id in selected + [id];
    FilterAppend(Other(id), selected, [id]);
    FilterAll(Other(id), selected);
    assert Filter(Other(id), [id]) == [];
  }

  /** Toggling keeps the selection free of duplicates, and removing takes out exactly one copy. */
  lemma ToggleNoDuplicates(selected: seq<int>, id: int)
    requires NoDuplicates(selected)
    ensures NoDuplicates(Toggled(selected, id))
    ensures id in selected ==> multiset(Toggled(selected, id)) == multiset(selected) - multiset{id}
  {
    if id in selected {
      FilterNoDuplicates(Other(id), selected);
      forall x ensures multiset(Toggled(selected, id))[x] == (multiset(selected) - multiset{id})[x] {
        FilterCount(Other(id), selected, x);
        if x == id {
          NoDuplicatesCount(selected, id);
        }
      }
    } else {
      var r := selected + [id];
      forall i, j | 0 <= i < j < |r| ensures r[i] != r[j] {
        if j == |selected| {
          assert r[i] in selected;
        }
      }
    }
  }

  lemma {:induction false} NoDuplicatesCount(s: seq<int>, x: int)
    requires NoDuplicates(s)
    ensures multiset(s)[x] <= 1
  {
    if s != [] {
      assert NoDuplicates(s[1..]) by {
        forall i, j | 0 <= i < j < |s[1..]| ensures s[1..][i] != s[1..][j] {
          assert s[1..][i] == s[i + 1] && s[1..][j] == s[j + 1];
        }
      }
      NoDuplicatesCount(s[1..], x);
      assert s == [s[0]] + s[1..];
      if s[0] == x {
        forall k | 0 <= k < |s[1..]| ensures s[1..][k] != x {
          assert s[1..][k] == s[k + 1];
        }
        assert x !in s[1..];
      }
    }
  }

  /** The App component's useState values. */
  class ViewState {
    var selectedCategories: seq<int>
    var selectedUser: Option<string>
    var sortingColumn: Option<Column>
    var sortingOrder: Order
    var query: string

    /** The sort header state is consistent and no category id is selected twice. */
    ghost predicate Valid()
      reads this
    {
      Consistent(SortState(sortingColumn, sortingOrder)) && NoDuplicates(selectedCategories)
    }

    /** The initial values passed to useState. */
    constructor ()
      ensures Valid()
      ensures selectedCategories == [] && selectedUser == None && sortingColumn == None
      ensures sortingOrder == Unsorted && query == ""
    {
      selectedCategories := [];
      selectedUser := None;
      sortingColumn := None;
      sortingOrder := Unsorted;
      query := "";
    }

    /** handleSorting. */
    method HandleSorting(newColumn: Column)
      requires Valid()
      modifies this
      ensures SortState(sortingColumn, sortingOrder) == NextSort(old(SortState(sortingColumn, sortingOrder)), newColumn)
      ensures SortState(sortingColumn, sortingOrder) != old(SortState(sortingColumn, sortingOrder))
      ensures selectedCategories == old(selectedCategories) && selectedUser == old(selectedUser) && query == old(query)
      ensures Valid()
    {
      if sortingColumn != Some(newColumn) {
        sortingColumn := Some(newColumn);
        sortingOrder := Asc;
      } else if sortingOrder == Asc {
        sortingOrder := Desc;
      } else if sortingOrder == Desc {
        sortingColumn := None;
        sortingOrder := Unsorted;
      }
      NextSortConsistent(old(SortState(sortingColumn, sortingOrder)), newColumn);
    }

    /** handleCategoriesFilter. */
    method HandleCategoriesFilter(category: int)
      requires Valid()
      modifies this
      ensures selectedCategories == Toggled(old(selectedCategories), category)
      ensures category in old(selectedCategories)
              ==> multiset(selectedCategories) == multiset(old(selectedCategories)) - multiset{category}
      ensures selectedUser == old(selectedUser) && query == old(query)
      ensures sortingColumn == old(sortingColumn) && sortingOrder == old(sortingOrder)
      ensures Valid()
    {
      var categories := selectedCategories;
      if category in categories {
        categories := Filter(Other(category), categories);
      } else {
        categories := categories + [category];
      }
      selectedCategories := categories;
      ToggleNoDuplicates(old(selectedCategories), category);
    }

    /** The "Reset all filters" handler: categories, user and query are cleared; the sort is kept. */
    method ResetFilters()
      requires Valid()
      modifies this
      ensures selectedCategories == [] && selectedUser == None && query == ""
      ensures sortingColumn == old(sortingColumn) && sortingOrder == old(sortingOrder)
      ensures Valid()
    {
      selectedCategories := [];
      selectedUser := None;
      query := "";
    }

    /** The user links: `setSelectedUser(u.name)`, or `setSelectedUser(null)` for "All". */
    method SelectUser(user: Option<string>)
      requires Valid()
      modifies this
      ensures selectedUser == user
      ensures selectedCategories == old(selectedCategories) && query == old(query)
      ensures sortingColumn == old(sortingColumn) && sortingOrder == old(sortingOrder)
      ensures Valid()
    {
      selectedUser := user;
    }

    /** The search box, `setQuery(event.target.value)`, and its clear button, `setQuery('')`: stored verbatim. */
    method SetQuery(text: string)
      requires Valid()
      modifies this
      ensures query == text
      ensures selectedCategories == old(selectedCategories) && selectedUser == old(selectedUser)
      ensures sortingColumn == old(sortingColumn) && sortingOrder == old(sortingOrder)
      ensures Valid()
    {
      query := text;
    }

    /** The rows rendered for the current state: filterTable applied to the joined products. */
    method VisibleProducts(products: seq<EnrichedProduct>) returns (visibleProducts: seq<EnrichedProduct>)
      ensures visibleProducts == Pipeline(products, selectedUser, sortingColumn, sortingOrder, query, selectedCategories)
    {
      visibleProducts := FilterTable(products, selectedUser, sortingColumn, sortingOrder, query, selectedCategories);
    }
  }
}
