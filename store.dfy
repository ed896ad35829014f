/** The store of the split version: the mutable state cells, allocated with their initial
    values, and the two getters, which read the same cells the actions write. */
module ProductsStore {
  import opened ProductTypes
  import ProductGetters
  import Lists

  class Store {
    var products: seq<Product>
    var searchQuery: string
    var filterCategory: string
    var sortBy: string
    var sortOrder: SortOrder
    var loading: bool
    var error: Option<string>

    function Snapshot(): StoreState
      reads this
    {
      StoreState(products, searchQuery, filterCategory, sortBy, sortOrder, loading, error)
    }

    constructor ()
      ensures Snapshot() == InitialState
      ensures FilteredProducts() == [] && Categories() == []
    {
      products := [];
      searchQuery := "";
      filterCategory := "";
      sortBy := "Title";
      sortOrder := Asc;
      loading := false;
      error := None;
      new;
      ProductGetters.EmptyListHasEmptyViews("", "", "Title", Asc);
    }

    /** `filteredProducts`, recomputed from the current cells on every read. */
    function FilteredProducts(): (r: seq<Product>)
      reads this
      ensures forall p :: multiset(r)[p] == if ProductGetters.Passes(p, searchQuery, filterCategory) then multiset(products)[p] else 0
      ensures ProductGetters.SortedBy(r, ProductGetters.SortKeyOf(sortBy), sortOrder)
    {
      ProductGetters.FilteredProducts(products, searchQuery, filterCategory, sortBy, sortOrder)
    }

    /** `categories`, recomputed from the current cells on every read. */
    function Categories(): (r: seq<string>)
      reads this
      ensures Lists.NoDuplicates(r)
      ensures forall c :: c in r <==> c in ProductGetters.CategoryColumn(products)
      ensures forall i, j :: 0 <= i < j < |r| ==>
        Lists.FirstIndex(ProductGetters.CategoryColumn(products), r[i]) < Lists.FirstIndex(ProductGetters.CategoryColumn(products), r[j])
    {
      ProductGetters.Categories(products)
    }
  }
}
