/** The older, single-file store: the same cells and getters as the split version, with actions
    that differ in three places: a successful add appends the record locally, a successful fetch
    takes the payload as it is, and delete has no guard on its argument. */
module LegacyProductsStore {
  import opened ProductTypes
  import ProductGetters
  import ProductEdits
  import Lists

  class LegacyStore {
    var products: seq<Product>
    var searchQuery: string
    var filterCategory: string
    var sortBy: string
    var sortOrder: SortOrder
    var loading: bool
    var error: Option<string>

    function Snapshot(): StoreState
      reads this
    {
      StoreState(products, searchQuery, filterCategory, sortBy, sortOrder, loading, error)
    }

    constructor ()
      ensures Snapshot() == InitialState
      ensures FilteredProducts() == [] && Categories() == []
    {
      products := [];
      searchQuery := "";
      filterCategory := "";
      sortBy := "Title";
      sortOrder := Asc;
      loading := false;
      error := None;
      new;
      ProductGetters.EmptyListHasEmptyViews("", "", "Title", Asc);
    }

    /** `filteredProducts`: the same derivation as the split getter. */
    function FilteredProducts(): (r: seq<Product>)
      reads this
      ensures forall p :: multiset(r)[p] == if ProductGetters.Passes(p, searchQuery, filterCategory) then multiset(products)[p] else 0
      ensures ProductGetters.SortedBy(r, ProductGetters.SortKeyOf(sortBy), sortOrder)
    {
      ProductGetters.FilteredProducts(products, searchQuery, filterCategory, sortBy, sortOrder)
    }

    /** `categories`: the distinct categories in first-occurrence order. */
    function Categories(): (r: seq<string>)
      reads this
      ensures Lists.NoDuplicates(r)
      ensures forall c :: c in r <==> c in ProductGetters.CategoryColumn(products)
      ensures forall i, j :: 0 <= i < j < |r| ==>
        Lists.FirstIndex(ProductGetters.CategoryColumn(products), r[i]) < Lists.FirstIndex(ProductGetters.CategoryColumn(products), r[j])
    {
      ProductGetters.Categories(products)
    }

    /** `loading.value = true; error.value = null;`, the state while a call is in flight. */
    method StartLoading()
      modifies this
      ensures Snapshot() == old(Snapshot()).(loading := true, error := None)
    {
      loading := true;
      error := None;
    }

    /** `fetchProducts`: on success the list becomes `response.data` as it is. */
    method FetchProducts(reply: Reply<seq<Product>>)
      modifies this
      ensures Snapshot() == old(Snapshot()).(
        products := if reply.Ok? then reply.payload else old(products),
        error := if reply.Ok? then None else Some(FetchError),
        loading := false)
    {
      StartLoading();
      if reply.Ok? {
        products := reply.payload;
      } else {
        error := Some(FetchError);
      }
      loading := false;
    }

    /** `addProduct`: after a successful post a copy of the record is pushed onto the list. */
    method AddProduct(product: Product, post: Reply<()>)
      modifies this
      ensures Snapshot() == old(Snapshot()).(
        products := if post.Ok? then old(products) + [product] else old(products),
        error := if post.Ok? then None else Some(AddError),
        loading := false)
      ensures post.Ok? ==> |products| == |old(products)| + 1 && products[|products| - 1] == product
    {
      StartLoading();
      if post.Ok? {
        products := products + [product];
      } else {
        error := Some(AddError);
      }
      loading := false;
    }

    /** `updateProduct`: after a successful put the first record with the same `Id` is overwritten
        in place; with no such record, or after a failed put, the list stays. */
    method UpdateProduct(updatedProduct: Product, put: Reply<()>)
      modifies this
      ensures Snapshot() == old(Snapshot()).(
        products := if put.Ok? then ProductEdits.ReplaceFirstById(old(products), updatedProduct) else old(products),
        error := if put.Ok? then None else Some(UpdateError),
        loading := false)
      ensures |products| == |old(products)|
    {
      StartLoading();
      if put.Ok? {
        var index := ProductEdits.FindIndexById(products, updatedProduct.Id);
        if index != -1 {
          products := products[index := updatedProduct];
        }
        assert products == ProductEdits.ReplaceFirstById(old(products), updatedProduct);
      } else {
        error := Some(UpdateError);
      }
      loading := false;
    }

    /** `deleteProduct`: no guard, so every `id`, zero included, reaches the remote call; after a
        successful delete every record with that `Id` is dropped. */
    method DeleteProduct(id: int, del: Reply<()>)
      modifies this
      ensures Snapshot() == old(Snapshot()).(
        products := if del.Ok? then ProductEdits.RemoveById(old(products), id) else old(products),
        error := if del.Ok? then None else Some(DeleteError),
        loading := false)
    {
      StartLoading();
      if del.Ok? {
        products := ProductEdits.RemoveById(products, id);
      } else {
        error := Some(DeleteError);
      }
      loading := false;
    }

    method SetSearchQuery(query: string)
      modifies this
      ensures Snapshot() == old(Snapshot()).(searchQuery := query)
    {
      searchQuery := query;
    }

    method SetFilterCategory(category: string)
      modifies this
      ensures Snapshot() == old(Snapshot()).(filterCategory := category)
    {
      filterCategory := category;
    }

    method SetSortBy(field: string)
      modifies this
      ensures Snapshot() == old(Snapshot()).(sortBy := field)
    {
      sortBy := field;
    }

    method ToggleSortOrder()
      modifies this
      ensures Snapshot() == old(Snapshot()).(sortOrder := Toggle(old(sortOrder)))
    {
      sortOrder := Toggle(sortOrder);
    }
  }
}
