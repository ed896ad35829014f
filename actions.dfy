/** The actions of the split version. Each remote call is an input: the `Reply` it settled to.
    Every action that calls out first sets `loading` and clears `error`, and its `finally`
    resets `loading`; the failure branch stores the action's fixed message. */
module ProductActions {
  import opened ProductTypes
  import opened ProductsStore
  import ProductEdits

  /** `loading.value = true; error.value = null;`, the state while a call is in flight. */
  method StartLoading(st: Store)
    modifies st
    ensures st.Snapshot() == old(st.Snapshot()).(loading := true, error := None)
  {
    st.loading := true;
    st.error := None;
  }

  /** `response?.data ?? []` */
  function ListOrEmpty(body: Option<seq<Product>>): (r: seq<Product>)
    ensures body.Some? ==> r == body.value
    ensures r == [] <==> body.None? || body.value == []
  {
    match body
    case None => []
    case Some(items) => items
  }

  /** `fetchProducts`: on success the list becomes the payload, or empty when there is none; on
      failure the list stays and the fetch message is stored. */
  method FetchProducts(st: Store, reply: Reply<Option<seq<Product>>>)
    modifies st
    ensures st.Snapshot() == old(st.Snapshot()).(
      products := if reply.Ok? then ListOrEmpty(reply.payload) else old(st.products),
      error := if reply.Ok? then None else Some(FetchError),
      loading := false)
  {
    StartLoading(st);
    if reply.Ok? {
      st.products := ListOrEmpty(reply.payload);
    } else {
      st.error := Some(FetchError);
    }
    st.loading := false;
  }

  /** `addProduct`: posts the record and, once the post succeeds, fetches the whole list again;
      the list changes only through that fetch. The fetch is not awaited in the source; here it
      runs to completion before the `finally`, which leaves the same final state. */
  method AddProduct(st: Store, product: Product, post: Reply<()>, refetch: Reply<Option<seq<Product>>>)
    modifies st
    ensures post.Failed? ==> st.Snapshot() == old(st.Snapshot()).(error := Some(AddError), loading := false)
    ensures post.Ok? ==> st.Snapshot() == old(st.Snapshot()).(
      products := if refetch.Ok? then ListOrEmpty(refetch.payload) else old(st.products),
      error := if refetch.Ok? then None else Some(FetchError),
      loading := false)
  {
    StartLoading(st);
    if post.Ok? {
      FetchProducts(st, refetch);
    } else {
      st.error := Some(AddError);
    }
    st.loading := false;
  }

  /** `updateProduct`: after a successful put the first record with the same `Id` is overwritten
      in place; with no such record, or after a failed put, the list stays. */
  method UpdateProduct(st: Store, updatedProduct: Product, put: Reply<()>)
    modifies st
    ensures st.Snapshot() == old(st.Snapshot()).(
      products := if put.Ok? then ProductEdits.ReplaceFirstById(old(st.products), updatedProduct) else old(st.products),
      error := if put.Ok? then None else Some(UpdateError),
      loading := false)
    ensures |st.products| == |old(st.products)|
  {
    StartLoading(st);
    if put.Ok? {
      var index := ProductEdits.FindIndexById(st.products, updatedProduct.Id);
      if index != -1 {
        st.products := st.products[index := updatedProduct];
      }
      assert st.products == ProductEdits.ReplaceFirstById(old(st.products), updatedProduct);
    } else {
      st.error := Some(UpdateError);
    }
    st.loading := false;
  }

  /** `!id` for `id?: number`: undefined or zero. */
  predicate Falsy(id: Option<int>)
    ensures !Falsy(id) <==> exists n :: n != 0 && id == Some(n)
  {
    id.None? || id.value == 0
  }

  /** `deleteProduct`: a falsy `id` returns before anything happens; otherwise after a successful
      delete every record with that `Id` is dropped, and after a failed one the list stays. */
  method DeleteProduct(st: Store, id: Option<int>, del: Reply<()>)
    modifies st
    ensures Falsy(id) ==> st.Snapshot() == old(st.Snapshot())
    ensures !Falsy(id) ==> st.Snapshot() == old(st.Snapshot()).(
      products := if del.Ok? then ProductEdits.RemoveById(old(st.products), id.value) else old(st.products),
      error := if del.Ok? then None else Some(DeleteError),
      loading := false)
  {
    if Falsy(id) {
      return;
    }
    StartLoading(st);
    if del.Ok? {
      st.products := ProductEdits.RemoveById(st.products, id.value);
    } else {
      st.error := Some(DeleteError);
    }
    st.loading := false;
  }

  method SetSearchQuery(st: Store, query: string)
    modifies st
    ensures st.Snapshot() == old(st.Snapshot()).(searchQuery := query)
  {
    st.searchQuery := query;
  }

  method SetFilterCategory(st: Store, category: string)
    modifies st
    ensures st.Snapshot() == old(st.Snapshot()).(filterCategory := category)
  {
    st.filterCategory := category;
  }

  method SetSortBy(st: Store, field: string)
    modifies st
    ensures st.Snapshot() == old(st.Snapshot()).(sortBy := field)
  {
    st.sortBy := field;
  }

  method ToggleSortOrder(st: Store)
    modifies st
    ensures st.Snapshot() == old(st.Snapshot()).(sortOrder := Toggle(old(st.sortOrder)))
  {
    st.sortOrder := Toggle(st.sortOrder);
  }

  /** The getters and the actions share one set of cells: a view read after an action reflects
      what the action wrote. */
  method SharedCellsScenario(p: Product) returns (listed: seq<Product>, cats: seq<string>, remaining: seq<Product>)
    requires p.Category == "A" && p.Id != 0
    ensures listed == [p]
    ensures cats == ["A"]
    ensures remaining == []
  {
    var st := new Store();
    assert st.FilteredProducts() == [];
    FetchProducts(st, Ok(Some([p])));
    SetFilterCategory(st, "A");
    listed := st.FilteredProducts();
    assert multiset(listed) == multiset{p};
    assert |listed| == |multiset(listed)| == 1;
    assert listed[0] in multiset(listed);
    assert ProductGetters.CategoryColumn(st.products) == ["A"];
    assert Lists.Distinct(["A"]) == ["A"];
    cats := st.Categories();
    DeleteProduct(st, None, Failed);
    assert st.products == [p] && !st.loading && st.error == None;
    DeleteProduct(st, Some(p.Id), Ok(()));
    remaining := st.products;
  }
}
