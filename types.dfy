/** The record type of the store and the small value types shared by both store versions. */
module ProductTypes {

  datatype Option<+T> = None | Some(value: T)

  /** One catalog item (ProductItemType). `Price` is `number | null`; numbers are modelled as integers. */
  datatype Product = Product(
    Id: int,
    Title: string,
    Description: string,
    Category: string,
    Price: Option<int>,
    Image: string,
    C_OR_R: string)

  /** The `"asc" | "desc"` union held by `sortOrder`. */
  datatype SortOrder = Asc | Desc

  /** What a remote call settles to: a resolved promise with its payload, or a rejection. */
  datatype Reply<+T> = Ok(payload: T) | Failed

  /** The store's seven state cells, read together. `error` is `string | null`. */
  datatype StoreState = StoreState(
    products: seq<Product>,
    searchQuery: string,
    filterCategory: string,
    sortBy: string,
    sortOrder: SortOrder,
    loading: bool,
    error: Option<string>)

  /** The values the cells are created with. */
  const InitialState := StoreState([], "", "", "Title", Asc, false, None)

  /** The fixed messages an action stores in `error` when its remote call fails. */
  const FetchError := "Failed to fetch products"
  const AddError := "Failed to add product"
  const UpdateError := "Failed to update product"
  const DeleteError := "Failed to delete product"

  /** `sortOrder === "asc" ? "desc" : "asc"` */
  function Toggle(o: SortOrder): (r: SortOrder)
    ensures r != o
  {
    if o == Asc then Desc else Asc
  }

  lemma ToggleInvolution(o: SortOrder)
    ensures Toggle(Toggle(o)) == o
  {
  }
}
