/** The two derived views of the store: the searched, filtered and sorted product list, and the
    list of distinct categories. Both are pure functions of the state cells they read. */
module ProductGetters {
  import opened ProductTypes
  import opened Text
  import Lists

  /** The keys of ProductItemType. */
  const FieldNames: seq<string> := ["Id", "Title", "Description", "Category", "Price", "Image", "C_OR_R"]

  /** `product[field]?.toString()`: the text of the named field, or None where the field is
      undefined (not a key of the record) or null (an unset `Price`). */
  function FieldText(p: Product, field: string): (r: Option<string>)
    ensures r.None? <==> field !in FieldNames || (field == "Price" && p.Price.None?)
  {
    if field == "Id" then Some(IntToString(p.Id))
    else if field == "Title" then Some(p.Title)
    else if field == "Description" then Some(p.Description)
    else if field == "Category" then Some(p.Category)
    else if field == "Price" then (match p.Price case None => None case Some(v) => Some(IntToString(v)))
    else if field == "Image" then Some(p.Image)
    else if field == "C_OR_R" then Some(p.C_OR_R)
    else None
  }

  /** The sort key of a record: its field's text lower-cased, or "" when there is none. */
  function SortKey(p: Product, field: string): (k: string)
    ensures field !in FieldNames ==> k == ""
    ensures field == "Price" && p.Price.None? ==> k == ""
    ensures field == "Title" ==> k == Lower(p.Title)
  {
    match FieldText(p, field)
    case None => ""
    case Some(t) => Lower(t)
  }

  /** `SortKey` with its field fixed, the key function of one sort. */
  function SortKeyOf(field: string): Product -> string
  {
    p => SortKey(p, field)
  }

  /** The comparator given to `sort`, applied to the keys of its two arguments: 1 puts the first
      argument after the second, -1 before it. Equal keys give -1 both ways round. */
  function Compare(o: SortOrder, a: string, b: string): (r: int)
    ensures r == 1 || r == -1
    ensures a == b ==> r == -1
  {
    LtIrreflexive(a);
    match o
    case Asc => if Lt(b, a) then 1 else -1
    case Desc => if Lt(a, b) then 1 else -1
  }

  /** Key `a` may stand before key `b` in a list sorted in direction `o`. */
  predicate InOrder(o: SortOrder, a: string, b: string)
  {
    match o
    case Asc => Le(a, b)
    case Desc => Le(b, a)
  }

  lemma CompareAgreesWithOrder(o: SortOrder, a: string, b: string)
    ensures Compare(o, a, b) < 0 ==> InOrder(o, a, b)
    ensures Compare(o, a, b) > 0 ==> InOrder(o, b, a)
  {
    LtAsymmetric(a, b);
  }

  lemma InOrderTransitive(o: SortOrder, a: string, b: string, c: string)
    requires InOrder(o, a, b) && InOrder(o, b, c)
    ensures InOrder(o, a, c)
  {
    match o
    case Asc => LeTransitive(a, b, c);
    case Desc => LeTransitive(c, b, a);
  }

  lemma InOrderAntisymmetric(o: SortOrder, a: string, b: string)
    requires InOrder(o, a, b) && InOrder(o, b, a)
    ensures a == b
  {
    LeAntisymmetric(a, b);
  }

  /** Keys are non-decreasing (Asc) or non-increasing (Desc) along `s`. */
  ghost predicate SortedBy(s: seq<Product>, key: Product -> string, o: SortOrder)
  {
    forall i, j :: 0 <= i < j < |s| ==> InOrder(o, key(s[i]), key(s[j]))
  }

  /** No two positions of `s` have the same key. */
  ghost predicate DistinctKeys(s: seq<Product>, key: Product -> string)
  {
    forall i, j :: 0 <= i < j < |s| ==> key(s[i]) != key(s[j])
  }

  lemma SortedTail(s: seq<Product>, key: Product -> string, o: SortOrder)
    requires s != [] && SortedBy(s, key, o)
    ensures SortedBy(s[1..], key, o)
  {
    forall i, j | 0 <= i < j < |s| - 1
      ensures InOrder(o, key(s[1..][i]), key(s[1..][j]))
    {
      assert s[1..][i] == s[i + 1] && s[1..][j] == s[j + 1];
    }
  }

  lemma InsertFront(x: Product, s: seq<Product>, key: Product -> string, o: SortOrder)
    requires s != [] && SortedBy(s, key, o)
    requires Compare(o, key(x), key(s[0])) < 0
    ensures SortedBy([x] + s, key, o)
  {
    var r := [x] + s;
    CompareAgreesWithOrder(o, key(x), key(s[0]));
    forall i, j | 0 <= i < j < |r|
      ensures InOrder(o, key(r[i]), key(r[j]))
    {
      if i == 0 && j > 1 {
        InOrderTransitive(o, key(x), key(s[0]), key(s[j - 1]));
      }
    }
  }

  lemma InsertBehind(x: Product, s: seq<Product>, rest: seq<Product>, key: Product -> string, o: SortOrder)
    requires s != [] && SortedBy(s, key, o)
    requires Compare(o, key(x), key(s[0])) >= 0
    requires multiset(rest) == multiset(s[1..]) + multiset{x}
    requires SortedBy(rest, key, o)
    ensures SortedBy([s[0]] + rest, key, o)
    ensures multiset([s[0]] + rest) == multiset(s) + multiset{x}
  {
    var r := [s[0]] + rest;
    assert s == [s[0]] + s[1..];
    CompareAgreesWithOrder(o, key(x), key(s[0]));
    forall j | 0 <= j < |rest|
      ensures InOrder(o, key(s[0]), key(rest[j]))
    {
      assert rest[j] in multiset(rest);
      if rest[j] != x {
        assert rest[j] in s[1..];
        var k :| 0 <= k < |s[1..]| && s[1..][k] == rest[j];
        assert s[k + 1] == rest[j];
      }
    }
    forall i, j | 0 <= i < j < |r|
      ensures InOrder(o, key(r[i]), key(r[j]))
    {
      if i == 0 {
        assert r[j] == rest[j - 1];
      } else {
        assert r[i] == rest[i - 1] && r[j] == rest[j - 1];
      }
    }
  }

  /** Inserts `x` into the sorted list `s` in front of the first element the comparator does not
      put before it. */
  function Insert(x: Product, s: seq<Product>, key: Product -> string, o: SortOrder): (r: seq<Product>)
    requires SortedBy(s, key, o)
    ensures multiset(r) == multiset(s) + multiset{x}
    ensures SortedBy(r, key, o)
    decreases |s|
  {
    if s == [] then
      [x]
    else if Compare(o, key(x), key(s[0])) < 0 then
      InsertFront(x, s, key, o);
      assert s == [s[0]] + s[1..];
      [x] + s
    else
      SortedTail(s, key, o);
      var rest := Insert(x, s[1..], key, o);
      InsertBehind(x, s, rest, key, o);
      [s[0]] + rest
  }

  /** `[...s].sort(cmp)` with the source's comparator on the keys `key` gives. The engine's
      algorithm is not fixed by the language; insertion sort is one admissible choice, and
      everything the model promises about it holds of any permutation with ordered keys. */
  function SortByKey(s: seq<Product>, key: Product -> string, o: SortOrder): (r: seq<Product>)
    ensures multiset(r) == multiset(s)
    ensures SortedBy(r, key, o)
    decreases |s|
  {
    if s == [] then []
    else
      assert s == [s[0]] + s[1..];
      Insert(s[0], SortByKey(s[1..], key, o), key, o)
  }

  /** Sorted permutations of one another with distinct keys start with the same record. */
  lemma SortedHeadsEqual(a: seq<Product>, b: seq<Product>, key: Product -> string, o: SortOrder)
    requires a != [] && multiset(a) == multiset(b)
    requires SortedBy(a, key, o) && SortedBy(b, key, o)
    requires DistinctKeys(a, key)
    ensures b != [] && a[0] == b[0]
  {
    assert a[0] in multiset(b) && b[0] in multiset(a);
    var j :| 0 <= j < |b| && b[j] == a[0];
    var i :| 0 <= i < |a| && a[i] == b[0];
    var ka, kb := key(a[0]), key(b[0]);
    if i > 0 {
      assert InOrder(o, ka, kb);
      if j > 0 {
        assert InOrder(o, kb, ka);
      }
      InOrderAntisymmetric(o, ka, kb);
      assert false;
    }
  }

  lemma DistinctKeysTail(a: seq<Product>, key: Product -> string)
    requires a != [] && DistinctKeys(a, key)
    ensures DistinctKeys(a[1..], key)
  {
    forall x, y | 0 <= x < y < |a| - 1
      ensures key(a[1..][x]) != key(a[1..][y])
    {
      assert a[1..][x] == a[x + 1] && a[1..][y] == a[y + 1];
    }
  }

  /** Two permutations of one another that are both sorted by pairwise distinct keys are equal:
      with distinct keys the sorted order is uniquely determined. */
  lemma {:induction false} SortedPermutationUnique(a: seq<Product>, b: seq<Product>, key: Product -> string, o: SortOrder)
    requires multiset(a) == multiset(b)
    requires SortedBy(a, key, o) && SortedBy(b, key, o)
    requires DistinctKeys(a, key)
    ensures a == b
    decreases |a|
  {
    if a == [] {
      assert |b| == |multiset(b)| == 0;
    } else {
      SortedHeadsEqual(a, b, key, o);
      assert a == [a[0]] + a[1..] && b == [b[0]] + b[1..];
      assert multiset(a[1..]) == multiset(a) - multiset{a[0]};
      assert multiset(b[1..]) == multiset(b) - multiset{b[0]};
      SortedTail(a, key, o);
      SortedTail(b, key, o);
      DistinctKeysTail(a, key);
      SortedPermutationUnique(a[1..], b[1..], key, o);
    }
  }

  /** The search step's test: the lower-cased title includes the lower-cased query. */
  predicate MatchesSearch(p: Product, query: string)
  {
    Includes(Lower(p.Title), Lower(query))
  }

  /** A record survives both filtering steps; an empty query or category switches its step off. */
  predicate Passes(p: Product, query: string, category: string)
  {
    (query == "" || MatchesSearch(p, query)) && (category == "" || p.Category == category)
  }

  /** The search step followed by the category step, before sorting. */
  function Selected(products: seq<Product>, query: string, category: string): (r: seq<Product>)
    ensures forall p :: multiset(r)[p] == if Passes(p, query, category) then multiset(products)[p] else 0
  {
    var searched := if query != "" then Lists.Filter(products, (p: Product) => MatchesSearch(p, query)) else products;
    if category != "" then Lists.Filter(searched, (p: Product) => p.Category == category) else searched
  }

  /** `filteredProducts`: search on `Title`, then exact match on `Category`, then sort a copy. */
  function FilteredProducts(products: seq<Product>, query: string, category: string, sortBy: string, o: SortOrder): (r: seq<Product>)
    ensures forall p :: multiset(r)[p] == if Passes(p, query, category) then multiset(products)[p] else 0
    ensures forall p :: p in r <==> p in products && Passes(p, query, category)
    ensures SortedBy(r, SortKeyOf(sortBy), o)
  {
    var r := SortByKey(Selected(products, query, category), SortKeyOf(sortBy), o);
    assert forall p :: p in r <==> multiset(r)[p] > 0;
    r
  }

  /** With a non-empty query every listed title contains the query, ignoring case. */
  lemma SearchIsSound(products: seq<Product>, query: string, category: string, sortBy: string, o: SortOrder, p: Product)
    requires query != ""
    requires p in FilteredProducts(products, query, category, sortBy, o)
    ensures exists k :: OccursAt(Lower(p.Title), Lower(query), k)
  {
    assert MatchesSearch(p, query);
    IncludesIff(Lower(p.Title), Lower(query));
  }

  /** With a non-empty query every record whose title contains it, ignoring case, and whose
      category passes is listed. */
  lemma SearchIsComplete(products: seq<Product>, query: string, category: string, sortBy: string, o: SortOrder, p: Product, k: int)
    requires query != ""
    requires p in products && (category == "" || p.Category == category)
    requires OccursAt(Lower(p.Title), Lower(query), k)
    ensures p in FilteredProducts(products, query, category, sortBy, o)
  {
    IncludesIff(Lower(p.Title), Lower(query));
    assert Passes(p, query, category);
  }

  /** With a non-empty category every listed record has exactly that category. */
  lemma CategoryFilterIsExact(products: seq<Product>, query: string, category: string, sortBy: string, o: SortOrder, p: Product)
    requires category != ""
    requires p in FilteredProducts(products, query, category, sortBy, o)
    ensures p.Category == category
  {
  }

  /** With neither query nor category the view is a reordering of the whole list. */
  lemma NoFilterKeepsEverything(products: seq<Product>, sortBy: string, o: SortOrder)
    ensures multiset(FilteredProducts(products, "", "", sortBy, o)) == multiset(products)
  {
    var r := FilteredProducts(products, "", "", sortBy, o);
    assert forall p :: multiset(r)[p] == multiset(products)[p];
  }

  /** Any list holding exactly the records that pass, sorted, is the view, once keys are distinct. */
  lemma FilteredProductsUnique(products: seq<Product>, query: string, category: string, sortBy: string, o: SortOrder, t: seq<Product>)
    requires forall p :: multiset(t)[p] == if Passes(p, query, category) then multiset(products)[p] else 0
    requires SortedBy(t, SortKeyOf(sortBy), o)
    requires DistinctKeys(t, SortKeyOf(sortBy))
    ensures t == FilteredProducts(products, query, category, sortBy, o)
  {
    var r := FilteredProducts(products, query, category, sortBy, o);
    assert multiset(t) == multiset(r);
    SortedPermutationUnique(t, r, SortKeyOf(sortBy), o);
  }

  /** `products.map((p) => p.Category)` */
  function CategoryColumn(products: seq<Product>): (c: seq<string>)
    ensures |c| == |products|
    ensures forall x :: x in c <==> exists i :: 0 <= i < |products| && products[i].Category == x
  {
    var c := seq(|products|, i requires 0 <= i < |products| => products[i].Category);
    assert forall i :: 0 <= i < |products| ==> c[i] == products[i].Category && c[i] in c;
    c
  }

  /** `categories`: each category of the list once, in order of first occurrence. */
  function Categories(products: seq<Product>): (r: seq<string>)
    ensures Lists.NoDuplicates(r)
    ensures forall i :: 0 <= i < |products| ==> products[i].Category in r
    ensures forall c :: c in r ==> exists i :: 0 <= i < |products| && products[i].Category == c
    ensures forall c :: c in r <==> c in CategoryColumn(products)
    ensures forall i, j :: 0 <= i < j < |r| ==>
      Lists.FirstIndex(CategoryColumn(products), r[i]) < Lists.FirstIndex(CategoryColumn(products), r[j])
  {
    var column := CategoryColumn(products);
    var r := Lists.Distinct(column);
    assert forall i :: 0 <= i < |products| ==> column[i] in column;
    r
  }

  /** Before the first fetch both views are empty. */
  lemma EmptyListHasEmptyViews(query: string, category: string, sortBy: string, o: SortOrder)
    ensures FilteredProducts([], query, category, sortBy, o) == []
    ensures Categories([]) == []
  {
    var r := FilteredProducts([], query, category, sortBy, o);
    assert forall p :: multiset(r)[p] == 0;
    assert multiset(r) == multiset{};
  }

  lemma TitleKeys(banana: Product, apple: Product, cherry: Product)
    requires banana.Title == "Banana" && apple.Title == "apple" && cherry.Title == "Cherry"
    ensures SortKey(apple, "Title") == "apple"
    ensures SortKey(banana, "Title") == "banana"
    ensures SortKey(cherry, "Title") == "cherry"
  {
    assert Lower("apple") == "apple";
    assert Lower("Banana") == "banana";
    assert Lower("Cherry") == "cherry";
  }

  lemma TitleKeysOrdered()
    ensures Lt("apple", "banana") && Lt("banana", "cherry") && Lt("apple", "cherry")
    ensures Le("apple", "banana") && Le("banana", "cherry") && Le("apple", "cherry")
  {
    LtAsymmetric("apple", "banana");
    LtAsymmetric("banana", "cherry");
    LtAsymmetric("apple", "cherry");
  }

  lemma ExampleSorted(banana: Product, apple: Product, cherry: Product)
    requires banana.Title == "Banana" && apple.Title == "apple" && cherry.Title == "Cherry"
    ensures SortedBy([apple, banana, cherry], SortKeyOf("Title"), Asc)
    ensures DistinctKeys([apple, banana, cherry], SortKeyOf("Title"))
  {
    var key, t := SortKeyOf("Title"), [apple, banana, cherry];
    TitleKeys(banana, apple, cherry);
    TitleKeysOrdered();
    assert key(t[0]) == "apple" && key(t[1]) == "banana" && key(t[2]) == "cherry";
  }

  lemma ExamplePermutation(banana: Product, apple: Product, cherry: Product)
    ensures forall x ::
      multiset([apple, banana, cherry])[x] == if Passes(x, "", "") then multiset([banana, apple, cherry])[x] else 0
  {
    assert multiset([apple, banana, cherry]) == multiset([banana, apple, cherry]);
  }

  /** Sorting records titled "Banana", "apple", "Cherry" by `Title` ascending gives the
      case-insensitive order apple, Banana, Cherry. */
  lemma TitleSortExample(banana: Product, apple: Product, cherry: Product)
    requires banana.Title == "Banana" && apple.Title == "apple" && cherry.Title == "Cherry"
    ensures FilteredProducts([banana, apple, cherry], "", "", "Title", Asc) == [apple, banana, cherry]
  {
    ExampleSorted(banana, apple, cherry);
    ExamplePermutation(banana, apple, cherry);
    FilteredProductsUnique([banana, apple, cherry], "", "", "Title", Asc, [apple, banana, cherry]);
  }

  /** Records with categories "A", "B", "A" have the categories "A", "B". */
  lemma CategoriesExample(p: Product, q: Product, r: Product)
    requires p.Category == "A" && q.Category == "B" && r.Category == "A"
    ensures Categories([p, q, r]) == ["A", "B"]
  {
    var column := CategoryColumn([p, q, r]);
    assert column == ["A", "B", "A"];
    assert column[..2] == ["A", "B"];
    assert ["A", "B"][..1] == ["A"];
    assert ["A"][..0] == [];
    assert Lists.Distinct(["A"]) == ["A"];
    assert Lists.Distinct(["A", "B"]) == ["A", "B"];
    assert Lists.Distinct(column) == ["A", "B"];
  }
}
