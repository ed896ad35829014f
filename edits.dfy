/** The list edits both stores apply after a successful remote update or delete. */
module ProductEdits {
  import opened ProductTypes
  import Lists

  /** `products.findIndex((p) => p.Id === id)`: the first index holding `id`, or -1. */
  function FindIndexById(s: seq<Product>, id: int): (r: int)
    ensures -1 <= r < |s|
    ensures r >= 0 ==> s[r].Id == id && forall k :: 0 <= k < r ==> s[k].Id != id
    ensures r == -1 <==> forall k :: 0 <= k < |s| ==> s[k].Id != id
    decreases |s|
  {
    if s == [] then -1
    else if s[0].Id == id then 0
    else
      var k := FindIndexById(s[1..], id);
      assert forall j :: 1 <= j < |s| ==> s[j] == s[1..][j - 1];
      if k == -1 then -1 else k + 1
  }

  /** The list with its first record carrying `u.Id` replaced by `u`; unchanged when there is none. */
  function ReplaceFirstById(s: seq<Product>, u: Product): (r: seq<Product>)
    ensures |r| == |s|
    ensures var i := FindIndexById(s, u.Id);
      && (i == -1 ==> r == s)
      && (i >= 0 ==> r[i] == u && forall k :: 0 <= k < |s| && k != i ==> r[k] == s[k])
    decreases |s|
  {
    if s == [] then []
    else if s[0].Id == u.Id then [u] + s[1..]
    else
      var rest := ReplaceFirstById(s[1..], u);
      assert s == [s[0]] + s[1..];
      [s[0]] + rest
  }

  /** `products.filter((p) => p.Id !== id)` */
  function RemoveById(s: seq<Product>, id: int): (r: seq<Product>)
    ensures forall i :: 0 <= i < |r| ==> r[i].Id != id
    ensures forall p: Product :: p.Id != id ==> multiset(r)[p] == multiset(s)[p]
    ensures Lists.SubsequenceOf(r, s)
  {
    Lists.Filter(s, (p: Product) => p.Id != id)
  }

  /** Deleting an `Id` that no record carries leaves the list as it was. */
  lemma RemoveAbsentIsIdentity(s: seq<Product>, id: int)
    requires forall k :: 0 <= k < |s| ==> s[k].Id != id
    ensures RemoveById(s, id) == s
  {
    var r := RemoveById(s, id);
    assert forall p: Product :: multiset(r)[p] == multiset(s)[p] by {
      forall p: Product ensures multiset(r)[p] == multiset(s)[p] {
        if p.Id == id {
          assert p !in s;
          assert p !in r;
        }
      }
    }
    SubsequenceWithSameElements(r, s);
  }

  /** A subsequence with the same multiset of elements is the whole sequence. */
  lemma {:induction false} SubsequenceWithSameElements(r: seq<Product>, s: seq<Product>)
    requires Lists.SubsequenceOf(r, s)
    requires multiset(r) == multiset(s)
    ensures r == s
    decreases |s|
  {
    if s == [] {
      assert |r| == |multiset(r)| == 0;
    } else {
      assert |r| == |multiset(r)| == |multiset(s)| == |s|;
      if r[0] == s[0] && Lists.SubsequenceOf(r[1..], s[1..]) {
        assert r == [r[0]] + r[1..] && s == [s[0]] + s[1..];
        assert multiset(r[1..]) == multiset(r) - multiset{r[0]};
        assert multiset(s[1..]) == multiset(s) - multiset{s[0]};
        SubsequenceWithSameElements(r[1..], s[1..]);
      } else {
        SubsequenceNotLonger(r, s[1..]);
        assert false;
      }
    }
  }

  lemma {:induction false} SubsequenceNotLonger(r: seq<Product>, s: seq<Product>)
    requires Lists.SubsequenceOf(r, s)
    ensures |r| <= |s|
    decreases |s|
  {
    if r != [] {
      if r[0] == s[0] && Lists.SubsequenceOf(r[1..], s[1..]) {
        SubsequenceNotLonger(r[1..], s[1..]);
      } else {
        SubsequenceNotLonger(r, s[1..]);
      }
    }
  }
}
