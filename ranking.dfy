/** The dashboard's "most wishlisted" query: `groupBy` on productId within a shop,
    ordered by the group size, descending, and cut to the first ten groups. */
module Ranking {
  import opened Common
  import opened Records
  import opened Seqs
  import opened Tally

  const TAKE: nat := 10

  /** One group of the query: a product and its number of rows in the shop. */
  datatype ProductTally = ProductTally(productId: string, count: nat)

  /** The shop's rows for one product. */
  function ProductEntries(es: seq<Entry>, shop: string, productId: string): (r: seq<Entry>)
    ensures forall e :: e in r <==> e in es && e.shop == shop && e.productId == productId
  {
    if es == [] then []
    else
      assert es == [es[0]] + es[1..];
      if es[0].shop == shop && es[0].productId == productId then
        [es[0]] + ProductEntries(es[1..], shop, productId)
      else ProductEntries(es[1..], shop, productId)
  }

  /** `_count: { productId: true }` of one group. */
  function ProductCount(es: seq<Entry>, shop: string, productId: string): (r: nat)
    ensures r >= 1 <==> exists e :: e in es && e.shop == shop && e.productId == productId
  {
    var pe := ProductEntries(es, shop, productId);
    assert |pe| > 0 ==> pe[0] in pe;
    |pe|
  }

  /** The group keys: each product with a row in the shop, once, in order of first row. */
  function ShopProducts(es: seq<Entry>, shop: string): (r: seq<string>)
    ensures Distinct(r)
    ensures forall p :: p in r <==> exists e :: e in es && e.shop == shop && e.productId == p
  {
    if es == [] then []
    else
      var last := es[|es| - 1];
      var rest := ShopProducts(es[..|es| - 1], shop);
      assert es == es[..|es| - 1] + [last];
      if last.shop == shop && last.productId !in rest then rest + [last.productId] else rest
  }

  /** There are never more groups than rows. */
  lemma {:induction false} ProductsAtMostRows(es: seq<Entry>, shop: string)
    ensures |ShopProducts(es, shop)| <= ItemCount(es, shop)
  {
    if es != [] {
      var init, last := es[..|es| - 1], es[|es| - 1];
      assert es == init + [last];
      ProductsAtMostRows(init, shop);
      ShopEntriesConcat(init, [last], shop);
      assert [last][1..] == [];
    }
  }

  /** Every group key has at least one row. */
  lemma GroupNonEmpty(es: seq<Entry>, shop: string, p: string)
    requires p in ShopProducts(es, shop)
    ensures ProductCount(es, shop, p) >= 1
  {
    var e :| e in es && e.shop == shop && e.productId == p;
    assert e in ProductEntries(es, shop, p);
  }

  function Groups(es: seq<Entry>, shop: string): (r: seq<ProductTally>)
    ensures |r| == |ShopProducts(es, shop)|
    ensures forall i :: 0 <= i < |r| ==> r[i] == ProductTally(ShopProducts(es, shop)[i], ProductCount(es, shop, ShopProducts(es, shop)[i]))
  {
    var ps := ShopProducts(es, shop);
    seq(|ps|, i requires 0 <= i < |ps| => ProductTally(ps[i], ProductCount(es, shop, ps[i])))
  }

  function CountOf(t: ProductTally): int
  {
    t.count
  }

  function GroupKey(t: ProductTally): string
  {
    t.productId
  }

  /** The groups by non-increasing size, all of them; the query's tie order is
      unspecified and the model fixes one. */
  function Ranked(es: seq<Entry>, shop: string): (r: seq<ProductTally>)
    ensures SortedDesc(r, CountOf)
    ensures multiset(r) == multiset(Groups(es, shop))
    ensures |r| == |ShopProducts(es, shop)|
  {
    SortDesc(Groups(es, shop), CountOf)
  }

  /** `take: 10`. */
  function TopProducts(es: seq<Entry>, shop: string): (r: seq<ProductTally>)
    ensures |r| == Min(TAKE, |Ranked(es, shop)|)
    ensures r == Ranked(es, shop)[..|r|]
  {
    var s := Ranked(es, shop);
    s[..Min(TAKE, |s|)]
  }

  /** Every ranked group is a real group with its true count. */
  lemma RankedGroupsExact(es: seq<Entry>, shop: string)
    ensures forall t :: t in Ranked(es, shop) ==>
      t.productId in ShopProducts(es, shop) && t.count == ProductCount(es, shop, t.productId) && t.count >= 1
  {
    var s := Ranked(es, shop);
    var g := Groups(es, shop);
    forall t | t in s
      ensures t.productId in ShopProducts(es, shop) && t.count == ProductCount(es, shop, t.productId) && t.count >= 1
    {
      assert t in multiset(g);
      var i :| 0 <= i < |g| && g[i] == t;
      GroupNonEmpty(es, shop, t.productId);
    }
  }

  /** Each product appears once in the ranking, and every product of the shop appears. */
  lemma RankedCoversProducts(es: seq<Entry>, shop: string)
    ensures forall i, j :: 0 <= i < j < |Ranked(es, shop)| ==> Ranked(es, shop)[i].productId != Ranked(es, shop)[j].productId
    ensures forall p :: p in ShopProducts(es, shop) ==> exists k :: 0 <= k < |Ranked(es, shop)| && Ranked(es, shop)[k].productId == p
  {
    var s := Ranked(es, shop);
    var g := Groups(es, shop);
    var ps := ShopProducts(es, shop);
    assert forall i, j :: 0 <= i < j < |g| ==> GroupKey(g[i]) != GroupKey(g[j]) by {
      forall i, j | 0 <= i < j < |g| ensures GroupKey(g[i]) != GroupKey(g[j]) {
        assert g[i].productId == ps[i] && g[j].productId == ps[j];
      }
    }
    DistinctByPermutation(g, s, GroupKey);
    forall p | p in ps ensures exists k :: 0 <= k < |s| && s[k].productId == p {
      var i :| 0 <= i < |ps| && ps[i] == p;
      assert g[i] in multiset(s);
      var k :| 0 <= k < |s| && s[k] == g[i];
      assert s[k].productId == p;
    }
  }

  /** The top list has min(10, number of products) groups with their true counts and
      distinct products, by non-increasing count, and no product left out has more rows
      than any product listed. */
  lemma TopProductsRanked(es: seq<Entry>, shop: string)
    ensures var top := TopProducts(es, shop);
      && |top| == Min(TAKE, |ShopProducts(es, shop)|)
      && (forall t :: t in top ==> t.productId in ShopProducts(es, shop) && t.count == ProductCount(es, shop, t.productId) && t.count >= 1)
      && (forall i, j :: 0 <= i < j < |top| ==> top[i].productId != top[j].productId)
      && (forall i, j :: 0 <= i < j < |top| ==> top[i].count >= top[j].count)
      && (forall p, t :: p in ShopProducts(es, shop) && t in top && (forall u :: u in top ==> u.productId != p) ==>
            ProductCount(es, shop, p) <= t.count)
  {
    RankedGroupsExact(es, shop);
    RankedCoversProducts(es, shop);
    PrefixFacts(Ranked(es, shop), Min(TAKE, |Ranked(es, shop)|));
    OmittedNotMore(es, shop);
  }

  lemma PrefixFacts(s: seq<ProductTally>, n: nat)
    requires n <= |s|
    ensures forall t :: t in s[..n] ==> t in s
    ensures forall i, j :: 0 <= i < j < n ==> s[..n][i] == s[i] && s[..n][j] == s[j]
  {
  }

  lemma OmittedNotMore(es: seq<Entry>, shop: string)
    ensures var top := TopProducts(es, shop);
      forall p, t :: p in ShopProducts(es, shop) && t in top && (forall u :: u in top ==> u.productId != p) ==>
        ProductCount(es, shop, p) <= t.count
  {
    var s := Ranked(es, shop);
    var top := TopProducts(es, shop);
    RankedGroupsExact(es, shop);
    RankedCoversProducts(es, shop);
    PrefixDominates(s, |top|);
    forall p, t | p in ShopProducts(es, shop) && t in top && (forall u :: u in top ==> u.productId != p)
      ensures ProductCount(es, shop, p) <= t.count
    {
      var k :| 0 <= k < |s| && s[k].productId == p;
      assert s[k] in s;
    }
  }

  /** In a sorted sequence a group outside the first n is no larger than any inside. */
  lemma PrefixDominates(s: seq<ProductTally>, n: nat)
    requires n <= |s| && SortedDesc(s, CountOf)
    ensures forall k, t :: 0 <= k < |s| && t in s[..n] && (forall u :: u in s[..n] ==> u.productId != s[k].productId) ==>
      s[k].count <= t.count
  {
    forall k, t | 0 <= k < |s| && t in s[..n] && (forall u :: u in s[..n] ==> u.productId != s[k].productId)
      ensures s[k].count <= t.count
    {
      var i :| 0 <= i < n && s[..n][i] == t;
      assert CountOf(s[i]) >= CountOf(s[k]);
    }
  }
}
