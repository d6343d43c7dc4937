/** The storefront's wishlist page: the customer's catalog products, each with the time
    it was wishlisted. */
module PageRoute {
  import opened Common
  import opened Records
  import opened Seqs
  import opened Tally

  const MISSING_CUSTOMER: string := "Missing customerId"
  const FETCH_FAILED: string := "Failed to fetch wishlist"

  /** A catalog node spread into the reply together with `addedAt`. */
  datatype EnrichedProduct = EnrichedProduct(product: Product, addedAt: Option<nat>)

  datatype PageBody = PageBody(products: seq<EnrichedProduct>, count: nat)

  /** `wishlistItems.find(item => gid(item) === id)?.createdAt`. */
  function AddedAt(items: seq<Entry>, id: string): (r: Option<nat>)
    ensures r.Some? ==> exists i :: (0 <= i < |items| && ProductGid(items[i].productId) == id && items[i].createdAt == r.value
      && forall j :: 0 <= j < i ==> ProductGid(items[j].productId) != id)
    ensures r.None? <==> forall i :: 0 <= i < |items| ==> ProductGid(items[i].productId) != id
  {
    if items == [] then None
    else if ProductGid(items[0].productId) == id then Some(items[0].createdAt)
    else
      var r := AddedAt(items[1..], id);
      AddedAtShift(items, id, r);
      r
  }

  /** The first match in the tail is the first match of the whole list when the head
      does not match. */
  lemma AddedAtShift(items: seq<Entry>, id: string, r: Option<nat>)
    requires |items| > 0 && ProductGid(items[0].productId) != id
    requires r.Some? ==> exists i :: (0 <= i < |items[1..]| && ProductGid(items[1..][i].productId) == id && items[1..][i].createdAt == r.value
      && forall j :: 0 <= j < i ==> ProductGid(items[1..][j].productId) != id)
    requires r.None? <==> forall i :: 0 <= i < |items[1..]| ==> ProductGid(items[1..][i].productId) != id
    ensures r.Some? ==> exists i :: (0 <= i < |items| && ProductGid(items[i].productId) == id && items[i].createdAt == r.value
      && forall j :: 0 <= j < i ==> ProductGid(items[j].productId) != id)
    ensures r.None? <==> forall i :: 0 <= i < |items| ==> ProductGid(items[i].productId) != id
  {
    assert forall i :: 1 <= i < |items| ==> items[i] == items[1..][i - 1];
    if r.Some? {
      var i :| 0 <= i < |items[1..]| && ProductGid(items[1..][i].productId) == id && items[1..][i].createdAt == r.value
        && forall j :: 0 <= j < i ==> ProductGid(items[1..][j].productId) != id;
      assert ProductGid(items[i + 1].productId) == id && items[i + 1].createdAt == r.value
        && forall j :: 0 <= j < i + 1 ==> ProductGid(items[j].productId) != id;
    }
  }

  /** `wishlistItems.map(item => gid(item))`: the ids the catalog is asked for. */
  function RequestedIds(items: seq<Entry>): (r: seq<string>)
    ensures |r| == |items|
    ensures forall i :: 0 <= i < |items| ==> r[i] == ProductGid(items[i].productId)
  {
    seq(|items|, i requires 0 <= i < |items| => ProductGid(items[i].productId))
  }

  /** With unique keys the page asks the catalog once for each of the customer's
      products, newest row first, and for nothing else. */
  lemma RequestedIdsExact(es: seq<Entry>, shop: string, customerId: string)
    requires UniqueKeys(es)
    ensures var items := NewestFirst(CustomerEntries(es, customerId, shop));
      var ids := RequestedIds(items);
      && |ids| == CustomerItemCount(es, customerId, shop)
      && (forall i, j :: 0 <= i < j < |ids| ==> ids[i] != ids[j] && items[i].createdAt >= items[j].createdAt)
      && (forall p :: ProductGid(p) in ids <==> HasKey(es, Key(customerId, p, shop)))
  {
    NewestFirstProducts(es, customerId, shop);
    GidsOfProducts(NewestFirst(CustomerEntries(es, customerId, shop)));
  }

  /** The global ids name the same products as the productIds, and are distinct when
      they are. */
  lemma GidsOfProducts(items: seq<Entry>)
    requires Distinct(ProductIds(items))
    ensures forall i, j :: 0 <= i < j < |items| ==> RequestedIds(items)[i] != RequestedIds(items)[j]
    ensures forall p :: ProductGid(p) in RequestedIds(items) <==> p in ProductIds(items)
  {
    var ids, w := RequestedIds(items), ProductIds(items);
    forall i, j | 0 <= i < j < |ids| ensures ids[i] != ids[j] {
      ProductGidInjective(w[i], w[j]);
    }
    forall p ensures ProductGid(p) in ids <==> p in w {
      if ProductGid(p) in ids {
        var i :| 0 <= i < |ids| && ids[i] == ProductGid(p);
        ProductGidInjective(w[i], p);
      }
      if p in w {
        var i :| 0 <= i < |w| && w[i] == p;
        assert ids[i] == ProductGid(p);
      }
    }
  }

  predicate AllNodes(nodes: seq<Option<Product>>)
  {
    forall i :: 0 <= i < |nodes| ==> nodes[i].Some?
  }

  /** `nodes` is the catalog's reply to the query for the customer's product ids; it is
      read only when the customer has rows. Reading the id of a null node throws, which
      the handler turns into a 500. `backendUp` is false when the store query or the
      catalog request throws. */
  function Loader(es: seq<Entry>, shop: string, customerId: string, nodes: seq<Option<Product>>, backendUp: bool): (r: Response<PageBody>)
    ensures r.BadRequest? <==> customerId == ""
    ensures r.BadRequest? ==> r.error == MISSING_CUSTOMER
    ensures r.ServerError? <==> customerId != "" && (!backendUp || (CustomerItemCount(es, customerId, shop) > 0 && !AllNodes(nodes)))
    ensures r.ServerError? ==> r.error == FETCH_FAILED
    ensures r.Ok? ==> r.body.count == CustomerItemCount(es, customerId, shop)
    ensures r.Ok? ==> |r.body.products| == (if r.body.count == 0 then 0 else |nodes|)
    ensures r.Ok? && r.body.count > 0 ==> forall i :: 0 <= i < |nodes| ==> r.body.products[i].product == nodes[i].value
  {
    if customerId == "" then BadRequest(MISSING_CUSTOMER)
    else if !backendUp then ServerError(FETCH_FAILED)
    else
      var items := NewestFirst(CustomerEntries(es, customerId, shop));
      if |items| == 0 then Ok(PageBody([], 0))
      else if !AllNodes(nodes) then ServerError(FETCH_FAILED)
      else
        Ok(PageBody(seq(|nodes|, i requires 0 <= i < |nodes| => EnrichedProduct(nodes[i].value, AddedAt(items, nodes[i].value.id))), |items|))
  }

  /** With unique keys every product on the page carries the creation time of the
      customer's own row for it, and a node that is none of the customer's products
      carries no time. */
  lemma AddedAtExact(es: seq<Entry>, shop: string, customerId: string, nodes: seq<Option<Product>>, i: nat)
    requires UniqueKeys(es)
    requires var r := Loader(es, shop, customerId, nodes, true); r.Ok? && i < |r.body.products|
    ensures var e := Loader(es, shop, customerId, nodes, true).body.products[i];
      && (forall p :: e.product.id == ProductGid(p) ==>
            e.addedAt == (if HasKey(es, Key(customerId, p, shop)) then Some(es[FindKey(es, Key(customerId, p, shop)).value].createdAt) else None))
      && ((forall p :: e.product.id != ProductGid(p)) ==> e.addedAt.None?)
  {
    var items := NewestFirst(CustomerEntries(es, customerId, shop));
    var e := Loader(es, shop, customerId, nodes, true).body.products[i];
    assert e.addedAt == AddedAt(items, nodes[i].value.id);
    forall p | e.product.id == ProductGid(p)
      ensures e.addedAt == (if HasKey(es, Key(customerId, p, shop)) then Some(es[FindKey(es, Key(customerId, p, shop)).value].createdAt) else None)
    {
      AddedAtOfProduct(es, shop, customerId, p);
    }
  }

  /** The time `find` picks for a product among the customer's rows, newest first. */
  lemma AddedAtOfProduct(es: seq<Entry>, shop: string, customerId: string, p: string)
    requires UniqueKeys(es)
    ensures var items := NewestFirst(CustomerEntries(es, customerId, shop));
      AddedAt(items, ProductGid(p)) == (if HasKey(es, Key(customerId, p, shop)) then Some(es[FindKey(es, Key(customerId, p, shop)).value].createdAt) else None)
  {
    var mine := CustomerEntries(es, customerId, shop);
    var items := NewestFirst(mine);
    var k := Key(customerId, p, shop);
    var r := AddedAt(items, ProductGid(p));
    if HasKey(es, k) {
      var x := es[FindKey(es, k).value];
      assert x in mine;
      assert x in multiset(items);
      assert x in items;
      if r.Some? {
        var j :| 0 <= j < |items| && ProductGid(items[j].productId) == ProductGid(p) && items[j].createdAt == r.value;
        ProductGidInjective(items[j].productId, p);
        assert items[j] in multiset(mine);
        SameKeySameRow(es, items[j], x);
      }
    } else {
      forall j | 0 <= j < |items| ensures ProductGid(items[j].productId) != ProductGid(p) {
        assert items[j] in multiset(mine);
        assert items[j] in es;
        ProductGidInjective(items[j].productId, p);
      }
    }
  }

  /** Under unique keys a key names one row. */
  lemma SameKeySameRow(es: seq<Entry>, a: Entry, b: Entry)
    requires UniqueKeys(es) && a in es && b in es && KeyOf(a) == KeyOf(b)
    ensures a == b
  {
    var i :| 0 <= i < |es| && es[i] == a;
    var j :| 0 <= j < |es| && es[j] == b;
  }

  /** When the catalog answers one product node per requested id, in request order,
      the page lists the customer's products newest first, each with its own time. */
  lemma FaithfulCatalog(es: seq<Entry>, shop: string, customerId: string, nodes: seq<Option<Product>>)
    requires UniqueKeys(es) && customerId != ""
    requires var items := NewestFirst(CustomerEntries(es, customerId, shop));
      |items| > 0 && |nodes| == |items| &&
      forall i :: 0 <= i < |items| ==> nodes[i].Some? && nodes[i].value.id == ProductGid(items[i].productId)
    ensures var items := NewestFirst(CustomerEntries(es, customerId, shop));
      var r := Loader(es, shop, customerId, nodes, true);
      r.Ok? && |r.body.products| == |items| == r.body.count &&
      forall i :: 0 <= i < |items| ==> r.body.products[i] == EnrichedProduct(nodes[i].value, Some(items[i].createdAt))
  {
    var mine := CustomerEntries(es, customerId, shop);
    var items := NewestFirst(mine);
    forall i | 0 <= i < |items| ensures AddedAt(items, ProductGid(items[i].productId)) == Some(items[i].createdAt) {
      AddedAtOfProduct(es, shop, customerId, items[i].productId);
      assert items[i] in multiset(mine);
      assert items[i] in es;
      var x := es[FindKey(es, KeyOf(items[i])).value];
      SameKeySameRow(es, items[i], x);
    }
  }
}
