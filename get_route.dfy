/** The storefront's wishlist read: the customer's products in the shop, newest first. */
module GetRoute {
  import opened Common
  import opened Records
  import opened Seqs
  import opened Tally

  const MISSING_CUSTOMER: string := "Missing customerId"
  const FETCH_FAILED: string := "Failed to fetch wishlist"

  /** One element of `items`: the two selected columns of a row. */
  datatype ItemView = ItemView(productId: string, createdAt: nat)

  /** The JSON body of a successful reply. */
  datatype GetBody = GetBody(wishlist: seq<string>, items: seq<ItemView>)

  function Views(es: seq<Entry>): (r: seq<ItemView>)
    ensures |r| == |es|
    ensures forall i :: 0 <= i < |es| ==> r[i] == ItemView(es[i].productId, es[i].createdAt)
  {
    seq(|es|, i requires 0 <= i < |es| => ItemView(es[i].productId, es[i].createdAt))
  }

  /** The shop comes from the proxy session or the fallback lookup, which are not part of
      this model. An absent or empty query parameter is the empty string. `backendUp` is
      false when the query throws. */
  function Loader(es: seq<Entry>, shop: string, customerId: string, backendUp: bool): (r: Response<GetBody>)
    ensures r.BadRequest? <==> customerId == ""
    ensures r.BadRequest? ==> r.error == MISSING_CUSTOMER
    ensures r.ServerError? <==> customerId != "" && !backendUp
    ensures r.ServerError? ==> r.error == FETCH_FAILED
    ensures r.Ok? ==> |r.body.wishlist| == |r.body.items| == CustomerItemCount(es, customerId, shop)
    ensures r.Ok? ==> forall i :: 0 <= i < |r.body.items| ==> r.body.wishlist[i] == r.body.items[i].productId
    ensures r.Ok? ==> forall i, j :: 0 <= i < j < |r.body.items| ==> r.body.items[i].createdAt >= r.body.items[j].createdAt
  {
    if customerId == "" then BadRequest(MISSING_CUSTOMER)
    else if !backendUp then ServerError(FETCH_FAILED)
    else
      var rows := NewestFirst(CustomerEntries(es, customerId, shop));
      Ok(GetBody(ProductIds(rows), Views(rows)))
  }

  /** On a reachable store the wishlist is the customer's products newest first. */
  lemma LoaderWishlist(es: seq<Entry>, shop: string, customerId: string)
    requires customerId != ""
    ensures Loader(es, shop, customerId, true).Ok?
    ensures Loader(es, shop, customerId, true).body.wishlist == ProductIds(NewestFirst(CustomerEntries(es, customerId, shop)))
  {
  }

  /** Each listed item is one of the customer's rows in the shop, and each such row is
      listed. */
  lemma ItemsExact(es: seq<Entry>, shop: string, customerId: string)
    requires customerId != ""
    ensures var items := Loader(es, shop, customerId, true).body.items;
      forall v :: v in items <==> exists e :: e in es && e.customerId == customerId && e.shop == shop && v == ItemView(e.productId, e.createdAt)
  {
    var mine := CustomerEntries(es, customerId, shop);
    var rows := NewestFirst(mine);
    assert Loader(es, shop, customerId, true).body.items == Views(rows);
    forall v ensures v in Views(rows) <==> exists e :: e in mine && v == ItemView(e.productId, e.createdAt) {
      ViewOfReordered(mine, rows, v);
    }
  }

  /** Reordering rows reorders their views and nothing more. */
  lemma ViewOfReordered(mine: seq<Entry>, rows: seq<Entry>, v: ItemView)
    requires multiset(mine) == multiset(rows)
    ensures v in Views(rows) <==> exists e :: e in mine && v == ItemView(e.productId, e.createdAt)
  {
    var items := Views(rows);
    if v in items {
      var i :| 0 <= i < |items| && items[i] == v;
      assert rows[i] in multiset(mine);
    }
    if exists e :: e in mine && v == ItemView(e.productId, e.createdAt) {
      var e :| e in mine && v == ItemView(e.productId, e.createdAt);
      assert e in multiset(rows);
      var i :| 0 <= i < |rows| && rows[i] == e;
      assert items[i] == v;
    }
  }

  /** With unique keys, the listed products are exactly those the add and remove actions
      report for the customer, each once: the two replies list the same products, this
      one newest first. */
  lemma SameProductsAsActions(es: seq<Entry>, shop: string, customerId: string)
    requires UniqueKeys(es) && customerId != ""
    ensures var w := Loader(es, shop, customerId, true).body.wishlist;
      && Distinct(w)
      && (forall p :: p in w <==> p in Wishlist(es, customerId, shop))
  {
    NewestFirstProducts(es, customerId, shop);
    WishlistExact(es, customerId, shop);
  }
}
