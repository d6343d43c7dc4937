/** The admin dashboard loader: the cached stats row, the ten most wishlisted products
    joined with their catalog nodes, and the number of recent rows; plus the table the
    page renders from the top products. */
module DashboardRoute {
  import opened Common
  import opened Records
  import opened Seqs
  import opened Tally
  import opened Aggregate
  import opened Ranking
  import StatsRoute

  const RECENT_TAKE: nat := 20
  const UNKNOWN_PRODUCT: string := "Unknown Product"
  const POPULAR_ABOVE: nat := 10

  /** The outcome of `products.find(p => p.id === gid)`: reading the id of a null node
      throws. */
  datatype Lookup = Found(product: Product) | NotFound | Threw

  /** The `stats` the page receives: the cached row's counters and stamp, or the zero
      object without a stamp. */
  datatype ShownStats = ShownStats(totalItems: int, totalCustomers: int, updatedAt: Option<nat>)

  /** One product of the top list after the join. */
  datatype TopRow = TopRow(productId: string, count: nat, title: string, handle: string, image: string)

  datatype DashboardData = DashboardData(stats: ShownStats, topProducts: seq<TopRow>, recentActivity: nat, shop: string)

  /** JavaScript `a || b` on strings: the empty string is falsy. */
  function OrElse(a: string, b: string): (r: string)
    ensures r != "" <==> a != "" || b != ""
    ensures a != "" ==> r == a
    ensures a == "" ==> r == b
  {
    if a != "" then a else b
  }

  /** The scan passes the first i nodes: each is a node, none with the id. */
  predicate ClearBefore(nodes: seq<Option<Product>>, gid: string, i: nat)
    requires i <= |nodes|
  {
    forall j :: 0 <= j < i ==> nodes[j].Some? && nodes[j].value.id != gid
  }

  /** The first node with the given id, scanning from the front; a null node reached
      before any match makes the scan throw. */
  function FindNode(nodes: seq<Option<Product>>, gid: string): (r: Lookup)
    ensures r.Found? ==> exists i :: 0 <= i < |nodes| && nodes[i] == Some(r.product) && r.product.id == gid && ClearBefore(nodes, gid, i)
    ensures r.Threw? ==> exists i :: 0 <= i < |nodes| && nodes[i].None? && ClearBefore(nodes, gid, i)
    ensures r.NotFound? <==> ClearBefore(nodes, gid, |nodes|)
  {
    if nodes == [] then NotFound
    else if nodes[0].None? then Threw
    else if nodes[0].value.id == gid then Found(nodes[0].value)
    else
      var r := FindNode(nodes[1..], gid);
      FindNodeShift(nodes, gid, r);
      r
  }

  /** The witnesses of the search in the tail are witnesses one position further on. */
  lemma FindNodeShift(nodes: seq<Option<Product>>, gid: string, r: Lookup)
    requires |nodes| > 0 && nodes[0].Some? && nodes[0].value.id != gid
    requires r.Found? ==> exists i :: 0 <= i < |nodes[1..]| && nodes[1..][i] == Some(r.product) && r.product.id == gid && ClearBefore(nodes[1..], gid, i)
    requires r.Threw? ==> exists i :: 0 <= i < |nodes[1..]| && nodes[1..][i].None? && ClearBefore(nodes[1..], gid, i)
    requires r.NotFound? <==> ClearBefore(nodes[1..], gid, |nodes[1..]|)
    ensures r.Found? ==> exists i :: 0 <= i < |nodes| && nodes[i] == Some(r.product) && r.product.id == gid && ClearBefore(nodes, gid, i)
    ensures r.Threw? ==> exists i :: 0 <= i < |nodes| && nodes[i].None? && ClearBefore(nodes, gid, i)
    ensures r.NotFound? <==> ClearBefore(nodes, gid, |nodes|)
  {
    assert forall j :: 1 <= j < |nodes| ==> nodes[j] == nodes[1..][j - 1];
    if r.Found? {
      var i :| 0 <= i < |nodes[1..]| && nodes[1..][i] == Some(r.product) && r.product.id == gid && ClearBefore(nodes[1..], gid, i);
      assert nodes[i + 1] == Some(r.product) && ClearBefore(nodes, gid, i + 1);
    } else if r.Threw? {
      var i :| 0 <= i < |nodes[1..]| && nodes[1..][i].None? && ClearBefore(nodes[1..], gid, i);
      assert nodes[i + 1].None? && ClearBefore(nodes, gid, i + 1);
    }
  }

  /** One element of `topProducts.map(...)` given the lookup that did not throw. */
  function Enrich(t: ProductTally, found: Option<Product>): (r: TopRow)
    ensures r.productId == t.productId && r.count == t.count
    ensures r.title != ""
    ensures found.None? ==> r == TopRow(t.productId, t.count, UNKNOWN_PRODUCT, "", "")
    ensures found.Some? ==> r.title == OrElse(found.value.title, UNKNOWN_PRODUCT) && r.handle == found.value.handle
    ensures found.Some? ==> r.image == (if found.value.imageUrl.Some? then found.value.imageUrl.value else "")
  {
    match found
    case None => TopRow(t.productId, t.count, UNKNOWN_PRODUCT, "", "")
    case Some(p) =>
      TopRow(t.productId, t.count, OrElse(p.title, UNKNOWN_PRODUCT), p.handle,
             match p.imageUrl case Some(u) => u case None => "")
  }

  /** `topProducts.map(...)`: None when some lookup throws. */
  function EnrichAll(top: seq<ProductTally>, nodes: seq<Option<Product>>): (r: Option<seq<TopRow>>)
    ensures r.None? <==> exists i :: 0 <= i < |top| && FindNode(nodes, ProductGid(top[i].productId)).Threw?
    ensures r.Some? ==> |r.value| == |top| && forall i :: 0 <= i < |top| ==>
      r.value[i] == Enrich(top[i], match FindNode(nodes, ProductGid(top[i].productId)) case Found(p) => Some(p) case _ => None)
  {
    if top == [] then Some([])
    else
      var head := FindNode(nodes, ProductGid(top[0].productId));
      var rest := EnrichAll(top[1..], nodes);
      assert forall i :: 1 <= i < |top| ==> top[i] == top[1..][i - 1];
      if head.Threw? then None
      else if rest.None? then
        var i :| 0 <= i < |top[1..]| && FindNode(nodes, ProductGid(top[1..][i].productId)).Threw?;
        assert FindNode(nodes, ProductGid(top[i + 1].productId)).Threw?;
        None
      else
        Some([Enrich(top[0], match head case Found(p) => Some(p) case _ => None)] + rest.value)
  }

  /** The page's `stats`: the cached row when the shop has one, else zeros without a
      stamp. */
  function CachedStats(stats: map<string, StatsRow>, shop: string): (r: ShownStats)
    ensures r.updatedAt.Some? <==> shop in stats
    ensures shop in stats ==> r.totalItems == stats[shop].totalItems && r.totalCustomers == stats[shop].totalCustomers && r.updatedAt == Some(stats[shop].updatedAt)
    ensures shop !in stats ==> r.totalItems == 0 && r.totalCustomers == 0
  {
    if shop in stats then ShownStats(stats[shop].totalItems, stats[shop].totalCustomers, Some(stats[shop].updatedAt))
    else ShownStats(0, 0, None)
  }

  /** The reply of the `catch` branch: the shop with zero counters, no stamp, no top
      products and no recent activity. */
  function Fallback(shop: string): (r: DashboardData)
    ensures r.shop == shop && r.topProducts == [] && r.recentActivity == 0
    ensures r.stats.totalItems == 0 && r.stats.totalCustomers == 0 && r.stats.updatedAt.None?
  {
    DashboardData(ShownStats(0, 0, None), [], 0, shop)
  }

  /** `nodes` is the catalog's reply to the query for the top products' ids (it is read
      only when there is a top product); `backendUp` is false when a store query or the
      catalog request throws. */
  function Loader(es: seq<Entry>, stats: map<string, StatsRow>, shop: string, nodes: seq<Option<Product>>, backendUp: bool): (r: DashboardData)
    ensures r.shop == shop
    ensures r.recentActivity <= RECENT_TAKE
    ensures |r.topProducts| <= TAKE
    ensures !backendUp ==> r == Fallback(shop)
  {
    if !backendUp then Fallback(shop)
    else
      var top := TopProducts(es, shop);
      var rows := if |top| > 0 then EnrichAll(top, nodes) else Some([]);
      if rows.None? then Fallback(shop)
      else DashboardData(CachedStats(stats, shop), rows.value, Min(RECENT_TAKE, ItemCount(es, shop)), shop)
  }

  /** With the store reachable, a throwing lookup yields the fallback's contents; a load
      with no throwing lookup shows the cached stats and the ranked rows; with no rows
      the catalog reply is not read. */
  lemma FallbackExactly(es: seq<Entry>, stats: map<string, StatsRow>, shop: string, nodes: seq<Option<Product>>)
    ensures var top := TopProducts(es, shop);
      (Loader(es, stats, shop, nodes, true).topProducts == [] && Loader(es, stats, shop, nodes, true).stats == ShownStats(0, 0, None)
        && Loader(es, stats, shop, nodes, true).recentActivity == 0)
      <== (exists i :: 0 <= i < |top| && FindNode(nodes, ProductGid(top[i].productId)).Threw?)
    ensures var top := TopProducts(es, shop);
      (forall i :: 0 <= i < |top| ==> !FindNode(nodes, ProductGid(top[i].productId)).Threw?) ==>
        var r := Loader(es, stats, shop, nodes, true);
        && r.stats == CachedStats(stats, shop)
        && r.recentActivity == Min(RECENT_TAKE, ItemCount(es, shop))
        && |r.topProducts| == |top|
        && forall i :: 0 <= i < |top| ==> r.topProducts[i].productId == top[i].productId && r.topProducts[i].count == top[i].count
    ensures ItemCount(es, shop) == 0 ==> Loader(es, stats, shop, nodes, true) == Loader(es, stats, shop, [], true)
  {
    LoaderUp(es, stats, shop, nodes);
    if ItemCount(es, shop) == 0 {
      NoRowsNoProducts(es, shop);
      LoaderUp(es, stats, shop, []);
    }
  }

  lemma NoRowsNoProducts(es: seq<Entry>, shop: string)
    requires ItemCount(es, shop) == 0
    ensures TopProducts(es, shop) == []
  {
    ProductsAtMostRows(es, shop);
  }

  /** What the dashboard shows of a successful load: the most wishlisted products with
      their true counts, ranked, each once, and none left out that has more rows than
      one listed. */
  lemma TopRowsRanked(es: seq<Entry>, stats: map<string, StatsRow>, shop: string, nodes: seq<Option<Product>>)
    requires var top := TopProducts(es, shop);
      forall i :: 0 <= i < |top| ==> !FindNode(nodes, ProductGid(top[i].productId)).Threw?
    ensures var rows := Loader(es, stats, shop, nodes, true).topProducts;
      && |rows| == Min(TAKE, |ShopProducts(es, shop)|)
      && (forall i :: 0 <= i < |rows| ==> rows[i].productId in ShopProducts(es, shop) && rows[i].count == ProductCount(es, shop, rows[i].productId) >= 1)
      && (forall i, j :: 0 <= i < j < |rows| ==> rows[i].productId != rows[j].productId && rows[i].count >= rows[j].count)
      && (forall p, i :: p in ShopProducts(es, shop) && 0 <= i < |rows| && (forall j :: 0 <= j < |rows| ==> rows[j].productId != p) ==>
            ProductCount(es, shop, p) <= rows[i].count)
  {
    FallbackExactly(es, stats, shop, nodes);
    TopProductsRanked(es, shop);
    RowsInheritRanking(es, shop, TopProducts(es, shop), Loader(es, stats, shop, nodes, true).topProducts);
  }

  lemma RowsInheritRanking(es: seq<Entry>, shop: string, top: seq<ProductTally>, rows: seq<TopRow>)
    requires |rows| == |top|
    requires forall i :: 0 <= i < |top| ==> rows[i].productId == top[i].productId && rows[i].count == top[i].count
    requires forall t :: t in top ==> t.productId in ShopProducts(es, shop) && t.count == ProductCount(es, shop, t.productId) && t.count >= 1
    requires forall i, j :: 0 <= i < j < |top| ==> top[i].productId != top[j].productId
    requires forall i, j :: 0 <= i < j < |top| ==> top[i].count >= top[j].count
    requires forall p, t :: p in ShopProducts(es, shop) && t in top && (forall u :: u in top ==> u.productId != p) ==>
      ProductCount(es, shop, p) <= t.count
    ensures forall i :: 0 <= i < |rows| ==> rows[i].productId in ShopProducts(es, shop) && rows[i].count == ProductCount(es, shop, rows[i].productId) >= 1
    ensures forall i, j :: 0 <= i < j < |rows| ==> rows[i].productId != rows[j].productId && rows[i].count >= rows[j].count
    ensures forall p, i :: p in ShopProducts(es, shop) && 0 <= i < |rows| && (forall j :: 0 <= j < |rows| ==> rows[j].productId != p) ==>
      ProductCount(es, shop, p) <= rows[i].count
  {
    forall i | 0 <= i < |rows| ensures rows[i].productId in ShopProducts(es, shop) && rows[i].count == ProductCount(es, shop, rows[i].productId) >= 1 {
      assert top[i] in top;
    }
    forall p, i | p in ShopProducts(es, shop) && 0 <= i < |rows| && (forall j :: 0 <= j < |rows| ==> rows[j].productId != p)
      ensures ProductCount(es, shop, p) <= rows[i].count
    {
      assert forall u :: u in top ==> u.productId != p by {
        forall u | u in top ensures u.productId != p {
          var j :| 0 <= j < |top| && top[j] == u;
          assert rows[j].productId == u.productId;
        }
      }
      assert top[i] in top;
    }
  }

  /** When the catalog answers with one product node per requested id, in request order,
      every top product is joined with its own node. */
  lemma JoinWithOwnNode(es: seq<Entry>, stats: map<string, StatsRow>, shop: string, nodes: seq<Option<Product>>)
    requires var top := TopProducts(es, shop);
      |nodes| == |top| && forall i :: 0 <= i < |top| ==> nodes[i].Some? && nodes[i].value.id == ProductGid(top[i].productId)
    ensures var top := TopProducts(es, shop);
      var rows := Loader(es, stats, shop, nodes, true).topProducts;
      |rows| == |top| && forall i :: 0 <= i < |top| ==> rows[i] == Enrich(top[i], nodes[i])
  {
    var top := TopProducts(es, shop);
    TopProductsRanked(es, shop);
    JoinOwn(top, nodes);
    LoaderUp(es, stats, shop, nodes);
  }

  /** The successful load's top rows are the join of the top list with the nodes. */
  lemma LoaderUp(es: seq<Entry>, stats: map<string, StatsRow>, shop: string, nodes: seq<Option<Product>>)
    ensures var top := TopProducts(es, shop);
      var r := Loader(es, stats, shop, nodes, true);
      && (top == [] ==> r.topProducts == [])
      && (top != [] && EnrichAll(top, nodes).Some? ==> r.topProducts == EnrichAll(top, nodes).value)
      && (top != [] && EnrichAll(top, nodes).None? ==> r == Fallback(shop))
  {
  }

  /** With one matching node per distinct id, in order, the join pairs each tally with
      its own node. */
  lemma JoinOwn(top: seq<ProductTally>, nodes: seq<Option<Product>>)
    requires |nodes| == |top| && forall i :: 0 <= i < |top| ==> nodes[i].Some? && nodes[i].value.id == ProductGid(top[i].productId)
    requires forall a, b :: 0 <= a < b < |top| ==> top[a].productId != top[b].productId
    ensures EnrichAll(top, nodes).Some?
    ensures |EnrichAll(top, nodes).value| == |top| && forall i :: 0 <= i < |top| ==> EnrichAll(top, nodes).value[i] == Enrich(top[i], nodes[i])
  {
    forall i | 0 <= i < |top| ensures FindNode(nodes, ProductGid(top[i].productId)) == Found(nodes[i].value) {
      FindOwnNode(nodes, top, i);
    }
  }

  lemma FindOwnNode(nodes: seq<Option<Product>>, top: seq<ProductTally>, i: nat)
    requires |nodes| == |top| && i < |top|
    requires forall k :: 0 <= k < |top| ==> nodes[k].Some? && nodes[k].value.id == ProductGid(top[k].productId)
    requires forall a, b :: 0 <= a < b < |top| ==> top[a].productId != top[b].productId
    ensures FindNode(nodes, ProductGid(top[i].productId)) == Found(nodes[i].value)
  {
    var gid := ProductGid(top[i].productId);
    var r := FindNode(nodes, gid);
    forall k | 0 <= k < |nodes| && k != i ensures nodes[k].value.id != gid {
      ProductGidInjective(top[k].productId, top[i].productId);
    }
    if r.Found? {
      var k :| 0 <= k < |nodes| && nodes[k] == Some(r.product) && r.product.id == gid && ClearBefore(nodes, gid, k);
      assert k == i;
    }
  }

  /** The counters on the dashboard come from the cache, the ones from the stats
      endpoint from the table; under a consistent cache they are the same numbers. */
  lemma CachedAgreesWithLive(es: seq<Entry>, stats: map<string, StatsRow>, shop: string, nodes: seq<Option<Product>>, now: nat)
    requires Consistent(es, stats, shop)
    requires var top := TopProducts(es, shop);
      forall i :: 0 <= i < |top| ==> !FindNode(nodes, ProductGid(top[i].productId)).Threw?
    ensures var d := Loader(es, stats, shop, nodes, true).stats;
      var s := StatsRoute.Loader(es, stats, shop, true, now);
      d.totalItems == s.totalItems && d.totalCustomers == s.totalCustomers
  {
    FallbackExactly(es, stats, shop, nodes);
    StatsRoute.AgreesWithCache(es, stats, shop, now);
  }

  /** The badge of a table row. */
  datatype Badge = Badge(tone: string, caption: string)

  /** One row of the data table: rank, title, count and badge. */
  datatype TableRow = TableRow(rank: nat, title: string, count: nat, badge: Badge)

  const POPULAR: Badge := Badge("success", "Popular")
  const GROWING: Badge := Badge("info", "Growing")

  function BadgeFor(count: nat): (b: Badge)
    ensures b == POPULAR <==> count > POPULAR_ABOVE
    ensures b == GROWING <==> count <= POPULAR_ABOVE
  {
    if count > POPULAR_ABOVE then POPULAR else GROWING
  }

  function TableRows(top: seq<TopRow>): (r: seq<TableRow>)
    ensures |r| == |top|
    ensures forall i :: 0 <= i < |top| ==> r[i] == TableRow(i + 1, top[i].title, top[i].count, BadgeFor(top[i].count))
  {
    seq(|top|, i requires 0 <= i < |top| => TableRow(i + 1, top[i].title, top[i].count, BadgeFor(top[i].count)))
  }

  /** On a loaded dashboard the table is ranked 1, 2, ... with every Popular row above
      every Growing row. */
  lemma PopularFirst(es: seq<Entry>, stats: map<string, StatsRow>, shop: string, nodes: seq<Option<Product>>)
    requires var top := TopProducts(es, shop);
      forall i :: 0 <= i < |top| ==> !FindNode(nodes, ProductGid(top[i].productId)).Threw?
    ensures var t := TableRows(Loader(es, stats, shop, nodes, true).topProducts);
      && (forall i :: 0 <= i < |t| ==> t[i].rank == i + 1)
      && (forall i, j :: 0 <= i < j < |t| && t[j].badge == POPULAR ==> t[i].badge == POPULAR)
  {
    TopRowsRanked(es, stats, shop, nodes);
  }
}
