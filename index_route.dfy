/** The embedded app's home page loader: the shop's live totals for the stats widget. */
module IndexRoute {
  import opened Records
  import opened Tally
  import opened Aggregate
  import StatsRoute

  /** The loader's JSON. The top-products list of this page is always empty; its element
      type is immaterial and modelled as product ids. */
  datatype IndexData = IndexData(totalCustomers: nat, totalWishlistItems: nat, topProducts: seq<string>)

  /** `backendUp` is false when either query throws. */
  function Loader(es: seq<Entry>, shop: string, backendUp: bool): (r: IndexData)
    ensures r.topProducts == []
    ensures r.totalCustomers <= r.totalWishlistItems
    ensures !backendUp ==> r.totalCustomers == 0 && r.totalWishlistItems == 0
  {
    if !backendUp then IndexData(0, 0, [])
    else IndexData(|Customers(es, shop)|, ItemCount(es, shop), [])
  }

  /** The home page and the stats endpoint show the same two totals, whether the store
      is reachable or not. */
  lemma AgreesWithStats(es: seq<Entry>, stats: map<string, StatsRow>, shop: string, backendUp: bool, now: nat)
    ensures var r := Loader(es, shop, backendUp);
      var s := StatsRoute.Loader(es, stats, shop, backendUp, now);
      r.totalWishlistItems == s.totalItems && r.totalCustomers == s.totalCustomers
  {
  }

  /** Under a consistent cache the home page totals equal the cached counters, or are
      zero when the shop has no stats row. */
  lemma AgreesWithCache(es: seq<Entry>, stats: map<string, StatsRow>, shop: string)
    requires Consistent(es, stats, shop)
    ensures var r := Loader(es, shop, true);
      if shop in stats then
        r.totalWishlistItems == stats[shop].totalItems && r.totalCustomers == stats[shop].totalCustomers
      else
        r.totalWishlistItems == 0 && r.totalCustomers == 0
  {
    NoRowsNoCustomers(es, shop);
  }
}
