/** The stats endpoint: live counts of the shop's rows and customers, with the cached
    row consulted only for its update stamp. */
module StatsRoute {
  import opened Records
  import opened Tally
  import opened Aggregate

  /** The JSON body of the reply. */
  datatype StatsBody = StatsBody(totalItems: nat, totalCustomers: nat, updatedAt: nat)

  /** `backendUp` is false when one of the three queries throws; `now` is `new Date()`. */
  function Loader(es: seq<Entry>, stats: map<string, StatsRow>, shop: string, backendUp: bool, now: nat): (r: StatsBody)
    ensures r.totalCustomers <= r.totalItems
    ensures r.totalItems == 0 <==> r.totalCustomers == 0
    ensures !backendUp ==> r == StatsBody(0, 0, now)
  {
    NoRowsNoCustomers(es, shop);
    if !backendUp then StatsBody(0, 0, now)
    else
      StatsBody(ItemCount(es, shop), |Customers(es, shop)|,
                if shop in stats then stats[shop].updatedAt else now)
  }

  /** The counters of the cached row never reach the reply: two stats tables that agree
      on the stamp (and on whether the shop has a row) give the same reply. */
  lemma CountersIgnored(es: seq<Entry>, s1: map<string, StatsRow>, s2: map<string, StatsRow>, shop: string, backendUp: bool, now: nat)
    requires shop in s1 <==> shop in s2
    requires shop in s1 ==> s1[shop].updatedAt == s2[shop].updatedAt
    ensures Loader(es, s1, shop, backendUp, now) == Loader(es, s2, shop, backendUp, now)
  {
  }

  /** With the store reachable the reply counts the table itself: the rows of the shop
      and its distinct customers, whatever the cached row says; the reply's stamp is the
      row's when there is one and the current time otherwise. */
  lemma LiveCounts(es: seq<Entry>, stats: map<string, StatsRow>, shop: string, now: nat)
    ensures var r := Loader(es, stats, shop, true, now);
      && r.totalItems == |ShopEntries(es, shop)|
      && (forall c :: c in Customers(es, shop) <==> exists e :: e in es && e.shop == shop && e.customerId == c)
      && r.totalCustomers == |Customers(es, shop)|
      && r.updatedAt == (if shop in stats then stats[shop].updatedAt else now)
  {
  }

  /** When the cached row is consistent with the table, the live counts equal the cached
      counters, so the endpoint and the cache agree. */
  lemma AgreesWithCache(es: seq<Entry>, stats: map<string, StatsRow>, shop: string, now: nat)
    requires Consistent(es, stats, shop)
    ensures var r := Loader(es, stats, shop, true, now);
      if shop in stats then
        r.totalItems == stats[shop].totalItems && r.totalCustomers == stats[shop].totalCustomers
      else
        r.totalItems == 0 && r.totalCustomers == 0
  {
    NoRowsNoCustomers(es, shop);
  }
}
