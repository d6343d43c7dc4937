/** The per-shop stats row as a cache of the wishlist table: the invariant that ties the
    two together, the delta updates the add and remove actions apply, the full recount,
    and the proofs that the deltas keep the invariant. */
module Aggregate {
  import opened Records
  import opened Tally

  /** The stats row of the shop holds the shop's row count and distinct-customer count;
      or there is no row and the shop has no wishlist rows. */
  ghost predicate Consistent(es: seq<Entry>, stats: map<string, StatsRow>, shop: string)
  {
    if shop in stats then
      stats[shop].totalItems == ItemCount(es, shop) && stats[shop].totalCustomers == |Customers(es, shop)|
    else
      ItemCount(es, shop) == 0
  }

  ghost predicate AllConsistent(es: seq<Entry>, stats: map<string, StatsRow>)
  {
    forall shop :: Consistent(es, stats, shop)
  }

  /** The stats upsert the add action runs after creating a row: increment totalItems,
      increment totalCustomers only for a new customer, or create the row at (1, 1). */
  function ApplyAdd(stats: map<string, StatsRow>, shop: string, isNewCustomer: bool, now: nat): (r: StatsRow)
    ensures r.updatedAt == now
    ensures shop in stats ==> r.totalItems == stats[shop].totalItems + 1
    ensures shop in stats ==> r.totalCustomers - stats[shop].totalCustomers == (if isNewCustomer then 1 else 0)
    ensures shop !in stats ==> r.totalItems == 1 && r.totalCustomers == 1
  {
    if shop in stats then
      var row := stats[shop];
      StatsRow(row.totalItems + 1, if isNewCustomer then row.totalCustomers + 1 else row.totalCustomers, now)
    else
      StatsRow(1, 1, now)
  }

  /** The stats update the remove action runs after deleting a row: decrement totalItems,
      decrement totalCustomers only when the customer has no row left. No clamp. */
  function ApplyRemove(row: StatsRow, customerRemoved: bool, now: nat): (r: StatsRow)
    ensures r.updatedAt == now
    ensures r.totalItems == row.totalItems - 1
    ensures row.totalCustomers - r.totalCustomers == (if customerRemoved then 1 else 0)
    ensures row.totalItems <= 0 ==> r.totalItems < 0
  {
    StatsRow(row.totalItems - 1, if customerRemoved then row.totalCustomers - 1 else row.totalCustomers, now)
  }

  /** The full recount the test-data action writes over the cached row. */
  function Recount(es: seq<Entry>, shop: string, now: nat): (r: StatsRow)
    ensures 0 <= r.totalCustomers <= r.totalItems
  {
    StatsRow(ItemCount(es, shop), |Customers(es, shop)|, now)
  }

  lemma SingleRow(e: Entry, customerId: string, shop: string)
    ensures ShopEntries([e], shop) == if e.shop == shop then [e] else []
    ensures CustomerEntries([e], customerId, shop) == if e.customerId == customerId && e.shop == shop then [e] else []
    ensures Customers([e], shop) == if e.shop == shop then {e.customerId} else {}
  {
    assert [e][1..] == [];
  }

  /** The count the add action reads after its insert is 1 exactly when the customer had
      no row in the shop before, i.e. was not yet counted. */
  lemma NewCustomerIffFirstRow(es: seq<Entry>, e: Entry)
    ensures CustomerItemCount(es + [e], e.customerId, e.shop) == 1 <==> e.customerId !in Customers(es, e.shop)
  {
    CustomerEntriesConcat(es, [e], e.customerId, e.shop);
    SingleRow(e, e.customerId, e.shop);
    CustomerCounted(es, e.customerId, e.shop);
  }

  /** On an existing row, the add delta raises totalItems by one and totalCustomers by
      one exactly when the customer was not yet counted in the shop. */
  lemma AddDelta(es: seq<Entry>, stats: map<string, StatsRow>, e: Entry, now: nat)
    requires e.shop in stats
    ensures var row := ApplyAdd(stats, e.shop, CustomerItemCount(es + [e], e.customerId, e.shop) == 1, now);
      && row.totalItems == stats[e.shop].totalItems + 1
      && row.totalCustomers == stats[e.shop].totalCustomers + (if e.customerId in Customers(es, e.shop) then 0 else 1)
  {
    NewCustomerIffFirstRow(es, e);
  }

  /** Inserting a row and applying the add delta to its shop keeps every shop consistent. */
  lemma ApplyAddKeepsConsistent(es: seq<Entry>, stats: map<string, StatsRow>, e: Entry, now: nat)
    requires AllConsistent(es, stats)
    ensures AllConsistent(es + [e], stats[e.shop := ApplyAdd(stats, e.shop, CustomerItemCount(es + [e], e.customerId, e.shop) == 1, now)])
  {
    var es' := es + [e];
    var stats' := stats[e.shop := ApplyAdd(stats, e.shop, CustomerItemCount(es', e.customerId, e.shop) == 1, now)];
    forall shop ensures Consistent(es', stats', shop) {
      assert Consistent(es, stats, shop);
      if shop == e.shop {
        AddOwnShop(es, stats, e, now);
      } else {
        AddOtherShop(es, stats, e, now, shop);
      }
    }
  }

  /** The shop of the new row: one more row, and one more customer exactly when the
      customer was not yet counted; a missing stats row is created at (1, 1). */
  lemma AddOwnShop(es: seq<Entry>, stats: map<string, StatsRow>, e: Entry, now: nat)
    requires Consistent(es, stats, e.shop)
    ensures Consistent(es + [e], stats[e.shop := ApplyAdd(stats, e.shop, CustomerItemCount(es + [e], e.customerId, e.shop) == 1, now)], e.shop)
  {
    AddCounts(es, e);
    if e.shop in stats {
      AddDelta(es, stats, e, now);
    } else {
      assert |Customers(es, e.shop)| <= ItemCount(es, e.shop);
      assert Customers(es, e.shop) == {};
    }
  }

  /** The live counts of the new row's shop after the insert. */
  lemma AddCounts(es: seq<Entry>, e: Entry)
    ensures ItemCount(es + [e], e.shop) == ItemCount(es, e.shop) + 1
    ensures |Customers(es + [e], e.shop)| == |Customers(es, e.shop)| + (if e.customerId in Customers(es, e.shop) then 0 else 1)
  {
    ShopEntriesConcat(es, [e], e.shop);
    SingleRow(e, e.customerId, e.shop);
    AddCustomers(es, e);
  }

  lemma AddCustomers(es: seq<Entry>, e: Entry)
    ensures Customers(es + [e], e.shop) == Customers(es, e.shop) + {e.customerId}
  {
    CustomersConcat(es, [e], e.shop);
    SingleRow(e, e.customerId, e.shop);
  }

  /** Any other shop: neither its rows nor its stats row change. */
  lemma AddOtherShop(es: seq<Entry>, stats: map<string, StatsRow>, e: Entry, now: nat, shop: string)
    requires shop != e.shop && Consistent(es, stats, shop)
    ensures Consistent(es + [e], stats[e.shop := ApplyAdd(stats, e.shop, CustomerItemCount(es + [e], e.customerId, e.shop) == 1, now)], shop)
  {
    ShopEntriesConcat(es, [e], shop);
    CustomersConcat(es, [e], shop);
    SingleRow(e, e.customerId, shop);
    assert ShopEntries(es + [e], shop) == ShopEntries(es, shop);
    assert Customers(es + [e], shop) == Customers(es, shop);
  }

  lemma RemoveShopCount(es: seq<Entry>, i: nat, shop: string)
    requires i < |es|
    ensures ItemCount(es, shop) == ItemCount(RemoveAt(es, i), shop) + (if es[i].shop == shop then 1 else 0)
  {
    var a, x, b := es[..i], es[i], es[i + 1..];
    assert es == (a + [x]) + b;
    ShopEntriesConcat(a + [x], b, shop);
    ShopEntriesConcat(a, [x], shop);
    ShopEntriesConcat(a, b, shop);
    SingleRow(x, x.customerId, shop);
  }

  lemma RemoveCustomers(es: seq<Entry>, i: nat, shop: string)
    requires i < |es|
    ensures Customers(es, shop) == Customers(RemoveAt(es, i), shop) + (if es[i].shop == shop then {es[i].customerId} else {})
  {
    var a, x, b := es[..i], es[i], es[i + 1..];
    assert es == (a + [x]) + b;
    CustomersConcat(a + [x], b, shop);
    CustomersConcat(a, [x], shop);
    CustomersConcat(a, b, shop);
    SingleRow(x, x.customerId, shop);
  }

  lemma RemoveCustomerCount(es: seq<Entry>, i: nat, shop: string)
    requires i < |es|
    ensures CustomerItemCount(es, es[i].customerId, shop)
         == CustomerItemCount(RemoveAt(es, i), es[i].customerId, shop) + (if es[i].shop == shop then 1 else 0)
  {
    var a, x, b := es[..i], es[i], es[i + 1..];
    assert es == (a + [x]) + b;
    CustomerEntriesConcat(a + [x], b, x.customerId, shop);
    CustomerEntriesConcat(a, [x], x.customerId, shop);
    CustomerEntriesConcat(a, b, x.customerId, shop);
    SingleRow(x, x.customerId, shop);
  }

  /** The remove delta lowers totalItems by one, and totalCustomers by one exactly when
      the customer is no longer counted in the shop once its row is gone. */
  lemma RemoveDelta(es: seq<Entry>, row: StatsRow, i: nat, now: nat)
    requires i < |es|
    ensures var x := es[i];
      var r := ApplyRemove(row, CustomerItemCount(RemoveAt(es, i), x.customerId, x.shop) == 0, now);
      && r.totalItems == row.totalItems - 1
      && r.totalCustomers == row.totalCustomers - (if x.customerId in Customers(RemoveAt(es, i), x.shop) then 0 else 1)
  {
    CustomerCounted(RemoveAt(es, i), es[i].customerId, es[i].shop);
  }

  /** Under the invariant, a present row implies its shop has a stats row with
      totalItems >= 1 (and totalCustomers >= 1), so the unclamped decrement cannot go
      negative; deleting the row and applying the remove delta keeps every shop consistent. */
  lemma ApplyRemoveKeepsConsistent(es: seq<Entry>, stats: map<string, StatsRow>, i: nat, now: nat)
    requires AllConsistent(es, stats) && i < |es|
    ensures es[i].shop in stats
    ensures stats[es[i].shop].totalItems >= 1 && stats[es[i].shop].totalCustomers >= 1
    ensures var es' := RemoveAt(es, i);
      AllConsistent(es', stats[es[i].shop := ApplyRemove(stats[es[i].shop], CustomerItemCount(es', es[i].customerId, es[i].shop) == 0, now)])
  {
    var x := es[i];
    var es' := RemoveAt(es, i);
    assert Consistent(es, stats, x.shop);
    RemoveShopCount(es, i, x.shop);
    RemoveCustomers(es, i, x.shop);
    assert x.customerId in Customers(es, x.shop);
    var row' := ApplyRemove(stats[x.shop], CustomerItemCount(es', x.customerId, x.shop) == 0, now);
    var stats' := stats[x.shop := row'];
    forall shop ensures Consistent(es', stats', shop) {
      assert Consistent(es, stats, shop);
      RemoveKeepsShopConsistent(es, stats, i, shop, now);
    }
  }

  lemma RemoveKeepsShopConsistent(es: seq<Entry>, stats: map<string, StatsRow>, i: nat, shop: string, now: nat)
    requires i < |es| && es[i].shop in stats
    requires Consistent(es, stats, shop) && Consistent(es, stats, es[i].shop)
    ensures var es' := RemoveAt(es, i);
      Consistent(es', stats[es[i].shop := ApplyRemove(stats[es[i].shop], CustomerItemCount(es', es[i].customerId, es[i].shop) == 0, now)], shop)
  {
    var es' := RemoveAt(es, i);
    RemoveShopCount(es, i, shop);
    RemoveCustomers(es, i, shop);
    CustomerCounted(es', es[i].customerId, es[i].shop);
    DeleteKeepsShopConsistent(es, es', es[i], stats, shop, now);
  }

  /** The same step with the table before and after abstracted to what the counts say. */
  lemma DeleteKeepsShopConsistent(es: seq<Entry>, es': seq<Entry>, x: Entry, stats: map<string, StatsRow>, shop: string, now: nat)
    requires x.shop in stats
    requires Consistent(es, stats, shop) && Consistent(es, stats, x.shop)
    requires ItemCount(es, shop) == ItemCount(es', shop) + (if x.shop == shop then 1 else 0)
    requires Customers(es, shop) == Customers(es', shop) + (if x.shop == shop then {x.customerId} else {})
    requires x.customerId in Customers(es', x.shop) <==> CustomerItemCount(es', x.customerId, x.shop) > 0
    ensures Consistent(es', stats[x.shop := ApplyRemove(stats[x.shop], CustomerItemCount(es', x.customerId, x.shop) == 0, now)], shop)
  {
    if shop == x.shop {
      DeleteOwnShop(es, es', x, stats, now);
    }
  }

  lemma DeleteOwnShop(es: seq<Entry>, es': seq<Entry>, x: Entry, stats: map<string, StatsRow>, now: nat)
    requires x.shop in stats && Consistent(es, stats, x.shop)
    requires ItemCount(es, x.shop) == ItemCount(es', x.shop) + 1
    requires Customers(es, x.shop) == Customers(es', x.shop) + {x.customerId}
    requires x.customerId in Customers(es', x.shop) <==> CustomerItemCount(es', x.customerId, x.shop) > 0
    ensures Consistent(es', stats[x.shop := ApplyRemove(stats[x.shop], CustomerItemCount(es', x.customerId, x.shop) == 0, now)], x.shop)
  {
    var left := Customers(es', x.shop);
    if CustomerItemCount(es', x.customerId, x.shop) == 0 {
      assert |left + {x.customerId}| == |left| + 1;
    } else {
      assert left + {x.customerId} == left;
    }
  }

  /** Overwriting the row of a shop with its recount makes that shop consistent whatever
      the row held before, and leaves every other shop as consistent as it was. */
  lemma RecountReconciles(es: seq<Entry>, stats: map<string, StatsRow>, shop: string, now: nat)
    ensures Consistent(es, stats[shop := Recount(es, shop, now)], shop)
    ensures forall other :: other != shop ==>
      (Consistent(es, stats[shop := Recount(es, shop, now)], other) <==> Consistent(es, stats, other))
  {
  }
}
