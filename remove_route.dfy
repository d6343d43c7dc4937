/** The `action` of the remove route: validate, delete the row if its key exists, apply
    the stats delta, and answer with the customer's remaining wishlist. */
module RemoveRoute {
  import opened Common
  import opened Records
  import opened Tally
  import opened Aggregate
  import opened Store

  const MISSING_FIELDS: string := "Missing customerId or productId"
  const REMOVE_FAILED: string := "Failed to remove from wishlist"

  /** The stats `update` fails when the shop has no stats row; the row delete has then
      already happened, and the reply is a 500. */
  method Action(db: WishlistDb, shop: string, customerId: string, productId: string)
    returns (resp: Response<seq<string>>)
    requires db.Valid()
    modifies db
    ensures db.Valid() && db.clock == old(db.clock)
    ensures customerId == "" || productId == "" ==>
      resp == BadRequest(MISSING_FIELDS) && db.entries == old(db.entries) && db.stats == old(db.stats)
    ensures customerId != "" && productId != "" && !old(HasKey(db.entries, Key(customerId, productId, shop))) ==>
      db.entries == old(db.entries) && db.stats == old(db.stats) && resp == Ok(Wishlist(db.entries, customerId, shop))
    ensures customerId != "" && productId != "" && old(HasKey(db.entries, Key(customerId, productId, shop))) ==>
      && db.entries == RemoveAt(old(db.entries), old(FindKey(db.entries, Key(customerId, productId, shop))).value)
      && (shop in old(db.stats) ==>
            && db.stats == old(db.stats)[shop := ApplyRemove(old(db.stats)[shop], customerId !in Customers(db.entries, shop), db.clock)]
            && resp == Ok(Wishlist(db.entries, customerId, shop)))
      && (shop !in old(db.stats) ==> db.stats == old(db.stats) && resp == ServerError(REMOVE_FAILED))
    ensures old(db.StatsExact()) ==> db.StatsExact() && (customerId != "" && productId != "" ==> resp.Ok?)
  {
    if customerId == "" || productId == "" {
      return BadRequest(MISSING_FIELDS);
    }
    var entries, stats := db.entries, db.stats;
    var existing := FindKey(entries, Key(customerId, productId, shop));
    if existing.Some? {
      var i := existing.value;
      DeleteOutcome(Table(entries, db.clock), stats, i, customerId, productId, shop);
      entries := RemoveAt(entries, i);
      // the customer leaves the shop's count when no row of it remains
      var remainingItems := CustomerItemCount(entries, customerId, shop);
      var customerRemoved := remainingItems == 0;
      if shop in stats {
        stats := stats[shop := ApplyRemove(stats[shop], customerRemoved, db.clock)];
        resp := Ok(Wishlist(entries, customerId, shop));
      } else {
        resp := ServerError(REMOVE_FAILED);
      }
    } else {
      resp := Ok(Wishlist(entries, customerId, shop));
    }
    db.entries, db.stats := entries, stats;
  }

  /** What deleting the row at position i (holding the given key) does to the table and,
      under the invariant, to the stats of its shop. */
  lemma DeleteOutcome(t: Table, stats: map<string, StatsRow>, i: nat, customerId: string, productId: string, shop: string)
    requires WellFormed(t) && i < |t.entries| && KeyOf(t.entries[i]) == Key(customerId, productId, shop)
    ensures WellFormed(Table(RemoveAt(t.entries, i), t.clock))
    ensures forall e :: e in RemoveAt(t.entries, i) <==> e in t.entries && KeyOf(e) != Key(customerId, productId, shop)
    ensures CustomerItemCount(RemoveAt(t.entries, i), customerId, shop) == 0 <==> customerId !in Customers(RemoveAt(t.entries, i), shop)
    ensures AllConsistent(t.entries, stats) ==>
      && shop in stats
      && AllConsistent(RemoveAt(t.entries, i), stats[shop := ApplyRemove(stats[shop], customerId !in Customers(RemoveAt(t.entries, i), shop), t.clock)])
  {
    RemoveAtExact(t, i);
    CustomerCounted(RemoveAt(t.entries, i), customerId, shop);
    if AllConsistent(t.entries, stats) {
      ApplyRemoveKeepsConsistent(t.entries, stats, i, t.clock);
    }
  }
}
