/** The `action` of the add route: validate, create the row unless its key exists,
    apply the stats delta, and answer with the customer's wishlist. */
module AddRoute {
  import opened Common
  import opened Records
  import opened Tally
  import opened Aggregate
  import opened Store

  const MISSING_FIELDS: string := "Missing customerId or productId"

  /** An absent form field and an empty one are both falsy, so both are "". */
  method Action(db: WishlistDb, shop: string, customerId: string, productId: string)
    returns (resp: Response<seq<string>>)
    requires db.Valid()
    modifies db
    ensures db.Valid()
    ensures customerId == "" || productId == "" ==> resp == BadRequest(MISSING_FIELDS)
    ensures customerId == "" || productId == "" || old(HasKey(db.entries, Key(customerId, productId, shop))) ==>
      db.entries == old(db.entries) && db.stats == old(db.stats) && db.clock == old(db.clock)
    ensures customerId != "" && productId != "" && !old(HasKey(db.entries, Key(customerId, productId, shop))) ==>
      && db.entries == old(db.entries) + [Entry(customerId, productId, shop, old(db.clock))]
      && db.clock == old(db.clock) + 1
      && db.stats == old(db.stats)[shop := ApplyAdd(old(db.stats), shop, CustomerItemCount(db.entries, customerId, shop) == 1, db.clock)]
    ensures customerId != "" && productId != "" ==>
      HasKey(db.entries, Key(customerId, productId, shop)) && resp == Ok(Wishlist(db.entries, customerId, shop))
    ensures old(db.StatsExact()) ==> db.StatsExact()
  {
    if customerId == "" || productId == "" {
      return BadRequest(MISSING_FIELDS);
    }
    var existing := FindKey(db.entries, Key(customerId, productId, shop));
    if existing.None? {
      CreateKeepsWellFormed(Table(db.entries, db.clock), customerId, productId, shop);
      if db.StatsExact() {
        ApplyAddKeepsConsistent(db.entries, db.stats, Entry(customerId, productId, shop, db.clock), db.clock + 1);
      }
      CreateRow(db, customerId, productId, shop);
      assert KeyOf(db.entries[|db.entries| - 1]) == Key(customerId, productId, shop);
    }
    resp := Ok(Wishlist(db.entries, customerId, shop));
  }

  /** The branch of the action where the key is absent: create the row stamped with the
      clock, count the customer's rows, and upsert the shop's stats row. */
  method CreateRow(db: WishlistDb, customerId: string, productId: string, shop: string)
    modifies db
    ensures db.entries == old(db.entries) + [Entry(customerId, productId, shop, old(db.clock))]
    ensures db.clock == old(db.clock) + 1
    ensures db.stats == old(db.stats)[shop := ApplyAdd(old(db.stats), shop, CustomerItemCount(db.entries, customerId, shop) == 1, db.clock)]
  {
    db.entries := db.entries + [Entry(customerId, productId, shop, db.clock)];
    db.clock := db.clock + 1;
    // the customer is new exactly when this is its only row in the shop
    var customerItemCount := CustomerItemCount(db.entries, customerId, shop);
    var isNewCustomer := customerItemCount == 1;
    db.stats := db.stats[shop := ApplyAdd(db.stats, shop, isNewCustomer, db.clock)];
  }
}
