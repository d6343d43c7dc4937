/** The store the routes share, with the database replaced by in-memory state: the
    wishlist table, the per-shop stats table, and a clock for creation stamps. */
module Store {
  import opened Records
  import opened Tally
  import opened Aggregate

  class WishlistDb {
    var entries: seq<Entry>
    var stats: map<string, StatsRow>
    /** The stamp the next created wishlist row receives; it only grows. */
    var clock: nat

    /** The unique index holds and rows carry increasing stamps below the clock. */
    ghost predicate Valid()
      reads this
    {
      WellFormed(Table(entries, clock))
    }

    /** Every shop's stats row agrees with a full recount of its rows (or is absent
        and the shop has no rows). */
    ghost predicate StatsExact()
      reads this
    {
      AllConsistent(entries, stats)
    }

    /** An empty store. */
    constructor ()
      ensures Valid() && StatsExact()
      ensures entries == [] && stats == map[] && clock == 0
    {
      entries := [];
      stats := map[];
      clock := 0;
    }
  }
}
