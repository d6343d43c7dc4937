/** A run of the routes against one fresh store: two products for one customer, a
    repeated add, a second customer, and a removal of a product the first customer
    still has another one besides. */
module Scenario {
  import opened Common
  import opened Records
  import opened Tally
  import opened Aggregate
  import opened Store
  import AddRoute
  import RemoveRoute
  import GetRoute

  const E1: Entry := Entry("C1", "P1", "S", 0)
  const E2: Entry := Entry("C1", "P2", "S", 1)
  const E3: Entry := Entry("C2", "P1", "S", 2)

  method EndToEnd() returns (firstTwo: StatsRow, newestFirst: seq<string>, repeated: StatsRow,
                             secondCustomer: StatsRow, afterRemove: StatsRow, remaining: seq<string>)
    ensures firstTwo.totalItems == 2 && firstTwo.totalCustomers == 1
    ensures newestFirst == ["P2", "P1"]
    ensures repeated == firstTwo
    ensures secondCustomer.totalItems == 3 && secondCustomer.totalCustomers == 2
    ensures afterRemove.totalItems == 2 && afterRemove.totalCustomers == 2
    ensures remaining == ["P2"]
  {
    var db := new WishlistDb();
    firstTwo, newestFirst := TwoProducts(db);
    repeated := RepeatAdd(db);
    secondCustomer := SecondCustomer(db);
    afterRemove, remaining := RemoveFirst(db);
  }

  /** C1 adds P1 and then P2; the get route lists P2 first. */
  method TwoProducts(db: WishlistDb) returns (row: StatsRow, newestFirst: seq<string>)
    requires db.Valid() && db.StatsExact() && db.entries == [] && db.clock == 0
    modifies db
    ensures db.Valid() && db.StatsExact() && db.entries == [E1, E2] && db.clock == 2
    ensures "S" in db.stats && row == db.stats["S"]
    ensures row.totalItems == 2 && row.totalCustomers == 1
    ensures newestFirst == ["P2", "P1"]
  {
    FirstProduct(db);
    SecondProduct(db);
    ShopTotals(db.entries, E1, E2);
    ReadRow(db.entries, db.stats, "S");
    row := db.stats["S"];
    NewestOfTwo(db.entries, E1, E2);
    newestFirst := GetRoute.Loader(db.entries, "S", "C1", true).body.wishlist;
  }

  method FirstProduct(db: WishlistDb)
    requires db.Valid() && db.StatsExact() && db.entries == [] && db.clock == 0
    modifies db
    ensures db.Valid() && db.StatsExact() && db.entries == [E1] && db.clock == 1
  {
    var r := AddRoute.Action(db, "S", "C1", "P1");
  }

  method SecondProduct(db: WishlistDb)
    requires db.Valid() && db.StatsExact() && db.entries == [E1] && db.clock == 1
    modifies db
    ensures db.Valid() && db.StatsExact() && db.entries == [E1, E2] && db.clock == 2
  {
    assert "P1" != "P2" by { assert "P1"[1] != "P2"[1]; }
    assert !HasKey(db.entries, Key("C1", "P2", "S"));
    var r := AddRoute.Action(db, "S", "C1", "P2");
  }

  /** C1 adds P1 again: nothing changes. */
  method RepeatAdd(db: WishlistDb) returns (row: StatsRow)
    requires db.Valid() && db.StatsExact() && db.entries == [E1, E2] && "S" in db.stats
    modifies db
    ensures db.Valid() && db.StatsExact() && db.entries == [E1, E2] && db.clock == old(db.clock)
    ensures db.stats == old(db.stats) && row == db.stats["S"]
  {
    assert KeyOf(db.entries[0]) == Key("C1", "P1", "S");
    var r := AddRoute.Action(db, "S", "C1", "P1");
    row := db.stats["S"];
  }

  /** C2 adds P1. */
  method SecondCustomer(db: WishlistDb) returns (row: StatsRow)
    requires db.Valid() && db.StatsExact() && db.entries == [E1, E2] && db.clock == 2
    modifies db
    ensures db.Valid() && db.StatsExact() && db.entries == [E1, E2, E3]
    ensures "S" in db.stats && row == db.stats["S"]
    ensures row.totalItems == 3 && row.totalCustomers == 2
  {
    AddC2(db);
    ThreeRowsRead(db.entries, db.stats);
    row := db.stats["S"];
  }

  method AddC2(db: WishlistDb)
    requires db.Valid() && db.StatsExact() && db.entries == [E1, E2] && db.clock == 2
    modifies db
    ensures db.Valid() && db.StatsExact() && db.entries == [E1, E2, E3]
  {
    assert "C1" != "C2" by { assert "C1"[1] != "C2"[1]; }
    assert !HasKey(db.entries, Key("C2", "P1", "S"));
    var r := AddRoute.Action(db, "S", "C2", "P1");
  }

  /** The cached row of S once C2 has added P1. */
  lemma ThreeRowsRead(es: seq<Entry>, stats: map<string, StatsRow>)
    requires es == [E1, E2, E3] && AllConsistent(es, stats)
    ensures "S" in stats && stats["S"].totalItems == 3 && stats["S"].totalCustomers == 2
  {
    assert "C1" != "C2" by { assert "C1"[1] != "C2"[1]; }
    ShopTotalsThree(es, E1, E2, E3);
    ReadRow(es, stats, "S");
  }

  /** C1 removes P1 and keeps P2, so C1 is still counted. */
  method RemoveFirst(db: WishlistDb) returns (row: StatsRow, remaining: seq<string>)
    requires db.Valid() && db.StatsExact() && db.entries == [E1, E2, E3]
    modifies db
    ensures db.Valid() && db.StatsExact() && db.entries == [E2, E3]
    ensures "S" in db.stats && row == db.stats["S"]
    ensures row.totalItems == 2 && row.totalCustomers == 2
    ensures remaining == ["P2"]
  {
    var r := RemoveP1(db);
    ShopTotals(db.entries, E2, E3);
    ReadRow(db.entries, db.stats, "S");
    row := db.stats["S"];
    remaining := r.body;
  }

  method RemoveP1(db: WishlistDb) returns (r: Response<seq<string>>)
    requires db.Valid() && db.StatsExact() && db.entries == [E1, E2, E3]
    modifies db
    ensures db.Valid() && db.StatsExact() && db.entries == [E2, E3]
    ensures r == Ok(["P2"])
  {
    assert FindKey(db.entries, Key("C1", "P1", "S")) == Some(0);
    r := RemoveRoute.Action(db, "S", "C1", "P1");
    assert db.entries == [E2, E3] by {
      assert old(db.entries)[..0] == [] && old(db.entries)[1..] == [E2, E3];
    }
    assert "C1" != "C2" by { assert "C1"[1] != "C2"[1]; }
    WishlistOfPair(db.entries, E2, E3);
  }

  /** A consistent cache holds the live counts of a shop that has rows. */
  lemma ReadRow(es: seq<Entry>, stats: map<string, StatsRow>, shop: string)
    requires AllConsistent(es, stats) && ItemCount(es, shop) > 0
    ensures shop in stats && stats[shop].totalItems == ItemCount(es, shop) && stats[shop].totalCustomers == |Customers(es, shop)|
  {
    assert Consistent(es, stats, shop);
  }

  /** What the counting queries find in a table of two rows of shop S. */
  lemma ShopTotals(es: seq<Entry>, a: Entry, b: Entry)
    requires es == [a, b] && a.shop == "S" && b.shop == "S"
    ensures ItemCount(es, "S") == 2
    ensures Customers(es, "S") == {a.customerId, b.customerId}
  {
    assert es[1..] == [b] && es[1..][1..] == [];
  }

  lemma ShopTotalsThree(es: seq<Entry>, a: Entry, b: Entry, c: Entry)
    requires es == [a, b, c] && a.shop == "S" && b.shop == "S" && c.shop == "S"
    ensures ItemCount(es, "S") == 3
    ensures Customers(es, "S") == {a.customerId, b.customerId, c.customerId}
  {
    assert es[1..] == [b, c];
    ShopTotals([b, c], b, c);
  }

  lemma NewestOfTwo(es: seq<Entry>, a: Entry, b: Entry)
    requires es == [a, b] && a.customerId == b.customerId == "C1" && a.shop == b.shop == "S"
    requires a.createdAt < b.createdAt
    ensures GetRoute.Loader(es, "S", "C1", true).body.wishlist == [b.productId, a.productId]
  {
    GetRoute.LoaderWishlist(es, "S", "C1");
    BothRows(es, a, b);
    SwapTwo(a, b);
    assert ProductIds([b, a]) == [b.productId, a.productId];
  }

  lemma BothRows(es: seq<Entry>, a: Entry, b: Entry)
    requires es == [a, b] && a.customerId == b.customerId == "C1" && a.shop == b.shop == "S"
    ensures CustomerEntries(es, "C1", "S") == [a, b]
  {
    assert es[1..] == [b] && es[1..][1..] == [];
  }

  lemma SwapTwo(a: Entry, b: Entry)
    requires a.createdAt < b.createdAt
    ensures NewestFirst([a, b]) == [b, a]
  {
    assert [a, b][1..] == [b] && [a, b][1..][1..] == [];
    assert Seqs.SortDesc([b], CreatedAt) == [b];
    assert Seqs.Insert(a, [b], CreatedAt) == [b] + Seqs.Insert(a, [], CreatedAt) == [b, a];
  }

  lemma WishlistOfPair(es: seq<Entry>, a: Entry, b: Entry)
    requires es == [a, b] && a.customerId == "C1" && b.customerId != "C1" && a.shop == "S"
    ensures Wishlist(es, "C1", "S") == [a.productId]
  {
    assert es[1..] == [b] && es[1..][1..] == [];
    assert CustomerEntries([b], "C1", "S") == [];
    assert CustomerEntries(es, "C1", "S") == [a];
  }
}
