/** The `action` of the test-data route: upsert four fixed rows for the shop one at a
    time, then overwrite the shop's stats row with a full recount (the reconcile step). */
module TestDataRoute {
  import opened Common
  import opened Records
  import opened Tally
  import opened Aggregate
  import opened Store

  /** (customerId, productId) of the fixed rows, in the order they are upserted. */
  const TEST_ITEMS: seq<(string, string)> := [("123", "456"), ("123", "789"), ("456", "456"), ("789", "123")]
  const SEEDED: string := "Test data added successfully!"

  /** `upsert` with an empty update: create the row when its key is absent, otherwise
      leave the table alone. */
  function Upsert(t: Table, customerId: string, productId: string, shop: string): (r: Table)
    ensures HasKey(r.entries, Key(customerId, productId, shop))
    ensures HasKey(t.entries, Key(customerId, productId, shop)) ==> r == t
    ensures |t.entries| <= |r.entries| <= |t.entries| + 1
    ensures r.clock - t.clock == |r.entries| - |t.entries|
  {
    if HasKey(t.entries, Key(customerId, productId, shop)) then t
    else
      var es := t.entries + [Entry(customerId, productId, shop, t.clock)];
      assert KeyOf(es[|t.entries|]) == Key(customerId, productId, shop);
      Table(es, t.clock + 1)
  }

  /** The loop of upserts over items, first to last. */
  function UpsertAll(t: Table, items: seq<(string, string)>, shop: string): (r: Table)
    ensures |t.entries| <= |r.entries| <= |t.entries| + |items|
    ensures r.clock - t.clock == |r.entries| - |t.entries|
    decreases |items|
  {
    if items == [] then t
    else
      var last := items[|items| - 1];
      Upsert(UpsertAll(t, items[..|items| - 1], shop), last.0, last.1, shop)
  }

  lemma HasKeyConcat(a: seq<Entry>, b: seq<Entry>, k: Key)
    ensures HasKey(a + b, k) <==> HasKey(a, k) || HasKey(b, k)
  {
    if HasKey(a + b, k) {
      var i :| 0 <= i < |a + b| && KeyOf((a + b)[i]) == k;
      if i >= |a| { assert b[i - |a|] == (a + b)[i]; }
    }
    if HasKey(a, k) {
      var i :| 0 <= i < |a| && KeyOf(a[i]) == k;
      assert (a + b)[i] == a[i];
    }
    if HasKey(b, k) {
      var i :| 0 <= i < |b| && KeyOf(b[i]) == k;
      assert (a + b)[|a| + i] == b[i];
    }
  }

  /** The upserts only append rows of the shop; the rows already there stay as they
      were, and the table stays well formed. */
  lemma {:induction false} UpsertAllExtends(t: Table, items: seq<(string, string)>, shop: string)
    requires WellFormed(t)
    ensures var r := UpsertAll(t, items, shop);
      && WellFormed(r)
      && |t.entries| <= |r.entries| && r.entries[..|t.entries|] == t.entries
      && (forall j :: |t.entries| <= j < |r.entries| ==> r.entries[j].shop == shop)
    decreases |items|
  {
    if items != [] {
      var last := items[|items| - 1];
      var mid := UpsertAll(t, items[..|items| - 1], shop);
      UpsertAllExtends(t, items[..|items| - 1], shop);
      if !HasKey(mid.entries, Key(last.0, last.1, shop)) {
        CreateKeepsWellFormed(mid, last.0, last.1, shop);
        var r := Upsert(mid, last.0, last.1, shop);
        assert r.entries[..|mid.entries|] == mid.entries;
        assert r.entries[..|t.entries|] == mid.entries[..|t.entries|];
      }
    }
  }

  /** After the loop every fixed key exists, and every key that existed before still does. */
  lemma {:induction false} UpsertAllKeys(t: Table, items: seq<(string, string)>, shop: string)
    ensures forall k :: HasKey(t.entries, k) ==> HasKey(UpsertAll(t, items, shop).entries, k)
    ensures forall n :: 0 <= n < |items| ==> HasKey(UpsertAll(t, items, shop).entries, Key(items[n].0, items[n].1, shop))
    decreases |items|
  {
    if items != [] {
      var last := items[|items| - 1];
      var init := items[..|items| - 1];
      var mid := UpsertAll(t, init, shop);
      UpsertAllKeys(t, init, shop);
      var r := Upsert(mid, last.0, last.1, shop);
      assert r == UpsertAll(t, items, shop);
      if !HasKey(mid.entries, Key(last.0, last.1, shop)) {
        forall k | HasKey(mid.entries, k) ensures HasKey(r.entries, k) {
          HasKeyConcat(mid.entries, [Entry(last.0, last.1, shop, mid.clock)], k);
        }
        assert KeyOf(r.entries[|mid.entries|]) == Key(last.0, last.1, shop);
      }
      forall n | 0 <= n < |items| ensures HasKey(r.entries, Key(items[n].0, items[n].1, shop)) {
        if n < |items| - 1 {
          assert items[n] == init[n];
        }
      }
    }
  }

  /** Upserting keys that all exist already changes nothing. */
  lemma {:induction false} UpsertAllPresent(t: Table, items: seq<(string, string)>, shop: string)
    requires forall n :: 0 <= n < |items| ==> HasKey(t.entries, Key(items[n].0, items[n].1, shop))
    ensures UpsertAll(t, items, shop) == t
    decreases |items|
  {
    if items != [] {
      var init := items[..|items| - 1];
      assert forall n :: 0 <= n < |init| ==> init[n] == items[n];
      UpsertAllPresent(t, init, shop);
    }
  }

  /** Running the seeding loop a second time leaves the table (and so the recount it
      writes) exactly as the first run left it. */
  lemma SeedIdempotent(t: Table, shop: string)
    ensures UpsertAll(UpsertAll(t, TEST_ITEMS, shop), TEST_ITEMS, shop) == UpsertAll(t, TEST_ITEMS, shop)
  {
    UpsertAllKeys(t, TEST_ITEMS, shop);
    UpsertAllPresent(UpsertAll(t, TEST_ITEMS, shop), TEST_ITEMS, shop);
  }

  lemma ForeignRowsCountNothing(es: seq<Entry>, shop: string)
    requires forall j :: 0 <= j < |es| ==> es[j].shop != shop
    ensures ShopEntries(es, shop) == [] && Customers(es, shop) == {}
  {
  }

  /** Another shop keeps its rows and its distinct customers. */
  lemma SeedOtherShops(t: Table, shop: string, other: string)
    requires WellFormed(t) && other != shop
    ensures ShopEntries(UpsertAll(t, TEST_ITEMS, shop).entries, other) == ShopEntries(t.entries, other)
    ensures Customers(UpsertAll(t, TEST_ITEMS, shop).entries, other) == Customers(t.entries, other)
  {
    UpsertAllOtherShop(t, TEST_ITEMS, shop, other);
  }

  lemma UpsertAllOtherShop(t: Table, items: seq<(string, string)>, shop: string, other: string)
    requires WellFormed(t) && other != shop
    ensures ShopEntries(UpsertAll(t, items, shop).entries, other) == ShopEntries(t.entries, other)
    ensures Customers(UpsertAll(t, items, shop).entries, other) == Customers(t.entries, other)
  {
    var r := UpsertAll(t, items, shop);
    UpsertAllExtends(t, items, shop);
    var added := r.entries[|t.entries|..];
    assert r.entries == t.entries + added;
    ForeignRowsCountNothing(added, other);
    ShopEntriesConcat(t.entries, added, other);
    CustomersConcat(t.entries, added, other);
  }

  lemma NoRowsNoKey(es: seq<Entry>, shop: string, k: Key)
    requires ItemCount(es, shop) == 0 && k.shop == shop
    ensures !HasKey(es, k)
  {
  }

  /** The rows the action creates on a shop that has none, stamped from the clock c. */
  function FreshRows(shop: string, c: nat): seq<Entry>
  {
    [Entry("123", "456", shop, c), Entry("123", "789", shop, c + 1),
     Entry("456", "456", shop, c + 2), Entry("789", "123", shop, c + 3)]
  }

  /** The rows the upserts of items create when each creates one. */
  function RowsOf(items: seq<(string, string)>, shop: string, c: nat): (r: seq<Entry>)
    ensures |r| == |items|
    ensures forall j :: 0 <= j < |items| ==> r[j] == Entry(items[j].0, items[j].1, shop, c + j)
  {
    seq(|items|, j requires 0 <= j < |items| => Entry(items[j].0, items[j].1, shop, c + j))
  }

  lemma NotInRows(es: seq<Entry>, added: seq<Entry>, k: Key)
    requires !HasKey(es, k) && forall j :: 0 <= j < |added| ==> KeyOf(added[j]) != k
    ensures !HasKey(es + added, k)
  {
    HasKeyConcat(es, added, k);
  }

  /** On a shop without rows every upsert creates its row. */
  lemma SeedFreshRows(t: Table, shop: string)
    requires ItemCount(t.entries, shop) == 0
    ensures UpsertAll(t, TEST_ITEMS, shop) == Table(t.entries + FreshRows(shop, t.clock), t.clock + 4)
  {
    TestKeysDistinct();
    forall j | 0 <= j < |TEST_ITEMS| ensures !HasKey(t.entries, Key(TEST_ITEMS[j].0, TEST_ITEMS[j].1, shop)) {
      NoRowsNoKey(t.entries, shop, Key(TEST_ITEMS[j].0, TEST_ITEMS[j].1, shop));
    }
    UpsertAllFresh(t, TEST_ITEMS, shop);
    assert RowsOf(TEST_ITEMS, shop, t.clock) == FreshRows(shop, t.clock);
  }

  /** The fixed items name four different keys. */
  lemma TestKeysDistinct()
    ensures forall i, j :: 0 <= i < j < |TEST_ITEMS| ==> TEST_ITEMS[i] != TEST_ITEMS[j]
  {
    assert "456" != "789" by { assert "456"[0] != "789"[0]; }
    assert "123" != "456" by { assert "123"[0] != "456"[0]; }
    assert "123" != "789" by { assert "123"[0] != "789"[0]; }
  }

  /** Upserting distinct keys none of which exists creates one row per key, in order. */
  lemma {:induction false} UpsertAllFresh(t: Table, items: seq<(string, string)>, shop: string)
    requires forall j :: 0 <= j < |items| ==> !HasKey(t.entries, Key(items[j].0, items[j].1, shop))
    requires forall i, j :: 0 <= i < j < |items| ==> items[i] != items[j]
    ensures UpsertAll(t, items, shop) == Table(t.entries + RowsOf(items, shop, t.clock), t.clock + |items|)
    decreases |items|
  {
    if items == [] {
      assert t.entries + RowsOf(items, shop, t.clock) == t.entries;
    } else {
      var n := |items| - 1;
      var init, x := items[..n], items[n];
      UpsertAllFresh(t, init, shop);
      var before := RowsOf(init, shop, t.clock);
      var rows := RowsOf(items, shop, t.clock);
      assert rows == before + [rows[n]];
      var k := Key(x.0, x.1, shop);
      forall j | 0 <= j < |before| ensures KeyOf(before[j]) != k {
        assert items[j] != x;
      }
      NotInRows(t.entries, before, k);
      assert t.entries + before + [rows[n]] == t.entries + rows;
    }
  }

  lemma FreshRowsCounts(shop: string, c: nat)
    ensures ShopEntries(FreshRows(shop, c), shop) == FreshRows(shop, c)
    ensures |Customers(FreshRows(shop, c), shop)| == 3
  {
    var rows := FreshRows(shop, c);
    var a, b := [rows[0], rows[1]], [rows[2], rows[3]];
    assert rows == a + b;
    ShopEntriesConcat(a, b, shop);
    CustomersConcat(a, b, shop);
    PairCounts(rows[0], rows[1], shop);
    PairCounts(rows[2], rows[3], shop);
    var c1, c2, c3 := rows[0].customerId, rows[2].customerId, rows[3].customerId;
    assert c1 != c2 by { assert c1[0] != c2[0]; }
    assert c1 != c3 by { assert c1[0] != c3[0]; }
    assert c2 != c3 by { assert c2[0] != c3[0]; }
    ThreeDistinct(c1, c2, c3);
  }

  lemma PairCounts(x: Entry, y: Entry, shop: string)
    requires x.shop == shop && y.shop == shop
    ensures ShopEntries([x, y], shop) == [x, y]
    ensures Customers([x, y], shop) == {x.customerId} + {y.customerId}
  {
    assert [x, y] == [x] + [y];
    ShopEntriesConcat([x], [y], shop);
    CustomersConcat([x], [y], shop);
    SingleRow(x, "", shop);
    SingleRow(y, "", shop);
  }

  lemma ThreeDistinct(x: string, y: string, z: string)
    requires x != y && x != z && y != z
    ensures |{x} + ({y} + {z})| == 3
  {
  }

  /** On a shop without rows the action leaves 4 items from 3 distinct customers. */
  lemma SeedFreshShop(t: Table, shop: string)
    requires ItemCount(t.entries, shop) == 0
    ensures ItemCount(UpsertAll(t, TEST_ITEMS, shop).entries, shop) == 4
    ensures |Customers(UpsertAll(t, TEST_ITEMS, shop).entries, shop)| == 3
  {
    SeedFreshRows(t, shop);
    var es, rows := t.entries, FreshRows(shop, t.clock);
    ShopEntriesConcat(es, rows, shop);
    CustomersConcat(es, rows, shop);
    assert Customers(es, shop) == {} by {
      assert |Customers(es, shop)| <= ItemCount(es, shop);
    }
    FreshRowsCounts(shop, t.clock);
  }

  method Action(db: WishlistDb, shop: string) returns (resp: Response<string>)
    requires db.Valid()
    modifies db
    ensures db.Valid()
    ensures Table(db.entries, db.clock) == UpsertAll(Table(old(db.entries), old(db.clock)), TEST_ITEMS, shop)
    ensures db.stats == old(db.stats)[shop := Recount(db.entries, shop, db.clock)]
    ensures resp == Ok(SEEDED)
    ensures forall n :: 0 <= n < |TEST_ITEMS| ==> HasKey(db.entries, Key(TEST_ITEMS[n].0, TEST_ITEMS[n].1, shop))
    ensures |old(db.entries)| <= |db.entries| && db.entries[..|old(db.entries)|] == old(db.entries)
    ensures Consistent(db.entries, db.stats, shop)
    ensures forall other :: other != shop ==>
      (Consistent(db.entries, db.stats, other) <==> old(Consistent(db.entries, db.stats, other)))
  {
    ghost var t0 := Table(db.entries, db.clock);
    UpsertItems(db, shop);
    UpsertAllExtends(t0, TEST_ITEMS, shop);
    UpsertAllKeys(t0, TEST_ITEMS, shop);
    var totalItems := ItemCount(db.entries, shop);
    var totalCustomers := |Customers(db.entries, shop)|;
    db.stats := db.stats[shop := StatsRow(totalItems, totalCustomers, db.clock)];
    RecountReconciles(db.entries, old(db.stats), shop, db.clock);
    forall other | other != shop
      ensures Consistent(db.entries, db.stats, other) <==> Consistent(t0.entries, old(db.stats), other)
    {
      SeedOtherShops(t0, shop, other);
    }
    resp := Ok(SEEDED);
  }

  /** The loop of upserts, one fixed item at a time. */
  method UpsertItems(db: WishlistDb, shop: string)
    requires db.Valid()
    modifies db
    ensures db.Valid()
    ensures Table(db.entries, db.clock) == UpsertAll(Table(old(db.entries), old(db.clock)), TEST_ITEMS, shop)
    ensures db.stats == old(db.stats)
  {
    ghost var t0 := Table(db.entries, db.clock);
    for i := 0 to |TEST_ITEMS|
      invariant Table(db.entries, db.clock) == UpsertAll(t0, TEST_ITEMS[..i], shop)
      invariant db.stats == old(db.stats)
      invariant db.Valid()
    {
      var (customerId, productId) := TEST_ITEMS[i];
      var existing := FindKey(db.entries, Key(customerId, productId, shop));
      if existing.None? {
        CreateKeepsWellFormed(Table(db.entries, db.clock), customerId, productId, shop);
        db.entries := db.entries + [Entry(customerId, productId, shop, db.clock)];
        db.clock := db.clock + 1;
      }
      assert TEST_ITEMS[..i + 1][..i] == TEST_ITEMS[..i];
    }
    assert TEST_ITEMS[..|TEST_ITEMS|] == TEST_ITEMS;
  }
}
