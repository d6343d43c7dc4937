/** What the store's `where`, `count` and `groupBy` queries compute over the wishlist
    table: the rows of a shop or of one customer in a shop, their number, the set of
    distinct customers, key lookup, and the well-formedness the unique index keeps. */
module Tally {
  import opened Common
  import opened Records
  import opened Seqs

  /** `findMany({ where: { shop } })`, in storage order. */
  function ShopEntries(es: seq<Entry>, shop: string): (r: seq<Entry>)
    ensures |r| <= |es|
    ensures forall e :: e in r <==> e in es && e.shop == shop
  {
    if es == [] then []
    else
      assert es == [es[0]] + es[1..];
      if es[0].shop == shop then [es[0]] + ShopEntries(es[1..], shop)
      else ShopEntries(es[1..], shop)
  }

  /** `findMany({ where: { customerId, shop } })`, in storage order. */
  function CustomerEntries(es: seq<Entry>, customerId: string, shop: string): (r: seq<Entry>)
    ensures |r| <= |es|
    ensures forall e :: e in r <==> e in es && e.customerId == customerId && e.shop == shop
  {
    if es == [] then []
    else
      assert es == [es[0]] + es[1..];
      if es[0].customerId == customerId && es[0].shop == shop then
        [es[0]] + CustomerEntries(es[1..], customerId, shop)
      else CustomerEntries(es[1..], customerId, shop)
  }

  /** `count({ where: { shop } })`. */
  function ItemCount(es: seq<Entry>, shop: string): (r: nat)
    ensures r <= |es|
  {
    var mine := ShopEntries(es, shop);
    assert |mine| > 0 ==> mine[0] in mine;
    |mine|
  }

  /** `count({ where: { customerId, shop } })`. */
  function CustomerItemCount(es: seq<Entry>, customerId: string, shop: string): (r: nat)
    ensures r <= |es|
  {
    var mine := CustomerEntries(es, customerId, shop);
    assert |mine| > 0 ==> mine[0] in mine;
    |mine|
  }

  /** The groups of `groupBy({ by: ['customerId'], where: { shop } })`: the distinct
      customers with at least one row in the shop. There are never more of them than rows. */
  function Customers(es: seq<Entry>, shop: string): (r: set<string>)
    ensures |r| <= ItemCount(es, shop)
    ensures forall c :: c in r <==> exists e :: e in es && e.shop == shop && e.customerId == c
  {
    if es == [] then {}
    else
      var rest := Customers(es[1..], shop);
      CustomersStep(es, shop, rest);
      if es[0].shop == shop then {es[0].customerId} + rest
      else rest
  }

  /** The customers of a table are those of its first row and of the rest. */
  lemma CustomersStep(es: seq<Entry>, shop: string, rest: set<string>)
    requires es != []
    requires forall c :: c in rest <==> exists e :: e in es[1..] && e.shop == shop && e.customerId == c
    ensures var r := if es[0].shop == shop then {es[0].customerId} + rest else rest;
      forall c :: c in r <==> exists e :: e in es && e.shop == shop && e.customerId == c
  {
    assert es == [es[0]] + es[1..];
    forall e | e in es ensures e == es[0] || e in es[1..] {
    }
  }

  lemma {:induction false} ShopEntriesConcat(a: seq<Entry>, b: seq<Entry>, shop: string)
    ensures ShopEntries(a + b, shop) == ShopEntries(a, shop) + ShopEntries(b, shop)
  {
    if a == [] {
      assert a + b == b;
    } else {
      assert (a + b)[1..] == a[1..] + b;
      ShopEntriesConcat(a[1..], b, shop);
    }
  }

  lemma {:induction false} CustomerEntriesConcat(a: seq<Entry>, b: seq<Entry>, customerId: string, shop: string)
    ensures CustomerEntries(a + b, customerId, shop)
         == CustomerEntries(a, customerId, shop) + CustomerEntries(b, customerId, shop)
  {
    if a == [] {
      assert a + b == b;
    } else {
      assert (a + b)[1..] == a[1..] + b;
      CustomerEntriesConcat(a[1..], b, customerId, shop);
    }
  }

  lemma {:induction false} CustomersConcat(a: seq<Entry>, b: seq<Entry>, shop: string)
    ensures Customers(a + b, shop) == Customers(a, shop) + Customers(b, shop)
  {
    if a == [] {
      assert a + b == b;
    } else {
      assert (a + b)[1..] == a[1..] + b;
      CustomersConcat(a[1..], b, shop);
    }
  }

  /** A customer is counted in a shop exactly when it still has a row there. */
  lemma CustomerCounted(es: seq<Entry>, customerId: string, shop: string)
    ensures customerId in Customers(es, shop) <==> CustomerItemCount(es, customerId, shop) > 0
  {
    var mine := CustomerEntries(es, customerId, shop);
    if |mine| > 0 {
      assert mine[0] in mine;
    }
    if customerId in Customers(es, shop) {
      var e :| e in es && e.shop == shop && e.customerId == customerId;
      assert e in mine;
    }
  }

  /** A shop has customers exactly when it has rows. */
  lemma NoRowsNoCustomers(es: seq<Entry>, shop: string)
    ensures ItemCount(es, shop) == 0 <==> |Customers(es, shop)| == 0
  {
    var mine := ShopEntries(es, shop);
    if |mine| > 0 {
      assert mine[0] in mine;
      assert mine[0].customerId in Customers(es, shop);
    }
  }

  predicate HasKey(es: seq<Entry>, k: Key)
  {
    exists i :: 0 <= i < |es| && KeyOf(es[i]) == k
  }

  /** `findUnique` on the compound key: the position of the row with key k, if any. */
  function FindKey(es: seq<Entry>, k: Key): (r: Option<nat>)
    ensures r.Some? ==> r.value < |es| && KeyOf(es[r.value]) == k
    ensures r.None? <==> !HasKey(es, k)
  {
    if es == [] then None
    else if KeyOf(es[0]) == k then Some(0)
    else
      match FindKey(es[1..], k)
      case Some(i) => Some(i + 1)
      case None =>
        assert forall i :: 1 <= i < |es| ==> es[i] == es[1..][i - 1];
        None
  }

  predicate UniqueKeys(es: seq<Entry>)
  {
    forall i, j :: 0 <= i < j < |es| ==> KeyOf(es[i]) != KeyOf(es[j])
  }

  /** What the unique index and the creation stamps keep true of the table: keys are
      unique, rows are stored in creation order, and every stamp is older than the clock. */
  ghost predicate WellFormed(t: Table)
  {
    && UniqueKeys(t.entries)
    && (forall i, j :: 0 <= i < j < |t.entries| ==> t.entries[i].createdAt < t.entries[j].createdAt)
    && (forall i :: 0 <= i < |t.entries| ==> t.entries[i].createdAt < t.clock)
  }

  /** `create` of a row whose key is absent, stamped with the clock. */
  lemma CreateKeepsWellFormed(t: Table, customerId: string, productId: string, shop: string)
    requires WellFormed(t) && !HasKey(t.entries, Key(customerId, productId, shop))
    ensures WellFormed(Table(t.entries + [Entry(customerId, productId, shop, t.clock)], t.clock + 1))
  {
  }

  /** The table with the row at position i deleted. */
  function RemoveAt(es: seq<Entry>, i: nat): seq<Entry>
    requires i < |es|
  {
    es[..i] + es[i + 1..]
  }

  lemma RemoveAtIndex(es: seq<Entry>, i: nat)
    requires i < |es|
    ensures |RemoveAt(es, i)| == |es| - 1
    ensures forall j :: 0 <= j < |es| - 1 ==> RemoveAt(es, i)[j] == (if j < i then es[j] else es[j + 1])
  {
  }

  /** Deleting the row at position i removes exactly the rows with its key (there is
      one, the keys being unique) and keeps the table well formed. */
  lemma RemoveAtExact(t: Table, i: nat)
    requires WellFormed(t) && i < |t.entries|
    ensures forall e :: e in RemoveAt(t.entries, i) <==> e in t.entries && KeyOf(e) != KeyOf(t.entries[i])
    ensures |RemoveAt(t.entries, i)| == |t.entries| - 1
    ensures WellFormed(Table(RemoveAt(t.entries, i), t.clock))
  {
    RemoveKeepsWellFormed(t, i);
    RemoveAtMembers(t.entries, i);
  }

  lemma RemoveAtMembers(es: seq<Entry>, i: nat)
    requires UniqueKeys(es) && i < |es|
    ensures forall e :: e in RemoveAt(es, i) <==> e in es && KeyOf(e) != KeyOf(es[i])
  {
    forall e | e in es && KeyOf(e) != KeyOf(es[i]) ensures e in RemoveAt(es, i) {
      RemoveAtKeeps(es, i, e);
    }
    forall e | e in RemoveAt(es, i) ensures e in es && KeyOf(e) != KeyOf(es[i]) {
      RemoveAtDrops(es, i, e);
    }
  }

  lemma RemoveAtKeeps(es: seq<Entry>, i: nat, e: Entry)
    requires i < |es| && e in es && KeyOf(e) != KeyOf(es[i])
    ensures e in RemoveAt(es, i)
  {
    var r := RemoveAt(es, i);
    RemoveAtIndex(es, i);
    var j :| 0 <= j < |es| && es[j] == e;
    if j < i { assert r[j] == e; } else { assert j != i; assert r[j - 1] == e; }
  }

  lemma RemoveAtDrops(es: seq<Entry>, i: nat, e: Entry)
    requires UniqueKeys(es) && i < |es| && e in RemoveAt(es, i)
    ensures e in es && KeyOf(e) != KeyOf(es[i])
  {
    var r := RemoveAt(es, i);
    RemoveAtIndex(es, i);
    var j :| 0 <= j < |r| && r[j] == e;
    var j' := if j < i then j else j + 1;
    assert es[j'] == e && j' != i;
  }

  lemma RemoveKeepsWellFormed(t: Table, i: nat)
    requires WellFormed(t) && i < |t.entries|
    ensures WellFormed(Table(RemoveAt(t.entries, i), t.clock))
  {
    var es := t.entries;
    var r := RemoveAt(es, i);
    RemoveAtIndex(es, i);
    forall a, b | 0 <= a < b < |r|
      ensures KeyOf(r[a]) != KeyOf(r[b]) && r[a].createdAt < r[b].createdAt
    {
      var a' := if a < i then a else a + 1;
      var b' := if b < i then b else b + 1;
      assert r[a] == es[a'] && r[b] == es[b'] && a' < b';
    }
  }

  /** The productIds of rows, `map(item => item.productId)`. */
  function ProductIds(es: seq<Entry>): (r: seq<string>)
    ensures |r| == |es|
    ensures forall i :: 0 <= i < |es| ==> r[i] == es[i].productId
  {
    seq(|es|, i requires 0 <= i < |es| => es[i].productId)
  }

  function CreatedAt(e: Entry): int
  {
    e.createdAt
  }

  /** `orderBy: { createdAt: 'desc' }`. */
  function NewestFirst(es: seq<Entry>): (r: seq<Entry>)
    ensures SortedDesc(r, CreatedAt)
    ensures multiset(r) == multiset(es)
    ensures |r| == |es|
  {
    SortDesc(es, CreatedAt)
  }

  /** The wishlist the add and remove actions return: the productIds of the customer's
      rows in the shop, with no order asked of the store. */
  function Wishlist(es: seq<Entry>, customerId: string, shop: string): (r: seq<string>)
    ensures |r| == CustomerItemCount(es, customerId, shop)
    ensures forall i :: 0 <= i < |r| ==> exists e :: e in es && e.customerId == customerId && e.shop == shop && e.productId == r[i]
  {
    var mine := CustomerEntries(es, customerId, shop);
    assert forall i :: 0 <= i < |mine| ==> mine[i] in mine;
    ProductIds(mine)
  }

  lemma {:induction false} CustomerEntriesUnique(es: seq<Entry>, customerId: string, shop: string)
    requires UniqueKeys(es)
    ensures UniqueKeys(CustomerEntries(es, customerId, shop))
  {
    if es != [] {
      var rest := CustomerEntries(es[1..], customerId, shop);
      assert UniqueKeys(es[1..]) by {
        forall i, j | 0 <= i < j < |es[1..]| ensures KeyOf(es[1..][i]) != KeyOf(es[1..][j]) {
          assert es[1..][i] == es[i + 1] && es[1..][j] == es[j + 1];
        }
      }
      CustomerEntriesUnique(es[1..], customerId, shop);
      if es[0].customerId == customerId && es[0].shop == shop {
        var r := [es[0]] + rest;
        forall i, j | 0 <= i < j < |r| ensures KeyOf(r[i]) != KeyOf(r[j]) {
          if i == 0 {
            assert r[j] in rest;
            var k :| 0 <= k < |es[1..]| && es[1..][k] == r[j];
            assert es[k + 1] == r[j];
          } else {
            assert r[i] == rest[i - 1] && r[j] == rest[j - 1];
          }
        }
      }
    }
  }

  /** The returned wishlist names exactly the products the customer has in the shop,
      each once. */
  lemma WishlistExact(es: seq<Entry>, customerId: string, shop: string)
    requires UniqueKeys(es)
    ensures forall p :: p in Wishlist(es, customerId, shop) <==> HasKey(es, Key(customerId, p, shop))
    ensures Distinct(Wishlist(es, customerId, shop))
    ensures |Wishlist(es, customerId, shop)| == CustomerItemCount(es, customerId, shop)
  {
    var mine := CustomerEntries(es, customerId, shop);
    var w := Wishlist(es, customerId, shop);
    CustomerEntriesUnique(es, customerId, shop);
    forall i, j | 0 <= i < j < |w| ensures w[i] != w[j] {
      assert mine[i] in mine && mine[j] in mine;
      assert KeyOf(mine[i]) != KeyOf(mine[j]);
    }
    forall p ensures p in w <==> HasKey(es, Key(customerId, p, shop)) {
      if p in w {
        var i :| 0 <= i < |w| && w[i] == p;
        assert mine[i] in mine;
        var j :| 0 <= j < |es| && es[j] == mine[i];
        assert KeyOf(es[j]) == Key(customerId, p, shop);
      }
      if HasKey(es, Key(customerId, p, shop)) {
        var j :| 0 <= j < |es| && KeyOf(es[j]) == Key(customerId, p, shop);
        assert es[j] in mine;
        var i :| 0 <= i < |mine| && mine[i] == es[j];
        assert w[i] == p;
      }
    }
  }
  function ProductIdOf(e: Entry): string
  {
    e.productId
  }

  /** With unique keys, the customer's rows newest first name each of the customer's
      products once and nothing else. */
  lemma NewestFirstProducts(es: seq<Entry>, customerId: string, shop: string)
    requires UniqueKeys(es)
    ensures var w := ProductIds(NewestFirst(CustomerEntries(es, customerId, shop)));
      && Distinct(w)
      && (forall p :: p in w <==> HasKey(es, Key(customerId, p, shop)))
  {
    var mine := CustomerEntries(es, customerId, shop);
    WishlistExact(es, customerId, shop);
    DistinctIdsReordered(mine, NewestFirst(mine));
    SameMembers(mine, NewestFirst(mine));
  }

  /** Reordering rows whose productIds are distinct keeps them distinct. */
  lemma DistinctIdsReordered(mine: seq<Entry>, rows: seq<Entry>)
    requires multiset(mine) == multiset(rows) && Distinct(ProductIds(mine))
    ensures Distinct(ProductIds(rows))
  {
    var wl := ProductIds(mine);
    assert forall i, j :: 0 <= i < j < |mine| ==> ProductIdOf(mine[i]) != ProductIdOf(mine[j]) by {
      forall i, j | 0 <= i < j < |mine| ensures ProductIdOf(mine[i]) != ProductIdOf(mine[j]) {
        assert wl[i] == mine[i].productId && wl[j] == mine[j].productId;
      }
    }
    DistinctByPermutation(mine, rows, ProductIdOf);
    var w := ProductIds(rows);
    forall i, j | 0 <= i < j < |w| ensures w[i] != w[j] {
      assert w[i] == ProductIdOf(rows[i]) && w[j] == ProductIdOf(rows[j]);
    }
  }

  lemma SameMembers(mine: seq<Entry>, rows: seq<Entry>)
    requires multiset(mine) == multiset(rows)
    ensures forall p :: p in ProductIds(rows) <==> p in ProductIds(mine)
  {
    var w, wl := ProductIds(rows), ProductIds(mine);
    forall p ensures p in w <==> p in wl {
      if p in w {
        var i :| 0 <= i < |w| && w[i] == p;
        assert rows[i] in multiset(mine);
        var k :| 0 <= k < |mine| && mine[k] == rows[i];
        assert wl[k] == p;
      }
      if p in wl {
        var k :| 0 <= k < |wl| && wl[k] == p;
        assert mine[k] in multiset(rows);
        var i :| 0 <= i < |rows| && rows[i] == mine[k];
        assert w[i] == p;
      }
    }
  }
}
