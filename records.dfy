/** The two tables of the store and the catalog node the routes read. */
module Records {
  import opened Common

  /** A row of the wishlist table. (customerId, productId, shop) is unique across the table;
      createdAt is an abstract stamp standing for the creation time of the row. */
  datatype Entry = Entry(customerId: string, productId: string, shop: string, createdAt: nat)

  /** The compound unique key `customerId_productId_shop`. */
  datatype Key = Key(customerId: string, productId: string, shop: string)

  function KeyOf(e: Entry): Key
  {
    Key(e.customerId, e.productId, e.shop)
  }

  /** A row of the per-shop stats table. The counters are plain integers, as in the
      store: nothing clamps them at zero. */
  datatype StatsRow = StatsRow(totalItems: int, totalCustomers: int, updatedAt: nat)

  /** The wishlist table together with the stamp the next created row will carry. */
  datatype Table = Table(entries: seq<Entry>, clock: nat)

  /** A catalog node as far as the routes read it. A node of another type than Product
      (an empty object in the reply) behaves as Product("", "", "", None). */
  datatype Product = Product(id: string, title: string, handle: string, imageUrl: Option<string>)

  const GID_PREFIX: string := "gid://shopify/Product/"

  /** The global id under which the catalog knows a product. */
  function ProductGid(productId: string): string
  {
    GID_PREFIX + productId
  }

  /** Different product ids never share a global id, so joining on the id loses nothing. */
  lemma ProductGidInjective(p: string, q: string)
    ensures ProductGid(p) == ProductGid(q) <==> p == q
  {
    if ProductGid(p) == ProductGid(q) {
      assert p == ProductGid(p)[|GID_PREFIX|..];
      assert q == ProductGid(q)[|GID_PREFIX|..];
    }
  }
}
