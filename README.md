# Wishlist routes of a Shopify app, modelled in Dafny

This project models the route handlers of a Shopify wishlist app.

- **Storefront routes:**
  - add and remove a product for a customer;
  - read the wishlist;
  - read the wishlist page joined with catalog products.
- **Admin routes:**
  - a stats endpoint;
  - the home page;
  - the analytics dashboard with its top-10 ranking;
  - a test-data seeder.

The handlers share two tables:

- **`WishlistItem`** stores one row per `(customerId, productId, shop)` with a `createdAt` stamp.
- **`WishlistStats`** stores one row per shop with cached `totalItems`, `totalCustomers` and `updatedAt`.

The database is an in-memory object, `Store.WishlistDb`. Its fields are:

- `entries`: the wishlist table, in storage order;
- `stats`: the stats table, as a map from shop to row;
- `clock`: the stamp the next created row receives.

The add, remove and test-data actions are methods that change that object. The stats, home, get, dashboard and page loaders are functions of a snapshot of it.

**The central invariant** is `Aggregate.Consistent`. For each shop, the cached stats row holds the number of the shop's rows and the number of its distinct customers; otherwise the shop has no row and no wishlist rows.

What is proved about it:

- Add and remove keep the invariant, for every shop.
- The seeder re-establishes it for its shop by a full recount.
- While it holds, the cached counters the dashboard shows equal the live counts the stats endpoint returns.
- While it holds, a removal never drives a counter below zero, although nothing clamps the counters.

**Modelling conventions:**

- **Inputs.** The shop is an input.
- **Missing fields.** A missing form or query field and an empty one are both falsy, so both are the empty string.
- **Catalog reply.** The catalog's reply to a `nodes(ids:)` query is a given sequence of `Option<Product>`. `None` is a null node.
- **Store failures.** A loader's `backendUp` flag says whether its awaited queries succeed. When it is false the loader takes its `catch` branch.
- **Stamps.** `createdAt` and `updatedAt` are abstract natural stamps taken from the store's clock.

Modules follow the files of the app:

| module | file |
|---|---|
| `AddRoute` (add_route.dfy) | api.wishlist.add.tsx |
| `RemoveRoute` (remove_route.dfy) | api.wishlist.remove.tsx |
| `TestDataRoute` (test_data_route.dfy) | app.test-data.tsx |
| `StatsRoute` (stats_route.dfy) | api.wishlist.stats.tsx |
| `IndexRoute` (index_route.dfy) | app._index.tsx |
| `GetRoute` (get_route.dfy) | api.wishlist.get.tsx |
| `Ranking` (ranking.dfy) and `DashboardRoute` (dashboard_route.dfy) | app.dashboard.tsx |
| `PageRoute` (page_route.dfy) | api.wishlist.page.tsx |

Shared modules:

- `Records`: the two row types, the key, the catalog node and the global-id format.
- `Tally`: what the `where`, `count` and `groupBy` queries compute.
- `Aggregate`: the invariant and the stats deltas.
- `Seqs`: distinctness and the descending sort that stands for `orderBy: desc`.
- `Store`: the database object.
- `Scenario`: a run of add, add, add (a repeat), add, remove on a fresh store.

Two points about the code that the model relies on:

- **Reply order.** The add and remove handlers' `findMany` (api.wishlist.add.tsx:89-92, api.wishlist.remove.tsx:86-89) has no `orderBy`, so the store leaves the order of their `wishlist` replies unspecified. The model returns those replies in storage order; only the order-free facts of `Tally.WishlistExact` describe the program. The get and page routes order by `createdAt` descending.
- **Reconciliation and broadcasting.** The seeder's recount (app.test-data.tsx:43-61) is the only place the cached stats are rebuilt from the rows. socket.server.ts defines `emitWishlistUpdate`, but no route calls it.

## Model

| member | source | states |
|---|---|---|
| Records.ProductGidInjective | wishlist/app/routes/api.wishlist.page.tsx:33 | two product ids give the same `gid://shopify/Product/` id exactly when they are equal, so joining on the global id loses nothing |
| Tally.ShopEntries | wishlist/app/routes/api.wishlist.stats.tsx:19-21 | the rows `where: { shop }` returns are exactly the table's rows of that shop |
| Tally.CustomerEntries | wishlist/app/routes/api.wishlist.get.tsx:40-44 | the rows `where: { customerId, shop }` returns are exactly the rows matching both |
| Tally.Customers | wishlist/app/routes/api.wishlist.stats.tsx:23-26 | the `groupBy customerId` groups are exactly the customers with a row in the shop, and there are no more of them than rows |
| Tally.NoRowsNoCustomers | wishlist/app/routes/api.wishlist.stats.tsx:19-26 | a shop has no rows exactly when it has no customers |
| Tally.CustomerCounted | wishlist/app/routes/api.wishlist.add.tsx:63-66 | a customer is among the shop's customers exactly when its row count there is positive |
| Tally.FindKey | wishlist/app/routes/api.wishlist.add.tsx:42-50 | `findUnique` on the compound key yields the position of a row with that key, and nothing exactly when no row has it |
| Tally.CreateKeepsWellFormed | wishlist/app/routes/api.wishlist.add.tsx:53-60 | creating a row whose key is absent keeps keys unique and stamps increasing |
| Tally.RemoveAtExact | wishlist/app/routes/api.wishlist.remove.tsx:54-62 | deleting by key removes exactly the row with that key, shortens the table by one and keeps it well formed |
| Tally.ItemCount | wishlist/app/routes/api.wishlist.stats.tsx:19-21 | `count({ where: { shop } })` is never more than the table's rows |
| Tally.CustomerItemCount | wishlist/app/routes/api.wishlist.add.tsx:63-66 | `count({ where: { customerId, shop } })`, read after the insert and after the delete, is never more than the table's rows |
| Tally.Wishlist | wishlist/app/routes/api.wishlist.add.tsx:89-96 | the reply has one product id per row of the customer in the shop, each the product of such a row |
| Tally.WishlistExact | wishlist/app/routes/api.wishlist.add.tsx:89-96 | the returned wishlist names exactly the products the customer has in the shop, each once, as many as the customer's rows |
| Tally.NewestFirst | wishlist/app/routes/api.wishlist.get.tsx:49-51 | `orderBy createdAt desc` returns the same rows with non-increasing stamps |
| Tally.NewestFirstProducts | wishlist/app/routes/api.wishlist.get.tsx:40-57 | the customer's rows, newest first, name each of the customer's products once and nothing else |
| Aggregate.Recount | wishlist/app/routes/app.test-data.tsx:43-47 | the recounted row never has more customers than items |
| Aggregate.ApplyAdd | wishlist/app/routes/api.wishlist.add.tsx:69-81 | the upsert stamps the row; on an existing row totalItems rises by one and totalCustomers by one exactly for a new customer; a missing row is created at (1, 1) |
| Aggregate.ApplyRemove | wishlist/app/routes/api.wishlist.remove.tsx:71-78 | the update stamps the row, lowers totalItems by one and totalCustomers by one exactly when the customer is gone, and does not clamp: a row at zero items goes negative |
| Aggregate.NewCustomerIffFirstRow | wishlist/app/routes/api.wishlist.add.tsx:63-66 | the count read after the insert is 1 exactly when the customer was not yet counted in the shop |
| Aggregate.AddDelta | wishlist/app/routes/api.wishlist.add.tsx:69-75 | on an existing row, totalItems rises by exactly one and totalCustomers by one exactly for a new customer |
| Aggregate.ApplyAddKeepsConsistent | wishlist/app/routes/api.wishlist.add.tsx:53-81 | insert plus stats upsert keeps every shop's row equal to its live counts |
| Aggregate.RemoveDelta | wishlist/app/routes/api.wishlist.remove.tsx:65-78 | the decrement lowers totalItems by one, and totalCustomers by one exactly when the customer has no row left |
| Aggregate.ApplyRemoveKeepsConsistent | wishlist/app/routes/api.wishlist.remove.tsx:52-78 | under the invariant a present row implies a stats row with both counters at least 1; delete plus decrement keeps every shop consistent |
| Aggregate.RecountReconciles | wishlist/app/routes/app.test-data.tsx:43-61 | writing the recount makes the shop consistent and leaves every other shop's consistency as it was |
| AddRoute.Action | wishlist/app/routes/api.wishlist.add.tsx:30-97 | a missing field gives a 400 with nothing changed; an existing key changes nothing; otherwise exactly one row with the key is appended, the clock advances and only the shop's stats row gets the add delta (creating (1, 1) when absent), counting the customer as new when the row just created is its only one in the shop; the reply is the customer's wishlist; the invariant is preserved |
| AddRoute.CreateRow | wishlist/app/routes/api.wishlist.add.tsx:53-81 | appends the one new row stamped with the clock, advances the clock, and applies the add delta to the shop's stats row with the customer counted as new when the row is its only one in the shop |
| RemoveRoute.Action | wishlist/app/routes/api.wishlist.remove.tsx:30-98 | a missing field gives a 400 with nothing changed; an absent key changes nothing; otherwise the row at the key's position is deleted and the shop's row gets the decrement, or the reply is a 500 when the shop has no stats row (after the delete); the invariant is preserved and then the reply is never a 500 |
| RemoveRoute.DeleteOutcome | wishlist/app/routes/api.wishlist.remove.tsx:52-78 | deleting the found row removes exactly the rows with that key and keeps the table well formed, the customer stays counted exactly while it has rows left, and under the invariant the shop has a stats row and the decrement keeps every shop consistent |
| TestDataRoute.Action | wishlist/app/routes/app.test-data.tsx:15-63 | the loop leaves the table the four idempotent upserts produce, every fixed key present and old rows untouched; the shop's row becomes the recount, so the shop is consistent; other shops' consistency and rows are unchanged |
| TestDataRoute.UpsertItems | wishlist/app/routes/app.test-data.tsx:24-40 | the loop leaves exactly the table the upserts of the four fixed items produce, keeps the table well formed and does not touch the stats |
| TestDataRoute.Upsert | wishlist/app/routes/app.test-data.tsx:25-39 | after the upsert the key is present; an existing key leaves the table as it was; at most one row is added, and the clock advances once per added row |
| TestDataRoute.UpsertAll | wishlist/app/routes/app.test-data.tsx:24-40 | the upserts add at most one row per item, and the clock advances once per added row |
| TestDataRoute.UpsertAllFresh | wishlist/app/routes/app.test-data.tsx:24-40 | upserting distinct keys none of which exists creates one row per key, in item order, with consecutive stamps |
| TestDataRoute.UpsertAllExtends | wishlist/app/routes/app.test-data.tsx:24-40 | the upserts keep the table well formed, keep the old rows as a prefix and add rows of this shop only |
| TestDataRoute.UpsertAllKeys | wishlist/app/routes/app.test-data.tsx:24-40 | every key present before is present after, and so is every fixed key |
| TestDataRoute.UpsertAllPresent | wishlist/app/routes/app.test-data.tsx:25-39 | when all keys are present the upserts change nothing (`update: {}`) |
| TestDataRoute.SeedIdempotent | wishlist/app/routes/app.test-data.tsx:24-61 | running the seeding twice gives the same table, so the same recount, as running it once |
| TestDataRoute.SeedOtherShops | wishlist/app/routes/app.test-data.tsx:25-50 | another shop keeps its rows and its distinct customers |
| TestDataRoute.SeedFreshRows | wishlist/app/routes/app.test-data.tsx:17-40 | on a shop without rows the seeding appends the four fixed rows in order with consecutive stamps |
| TestDataRoute.FreshRowsCounts | wishlist/app/routes/app.test-data.tsx:17-22 | the four fixed rows belong to the shop and have three distinct customers |
| TestDataRoute.SeedFreshShop | wishlist/app/routes/app.test-data.tsx:17-47 | on a shop without rows the recount is 4 items and 3 customers |
| StatsRoute.Loader | wishlist/app/routes/api.wishlist.stats.tsx:11-40 | customers never exceed items, one is zero exactly when the other is, and a failure gives zeros with the current time rather than an error |
| StatsRoute.LiveCounts | wishlist/app/routes/api.wishlist.stats.tsx:19-32 | with the store reachable, totalItems is the number of the shop's rows and totalCustomers the number of its distinct customers; updatedAt is the row's stamp or the current time |
| StatsRoute.CountersIgnored | wishlist/app/routes/api.wishlist.stats.tsx:14-32 | the cached counters never reach the reply: stats tables agreeing on the stamp give the same reply |
| StatsRoute.AgreesWithCache | wishlist/app/routes/api.wishlist.stats.tsx:19-26 | under the invariant the live counts equal the cached counters, or are zero without a row |
| IndexRoute.Loader | wishlist/app/routes/app._index.tsx:15-38 | topProducts is always empty, customers never exceed items, and a failure gives zeros |
| IndexRoute.AgreesWithStats | wishlist/app/routes/app._index.tsx:17-30 | the home page totals equal the stats endpoint's totals, reachable or not |
| IndexRoute.AgreesWithCache | wishlist/app/routes/app._index.tsx:17-24 | under the invariant the home page totals equal the cached row, or are zero without a row |
| GetRoute.Loader | wishlist/app/routes/api.wishlist.get.tsx:30-63 | a missing customerId, and only that, gives a 400; a store failure a 500; otherwise `items` has non-increasing stamps, `wishlist` is its productId projection with the same length and order, and both have the customer's row count |
| GetRoute.ItemsExact | wishlist/app/routes/api.wishlist.get.tsx:40-58 | the items are exactly the customer's rows in the shop, and only those |
| GetRoute.SameProductsAsActions | wishlist/app/routes/api.wishlist.get.tsx:40-57 | the get reply names each of the customer's products once, the same products the add and remove replies name |
| Ranking.ProductEntries | wishlist/app/routes/app.dashboard.tsx:34-39 | the rows counted for a product are exactly the shop's rows of that product |
| Ranking.ProductCount | wishlist/app/routes/app.dashboard.tsx:37-39 | a product's `_count` is at least one exactly when the shop has a row of that product |
| Ranking.ShopProducts | wishlist/app/routes/app.dashboard.tsx:34-36 | the group keys are each product with a row in the shop, once |
| Ranking.ProductsAtMostRows | wishlist/app/routes/app.dashboard.tsx:34-39 | there are never more groups than rows |
| Ranking.Groups | wishlist/app/routes/app.dashboard.tsx:34-39 | one group per product with a row in the shop, in order of first row, each with that product's row count |
| Ranking.GroupNonEmpty | wishlist/app/routes/app.dashboard.tsx:37-39 | every group has a count of at least one |
| Ranking.Ranked | wishlist/app/routes/app.dashboard.tsx:40-44 | the groups ordered by non-increasing count, all of them |
| Ranking.RankedGroupsExact | wishlist/app/routes/app.dashboard.tsx:34-44 | every ranked group is a product of the shop with its true count |
| Ranking.RankedCoversProducts | wishlist/app/routes/app.dashboard.tsx:34-44 | each product appears in the ranking once, and every product of the shop appears |
| Ranking.TopProducts | wishlist/app/routes/app.dashboard.tsx:40-46 | `take: 10` keeps the first min(10, groups) groups of the ranking, in order |
| Ranking.TopProductsRanked | wishlist/app/routes/app.dashboard.tsx:34-46 | the top list has min(10, products) groups with true counts, distinct products and non-increasing counts, and no product left out has more rows than one listed |
| DashboardRoute.OrElse | wishlist/app/routes/app.dashboard.tsx:79-81 | JavaScript's or-default on strings: the first string when it is non-empty, else the second, and empty only when both are |
| DashboardRoute.FindNode | wishlist/app/routes/app.dashboard.tsx:75 | the first node with the id, with every earlier node non-null; a throw exactly at a null node before any match; not found exactly when every node is non-null and none matches |
| DashboardRoute.Enrich | wishlist/app/routes/app.dashboard.tsx:76-82 | the row keeps productId and count, its title is never empty; with a match the title is the node's title or 'Unknown Product' when that is empty, the handle is the node's and the image is the node's image URL or ''; without a match it is ('Unknown Product', '', '') |
| DashboardRoute.EnrichAll | wishlist/app/routes/app.dashboard.tsx:74-83 | the join fails exactly when some lookup throws; otherwise one enriched row per top product, in order |
| DashboardRoute.Loader | wishlist/app/routes/app.dashboard.tsx:23-107 | the reply names the shop, recentActivity is at most 20, at most 10 top products, and a failure gives the zero fallback |
| DashboardRoute.CachedStats | wishlist/app/routes/app.dashboard.tsx:94 | the page's stats are the shop's cached counters and stamp when it has a row, else zeros without a stamp |
| DashboardRoute.Fallback | wishlist/app/routes/app.dashboard.tsx:99-106 | the `catch` reply keeps the shop and shows zero counters, no stamp, no top products and no recent activity |
| DashboardRoute.FallbackExactly | wishlist/app/routes/app.dashboard.tsx:52-107 | a throwing lookup gives the fallback; otherwise the stats are the cached row (zeros without one), recentActivity = min(20, rows) and the rows mirror the top list; with no rows the catalog reply is not read |
| DashboardRoute.NoRowsNoProducts | wishlist/app/routes/app.dashboard.tsx:34-52 | a shop without rows has no top products, so the catalog is not queried |
| DashboardRoute.TopRowsRanked | wishlist/app/routes/app.dashboard.tsx:34-95 | a loaded dashboard shows min(10, products) products with true counts, each once, non-increasing, none left out with more rows than one shown |
| DashboardRoute.JoinWithOwnNode | wishlist/app/routes/app.dashboard.tsx:49-83 | when the catalog answers one product per requested id in order, each top product is joined with its own node |
| DashboardRoute.FindOwnNode | wishlist/app/routes/app.dashboard.tsx:75 | with distinct product ids the lookup for the i-th id finds the i-th node |
| DashboardRoute.CachedAgreesWithLive | wishlist/app/routes/app.dashboard.tsx:29-94 | under the invariant the dashboard's cached counters equal the stats endpoint's live counts |
| DashboardRoute.BadgeFor | wishlist/app/routes/app.dashboard.tsx:117-118 | 'Popular' with tone success exactly when the count exceeds 10, otherwise 'Growing' with tone info |
| DashboardRoute.TableRows | wishlist/app/routes/app.dashboard.tsx:113-120 | row i has rank i+1, the product's title and count, and the badge for the count |
| DashboardRoute.PopularFirst | wishlist/app/routes/app.dashboard.tsx:113-120 | on a loaded dashboard ranks run 1, 2, ... and every Popular row is above every Growing row |
| PageRoute.AddedAt | wishlist/app/routes/api.wishlist.page.tsx:91-97 | the stamp of the first row whose global id is the node id, and none exactly when no row has that id |
| PageRoute.RequestedIds | wishlist/app/routes/api.wishlist.page.tsx:33 | one `gid://shopify/Product/` id per row, in row order |
| PageRoute.RequestedIdsExact | wishlist/app/routes/api.wishlist.page.tsx:22-33 | the catalog is asked once for each of the customer's products, newest row first, and for nothing else |
| PageRoute.Loader | wishlist/app/routes/api.wishlist.page.tsx:8-107 | a missing customerId, and only that, gives a 400; a 500 exactly on a store failure or a null node when the customer has rows; count is the customer's row count whatever the catalog returns; products follow the nodes' length and order; no rows gives ([], 0) |
| PageRoute.AddedAtExact | wishlist/app/routes/api.wishlist.page.tsx:89-98 | each product's addedAt is the stamp of the customer's own row for it, and absent for a node that is none of the customer's products |
| PageRoute.AddedAtOfProduct | wishlist/app/routes/api.wishlist.page.tsx:91-96 | `find` over the newest-first rows picks the stamp of the customer's row for the product, or nothing |
| PageRoute.FaithfulCatalog | wishlist/app/routes/api.wishlist.page.tsx:86-103 | when the catalog answers one product per requested id in order, the page lists the customer's products newest first, each with its own stamp |
| Scenario.EndToEnd | wishlist/app/routes/api.wishlist.remove.tsx:64-78 | after C1 adds P1 and P2 the shop has (2, 1) and the get route lists [P2, P1]; a repeated add changes nothing; after C2 adds P1 the shop has (3, 2); after C1 removes P1 it has (2, 2) and C1's reply is [P2] |

## Left out

- Authentication and shop resolution are not modelled: `authenticate.admin`, `authenticate.public.appProxy` and the get route's fallback to the latest session or `development.myshopify.com`. They are foreign calls and database I/O, and the shop is a parameter.
- Prisma and GraphQL plumbing are not modelled. The database is the in-memory `Store.WishlistDb`. The catalog reply is a parameter, where a missing `data` behaves as an empty node list.
- Loader failures are modelled only as one `backendUp` flag per loader. Which query failed, and the `details` field of 500 bodies, are not modelled.
- The 500 replies of the add action ("Failed to add to wishlist") and of the seeder ("Failed to add test data") are not modelled. The in-memory store cannot fail there. The remove action's 500 on a missing stats row is modelled, because it follows from the state.
- Concurrency is not modelled. The model runs requests one after another, so the check-then-create race of the add action (api.wishlist.add.tsx:42-60) and the check-then-delete race of the remove action (api.wishlist.remove.tsx:54-62), which the code allows because nothing is wrapped in a transaction, are not represented.
- Wall-clock time is not modelled. `createdAt` and `updatedAt` are abstract stamps: creation takes the store's clock and advances it, a stats write stamps the clock, and a loader's `new Date()` is a parameter.
- The stats row's `id` and `shop` columns, which the dashboard passes through, are not modelled. `ShownStats` keeps the two counters and the stamp.
- Product fields the page passes through by spreading the node (description, vendor, prices, variants) are not modelled. `Product` keeps id, title, handle and image URL.
- The `success: true` field of the add and remove replies is not modelled separately: it is implied by `Ok`.
- Of the home page's `topProducts`, only its emptiness is modelled.
- RealtimeWishlistStats.tsx is not part of this model: it is a UI component with a reload timer.
- socket.server.ts is not part of this model: it is a socket.io wrapper that no modelled route calls.
- JSX rendering, number formatting and logging are not modelled.
- Ranking.Ranked: the order among products with equal counts is not modelled, because the store leaves it unspecified. The sort the model uses is stable, and no contract depends on tie order.
- Tally.Wishlist: the order of the add and remove replies is a choice of the model (storage order) where the store leaves it unspecified; only the order-free facts of `Tally.WishlistExact` describe the program.
- Tally.NewestFirst: the order among rows with equal stamps is not modelled, for the same reason. In a well-formed table stamps are distinct, so no ties arise.
