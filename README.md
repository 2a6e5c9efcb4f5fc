# Vending-machine store, modelled in Dafny

The application is a small Express web app backed by SQLite. It keeps two
tables: `items(id, name, price, stock, image)` and `sales(id, item_id, sold_at)`.
Its request handlers do four things: purchase one item, restock an item by ten,
list the catalog, and list the sales history. On start-up it also seeds an empty
`items` table.

This project models those two tables as an in-memory store and proves what each
operation does to them.

- `records.dfy` (module `Records`) holds the rows, the store value `Db`, the
  guarantees SQLite's schema gives (unique primary keys, AUTOINCREMENT counters)
  and the row lookup `SELECT * FROM items WHERE id = ?`.
- `transitions.dfy` (module `Transitions`) holds each state change as a function
  from one `Db` to the next: purchase, restock and seed. It also has sequential
  runs of requests, and lemmas for the effect of each step and the invariants
  every step keeps.
- `history.dfy` (module `History`) holds the `/sales` query. That is the inner
  join of `sales` with `items`, ordered by `sold_at` descending under SQLite's
  BINARY (code point) collation.
- `store.dfy` (module `VendingStore`) holds the `Store` class. Its fields are the
  two tables and the id counters. Its `Seed`, `Restock` and `Purchase` methods
  update them in place, and each is specified by the matching `Transitions`
  function. Three client methods replay the concrete purchase scenarios.

External inputs become parameters:

- The item id from the URL is an `int`. With SQLite's INTEGER affinity, a
  numeric path segment compares as that number. A non-numeric one matches no
  row, which is the same as an id no row has.
- The inserted money is an `int`.
- The `toLocaleString('ja-JP')` timestamp is an opaque string `now`.

The seed rows carry the source's own names: "コーラ" (cola) and "お茶" (tea).

Invariants:

- `WellFormed` is what SQLite itself guarantees. `Store.Valid()` is this
  predicate.
- `Consistent` adds non-negative stock and "every sale names an existing item".
  The source does not enforce either, so it is proved, not assumed: every
  operation keeps it (`StepsKeepConsistent`), so any sequential run from the
  empty store keeps it (`RunKeepsConsistent`).
- Non-negative stock does not depend on the sales. A well-formed store with
  non-negative stock keeps it through any sequential run (`RunKeepsStock`),
  even one opened from a file with dangling sales.

## Model

| member | source | states |
|---|---|---|
| `Records.Lookup` | my-vending-app/app.js:77-80 | finds a row exactly when some row has the id; the row found has that id, and no earlier row does |
| `Records.LookupFindsRow` | my-vending-app/app.js:14 | with unique primary keys, looking up a row's id returns exactly that row |
| `Transitions.PurchaseOutcome` | my-vending-app/app.js:77-91 | ItemNotFound exactly when no row has the id; InsufficientFunds reports the money received, which is below the reported price; Success carries a stored row with the requested id and positive stock, and change money - price, never negative |
| `Transitions.AddStock` | my-vending-app/app.js:56 | `stock = stock + delta WHERE id = ?` (also the `- 1` at line 94): same number of rows, each row with the id gains exactly `delta` stock with every other field kept, every other row is kept, and an id no row has leaves the table as it was |
| `Transitions.AfterPurchase` | my-vending-app/app.js:77-97 | a failed purchase leaves the whole store unchanged; a success lowers by one the stock of the rows with the id, keeps every other row, appends exactly one sale (next sale id, the id, the time) and advances only the sale counter |
| `Transitions.AfterRestock` | my-vending-app/app.js:53-60 | rows with the id gain exactly 10 stock with no upper bound, all other rows are kept, sales and counters are untouched, and an unknown id changes nothing |
| `Transitions.SeedRows` | my-vending-app/app.js:32-33 | the two inserted rows take two distinct ids from the next item id on, and neither has negative stock |
| `Transitions.AfterSeed` | my-vending-app/app.js:30-36 | after start-up the items table is never empty; a non-empty store is left unchanged; sales and the sale counter are never touched |
| `Transitions.PurchaseOfRow` | my-vending-app/app.js:83-91 | for the row with the requested id: stock <= 0 gives OutOfStock for any money (this check comes before funds); else money < price gives InsufficientFunds with that price and the money received; else Success with that row and change money - price |
| `Transitions.SuccessfulPurchaseEffect` | my-vending-app/app.js:91-97 | a success lowers the purchased row's stock by exactly 1 and leaves every other row and field unchanged; it appends exactly one sale (next id, requested item id, given time) |
| `Transitions.RestockEffect` | my-vending-app/app.js:53-60 | restocking an existing item adds exactly 10 to its stock (so never lowers it); no other row, no other field, no sale and no counter changes |
| `Transitions.SeedEffect` | my-vending-app/app.js:30-36 | on an empty table the seed yields exactly two rows, コーラ/150/5/cola.png and お茶/120/5/tea.png; a non-empty store is unchanged; seeding twice equals seeding once |
| `Transitions.PurchaseKeepsWellFormed` | my-vending-app/app.js:13-26 | a purchase keeps primary keys unique and below the AUTOINCREMENT counters |
| `Transitions.PurchaseKeepsStock` | my-vending-app/app.js:83-94 | with unique ids, a purchase keeps every stock non-negative, whatever the sales are: the only row decremented is the one whose stock was checked positive |
| `Transitions.StepsKeepWellFormed` | my-vending-app/app.js:13-26 | purchase, restock and seed keep primary keys unique and below the AUTOINCREMENT counters |
| `Transitions.PurchaseKeepsConsistent` | my-vending-app/app.js:83-97 | a purchase keeps every stock non-negative (only a row with positive stock is decremented) and its sale names an existing row |
| `Transitions.RestockKeepsConsistent` | my-vending-app/app.js:53-60 | a restock keeps every stock non-negative and every sale's item present |
| `Transitions.StepsKeepConsistent` | my-vending-app/app.js:30-97 | purchase, restock and seed (lines 30-36, 53-60, 72-97) keep stock non-negative and never create a dangling sale |
| `Transitions.Step` | my-vending-app/app.js:30-110 | one request (a purchase, a restock, or a restart that runs the seed) appends at most one sale and keeps every earlier sale; every earlier item row keeps its place and all its fields but stock, so no item is removed |
| `Transitions.Run` | my-vending-app/app.js:30-110 | a sequence of requests only appends to the sales (the old sales are a prefix), and every earlier item row keeps its place and all its fields but stock |
| `Transitions.Successes` | my-vending-app/app.js:72-110 | the number of purchases that succeed in a run is at most the number of requests |
| `Transitions.RunKeepsConsistent` | my-vending-app/app.js:30-110 | any sequential run of purchases, restocks and restarts from a consistent store stays consistent |
| `Transitions.RunRecordsOneSalePerSuccess` | my-vending-app/app.js:94-97 | a run appends exactly as many sales as it has successful purchases |
| `Transitions.StepKeepsStock` | my-vending-app/app.js:30-110 | one request from a well-formed store with non-negative stock keeps it well-formed with non-negative stock |
| `Transitions.RunKeepsStock` | my-vending-app/app.js:30-110 | any sequential run from a well-formed store with non-negative stock, with any sales, never makes a stock negative |
| `History.TextLeq` | my-vending-app/app.js:121 | BINARY collation: `a` sorts before or with `b` exactly when `a` is a prefix of `b` or, at the first position where they differ, `a` has the smaller code point |
| `History.TextLeqTotal` | my-vending-app/app.js:121 | any two texts are comparable under the collation |
| `History.TextLeqTransitive` | my-vending-app/app.js:121 | the collation order is transitive |
| `History.MatchRows` | my-vending-app/app.js:120 | a sale contributes at most as many rows as there are items, none when no item has its `item_id`, and every row it contributes carries the sale's time |
| `History.Joined` | my-vending-app/app.js:118-120 | the join has at most |sales| x |items| rows, and every row's time is the time of some sale |
| `History.MatchRowsMember` | my-vending-app/app.js:120 | a sale's join rows are exactly the rows built from the items whose id equals its `item_id` |
| `History.JoinedMember` | my-vending-app/app.js:118-120 | a row is in the join iff some sale and some item with equal ids build it (the sale's time, the item's current name and price) |
| `History.MatchRowsUnique` | my-vending-app/app.js:120 | with unique item ids, each sale joins with at most one item: the one the lookup finds |
| `History.JoinedLength` | my-vending-app/app.js:116-122 | with unique item ids, the join has one row per sale whose `item_id` names an existing item |
| `History.AllSalesMatched` | my-vending-app/app.js:120 | when no sale dangles, every sale takes part in the join |
| `History.InsertDesc` | my-vending-app/app.js:121 | inserting into a latest-first list keeps it latest first and adds exactly that row |
| `History.SortBySoldAtDesc` | my-vending-app/app.js:121 | result is ordered by `sold_at` descending and is a permutation of its input |
| `History.SalesHistory` | my-vending-app/app.js:116-122 | the `/sales` rows are ordered by `sold_at` descending and are a permutation of the inner join |
| `History.HistoryMember` | my-vending-app/app.js:116-122 | a row is in the history iff it pairs some sale's time with the current name and price of an item whose id is that sale's `item_id` |
| `History.HistoryLength` | my-vending-app/app.js:116-122 | the history has one row per sale whose `item_id` names an existing item |
| `History.HistoryCountsEverySale` | my-vending-app/app.js:116-122 | in a consistent store the history has exactly one row per recorded sale |
| `VendingStore.HistoryMatchesSuccesses` | my-vending-app/app.js:94-122 | from the empty store, after any sequence of requests, the history has one row per successful purchase and every stock is non-negative |
| `VendingStore.Store.Empty` | my-vending-app/app.js:13-26 | first start creates both tables empty, with ids starting at 1 |
| `VendingStore.Store.Open` | my-vending-app/app.js:4 | reopening the database file finds the tables as they were left |
| `VendingStore.Store.Seed` | my-vending-app/app.js:30-36 | in place: an empty items table gets コーラ and お茶 with the next two ids; otherwise nothing changes; sales are never touched; non-negative stock and consistency are kept |
| `VendingStore.Store.Catalog` | my-vending-app/app.js:64-68 | `SELECT * FROM items` (also used by `/admin`, line 46) returns every row in storage order and changes nothing |
| `VendingStore.Store.Restock` | my-vending-app/app.js:53-60 | in place: matching rows gain 10 stock, all else unchanged; an unknown id changes nothing; non-negative stock and consistency are kept |
| `VendingStore.Store.Purchase` | my-vending-app/app.js:72-110 | in place: returns `PurchaseOutcome` of the rows as they were and leaves the store at `AfterPurchase` of the old store, so every case of those two contracts holds of the real fields; the table guarantees, non-negative stock (from any sales) and consistency are kept |
| `VendingStore.Store.SalesHistory` | my-vending-app/app.js:114-128 | returns the join rows latest first, as a permutation of the join (the order of equal times is left open, as in SQL): a row iff some sale and a matching item build it, one per sale that names an item |
| `VendingStore.ColaPurchaseScenario` | my-vending-app/app.js:72-110 | seed then buy id 1 with 200: Success with コーラ and change 50, stock becomes 4, one sale |
| `VendingStore.SoldOutScenario` | my-vending-app/app.js:83-85 | コーラ at stock 0 with 200 inserted: OutOfStock, stock stays 0, no sale |
| `VendingStore.ShortMoneyScenario` | my-vending-app/app.js:86-88 | seed then insert 100 for the 150 コーラ: InsufficientFunds(150, 100), stock stays 5, no sale |

## Left out

- Express plumbing is left out: routing, `res.redirect`, `res.render` with EJS templates, the HTML success text, static files, `app.listen` and the seed's `console.log` message (lines 1-8, 34, 99-106, 131). It is I/O and presentation. The success page shows the purchased item's name and the change; the model returns both in `Success`.
- The sqlite3 connection and its asynchronous callbacks are left out. The tables are plain in-memory state, and each handler runs to completion before the next starts. The two seed INSERTs at lines 32-33 are separate `db.run` calls issued from the `count(*)` callback, so the source text does not fix which row gets the first id. `SeedRows` gives コーラ `nextItemId` and お茶 the one after, the order the two calls are written in.
- The check-then-write race between concurrent purchases is left out. Two requests can both pass the stock check at line 83 before either runs the UPDATE at line 94. That is a concurrency hazard, outside a sequential model. `StepsKeepConsistent` and `RunKeepsConsistent` hold only for sequential runs.
- Storage errors are left out. The `err` arguments at lines 46, 56, 65, 94, 97 and 123 are ignored. A failed read at line 46, 65 or 123 renders its page with `rows` undefined, and the success page appears even if the UPDATE or INSERT fails. The model assumes every read and write succeeds. An error from the lookup at line 77 would give ItemNotFound; the model has no storage errors, so only a missing row gives it. If the seed's `count(*)` query at line 30 failed, `row` would be undefined and the callback would throw; that is not modelled either.
- `parseInt` coercion of the money field is left out (line 74). Missing or non-numeric money gives `NaN`. In JavaScript `NaN < price` is false, so such a request passes the funds check at line 86: it succeeds with `NaN` change, decrements stock and records a sale. That is float coercion behaviour, so the inserted money is an `int` and this path cannot arise in the model. `parseInt`'s truncation of text such as "120.9" is also not modelled.
- PurchaseOutcome, AfterPurchase, Store.Purchase: money and change are exact integers. In the source `parseInt` gives a JavaScript double (line 74), and the comparison at line 86 and the change at line 91 are double arithmetic, exact only up to 2^53. Above that the source rounds: money 18014398509482184 with price 150 gives change 18014398509482032 there and 18014398509482034 here.
- AddStock, AfterRestock, Store.Restock, Store.Open: stock is an unbounded integer. SQLite stores INTEGER in 64 bits, and `stock + 10` (line 56) past 2^63 - 1 turns into a REAL value. The model does not bound stock, and `Store.Open` accepts any integer stock from the file.
- Locale formatting of the timestamp (`new Date().toLocaleString('ja-JP')`, line 96) is left out. The time is an input string. The history is ordered by that string's code points, as SQLite compares TEXT. Whether that order is chronological is not modelled.
- SQL does not fix the order of history rows with equal `sold_at`. Two purchases in the same second get equal times, so such ties are common. `History.SalesHistory` and `Store.SalesHistory` promise only the descending order and the permutation of the join. The function `SortBySoldAtDesc` computes one order (its insertion order for ties), and the method's contract does not expose that choice.
- Store.Open, Store.Catalog: a table's storage order is taken as the sequence given. A rowid table in SQLite is scanned in id order, and every store reached from the empty one has its rows in id order, because each insert takes a larger id. `Open` does not require a file's rows to be in id order, so `Catalog` can return an order SQLite would not.
- AUTOINCREMENT is modelled as two counters that each insert advances. SQLite's `sqlite_sequence` bookkeeping is not modelled. `Store.Open` takes the counters as found in the file.
