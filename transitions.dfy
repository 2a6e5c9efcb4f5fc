/**
 * The store's state changes as functions from one `Db` to the next: the purchase
 * of `POST /purchase/:id`, the restock of `POST /admin/restock/:id` and the seed
 * run on process start.  `Store` in store.dfy performs them in place and is
 * specified by these functions.
 */
module Transitions {
  import opened Records

  /** The outcome the purchase handler reports. */
  datatype PurchaseResult =
    | ItemNotFound
    | OutOfStock
    | InsufficientFunds(price: int, received: int)
    | Success(item: Item, change: int)

  /** Units added by one restock. */
  const RestockAmount: int := 10

  /**
   * The purchase decision, checks in the handler's order: the row must exist,
   * then have stock, then the money must cover its price.  A success carries the
   * row as read before the decrement and the change `money - price`.
   */
  function PurchaseOutcome(items: seq<Item>, id: int, money: int): (r: PurchaseResult)
    ensures r == ItemNotFound <==> !HasId(items, id)
    ensures r.InsufficientFunds? ==> r.received == money && money < r.price
    ensures r.Success? ==> && r.item.id == id && r.item.stock > 0
                           && r.change == money - r.item.price && r.change >= 0
    ensures r.Success? ==> exists j :: 0 <= j < |items| && items[j] == r.item
  {
    match Lookup(items, id)
    case None => ItemNotFound
    case Some(item) =>
      if item.stock <= 0 then OutOfStock
      else if money < item.price then InsufficientFunds(item.price, money)
      else Success(item, money - item.price)
  }

  /**
   * `UPDATE items SET stock = stock + delta WHERE id = ?`: every row with the id
   * gets `delta` more stock, every other row and every other field is kept, and
   * an id that no row has leaves the table as it was.
   */
  function AddStock(items: seq<Item>, id: int, delta: int): (r: seq<Item>)
    ensures |r| == |items|
    ensures forall k :: 0 <= k < |items| ==>
              r[k] == if items[k].id == id then items[k].(stock := items[k].stock + delta) else items[k]
    ensures !HasId(items, id) ==> r == items
  {
    if items == [] then []
    else
      var rest := AddStock(items[1..], id, delta);
      assert forall k :: 0 < k < |items| ==> items[1..][k - 1] == items[k];
      assert !HasId(items, id) ==> !HasId(items[1..], id) by {
        if !HasId(items, id) {
          forall j | 0 <= j < |items[1..]| ensures items[1..][j].id != id {
            assert items[1..][j] == items[j + 1];
          }
        }
      }
      var r := [if items[0].id == id then items[0].(stock := items[0].stock + delta) else items[0]] + rest;
      assert !HasId(items, id) ==> r == [items[0]] + items[1..] == items;
      r
  }

  /**
   * The store after a purchase attempt.  A failure leaves it as it was; a
   * success runs the two writes of the handler: the stock of the row with the
   * id drops by one, and one sale (next sale id, the id, the time) is appended.
   */
  function AfterPurchase(db: Db, id: int, money: int, now: string): (r: Db)
    ensures !PurchaseOutcome(db.items, id, money).Success? ==> r == db
    ensures PurchaseOutcome(db.items, id, money).Success? ==>
              && |r.items| == |db.items|
              && (forall k :: 0 <= k < |db.items| ==>
                    r.items[k] == if db.items[k].id == id then db.items[k].(stock := db.items[k].stock - 1)
                                  else db.items[k])
              && r.sales == db.sales + [Sale(db.nextSaleId, id, now)]
              && r.nextItemId == db.nextItemId && r.nextSaleId == db.nextSaleId + 1
  {
    if PurchaseOutcome(db.items, id, money).Success? then
      db.(items := AddStock(db.items, id, -1),
          sales := db.sales + [Sale(db.nextSaleId, id, now)],
          nextSaleId := db.nextSaleId + 1)
    else db
  }

  /**
   * The store after a restock: rows with the id gain `RestockAmount` stock, with
   * no upper bound; `sales` and the counters are untouched; an unknown id
   * changes nothing.
   */
  function AfterRestock(db: Db, id: int): (r: Db)
    ensures |r.items| == |db.items|
    ensures forall k :: 0 <= k < |db.items| ==>
              r.items[k] == if db.items[k].id == id then db.items[k].(stock := db.items[k].stock + RestockAmount)
                            else db.items[k]
    ensures r.sales == db.sales && r.nextItemId == db.nextItemId && r.nextSaleId == db.nextSaleId
    ensures !HasId(db.items, id) ==> r == db
  {
    db.(items := AddStock(db.items, id, RestockAmount))
  }

  /**
   * The two rows inserted into an empty `items` table, with the ids they
   * receive: two distinct ids from `firstId` on, and stock that is not negative.
   */
  function SeedRows(firstId: int): (r: seq<Item>)
    ensures |r| == 2 && UniqueItemIds(r) && StocksNonNegative(r)
    ensures forall k :: 0 <= k < |r| ==> firstId <= r[k].id < firstId + 2
  {
    [Item(firstId, "コーラ", 150, 5, "cola.png"), Item(firstId + 1, "お茶", 120, 5, "tea.png")]
  }

  /**
   * Start-up seeding: only an empty `items` table receives the two rows, so
   * afterwards the table is never empty; `sales` is never touched.
   */
  function AfterSeed(db: Db): (r: Db)
    ensures |r.items| > 0
    ensures r.sales == db.sales && r.nextSaleId == db.nextSaleId
    ensures |db.items| != 0 ==> r == db
  {
    if |db.items| == 0 then db.(items := SeedRows(db.nextItemId), nextItemId := db.nextItemId + 2)
    else db
  }

  /** The store after a successful purchase, written out field by field. */
  lemma SuccessfulPurchaseState(db: Db, id: int, money: int, now: string)
    requires PurchaseOutcome(db.items, id, money).Success?
    ensures AfterPurchase(db, id, money, now)
            == Db(AddStock(db.items, id, -1), db.sales + [Sale(db.nextSaleId, id, now)],
                  db.nextItemId, db.nextSaleId + 1)
  {
  }

  // ----- the purchase decision -----

  /**
   * For the row with the requested id: OutOfStock when its stock is at most 0,
   * whatever the money (this check comes first); otherwise InsufficientFunds with
   * its price and the money received when the money is short; otherwise Success
   * with that row and non-negative change `money - price`.
   */
  lemma PurchaseOfRow(items: seq<Item>, k: int, money: int)
    requires UniqueItemIds(items)
    requires 0 <= k < |items|
    ensures var r := PurchaseOutcome(items, items[k].id, money);
            && (items[k].stock <= 0 ==> r == OutOfStock)
            && (items[k].stock > 0 && money < items[k].price ==> r == InsufficientFunds(items[k].price, money))
            && (items[k].stock > 0 && money >= items[k].price ==> r == Success(items[k], money - items[k].price))
  {
    LookupFindsRow(items, k);
  }

  // ----- effects of a purchase -----

  /**
   * A successful purchase of the row at `k` lowers that row's stock by exactly
   * one, leaves every other row and every other field as it was, and appends
   * exactly one sale: the next sale id, the requested item id and the given time.
   */
  lemma SuccessfulPurchaseEffect(db: Db, k: int, money: int, now: string)
    requires UniqueItemIds(db.items)
    requires 0 <= k < |db.items|
    requires db.items[k].stock > 0 && money >= db.items[k].price
    ensures var after := AfterPurchase(db, db.items[k].id, money, now);
            && |after.items| == |db.items|
            && after.items[k] == db.items[k].(stock := db.items[k].stock - 1)
            && (forall j :: 0 <= j < |db.items| && j != k ==> after.items[j] == db.items[j])
            && after.sales == db.sales + [Sale(db.nextSaleId, db.items[k].id, now)]
            && after.nextItemId == db.nextItemId && after.nextSaleId == db.nextSaleId + 1
  {
    PurchaseOfRow(db.items, k, money);
  }

  // ----- effects of a restock and of the seed -----

  /**
   * A restock of the row at `k` adds exactly `RestockAmount` (10) to its stock (never lowering it)
   * and changes no other row, no other field, no sale and no counter.
   */
  lemma RestockEffect(db: Db, k: int)
    requires UniqueItemIds(db.items)
    requires 0 <= k < |db.items|
    ensures var after := AfterRestock(db, db.items[k].id);
            && |after.items| == |db.items|
            && after.items[k] == db.items[k].(stock := db.items[k].stock + RestockAmount)
            && after.items[k].stock > db.items[k].stock
            && (forall j :: 0 <= j < |db.items| && j != k ==> after.items[j] == db.items[j])
            && after.sales == db.sales
            && after.nextItemId == db.nextItemId && after.nextSaleId == db.nextSaleId
  {
  }

  /**
   * Seeding an empty table yields exactly Cola (150, 5, cola.png) and Tea
   * (120, 5, tea.png); a non-empty table is left as it was; so a second seed
   * changes nothing.
   */
  lemma SeedEffect(db: Db)
    ensures |db.items| == 0 ==>
              AfterSeed(db).items == [Item(db.nextItemId, "コーラ", 150, 5, "cola.png"),
                                      Item(db.nextItemId + 1, "お茶", 120, 5, "tea.png")]
              && AfterSeed(db).sales == db.sales
    ensures |db.items| != 0 ==> AfterSeed(db) == db
    ensures AfterSeed(AfterSeed(db)) == AfterSeed(db)
  {
  }

  // ----- invariants kept by every step -----

  /** Rows with the same ids in the same places name the same set of ids. */
  lemma SameIdsSameHasId(before: seq<Item>, after: seq<Item>, id: int)
    requires |before| == |after|
    requires forall k :: 0 <= k < |before| ==> after[k].id == before[k].id
    ensures HasId(after, id) <==> HasId(before, id)
  {
    if HasId(before, id) {
      var j :| 0 <= j < |before| && before[j].id == id;
      assert after[j].id == id;
    }
    if HasId(after, id) {
      var j :| 0 <= j < |after| && after[j].id == id;
      assert before[j].id == id;
    }
  }

  /** Replacing the rows by rows with the same ids in the same places keeps the table guarantees. */
  lemma SameIdsKeepWellFormed(db: Db, rows: seq<Item>)
    requires WellFormed(db)
    requires |rows| == |db.items|
    requires forall k :: 0 <= k < |rows| ==> rows[k].id == db.items[k].id
    ensures WellFormed(db.(items := rows))
  {
  }

  /** Appending a sale with the next sale id, and advancing that counter, keeps the table guarantees. */
  lemma AppendSaleKeepsWellFormed(db: Db, id: int, now: string)
    requires WellFormed(db)
    ensures WellFormed(db.(sales := db.sales + [Sale(db.nextSaleId, id, now)], nextSaleId := db.nextSaleId + 1))
  {
    var sales := db.sales + [Sale(db.nextSaleId, id, now)];
    forall i | 0 <= i < |db.sales| ensures sales[i] == db.sales[i] { }
  }

  /** The two writes of a successful purchase keep the table guarantees. */
  lemma PurchaseWritesKeepWellFormed(db: Db, id: int, now: string)
    requires WellFormed(db)
    ensures WellFormed(db.(items := AddStock(db.items, id, -1),
                           sales := db.sales + [Sale(db.nextSaleId, id, now)],
                           nextSaleId := db.nextSaleId + 1))
  {
    var mid := db.(items := AddStock(db.items, id, -1));
    SameIdsKeepWellFormed(db, mid.items);
    AppendSaleKeepsWellFormed(mid, id, now);
  }

  /** A purchase keeps the table guarantees: ids are kept and the new sale takes the next sale id. */
  lemma PurchaseKeepsWellFormed(db: Db, id: int, money: int, now: string)
    requires WellFormed(db)
    ensures WellFormed(AfterPurchase(db, id, money, now))
  {
    PurchaseWritesKeepWellFormed(db, id, now);
  }

  /** Every step keeps the table guarantees. */
  lemma StepsKeepWellFormed(db: Db, id: int, money: int, now: string)
    requires WellFormed(db)
    ensures WellFormed(AfterPurchase(db, id, money, now))
    ensures WellFormed(AfterRestock(db, id))
    ensures WellFormed(AfterSeed(db))
  {
    PurchaseKeepsWellFormed(db, id, money, now);
    var inc := AfterRestock(db, id);
    SameIdsKeepWellFormed(db, inc.items);
    assert inc == db.(items := inc.items);
  }

  /**
   * A purchase never makes a stock negative: with unique ids the row it
   * decrements is the row whose positive stock the handler checked.  This
   * needs nothing about the sales.
   */
  lemma PurchaseKeepsStock(db: Db, id: int, money: int, now: string)
    requires UniqueItemIds(db.items) && StocksNonNegative(db.items)
    ensures StocksNonNegative(AfterPurchase(db, id, money, now).items)
  {
    if PurchaseOutcome(db.items, id, money).Success? {
      var after := AfterPurchase(db, id, money, now);
      forall k | 0 <= k < |after.items| ensures after.items[k].stock >= 0 {
        if db.items[k].id == id { LookupFindsRow(db.items, k); }
      }
    }
  }

  /**
   * A purchase keeps the store consistent: it decrements only the row with the
   * id, which had positive stock (ids are unique, so the lookup found that very
   * row), and the sale it appends names that existing row.
   */
  lemma PurchaseKeepsConsistent(db: Db, id: int, money: int, now: string)
    requires Consistent(db)
    ensures Consistent(AfterPurchase(db, id, money, now))
  {
    PurchaseKeepsWellFormed(db, id, money, now);
    PurchaseKeepsStock(db, id, money, now);
    if PurchaseOutcome(db.items, id, money).Success? {
      var after := AfterPurchase(db, id, money, now);
      forall i | 0 <= i < |after.sales| ensures HasId(after.items, after.sales[i].itemId) {
        SameIdsSameHasId(db.items, after.items, after.sales[i].itemId);
        if i < |db.sales| { assert after.sales[i] == db.sales[i]; }
      }
    }
  }

  /** A restock keeps the store consistent: it only adds stock and keeps every id. */
  lemma RestockKeepsConsistent(db: Db, id: int)
    requires Consistent(db)
    ensures Consistent(AfterRestock(db, id))
  {
    var after := AfterRestock(db, id);
    SameIdsKeepWellFormed(db, after.items);
    assert after == db.(items := after.items);
    forall i | 0 <= i < |after.sales| ensures HasId(after.items, after.sales[i].itemId) {
      SameIdsSameHasId(db.items, after.items, after.sales[i].itemId);
    }
  }

  /**
   * The stock guard holds in any sequential run: a purchase decrements only a
   * row with positive stock, a restock only adds and the seed inserts stock 5.
   * No sale dangles: a new sale names an existing item and no step removes one.
   */
  lemma StepsKeepConsistent(db: Db, id: int, money: int, now: string)
    requires Consistent(db)
    ensures Consistent(AfterPurchase(db, id, money, now))
    ensures Consistent(AfterRestock(db, id))
    ensures Consistent(AfterSeed(db))
  {
    PurchaseKeepsConsistent(db, id, money, now);
    RestockKeepsConsistent(db, id);
    StepsKeepWellFormed(db, id, money, now);
  }

  // ----- sequential runs -----

  /** One request served by the application, or a process restart (which runs the seed). */
  datatype Request =
    | PurchaseRequest(id: int, money: int, now: string)
    | RestockRequest(id: int)
    | Restart

  /** One request: a purchase appends at most one sale, and no request removes a sale or an item. */
  function Step(db: Db, req: Request): (r: Db)
    ensures |db.sales| <= |r.sales| <= |db.sales| + 1 && r.sales[..|db.sales|] == db.sales
    ensures |r.items| >= |db.items|
    ensures forall k :: 0 <= k < |db.items| ==> r.items[k] == db.items[k].(stock := r.items[k].stock)
  {
    match req
    case PurchaseRequest(id, money, now) => AfterPurchase(db, id, money, now)
    case RestockRequest(id) => AfterRestock(db, id)
    case Restart => AfterSeed(db)
  }

  /** The store after serving the requests one after another. */
  function Run(db: Db, reqs: seq<Request>): (r: Db)
    ensures |db.sales| <= |r.sales| && r.sales[..|db.sales|] == db.sales
    ensures |r.items| >= |db.items|
    ensures forall k :: 0 <= k < |db.items| ==> r.items[k] == db.items[k].(stock := r.items[k].stock)
    decreases |reqs|
  {
    if reqs == [] then db else Run(Step(db, reqs[0]), reqs[1..])
  }

  /** How many of the requests are purchases that succeed when their turn comes. */
  function Successes(db: Db, reqs: seq<Request>): (n: nat)
    ensures n <= |reqs|
    decreases |reqs|
  {
    if reqs == [] then 0
    else
      (match reqs[0]
       case PurchaseRequest(id, money, _) => if PurchaseOutcome(db.items, id, money).Success? then 1 else 0
       case _ => 0)
      + Successes(Step(db, reqs[0]), reqs[1..])
  }

  /** One request from a well-formed store whose stock is non-negative leaves it so. */
  lemma StepKeepsStock(db: Db, req: Request)
    requires WellFormed(db) && StocksNonNegative(db.items)
    ensures WellFormed(Step(db, req)) && StocksNonNegative(Step(db, req).items)
  {
    match req {
      case PurchaseRequest(id, money, now) =>
        PurchaseKeepsWellFormed(db, id, money, now);
        PurchaseKeepsStock(db, id, money, now);
      case RestockRequest(id) => StepsKeepWellFormed(db, id, 0, "");
      case Restart => StepsKeepWellFormed(db, 0, 0, "");
    }
  }

  /**
   * No stock goes negative in any sequential run that starts from a well-formed
   * store whose stock is non-negative, whatever its sales are.
   */
  lemma {:induction false} RunKeepsStock(db: Db, reqs: seq<Request>)
    requires WellFormed(db) && StocksNonNegative(db.items)
    ensures WellFormed(Run(db, reqs)) && StocksNonNegative(Run(db, reqs).items)
    decreases |reqs|
  {
    if reqs != [] {
      StepKeepsStock(db, reqs[0]);
      RunKeepsStock(Step(db, reqs[0]), reqs[1..]);
    }
  }

  /** Any sequential run from a consistent store stays consistent; in particular no stock goes negative. */
  lemma {:induction false} RunKeepsConsistent(db: Db, reqs: seq<Request>)
    requires Consistent(db)
    ensures Consistent(Run(db, reqs))
    decreases |reqs|
  {
    if reqs != [] {
      match reqs[0] {
        case PurchaseRequest(id, money, now) => StepsKeepConsistent(db, id, money, now);
        case RestockRequest(id) => StepsKeepConsistent(db, id, 0, "");
        case Restart => StepsKeepConsistent(db, 0, 0, "");
      }
      RunKeepsConsistent(Step(db, reqs[0]), reqs[1..]);
    }
  }

  /** A run appends exactly one sale per successful purchase and none otherwise. */
  lemma {:induction false} RunRecordsOneSalePerSuccess(db: Db, reqs: seq<Request>)
    ensures |Run(db, reqs).sales| == |db.sales| + Successes(db, reqs)
    decreases |reqs|
  {
    if reqs != [] {
      RunRecordsOneSalePerSuccess(Step(db, reqs[0]), reqs[1..]);
    }
  }
}
