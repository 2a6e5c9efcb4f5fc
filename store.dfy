/**
 * The application's shared store, updated in place by the request handlers of
 * my-vending-app/app.js.  Each method is specified by the corresponding function
 * of `Transitions`, and says directly what it reports and what it changes.
 */
module VendingStore {
  import opened Records
  import opened Transitions
  import History

  class Store {
    var items: seq<Item>
    var sales: seq<Sale>
    var nextItemId: int
    var nextSaleId: int

    /** Both tables and both counters as one value. */
    function State(): Db
      reads this
    {
      Db(items, sales, nextItemId, nextSaleId)
    }

    ghost predicate Valid()
      reads this
    {
      WellFormed(State())
    }

    /** First start: `CREATE TABLE IF NOT EXISTS` creates both tables empty. */
    constructor Empty()
      ensures Valid() && Consistent(State())
      ensures State() == EmptyDb
    {
      items, sales := [], [];
      nextItemId, nextSaleId := 1, 1;
    }

    /** A later start on an existing database file: the tables are found as they were left. */
    constructor Open(persisted: Db)
      requires WellFormed(persisted)
      ensures Valid()
      ensures State() == persisted
    {
      items, sales := persisted.items, persisted.sales;
      nextItemId, nextSaleId := persisted.nextItemId, persisted.nextSaleId;
    }

    /**
     * Start-up seeding: when `count(*)` of `items` is 0, insert Cola and Tea;
     * otherwise leave the store alone.
     */
    method Seed()
      requires Valid()
      modifies this
      ensures Valid()
      ensures State() == AfterSeed(old(State()))
      ensures |old(items)| == 0 ==>
                items == [Item(old(nextItemId), "コーラ", 150, 5, "cola.png"),
                          Item(old(nextItemId) + 1, "お茶", 120, 5, "tea.png")]
      ensures |old(items)| != 0 ==> State() == old(State())
      ensures sales == old(sales) && nextSaleId == old(nextSaleId)
      ensures old(StocksNonNegative(items)) ==> StocksNonNegative(items)
      ensures old(Consistent(State())) ==> Consistent(State())
    {
      if Consistent(State()) { StepsKeepConsistent(State(), 0, 0, ""); }
      var count := |items|;
      if count == 0 {
        items := items + [Item(nextItemId, "コーラ", 150, 5, "cola.png")];
        nextItemId := nextItemId + 1;
        items := items + [Item(nextItemId, "お茶", 120, 5, "tea.png")];
        nextItemId := nextItemId + 1;
      }
    }

    /** `SELECT * FROM items` for `/` and `/admin`: every row, in storage order. */
    method Catalog() returns (rows: seq<Item>)
      ensures rows == items
    {
      rows := items;
    }

    /**
     * `POST /admin/restock/:id`: add ten to the stock of the row with that id.
     * An id that no row has changes nothing.
     */
    method Restock(id: int)
      requires Valid()
      modifies this
      ensures Valid()
      ensures State() == AfterRestock(old(State()), id)
      ensures |items| == |old(items)|
      ensures forall k :: 0 <= k < |items| ==>
                items[k] == if old(items)[k].id == id then old(items)[k].(stock := old(items)[k].stock + RestockAmount)
                            else old(items)[k]
      ensures !HasId(old(items), id) ==> State() == old(State())
      ensures sales == old(sales) && nextItemId == old(nextItemId) && nextSaleId == old(nextSaleId)
      ensures old(StocksNonNegative(items)) ==> StocksNonNegative(items)
      ensures old(Consistent(State())) ==> Consistent(State())
    {
      ghost var before := State();
      if Consistent(before) { StepsKeepConsistent(before, id, 0, ""); }
      items := AddStock(items, id, RestockAmount);
    }

    /**
     * `POST /purchase/:id` with the inserted `money` and the time text `now`.
     * The checks run in order and the first that fails decides: no such row,
     * then stock at most 0, then money below the price.  Only a success changes
     * the store: the row's stock drops by one and one sale is appended.  The
     * outcome is `PurchaseOutcome` and the new store is `AfterPurchase`, whose
     * contracts spell out each case.
     */
    method Purchase(id: int, money: int, now: string) returns (r: PurchaseResult)
      requires Valid()
      modifies this
      ensures Valid()
      ensures r == PurchaseOutcome(old(items), id, money)
      ensures State() == AfterPurchase(old(State()), id, money, now)
      ensures old(StocksNonNegative(items)) ==> StocksNonNegative(items)
      ensures old(Consistent(State())) ==> Consistent(State())
    {
      ghost var before := State();
      r := PurchaseOutcome(items, id, money);
      if r.Success? {
        SuccessfulPurchaseState(before, id, money, now);
        items := AddStock(items, id, -1);
        sales := sales + [Sale(nextSaleId, id, now)];
        nextSaleId := nextSaleId + 1;
      }
      assert State() == AfterPurchase(before, id, money, now);
      PurchaseKeepsWellFormed(before, id, money, now);
      if Consistent(before) { PurchaseKeepsConsistent(before, id, money, now); }
      if StocksNonNegative(before.items) { PurchaseKeepsStock(before, id, money, now); }
    }

    /**
     * `GET /sales`: the sales joined with their items' current name and price,
     * latest `sold_at` first; one row for each sale whose `item_id` names a row,
     * and no other row.
     */
    method SalesHistory() returns (rows: seq<History.HistoryRow>)
      requires Valid()
      ensures multiset(rows) == multiset(History.Joined(items, sales))
      ensures History.SortedDesc(rows)
      ensures |rows| == |History.MatchedSales(items, sales)|
      ensures forall row :: row in rows <==>
                exists i, j :: 0 <= i < |sales| && 0 <= j < |items| && sales[i].itemId == items[j].id
                               && row == History.JoinedRow(sales[i], items[j])
    {
      rows := History.SalesHistory(items, sales);
      History.HistoryLength(items, sales);
      forall row ensures row in rows <==>
          exists i, j :: 0 <= i < |sales| && 0 <= j < |items| && sales[i].itemId == items[j].id
                         && row == History.JoinedRow(sales[i], items[j])
      {
        History.HistoryMember(items, sales, row);
      }
    }
  }

  /**
   * From the empty store, whatever requests are served in sequence, the sales
   * history has exactly one row per successful purchase and no stock is negative.
   */
  lemma HistoryMatchesSuccesses(reqs: seq<Request>)
    ensures var db := Run(EmptyDb, reqs);
            && |History.SalesHistory(db.items, db.sales)| == Successes(EmptyDb, reqs)
            && StocksNonNegative(db.items)
  {
    RunKeepsConsistent(EmptyDb, reqs);
    RunRecordsOneSalePerSuccess(EmptyDb, reqs);
    History.HistoryCountsEverySale(Run(EmptyDb, reqs));
  }

  /**
   * First start, then `POST /purchase/1` with 200: the Cola row is sold with
   * change 50, its stock becomes 4 and one sale is recorded.
   */
  method ColaPurchaseScenario(now: string) returns (r: PurchaseResult, stock: int, saleCount: int)
    ensures r == Success(Item(1, "コーラ", 150, 5, "cola.png"), 50)
    ensures stock == 4 && saleCount == 1
  {
    var store := new Store.Empty();
    store.Seed();
    r := store.Purchase(1, 200, now);
    stock := store.items[0].stock;
    saleCount := |store.sales|;
  }

  /** A sold-out Cola reports OutOfStock even for ample money, and nothing is recorded. */
  method SoldOutScenario(now: string) returns (r: PurchaseResult, stock: int, saleCount: int)
    ensures r == OutOfStock
    ensures stock == 0 && saleCount == 0
  {
    var store := new Store.Open(Db([Item(1, "コーラ", 150, 0, "cola.png")], [], 2, 1));
    r := store.Purchase(1, 200, now);
    stock := store.items[0].stock;
    saleCount := |store.sales|;
  }

  /** Inserting 100 for the 150 Cola reports the price and the amount, and nothing changes. */
  method ShortMoneyScenario(now: string) returns (r: PurchaseResult, stock: int, saleCount: int)
    ensures r == InsufficientFunds(150, 100)
    ensures stock == 5 && saleCount == 0
  {
    var store := new Store.Empty();
    store.Seed();
    r := store.Purchase(1, 100, now);
    stock := store.items[0].stock;
    saleCount := |store.sales|;
  }
}
