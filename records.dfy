/**
 * The two tables of the vending machine's store, `items` and `sales`, and the
 * row lookup `SELECT * FROM items WHERE id = ?`.
 *
 * A table is a sequence of rows in storage (insertion) order.  The id counters
 * stand for SQLite's AUTOINCREMENT sequence: each insert takes the next value.
 */
module Records {

  datatype Option<T> = None | Some(value: T)

  /** One row of `items(id, name, price, stock, image)`. */
  datatype Item = Item(id: int, name: string, price: int, stock: int, image: string)

  /** One row of `sales(id, item_id, sold_at)`; `soldAt` is the locale-formatted time text. */
  datatype Sale = Sale(id: int, itemId: int, soldAt: string)

  /** The whole store: both tables and the next id each AUTOINCREMENT column hands out. */
  datatype Db = Db(items: seq<Item>, sales: seq<Sale>, nextItemId: int, nextSaleId: int)

  /** The store as created on first start: both tables empty, ids start at 1. */
  const EmptyDb: Db := Db([], [], 1, 1)

  /** Some row of `items` has this id. */
  ghost predicate HasId(items: seq<Item>, id: int) {
    exists j :: 0 <= j < |items| && items[j].id == id
  }

  /** `id INTEGER PRIMARY KEY`: no two item rows share an id. */
  ghost predicate UniqueItemIds(items: seq<Item>) {
    forall i, j :: 0 <= i < j < |items| ==> items[i].id != items[j].id
  }

  /** `id INTEGER PRIMARY KEY` on `sales`. */
  ghost predicate UniqueSaleIds(sales: seq<Sale>) {
    forall i, j :: 0 <= i < j < |sales| ==> sales[i].id != sales[j].id
  }

  /**
   * What SQLite itself guarantees of the two tables: primary keys are unique and
   * every id already used lies below the next one AUTOINCREMENT hands out.
   */
  ghost predicate WellFormed(db: Db) {
    && UniqueItemIds(db.items)
    && (forall i :: 0 <= i < |db.items| ==> db.items[i].id < db.nextItemId)
    && UniqueSaleIds(db.sales)
    && (forall i :: 0 <= i < |db.sales| ==> db.sales[i].id < db.nextSaleId)
  }

  /** No item has negative stock. */
  ghost predicate StocksNonNegative(items: seq<Item>) {
    forall i :: 0 <= i < |items| ==> items[i].stock >= 0
  }

  /** Every sale's `item_id` names an existing item (the schema has no foreign key to enforce it). */
  ghost predicate SalesReferenceItems(items: seq<Item>, sales: seq<Sale>) {
    forall i :: 0 <= i < |sales| ==> HasId(items, sales[i].itemId)
  }

  /**
   * What every sequential run from the empty store keeps: the table guarantees,
   * non-negative stock, and no dangling sale.
   */
  ghost predicate Consistent(db: Db) {
    WellFormed(db) && StocksNonNegative(db.items) && SalesReferenceItems(db.items, db.sales)
  }

  /**
   * `db.get('SELECT * FROM items WHERE id = ?')`: the first row with that id,
   * or nothing when no row matches.
   */
  function Lookup(items: seq<Item>, id: int): (r: Option<Item>)
    ensures r.Some? <==> HasId(items, id)
    ensures r.Some? ==> r.value.id == id
    ensures r.Some? ==> exists j :: 0 <= j < |items| && items[j] == r.value
                                    && forall k :: 0 <= k < j ==> items[k].id != id
  {
    if items == [] then None
    else if items[0].id == id then Some(items[0])
    else
      var r := Lookup(items[1..], id);
      assert HasId(items, id) ==> HasId(items[1..], id) by {
        if HasId(items, id) {
          var j :| 0 <= j < |items| && items[j].id == id;
          assert j > 0 && items[1..][j - 1].id == id;
        }
      }
      assert r.Some? ==> HasId(items, id) by {
        if r.Some? {
          var j :| 0 <= j < |items[1..]| && items[1..][j].id == id;
          assert items[j + 1].id == id;
        }
      }
      assert r.Some? ==> exists j :: 0 <= j < |items| && items[j] == r.value
                                     && forall k :: 0 <= k < j ==> items[k].id != id by {
        if r.Some? {
          var j :| 0 <= j < |items[1..]| && items[1..][j] == r.value
                   && forall k :: 0 <= k < j ==> items[1..][k].id != id;
          assert items[j + 1] == r.value;
          forall k | 0 <= k < j + 1 ensures items[k].id != id {
            if k > 0 { assert items[k] == items[1..][k - 1]; }
          }
        }
      }
      r
  }

  /** With unique ids, the lookup of a row's id finds exactly that row. */
  lemma {:induction false} LookupFindsRow(items: seq<Item>, k: int)
    requires UniqueItemIds(items)
    requires 0 <= k < |items|
    ensures Lookup(items, items[k].id) == Some(items[k])
  {
    var r := Lookup(items, items[k].id);
    var j :| 0 <= j < |items| && items[j] == r.value
             && forall i :: 0 <= i < j ==> items[i].id != items[k].id;
    assert !(j < k);
    assert !(k < j);
  }
}
