/**
 * The sales-history query of `GET /sales`:
 *
 *   SELECT sales.sold_at, items.name, items.price
 *   FROM sales JOIN items ON sales.item_id = items.id
 *   ORDER BY sales.sold_at DESC
 *
 * Text columns compare under SQLite's default BINARY collation, which orders
 * strings code point by code point (`TextLeq`).  SQL leaves the order of rows
 * with equal `sold_at` unspecified, so the query's promise is `SortedDesc` plus
 * "a permutation of the join"; `SortBySoldAtDesc` is one order that keeps it.
 */
module History {
  import opened Records

  /** One result row: the sale's time and the item's name and price as they are NOW. */
  datatype HistoryRow = HistoryRow(soldAt: string, name: string, price: int)

  /** `a` and `b` agree before position `k`, and at `k` the character of `a` is smaller. */
  ghost predicate FirstDifferenceBelow(a: string, b: string, k: int) {
    0 <= k < |a| && k < |b| && a[..k] == b[..k] && a[k] < b[k]
  }

  /** With equal first characters, the first difference of the texts is one past that of their tails. */
  lemma ShiftedDifference(a: string, b: string, k: int)
    requires a != [] && b != [] && a[0] == b[0]
    ensures FirstDifferenceBelow(a, b, k + 1) <==> FirstDifferenceBelow(a[1..], b[1..], k)
  {
    if 0 <= k < |a[1..]| && k < |b[1..]| {
      assert a[..k + 1] == [a[0]] + a[1..][..k];
      assert b[..k + 1] == [b[0]] + b[1..][..k];
    }
  }

  /**
   * Lexicographic order on text, character by character by code point: `a` is
   * a prefix of `b`, or the first character where they differ is smaller in `a`.
   */
  function TextLeq(a: string, b: string): (r: bool)
    ensures r <==> (a <= b || exists k :: FirstDifferenceBelow(a, b, k))
  {
    if a == [] then true
    else if b == [] then false
    else if a[0] != b[0] then
      assert a[0] < b[0] ==> FirstDifferenceBelow(a, b, 0);
      assert forall k :: FirstDifferenceBelow(a, b, k) ==> k == 0 && a[0] < b[0];
      a[0] < b[0]
    else
      var r := TextLeq(a[1..], b[1..]);
      assert a <= b <==> a[1..] <= b[1..] by {
        assert a == [a[0]] + a[1..] && b == [b[0]] + b[1..];
      }
      assert (exists k :: FirstDifferenceBelow(a[1..], b[1..], k)) ==> exists k :: FirstDifferenceBelow(a, b, k) by {
        if exists k :: FirstDifferenceBelow(a[1..], b[1..], k) {
          var k :| FirstDifferenceBelow(a[1..], b[1..], k);
          ShiftedDifference(a, b, k);
        }
      }
      assert (exists k :: FirstDifferenceBelow(a, b, k)) ==> exists k :: FirstDifferenceBelow(a[1..], b[1..], k) by {
        if exists k :: FirstDifferenceBelow(a, b, k) {
          var k :| FirstDifferenceBelow(a, b, k);
          assert k != 0;
          ShiftedDifference(a, b, k - 1);
        }
      }
      r
  }

  /** The collation order is total: of any two texts, one sorts before or with the other. */
  lemma {:induction false} TextLeqTotal(a: string, b: string)
    ensures TextLeq(a, b) || TextLeq(b, a)
  {
    if a != [] && b != [] && a[0] == b[0] {
      TextLeqTotal(a[1..], b[1..]);
    }
  }

  /** The collation order is transitive. */
  lemma {:induction false} TextLeqTransitive(a: string, b: string, c: string)
    requires TextLeq(a, b) && TextLeq(b, c)
    ensures TextLeq(a, c)
  {
    if a != [] && b != [] && c != [] && a[0] == b[0] && b[0] == c[0] {
      TextLeqTransitive(a[1..], b[1..], c[1..]);
    }
  }

  /** Rows ordered by `sold_at` descending: each row's time is at least every later row's. */
  ghost predicate SortedDesc(rows: seq<HistoryRow>) {
    forall i, j :: 0 <= i < j < |rows| ==> TextLeq(rows[j].soldAt, rows[i].soldAt)
  }

  /** The row the join produces for a sale paired with a matching item. */
  function JoinedRow(s: Sale, it: Item): HistoryRow
  {
    HistoryRow(s.soldAt, it.name, it.price)
  }

  /** The rows one sale contributes to the inner join: one per item whose id equals `item_id`. */
  function MatchRows(items: seq<Item>, s: Sale): (r: seq<HistoryRow>)
    ensures |r| <= |items|
    ensures forall k :: 0 <= k < |r| ==> r[k].soldAt == s.soldAt
    ensures !HasId(items, s.itemId) ==> r == []
  {
    if items == [] then []
    else (if items[0].id == s.itemId then [JoinedRow(s, items[0])] else [])
         + MatchRows(items[1..], s)
  }

  /** The unordered inner join of `sales` with `items`: sales in storage order, each with its matches. */
  function Joined(items: seq<Item>, sales: seq<Sale>): (r: seq<HistoryRow>)
    ensures |r| <= |sales| * |items|
    ensures forall k :: 0 <= k < |r| ==> exists i :: 0 <= i < |sales| && r[k].soldAt == sales[i].soldAt
  {
    if sales == [] then []
    else
      var head := MatchRows(items, sales[0]);
      var rest := Joined(items, sales[1..]);
      assert |sales| * |items| == |items| + (|sales| - 1) * |items|;
      forall k | 0 <= k < |head + rest|
        ensures exists i :: 0 <= i < |sales| && (head + rest)[k].soldAt == sales[i].soldAt
      {
        if k < |head| {
          assert (head + rest)[k].soldAt == sales[0].soldAt;
        } else {
          var i :| 0 <= i < |sales[1..]| && rest[k - |head|].soldAt == sales[1..][i].soldAt;
          assert (head + rest)[k].soldAt == sales[i + 1].soldAt;
        }
      }
      head + rest
  }

  /** A row is in one sale's matches exactly when some item with the sale's `item_id` yields it. */
  lemma {:induction false} MatchRowsMember(items: seq<Item>, s: Sale, row: HistoryRow)
    ensures row in MatchRows(items, s) <==>
            exists j :: 0 <= j < |items| && items[j].id == s.itemId && row == JoinedRow(s, items[j])
  {
    if items != [] {
      MatchRowsMember(items[1..], s, row);
      if row in MatchRows(items[1..], s) {
        var j :| 0 <= j < |items[1..]| && items[1..][j].id == s.itemId && row == JoinedRow(s, items[1..][j]);
        assert items[j + 1] == items[1..][j];
      }
      if exists j :: 0 <= j < |items| && items[j].id == s.itemId && row == JoinedRow(s, items[j]) {
        var j :| 0 <= j < |items| && items[j].id == s.itemId && row == JoinedRow(s, items[j]);
        if j > 0 { assert items[1..][j - 1] == items[j]; }
      }
    }
  }

  /**
   * The inner join holds a row exactly when some sale and some item with equal
   * ids produce it: the item's current name and price with the sale's time.
   */
  lemma {:induction false} JoinedMember(items: seq<Item>, sales: seq<Sale>, row: HistoryRow)
    ensures row in Joined(items, sales) <==>
            exists i, j :: 0 <= i < |sales| && 0 <= j < |items| && sales[i].itemId == items[j].id
                           && row == JoinedRow(sales[i], items[j])
  {
    if sales != [] {
      JoinedMember(items, sales[1..], row);
      MatchRowsMember(items, sales[0], row);
      if row in Joined(items, sales[1..]) {
        var i, j :| 0 <= i < |sales[1..]| && 0 <= j < |items| && sales[1..][i].itemId == items[j].id
                    && row == JoinedRow(sales[1..][i], items[j]);
        assert sales[i + 1] == sales[1..][i];
      }
      if exists i, j :: 0 <= i < |sales| && 0 <= j < |items| && sales[i].itemId == items[j].id
                        && row == JoinedRow(sales[i], items[j]) {
        var i, j :| 0 <= i < |sales| && 0 <= j < |items| && sales[i].itemId == items[j].id
                    && row == JoinedRow(sales[i], items[j]);
        if i > 0 { assert sales[1..][i - 1] == sales[i]; }
      }
    }
  }

  /** With unique item ids a sale matches at most one item: the one `Lookup` finds. */
  lemma {:induction false} MatchRowsUnique(items: seq<Item>, s: Sale)
    requires UniqueItemIds(items)
    ensures MatchRows(items, s) == match Lookup(items, s.itemId)
                                   case None => []
                                   case Some(it) => [JoinedRow(s, it)]
  {
    if items != [] {
      assert UniqueItemIds(items[1..]) by {
        forall i, j | 0 <= i < j < |items[1..]| ensures items[1..][i].id != items[1..][j].id {
          assert items[1..][i] == items[i + 1] && items[1..][j] == items[j + 1];
        }
      }
      MatchRowsUnique(items[1..], s);
      if items[0].id == s.itemId {
        assert !HasId(items[1..], s.itemId) by {
          forall k | 0 <= k < |items[1..]| ensures items[1..][k].id != s.itemId {
            assert items[1..][k] == items[k + 1];
          }
        }
      }
    }
  }

  /** The sales whose `item_id` names an existing item, in storage order. */
  ghost function MatchedSales(items: seq<Item>, sales: seq<Sale>): (r: seq<Sale>)
    ensures |r| <= |sales|
  {
    if sales == [] then []
    else (if HasId(items, sales[0].itemId) then [sales[0]] else []) + MatchedSales(items, sales[1..])
  }

  /** With unique item ids, the join has exactly one row per sale that names an existing item. */
  lemma {:induction false} JoinedLength(items: seq<Item>, sales: seq<Sale>)
    requires UniqueItemIds(items)
    ensures |Joined(items, sales)| == |MatchedSales(items, sales)|
  {
    if sales != [] {
      MatchRowsUnique(items, sales[0]);
      JoinedLength(items, sales[1..]);
    }
  }

  /** When no sale dangles, every sale is matched. */
  lemma {:induction false} AllSalesMatched(items: seq<Item>, sales: seq<Sale>)
    requires SalesReferenceItems(items, sales)
    ensures MatchedSales(items, sales) == sales
  {
    if sales != [] {
      assert SalesReferenceItems(items, sales[1..]) by {
        forall i | 0 <= i < |sales[1..]| ensures HasId(items, sales[1..][i].itemId) {
          assert sales[1..][i] == sales[i + 1];
        }
      }
      AllSalesMatched(items, sales[1..]);
      assert HasId(items, sales[0].itemId);
    }
  }

  /** Dropping the first row of a latest-first list leaves it latest first. */
  lemma SortedTail(rows: seq<HistoryRow>)
    requires SortedDesc(rows) && rows != []
    ensures SortedDesc(rows[1..])
  {
    forall i, j | 0 <= i < j < |rows[1..]| ensures TextLeq(rows[1..][j].soldAt, rows[1..][i].soldAt) {
      assert rows[1..][i] == rows[i + 1] && rows[1..][j] == rows[j + 1];
    }
  }

  /**
   * When `row` is earlier than the first of a latest-first list, and `rest` is
   * the rest of the list with `row` inserted (latest first), the first row
   * followed by `rest` is latest first and holds the list's rows and `row`.
   */
  lemma InsertBehindHead(row: HistoryRow, rows: seq<HistoryRow>, rest: seq<HistoryRow>)
    requires SortedDesc(rows) && rows != []
    requires !TextLeq(rows[0].soldAt, row.soldAt)
    requires SortedDesc(rest)
    requires multiset(rest) == multiset(rows[1..]) + multiset{row}
    ensures SortedDesc([rows[0]] + rest)
    ensures multiset([rows[0]] + rest) == multiset(rows) + multiset{row}
  {
    assert rows == [rows[0]] + rows[1..];
    TextLeqTotal(rows[0].soldAt, row.soldAt);
    forall j | 0 <= j < |rest| ensures TextLeq(rest[j].soldAt, rows[0].soldAt) {
      assert rest[j] in multiset(rest);
      if rest[j] != row {
        assert rest[j] in multiset(rows[1..]);
        var k :| 0 <= k < |rows[1..]| && rows[1..][k] == rest[j];
        assert rows[k + 1] == rest[j];
      }
    }
    forall i, j | 0 <= i < j < |[rows[0]] + rest|
      ensures TextLeq(([rows[0]] + rest)[j].soldAt, ([rows[0]] + rest)[i].soldAt)
    {
      if i > 0 { assert ([rows[0]] + rest)[i] == rest[i - 1] && ([rows[0]] + rest)[j] == rest[j - 1]; }
    }
  }

  /** A latest-first list stays latest first with a row in front that is at least as late as all of it. */
  lemma PrependLatest(row: HistoryRow, rows: seq<HistoryRow>)
    requires SortedDesc(rows)
    requires rows != [] ==> TextLeq(rows[0].soldAt, row.soldAt)
    ensures SortedDesc([row] + rows)
  {
    forall i, j | 0 <= i < j < |[row] + rows|
      ensures TextLeq(([row] + rows)[j].soldAt, ([row] + rows)[i].soldAt)
    {
      if i == 0 && j > 1 { TextLeqTransitive(rows[j - 1].soldAt, rows[0].soldAt, row.soldAt); }
    }
  }

  /** Places `row` in front of the first row whose time is not later than its own. */
  function InsertDesc(row: HistoryRow, rows: seq<HistoryRow>): (r: seq<HistoryRow>)
    requires SortedDesc(rows)
    ensures SortedDesc(r)
    ensures multiset(r) == multiset(rows) + multiset{row}
  {
    if rows == [] then [row]
    else if TextLeq(rows[0].soldAt, row.soldAt) then
      PrependLatest(row, rows);
      [row] + rows
    else
      SortedTail(rows);
      var rest := InsertDesc(row, rows[1..]);
      InsertBehindHead(row, rows, rest);
      [rows[0]] + rest
  }

  /** Insertion sort on `sold_at`, latest first. */
  function SortBySoldAtDesc(rows: seq<HistoryRow>): (r: seq<HistoryRow>)
    ensures SortedDesc(r)
    ensures multiset(r) == multiset(rows)
  {
    if rows == [] then []
    else
      assert rows == [rows[0]] + rows[1..];
      InsertDesc(rows[0], SortBySoldAtDesc(rows[1..]))
  }

  /**
   * The `/sales` result: the rows of the inner join, each once, latest sale first.
   */
  function SalesHistory(items: seq<Item>, sales: seq<Sale>): (r: seq<HistoryRow>)
    ensures SortedDesc(r)
    ensures multiset(r) == multiset(Joined(items, sales))
    ensures |r| == |Joined(items, sales)|
  {
    var r := SortBySoldAtDesc(Joined(items, sales));
    assert |r| == |multiset(r)|;
    r
  }

  /**
   * Each history row is a sale's time paired with the current name and price of
   * an item whose id is the sale's `item_id`, and each such pair appears.
   */
  lemma HistoryMember(items: seq<Item>, sales: seq<Sale>, row: HistoryRow)
    ensures row in SalesHistory(items, sales) <==>
            exists i, j :: 0 <= i < |sales| && 0 <= j < |items| && sales[i].itemId == items[j].id
                           && row == JoinedRow(sales[i], items[j])
  {
    var h := SalesHistory(items, sales);
    assert row in h <==> row in multiset(h);
    assert row in Joined(items, sales) <==> row in multiset(Joined(items, sales));
    JoinedMember(items, sales, row);
  }

  /** With unique item ids the history has one row per sale that names an existing item. */
  lemma HistoryLength(items: seq<Item>, sales: seq<Sale>)
    requires UniqueItemIds(items)
    ensures |SalesHistory(items, sales)| == |MatchedSales(items, sales)|
  {
    JoinedLength(items, sales);
  }

  /**
   * In a consistent store (unique ids, no dangling sale) the history has exactly
   * one row per recorded sale.
   */
  lemma HistoryCountsEverySale(db: Db)
    requires Consistent(db)
    ensures |SalesHistory(db.items, db.sales)| == |db.sales|
  {
    HistoryLength(db.items, db.sales);
    AllSalesMatched(db.items, db.sales);
  }
}
