/**
 * `compare_holdings`: for each fund of the current table, the positions
 * entered, exited and changed since the previous table.
 */
module Diff {
  import opened Holdings
  import Sorting

  /** A weight move must exceed this many percentage points to count. */
  const WeightEpsilon: real := 0.001

  /** One row of the `changed` table, indexed by `stockId`. */
  datatype Change = Change(
    stockId: string,
    stockName: string,
    weightPrev: real,
    weightCurr: real,
    weightDiff: real,
    sharesPrev: real,
    sharesCurr: real,
    sharesDiff: real)

  /** The `new`, `exit` and `changed` tables of one fund; the first two are indexed by stock id. */
  datatype FundDelta = FundDelta(entered: map<string, Row>, exited: map<string, Row>, changed: seq<Change>)

  /** The returned dict: its keys in insertion order, and the entry of each. */
  datatype Changes = Changes(funds: seq<string>, deltas: map<string, FundDelta>)

  function Abs(x: real): real
  {
    if x < 0.0 then -x else x
  }

  /** The changed mask: the weight moved by more than the tolerance, or the share count moved at all. */
  function Moved(curr: Row, prev: Row): (b: bool)
    ensures curr.shares != prev.shares ==> b
    ensures curr.shares == prev.shares ==>
      (b <==> curr.weight - prev.weight > WeightEpsilon || prev.weight - curr.weight > WeightEpsilon)
  {
    Abs(curr.weight - prev.weight) > WeightEpsilon || Abs(curr.shares - prev.shares) > 0.0
  }

  /** The order of `sort_values(by='weight_diff', ascending=False)`. */
  predicate WeightDiffDesc(a: Change, b: Change)
  {
    a.weightDiff >= b.weightDiff
  }

  predicate UniqueChangeIds(cs: seq<Change>)
  {
    forall i, j :: 0 <= i < j < |cs| ==> cs[i].stockId != cs[j].stockId
  }

  function ChangeIds(cs: seq<Change>): set<string>
  {
    set c | c in cs :: c.stockId
  }

  /** The stock `k` is held in both tables and the mask selects it. */
  predicate Selected(k: string, curr: map<string, Row>, prev: map<string, Row>)
  {
    k in curr && k in prev && Moved(curr[k], prev[k])
  }

  /** The changed-table row of a stock `k` held in both tables. */
  function ChangeOf(k: string, curr: Row, prev: Row): (r: Change)
    ensures r.stockId == k && r.stockName == curr.stockName
    ensures r.weightPrev == prev.weight && r.weightCurr == curr.weight
    ensures r.sharesPrev == prev.shares && r.sharesCurr == curr.shares
    ensures r.weightPrev + r.weightDiff == r.weightCurr && r.sharesPrev + r.sharesDiff == r.sharesCurr
    ensures Moved(curr, prev) <==> Abs(r.weightDiff) > WeightEpsilon || r.sharesDiff != 0.0
  {
    Change(k, curr.stockName,
           prev.weight, curr.weight, curr.weight - prev.weight,
           prev.shares, curr.shares, curr.shares - prev.shares)
  }

  /**
   * The masked common positions, visiting the current fund's stock ids in
   * order (before sorting).
   */
  function MovedPositions(ids: seq<string>, curr: map<string, Row>, prev: map<string, Row>): (r: seq<Change>)
    ensures forall c :: c in r ==>
      c.stockId in ids && Selected(c.stockId, curr, prev) && c == ChangeOf(c.stockId, curr[c.stockId], prev[c.stockId])
    ensures forall k :: k in ids && Selected(k, curr, prev) ==> ChangeOf(k, curr[k], prev[k]) in r
  {
    if |ids| == 0 then []
    else
      assert ids == [ids[0]] + ids[1..];
      var rest := MovedPositions(ids[1..], curr, prev);
      var k := ids[0];
      if Selected(k, curr, prev) then [ChangeOf(k, curr[k], prev[k])] + rest
      else rest
  }

  /** Each stock id visited yields at most one changed row. */
  lemma {:induction false} MovedPositionsUnique(ids: seq<string>, curr: map<string, Row>, prev: map<string, Row>)
    requires Sorting.Distinct(ids)
    ensures UniqueChangeIds(MovedPositions(ids, curr, prev))
  {
    if |ids| > 0 {
      var tail := ids[1..];
      assert Sorting.Distinct(tail) by {
        forall i, j | 0 <= i < j < |tail| ensures tail[i] != tail[j] {
          assert tail[i] == ids[i + 1] && tail[j] == ids[j + 1];
        }
      }
      assert ids[0] !in tail by {
        forall i | 0 <= i < |tail| ensures tail[i] != ids[0] {
          assert tail[i] == ids[i + 1];
        }
      }
      MovedPositionsUnique(tail, curr, prev);
      var rest := MovedPositions(tail, curr, prev);
      var k := ids[0];
      if Selected(k, curr, prev) {
        var r := [ChangeOf(k, curr[k], prev[k])] + rest;
        forall i, j | 0 <= i < j < |r| ensures r[i].stockId != r[j].stockId {
          assert r[j] == rest[j - 1] && r[j] in rest;
          if i > 0 {
            assert r[i] == rest[i - 1];
          }
        }
      }
    }
  }

  /** Visiting only stocks the mask does not select yields no changed row. */
  lemma {:induction false} NothingSelectedNothingChanged(ids: seq<string>, curr: map<string, Row>, prev: map<string, Row>)
    requires forall k :: k in ids ==> !Selected(k, curr, prev)
    ensures MovedPositions(ids, curr, prev) == []
  {
    if |ids| > 0 {
      assert ids[0] in ids;
      assert forall k :: k in ids[1..] ==> k in ids;
      NothingSelectedNothingChanged(ids[1..], curr, prev);
    }
  }

  /** `a.loc[a.index.difference(b.index)]`: the rows of `a` whose stock id `b` lacks. */
  function RowsNotIn(a: map<string, Row>, b: map<string, Row>): (r: map<string, Row>)
    ensures r.Keys == a.Keys - b.Keys
    ensures forall k :: k in r ==> r[k] == a[k]
  {
    map k | k in a.Keys - b.Keys :: a[k]
  }

  lemma WeightDiffDescIsTotalPreorder()
    ensures Sorting.TotalPreorder(WeightDiffDesc)
  { }

  /** One fund's delta, from its current and previous rows (`set_index('stock_id')` on each). */
  function DiffFund(curr: seq<Row>, prev: seq<Row>): (d: FundDelta)
    requires UniqueIds(curr) && UniqueIds(prev)
    ensures d.entered.Keys == Ids(curr) - Ids(prev)
    ensures d.exited.Keys == Ids(prev) - Ids(curr)
    ensures forall k :: k in d.entered ==> d.entered[k] in curr && d.entered[k].stockId == k
    ensures forall k :: k in d.exited ==> d.exited[k] in prev && d.exited[k].stockId == k
    ensures Sorting.SortedBy(d.changed, WeightDiffDesc)
  {
    var ci := Index(curr);
    var pi := Index(prev);
    WeightDiffDescIsTotalPreorder();
    var changed := Sorting.InsertionSort(MovedPositions(StockIds(curr), ci, pi), WeightDiffDesc);
    FundDelta(RowsNotIn(ci, pi), RowsNotIn(pi, ci), changed)
  }

  /**
   * `new` and `exit` never share a stock, and together with the common
   * stocks they account for every stock of either table, each exactly once.
   */
  lemma EnteredExitedCommonPartition(curr: seq<Row>, prev: seq<Row>)
    requires UniqueIds(curr) && UniqueIds(prev)
    ensures DiffFund(curr, prev).entered.Keys !! DiffFund(curr, prev).exited.Keys
    ensures DiffFund(curr, prev).entered.Keys !! Ids(curr) * Ids(prev)
    ensures DiffFund(curr, prev).exited.Keys !! Ids(curr) * Ids(prev)
    ensures DiffFund(curr, prev).entered.Keys + DiffFund(curr, prev).exited.Keys + Ids(curr) * Ids(prev)
         == Ids(curr) + Ids(prev)
  {
    DifferencesAndIntersectionPartition(Ids(curr), Ids(prev));
  }

  lemma DifferencesAndIntersectionPartition<T>(a: set<T>, b: set<T>)
    ensures (a - b) !! (b - a) && (a - b) !! a * b && (b - a) !! a * b
    ensures (a - b) + (b - a) + a * b == a + b
  { }

  /**
   * A common stock is in the changed table exactly when the mask selects it:
   * its weight moved by more than the tolerance or its share count moved.
   */
  lemma ChangedIffMoved(curr: seq<Row>, prev: seq<Row>, k: string)
    requires UniqueIds(curr) && UniqueIds(prev)
    ensures k in ChangeIds(DiffFund(curr, prev).changed)
      <==> k in Ids(curr) && k in Ids(prev) && Moved(Index(curr)[k], Index(prev)[k])
  {
    var ci, pi := Index(curr), Index(prev);
    var moved := MovedPositions(StockIds(curr), ci, pi);
    var changed := DiffFund(curr, prev).changed;
    assert multiset(changed) == multiset(moved);
    if k in ChangeIds(changed) {
      var c :| c in changed && c.stockId == k;
      assert c in multiset(moved);
    }
    if k in Ids(curr) && k in Ids(prev) && Moved(ci[k], pi[k]) {
      var c := ChangeOf(k, ci[k], pi[k]);
      assert c in multiset(moved);
      assert c in changed;
    }
  }

  /**
   * Every changed row describes one common stock: its name and current
   * figures come from the current table, its previous figures from the
   * previous table, and its diffs are current minus previous. No stock has
   * two changed rows.
   */
  lemma ChangedRowsDescribeCommonStocks(curr: seq<Row>, prev: seq<Row>)
    requires UniqueIds(curr) && UniqueIds(prev)
    ensures forall c :: c in DiffFund(curr, prev).changed ==>
      && c.stockId in Ids(curr) && c.stockId in Ids(prev)
      && c.stockName == Index(curr)[c.stockId].stockName
      && c.weightPrev == Index(prev)[c.stockId].weight
      && c.weightCurr == Index(curr)[c.stockId].weight
      && c.weightDiff == c.weightCurr - c.weightPrev
      && c.sharesPrev == Index(prev)[c.stockId].shares
      && c.sharesCurr == Index(curr)[c.stockId].shares
      && c.sharesDiff == c.sharesCurr - c.sharesPrev
    ensures UniqueChangeIds(DiffFund(curr, prev).changed)
  {
    var ci, pi := Index(curr), Index(prev);
    var ids := StockIds(curr);
    var moved := MovedPositions(ids, ci, pi);
    var changed := DiffFund(curr, prev).changed;
    assert multiset(changed) == multiset(moved);
    forall c | c in changed ensures c in moved {
      assert c in multiset(moved);
    }
    assert Sorting.Distinct(ids) by {
      forall i, j | 0 <= i < j < |ids| ensures ids[i] != ids[j] {
        assert ids[i] == curr[i].stockId && ids[j] == curr[j].stockId;
      }
    }
    MovedPositionsUnique(ids, ci, pi);
    assert Sorting.Distinct(moved) by {
      forall i, j | 0 <= i < j < |moved| ensures moved[i] != moved[j] {
        assert moved[i].stockId != moved[j].stockId;
      }
    }
    Sorting.PermutationKeepsDistinct(moved, changed);
    forall i, j | 0 <= i < j < |changed| ensures changed[i].stockId != changed[j].stockId {
      assert changed[i] in moved && changed[j] in moved;
      assert changed[i] != changed[j];
    }
  }

  /** Diffing a fund's rows against themselves reports nothing. */
  lemma FundSelfDiffIsEmpty(rows: seq<Row>)
    requires UniqueIds(rows)
    ensures DiffFund(rows, rows) == FundDelta(map[], map[], [])
  {
    var ix := Index(rows);
    var ids := StockIds(rows);
    forall k | k in ids ensures !Selected(k, ix, ix) {
    }
    NothingSelectedNothingChanged(ids, ix, ix);
    var d := DiffFund(rows, rows);
    assert d.entered.Keys == {} && d.exited.Keys == {};
    assert |d.changed| == 0;
  }

  /**
   * What `compare_holdings` needs of its inputs: the current table is keyed
   * within each of its funds, and the previous table within each of the
   * current table's funds.
   */
  predicate Comparable(curr: Table, prev: Table)
  {
    WellKeyed(curr) && KeyedFor(prev, FundCodes(WithFundColumn(curr).rows))
  }

  /** Tables keyed within every fund can always be compared. */
  lemma WellKeyedTablesAreComparable(curr: Table, prev: Table)
    requires WellKeyed(curr) && WellKeyed(prev)
    ensures Comparable(curr, prev)
  {
    WellKeyedIsKeyedFor(prev, FundCodes(WithFundColumn(curr).rows));
  }

  /**
   * A repeated id in a fund the current table does not list is harmless: that
   * fund of the previous table is never indexed.
   */
  lemma DuplicatesOutsideCurrentFundsAreHarmless()
    ensures
      var curr := Table(true, [Row("A", "2330", "TSMC", 1000.0, 5.0, 1.0)]);
      var prev := Table(true, [Row("B", "2317", "Foxconn", 10.0, 1.0, 1.0), Row("B", "2317", "Foxconn", 10.0, 1.0, 1.0)]);
      Comparable(curr, prev) && !WellKeyed(prev)
  {
    var curr := Table(true, [Row("A", "2330", "TSMC", 1000.0, 5.0, 1.0)]);
    var prev := Table(true, [Row("B", "2317", "Foxconn", 10.0, 1.0, 1.0), Row("B", "2317", "Foxconn", 10.0, 1.0, 1.0)]);
    assert WithFundColumn(prev).rows[0].stockId == WithFundColumn(prev).rows[1].stockId;
    forall f | f in FundCodes(WithFundColumn(curr).rows)
      ensures UniqueIds(FundRows(WithFundColumn(prev).rows, f))
    {
      assert f == "A";
      assert forall x :: x in FundRows(WithFundColumn(prev).rows, f) ==> x.fund == "B";
      assert FundRows(WithFundColumn(prev).rows, f) == [];
    }
  }

  /** The funds `unique()` lists for a table are exactly those of its rows, the default fund standing in for a missing column. */
  lemma FundCodesOfTable(t: Table)
    ensures forall f :: f in FundCodes(WithFundColumn(t).rows) <==> exists i :: 0 <= i < |t.rows| && FundOf(t, t.rows[i]) == f
  {
    var rows := WithFundColumn(t).rows;
    forall f ensures f in FundCodes(rows) <==> exists i :: 0 <= i < |t.rows| && FundOf(t, t.rows[i]) == f {
      if f in FundCodes(rows) {
        var i :| 0 <= i < |rows| && rows[i].fund == f;
        assert FundOf(t, t.rows[i]) == f;
      }
    }
  }

  /**
   * `compare_holdings`: one entry per distinct fund of the current table, in
   * order of first appearance, each the diff of that fund's rows in the two
   * tables. A table without an `ETF` column counts as the default fund.
   */
  function CompareHoldings(curr: Table, prev: Table): (r: Changes)
    requires Comparable(curr, prev)
    ensures Sorting.Distinct(r.funds)
    ensures forall f :: f in r.funds <==> f in r.deltas
    ensures forall f :: f in r.deltas <==> exists i :: 0 <= i < |curr.rows| && FundOf(curr, curr.rows[i]) == f
    ensures forall f :: f in r.deltas ==>
      && UniqueIds(FundRows(WithFundColumn(curr).rows, f))
      && UniqueIds(FundRows(WithFundColumn(prev).rows, f))
      && r.deltas[f] == DiffFund(FundRows(WithFundColumn(curr).rows, f), FundRows(WithFundColumn(prev).rows, f))
  {
    var c := WithFundColumn(curr).rows;
    var p := WithFundColumn(prev).rows;
    var funds := FundCodes(c);
    FundCodesOfTable(curr);
    WellKeyedIsKeyedFor(curr, funds);
    Changes(funds, map f | f in funds :: DiffFund(FundRows(c, f), FundRows(p, f)))
  }

  /**
   * The funds are listed in the order in which they first appear in the
   * current table's fund column.
   */
  lemma FundsInFirstAppearanceOrder(curr: Table, prev: Table)
    requires Comparable(curr, prev)
    ensures forall f :: f in CompareHoldings(curr, prev).funds <==> f in FundColumn(WithFundColumn(curr).rows)
    ensures forall i, j :: 0 <= i < j < |CompareHoldings(curr, prev).funds| ==>
      FirstIndex(FundColumn(WithFundColumn(curr).rows), CompareHoldings(curr, prev).funds[i])
        < FirstIndex(FundColumn(WithFundColumn(curr).rows), CompareHoldings(curr, prev).funds[j])
  {
    assert CompareHoldings(curr, prev).funds == FundCodes(WithFundColumn(curr).rows);
    FundCodesInFirstAppearanceOrder(WithFundColumn(curr).rows);
  }

  /**
   * Per fund, `new` holds the stocks the current table holds in that fund and
   * the previous one does not, `exit` the reverse, each with the row of the
   * table that holds it.
   */
  lemma EnteredAndExitedByHoldings(curr: Table, prev: Table, f: string, k: string)
    requires Comparable(curr, prev)
    requires f in CompareHoldings(curr, prev).deltas
    ensures k in CompareHoldings(curr, prev).deltas[f].entered <==> Holds(curr, f, k) && !Holds(prev, f, k)
    ensures k in CompareHoldings(curr, prev).deltas[f].exited <==> Holds(prev, f, k) && !Holds(curr, f, k)
  {
    FundRowsHoldings(curr, f, k);
    FundRowsHoldings(prev, f, k);
  }

  /** Comparing a table with itself reports no entered, exited or changed position for any fund. */
  lemma SelfComparisonIsEmpty(t: Table)
    requires Comparable(t, t)
    ensures forall f :: f in CompareHoldings(t, t).deltas ==> CompareHoldings(t, t).deltas[f] == FundDelta(map[], map[], [])
  {
    var r := CompareHoldings(t, t);
    forall f | f in r.deltas ensures r.deltas[f] == FundDelta(map[], map[], []) {
      FundSelfDiffIsEmpty(FundRows(WithFundColumn(t).rows, f));
    }
  }

  /**
   * A current table without an `ETF` column yields a single entry, for the
   * default fund, or none when it has no rows.
   */
  lemma NoFundColumnMeansDefaultFund(curr: Table, prev: Table)
    requires Comparable(curr, prev)
    requires !curr.hasFundColumn
    ensures |curr.rows| > 0 ==> CompareHoldings(curr, prev).funds == [DefaultFund]
    ensures |curr.rows| == 0 ==> CompareHoldings(curr, prev).funds == []
  {
    assert CompareHoldings(curr, prev).funds == FundCodes(WithFundColumn(curr).rows);
    DefaultFundOnly(curr);
  }

  /**
   * The mask's boundary: any share movement counts whatever the weight did;
   * with equal shares, a weight move of exactly the tolerance does not count
   * and anything beyond it, either way, does.
   */
  lemma MaskBoundary(curr: Row, prev: Row)
    ensures curr.shares != prev.shares ==> Moved(curr, prev)
    ensures curr.shares == prev.shares ==>
      (Moved(curr, prev) <==> curr.weight > prev.weight + WeightEpsilon || curr.weight < prev.weight - WeightEpsilon)
    ensures curr.shares == prev.shares && curr.weight == prev.weight + 0.001 ==> !Moved(curr, prev)
    ensures curr.shares == prev.shares && curr.weight == prev.weight - 0.0011 ==> Moved(curr, prev)
  { }

  /**
   * A worked case: the only stock keeps its weight and grows from 1000 to
   * 1200 shares, so it is reported as changed with a share diff of 200 and a
   * weight diff of 0, and nothing enters or exits.
   */
  lemma ShareIncreaseExample()
    ensures
      var prev := [Row(DefaultFund, "2330", "TSMC", 1000.0, 5.0, 0.0)];
      var curr := [Row(DefaultFund, "2330", "TSMC", 1200.0, 5.0, 0.0)];
      DiffFund(curr, prev) == FundDelta(map[], map[], [Change("2330", "TSMC", 5.0, 5.0, 0.0, 1000.0, 1200.0, 200.0)])
  { }

}
