/**
 * Holdings tables as `compare_holdings` sees them after `read_csv`: one row
 * per position, with an optional `ETF` column naming the fund.
 */
module Holdings {

  /** The fund assumed for every row of a table without an `ETF` column. */
  const DefaultFund: string := "00981A"

  /** One position. `fund` is the `ETF` cell and is only meaningful when the table has that column. */
  datatype Row = Row(
    fund: string,
    stockId: string,
    stockName: string,
    shares: real,
    weight: real,
    amount: real)

  datatype Table = Table(hasFundColumn: bool, rows: seq<Row>)

  /** The fund a row belongs to: its `ETF` cell, or the default fund when the column is absent. */
  function FundOf(t: Table, r: Row): string
  {
    if t.hasFundColumn then r.fund else DefaultFund
  }

  /** Adds the `ETF` column filled with the default fund when it is missing; all other cells are kept. */
  function WithFundColumn(t: Table): (r: Table)
    ensures r.hasFundColumn
    ensures |r.rows| == |t.rows|
    ensures forall i :: 0 <= i < |t.rows| ==> r.rows[i].fund == FundOf(t, t.rows[i])
    ensures forall i :: 0 <= i < |t.rows| ==> r.rows[i].(fund := t.rows[i].fund) == t.rows[i]
  {
    if t.hasFundColumn then t
    else Table(true, seq(|t.rows|, i requires 0 <= i < |t.rows| => t.rows[i].(fund := DefaultFund)))
  }

  /** The stock ids of some rows. */
  function Ids(rows: seq<Row>): set<string>
  {
    set r | r in rows :: r.stockId
  }

  /** No stock id occurs twice. */
  predicate UniqueIds(rows: seq<Row>)
  {
    forall i, j :: 0 <= i < j < |rows| ==> rows[i].stockId != rows[j].stockId
  }

  /** Within each fund no stock id occurs twice (rows already carry their fund). */
  predicate KeyedPerFund(rows: seq<Row>)
  {
    forall i, j :: 0 <= i < j < |rows| && rows[i].fund == rows[j].fund ==> rows[i].stockId != rows[j].stockId
  }

  /** A table `compare_holdings` can index by `stock_id` within each fund. */
  predicate WellKeyed(t: Table)
  {
    KeyedPerFund(WithFundColumn(t).rows)
  }

  /**
   * A table `compare_holdings` can index by `stock_id` within each of the
   * given funds; its other funds are never indexed and may repeat ids.
   */
  predicate KeyedFor(t: Table, funds: seq<string>)
  {
    forall f :: f in funds ==> UniqueIds(FundRows(WithFundColumn(t).rows, f))
  }

  /** `df[df['ETF'] == fund]`: the rows of one fund, in table order. */
  function FundRows(rows: seq<Row>, fund: string): (r: seq<Row>)
    ensures forall x :: x in r <==> x in rows && x.fund == fund
    ensures |r| <= |rows|
  {
    if |rows| == 0 then []
    else if rows[0].fund == fund then [rows[0]] + FundRows(rows[1..], fund)
    else FundRows(rows[1..], fund)
  }

  lemma {:induction false} FundRowsUnique(rows: seq<Row>, fund: string)
    requires KeyedPerFund(rows)
    ensures UniqueIds(FundRows(rows, fund))
  {
    if |rows| > 0 {
      var rest := FundRows(rows[1..], fund);
      assert KeyedPerFund(rows[1..]) by {
        forall i, j | 0 <= i < j < |rows[1..]| && rows[1..][i].fund == rows[1..][j].fund
          ensures rows[1..][i].stockId != rows[1..][j].stockId
        {
          assert rows[1..][i] == rows[i + 1] && rows[1..][j] == rows[j + 1];
        }
      }
      FundRowsUnique(rows[1..], fund);
      if rows[0].fund == fund {
        forall k | 0 <= k < |rest| ensures rows[0].stockId != rest[k].stockId {
          assert rest[k] in rows[1..];
          var j :| 0 <= j < |rows[1..]| && rows[1..][j] == rest[k];
          assert rows[j + 1] == rest[k];
        }
        var r := [rows[0]] + rest;
        forall i, j | 0 <= i < j < |r| ensures r[i].stockId != r[j].stockId {
          if i > 0 {
            assert r[i] == rest[i - 1] && r[j] == rest[j - 1];
          } else {
            assert r[j] == rest[j - 1];
          }
        }
      }
    }
  }

  /** A table keyed within every fund is keyed within any list of funds. */
  lemma WellKeyedIsKeyedFor(t: Table, funds: seq<string>)
    requires WellKeyed(t)
    ensures KeyedFor(t, funds)
  {
    forall f | f in funds ensures UniqueIds(FundRows(WithFundColumn(t).rows, f)) {
      FundRowsUnique(WithFundColumn(t).rows, f);
    }
  }

  /** The stock ids of some rows, in row order (the index `set_index('stock_id')` builds). */
  function StockIds(rows: seq<Row>): (r: seq<string>)
    ensures |r| == |rows|
    ensures forall i :: 0 <= i < |rows| ==> r[i] == rows[i].stockId
    ensures forall k :: k in r <==> k in Ids(rows)
  {
    var r := seq(|rows|, i requires 0 <= i < |rows| => rows[i].stockId);
    assert forall k :: k in r ==> k in Ids(rows) by {
      forall k | k in r ensures k in Ids(rows) {
        var i :| 0 <= i < |r| && r[i] == k;
        assert rows[i] in rows;
      }
    }
    assert forall k :: k in Ids(rows) ==> k in r by {
      forall k | k in Ids(rows) ensures k in r {
        var x :| x in rows && x.stockId == k;
        var i :| 0 <= i < |rows| && rows[i] == x;
        assert r[i] == k;
      }
    }
    r
  }

  /** `set_index('stock_id')` on rows with unique ids: each id maps to its row. */
  function Index(rows: seq<Row>): (m: map<string, Row>)
    requires UniqueIds(rows)
    ensures m.Keys == Ids(rows)
    ensures forall i :: 0 <= i < |rows| ==> rows[i].stockId in m && m[rows[i].stockId] == rows[i]
    ensures forall k :: k in m ==> m[k] in rows && m[k].stockId == k
  {
    if |rows| == 0 then map[]
    else
      var init := rows[..|rows| - 1];
      var last := rows[|rows| - 1];
      assert rows == init + [last];
      assert UniqueIds(init) by {
        forall i, j | 0 <= i < j < |init| ensures init[i].stockId != init[j].stockId {
          assert init[i] == rows[i] && init[j] == rows[j];
        }
      }
      Index(init)[last.stockId := last]
  }

  /** The position where `x` first occurs in `s`. */
  function FirstIndex(s: seq<string>, x: string): (r: nat)
    requires x in s
    ensures r < |s| && s[r] == x
    ensures forall k :: 0 <= k < r ==> s[k] != x
  {
    if s[0] == x then 0
    else
      assert x in s[1..];
      1 + FirstIndex(s[1..], x)
  }

  /** An element of a prefix first occurs in the whole sequence where it first occurs in the prefix. */
  lemma FirstIndexInPrefix(s: seq<string>, n: nat, x: string)
    requires n <= |s| && x in s[..n]
    ensures FirstIndex(s, x) == FirstIndex(s[..n], x)
  {
    var a, b := FirstIndex(s[..n], x), FirstIndex(s, x);
    assert s[a] == x;
    forall k | 0 <= k < a ensures s[k] != x {
      assert s[k] == s[..n][k];
    }
  }

  /**
   * `Series.unique()`: every value of `s` exactly once, listed in the order
   * of the values' first occurrences.
   */
  function Unique(s: seq<string>): (r: seq<string>)
    ensures forall x :: x in r <==> x in s
    ensures forall i, j :: 0 <= i < j < |r| ==> r[i] != r[j]
    ensures forall i, j :: 0 <= i < j < |r| ==> FirstIndex(s, r[i]) < FirstIndex(s, r[j])
  {
    if |s| == 0 then []
    else
      var n := |s| - 1;
      var init := Unique(s[..n]);
      var last := s[n];
      assert s == s[..n] + [last];
      assert forall i :: 0 <= i < |init| ==> FirstIndex(s, init[i]) == FirstIndex(s[..n], init[i]) by {
        forall i | 0 <= i < |init| ensures FirstIndex(s, init[i]) == FirstIndex(s[..n], init[i]) {
          FirstIndexInPrefix(s, n, init[i]);
        }
      }
      if last in init then init
      else
        assert FirstIndex(s, last) == n by {
          forall k | 0 <= k < n ensures s[k] != last {
            assert s[k] == s[..n][k] && s[..n][k] in s[..n];
          }
        }
        init + [last]
  }

  /** The fund column of some rows. */
  function FundColumn(rows: seq<Row>): (r: seq<string>)
    ensures |r| == |rows|
    ensures forall i :: 0 <= i < |rows| ==> r[i] == rows[i].fund
  {
    seq(|rows|, i requires 0 <= i < |rows| => rows[i].fund)
  }

  /** The fund codes of a table's rows, as `df['ETF'].unique()` lists them. */
  function FundCodes(rows: seq<Row>): (r: seq<string>)
    ensures forall f :: f in r <==> exists i :: 0 <= i < |rows| && rows[i].fund == f
    ensures forall i, j :: 0 <= i < j < |r| ==> r[i] != r[j]
  {
    var funds := FundColumn(rows);
    assert forall f :: f in funds <==> exists i :: 0 <= i < |rows| && rows[i].fund == f by {
      forall f ensures f in funds <==> exists i :: 0 <= i < |rows| && rows[i].fund == f {
        if f in funds {
          var i :| 0 <= i < |funds| && funds[i] == f;
          assert rows[i].fund == f;
        } else {
          forall i | 0 <= i < |rows| ensures rows[i].fund != f {
            assert funds[i] == rows[i].fund;
          }
        }
      }
    }
    Unique(funds)
  }

  /** `unique()` keeps the order in which the funds first appear in the `ETF` column. */
  lemma FundCodesInFirstAppearanceOrder(rows: seq<Row>)
    ensures forall f :: f in FundCodes(rows) <==> f in FundColumn(rows)
    ensures forall i, j :: 0 <= i < j < |FundCodes(rows)| ==>
      FirstIndex(FundColumn(rows), FundCodes(rows)[i]) < FirstIndex(FundColumn(rows), FundCodes(rows)[j])
  {
    assert FundCodes(rows) == Unique(FundColumn(rows));
  }

  /** The table holds stock `k` in fund `f`. */
  ghost predicate Holds(t: Table, f: string, k: string)
  {
    exists i :: 0 <= i < |t.rows| && FundOf(t, t.rows[i]) == f && t.rows[i].stockId == k
  }

  /** The index of one fund's rows knows exactly the stocks the table holds in that fund. */
  lemma FundRowsHoldings(t: Table, f: string, k: string)
    ensures k in Ids(FundRows(WithFundColumn(t).rows, f)) <==> Holds(t, f, k)
  { }

  /** `unique()` of a column holding one value throughout lists that value once. */
  lemma {:induction false} UniqueOfConstant(s: seq<string>, x: string)
    requires |s| > 0
    requires forall i :: 0 <= i < |s| ==> s[i] == x
    ensures Unique(s) == [x]
  {
    if |s| > 1 {
      UniqueOfConstant(s[..|s| - 1], x);
    }
  }

  /** Without an `ETF` column every row is in the default fund, so `unique()` lists that fund alone. */
  lemma DefaultFundOnly(t: Table)
    requires !t.hasFundColumn
    ensures |t.rows| > 0 ==> FundCodes(WithFundColumn(t).rows) == [DefaultFund]
    ensures |t.rows| == 0 ==> FundCodes(WithFundColumn(t).rows) == []
  {
    var rows := WithFundColumn(t).rows;
    var funds := FundColumn(rows);
    assert FundCodes(rows) == Unique(funds);
    if |rows| > 0 {
      UniqueOfConstant(funds, DefaultFund);
    }
  }

}
