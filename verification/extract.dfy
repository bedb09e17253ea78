/**
 * The detail-flattening loop of the unified provider's scraper: from the
 * already-decoded asset list, one holdings row per detail of every stock
 * asset. Any Python exception inside the loop (a non-dict element, a
 * non-string code, a value `float()` rejects) is caught by the scraper,
 * which then returns `None`; the model returns `None` for it too.
 */
module Extract {
  import opened Wrappers
  import opened Holdings

  /** A decoded JSON value. */
  datatype Json =
    | JNull
    | JBool(b: bool)
    | JNum(n: real)
    | JStr(s: string)
    | JArr(elems: seq<Json>)
    | JObj(fields: map<string, Json>)

  /** The two library calls the loop depends on: `str.strip()` and `float()` of a string. */
  datatype Lib = Lib(strip: string -> string, parseFloat: string -> Option<real>)

  const StockAsset: string := "ST"

  /**
   * The elements a `for` loop visits, when each of them is then used as a
   * dict. Iterating a dict or a string yields strings, on which `.get`
   * raises, so only empty ones loop without error; other scalars are not
   * iterable. `None` stands for the exception.
   */
  function Elements(v: Json): (r: Option<seq<Json>>)
    ensures v.JArr? ==> r == Some(v.elems)
    ensures r.Some? <==> v.JArr? || v == JObj(map[]) || v == JStr("")
    ensures r.Some? && !v.JArr? ==> r.value == []
  {
    match v
    case JArr(xs) => Some(xs)
    case JObj(m) => if |m| == 0 then Some([]) else None
    case JStr(s) => if |s| == 0 then Some([]) else None
    case _ => None
  }

  /** `d.get(key, '').strip()`: a missing key reads as the empty string; a value that is not a string raises. */
  function Text(d: map<string, Json>, key: string, lib: Lib): (r: Option<string>)
    ensures r.None? <==> key in d && !d[key].JStr?
    ensures key !in d ==> r == Some(lib.strip(""))
    ensures key in d && d[key].JStr? ==> r == Some(lib.strip(d[key].s))
  {
    if key !in d then Some(lib.strip(""))
    else match d[key]
      case JStr(s) => Some(lib.strip(s))
      case _ => None
  }

  /** `float(d.get(key, 0))`: numbers and booleans convert, strings are parsed, anything else raises. */
  function Number(d: map<string, Json>, key: string, lib: Lib): (r: Option<real>)
    ensures key !in d ==> r == Some(0.0)
    ensures key in d && d[key].JNum? ==> r == Some(d[key].n)
    ensures key in d && d[key] == JBool(true) ==> r == Some(1.0)
    ensures key in d && d[key] == JBool(false) ==> r == Some(0.0)
    ensures key in d && d[key].JStr? ==> r == lib.parseFloat(d[key].s)
    ensures key in d && (d[key].JNull? || d[key].JArr? || d[key].JObj?) ==> r.None?
  {
    if key !in d then Some(0.0)
    else match d[key]
      case JNum(n) => Some(n)
      case JBool(b) => Some(if b then 1.0 else 0.0)
      case JStr(s) => lib.parseFloat(s)
      case _ => None
  }

  /** The row built from one detail; the table has no `ETF` column yet, so `fund` is left empty. */
  function DetailRow(detail: Json, lib: Lib): (r: Option<Row>)
    ensures r.Some? <==>
      && detail.JObj?
      && Text(detail.fields, "DetailCode", lib).Some? && Text(detail.fields, "DetailName", lib).Some?
      && Number(detail.fields, "Share", lib).Some? && Number(detail.fields, "NavRate", lib).Some?
      && Number(detail.fields, "Amount", lib).Some?
    ensures r.Some? ==>
      && r.value.stockId == Text(detail.fields, "DetailCode", lib).value
      && r.value.stockName == Text(detail.fields, "DetailName", lib).value
      && r.value.shares == Number(detail.fields, "Share", lib).value
      && r.value.weight == Number(detail.fields, "NavRate", lib).value
      && r.value.amount == Number(detail.fields, "Amount", lib).value
  {
    match detail
    case JObj(d) =>
      (match (Text(d, "DetailCode", lib), Text(d, "DetailName", lib),
              Number(d, "Share", lib), Number(d, "NavRate", lib), Number(d, "Amount", lib))
       case (Some(id), Some(name), Some(shares), Some(weight), Some(amount)) =>
         Some(Row("", id, name, shares, weight, amount))
       case _ => None)
    case _ => None
  }

  /** The rows of some details, in order; `None` if any of them fails to convert. */
  function DetailsRows(details: seq<Json>, lib: Lib): (r: Option<seq<Row>>)
    ensures r.Some? <==> forall i :: 0 <= i < |details| ==> DetailRow(details[i], lib).Some?
    ensures r.Some? ==>
      && |r.value| == |details|
      && forall i :: 0 <= i < |details| ==> DetailRow(details[i], lib) == Some(r.value[i])
  {
    if |details| == 0 then Some([])
    else
      assert forall i :: 1 <= i < |details| ==> details[i] == details[1..][i - 1];
      match (DetailRow(details[0], lib), DetailsRows(details[1..], lib))
      case (Some(row), Some(rest)) => Some([row] + rest)
      case _ => None
  }

  /** `item.get('AssetCode') == 'ST' and 'Details' in item`. */
  predicate IsStockAsset(item: map<string, Json>)
  {
    "AssetCode" in item && item["AssetCode"] == JStr(StockAsset) && "Details" in item
  }

  /** The rows one asset item contributes: those of its details if it is a stock asset, none otherwise. */
  function ItemRows(item: Json, lib: Lib): (r: Option<seq<Row>>)
    ensures !item.JObj? ==> r.None?
    ensures item.JObj? && !IsStockAsset(item.fields) ==> r == Some([])
    ensures item.JObj? && IsStockAsset(item.fields) && Elements(item.fields["Details"]).None? ==> r.None?
  {
    match item
    case JObj(m) =>
      if IsStockAsset(m) then
        match Elements(m["Details"])
        case Some(details) => DetailsRows(details, lib)
        case None => None
      else Some([])
    case _ => None
  }

  /** The loop over all asset items: their contributions concatenated in order. */
  function ItemsRows(items: seq<Json>, lib: Lib): (r: Option<seq<Row>>)
    ensures r.Some? <==> forall i :: 0 <= i < |items| ==> ItemRows(items[i], lib).Some?
  {
    if |items| == 0 then Some([])
    else
      match (ItemRows(items[0], lib), ItemsRows(items[1..], lib))
      case (Some(row), Some(rest)) => Some(row + rest)
      case _ => None
  }

  /**
   * `UnifiedScraper.fetch_holdings` after decoding: the holdings of the decoded asset list `data`, as a table
   * without an `ETF` column; `None` when the loop raises or finds no stock
   * holding, never an empty table.
   */
  function ExtractHoldings(data: Json, lib: Lib): (r: Option<Table>)
    ensures r.Some? ==> !r.value.hasFundColumn && |r.value.rows| > 0
    ensures r.Some? <==> exists rows :: ItemsOf(data, lib) == Some(rows) && |rows| > 0
    ensures r.Some? ==> ItemsOf(data, lib) == Some(r.value.rows)
  {
    match ItemsOf(data, lib)
    case Some(rows) => if |rows| == 0 then None else Some(Table(false, rows))
    case None => None
  }

  /** The loop's output before the emptiness test. */
  function ItemsOf(data: Json, lib: Lib): (r: Option<seq<Row>>)
    ensures data.JArr? ==> r == ItemsRows(data.elems, lib)
    ensures data == JObj(map[]) || data == JStr("") ==> r == Some([])
    ensures !data.JArr? && data != JObj(map[]) && data != JStr("") ==> r.None?
  {
    match Elements(data)
    case Some(items) => ItemsRows(items, lib)
    case None => None
  }

  /**
   * An independent account of which details the loop visits: the details of
   * every stock asset, in order, or `None` when an item is not a dict or a
   * stock asset's details cannot be iterated.
   */
  function StockDetails(items: seq<Json>): Option<seq<Json>>
  {
    if |items| == 0 then Some([])
    else
      var here: Option<seq<Json>> :=
        match items[0]
        case JObj(m) => if IsStockAsset(m) then Elements(m["Details"]) else Some([])
        case _ => None;
      match (here, StockDetails(items[1..]))
      case (Some(ds), Some(rest)) => Some(ds + rest)
      case _ => None
  }

  /** Converting a concatenation of details is converting each part. */
  lemma {:induction false} DetailsRowsAppend(a: seq<Json>, b: seq<Json>, lib: Lib)
    ensures DetailsRows(a + b, lib) ==
      match (DetailsRows(a, lib), DetailsRows(b, lib))
      case (Some(x), Some(y)) => Some(x + y)
      case _ => None
  {
    if |a| == 0 {
      assert a + b == b;
      assert DetailsRows(a, lib) == Some([]);
      if DetailsRows(b, lib).Some? {
        assert [] + DetailsRows(b, lib).value == DetailsRows(b, lib).value;
      }
    } else {
      assert (a + b)[0] == a[0] && (a + b)[1..] == a[1..] + b;
      DetailsRowsAppend(a[1..], b, lib);
      var head, ra, rb := DetailRow(a[0], lib), DetailsRows(a[1..], lib), DetailsRows(b, lib);
      if head.Some? && ra.Some? && rb.Some? {
        assert [head.value] + (ra.value + rb.value) == ([head.value] + ra.value) + rb.value;
      }
    }
  }

  /**
   * The loop emits exactly the rows of the stock assets' details, one per
   * detail and in input order: it succeeds iff every item is a dict, every
   * stock asset's details can be iterated and every one of them converts.
   */
  lemma {:induction false} ExtractionFlattensStockDetails(items: seq<Json>, lib: Lib)
    ensures ItemsRows(items, lib).Some? <==>
      StockDetails(items).Some? && DetailsRows(StockDetails(items).value, lib).Some?
    ensures ItemsRows(items, lib).Some? ==> ItemsRows(items, lib) == DetailsRows(StockDetails(items).value, lib)
  {
    if |items| > 0 {
      ExtractionFlattensStockDetails(items[1..], lib);
      match items[0]
      case JObj(m) =>
        if IsStockAsset(m) {
          match Elements(m["Details"])
          case Some(ds) =>
            if StockDetails(items[1..]).Some? {
              var rest := StockDetails(items[1..]).value;
              assert StockDetails(items) == Some(ds + rest);
              DetailsRowsAppend(ds, rest, lib);
              assert ItemRows(items[0], lib) == DetailsRows(ds, lib);
              if ItemsRows(items, lib).Some? {
                assert ItemsRows(items[1..], lib) == DetailsRows(rest, lib);
              }
            }
          case None =>
        } else {
          assert ItemRows(items[0], lib) == Some([]);
          if StockDetails(items[1..]).Some? {
            assert [] + StockDetails(items[1..]).value == StockDetails(items[1..]).value;
          }
          if ItemsRows(items[1..], lib).Some? {
            assert [] + ItemsRows(items[1..], lib).value == ItemsRows(items[1..], lib).value;
          }
        }
      case _ =>
    }
  }

  /** Items that are not stock assets contribute nothing, wherever they stand. */
  lemma OtherAssetsAreSkipped(before: seq<Json>, item: map<string, Json>, after: seq<Json>, lib: Lib)
    requires !IsStockAsset(item)
    ensures ItemsRows(before + [JObj(item)] + after, lib) == ItemsRows(before + after, lib)
  {
    var tail := [JObj(item)] + after;
    ItemsRowsAppend(before, tail, lib);
    ItemsRowsAppend(before, after, lib);
    assert before + [JObj(item)] + after == before + tail;
    assert tail[0] == JObj(item) && tail[1..] == after;
    assert ItemRows(JObj(item), lib) == Some([]);
    if ItemsRows(after, lib).Some? {
      assert [] + ItemsRows(after, lib).value == ItemsRows(after, lib).value;
    }
    assert ItemsRows(tail, lib) == ItemsRows(after, lib);
  }

  lemma {:induction false} ItemsRowsAppend(a: seq<Json>, b: seq<Json>, lib: Lib)
    ensures ItemsRows(a + b, lib) ==
      match (ItemsRows(a, lib), ItemsRows(b, lib))
      case (Some(x), Some(y)) => Some(x + y)
      case _ => None
  {
    if |a| == 0 {
      assert a + b == b;
      assert ItemsRows(a, lib) == Some([]);
      if ItemsRows(b, lib).Some? {
        assert [] + ItemsRows(b, lib).value == ItemsRows(b, lib).value;
      }
    } else {
      assert (a + b)[0] == a[0] && (a + b)[1..] == a[1..] + b;
      ItemsRowsAppend(a[1..], b, lib);
      var head, ra, rb := ItemRows(a[0], lib), ItemsRows(a[1..], lib), ItemsRows(b, lib);
      if head.Some? && ra.Some? && rb.Some? {
        assert head.value + (ra.value + rb.value) == (head.value + ra.value) + rb.value;
      }
    }
  }

  /**
   * For an asset list, the extracted table holds exactly one row per detail
   * of the stock assets, in input order, each converted from its detail; it
   * is `None` when any step raises or there is no such detail.
   */
  lemma ExtractHoldingsOfAssetList(items: seq<Json>, lib: Lib)
    ensures ExtractHoldings(JArr(items), lib).Some? <==>
      && StockDetails(items).Some?
      && (forall i :: 0 <= i < |StockDetails(items).value| ==> DetailRow(StockDetails(items).value[i], lib).Some?)
      && |StockDetails(items).value| > 0
    ensures ExtractHoldings(JArr(items), lib).Some? ==>
      var rows := ExtractHoldings(JArr(items), lib).value.rows;
      && |rows| == |StockDetails(items).value|
      && forall i :: 0 <= i < |rows| ==> DetailRow(StockDetails(items).value[i], lib) == Some(rows[i])
  {
    ExtractionFlattensStockDetails(items, lib);
  }

}
