/**
 * Record derivation: the numeric coercion and the USD columns that
 * `parse_json_data` adds to the flattened transaction table.
 *
 * A raw record is one row of the table after `json_normalize` and the column
 * rename: its identifying fields plus the numeric source cells it carries,
 * keyed by their canonical column names. A key that is absent is a cell
 * pandas fills with NaN.
 */
module Records {
  import opened Options
  import Decimal

  /** One cell of a numeric source column as the JSON delivered it. */
  datatype Cell = Null | Num(value: real) | Text(text: string)

  datatype RawTx = RawTx(
    userId: string,
    kind: string,
    timestamp: int,               // epoch seconds
    assetSymbol: Option<string>,  // None: the cell is missing
    cells: map<string, Cell>)

  /** One canonical transaction record. */
  datatype Tx = Tx(
    userId: string,
    kind: string,
    timestamp: int,
    assetSymbol: Option<string>,
    amountRaw: real,
    assetPriceUsd: real,
    principalAmountRaw: real,
    principalPriceUsd: real,
    collateralAmountRaw: real,
    collateralPriceUsd: real,
    amountUsd: real,
    principalAmountUsd: real,
    collateralAmountUsd: real)

  const AMOUNT_RAW := "amount_raw"
  const ASSET_PRICE_USD := "asset_price_usd"
  const PRINCIPAL_AMOUNT_RAW := "principal_amount_raw"
  const PRINCIPAL_PRICE_USD := "principal_price_usd"
  const COLLATERAL_AMOUNT_RAW := "collateral_amount_raw"
  const COLLATERAL_PRICE_USD := "collateral_price_usd"

  /** The columns that are coerced to numbers, in the order they are coerced. */
  const NUMERIC_COLS: seq<string> := [
    AMOUNT_RAW, ASSET_PRICE_USD,
    PRINCIPAL_AMOUNT_RAW, PRINCIPAL_PRICE_USD,
    COLLATERAL_AMOUNT_RAW, COLLATERAL_PRICE_USD]

  /** `pd.to_numeric` with `errors='coerce'` on one cell; None stands for NaN. */
  function ToNumeric(c: Cell): Option<real> {
    match c
    case Null => None
    case Num(v) => Some(v)
    case Text(s) => Decimal.ParseNumber(s)
  }

  /** The coerced value of column `col` of one record, before `fillna`. */
  function CellAt(r: RawTx, col: string): Option<real> {
    if col in r.cells then ToNumeric(r.cells[col]) else None
  }

  /** The value a numeric column holds for one record once NaN is filled with 0. */
  function Coerced(r: RawTx, col: string): real {
    CellAt(r, col).GetOr(0.0)
  }

  /** The whole of column `col` after `pd.to_numeric`. */
  function ToNumericColumn(rows: seq<RawTx>, col: string): (c: seq<Option<real>>)
    ensures |c| == |rows|
    ensures forall i :: 0 <= i < |rows| ==> c[i] == CellAt(rows[i], col)
  {
    seq(|rows|, i requires 0 <= i < |rows| => CellAt(rows[i], col))
  }

  /** `fillna(v)` on one column. */
  function FillNa(column: seq<Option<real>>, v: real): (c: seq<real>)
    ensures |c| == |column|
    ensures forall i :: 0 <= i < |column| ==>
      c[i] == (if column[i].Some? then column[i].value else v)
  {
    seq(|column|, i requires 0 <= i < |column| => column[i].GetOr(v))
  }

  /** Each USD value of `t` is its raw amount times its unit price. */
  predicate UsdDerived(t: Tx) {
    && t.amountUsd == t.amountRaw * t.assetPriceUsd
    && t.principalAmountUsd == t.principalAmountRaw * t.principalPriceUsd
    && t.collateralAmountUsd == t.collateralAmountRaw * t.collateralPriceUsd
  }

  /**
   * The record carrying the given coerced amounts and prices, with each USD
   * value the product of its amount and its price.
   */
  function Derive(r: RawTx, amount: real, price: real, principal: real, principalPrice: real,
                  collateral: real, collateralPrice: real): (t: Tx)
    ensures t.userId == r.userId && t.kind == r.kind
    ensures t.timestamp == r.timestamp && t.assetSymbol == r.assetSymbol
    ensures t.amountRaw == amount && t.assetPriceUsd == price
    ensures t.principalAmountRaw == principal && t.principalPriceUsd == principalPrice
    ensures t.collateralAmountRaw == collateral && t.collateralPriceUsd == collateralPrice
    ensures UsdDerived(t)
  {
    Tx(r.userId, r.kind, r.timestamp, r.assetSymbol,
       amount, price, principal, principalPrice, collateral, collateralPrice,
       amount * price, principal * principalPrice, collateral * collateralPrice)
  }

  /**
   * The canonical record derived from one raw record: every numeric field
   * coerced (0 when missing or not a number) and each USD value the product
   * of its raw amount and its unit price.
   */
  function Normalize(r: RawTx): (t: Tx)
    ensures t.userId == r.userId && t.kind == r.kind
    ensures t.timestamp == r.timestamp && t.assetSymbol == r.assetSymbol
    ensures t.amountRaw == Coerced(r, AMOUNT_RAW)
    ensures t.assetPriceUsd == Coerced(r, ASSET_PRICE_USD)
    ensures t.principalAmountRaw == Coerced(r, PRINCIPAL_AMOUNT_RAW)
    ensures t.principalPriceUsd == Coerced(r, PRINCIPAL_PRICE_USD)
    ensures t.collateralAmountRaw == Coerced(r, COLLATERAL_AMOUNT_RAW)
    ensures t.collateralPriceUsd == Coerced(r, COLLATERAL_PRICE_USD)
    ensures UsdDerived(t)
  {
    Derive(r, Coerced(r, AMOUNT_RAW), Coerced(r, ASSET_PRICE_USD),
           Coerced(r, PRINCIPAL_AMOUNT_RAW), Coerced(r, PRINCIPAL_PRICE_USD),
           Coerced(r, COLLATERAL_AMOUNT_RAW), Coerced(r, COLLATERAL_PRICE_USD))
  }

  /**
   * The `pd.to_numeric` loop: each numeric column in turn is replaced by its
   * coerced form. Every numeric column is present afterwards, and every
   * column present holds the coerced values of its cells.
   */
  method CoerceColumns(rows: seq<RawTx>) returns (frame: map<string, seq<Option<real>>>)
    ensures forall k :: 0 <= k < |NUMERIC_COLS| ==> NUMERIC_COLS[k] in frame
    ensures forall c :: c in frame ==> frame[c] == ToNumericColumn(rows, c)
  {
    frame := map[];
    for k := 0 to |NUMERIC_COLS|
      invariant forall j :: 0 <= j < k ==> NUMERIC_COLS[j] in frame
      invariant forall c :: c in frame ==> frame[c] == ToNumericColumn(rows, c)
    {
      var col := NUMERIC_COLS[k];
      frame := frame[col := ToNumericColumn(rows, col)];
    }
  }

  /**
   * The table transformation: each numeric column in turn is replaced by its
   * coerced form, all of them are NaN-filled with 0, and the three USD columns
   * are computed row by row. The result agrees with `Normalize` on every row.
   */
  method ParseRecords(rows: seq<RawTx>) returns (txs: seq<Tx>)
    ensures |txs| == |rows|
    ensures forall i :: 0 <= i < |rows| ==> txs[i] == Normalize(rows[i])
  {
    var frame := CoerceColumns(rows);
    var filled := map c | c in frame :: FillNa(frame[c], 0.0);
    var amount := filled[NUMERIC_COLS[0]];
    var price := filled[NUMERIC_COLS[1]];
    var principal := filled[NUMERIC_COLS[2]];
    var principalPrice := filled[NUMERIC_COLS[3]];
    var collateral := filled[NUMERIC_COLS[4]];
    var collateralPrice := filled[NUMERIC_COLS[5]];
    txs := [];
    for i := 0 to |rows|
      invariant |txs| == i
      invariant forall j :: 0 <= j < i ==> txs[j] == Normalize(rows[j])
    {
      var t := Derive(rows[i], amount[i], price[i], principal[i], principalPrice[i],
                      collateral[i], collateralPrice[i]);
      txs := txs + [t];
    }
  }

  /** A cell that is absent, null or non-numeric text counts as 0. */
  lemma MissingOrNonNumericIsZero(r: RawTx, col: string)
    requires col !in r.cells || r.cells[col] == Null
      || (r.cells[col].Text? && Decimal.ParseNumber(r.cells[col].text) == None)
    ensures Coerced(r, col) == 0.0
  {
  }

  /** A numeric cell, or a text cell that spells a number, keeps its value. */
  lemma NumericCellKept(r: RawTx, col: string)
    requires col in r.cells
    ensures r.cells[col].Num? ==> Coerced(r, col) == r.cells[col].value
    ensures r.cells[col].Text? && Decimal.ParseNumber(r.cells[col].text).Some? ==>
      Coerced(r, col) == Decimal.ParseNumber(r.cells[col].text).value
  {
  }

  /** A text cell holding a decimal `a.b` (with `n` fraction digits) is coerced to `a + b / 10^n`. */
  lemma DecimalTextCell(r: RawTx, col: string, a: nat, b: nat, n: nat)
    requires b < Decimal.Pow10(n)
    requires col in r.cells && r.cells[col] == Text(Decimal.ShowNat(a) + "." + Decimal.Padded(b, n))
    ensures Coerced(r, col) == a as real + b as real / Decimal.Pow10(n) as real
  {
    Decimal.ParseDecimal(a, b, n);
  }

  /** A record whose amount or price is missing or non-numeric is worth 0 USD. */
  lemma UnpricedAmountIsZeroUsd(r: RawTx)
    requires CellAt(r, AMOUNT_RAW) == None || CellAt(r, ASSET_PRICE_USD) == None
    ensures Normalize(r).amountUsd == 0.0
  {
  }

  /** When every numeric cell of a record is a non-negative number, so are its USD values. */
  lemma NonNegativeUsd(r: RawTx)
    requires forall c :: c in NUMERIC_COLS && CellAt(r, c).Some? ==> CellAt(r, c).value >= 0.0
    ensures Normalize(r).amountUsd >= 0.0
    ensures Normalize(r).principalAmountUsd >= 0.0
    ensures Normalize(r).collateralAmountUsd >= 0.0
  {
    assert forall c :: c in NUMERIC_COLS ==> Coerced(r, c) >= 0.0;
  }
}
