/**
 * `clean_purchase_data`: keep the rows with a positive quantity and a positive
 * price, parse the purchase dates, and add the line total. Prices are whole
 * cents, so every total is exact.
 */
module PurchaseCleaner {
  import opened Wrappers
  import opened Tables
  import opened Dates

  /** A purchase row as it arrives: the purchase date is still `YYYY-MM-DD` text. */
  datatype RawPurchase = RawPurchase(
    purchaseId: string, customerId: string, product: string,
    quantity: int, price: int, storeId: string, purchaseDate: string)

  /** A purchase row after its date column is parsed. */
  datatype DatedPurchase = DatedPurchase(
    purchaseId: string, customerId: string, product: string,
    quantity: int, price: int, storeId: string, purchaseDate: ValidDate)

  /** A cleaned purchase row, with its derived `total_amount` in cents. */
  datatype Purchase = Purchase(
    purchaseId: string, customerId: string, product: string,
    quantity: int, price: int, storeId: string, purchaseDate: ValidDate, totalAmount: int)

  /** `pd.to_datetime` raising on a purchase date it cannot read. */
  datatype CleanError = UnparseablePurchaseDate(purchaseId: string, text: string)

  /** The row mask `(df['quantity'] > 0) & (df['price'] > 0)`. */
  predicate HasPositiveQuantityAndPrice(row: RawPurchase)
  {
    row.quantity > 0 && row.price > 0
  }

  function WithPurchaseDate(row: RawPurchase, d: ValidDate): DatedPurchase
  {
    DatedPurchase(row.purchaseId, row.customerId, row.product, row.quantity, row.price, row.storeId, d)
  }

  /** `pd.to_datetime(df['purchase_date'])`: every date must parse, or the whole step fails. */
  function ParsePurchaseDates(rows: seq<RawPurchase>): (r: Result<seq<DatedPurchase>, CleanError>)
    ensures r.Success? <==> forall k :: 0 <= k < |rows| ==> Parse(rows[k].purchaseDate).Some?
    ensures r.Success? ==>
      |r.value| == |rows|
      && forall k :: 0 <= k < |rows| ==> r.value[k] == WithPurchaseDate(rows[k], Parse(rows[k].purchaseDate).value)
    ensures r.Failure? ==>
      exists k :: 0 <= k < |rows| && Parse(rows[k].purchaseDate).None?
                  && r.error == UnparseablePurchaseDate(rows[k].purchaseId, rows[k].purchaseDate)
  {
    if |rows| == 0 then Success([])
    else
      match Parse(rows[0].purchaseDate)
      case None => Failure(UnparseablePurchaseDate(rows[0].purchaseId, rows[0].purchaseDate))
      case Some(d) =>
        match ParsePurchaseDates(rows[1..])
        case Failure(e) =>
          assert forall k :: 1 <= k < |rows| ==> rows[1..][k - 1] == rows[k];
          Failure(e)
        case Success(rest) =>
          assert forall k :: 1 <= k < |rows| ==> rows[1..][k - 1] == rows[k];
          Success([WithPurchaseDate(rows[0], d)] + rest)
  }

  function WithTotal(row: DatedPurchase): Purchase
  {
    Purchase(row.purchaseId, row.customerId, row.product, row.quantity, row.price,
             row.storeId, row.purchaseDate, row.quantity * row.price)
  }

  /** `df['total_amount'] = df['quantity'] * df['price']`. */
  function AddTotals(rows: seq<DatedPurchase>): (r: seq<Purchase>)
    ensures |r| == |rows|
    ensures forall k :: 0 <= k < |rows| ==> r[k] == WithTotal(rows[k])
  {
    seq(|rows|, k requires 0 <= k < |rows| => WithTotal(rows[k]))
  }

  /** `clean_purchase_data`, step by step as the source runs it. */
  function CleanPurchases(raw: seq<RawPurchase>): Result<seq<Purchase>, CleanError>
  {
    var positive := Filter(raw, HasPositiveQuantityAndPrice);
    match ParsePurchaseDates(positive)
    case Failure(e) => Failure(e)
    case Success(dated) => Success(AddTotals(dated))
  }

  /** `p` is raw row `row` after cleaning. */
  predicate Cleaned(row: RawPurchase, p: Purchase)
  {
    p.purchaseId == row.purchaseId && p.customerId == row.customerId && p.product == row.product
    && p.quantity == row.quantity && p.price == row.price && p.storeId == row.storeId
    && Parse(row.purchaseDate) == Some(p.purchaseDate)
    && p.totalAmount == row.quantity * row.price
  }

  /**
   * The cleaner fails exactly when a kept row's date does not parse; otherwise
   * it returns the rows with positive quantity and price, in input order, each
   * with its parsed date and its line total, all other fields unchanged.
   */
  lemma CleanPurchasesCorrect(raw: seq<RawPurchase>)
    ensures var kept := Filter(raw, HasPositiveQuantityAndPrice);
      CleanPurchases(raw).Success? <==> forall k :: 0 <= k < |kept| ==> Parse(kept[k].purchaseDate).Some?
    ensures var kept := Filter(raw, HasPositiveQuantityAndPrice);
      CleanPurchases(raw).Success? ==>
        |CleanPurchases(raw).value| == |kept|
        && forall k :: 0 <= k < |kept| ==> Cleaned(kept[k], CleanPurchases(raw).value[k])
    ensures var kept := Filter(raw, HasPositiveQuantityAndPrice);
      CleanPurchases(raw).Failure? ==>
        exists k :: 0 <= k < |kept| && Parse(kept[k].purchaseDate).None?
                    && CleanPurchases(raw).error == UnparseablePurchaseDate(kept[k].purchaseId, kept[k].purchaseDate)
  {
  }

  /** Every cleaned purchase has positive quantity and price, and a positive total equal to their product. */
  lemma CleanedPurchasesPositive(raw: seq<RawPurchase>)
    requires CleanPurchases(raw).Success?
    ensures forall k :: 0 <= k < |CleanPurchases(raw).value| ==>
      var p := CleanPurchases(raw).value[k];
      p.quantity > 0 && p.price > 0 && p.totalAmount == p.quantity * p.price && p.totalAmount > 0
  {
    var kept := Filter(raw, HasPositiveQuantityAndPrice);
    var out := CleanPurchases(raw).value;
    CleanPurchasesCorrect(raw);
    forall k | 0 <= k < |out|
      ensures out[k].quantity > 0 && out[k].price > 0
      ensures out[k].totalAmount == out[k].quantity * out[k].price && out[k].totalAmount > 0
    {
      assert Cleaned(kept[k], out[k]) && HasPositiveQuantityAndPrice(kept[k]);
      PositiveProduct(out[k].quantity, out[k].price);
    }
  }

  lemma PositiveProduct(a: int, b: int)
    requires a > 0 && b > 0
    ensures a * b > 0
  {
  }

  /** A cleaned table as it is written out and read back: the date becomes text again and the total is dropped. */
  function ToRaw(out: seq<Purchase>): (rows: seq<RawPurchase>)
    ensures |rows| == |out|
    ensures forall k :: 0 <= k < |out| ==>
      rows[k] == RawPurchase(out[k].purchaseId, out[k].customerId, out[k].product,
                             out[k].quantity, out[k].price, out[k].storeId, Format(out[k].purchaseDate))
  {
    seq(|out|, k requires 0 <= k < |out| =>
      RawPurchase(out[k].purchaseId, out[k].customerId, out[k].product,
                  out[k].quantity, out[k].price, out[k].storeId, Format(out[k].purchaseDate)))
  }

  /** Cleaning is idempotent: cleaning the cleaned table again gives it back unchanged. */
  lemma CleanPurchasesIdempotent(raw: seq<RawPurchase>)
    requires CleanPurchases(raw).Success?
    ensures CleanPurchases(ToRaw(CleanPurchases(raw).value)) == CleanPurchases(raw)
  {
    CleanedPurchasesPositive(raw);
    CleanPurchasesOfCleaned(CleanPurchases(raw).value);
  }

  /** A table with positive quantities and prices and consistent totals is a fixed point of the cleaner. */
  lemma CleanPurchasesOfCleaned(out: seq<Purchase>)
    requires forall k :: 0 <= k < |out| ==>
      out[k].quantity > 0 && out[k].price > 0 && out[k].totalAmount == out[k].quantity * out[k].price
    ensures CleanPurchases(ToRaw(out)) == Success(out)
  {
    var rows := ToRaw(out);
    assert forall k :: 0 <= k < |rows| ==> HasPositiveQuantityAndPrice(rows[k]);
    FilterAll(rows, HasPositiveQuantityAndPrice);
    ReparseDates(out);
    var dated := ParsePurchaseDates(rows).value;
    var again := AddTotals(dated);
    assert forall k :: 0 <= k < |out| ==> again[k] == out[k];
    assert again == out;
  }

  /** The dates written back as text parse to the dates they came from. */
  lemma ReparseDates(out: seq<Purchase>)
    ensures ParsePurchaseDates(ToRaw(out)).Success?
    ensures |ParsePurchaseDates(ToRaw(out)).value| == |out|
    ensures forall k :: 0 <= k < |out| ==>
      ParsePurchaseDates(ToRaw(out)).value[k]
      == DatedPurchase(out[k].purchaseId, out[k].customerId, out[k].product,
                       out[k].quantity, out[k].price, out[k].storeId, out[k].purchaseDate)
  {
    var rows := ToRaw(out);
    forall k | 0 <= k < |rows| ensures Parse(rows[k].purchaseDate) == Some(out[k].purchaseDate) {
      ParseFormat(out[k].purchaseDate);
    }
  }
}
