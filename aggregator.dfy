/**
 * `transform_data`: left-merge the purchases with the customers, group the
 * merged rows by customer id (sum and count of the totals, latest purchase
 * date, first city), inner-merge the groups with the customers' join dates,
 * and count tenure in days up to a fixed reference date.
 */
module Aggregator {
  import opened Wrappers
  import opened Tables
  import opened Dates
  import opened KeyOrder
  import CustomerCleaner
  import PurchaseCleaner

  type Customer = CustomerCleaner.Customer
  type Purchase = PurchaseCleaner.Purchase

  /** A row of the left merge: the purchase, and the customer row it matched if any. */
  datatype MergedRow = MergedRow(purchase: Purchase, customer: Option<Customer>)

  /** A row of the group-by result, before the join dates are attached. */
  datatype GroupRow = GroupRow(
    customerId: string, totalSpent: int, purchaseCount: nat, lastPurchase: Date, city: Option<string>)

  /** A row of the customer summary. */
  datatype SummaryRow = SummaryRow(
    customerId: string, totalSpent: int, purchaseCount: nat, lastPurchase: Date,
    city: Option<string>, joinDate: ValidDate, tenureDays: int)

  /** The fixed date tenure is counted up to. */
  const ReferenceDate: ValidDate := Date(2025, 6, 27)

  // ---- Keys of the two tables ----

  function CustomerIds(customers: seq<Customer>): set<string>
  {
    set k | 0 <= k < |customers| :: customers[k].customerId
  }

  function PurchaseIds(purchases: seq<Purchase>): set<string>
  {
    set k | 0 <= k < |purchases| :: purchases[k].customerId
  }

  predicate UniqueIds(customers: seq<Customer>)
  {
    forall i, j :: 0 <= i < j < |customers| ==> customers[i].customerId != customers[j].customerId
  }

  /** The customer rows with key `id`, in table order. */
  function CustomersWithId(customers: seq<Customer>, id: string): seq<Customer>
  {
    Filter(customers, (c: Customer) => c.customerId == id)
  }

  /** The purchase rows with key `id`, in table order. */
  function PurchasesWithId(purchases: seq<Purchase>, id: string): seq<Purchase>
  {
    Filter(purchases, (p: Purchase) => p.customerId == id)
  }

  function TotalOf(purchases: seq<Purchase>): int
  {
    if |purchases| == 0 then 0 else purchases[0].totalAmount + TotalOf(purchases[1..])
  }

  /** `d` is the latest purchase date among `purchases`. */
  predicate IsLatestDate(d: Date, purchases: seq<Purchase>)
  {
    (exists k :: 0 <= k < |purchases| && purchases[k].purchaseDate == d)
    && forall k :: 0 <= k < |purchases| ==> !Before(d, purchases[k].purchaseDate)
  }

  // ---- Step 1: left merge on customer_id ----

  /** One merged row per matching customer, in customer order. */
  function PairWith(p: Purchase, matches: seq<Customer>): (r: seq<MergedRow>)
    ensures |r| == |matches|
    ensures forall k :: 0 <= k < |r| ==> r[k] == MergedRow(p, Some(matches[k]))
  {
    if |matches| == 0 then [] else [MergedRow(p, Some(matches[0]))] + PairWith(p, matches[1..])
  }

  /** The merged rows of one purchase: one per matching customer, or one without a customer. */
  function MergeOne(p: Purchase, customers: seq<Customer>): seq<MergedRow>
  {
    var matches := CustomersWithId(customers, p.customerId);
    if |matches| == 0 then [MergedRow(p, None)] else PairWith(p, matches)
  }

  /** `purchases_df.merge(customers_df, on='customer_id', how='left')`. */
  function LeftMerge(purchases: seq<Purchase>, customers: seq<Customer>): seq<MergedRow>
  {
    if |purchases| == 0 then [] else MergeOne(purchases[0], customers) + LeftMerge(purchases[1..], customers)
  }

  // ---- Step 2: group by customer_id ----

  function MergedIds(merged: seq<MergedRow>): (ids: seq<string>)
    ensures |ids| == |merged|
    ensures forall k :: 0 <= k < |merged| ==> ids[k] == merged[k].purchase.customerId
  {
    seq(|merged|, k requires 0 <= k < |merged| => merged[k].purchase.customerId)
  }

  /** The merged rows with key `id`, in merged order. */
  function RowsWithId(merged: seq<MergedRow>, id: string): seq<MergedRow>
  {
    Filter(merged, (r: MergedRow) => r.purchase.customerId == id)
  }

  function SumTotals(rows: seq<MergedRow>): int
  {
    if |rows| == 0 then 0 else rows[0].purchase.totalAmount + SumTotals(rows[1..])
  }

  /** The later of two dates. */
  function Later(a: Date, b: Date): Date
  {
    if Before(a, b) then b else a
  }

  /** `max` of the purchase dates of a non-empty group. */
  function LatestDate(rows: seq<MergedRow>): (d: Date)
    requires |rows| > 0
    ensures exists k :: 0 <= k < |rows| && rows[k].purchase.purchaseDate == d
    ensures forall k :: 0 <= k < |rows| ==> !Before(d, rows[k].purchase.purchaseDate)
  {
    if |rows| == 1 then rows[0].purchase.purchaseDate
    else
      var rest := LatestDate(rows[1..]);
      assert forall k :: 1 <= k < |rows| ==> rows[k] == rows[1..][k - 1];
      Later(rows[0].purchase.purchaseDate, rest)
  }

  /** `first` of the city column: the city of the group's first merged row, absent if it has no customer. */
  function FirstCity(rows: seq<MergedRow>): Option<string>
    requires |rows| > 0
  {
    match rows[0].customer
    case None => None
    case Some(c) => Some(c.city)
  }

  /** The aggregates of one group: sum and count of `total_amount`, max of the date, first city. */
  function AggregateGroup(merged: seq<MergedRow>, id: string): GroupRow
    requires id in MergedIds(merged)
  {
    var rows := RowsWithId(merged, id);
    assert |rows| > 0 by {
      var k :| 0 <= k < |merged| && MergedIds(merged)[k] == id;
      assert merged[k] in rows;
    }
    GroupRow(id, SumTotals(rows), |rows|, LatestDate(rows), FirstCity(rows))
  }

  /**
   * `groupby('customer_id').agg(...)`: one row per distinct key of the merge,
   * keys strictly ascending, each row the aggregate of its own key's rows.
   */
  function GroupBy(merged: seq<MergedRow>): (groups: seq<GroupRow>)
    ensures StrictlyAscending(GroupIds(groups))
    ensures forall id :: id in GroupIds(groups) <==> id in MergedIds(merged)
    ensures forall i :: 0 <= i < |groups| ==>
      groups[i].customerId in MergedIds(merged) && groups[i] == AggregateGroup(merged, groups[i].customerId)
  {
    var keys := SortedKeys(MergedIds(merged));
    var groups := seq(|keys|, i requires 0 <= i < |keys| => AggregateGroup(merged, keys[i]));
    assert GroupIds(groups) == keys;
    groups
  }

  // ---- Step 3: inner merge with the join dates, and tenure ----

  /** `(pd.to_datetime('2025-06-27') - join_date).dt.days`. */
  function TenureDays(joinDate: ValidDate): int
  {
    DayNumber(ReferenceDate) - DayNumber(joinDate)
  }

  function Attach(g: GroupRow, c: Customer): SummaryRow
  {
    SummaryRow(g.customerId, g.totalSpent, g.purchaseCount, g.lastPurchase, g.city,
               c.joinDate, TenureDays(c.joinDate))
  }

  /** One summary row per customer row matching the group. */
  function AttachEach(g: GroupRow, matches: seq<Customer>): (r: seq<SummaryRow>)
    ensures |r| == |matches|
    ensures forall k :: 0 <= k < |r| ==> r[k] == Attach(g, matches[k])
  {
    if |matches| == 0 then [] else [Attach(g, matches[0])] + AttachEach(g, matches[1..])
  }

  /** `customer_summary.merge(customers_df[['customer_id', 'join_date']], on='customer_id')`. */
  function InnerMergeJoinDates(groups: seq<GroupRow>, customers: seq<Customer>): seq<SummaryRow>
  {
    if |groups| == 0 then []
    else AttachEach(groups[0], CustomersWithId(customers, groups[0].customerId))
         + InnerMergeJoinDates(groups[1..], customers)
  }

  /** `transform_data`, step by step as the source runs it. */
  function Transform(customers: seq<Customer>, purchases: seq<Purchase>): seq<SummaryRow>
  {
    var merged := LeftMerge(purchases, customers);
    var groups := GroupBy(merged);
    InnerMergeJoinDates(groups, customers)
  }

  function SummaryIds(summary: seq<SummaryRow>): (ids: seq<string>)
    ensures |ids| == |summary|
    ensures forall k :: 0 <= k < |summary| ==> ids[k] == summary[k].customerId
  {
    seq(|summary|, k requires 0 <= k < |summary| => summary[k].customerId)
  }

  // ---- The left merge ----

  lemma CustomersWithIdSpec(customers: seq<Customer>, id: string)
    ensures |CustomersWithId(customers, id)| > 0 <==> id in CustomerIds(customers)
    ensures forall c :: c in CustomersWithId(customers, id) <==> c in customers && c.customerId == id
  {
    var ms := CustomersWithId(customers, id);
    if id in CustomerIds(customers) {
      var k :| 0 <= k < |customers| && customers[k].customerId == id;
      assert customers[k] in ms;
    }
    if |ms| > 0 {
      assert ms[0] in customers;
    }
  }

  lemma MergeOneRows(p: Purchase, customers: seq<Customer>)
    ensures forall r :: r in MergeOne(p, customers) ==>
      r.purchase == p
      && (r.customer.None? ==> p.customerId !in CustomerIds(customers))
      && (r.customer.Some? ==> r.customer.value in customers && r.customer.value.customerId == p.customerId)
    ensures p.customerId !in CustomerIds(customers) ==> MergedRow(p, None) in MergeOne(p, customers)
    ensures forall c :: c in customers && c.customerId == p.customerId ==> MergedRow(p, Some(c)) in MergeOne(p, customers)
  {
    var ms := CustomersWithId(customers, p.customerId);
    CustomersWithIdSpec(customers, p.customerId);
    var rows := MergeOne(p, customers);
    if |ms| > 0 {
      forall c | c in customers && c.customerId == p.customerId
        ensures MergedRow(p, Some(c)) in rows
      {
        var k :| 0 <= k < |ms| && ms[k] == c;
        assert rows[k] == MergedRow(p, Some(c));
      }
    }
  }

  /**
   * The left merge keeps every purchase: a purchase with no customer appears
   * once without one, and a purchase appears with each customer row sharing
   * its key; it holds no other rows.
   */
  lemma {:induction false} LeftMergeRows(purchases: seq<Purchase>, customers: seq<Customer>)
    ensures forall r :: r in LeftMerge(purchases, customers) ==>
      r.purchase in purchases
      && (r.customer.None? ==> r.purchase.customerId !in CustomerIds(customers))
      && (r.customer.Some? ==> r.customer.value in customers && r.customer.value.customerId == r.purchase.customerId)
    ensures forall p :: p in purchases && p.customerId !in CustomerIds(customers) ==>
      MergedRow(p, None) in LeftMerge(purchases, customers)
    ensures forall p, c :: p in purchases && c in customers && c.customerId == p.customerId ==>
      MergedRow(p, Some(c)) in LeftMerge(purchases, customers)
    decreases |purchases|
  {
    if |purchases| > 0 {
      var rest := purchases[1..];
      LeftMergeRows(rest, customers);
      MergeOneRows(purchases[0], customers);
      assert forall p :: p in purchases <==> p == purchases[0] || p in rest;
    }
  }

  lemma MergedIdsArePurchaseIds(purchases: seq<Purchase>, customers: seq<Customer>)
    ensures forall id :: id in MergedIds(LeftMerge(purchases, customers)) <==> id in PurchaseIds(purchases)
  {
    var merged := LeftMerge(purchases, customers);
    LeftMergeRows(purchases, customers);
    forall id | id in PurchaseIds(purchases) ensures id in MergedIds(merged) {
      var k :| 0 <= k < |purchases| && purchases[k].customerId == id;
      var p := purchases[k];
      CustomersWithIdSpec(customers, id);
      if id in CustomerIds(customers) {
        var c := CustomersWithId(customers, id)[0];
        assert MergedRow(p, Some(c)) in merged;
        var j :| 0 <= j < |merged| && merged[j] == MergedRow(p, Some(c));
        assert MergedIds(merged)[j] == id;
      } else {
        var j :| 0 <= j < |merged| && merged[j] == MergedRow(p, None);
        assert MergedIds(merged)[j] == id;
      }
    }
    forall id | id in MergedIds(merged) ensures id in PurchaseIds(purchases) {
      var j :| 0 <= j < |merged| && MergedIds(merged)[j] == id;
      assert merged[j] in merged;
      var k :| 0 <= k < |purchases| && purchases[k] == merged[j].purchase;
    }
  }

  // ---- One group of the merge ----

  lemma RowsWithIdAppend(a: seq<MergedRow>, b: seq<MergedRow>, id: string)
    ensures RowsWithId(a + b, id) == RowsWithId(a, id) + RowsWithId(b, id)
  {
    FilterAppend(a, b, (r: MergedRow) => r.purchase.customerId == id);
  }

  lemma RowsOfMergeOne(p: Purchase, customers: seq<Customer>, id: string)
    ensures RowsWithId(MergeOne(p, customers), id) == if p.customerId == id then MergeOne(p, customers) else []
  {
    var rows := MergeOne(p, customers);
    MergeOneRows(p, customers);
    if p.customerId == id {
      FilterAll(rows, (r: MergedRow) => r.purchase.customerId == id);
    }
  }

  /** The rows of group `id` are the left merge of just that key's purchases. */
  lemma {:induction false} RowsOfLeftMerge(purchases: seq<Purchase>, customers: seq<Customer>, id: string)
    ensures RowsWithId(LeftMerge(purchases, customers), id) == LeftMerge(PurchasesWithId(purchases, id), customers)
    decreases |purchases|
  {
    if |purchases| > 0 {
      var p := purchases[0];
      RowsOfLeftMerge(purchases[1..], customers, id);
      RowsWithIdAppend(MergeOne(p, customers), LeftMerge(purchases[1..], customers), id);
      RowsOfMergeOne(p, customers, id);
      var rest := PurchasesWithId(purchases[1..], id);
      if p.customerId == id {
        assert PurchasesWithId(purchases, id) == [p] + rest;
        assert ([p] + rest)[1..] == rest;
      }
    }
  }

  /** How many merged rows each purchase of key `id` turns into. */
  function Multiplicity(customers: seq<Customer>, id: string): nat
  {
    var n := |CustomersWithId(customers, id)|;
    if n == 0 then 1 else n
  }

  lemma {:induction false} SumTotalsAppend(a: seq<MergedRow>, b: seq<MergedRow>)
    ensures SumTotals(a + b) == SumTotals(a) + SumTotals(b)
    decreases |a|
  {
    if |a| > 0 {
      assert (a + b)[1..] == a[1..] + b;
      SumTotalsAppend(a[1..], b);
    } else {
      assert a + b == b;
    }
  }

  lemma {:induction false} SumPairWith(p: Purchase, matches: seq<Customer>)
    ensures SumTotals(PairWith(p, matches)) == |matches| * p.totalAmount
    decreases |matches|
  {
    if |matches| > 0 {
      SumPairWith(p, matches[1..]);
      assert PairWith(p, matches)[1..] == PairWith(p, matches[1..]);
    }
  }

  /** One purchase becomes `Multiplicity` merged rows, each carrying its total. */
  lemma MergeOneSize(p: Purchase, customers: seq<Customer>)
    ensures |MergeOne(p, customers)| == Multiplicity(customers, p.customerId)
    ensures SumTotals(MergeOne(p, customers)) == Multiplicity(customers, p.customerId) * p.totalAmount
  {
    var ms := CustomersWithId(customers, p.customerId);
    if |ms| > 0 {
      SumPairWith(p, ms);
    }
  }

  /** `m` added up `n` times. */
  function Times(m: int, n: nat): int
  {
    if n == 0 then 0 else m + Times(m, n - 1)
  }

  lemma {:induction false} TimesIsProduct(m: int, n: nat)
    ensures Times(m, n) == m * n
  {
    if n > 0 {
      TimesIsProduct(m, n - 1);
      assert m * n == m + m * (n - 1);
    }
  }

  /** The purchases' totals, each scaled by `m`. */
  function ScaledTotal(m: int, purchases: seq<Purchase>): int
  {
    if |purchases| == 0 then 0 else m * purchases[0].totalAmount + ScaledTotal(m, purchases[1..])
  }

  lemma {:induction false} ScaledTotalIsProduct(m: int, purchases: seq<Purchase>)
    ensures ScaledTotal(m, purchases) == m * TotalOf(purchases)
    decreases |purchases|
  {
    if |purchases| > 0 {
      ScaledTotalIsProduct(m, purchases[1..]);
      assert m * TotalOf(purchases) == m * purchases[0].totalAmount + m * TotalOf(purchases[1..]);
    }
  }

  lemma LeftMergeCons(purchases: seq<Purchase>, customers: seq<Customer>)
    requires |purchases| > 0
    ensures LeftMerge(purchases, customers) == MergeOne(purchases[0], customers) + LeftMerge(purchases[1..], customers)
  {
  }

  lemma {:induction false} MergedGroupCount(purchases: seq<Purchase>, customers: seq<Customer>, id: string)
    requires forall k :: 0 <= k < |purchases| ==> purchases[k].customerId == id
    ensures |LeftMerge(purchases, customers)| == Times(Multiplicity(customers, id), |purchases|)
    decreases |purchases|
  {
    if |purchases| > 0 {
      var rest := purchases[1..];
      assert forall k :: 0 <= k < |rest| ==> rest[k].customerId == id by {
        forall k | 0 <= k < |rest| ensures rest[k].customerId == id {
          assert rest[k] == purchases[k + 1];
        }
      }
      MergedGroupCount(rest, customers, id);
      MergeOneSize(purchases[0], customers);
      LeftMergeCons(purchases, customers);
      assert purchases[0].customerId == id;
    }
  }

  lemma {:induction false} MergedGroupTotal(purchases: seq<Purchase>, customers: seq<Customer>, id: string)
    requires forall k :: 0 <= k < |purchases| ==> purchases[k].customerId == id
    ensures SumTotals(LeftMerge(purchases, customers)) == ScaledTotal(Multiplicity(customers, id), purchases)
    decreases |purchases|
  {
    if |purchases| > 0 {
      var rest := purchases[1..];
      assert forall k :: 0 <= k < |rest| ==> rest[k].customerId == id by {
        forall k | 0 <= k < |rest| ensures rest[k].customerId == id {
          assert rest[k] == purchases[k + 1];
        }
      }
      MergedGroupTotal(rest, customers, id);
      MergeOneSize(purchases[0], customers);
      LeftMergeCons(purchases, customers);
      SumTotalsAppend(MergeOne(purchases[0], customers), LeftMerge(rest, customers));
      assert purchases[0].customerId == id;
    }
  }

  /**
   * Merging purchases that all carry key `id` repeats each of them once per
   * customer row with that key (at least once): the group's count and sum are
   * scaled by that multiplicity.
   */
  lemma MergedGroupSize(purchases: seq<Purchase>, customers: seq<Customer>, id: string)
    requires forall k :: 0 <= k < |purchases| ==> purchases[k].customerId == id
    ensures |LeftMerge(purchases, customers)| == Multiplicity(customers, id) * |purchases|
    ensures SumTotals(LeftMerge(purchases, customers)) == Multiplicity(customers, id) * TotalOf(purchases)
  {
    MergedGroupCount(purchases, customers, id);
    MergedGroupTotal(purchases, customers, id);
    TimesIsProduct(Multiplicity(customers, id), |purchases|);
    ScaledTotalIsProduct(Multiplicity(customers, id), purchases);
  }

  /** The latest date of the merged rows of some purchases is the latest of their dates. */
  lemma MergedLatest(purchases: seq<Purchase>, customers: seq<Customer>)
    requires |purchases| > 0
    ensures |LeftMerge(purchases, customers)| > 0
    ensures IsLatestDate(LatestDate(LeftMerge(purchases, customers)), purchases)
  {
    var rows := LeftMerge(purchases, customers);
    MergeOneSize(purchases[0], customers);
    assert |rows| > 0;
    LeftMergeRows(purchases, customers);
    var d := LatestDate(rows);
    var k :| 0 <= k < |rows| && rows[k].purchase.purchaseDate == d;
    assert rows[k] in rows;
    var j :| 0 <= j < |purchases| && purchases[j] == rows[k].purchase;
    forall i | 0 <= i < |purchases| ensures !Before(d, purchases[i].purchaseDate) {
      PurchaseIsMerged(purchases, customers, i);
      var n :| 0 <= n < |rows| && rows[n].purchase == purchases[i];
    }
  }

  /** Every purchase occurs in at least one merged row. */
  lemma PurchaseIsMerged(purchases: seq<Purchase>, customers: seq<Customer>, i: int)
    requires 0 <= i < |purchases|
    ensures exists n :: 0 <= n < |LeftMerge(purchases, customers)| && LeftMerge(purchases, customers)[n].purchase == purchases[i]
  {
    var rows := LeftMerge(purchases, customers);
    LeftMergeRows(purchases, customers);
    var q := purchases[i];
    var ms := CustomersWithId(customers, q.customerId);
    CustomersWithIdSpec(customers, q.customerId);
    var row := if |ms| == 0 then MergedRow(q, None) else MergedRow(q, Some(ms[0]));
    assert row in rows;
    var n :| 0 <= n < |rows| && rows[n] == row;
  }

  /** The first merged row belongs to the first purchase, paired with the first customer of its key. */
  lemma MergedFirstCity(purchases: seq<Purchase>, customers: seq<Customer>)
    requires |purchases| > 0
    ensures var ms := CustomersWithId(customers, purchases[0].customerId);
      |LeftMerge(purchases, customers)| > 0
      && FirstCity(LeftMerge(purchases, customers)) == if |ms| == 0 then None else Some(ms[0].city)
  {
    MergeOneSize(purchases[0], customers);
    var rows := LeftMerge(purchases, customers);
    assert rows[0] == MergeOne(purchases[0], customers)[0];
  }

  /** What the group-by computes for key `id`, in terms of the purchases and customers with that key. */
  lemma GroupValues(purchases: seq<Purchase>, customers: seq<Customer>, id: string)
    requires id in PurchaseIds(purchases)
    ensures id in MergedIds(LeftMerge(purchases, customers))
    ensures var g := AggregateGroup(LeftMerge(purchases, customers), id);
      var ps := PurchasesWithId(purchases, id);
      var ms := CustomersWithId(customers, id);
      && g.customerId == id
      && g.purchaseCount == Multiplicity(customers, id) * |ps|
      && g.totalSpent == Multiplicity(customers, id) * TotalOf(ps)
      && IsLatestDate(g.lastPurchase, ps)
      && g.city == (if |ms| == 0 then None else Some(ms[0].city))
  {
    GroupOfKey(purchases, customers, id);
    AggregateOfGroup(LeftMerge(purchases, customers), PurchasesWithId(purchases, id), customers, id);
  }

  /** A purchase key is a key of the merge, and its merged rows come from its purchases. */
  lemma GroupOfKey(purchases: seq<Purchase>, customers: seq<Customer>, id: string)
    requires id in PurchaseIds(purchases)
    ensures id in MergedIds(LeftMerge(purchases, customers))
    ensures RowsWithId(LeftMerge(purchases, customers), id) == LeftMerge(PurchasesWithId(purchases, id), customers)
    ensures |PurchasesWithId(purchases, id)| > 0
  {
    MergedIdsArePurchaseIds(purchases, customers);
    RowsOfLeftMerge(purchases, customers, id);
    var k :| 0 <= k < |purchases| && purchases[k].customerId == id;
    assert purchases[k] in PurchasesWithId(purchases, id);
  }

  /** The aggregates of a group whose rows are the left merge of purchases all carrying its key. */
  lemma AggregateOfGroup(merged: seq<MergedRow>, ps: seq<Purchase>, customers: seq<Customer>, id: string)
    requires id in MergedIds(merged)
    requires RowsWithId(merged, id) == LeftMerge(ps, customers)
    requires |ps| > 0 && forall k :: 0 <= k < |ps| ==> ps[k].customerId == id
    ensures var g := AggregateGroup(merged, id);
      var ms := CustomersWithId(customers, id);
      && g.customerId == id
      && g.purchaseCount == Multiplicity(customers, id) * |ps|
      && g.totalSpent == Multiplicity(customers, id) * TotalOf(ps)
      && IsLatestDate(g.lastPurchase, ps)
      && g.city == (if |ms| == 0 then None else Some(ms[0].city))
  {
    MergedGroupSize(ps, customers, id);
    MergedLatest(ps, customers);
    MergedFirstCity(ps, customers);
  }

  // ---- The inner merge ----

  function GroupIds(groups: seq<GroupRow>): (ids: seq<string>)
    ensures |ids| == |groups|
    ensures forall k :: 0 <= k < |groups| ==> ids[k] == groups[k].customerId
  {
    seq(|groups|, k requires 0 <= k < |groups| => groups[k].customerId)
  }

  /** `row` is one of the groups joined with a customer row sharing its key. */
  ghost predicate JoinedFrom(row: SummaryRow, groups: seq<GroupRow>, customers: seq<Customer>)
  {
    exists i, c :: 0 <= i < |groups| && c in customers && c.customerId == groups[i].customerId
                   && row == Attach(groups[i], c)
  }

  lemma JoinedFromLater(row: SummaryRow, groups: seq<GroupRow>, customers: seq<Customer>)
    requires |groups| > 0 && JoinedFrom(row, groups[1..], customers)
    ensures JoinedFrom(row, groups, customers)
  {
    var i, c :| 0 <= i < |groups[1..]| && c in customers && c.customerId == groups[1..][i].customerId
                && row == Attach(groups[1..][i], c);
    assert groups[1..][i] == groups[i + 1];
  }

  /** Each row of the inner merge is a group joined with a customer row sharing its key. */
  lemma {:induction false} InnerMergeOrigin(groups: seq<GroupRow>, customers: seq<Customer>)
    ensures forall k :: 0 <= k < |InnerMergeJoinDates(groups, customers)| ==>
      JoinedFrom(InnerMergeJoinDates(groups, customers)[k], groups, customers)
    decreases |groups|
  {
    if |groups| > 0 {
      var rest := groups[1..];
      var ms := CustomersWithId(customers, groups[0].customerId);
      var head := AttachEach(groups[0], ms);
      var tail := InnerMergeJoinDates(rest, customers);
      var out := head + tail;
      assert out == InnerMergeJoinDates(groups, customers);
      InnerMergeOrigin(rest, customers);
      forall k | 0 <= k < |out| ensures JoinedFrom(out[k], groups, customers) {
        if k < |head| {
          assert ms[k] in ms;
          assert out[k] == Attach(groups[0], ms[k]);
        } else {
          assert out[k] == tail[k - |head|];
          JoinedFromLater(out[k], groups, customers);
        }
      }
    }
  }

  lemma AttachEachIds(g: GroupRow, matches: seq<Customer>)
    ensures forall id :: id in SummaryIds(AttachEach(g, matches)) <==> id == g.customerId && |matches| > 0
  {
    var ids := SummaryIds(AttachEach(g, matches));
    if |matches| > 0 {
      assert ids[0] == g.customerId;
    }
  }

  lemma SummaryIdsAppend(a: seq<SummaryRow>, b: seq<SummaryRow>)
    ensures SummaryIds(a + b) == SummaryIds(a) + SummaryIds(b)
  {
  }

  lemma GroupIdsCons(groups: seq<GroupRow>)
    requires |groups| > 0
    ensures GroupIds(groups) == [groups[0].customerId] + GroupIds(groups[1..])
  {
  }

  /** A group's key reaches the summary exactly when some customer row has it. */
  lemma {:induction false} InnerMergeIds(groups: seq<GroupRow>, customers: seq<Customer>)
    ensures forall id :: id in SummaryIds(InnerMergeJoinDates(groups, customers)) <==>
      id in GroupIds(groups) && id in CustomerIds(customers)
    decreases |groups|
  {
    if |groups| > 0 {
      var g := groups[0];
      var rest := groups[1..];
      var ms := CustomersWithId(customers, g.customerId);
      var head := AttachEach(g, ms);
      var tail := InnerMergeJoinDates(rest, customers);
      assert InnerMergeJoinDates(groups, customers) == head + tail;
      InnerMergeIds(rest, customers);
      CustomersWithIdSpec(customers, g.customerId);
      AttachEachIds(g, ms);
      SummaryIdsAppend(head, tail);
      GroupIdsCons(groups);
    }
  }

  /** With one row per customer id, a key matches at most one customer row. */
  lemma {:induction false} UniqueIdsAtMostOne(customers: seq<Customer>, id: string)
    requires UniqueIds(customers)
    ensures |CustomersWithId(customers, id)| <= 1
    decreases |customers|
  {
    if |customers| > 0 {
      var rest := customers[1..];
      assert UniqueIds(rest) by {
        forall i, j | 0 <= i < j < |rest| ensures rest[i].customerId != rest[j].customerId {
          assert rest[i] == customers[i + 1] && rest[j] == customers[j + 1];
        }
      }
      UniqueIdsAtMostOne(rest, id);
      if customers[0].customerId == id {
        CustomersWithIdSpec(rest, id);
      }
    }
  }

  /** With unique customer ids the inner merge keeps the groups' ascending key order. */
  lemma {:induction false} InnerMergeAscending(groups: seq<GroupRow>, customers: seq<Customer>)
    requires UniqueIds(customers)
    requires StrictlyAscending(GroupIds(groups))
    ensures StrictlyAscending(SummaryIds(InnerMergeJoinDates(groups, customers)))
    decreases |groups|
  {
    if |groups| > 0 {
      var g := groups[0];
      var rest := groups[1..];
      var ms := CustomersWithId(customers, g.customerId);
      var head := AttachEach(g, ms);
      var tail := InnerMergeJoinDates(rest, customers);
      var ids := SummaryIds(InnerMergeJoinDates(groups, customers));
      assert InnerMergeJoinDates(groups, customers) == head + tail;
      assert forall i :: 0 <= i < |rest| ==> GroupIds(rest)[i] == GroupIds(groups)[i + 1];
      InnerMergeAscending(rest, customers);
      InnerMergeIds(rest, customers);
      UniqueIdsAtMostOne(customers, g.customerId);
      forall i, j | 0 <= i < j < |ids| ensures StrLess(ids[i], ids[j]) {
        assert ids[j] == SummaryIds(tail)[j - |head|];
        if i < |head| {
          assert i == 0 && ids[i] == g.customerId;
          assert ids[j] in SummaryIds(tail);
          var n :| 0 <= n < |rest| && GroupIds(rest)[n] == ids[j];
          assert GroupIds(groups)[0] == g.customerId && GroupIds(groups)[n + 1] == ids[j];
        } else {
          assert ids[i] == SummaryIds(tail)[i - |head|];
        }
      }
    }
  }

  // ---- The customer summary ----

  /**
   * A customer id appears in the summary exactly when it has both a purchase
   * and a customer row; with one row per customer id, the summary's ids are
   * strictly ascending, so each appears once.
   */
  lemma SummaryKeys(customers: seq<Customer>, purchases: seq<Purchase>)
    ensures forall id :: id in SummaryIds(Transform(customers, purchases)) <==>
      id in PurchaseIds(purchases) && id in CustomerIds(customers)
    ensures UniqueIds(customers) ==> StrictlyAscending(SummaryIds(Transform(customers, purchases)))
  {
    var merged := LeftMerge(purchases, customers);
    var groups := GroupBy(merged);
    MergedIdsArePurchaseIds(purchases, customers);
    InnerMergeIds(groups, customers);
    if UniqueIds(customers) {
      InnerMergeAscending(groups, customers);
    }
  }

  /**
   * The left merge keeps a purchase whose customer id has no customer row,
   * and the inner merge then drops its group: it is not in the summary.
   */
  lemma UnmatchedPurchaseDropped(customers: seq<Customer>, purchases: seq<Purchase>, p: Purchase)
    requires p in purchases && p.customerId !in CustomerIds(customers)
    ensures MergedRow(p, None) in LeftMerge(purchases, customers)
    ensures p.customerId !in SummaryIds(Transform(customers, purchases))
  {
    LeftMergeRows(purchases, customers);
    SummaryKeys(customers, purchases);
  }

  /** A customer row whose id has no purchase gives no summary row. */
  lemma CustomerWithoutPurchasesDropped(customers: seq<Customer>, purchases: seq<Purchase>, c: Customer)
    requires c in customers && c.customerId !in PurchaseIds(purchases)
    ensures c.customerId !in SummaryIds(Transform(customers, purchases))
  {
    SummaryKeys(customers, purchases);
  }

  /**
   * Each summary row, for a key with purchases `ps` and customer rows `cs`:
   * count and sum are scaled by `|cs|` (the left merge repeats each purchase
   * once per customer row), the last purchase is the latest date of `ps`,
   * the city is the first customer row's, and the join date and tenure come
   * from one of the customer rows.
   */
  lemma SummaryRowValues(customers: seq<Customer>, purchases: seq<Purchase>, k: int)
    requires 0 <= k < |Transform(customers, purchases)|
    ensures var row := Transform(customers, purchases)[k];
      var ps := PurchasesWithId(purchases, row.customerId);
      var cs := CustomersWithId(customers, row.customerId);
      && |ps| > 0 && |cs| > 0
      && row.purchaseCount == |cs| * |ps|
      && row.totalSpent == |cs| * TotalOf(ps)
      && IsLatestDate(row.lastPurchase, ps)
      && row.city == Some(cs[0].city)
      && (exists c :: c in cs && row.joinDate == c.joinDate)
      && row.tenureDays == TenureDays(row.joinDate)
  {
    var row := Transform(customers, purchases)[k];
    RowOrigin(customers, purchases, k);
    var id, c :| id in PurchaseIds(purchases) && id in MergedIds(LeftMerge(purchases, customers))
                 && c in customers && c.customerId == id
                 && row == Attach(AggregateGroup(LeftMerge(purchases, customers), id), c);
    AttachedValues(purchases, customers, id, c, row);
  }

  /** Each summary row is the aggregate of a purchase key joined with a customer row of that key. */
  lemma RowOrigin(customers: seq<Customer>, purchases: seq<Purchase>, k: int)
    requires 0 <= k < |Transform(customers, purchases)|
    ensures exists id, c ::
      && id in PurchaseIds(purchases) && id in MergedIds(LeftMerge(purchases, customers))
      && c in customers && c.customerId == id
      && Transform(customers, purchases)[k] == Attach(AggregateGroup(LeftMerge(purchases, customers), id), c)
  {
    var merged := LeftMerge(purchases, customers);
    var groups := GroupBy(merged);
    var row := Transform(customers, purchases)[k];
    InnerMergeOrigin(groups, customers);
    assert JoinedFrom(row, groups, customers);
    var i, c :| 0 <= i < |groups| && c in customers && c.customerId == groups[i].customerId
                && row == Attach(groups[i], c);
    MergedIdsArePurchaseIds(purchases, customers);
    var id := groups[i].customerId;
    assert id in GroupIds(groups);
  }

  /** A key's aggregate joined with one of its customer rows carries the key's values. */
  lemma AttachedValues(purchases: seq<Purchase>, customers: seq<Customer>, id: string, c: Customer, row: SummaryRow)
    requires id in PurchaseIds(purchases) && id in MergedIds(LeftMerge(purchases, customers))
    requires c in customers && c.customerId == id
    requires row == Attach(AggregateGroup(LeftMerge(purchases, customers), id), c)
    ensures var ps := PurchasesWithId(purchases, id);
      var cs := CustomersWithId(customers, id);
      && row.customerId == id
      && |ps| > 0 && |cs| > 0
      && row.purchaseCount == |cs| * |ps|
      && row.totalSpent == |cs| * TotalOf(ps)
      && IsLatestDate(row.lastPurchase, ps)
      && row.city == Some(cs[0].city)
      && (exists c :: c in cs && row.joinDate == c.joinDate)
      && row.tenureDays == TenureDays(row.joinDate)
  {
    GroupValues(purchases, customers, id);
    var ps := PurchasesWithId(purchases, id);
    var k0 :| 0 <= k0 < |purchases| && purchases[k0].customerId == id;
    assert purchases[k0] in ps;
    CustomersWithIdSpec(customers, id);
    assert c in CustomersWithId(customers, id);
  }

  /** The facts `SummaryRowValues` gives about `row`, specialised to a key with one customer row. */
  lemma RowOfUniqueCustomer(customers: seq<Customer>, purchases: seq<Purchase>, row: SummaryRow)
    requires UniqueIds(customers)
    requires var ps := PurchasesWithId(purchases, row.customerId);
      var cs := CustomersWithId(customers, row.customerId);
      && |cs| > 0
      && row.purchaseCount == |cs| * |ps|
      && row.totalSpent == |cs| * TotalOf(ps)
      && row.city == Some(cs[0].city)
      && (exists c :: c in cs && row.joinDate == c.joinDate)
      && row.tenureDays == TenureDays(row.joinDate)
    ensures var ps := PurchasesWithId(purchases, row.customerId);
      exists c :: c in customers && c.customerId == row.customerId
        && row.purchaseCount == |ps|
        && row.totalSpent == TotalOf(ps)
        && row.city == Some(c.city)
        && row.joinDate == c.joinDate
        && row.tenureDays == TenureDays(c.joinDate)
  {
    var cs := CustomersWithId(customers, row.customerId);
    UniqueIdsAtMostOne(customers, row.customerId);
    var c := cs[0];
    assert c in cs;
    CustomersWithIdSpec(customers, row.customerId);
    var c' :| c' in cs && row.joinDate == c'.joinDate;
    assert c' == c;
  }

  /** With one row per customer id, a summary row carries its key's plain count and sum and that customer's details. */
  lemma SummaryRowOfCustomer(customers: seq<Customer>, purchases: seq<Purchase>, k: int)
    requires UniqueIds(customers)
    requires 0 <= k < |Transform(customers, purchases)|
    ensures var row := Transform(customers, purchases)[k];
      var ps := PurchasesWithId(purchases, row.customerId);
      && IsLatestDate(row.lastPurchase, ps)
      && (exists c ::
            && c in customers && c.customerId == row.customerId
            && row.purchaseCount == |ps|
            && row.totalSpent == TotalOf(ps)
            && row.city == Some(c.city)
            && row.joinDate == c.joinDate
            && row.tenureDays == TenureDays(c.joinDate))
  {
    SummaryRowValues(customers, purchases, k);
    RowOfUniqueCustomer(customers, purchases, Transform(customers, purchases)[k]);
  }

  // ---- Tenure ----

  /** Tenure is positive before the reference date, zero on it and negative after it. */
  lemma TenureSign(joinDate: ValidDate)
    ensures TenureDays(joinDate) > 0 <==> Before(joinDate, ReferenceDate)
    ensures TenureDays(joinDate) == 0 <==> joinDate == ReferenceDate
    ensures TenureDays(joinDate) < 0 <==> Before(ReferenceDate, joinDate)
  {
    DayNumberOrder(joinDate, ReferenceDate);
    DayNumberOrder(ReferenceDate, joinDate);
  }

  /** Joining one day later shortens tenure by exactly one day. */
  lemma TenureOfNextDay(joinDate: ValidDate)
    requires joinDate != Date(9999, 12, 31)
    ensures IsValid(NextDay(joinDate))
    ensures TenureDays(NextDay(joinDate)) == TenureDays(joinDate) - 1
  {
    NextDayIsOneMore(joinDate);
  }

  /** A customer who joined on 2020-06-01 has 1852 days of tenure. */
  lemma TenureExample()
    ensures TenureDays(Date(2020, 6, 1)) == 1852
  {
  }
}
