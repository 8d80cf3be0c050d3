/**
 * `clean_customer_data`: drop rows whose raw email repeats an earlier row's,
 * lower-case the emails, keep the rows whose email fits the address pattern,
 * and parse the join dates.
 */
module CustomerCleaner {
  import opened Wrappers
  import opened Tables
  import opened Dates
  import opened Emails

  /** A customer row as it arrives: the join date is still `YYYY-MM-DD` text. */
  datatype RawCustomer = RawCustomer(
    customerId: string, firstName: string, lastName: string,
    email: string, city: string, joinDate: string)

  /** A cleaned customer row: the join date is parsed. */
  datatype Customer = Customer(
    customerId: string, firstName: string, lastName: string,
    email: string, city: string, joinDate: ValidDate)

  /** `pd.to_datetime` raising on a join date it cannot read. */
  datatype CleanError = UnparseableJoinDate(customerId: string, text: string)

  function EmailsOf(rows: seq<RawCustomer>): set<string>
  {
    set k | 0 <= k < |rows| :: rows[k].email
  }

  lemma EmailsOfCons(row: RawCustomer, rows: seq<RawCustomer>)
    ensures EmailsOf([row] + rows) == {row.email} + EmailsOf(rows)
  {
    var all := [row] + rows;
    forall e | e in EmailsOf(all) ensures e in {row.email} + EmailsOf(rows) {
      var k :| 0 <= k < |all| && all[k].email == e;
      if k > 0 {
        assert all[k] == rows[k - 1];
      }
    }
    forall e | e in EmailsOf(rows) ensures e in EmailsOf(all) {
      var k :| 0 <= k < |rows| && rows[k].email == e;
      assert all[k + 1] == rows[k];
    }
    assert all[0] == row;
  }

  predicate DistinctEmails(rows: seq<RawCustomer>)
  {
    forall i, j :: 0 <= i < j < |rows| ==> rows[i].email != rows[j].email
  }

  /** The position of the earliest row carrying email `e`. */
  function FirstIndexWithEmail(rows: seq<RawCustomer>, e: string): (i: nat)
    requires e in EmailsOf(rows)
    ensures i < |rows| && rows[i].email == e
    ensures forall j :: 0 <= j < i ==> rows[j].email != e
  {
    if rows[0].email == e then 0
    else
      assert e in EmailsOf(rows[1..]) by {
        var k :| 0 <= k < |rows| && rows[k].email == e;
        assert rows[1..][k - 1] == rows[k];
      }
      var i := FirstIndexWithEmail(rows[1..], e);
      assert forall j :: 1 <= j <= i ==> rows[j] == rows[1..][j - 1];
      i + 1
  }

  /** The earliest row carrying email `e`: the row `keep='first'` keeps. */
  function FirstWithEmail(rows: seq<RawCustomer>, e: string): RawCustomer
    requires e in EmailsOf(rows)
  {
    rows[FirstIndexWithEmail(rows, e)]
  }

  /** The first row with an email other than the head's is the first such row of the tail. */
  lemma FirstWithEmailInTail(rows: seq<RawCustomer>, e: string)
    requires |rows| > 0 && e != rows[0].email && e in EmailsOf(rows[1..])
    ensures e in EmailsOf(rows) && FirstWithEmail(rows, e) == FirstWithEmail(rows[1..], e)
  {
    var k :| 0 <= k < |rows[1..]| && rows[1..][k].email == e;
    assert rows[k + 1].email == e;
  }

  /** Keep-first deduplication of the rows whose email is not yet in `seen`. */
  function DropSeen(rows: seq<RawCustomer>, seen: set<string>): (r: seq<RawCustomer>)
    ensures |r| <= |rows|
    ensures IsSubsequence(r, rows)
    ensures forall k :: 0 <= k < |r| ==> r[k] in rows
    ensures EmailsOf(r) == EmailsOf(rows) - seen
    ensures DistinctEmails(r)
    ensures forall k :: 0 <= k < |r| ==> r[k].email !in seen && r[k] == FirstWithEmail(rows, r[k].email)
    decreases |rows|, 1
  {
    if |rows| == 0 then []
    else if rows[0].email in seen then SkipHead(rows, seen)
    else KeepHead(rows, seen)
  }

  /** `DropSeen` when the first row's email was seen before: the row is dropped. */
  function SkipHead(rows: seq<RawCustomer>, seen: set<string>): (r: seq<RawCustomer>)
    requires |rows| > 0 && rows[0].email in seen
    ensures |r| <= |rows|
    ensures IsSubsequence(r, rows)
    ensures forall k :: 0 <= k < |r| ==> r[k] in rows
    ensures EmailsOf(r) == EmailsOf(rows) - seen
    ensures DistinctEmails(r)
    ensures forall k :: 0 <= k < |r| ==> r[k].email !in seen && r[k] == FirstWithEmail(rows, r[k].email)
    decreases |rows|, 0
  {
    var rest := rows[1..];
    var r := DropSeen(rest, seen);
    assert EmailsOf(rows) == {rows[0].email} + EmailsOf(rest) by {
      assert rows == [rows[0]] + rest;
      EmailsOfCons(rows[0], rest);
    }
    assert forall k :: 0 <= k < |r| ==> r[k] == FirstWithEmail(rows, r[k].email) by {
      forall k | 0 <= k < |r| ensures r[k] == FirstWithEmail(rows, r[k].email) {
        assert r[k].email in EmailsOf(r);
        FirstWithEmailInTail(rows, r[k].email);
      }
    }
    assert forall k :: 0 <= k < |r| ==> r[k] in rows by {
      forall k | 0 <= k < |r| ensures r[k] in rows {
        assert r[k] in rest;
      }
    }
    r
  }

  /** `DropSeen` when the first row's email is new: the row is kept and its email marked seen. */
  function KeepHead(rows: seq<RawCustomer>, seen: set<string>): (r: seq<RawCustomer>)
    requires |rows| > 0 && rows[0].email !in seen
    ensures |r| <= |rows|
    ensures IsSubsequence(r, rows)
    ensures forall k :: 0 <= k < |r| ==> r[k] in rows
    ensures EmailsOf(r) == EmailsOf(rows) - seen
    ensures DistinctEmails(r)
    ensures forall k :: 0 <= k < |r| ==> r[k].email !in seen && r[k] == FirstWithEmail(rows, r[k].email)
    decreases |rows|, 0
  {
    var tail := DropSeen(rows[1..], seen + {rows[0].email});
    KeepHeadSpec(rows, seen, tail);
    [rows[0]] + tail
  }

  /** The properties of `DropSeen` for a kept first row, from those of the rest. */
  lemma KeepHeadSpec(rows: seq<RawCustomer>, seen: set<string>, tail: seq<RawCustomer>)
    requires |rows| > 0 && rows[0].email !in seen
    requires |tail| <= |rows[1..]|
    requires IsSubsequence(tail, rows[1..])
    requires forall k :: 0 <= k < |tail| ==> tail[k] in rows[1..]
    requires EmailsOf(tail) == EmailsOf(rows[1..]) - (seen + {rows[0].email})
    requires DistinctEmails(tail)
    requires forall k :: 0 <= k < |tail| ==>
      tail[k].email !in seen + {rows[0].email} && tail[k] == FirstWithEmail(rows[1..], tail[k].email)
    ensures |[rows[0]] + tail| <= |rows|
    ensures IsSubsequence([rows[0]] + tail, rows)
    ensures forall k :: 0 <= k < |[rows[0]] + tail| ==> ([rows[0]] + tail)[k] in rows
    ensures EmailsOf([rows[0]] + tail) == EmailsOf(rows) - seen
    ensures DistinctEmails([rows[0]] + tail)
    ensures forall k :: 0 <= k < |[rows[0]] + tail| ==>
      ([rows[0]] + tail)[k].email !in seen && ([rows[0]] + tail)[k] == FirstWithEmail(rows, ([rows[0]] + tail)[k].email)
  {
    var rest := rows[1..];
    var r := [rows[0]] + tail;
    assert EmailsOf(rows) == {rows[0].email} + EmailsOf(rest) by {
      assert rows == [rows[0]] + rest;
      EmailsOfCons(rows[0], rest);
    }
    EmailsOfCons(rows[0], tail);
    assert r[1..] == tail;
    assert forall k :: 0 <= k < |tail| ==> tail[k].email in EmailsOf(tail);
    FirstsAfterHead(rows, tail);
    KeepHeadDistinct(rows[0], tail);
    forall k | 0 <= k < |r| ensures r[k] in rows {
      if k > 0 {
        assert r[k] == tail[k - 1];
      }
    }
  }

  lemma KeepHeadDistinct(row: RawCustomer, tail: seq<RawCustomer>)
    requires DistinctEmails(tail)
    requires forall k :: 0 <= k < |tail| ==> tail[k].email != row.email
    ensures DistinctEmails([row] + tail)
  {
    var r := [row] + tail;
    forall i, j | 0 <= i < j < |r| ensures r[i].email != r[j].email {
      assert r[j] == tail[j - 1];
      if i > 0 {
        assert r[i] == tail[i - 1];
      }
    }
  }

  /** Rows that are first with their email in the tail, with an email other than the head's, are first in the whole table. */
  lemma FirstsAfterHead(rows: seq<RawCustomer>, tail: seq<RawCustomer>)
    requires |rows| > 0
    requires forall k :: 0 <= k < |tail| ==>
      tail[k].email != rows[0].email && tail[k].email in EmailsOf(rows[1..])
      && tail[k] == FirstWithEmail(rows[1..], tail[k].email)
    ensures forall k :: 0 <= k < |[rows[0]] + tail| ==>
      ([rows[0]] + tail)[k].email in EmailsOf(rows)
      && ([rows[0]] + tail)[k] == FirstWithEmail(rows, ([rows[0]] + tail)[k].email)
  {
    var r := [rows[0]] + tail;
    forall k | 0 <= k < |r| ensures r[k].email in EmailsOf(rows) && r[k] == FirstWithEmail(rows, r[k].email) {
      if k > 0 {
        assert r[k] == tail[k - 1];
        FirstWithEmailInTail(rows, r[k].email);
      }
    }
  }

  /** `drop_duplicates(subset='email', keep='first')`, on the emails as they arrive. */
  function DropDuplicateEmails(rows: seq<RawCustomer>): seq<RawCustomer>
  {
    DropSeen(rows, {})
  }

  function LowerEmail(row: RawCustomer): RawCustomer
  {
    row.(email := Lower(row.email))
  }

  /** `df['email'].str.lower()` written back into the email column. */
  function LowerEmails(rows: seq<RawCustomer>): (r: seq<RawCustomer>)
    ensures |r| == |rows|
    ensures forall k :: 0 <= k < |rows| ==> r[k] == LowerEmail(rows[k])
  {
    seq(|rows|, k requires 0 <= k < |rows| => LowerEmail(rows[k]))
  }

  lemma LowerEmailsCons(rows: seq<RawCustomer>)
    requires |rows| > 0
    ensures LowerEmails(rows) == [LowerEmail(rows[0])] + LowerEmails(rows[1..])
  {
  }

  predicate HasValidEmail(row: RawCustomer)
  {
    IsValidEmail(row.email)
  }

  /** The customer row built from a raw row and its parsed join date. */
  function WithJoinDate(row: RawCustomer, d: ValidDate): Customer
  {
    Customer(row.customerId, row.firstName, row.lastName, row.email, row.city, d)
  }

  /** `pd.to_datetime(df['join_date'])`: every date must parse, or the whole step fails. */
  function ParseJoinDates(rows: seq<RawCustomer>): (r: Result<seq<Customer>, CleanError>)
    ensures r.Success? <==> forall k :: 0 <= k < |rows| ==> Parse(rows[k].joinDate).Some?
    ensures r.Success? ==>
      |r.value| == |rows|
      && forall k :: 0 <= k < |rows| ==> r.value[k] == WithJoinDate(rows[k], Parse(rows[k].joinDate).value)
    ensures r.Failure? ==>
      exists k :: 0 <= k < |rows| && Parse(rows[k].joinDate).None?
                  && r.error == UnparseableJoinDate(rows[k].customerId, rows[k].joinDate)
  {
    if |rows| == 0 then Success([])
    else
      match Parse(rows[0].joinDate)
      case None => Failure(UnparseableJoinDate(rows[0].customerId, rows[0].joinDate))
      case Some(d) =>
        match ParseJoinDates(rows[1..])
        case Failure(e) =>
          assert forall k :: 1 <= k < |rows| ==> rows[1..][k - 1] == rows[k];
          Failure(e)
        case Success(rest) =>
          assert forall k :: 1 <= k < |rows| ==> rows[1..][k - 1] == rows[k];
          Success([WithJoinDate(rows[0], d)] + rest)
  }

  /**
   * `clean_customer_data`, step by step, with the email filter read as the
   * anchored pattern: the whole email must be in the pattern's language.
   * `CleanCustomersAsWritten` below keeps the one kind of email this rejects
   * and the source accepts, an address followed by a final newline.
   */
  function CleanCustomers(raw: seq<RawCustomer>): Result<seq<Customer>, CleanError>
  {
    var deduplicated := DropDuplicateEmails(raw);
    var lowered := LowerEmails(deduplicated);
    var wellFormed := Filter(lowered, HasValidEmail);
    ParseJoinDates(wellFormed)
  }

  // ---- What cleaning means, stated against the raw rows ----

  predicate HasValidLoweredEmail(row: RawCustomer)
  {
    IsValidEmail(Lower(row.email))
  }

  /** The raw rows that make it through: first of their raw email, and valid once lower-cased. */
  function Survivors(raw: seq<RawCustomer>): seq<RawCustomer>
  {
    Filter(DropDuplicateEmails(raw), HasValidLoweredEmail)
  }

  /** `c` is raw row `row` after cleaning. */
  predicate Cleaned(row: RawCustomer, c: Customer)
  {
    c.customerId == row.customerId && c.firstName == row.firstName && c.lastName == row.lastName
    && c.city == row.city && c.email == Lower(row.email) && Parse(row.joinDate) == Some(c.joinDate)
  }

  lemma {:induction false} FilterAfterLower(rows: seq<RawCustomer>)
    ensures Filter(LowerEmails(rows), HasValidEmail) == LowerEmails(Filter(rows, HasValidLoweredEmail))
    decreases |rows|
  {
    if |rows| > 0 {
      var lowered := LowerEmails(rows);
      LowerEmailsCons(rows);
      assert lowered[0] == LowerEmail(rows[0]) && lowered[1..] == LowerEmails(rows[1..]);
      FilterAfterLower(rows[1..]);
      var rest := Filter(rows[1..], HasValidLoweredEmail);
      if HasValidLoweredEmail(rows[0]) {
        LowerEmailsCons([rows[0]] + rest);
        assert ([rows[0]] + rest)[1..] == rest;
      }
    }
  }

  lemma {:induction false} SubsequenceKeepsDistinctEmails(xs: seq<RawCustomer>, ys: seq<RawCustomer>)
    requires IsSubsequence(xs, ys) && DistinctEmails(ys)
    ensures DistinctEmails(xs)
    decreases |ys|
  {
    if |xs| > 0 {
      assert DistinctEmails(ys[1..]) by {
        assert forall k :: 0 <= k < |ys| - 1 ==> ys[1..][k] == ys[k + 1];
      }
      if xs[0] == ys[0] && IsSubsequence(xs[1..], ys[1..]) {
        SubsequenceKeepsDistinctEmails(xs[1..], ys[1..]);
        SubsequenceMembers(xs[1..], ys[1..]);
        forall j | 1 <= j < |xs| ensures xs[0].email != xs[j].email {
          assert xs[j] == xs[1..][j - 1];
          var m :| 0 <= m < |ys[1..]| && ys[1..][m] == xs[j];
          assert ys[m + 1] == xs[j];
        }
      } else {
        SubsequenceKeepsDistinctEmails(xs, ys[1..]);
      }
    }
  }

  /**
   * The surviving raw rows keep their input order, carry pairwise distinct raw
   * emails, and are exactly the rows that are the first with their raw email
   * and whose lower-cased email fits the pattern.
   */
  lemma SurvivorsSpec(raw: seq<RawCustomer>)
    ensures IsSubsequence(Survivors(raw), raw)
    ensures DistinctEmails(Survivors(raw))
    ensures forall k :: 0 <= k < |Survivors(raw)| ==>
      var row := Survivors(raw)[k];
      row == FirstWithEmail(raw, row.email) && IsValidEmail(Lower(row.email))
    ensures forall k ::
      (0 <= k < |raw| && raw[k] == FirstWithEmail(raw, raw[k].email) && IsValidEmail(Lower(raw[k].email)))
      ==> raw[k] in Survivors(raw)
  {
    var deduplicated := DropDuplicateEmails(raw);
    var kept := Survivors(raw);
    SubsequenceTransitive(kept, deduplicated, raw);
    SubsequenceKeepsDistinctEmails(kept, deduplicated);
    forall k | 0 <= k < |raw| && raw[k] == FirstWithEmail(raw, raw[k].email)
                 && IsValidEmail(Lower(raw[k].email))
      ensures raw[k] in kept
    {
      assert raw[k].email in EmailsOf(deduplicated);
      var m :| 0 <= m < |deduplicated| && deduplicated[m].email == raw[k].email;
      assert deduplicated[m] == raw[k];
    }
  }

  /**
   * The cleaner fails exactly when a surviving row's join date does not parse;
   * otherwise its output is the surviving rows, in order, each cleaned.
   */
  lemma CleanCustomersCorrect(raw: seq<RawCustomer>)
    ensures CleanCustomers(raw).Success? <==>
      forall k :: 0 <= k < |Survivors(raw)| ==> Parse(Survivors(raw)[k].joinDate).Some?
    ensures CleanCustomers(raw).Success? ==>
      var out := CleanCustomers(raw).value;
      |out| == |Survivors(raw)| && forall k :: 0 <= k < |out| ==> Cleaned(Survivors(raw)[k], out[k])
    ensures CleanCustomers(raw).Failure? ==>
      exists k :: 0 <= k < |Survivors(raw)| && Parse(Survivors(raw)[k].joinDate).None?
                  && CleanCustomers(raw).error
                     == UnparseableJoinDate(Survivors(raw)[k].customerId, Survivors(raw)[k].joinDate)
  {
    CleanCustomersThroughSurvivors(raw);
    LoweredThenParsed(Survivors(raw));
  }

  /** Lower-casing the emails and then parsing the dates, stated row by row against the rows before lowering. */
  lemma LoweredThenParsed(kept: seq<RawCustomer>)
    ensures ParseJoinDates(LowerEmails(kept)).Success? <==>
      forall k :: 0 <= k < |kept| ==> Parse(kept[k].joinDate).Some?
    ensures ParseJoinDates(LowerEmails(kept)).Success? ==>
      var out := ParseJoinDates(LowerEmails(kept)).value;
      |out| == |kept| && forall k :: 0 <= k < |out| ==> Cleaned(kept[k], out[k])
    ensures ParseJoinDates(LowerEmails(kept)).Failure? ==>
      exists k :: 0 <= k < |kept| && Parse(kept[k].joinDate).None?
                  && ParseJoinDates(LowerEmails(kept)).error == UnparseableJoinDate(kept[k].customerId, kept[k].joinDate)
  {
    var lowered := LowerEmails(kept);
    var r := ParseJoinDates(lowered);
    assert forall k :: 0 <= k < |kept| ==>
      lowered[k].joinDate == kept[k].joinDate && lowered[k].customerId == kept[k].customerId;
    if r.Success? {
      forall k | 0 <= k < |r.value| ensures Cleaned(kept[k], r.value[k]) {
        assert r.value[k] == WithJoinDate(lowered[k], Parse(lowered[k].joinDate).value);
      }
    }
  }

  /** Deduplicate, then lower-case and filter, is lower-casing the survivors. */
  lemma CleanCustomersThroughSurvivors(raw: seq<RawCustomer>)
    ensures CleanCustomers(raw) == ParseJoinDates(LowerEmails(Survivors(raw)))
  {
    FilterAfterLower(DropDuplicateEmails(raw));
  }

  /** Every cleaned email is lower-case and in the language of the address pattern. */
  lemma CleanedEmailsWellFormed(raw: seq<RawCustomer>)
    requires CleanCustomers(raw).Success?
    ensures forall k :: 0 <= k < |CleanCustomers(raw).value| ==>
      IsLowerCase(CleanCustomers(raw).value[k].email) && MatchesPattern(CleanCustomers(raw).value[k].email)
  {
    var out := CleanCustomers(raw).value;
    var wellFormed := Filter(LowerEmails(DropDuplicateEmails(raw)), HasValidEmail);
    forall k | 0 <= k < |out| ensures IsLowerCase(out[k].email) && MatchesPattern(out[k].email) {
      assert out[k].email == wellFormed[k].email;
      assert HasValidEmail(wellFormed[k]);
      var m :| 0 <= m < |DropDuplicateEmails(raw)| && LowerEmails(DropDuplicateEmails(raw))[m] == wellFormed[k];
      ValidEmailMatchesPattern(out[k].email);
    }
  }

  // ---- Re-running the cleaner on its own output ----

  /** A cleaned table as it is written out and read back: the join date becomes `YYYY-MM-DD` text again. */
  function ToRaw(out: seq<Customer>): (rows: seq<RawCustomer>)
    ensures |rows| == |out|
    ensures forall k :: 0 <= k < |out| ==>
      rows[k] == RawCustomer(out[k].customerId, out[k].firstName, out[k].lastName,
                             out[k].email, out[k].city, Format(out[k].joinDate))
  {
    seq(|out|, k requires 0 <= k < |out| =>
      RawCustomer(out[k].customerId, out[k].firstName, out[k].lastName,
                  out[k].email, out[k].city, Format(out[k].joinDate)))
  }

  predicate DistinctCustomerEmails(out: seq<Customer>)
  {
    forall i, j :: 0 <= i < j < |out| ==> out[i].email != out[j].email
  }

  lemma {:induction false} DropSeenKeepsDistinct(rows: seq<RawCustomer>, seen: set<string>)
    requires DistinctEmails(rows)
    requires forall k :: 0 <= k < |rows| ==> rows[k].email !in seen
    ensures DropSeen(rows, seen) == rows
    decreases |rows|
  {
    if |rows| > 0 {
      var rest := rows[1..];
      assert forall k :: 0 <= k < |rest| ==> rest[k] == rows[k + 1];
      DropSeenKeepsDistinct(rest, seen + {rows[0].email});
    }
  }

  /** A repeated email, or one already seen, makes deduplication drop a row. */
  lemma {:induction false} DropSeenShrinks(rows: seq<RawCustomer>, seen: set<string>)
    requires !DistinctEmails(rows) || exists k :: 0 <= k < |rows| && rows[k].email in seen
    ensures |DropSeen(rows, seen)| < |rows|
    decreases |rows|
  {
    var rest := rows[1..];
    assert forall k :: 0 <= k < |rest| ==> rest[k] == rows[k + 1];
    if rows[0].email !in seen {
      var seen' := seen + {rows[0].email};
      if DistinctEmails(rest) {
        if exists k :: 0 <= k < |rows| && rows[k].email in seen {
          var k :| 0 <= k < |rows| && rows[k].email in seen;
          assert rest[k - 1].email in seen';
        } else {
          var i, j :| 0 <= i < j < |rows| && rows[i].email == rows[j].email;
          if i == 0 {
            assert rest[j - 1].email in seen';
          }
        }
      }
      DropSeenShrinks(rest, seen');
    }
  }

  /**
   * Cleaning its own output (dates written back as `YYYY-MM-DD`) gives the same
   * table back exactly when no two cleaned emails are equal: dedup runs on the
   * raw emails, so two that differed only in letter case both survive the first
   * run and collide in the second.
   */
  lemma CleanIdempotentIffEmailsDistinct(raw: seq<RawCustomer>)
    requires CleanCustomers(raw).Success?
    ensures var out := CleanCustomers(raw).value;
      CleanCustomers(ToRaw(out)) == Success(out) <==> DistinctCustomerEmails(out)
  {
    var out := CleanCustomers(raw).value;
    if DistinctCustomerEmails(out) {
      CleanedEmailsWellFormed(raw);
      CleanCustomersOfCleaned(out);
    } else {
      CleanCustomersOfRepeated(out);
    }
  }

  /** A table with distinct, lower-case, well-formed emails is a fixed point of the cleaner. */
  lemma CleanCustomersOfCleaned(out: seq<Customer>)
    requires forall k :: 0 <= k < |out| ==> IsLowerCase(out[k].email) && MatchesPattern(out[k].email)
    requires DistinctCustomerEmails(out)
    ensures CleanCustomers(ToRaw(out)) == Success(out)
  {
    var rows := ToRaw(out);
    DropSeenKeepsDistinct(rows, {});
    forall k | 0 <= k < |rows| ensures LowerEmail(rows[k]) == rows[k] && HasValidEmail(rows[k]) {
      LowerOfLowerCase(rows[k].email);
      ValidEmailMatchesPattern(rows[k].email);
    }
    assert LowerEmails(rows) == rows;
    FilterAll(rows, HasValidEmail);
    ReparseJoinDates(out);
  }

  /** The join dates written back as text parse to the dates they came from. */
  lemma ReparseJoinDates(out: seq<Customer>)
    ensures ParseJoinDates(ToRaw(out)) == Success(out)
  {
    var rows := ToRaw(out);
    forall k | 0 <= k < |rows| ensures Parse(rows[k].joinDate) == Some(out[k].joinDate) {
      ParseFormat(out[k].joinDate);
    }
    assert ParseJoinDates(rows).value == out;
  }

  /** A table with a repeated email loses a row when cleaned again. */
  lemma CleanCustomersOfRepeated(out: seq<Customer>)
    requires !DistinctCustomerEmails(out)
    ensures CleanCustomers(ToRaw(out)) != Success(out)
  {
    var rows := ToRaw(out);
    assert !DistinctEmails(rows);
    DropSeenShrinks(rows, {});
  }

  /**
   * Two emails that differ only in letter case are different raw emails, so
   * both rows survive deduplication and leave the cleaner with equal emails.
   */
  lemma CaseVariantsBothSurvive(raw: seq<RawCustomer>, d1: ValidDate, d2: ValidDate)
    requires raw == [
      RawCustomer("CUST_00001", "John", "Smith", "A@x.com", "Chicago", Format(d1)),
      RawCustomer("CUST_00002", "Jane", "Brown", "a@x.com", "Houston", Format(d2))]
    ensures CleanCustomers(raw) == Success([
      Customer("CUST_00001", "John", "Smith", "a@x.com", "Chicago", d1),
      Customer("CUST_00002", "Jane", "Brown", "a@x.com", "Houston", d2)])
  {
    var lowered := [raw[0].(email := "a@x.com"), raw[1].(email := "a@x.com")];
    ExampleDeduplicationAndLowering(raw, lowered);
    ExampleParsing(lowered, d1, d2);
  }

  lemma ExampleDeduplicationAndLowering(raw: seq<RawCustomer>, lowered: seq<RawCustomer>)
    requires |raw| == 2 && raw[0].email == "A@x.com" && raw[1].email == "a@x.com"
    requires lowered == [raw[0].(email := "a@x.com"), raw[1].(email := "a@x.com")]
    ensures Filter(LowerEmails(DropDuplicateEmails(raw)), HasValidEmail) == lowered
  {
    assert "A@x.com"[0] != "a@x.com"[0];
    assert DistinctEmails(raw);
    DropSeenKeepsDistinct(raw, {});
    ExampleEmails();
    assert LowerEmails(raw) == lowered;
    FilterAll(lowered, HasValidEmail);
  }

  lemma ExampleParsing(lowered: seq<RawCustomer>, d1: ValidDate, d2: ValidDate)
    requires lowered == [
      RawCustomer("CUST_00001", "John", "Smith", "a@x.com", "Chicago", Format(d1)),
      RawCustomer("CUST_00002", "Jane", "Brown", "a@x.com", "Houston", Format(d2))]
    ensures ParseJoinDates(lowered) == Success([
      Customer("CUST_00001", "John", "Smith", "a@x.com", "Chicago", d1),
      Customer("CUST_00002", "Jane", "Brown", "a@x.com", "Houston", d2)])
  {
    ParseFormat(d1);
    ParseFormat(d2);
    var out := ParseJoinDates(lowered).value;
    assert out == [out[0], out[1]];
  }

  lemma ExampleEmails()
    ensures Lower("A@x.com") == "a@x.com" && Lower("a@x.com") == "a@x.com"
    ensures IsValidEmail("a@x.com")
  {
    ExampleLower();
    ExampleValid();
  }

  lemma ExampleLower()
    ensures Lower("A@x.com") == "a@x.com" && Lower("a@x.com") == "a@x.com"
  {
    var t := "a@x.com";
    assert Lower("A@x.com")[0] == 'a';
    assert forall k :: 1 <= k < 7 ==> Lower("A@x.com")[k] == t[k];
    LowerOfLowerCase(t);
  }

  lemma ExampleValid()
    ensures IsValidEmail("a@x.com")
  {
    var t := "a@x.com";
    assert t[1] == '@' && t[3] == '.';
    assert AddressCharsIn(t, 0, 1) && AddressCharsIn(t, 2, 3) && WordCharsIn(t, 4, |t|);
    PatternIsValidEmail(t);
  }

  // ---- The email filter as the source applies it ----

  predicate HasEmailAsWritten(row: RawCustomer)
  {
    MatchesAsWritten(row.email)
  }

  /**
   * `clean_customer_data` with the email filter exactly as written:
   * `str.contains` searches with `re.search`, whose `$` also matches just
   * before a final newline.
   */
  function CleanCustomersAsWritten(raw: seq<RawCustomer>): Result<seq<Customer>, CleanError>
  {
    var lowered := LowerEmails(DropDuplicateEmails(raw));
    ParseJoinDates(Filter(lowered, HasEmailAsWritten))
  }

  /** The two cleaners agree on every table in which no email ends with a newline. */
  lemma AsWrittenAgreesWithoutTrailingNewline(raw: seq<RawCustomer>)
    requires forall k :: 0 <= k < |raw| ==> !EndsWithNewline(raw[k].email)
    ensures CleanCustomersAsWritten(raw) == CleanCustomers(raw)
  {
    var deduplicated := DropDuplicateEmails(raw);
    var lowered := LowerEmails(deduplicated);
    forall k | 0 <= k < |lowered| ensures HasEmailAsWritten(lowered[k]) == HasValidEmail(lowered[k]) {
      assert deduplicated[k] in raw;
      LowerKeepsNewlineEnding(deduplicated[k].email);
    }
    FilterCongruent(lowered, HasEmailAsWritten, HasValidEmail);
  }

  /** Lower-casing never adds or removes a final newline. */
  lemma LowerKeepsNewlineEnding(s: string)
    ensures EndsWithNewline(Lower(s)) == EndsWithNewline(s)
  {
    if |s| > 0 {
      assert Lower(s)[|s| - 1] == ToLower(s[|s| - 1]);
    }
  }

  /**
   * A row whose email is an address followed by a newline is kept by the
   * cleaner as written and dropped by the corrected one.
   */
  lemma AsWrittenKeepsTrailingNewline(raw: seq<RawCustomer>, d: ValidDate)
    requires raw == [RawCustomer("C1", "J", "S", "a@b.co\n", "X", Format(d))]
    ensures CleanCustomersAsWritten(raw) == Success([Customer("C1", "J", "S", "a@b.co\n", "X", d)])
    ensures CleanCustomers(raw) == Success([])
  {
    var row := raw[0];
    SingleRowLowered(raw);
    TrailingNewlineAccepted();
    ValidEmailMatchesPattern(row.email);
    assert HasEmailAsWritten(row) && !HasValidEmail(row);
    FilterAll(raw, HasEmailAsWritten);
    assert Filter(raw, HasValidEmail) == [] by {
      assert raw[1..] == [];
    }
    SingleRowParsed(row, d);
  }

  /** A one-row table with a lower-case email passes deduplication and lower-casing unchanged. */
  lemma SingleRowLowered(raw: seq<RawCustomer>)
    requires |raw| == 1 && IsLowerCase(raw[0].email)
    ensures LowerEmails(DropDuplicateEmails(raw)) == raw
  {
    DropSeenKeepsDistinct(raw, {});
    LowerOfLowerCase(raw[0].email);
    assert LowerEmails(raw)[0] == raw[0];
  }

  /** A single row with a formatted join date parses to that date. */
  lemma SingleRowParsed(row: RawCustomer, d: ValidDate)
    requires row.joinDate == Format(d)
    ensures ParseJoinDates([row]) == Success([WithJoinDate(row, d)])
  {
    ParseFormat(d);
    var r := ParseJoinDates([row]);
    assert r.Success? && |r.value| == 1 && r.value[0] == WithJoinDate(row, d);
    assert r.value == [WithJoinDate(row, d)];
  }
}
