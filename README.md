# Grocery data pipeline: the cleaning and aggregation core

This project is a Dafny model of the three table transforms in `data_pipeline.py`.

- **`clean_customer_data`**
  - Drops rows whose email is an exact repeat of an earlier row's.
  - Lower-cases the emails.
  - Keeps the rows whose email fits `^[\w\.-]+@[\w\.-]+\.\w+$`.
  - Parses the join dates.
- **`clean_purchase_data`**
  - Keeps the rows with positive quantity and price.
  - Parses the purchase dates.
  - Adds `total_amount = quantity * price`.
- **`transform_data`**
  - Left-merges the purchases with the customers on `customer_id`.
  - Groups the merged rows by `customer_id`, taking:
    - the sum and count of `total_amount`;
    - the latest `purchase_date`;
    - the first `city`.
  - Inner-merges the groups with the customers' join dates.
  - Counts `tenure_days` up to 2025-06-27.

A table is a `seq` of row datatypes. Each transform is a pure function over such tables, built from the same steps the pandas code takes. A row filter is `Tables.Filter`. A column map is a sequence comprehension. The merges and the group-by are recursive functions.

Dates are modelled as follows:

- A date is `(year, month, day)` with years 1 to 9999.
- The text form is `YYYY-MM-DD`: the `full-date` of section 5.6 of RFC 3339, as written by `strftime('%Y-%m-%d')`.
- Tenure is a difference of proleptic-Gregorian day numbers.

A step that pandas would abort returns a `Result` failure naming the offending row. That happens when `pd.to_datetime` meets text it cannot read.

The files are:

- `wrappers.dfy`: `Option` and `Result`.
- `tables.dfy`: row selection and subsequences.
- `dates.dfy`: the calendar, day numbers, and the text form with its round trip.
- `emails.dfy`: the address pattern as a predicate, its regex-free characterisation, and ASCII lower-casing.
- `customers.dfy`: `clean_customer_data`.
- `purchases.dfy`: `clean_purchase_data`.
- `keyorder.dfy`: Python's `str` order and the sorted distinct keys `groupby` emits.
- `aggregator.dfy`: `transform_data`.

**Deduplication is case-sensitive.** The comment at data_pipeline.py:54 says only that duplicate emails are removed, and one might expect `A@x.com` and `a@x.com` to count as duplicates. The code instead:

1. calls `drop_duplicates(subset='email')` on the raw emails;
2. lower-cases them only afterwards.

So it drops only byte-identical emails. The model follows the code: `CustomerCleaner.CaseVariantsBothSurvive` shows both rows of that example surviving with equal emails. Re-running the cleaner on its own output is therefore idempotent only when the cleaned emails are pairwise distinct. `CustomerCleaner.CleanIdempotentIffEmailsDistinct` proves that.

**Repeated customer ids.** The left merge repeats a purchase once per customer row with its id, and the cleaner does not make ids unique. The model keeps this multiplication:

- In general, a summary row's count and sum are the key's purchase count and total, scaled by the number of customer rows with that key.
- When customer ids are unique, a summary row carries the plain count and sum, and there is exactly one row per key, in ascending key order.

## Model

| member | source | states |
|---|---|---|
| Tables.Filter | data_pipeline.py:59 | A boolean-mask selection keeps exactly the rows that satisfy the mask, each as many times as it occurs in the input. The kept rows come out in their input order, as a subsequence. |
| Dates.NextDayIsOneMore | data_pipeline.py:98 | Consecutive calendar days have consecutive day numbers. This holds across month, year and leap-day boundaries. |
| Dates.DayNumberOrder | data_pipeline.py:98 | Day numbers are strictly increasing in calendar order, and two dates have the same number exactly when they are equal. |
| Dates.ParseFormat | data_pipeline.py:31 | Parsing the `strftime('%Y-%m-%d')` text of any date gives that date back. |
| Dates.FormatParse | data_pipeline.py:62 | Any text the strict parser accepts is exactly the formatted text of the date it yields. |
| Emails.ValidEmailMatchesPattern | data_pipeline.py:59 | The scanning check accepts an email if and only if the email is in the language of the pattern. That means: a non-empty local part over `[A-Za-z0-9_.-]`, an `@`, a domain over the same characters whose last `.` is followed by one or more word characters, and no second `@`. |
| Emails.Lower | data_pipeline.py:58 | Lower-casing keeps the length, maps each character through ASCII `lower`, and always yields a lower-case string. |
| Emails.LowerOfLowerCase | data_pipeline.py:58 | Lower-casing an already lower-case string leaves it unchanged. |
| Emails.LowerKeepsValidity | data_pipeline.py:58-59 | An email fits the pattern if and only if its lower-cased form does, so lowering never changes which rows the filter keeps. |
| Emails.TrailingNewlineAccepted | data_pipeline.py:59 | The pattern as written, where `$` also matches before a final newline, accepts `"a@b.co\n"`. That string is not in the pattern's language. |
| CustomerCleaner.FirstIndexWithEmail | data_pipeline.py:55 | Returns the index of the first row that carries a given raw email. |
| CustomerCleaner.DropSeen | data_pipeline.py:55 | Keep-first deduplication keeps rows in input order with pairwise distinct raw emails. It loses no email, and each kept row is the first row with its email. |
| CustomerCleaner.ParseJoinDates | data_pipeline.py:62 | Succeeds exactly when every join date parses. Each output row is its input row with the parsed date and every other field unchanged. On failure, the error names a row whose date does not parse. |
| CustomerCleaner.FilterAfterLower | data_pipeline.py:58-59 | Lowering every email and then filtering on the lowered emails equals filtering on the lowered emails first and then lowering. |
| CustomerCleaner.SurvivorsSpec | data_pipeline.py:55-59 | With the email filter read as the anchored pattern, the rows that survive deduplication and the email filter are a subsequence of the input with pairwise distinct raw emails. They are exactly the raw rows that are the first with their raw email and whose lower-cased email fits the pattern. |
| CustomerCleaner.CleanCustomersCorrect | data_pipeline.py:52-64 | The cleaner, with the email filter read as the anchored pattern, succeeds exactly when every surviving row's join date parses. Its output is then the surviving rows in order, each with a lower-cased email and a parsed date and all other fields unchanged. Otherwise the error names a surviving row whose date does not parse. |
| CustomerCleaner.CleanedEmailsWellFormed | data_pipeline.py:58-59 | With the email filter read as the anchored pattern, every cleaned email is lower-case and in the pattern's language. |
| CustomerCleaner.LowerKeepsNewlineEnding | data_pipeline.py:58 | Lower-casing never adds or removes a final newline. |
| CustomerCleaner.AsWrittenAgreesWithoutTrailingNewline | data_pipeline.py:52-64 | On every table in which no email ends with a newline, the cleaner with the filter as written (`re.search`) gives the same result as the cleaner with the anchored filter. |
| CustomerCleaner.AsWrittenKeepsTrailingNewline | data_pipeline.py:52-64 | A row with email `"a@b.co\n"` and any valid join date is kept by the cleaner as written, and dropped by the cleaner with the anchored filter. |
| CustomerCleaner.DropSeenKeepsDistinct | data_pipeline.py:55 | Deduplicating a table whose emails are already distinct leaves it unchanged. |
| CustomerCleaner.DropSeenShrinks | data_pipeline.py:55 | Deduplicating a table with a repeated email drops at least one row. |
| CustomerCleaner.CleanIdempotentIffEmailsDistinct | data_pipeline.py:55-59 | Re-running the cleaner on its own output gives that output back if and only if the cleaned emails are pairwise distinct. |
| CustomerCleaner.CaseVariantsBothSurvive | data_pipeline.py:55-62 | Two rows with emails `A@x.com` and `a@x.com` and any valid join dates both survive cleaning. Both come out with the email `a@x.com` and their own parsed dates. |
| CustomerCleaner.CleanCustomersOfCleaned | data_pipeline.py:55-62 | A table with lower-case, pattern-conforming, pairwise distinct emails comes back unchanged from the cleaner once its dates are written back as text. |
| CustomerCleaner.CleanCustomersOfRepeated | data_pipeline.py:55 | A table in which two rows share an email does not come back unchanged from the cleaner. |
| PurchaseCleaner.ParsePurchaseDates | data_pipeline.py:72 | Succeeds exactly when every purchase date parses. Each output row is its input row with the parsed date. On failure, the error names a row whose date does not parse. |
| PurchaseCleaner.CleanPurchasesCorrect | data_pipeline.py:66-77 | The cleaner succeeds exactly when every row with positive quantity and price has a readable date. Its output is then exactly those rows, in input order, each with its parsed date, `total_amount = quantity * price`, and all other fields unchanged. Otherwise the error names such a row whose date does not parse. |
| PurchaseCleaner.CleanedPurchasesPositive | data_pipeline.py:69-75 | Every cleaned purchase has positive quantity and price, and a positive total equal to their product. |
| PurchaseCleaner.CleanPurchasesOfCleaned | data_pipeline.py:69-75 | A table with positive quantities and prices, and totals equal to their products, comes back unchanged from the cleaner once its dates are written back as text. |
| PurchaseCleaner.CleanPurchasesIdempotent | data_pipeline.py:69-75 | Cleaning the cleaned table again, with dates written back as text, gives the same result. |
| KeyOrder.StrLessIrreflexive | data_pipeline.py:85 | No key sorts before itself. |
| KeyOrder.StrLessTransitive | data_pipeline.py:85 | The key order is transitive. |
| KeyOrder.StrLessTotal | data_pipeline.py:85 | Any two distinct keys are ordered one way or the other. |
| KeyOrder.InsertKey | data_pipeline.py:85 | Inserting a key into an ascending key list keeps the list strictly ascending. It adds the new key and no other. |
| KeyOrder.SortedKeys | data_pipeline.py:85 | The group keys are strictly ascending and are exactly the keys present in the column. |
| Aggregator.CustomersWithIdSpec | data_pipeline.py:82 | The customer rows matching a key are exactly the customer rows with that key. There is at least one exactly when the key occurs among the customers. |
| Aggregator.MergeOneRows | data_pipeline.py:82 | A single purchase merges either with each customer row sharing its key, or, when there is none, with no customer. |
| Aggregator.LeftMergeRows | data_pipeline.py:82 | Every merged row is a purchase of the input with either a customer row sharing its key, or no customer when none exists. Each purchase appears with every matching customer, or alone when it has none. |
| Aggregator.MergedIdsArePurchaseIds | data_pipeline.py:82 | The keys of the merged table are exactly the purchases' keys. |
| Aggregator.RowsOfLeftMerge | data_pipeline.py:82-85 | The merged rows of one key are the left merge of just that key's purchases. |
| Aggregator.MergeOneSize | data_pipeline.py:82 | One purchase becomes as many merged rows as there are customer rows with its key, or one row when there are none. Their totals add up accordingly. |
| Aggregator.MergedGroupSize | data_pipeline.py:82-86 | For purchases sharing one key, the merged row count is their count times that key's multiplicity, and the merged sum of `total_amount` is their total times that multiplicity. The multiplicity is the number of customer rows with the key, or one when there are none. |
| Aggregator.LatestDate | data_pipeline.py:87 | The `max` of a group's dates is one of those dates, and no date in the group is later. |
| Aggregator.MergedLatest | data_pipeline.py:87 | The latest date of a key's merged rows is the latest date of its purchases. |
| Aggregator.MergedFirstCity | data_pipeline.py:88 | The `first` city of a key's rows is the city of the first customer row with that key. When no customer row has the key, the city is absent. |
| Aggregator.GroupBy | data_pipeline.py:85-91 | The group keys are strictly ascending, so each key occurs once, and they are exactly the keys of the merge. Each group row is the aggregate of the merged rows carrying its own key. |
| Aggregator.GroupValues | data_pipeline.py:85-91 | For each key, the group row carries: the key; count and sum equal to the key's purchase count and total, times the multiplicity; the latest of its purchase dates; and the first matching customer's city. |
| Aggregator.InnerMergeOrigin | data_pipeline.py:94-97 | Every row of the inner merge is a group joined with a customer row sharing its key. |
| Aggregator.InnerMergeIds | data_pipeline.py:94-97 | A group's key reaches the summary exactly when some customer row has that key. |
| Aggregator.UniqueIdsAtMostOne | data_pipeline.py:94-97 | With one row per customer id, any key matches at most one customer row. |
| Aggregator.InnerMergeAscending | data_pipeline.py:94-97 | With unique customer ids, the inner merge keeps the groups' strictly ascending key order. |
| Aggregator.RowOrigin | data_pipeline.py:82-97 | Every summary row is the aggregate of one purchase key joined with a customer row of that key. |
| Aggregator.SummaryKeys | data_pipeline.py:82-97 | A customer id appears in the summary exactly when it has both a purchase and a customer row. With unique customer ids, the summary ids are strictly ascending, so each id appears once. |
| Aggregator.UnmatchedPurchaseDropped | data_pipeline.py:82-97 | The left merge keeps a purchase whose customer id has no customer row, but the summary has no row for that id. |
| Aggregator.CustomerWithoutPurchasesDropped | data_pipeline.py:82-97 | A customer whose id has no purchase gets no summary row. |
| Aggregator.SummaryRowValues | data_pipeline.py:79-100 | Let `ps` be a summary row's purchases and `cs` its customer rows. Both are non-empty, and the row has: count `\|cs\|*\|ps\|`; sum `\|cs\|` times the total of `ps`; the latest date of `ps`; the city of `cs[0]`; a join date taken from a row of `cs`; and tenure measured from that join date. |
| Aggregator.RowOfUniqueCustomer | data_pipeline.py:94-98 | With unique customer ids, a summary row's scaled count and sum reduce to its key's plain count and total. Its city and join date are those of the one matching customer. |
| Aggregator.SummaryRowOfCustomer | data_pipeline.py:79-100 | With unique customer ids, every summary row has: `purchase_count` equal to its key's number of purchases; `total_spent` equal to their summed totals; `last_purchase` equal to their latest date; and the city, join date and tenure of the matching customer. |
| Aggregator.TenureSign | data_pipeline.py:98 | Tenure is positive for join dates before 2025-06-27, zero on that date, and negative after it. The code does not guard against negative tenure. |
| Aggregator.TenureOfNextDay | data_pipeline.py:98 | Joining one day later shortens tenure by exactly one day. |
| Aggregator.TenureExample | data_pipeline.py:98 | A customer who joined on 2020-06-01 has 1852 days of tenure. |

## Left out

- Mock data generation (data_pipeline.py:15-50) is not modelled. It is random sampling that produces the input tables; the model takes those tables as parameters.
- Seeding of the random number generators (data_pipeline.py:8-9) is not modelled. It only affects the generated data.
- Creating the output directory and writing CSV files (data_pipeline.py:11-13, 102-104) is filesystem I/O.
- `main` and its console messages (data_pipeline.py:106-128) only chain the three transforms.
- Prices are whole cents in the model. Floating-point prices, their rounding, and the float product `quantity * price` are not modelled.
- `\w` and `str.lower` are modelled on ASCII only. Python's Unicode word characters and Unicode case mapping are not.
- pandas `NaN` handling is not modelled:
  - every field is present;
  - `first` skipping missing cities does not arise, because all merged rows of one key either all have a customer or all do not.
- `pd.to_datetime` is modelled as a strict `YYYY-MM-DD` parse that aborts the step on the first unreadable row. Its lenient guessing of other formats, and the exact exception it raises, are not modelled.
- Dates are limited to years 1 to 9999. The narrower range of pandas nanosecond timestamps (1677 to 2262) is not modelled.
- Formatting pads years below 1000 to four digits. Some C libraries print such years with fewer digits for `%Y`; that case is not modelled.
- Timestamps are treated as whole days. Times of day do not arise, since every date is parsed from a `YYYY-MM-DD` string.
- CustomerCleaner.CleanCustomers: filters emails with the anchored reading of the pattern, not with `re.search` as data_pipeline.py:59 does, so it drops an address followed by a final newline that the source keeps (see "## Findings"). The rows for CustomerCleaner.SurvivorsSpec, CustomerCleaner.CleanCustomersCorrect, CustomerCleaner.CleanedEmailsWellFormed, CustomerCleaner.CleanIdempotentIffEmailsDistinct and the transform built on them describe that corrected cleaner. The cleaner as written is CustomerCleaner.CleanCustomersAsWritten; it differs only on emails that end with a newline.
- Aggregator.SummaryKeys: the ascending order of summary rows is stated only for unique customer ids. With repeated ids, the summary repeats a key's row once per customer row, and the order of those repeats is not stated.
- Aggregator.SummaryRowValues: with repeated customer ids, it states that the join date comes from one of the key's customer rows, not which summary row gets which customer row.

## Findings

| source | as written | input that shows it | evidently intended | confidence | as-written member | corrected member |
|---|---|---|---|---|---|---|
| data_pipeline.py:59 | `str.contains` with a pattern ending in `$`. In Python, `$` also matches just before a trailing newline, so an email ending in `"\n"` passes the filter. | `"a@b.co\n"` | Reject emails that do not end with a word character, as the anchored pattern suggests. | not executed | Emails.TrailingNewlineAccepted | Emails.ValidEmailMatchesPattern |

`Emails.MatchesAsWritten` models the filter as written, and `Emails.TrailingNewlineAccepted` exhibits the input. `CustomerCleaner.CleanCustomersAsWritten` is the whole cleaner with that filter: `CustomerCleaner.AsWrittenKeepsTrailingNewline` shows it keeping the row the corrected cleaner drops, and `CustomerCleaner.AsWrittenAgreesWithoutTrailingNewline` shows the two agree on every other table. The cleaner uses the corrected check `Emails.IsValidEmail`, which `Emails.ValidEmailMatchesPattern` proves equal to the pattern's language.
