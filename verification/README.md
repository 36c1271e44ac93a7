# SudoSOS: verified models of the core logic

This project models the parts of the SudoSOS back end in which a small mistake costs money, loses data or locks
people out, and proves what those parts promise. Each module follows one or two source files. Code that changes
things step by step (validation traces, the parameter scan, the loops over rows, lines and permissions, the
request handlers) is imperative Dafny, proved against a pure function; what the source promises is then proved
about that function for all inputs, or for all sequences of requests.

| file | contents |
|---|---|
| `Validation.dfy` | the recursive validator with its mutable trace objects, array rules, specification factories, the async validator middleware |
| `DecimalText.dfy`, `Calendar.dfy`, `Timestamps.dfy` | numerals and padding, Gregorian fields of time values (section 21.4.1 of ECMA-262), date printing and parsing |
| `DateRange.dfy` | the date filters on printed dates and what they select |
| `QueryFilter.dfy` | the compiler from dotted-path filter mappings to nested where trees |
| `SellerPayouts.dfy` | the payout handlers on top of the filters: windows of a seller never overlap |
| `SqlParams.dfy` | named to positional SQL parameters |
| `HtmlEscape.dfy` | the five replacements of HTML escaping |
| `JsMap.dfy`, `Reports.dfy` | JavaScript's ordered Map; grouping and reducing transaction rows into reports |
| `Receipt.dfy` | rounded running totals and the VAT table of a receipt |
| `Tokens.dfy` | token lifetime and refresh (sections 4.1.4 to 4.1.6 of RFC 7519) |
| `Rbac.dfy` | roles, permissions and the duplicate check |
| `Common.dfy` | options, distinct sequences |

`dafny verify dfyconfig.toml` checks everything.

## Where a promise does not hold everywhere

The code is kept as it is; for each case the project gives inputs that show the failure and the exact condition
under which the promise holds.

- **Dates outside the years 0 to 9999.** `toJSON` then prints a signed six-digit year, and slicing to 19
  characters cuts off the seconds. `RoundTrip`, `OutsideCollisions`, `PrintedOnce` and `NoParserUndoes` say exactly
  which instants survive printing; `FilterExactIff` says that the overlap filter misses nothing, and reports nothing
  wrongly, on a range of years exactly when the range lies in 0 to 9999. For whole runs of payout requests the
  condition is the same: `KeptApartIff` proves that the windows of a seller stay apart in every run exactly when no
  start date is before the year 0 and no clock is after the year 9999. A caller can check both before the request.
- **Two filters under one relation.** A mapping with two paths that share their first segment silently drops the
  first filter (`SharedSegmentDropsFilter`); the product mapping has `category.id` and `category.name`
  (backend/src/service/product-service.ts:378-379), where it is latent because the request parser leaves the second
  parameter out (line 141). `MeaningPreservedExactly` gives the condition: every overwritten
  parameter must be implied by the one that replaced it.
- **SQL that already contains a question mark.** `MeaningPreserved` is an equivalence: filling the marks gives the
  intended statement exactly when the input has no `?`.
- **One specification object for two failing requests.** The second message repeats text
  (`ReuseRepeatsText` gives an example). `ValidateTwice` states when it does not: the two failing paths share no
  trace, or the first message and all texts from the outermost shared trace on down were empty. The factories of the
  registry avoid this.
- **Permissions that differ only in their attributes.** `findPermission` (backend/src/service/rbac-service.ts:52-57)
  compares attributes too, but the table identifies a row by role, entity, action and relation. A batch with an
  existing triple and other attributes therefore passes the duplicate check and overwrites the stored row
  (`OtherAttributesOverwrite`), although the error text speaks of permissions that already exist.
  `PurelyAddedIff` and `OverwritesNothingIff` give the exact condition under which an accepted batch is only added,
  and `StaysIff` says how long a stored permission keeps its attributes.
- **The error bound of a receipt line.** The bound holds for every line (`LineError`), but not every rate attains it:
  `WholeRateAttainsIff` gives the rates that do, and at 0% half a cent is enough (`NoVatLineError`).
- **Refresh factor 1.0.** The middleware documents that 1.0 or higher prevents refreshing
  (backend/src/middleware/token-middleware.ts:46-50). The clock is rounded to the nearest second there and rounded
  down by the verifier, so at 1.0 a token is refreshed in its last half second. `NeverRefreshedIff`: refreshing
  never happens exactly when the factor exceeds 1.0.

## Modelling choices

- Requests are handled one at a time. The clock, the user table, fresh identifiers and sales are parameters of a
  request.
- A validation rule is a pure predicate that holds, fails with a message, or throws. How a target is read
  (properties, array elements) is a parameter, so the results hold for every kind of target.
- Stored dates are the texts that `toUTCMySQLString` prints, the SQLite configuration, compared character by
  character.
- Filter values are texts. SQL `LIKE` is modelled with both wildcards and compares characters exactly.
- Saving permissions follows the table definition (backend/src/entity/rbac/permission.ts): a present key is
  updated, an absent one inserted, two inserts with one key roll the batch back.
- Money: exact reals for prices, rates and amounts excluding VAT; whole cents for everything that has been rounded
  or is stored in cents.
- A token is its claims and a flag for a genuine signature.

## Model

| member | source | states |
|---|---|---|
| `Validation.ValidationError.Join` | backend/src/helpers/specification-validation.ts:47-54 | the receiver takes the other message behind its own, or instead of an empty one, and is returned |
| `Validation.ValidateSpecification` | backend/src/helpers/specification-validation.ts:96-117 | passes with the unchanged target, reports the joined failure or throws, exactly as the pure verdict says; only traces on the failing path change, and only on failure |
| `Validation.ValidateOne` | backend/src/helpers/specification-validation.ts:99-114 | the same for one entry of the specification |
| `Validation.ValidateSub` | backend/src/helpers/specification-validation.ts:100-108 | recursion into a property: a missing target throws, a failure is joined to the trace of the property |
| `Validation.ArrayTest` | backend/src/helpers/specification-validation.ts:123-136 | one shared specification over all elements; reports what the first failing element reports, starting from the untouched traces |
| `Validation.JudgeIsFirstBadSite` | backend/src/helpers/specification-validation.ts:96-117 | the verdict is passing exactly when every rule holds at its place, and otherwise that of the first bad rule in depth-first order |
| `Validation.PassesExactly` | backend/src/helpers/specification-validation.ts:96-117 | level by level: rules hold, every element of an array passes, every property is there and passes |
| `Validation.SubAddsTrace` | backend/src/helpers/specification-validation.ts:100-108 | a failure below a property gets its trace in front; a missing property throws |
| `Validation.ArrayRuleIsFirstBadElement` | backend/src/helpers/specification-validation.ts:123-136 | an array passes exactly when all elements pass; otherwise the first failing element decides alone |
| `Validation.PathInTraces` | backend/src/helpers/specification-validation.ts:102-107 | a failing path consists of traces of the specification |
| `Validation.UnwindText` | backend/src/helpers/specification-validation.ts:47-54 | the reported text is the non-empty traces from the root down and the rule's message, joined by single spaces |
| `Validation.UnwindLevels` | backend/src/helpers/specification-validation.ts:104-108 | each trace on the path ends with the text from its own level down |
| `Validation.TraceKeptIff` | backend/src/helpers/specification-validation.ts:47-54 | a failing run leaves a trace of its path as it was exactly when all texts from it on down and the message are empty |
| `Validation.SecondReportIff` | backend/src/middleware/async-validator-registry.ts:36-40 | after a failing run, a second one reports what it would have reported at first exactly when all traces shared by both paths were left as they were |
| `Validation.ValidateTwice` | backend/src/middleware/async-validator-registry.ts:36-40 | the same for two runs on one specification object, for any two failing targets, read off the texts before the first run |
| `Validation.ReuseRepeatsText` | backend/src/middleware/async-validator-registry.ts:36-40 | a concrete specification whose second report repeats text |
| `Validation.TextsKeepVerdict` | backend/src/helpers/specification-validation.ts:96-117 | the verdict never depends on what the traces say |
| `Validation.FailurePathDistinct` | backend/src/helpers/specification-validation.ts:102-107 | without a trace nested below itself no trace occurs twice on a failing path |
| `Validation.FailureText` | backend/src/helpers/specification-validation.ts:96-117 | the message of a failing run, read off the texts of the specification |
| `Validation.Instantiate` | backend/src/middleware/async-validator-registry.ts:36-40 | every call builds fresh traces with the declared texts, none nested below itself |
| `Validation.Handle` | backend/src/middleware/async-validator-middleware.ts:66-105 | goes on without an entry or with an allowed blank body; otherwise it goes on exactly when every rule holds, answers with the one message of the first violated rule, and fails exactly when a rule or the target cannot be evaluated, whatever earlier requests did |
| `Calendar.Civil` | backend/src/helpers/timestamps.ts:65-68 | the fields of an instant are valid and have its time value |
| `Calendar.MonthLengths` | backend/src/helpers/timestamps.ts:65-68 | the table of days before a month grows by 31, 28 or 29, and 30 days as the rule for months says |
| `Calendar.DaysFollow` | backend/src/helpers/timestamps.ts:65-68 | a day later, the fields are those of the next day of the Gregorian calendar |
| `Calendar.MsFollow` | backend/src/helpers/timestamps.ts:65-68 | a millisecond later, the fields are the next ones with all carries |
| `Calendar.EpochIsStart` | backend/src/helpers/timestamps.ts:65-68 | time value 0 is the start of 1970, which with the previous row fixes the fields of every instant |
| `Calendar.CivilOfTime` | backend/src/helpers/timestamps.ts:65-68 | and they are the only valid ones |
| `Calendar.YearStep` | backend/src/helpers/timestamps.ts:65-68 | consecutive years start 365 or, in leap years, 366 days apart |
| `Calendar.FieldsOrder` | backend/src/helpers/timestamps.ts:65-68 | comparing fields from the year down is comparing instants |
| `DecimalText.PadIsDigits` | backend/src/helpers/timestamps.ts:57-59 | padding gives the fixed-width numeral |
| `DecimalText.DigitsOrder` | backend/src/helpers/timestamps.ts:57-59 | fixed-width numerals compare as numbers, whatever follows |
| `DecimalText.ReadInvertsRender` | backend/src/helpers/timestamps.ts:43-50 | reading a record of fixed-width numerals undoes writing it |
| `DecimalText.RenderInvertsRead` | backend/src/helpers/timestamps.ts:43-50 | and writing undoes reading |
| `Timestamps.PrintingKeepsOrder` | backend/src/helpers/timestamps.ts:65-68 | in the years 0 to 9999 printed texts compare exactly as the instants |
| `Timestamps.PrintedShape` | backend/src/helpers/timestamps.ts:65-68 | in those years the text is `YYYY-MM-DD HH:mm:ss.sss`, digit by digit |
| `Timestamps.PrintedShapeOutside` | backend/src/helpers/timestamps.ts:65-68 | outside them a sign, six digits for the year, and no seconds |
| `Timestamps.RoundTrip` | backend/src/helpers/timestamps.ts:43-68 | parsing undoes printing exactly for the instants of the years 0 to 9999, with a parser that refuses texts outside the standard form |
| `Timestamps.ParseJson` | backend/src/helpers/timestamps.ts:65-68 | the JSON text parses back to the instant |
| `Timestamps.ParsedPrintsBack` | backend/src/helpers/timestamps.ts:43-50 | every text that parses is the JSON text of its instant, or an end of day at 24:00 |
| `Timestamps.OutsideCollisions` | backend/src/helpers/timestamps.ts:65-68 | outside those years two instants share a text exactly when they differ only in their seconds |
| `Timestamps.PrintedOnce` | backend/src/helpers/timestamps.ts:65-68 | an instant has a text of its own exactly inside those years, or as the last instant of all |
| `Timestamps.NoParserUndoes` | backend/src/helpers/timestamps.ts:65-68 | outside those years no parser whatever recovers both an instant and its partner in the same minute |
| `Timestamps.InYearsMeansYears` | backend/src/helpers/timestamps.ts:65-68 | the bounds of the years 0 to 9999 as time values |
| `DateRange.AlternativesAreTouches` | backend/src/helpers/query-filter.ts:195-206 | the three alternatives are overlap: strict for two proper windows, closed as soon as one is a point or the query is reversed |
| `DateRange.FilterFindsOverlaps` | backend/src/helpers/query-filter.ts:166-206 | evaluated on printed dates, the filter finds exactly the overlapping windows |
| `DateRange.OneSidedFilters` | backend/src/helpers/query-filter.ts:223-249 | with one bound: everything ending after it, or starting before it |
| `DateRange.OverlapIsSymmetric` | backend/src/helpers/query-filter.ts:195-206 | overlap does not depend on which window is stored |
| `DateRange.ReportTakesHalfOpenWindow` | backend/src/service/report-service.ts:379-384 | a report takes the instants from the start up to, not including, the end |
| `DateRange.OneSidedReports` | backend/src/helpers/query-filter.ts:141-155 | the date filter with one bound |
| `DateRange.FilterExactIff` | backend/src/helpers/query-filter.ts:166-206 | on the windows of a range of years no overlap is missed exactly when the range lies in 0 to 9999, and nothing else is found exactly when it does |
| `DateRange.TouchingWindowsRefused` | backend/src/helpers/query-filter.ts:195-206 | outside those years windows that merely touch are reported |
| `DateRange.OverlapMissed` | backend/src/helpers/query-filter.ts:195-206 | in every single year outside those, a window around a stored one goes unnoticed |
| `QueryFilter.CreateFilterWhereClause` | backend/src/helpers/query-filter.ts:96-124 | the loop with its recursion on shorter paths builds the compiled tree |
| `QueryFilter.SplitOfJoin` | backend/src/helpers/query-filter.ts:106-118 | joining the remaining segments and splitting again gives them back |
| `QueryFilter.EntryMeaning` | backend/src/helpers/query-filter.ts:104-119 | the entry of one parameter holds exactly when the value at its dotted path equals it, or matches the search |
| `QueryFilter.CompileEntries` | backend/src/helpers/query-filter.ts:100-123 | each top-level key holds the entry of the last defined parameter that writes to it |
| `QueryFilter.CompileMeaning` | backend/src/helpers/query-filter.ts:96-124 | for every mapping: a row satisfies the tree exactly when every kept parameter holds on it |
| `QueryFilter.DistinctKeysPreserveMeaning` | backend/src/helpers/query-filter.ts:96-124 | with different first segments the tree says exactly what all defined parameters say |
| `QueryFilter.MeaningPreservedExactly` | backend/src/helpers/query-filter.ts:96-124 | the meaning is preserved on all rows exactly when every overwritten parameter is implied by its replacement |
| `QueryFilter.SharedSegmentDropsFilter` | backend/src/helpers/query-filter.ts:114-119 | two properties of one relation: the first filter is lost |
| `QueryFilter.ImplicationOfTests` | backend/src/helpers/query-filter.ts:107-112 | when one leaf test implies another, read off the parameters; for two searches if the first has no wildcard of its own |
| `QueryFilter.SearchIsContainment` | backend/src/helpers/query-filter.ts:107-109 | a search value without wildcards is found exactly where it occurs |
| `QueryFilter.SearchReachesColumn` | backend/src/helpers/query-filter.ts:107-109 | a mapping to `%column%` looks into that column and finds the texts that contain the value |
| `QueryFilter.SearchReachesRelation` | backend/src/helpers/query-filter.ts:107-119 | the same one relation away |
| `SellerPayouts.SellerPayoutController.CreateSellerPayout` | backend/src/controller/seller-payout-controller.ts:253-308 | accepts exactly the acceptable requests and adds one payout with its transfer; otherwise changes nothing and names the first thing that is wrong; keeps the tables in step, and the windows apart in the years 0 to 9999 |
| `SellerPayouts.SellerPayoutController.UpdateSellerPayout` | backend/src/service/seller-payout-service.ts:147-168 | sets the amount of the payout and of its transfer, or finds nothing |
| `SellerPayouts.SellerPayoutController.DeleteSellerPayout` | backend/src/controller/seller-payout-controller.ts:356-375 | removes the payout and its transfer, or finds nothing |
| `SellerPayouts.SellerPayoutController.Find` | backend/src/controller/seller-payout-controller.ts:361-367 | the lookup by identifier finds exactly the stored payout |
| `SellerPayouts.MatchesMeaning` | backend/src/service/seller-payout-service.ts:188-217 | the compiled where tree selects by identifier and by seller |
| `SellerPayouts.FindOverlapping` | backend/src/service/seller-payout-service.ts:188-217 | the query of the create handler finds the payouts of that seller that the date filter selects |
| `SellerPayouts.GuardExact` | backend/src/controller/seller-payout-controller.ts:287-294 | the guard finds nothing exactly when the window is free |
| `SellerPayouts.AcceptsExactly` | backend/src/controller/seller-payout-controller.ts:257-303 | for all dates: a payout is created exactly when the user exists, the dates are valid, in order and past, and the filter selects no payout of the seller |
| `SellerPayouts.CreatesExactly` | backend/src/controller/seller-payout-controller.ts:257-303 | in the years 0 to 9999 the last part says that no window of the seller overlaps |
| `SellerPayouts.StepKeepsSound` | backend/src/controller/seller-payout-controller.ts:253-375 | every request keeps transfers in step; in the years 0 to 9999 it also keeps windows apart |
| `SellerPayouts.RunStaysSound` | backend/src/controller/seller-payout-controller.ts:253-375 | so does every sequence of requests |
| `SellerPayouts.KeptApartIff` | backend/src/controller/seller-payout-controller.ts:287-301 | in all runs from empty tables the windows of every seller stay apart exactly when start dates are not before the year 0 and clocks not after the year 9999 |
| `SellerPayouts.DeleteUndoesCreate` | backend/src/service/seller-payout-service.ts:108-182 | deleting a payout just created restores both tables |
| `SellerPayouts.SaleTakenOnce` | backend/src/service/report-service.ts:379-384 | a sale is in the report of at most one payout |
| `SellerPayouts.ReportIsSumInWindow` | backend/src/service/report-service.ts:379-384 | the report is the sum over exactly the sales of the seller from the start up to before the end of the window |
| `SellerPayouts.CreatedAmountIsSum` | backend/src/service/seller-payout-service.ts:108-114 | and that sum is the amount a payout is created with |
| `SellerPayouts.NoSaleReportedTwice` | backend/src/service/seller-payout-service.ts:108-114 | the reports over all windows together never exceed the sales |
| `SellerPayouts.NoSalePaidTwice` | backend/src/service/seller-payout-service.ts:108-114 | in every run of create and delete requests, while sales keep coming in, the amounts fixed at creation together never exceed the sales |
| `SellerPayouts.OverlapIsStored` | backend/src/controller/seller-payout-controller.ts:287-301 | any overlap that the filter misses is stored by two accepted requests |
| `SqlParams.ReplaceNames` | backend/src/helpers/params.ts:30-35 | the scan writes a mark for each token and collects its name, repeats included |
| `SqlParams.ConvertToPositional` | backend/src/helpers/params.ts:26-44 | the template with the values in order, or the first missing name |
| `SqlParams.TokensAreAReading` | backend/src/helpers/params.ts:32 | the text is read as maximal name tokens and literal characters |
| `SqlParams.ReadingIsUnique` | backend/src/helpers/params.ts:32 | and this is the only such reading |
| `SqlParams.MeaningPreserved` | backend/src/helpers/params.ts:26-44 | filling the marks gives the text with every parameter in place exactly when the input has no mark of its own |
| `SqlParams.MarksMatchValues` | backend/src/helpers/params.ts:36-43 | marks and values differ by the marks the input already had |
| `SqlParams.MissingNameThrows` | backend/src/helpers/params.ts:37-40 | a missing name always throws, and the first one is named |
| `SqlParams.NameIsOneToken` | backend/src/helpers/params.ts:32 | a name of letters, digits and underscores is one token |
| `SqlParams.OneName` | backend/src/helpers/params.ts:26-44 | a statement with one name becomes the same statement with one mark and the value of that name, or the name is reported |
| `SqlParams.NoName` | backend/src/helpers/params.ts:26-44 | a statement without colons is left as it is |
| `HtmlEscape.EscapeIsSimultaneous` | backend/src/html/escape.ts:26-33 | the five passes are one simultaneous substitution |
| `HtmlEscape.EscapeConcat` | backend/src/html/escape.ts:26-33 | escaping distributes over concatenation |
| `HtmlEscape.FiveReferences` | backend/src/html/escape.ts:26-33 | the five characters and their references; every other character is left as it is |
| `HtmlEscape.EscapedHasNoMarkup` | backend/src/html/escape.ts:22-25 | no angle bracket and no quote is left |
| `HtmlEscape.AmpersandsOpenReferences` | backend/src/html/escape.ts:26-33 | every ampersand left opens one of the five references |
| `HtmlEscape.DecodeInvertsEscape` | backend/src/html/escape.ts:26-33 | one decoding scan recovers the input |
| `HtmlEscape.EscapeIsInjective` | backend/src/html/escape.ts:26-33 | different texts stay different |
| `HtmlEscape.EscapeTwice` | backend/src/html/escape.ts:26-33 | escaping again changes the text exactly when there was something to escape |
| `Reports.CollectByKey` | backend/src/helpers/transaction-mapper.ts:55-62 | the item joins the bucket of its key, or opens a new one at the end |
| `Reports.CollectTransactions` | backend/src/helpers/transaction-mapper.ts:41-47 | traversing all rows groups them in traversal order |
| `Reports.GroupsAreSelections` | backend/src/helpers/transaction-mapper.ts:55-62 | keys in order of first appearance, each bucket with all its items in order |
| `Reports.GroupsArePartition` | backend/src/helpers/transaction-mapper.ts:41-62 | every occurrence is in exactly one bucket; buckets are not empty and share their key |
| `Reports.GroupsConserveTotals` | backend/src/helpers/transaction-mapper.ts:111-183 | the buckets weigh together what the rows weigh, whatever the keys |
| `Reports.ExtractVatInfoTransactions` | backend/src/helpers/transaction-mapper.ts:130-143 | the running totals are the sums over the rows of amount times price, and of the amounts that give this with their VAT on top |
| `Reports.VatIsOnTop` | backend/src/helpers/transaction-mapper.ts:134-137 | the amount including VAT is the amount excluding it plus the VAT over it |
| `Reports.CountRows` | backend/src/helpers/transaction-mapper.ts:114-116 | the number of items sold is the sum of the amounts of the rows |
| `Reports.ReduceMapToReportEntries` | backend/src/helpers/transaction-mapper.ts:111-124 | one entry per bucket, with its count and product |
| `Reports.ReduceMapToVatEntries` | backend/src/helpers/transaction-mapper.ts:149-163 | one entry per bucket, with its VAT group and totals |
| `Reports.ReduceMapToCategoryEntries` | backend/src/helpers/transaction-mapper.ts:169-183 | one entry per bucket, with its category and totals |
| `Reports.ProductEntriesByRevision` | backend/src/helpers/transaction-mapper.ts:69-124 | one entry for each revision of a product, with the items sold of it |
| `Reports.VatEntriesByGroup` | backend/src/helpers/transaction-mapper.ts:95-163 | one entry for each VAT group that occurs, with the totals over its rows |
| `Reports.CategoryEntriesByCategory` | backend/src/helpers/transaction-mapper.ts:82-183 | one entry for each category that occurs, with the totals over its rows |
| `Reports.ProductKeyIdentifiesRevision` | backend/src/helpers/transaction-mapper.ts:69-75 | the JSON key is the same exactly for the same revision of the same product |
| `Reports.OtherKeysIdentify` | backend/src/helpers/transaction-mapper.ts:82-103 | the other keys are the same exactly for the same category and the same VAT group |
| `Reports.GetTransactionReportData` | backend/src/service/transaction-service.ts:1256-1287 | the three reports over the rows that are reported, and their totals as sums over the fields of those rows |
| `Reports.ReportRowsMembers` | backend/src/service/transaction-service.ts:1263-1276 | which rows are reported |
| `Reports.ReportRowsConcat` | backend/src/service/transaction-service.ts:1263-1276 | in the order of the transactions, and as often as they occur |
| `Reports.ReportRowsOfRows` | backend/src/service/transaction-service.ts:1263-1276 | within a transaction, rows follow one another, and a single row is reported once or not at all |
| `Reports.RowsReportedTimes` | backend/src/service/transaction-service.ts:1263-1276 | a row is reported as often as it occurs in sub-transactions to the user, or never when left out as invoiced |
| `Reports.ReportsAgree` | backend/src/service/transaction-service.ts:1282-1286 | VAT report and category report have the totals of the rows, the product report their amounts, all read off the fields of the rows |
| `Receipt.RoundingError` | backend/src/html/transaction.html.ts:42-44 | rounding moves an amount by at most half a cent |
| `Receipt.RoundedIsNearest` | backend/src/html/transaction.html.ts:42-44 | the rounded amount is the nearest number of cents, half a cent upwards |
| `Receipt.LinesFromItems` | backend/src/html/transaction.html.ts:63-75 | the fields of the items leave one possibility for rate, net amount and VAT of every line |
| `Receipt.RoundedSumIsSum` | backend/src/html/transaction.html.ts:67-75 | rounding a sum of whole cents changes nothing |
| `Receipt.AddToGroup` | backend/src/html/transaction.html.ts:70-73 | the VAT table after one more line |
| `Receipt.AddLine` | backend/src/html/transaction.html.ts:62-75 | the running totals, the line total and the VAT table after one more line |
| `Receipt.CreateTransactionTotals` | backend/src/html/transaction.html.ts:57-88 | the lines are those that the fields of the items demand, the totals are their sums, the groups have distinct rates and the sums of their lines, and the total is within the tolerances of the exact one |
| `Receipt.GroupsConserveTotals` | backend/src/html/transaction.html.ts:70-73 | the VAT table adds up to the subtotal and the total VAT |
| `Receipt.LinesAddUp` | backend/src/html/transaction.html.ts:75-88 | the total including VAT is the sum of the printed line totals |
| `Receipt.LineError` | backend/src/html/transaction.html.ts:64-65 | against quantity times price with VAT on top, a line is off by at most half a cent, half a cent and the VAT over half a cent |
| `Receipt.TotalError` | backend/src/html/transaction.html.ts:57-88 | against the sum of those, the total is off by at most the sum of the tolerances |
| `Receipt.ToleranceAttainedIff` | backend/src/html/transaction.html.ts:64-65 | at a non-negative rate some line is off by its whole tolerance exactly when the VAT over some whole number of cents ends in half a cent |
| `Receipt.WholeRateAttainsIff` | backend/src/html/transaction.html.ts:64-65 | for whole percentages: exactly at the rates that are not multiples of four |
| `Receipt.NoVatLineError` | backend/src/html/transaction.html.ts:64-65 | at 0% a line is off by at most half a cent |
| `Tokens.TokenHandler.SignToken` | backend/src/authentication/token-handler.ts:77-91 | an empty nonce is refused; otherwise the new token is accepted from its issue for exactly its lifetime in whole seconds |
| `Tokens.SignedLasts` | backend/src/authentication/token-handler.ts:77-102 | signing and verifying together: accepted for the lifetime less at most a second, never longer |
| `Tokens.TokenHandler.RefreshToken` | backend/src/authentication/token-handler.ts:109-117 | a new token with the other claims and the lifetime of the old one |
| `Tokens.TokenMiddleware.Handle` | backend/src/middleware/token-middleware.ts:103-144 | lets through exactly a genuine token within its time whose user is present, says which refusal every other case gives, and refreshes exactly from the threshold on, with the same claims and lifetime |
| `Tokens.VisitKeeps` | backend/src/middleware/token-middleware.ts:111-141 | one request keeps user, claims and lifetime and never moves the expiry back |
| `Tokens.SessionKeeps` | backend/src/authentication/token-handler.ts:109-117 | so does every chain of refreshes |
| `Tokens.SessionNeedsUser` | backend/src/middleware/token-middleware.ts:120-130 | a session ends at the first call at which its user is not present |
| `Tokens.SessionSurvivesIff` | backend/src/middleware/token-middleware.ts:111-141 | it goes on exactly as long as the token held verifies and the user is present |
| `Tokens.VisitGrants` | backend/src/middleware/token-middleware.ts:135-141 | after an accepted request the token is good for its lifetime, or for longer than the refresh span |
| `Tokens.ActiveClientStaysLoggedIn` | backend/src/middleware/token-middleware.ts:111-141 | a client whose pauses are shorter than the lifetime and no longer than the span is never refused |
| `Tokens.PauseIsSafeIff` | backend/src/middleware/token-middleware.ts:111-141 | a pause is survived however the calls fall exactly when it is that short |
| `Tokens.PauseBoundIsExact` | backend/src/middleware/token-middleware.ts:111-141 | for tokens no longer than the span, the next request is accepted exactly below the lifetime |
| `Tokens.NeverRefreshedIff` | backend/src/middleware/token-middleware.ts:45-50 | for every usable token: it is never refreshed exactly above factor 1.0 |
| `Tokens.AlwaysRefreshedIff` | backend/src/middleware/token-middleware.ts:45-50 | a token is refreshed on every request exactly when it lives no longer than the span |
| `Rbac.InvalidPermissions` | backend/src/controller/rbac-controller.ts:341-348 | the filter with its splicing finds the invalid entries |
| `Rbac.CheckAcceptsExactly` | backend/src/controller/rbac-controller.ts:338-352 | a batch passes exactly when its entries differ from each other and from the existing ones |
| `Rbac.InvalidMembers` | backend/src/controller/rbac-controller.ts:341-352 | the entries reported are those that are stored already or occur twice |
| `Rbac.RbacController.CreateRole` | backend/src/controller/rbac-controller.ts:214-228 | creates a role without permissions exactly when the name is free; says which refusal every other case gives; keeps what every handler keeps |
| `Rbac.RbacController.UpdateRole` | backend/src/controller/rbac-controller.ts:243-269 | renames exactly an ordinary role to a name that is free, and nothing else; says which refusal every other case gives; keeps what every handler keeps |
| `Rbac.RbacController.DeleteRole` | backend/src/controller/rbac-controller.ts:282-305 | removes exactly an ordinary role without users, and leaves the others; says which refusal every other case gives; keeps what every handler keeps |
| `Rbac.RbacController.AddPermissions` | backend/src/controller/rbac-controller.ts:320-362 | an accepted batch is new to the role; its last entry for a key stands, rows with other keys stay; says which refusal every other case gives; keeps what every handler keeps |
| `Rbac.RbacController.DeletePermission` | backend/src/controller/rbac-controller.ts:379-408 | succeeds exactly when an ordinary role has the key, and removes exactly that row; says which refusal every other case gives; keeps what every handler keeps |
| `Rbac.SavedRows` | backend/src/service/rbac-service.ts:231-240 | after saving, the last entry for a key stands and other rows stay |
| `Rbac.PurelyAddedIff` | backend/src/service/rbac-service.ts:231-240 | an accepted batch is only added exactly when no triple occurs twice among old and new rows |
| `Rbac.OverwritesNothingIff` | backend/src/service/rbac-service.ts:231-240 | an accepted batch leaves every stored permission in place exactly when its triples are new and its own |
| `Rbac.OtherAttributesOverwrite` | backend/src/service/rbac-service.ts:52-57 | an entry that differs in its attributes alone passes the check and replaces the stored row |
| `Rbac.DeleteUndoesAdd` | backend/src/service/rbac-service.ts:231-261 | deleting a permission just added restores the tables |
| `Rbac.StepKeepsSound` | backend/src/controller/rbac-controller.ts:214-408 | every request keeps triples unique and system default roles as they are; a refusal changes nothing |
| `Rbac.RunStaysSound` | backend/src/controller/rbac-controller.ts:214-408 | so does every sequence of requests; the triples are unique because of the key of the table |
| `Rbac.StepTakesIff` | backend/src/controller/rbac-controller.ts:341-354 | a stored permission is gone after a request exactly when that request deletes it or its role, or is an accepted batch with its triple |
| `Rbac.StaysIff` | backend/src/controller/rbac-controller.ts:214-408 | in every run a stored permission stays, attributes and all, exactly until such a request |
| `Rbac.StoredIsRefused` | backend/src/controller/rbac-controller.ts:341-352 | a batch with a stored permission is refused, and that permission is among the duplicates |
| `Rbac.AcceptedAgainOnlyAfterTaken` | backend/src/controller/rbac-controller.ts:341-352 | in every run a stored permission is accepted again only after such a request |

## Left out

- Routing, HTTP status codes, logging, Swagger validation, policies, mail, PDF compilation: plumbing around the logic.
- `applyFilter` and `extractUndefinedNumberOrArray` (backend/src/helpers/query-filter.ts): string assembly and a three-way conversion.
- `toLocalMySQLString` and `dateToUTC` (backend/src/helpers/timestamps.ts): time zone rules are external, and the MariaDB configuration compares dates in the database.
- `Timestamps.ParseIso`: only the full date and time form with milliseconds is parsed; other forms are refused. ECMA-262 leaves texts in no standard form to the implementation; `PrintedOnce` and `NoParserUndoes` hold for every parser.
- `QueryFilter.ImplicationOfTests`: whether one search implies another is characterised when the first value has no wildcard of its own; for two values with wildcards the condition of `MeaningPreservedExactly` remains a statement about all texts.
- Transactions that come from invoice accounts are dropped before the reports are made (backend/src/service/transaction-service.ts:1245-1248): the model starts from the transactions that are left.
- Pagination and the order of query results: the queries are sets.
- `SellerPayouts.SalesReport`: a sale is one amount in cents; the SQL sum over rows and prices is not part of this model.
- The PDF that an updated payout marks stale, and the reference texts beyond storing them.
- Case-insensitive collation of `LIKE`, and filter values that are null, numbers or arrays.
- Sorting the VAT table by rate and formatting amounts for display.
- Binary floating point: prices and rates are exact reals.
- `collectByToId`: the same grouping on another key.
- Interleaved requests: check and write are separate statements in the handlers, so the invariants are for requests handled one after another.
- Request fields beyond those the request types declare, which the role handlers copy along.
- Reading roles and their users, and the conversions between permission rows and nested definitions.
