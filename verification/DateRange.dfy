/**
 The date filters of backend/src/helpers/query-filter.ts. Bounds and stored dates are compared as printed
 texts; the results say what that means for the instants.
 */
module DateRange {
  import opened Common
  import opened DecimalText
  import opened Calendar
  import opened Timestamps

  /** A raw condition on one date column. */
  datatype Bound = AtLeast(date: string) | Above(date: string) | AtMost(date: string) | Below(date: string)

  predicate Within(column: string, b: Bound) {
    match b
    case AtLeast(d) => !LexLess(column, d)
    case Above(d) => LexLess(d, column)
    case AtMost(d) => !LexLess(d, column)
    case Below(d) => LexLess(column, d)
  }

  predicate WithinAll(column: string, bounds: seq<Bound>) {
    forall b :: b in bounds ==> Within(column, b)
  }

  /** One alternative of the filter: conditions on the column of the start and on that of the end. */
  datatype Clause = Clause(start: seq<Bound>, end: seq<Bound>)

  predicate Selects(c: Clause, start: string, end: string) {
    WithinAll(start, c.start) && WithinAll(end, c.end)
  }

  /** Some alternative selects the stored window; no alternatives at all means no filter. */
  predicate Selected(clauses: seq<Clause>, start: string, end: string) {
    clauses == [] || exists c :: c in clauses && Selects(c, start, end)
  }

  function Printed(date: Option<TimeValue>): Option<string> {
    match date case Some(t) => Some(ToUtcMySqlString(t)) case None => None
  }

  function CreateFilterWhereDateRange(rangeFromDate: Option<TimeValue>, rangeTillDate: Option<TimeValue>): seq<Clause> {
    match (Printed(rangeFromDate), Printed(rangeTillDate))
    case (Some(fromDate), Some(tillDate)) => BothBounds(fromDate, tillDate)
    case (Some(fromDate), None) => [Clause([], [Above(fromDate)])]
    case (None, Some(tillDate)) => [Clause([Below(tillDate)], [])]
    case (None, None) => []
  }

  function BothBounds(fromDate: string, tillDate: string): seq<Clause> {
    [ Clause([], [Above(fromDate), AtMost(tillDate)]),
      Clause([AtLeast(fromDate), Below(tillDate)], []),
      Clause([AtMost(fromDate)], [AtLeast(tillDate)]) ]
  }

  /** `createFilterWhereDate`; also the two conditions of the sales report (service/report-service.ts). */
  function CreateFilterWhereDate(fromDate: Option<TimeValue>, tillDate: Option<TimeValue>): seq<Bound> {
    match (Printed(fromDate), Printed(tillDate))
    case (Some(f), Some(t)) => [AtLeast(f), Below(t)]
    case (Some(f), None) => [AtLeast(f)]
    case (None, Some(t)) => [Below(t)]
    case (None, None) => []
  }

  // ----- windows of instants

  datatype Window = Window(start: TimeValue, end: TimeValue)

  predicate Ordered(w: Window) {
    w.start <= w.end
  }

  predicate WindowInYears(w: Window) {
    InYears(w.start) && InYears(w.end)
  }

  /** Windows of positive length may touch; a single point may not even lie on a boundary. */
  predicate Overlap(v: Window, w: Window) {
    if v.start < v.end && w.start < w.end then v.start < w.end && w.start < v.end
    else v.start <= w.end && w.start <= v.end
  }

  /** The query is exactly the overlap test, except that a reversed query counts its boundaries. */
  predicate Touches(stored: Window, query: Window) {
    if query.start <= query.end then Overlap(stored, query)
    else stored.start <= query.start && query.end <= stored.end
  }

  predicate SelectedBy(stored: Window, query: Window) {
    Selected(CreateFilterWhereDateRange(Some(query.start), Some(query.end)),
             ToUtcMySqlString(stored.start), ToUtcMySqlString(stored.end))
  }

  /** The three alternatives, on instants. */
  predicate Alternatives(v: Window, w: Window) {
    || (v.end > w.start && v.end <= w.end)
    || (v.start >= w.start && v.start < w.end)
    || (v.start <= w.start && v.end >= w.end)
  }

  lemma AlternativesAreTouches(v: Window, w: Window)
    requires Ordered(v)
    ensures Alternatives(v, w) <==> Touches(v, w)
  {
  }

  lemma WithinTwo(column: string, b: Bound, c: Bound)
    ensures WithinAll(column, [b, c]) <==> Within(column, b) && Within(column, c)
    ensures WithinAll(column, [b]) <==> Within(column, b)
  {
    assert b in [b, c] && c in [b, c] && b in [b];
  }

  /** The alternatives, on texts. */
  lemma SelectedMeansOneOf(s: string, e: string, f: string, t: string)
    ensures Selected(BothBounds(f, t), s, e) <==>
      || (LexLess(f, e) && !LexLess(t, e))
      || (!LexLess(s, f) && LexLess(s, t))
      || (!LexLess(f, s) && !LexLess(e, t))
  {
    var clauses := BothBounds(f, t);
    WithinTwo(e, Above(f), AtMost(t));
    WithinTwo(s, AtLeast(f), Below(t));
    WithinTwo(s, AtMost(f), AtMost(f));
    WithinTwo(e, AtLeast(t), AtLeast(t));
    assert clauses[0] in clauses && clauses[1] in clauses && clauses[2] in clauses;
  }

  /** Texts that sort as the instants do. */
  lemma TextsInOrder(s: string, e: string, f: string, t: string, v: Window, w: Window)
    requires Ordered(v)
    requires (LexLess(f, e) <==> w.start < v.end) && (LexLess(t, e) <==> w.end < v.end)
    requires (LexLess(s, f) <==> v.start < w.start) && (LexLess(s, t) <==> v.start < w.end)
    requires (LexLess(f, s) <==> w.start < v.start) && (LexLess(e, t) <==> v.end < w.end)
    ensures Selected(BothBounds(f, t), s, e) <==> Touches(v, w)
  {
    SelectedMeansOneOf(s, e, f, t);
    AlternativesAreTouches(v, w);
  }

  /** In the years 0 to 9999 the filter finds exactly the stored windows that overlap the query. */
  lemma FilterFindsOverlaps(stored: Window, query: Window)
    requires Ordered(stored) && WindowInYears(stored) && WindowInYears(query)
    ensures SelectedBy(stored, query) <==> Touches(stored, query)
  {
    PrintingKeepsOrder(query.start, stored.end);
    PrintingKeepsOrder(query.end, stored.end);
    PrintingKeepsOrder(stored.start, query.start);
    PrintingKeepsOrder(stored.start, query.end);
    PrintingKeepsOrder(query.start, stored.start);
    PrintingKeepsOrder(stored.end, query.end);
    TextsInOrder(ToUtcMySqlString(stored.start), ToUtcMySqlString(stored.end),
                 ToUtcMySqlString(query.start), ToUtcMySqlString(query.end), stored, query);
  }

  lemma OneClause(c: Clause, s: string, e: string)
    ensures Selected([c], s, e) <==> Selects(c, s, e)
  {
    assert c in [c];
  }

  /** With one bound: everything that ends after `from`, or starts before `till`. */
  lemma OneSidedFilters(stored: Window, bound: TimeValue)
    requires WindowInYears(stored) && InYears(bound)
    ensures var start, end := ToUtcMySqlString(stored.start), ToUtcMySqlString(stored.end);
            Selected(CreateFilterWhereDateRange(Some(bound), None), start, end) <==> bound < stored.end
    ensures var start, end := ToUtcMySqlString(stored.start), ToUtcMySqlString(stored.end);
            Selected(CreateFilterWhereDateRange(None, Some(bound)), start, end) <==> stored.start < bound
  {
    PrintingKeepsOrder(bound, stored.end);
    PrintingKeepsOrder(stored.start, bound);
    OneSidedTexts(ToUtcMySqlString(bound), ToUtcMySqlString(stored.start), ToUtcMySqlString(stored.end));
  }

  lemma OneSidedTexts(d: string, s: string, e: string)
    ensures Selected([Clause([], [Above(d)])], s, e) <==> LexLess(d, e)
    ensures Selected([Clause([Below(d)], [])], s, e) <==> LexLess(s, d)
  {
    OneClause(Clause([], [Above(d)]), s, e);
    OneClause(Clause([Below(d)], []), s, e);
    WithinTwo(e, Above(d), Above(d));
    WithinTwo(s, Below(d), Below(d));
  }

  lemma OverlapIsSymmetric(v: Window, w: Window)
    ensures Overlap(v, w) <==> Overlap(w, v)
  {
  }

  /** The report filter takes the instants from the start, up to but not including the end. */
  lemma ReportTakesHalfOpenWindow(x: TimeValue, w: Window)
    requires InYears(x) && WindowInYears(w)
    ensures WithinAll(ToUtcMySqlString(x), CreateFilterWhereDate(Some(w.start), Some(w.end))) <==> w.start <= x < w.end
  {
    PrintingKeepsOrder(x, w.start);
    PrintingKeepsOrder(x, w.end);
    WithinTwo(ToUtcMySqlString(x), AtLeast(ToUtcMySqlString(w.start)), Below(ToUtcMySqlString(w.end)));
  }

  lemma OneSidedReports(x: TimeValue, bound: TimeValue)
    requires InYears(x) && InYears(bound)
    ensures WithinAll(ToUtcMySqlString(x), CreateFilterWhereDate(Some(bound), None)) <==> bound <= x
    ensures WithinAll(ToUtcMySqlString(x), CreateFilterWhereDate(None, Some(bound))) <==> x < bound
  {
    PrintingKeepsOrder(x, bound);
    var d := ToUtcMySqlString(bound);
    WithinTwo(ToUtcMySqlString(x), AtLeast(d), AtLeast(d));
    WithinTwo(ToUtcMySqlString(x), Below(d), Below(d));
  }

  // ----- the range of years in which the filter is right

  predicate InRange(w: Window, first: int, last: int) {
    first <= Civil(w.start).year <= last && first <= Civil(w.end).year <= last
  }

  /** The years whose 1 January a Date can hold. */
  const FIRST_YEAR := -271820
  const LAST_YEAR := 275760

  function NewYear(y: int): int {
    DayFromYear(y) * MS_PER_DAY
  }

  lemma NewYearIsATime(y: int)
    requires FIRST_YEAR <= y <= LAST_YEAR
    ensures -MAX_TIME <= NewYear(y) <= MAX_TIME - MS_PER_DAY
  {
    YearsAscend(FIRST_YEAR, y);
    YearsAscend(y, LAST_YEAR);
    assert DayFromYear(FIRST_YEAR) >= -100000000 && DayFromYear(LAST_YEAR) <= 99999999;
  }

  /** A little later on New Year's Day. */
  lemma AfterNewYear(y: int, second: int, ms: int) returns (t: TimeValue)
    requires FIRST_YEAR <= y <= LAST_YEAR && 0 <= second < 60 && 0 <= ms < 1000
    ensures t == NewYear(y) + second * MS_PER_SECOND + ms
    ensures Civil(t) == Fields(y, 1, 1, 0, 0, second, ms)
  {
    NewYearIsATime(y);
    var f := Fields(y, 1, 1, 0, 0, second, ms);
    t := NewYear(y) + second * MS_PER_SECOND + ms;
    CivilAt(f, t);
  }

  lemma SameMinuteOfNewYear(y: int, k: int)
    requires 0 <= k < 60
    ensures SameButSeconds(NewYear(y), NewYear(y) + k * 1000)
  {
    var q := DayFromYear(y) * 1440;
    assert NewYear(y) == q * MS_PER_MINUTE;
    SecondsOfMinute(q, k * 1000);
  }

  lemma SecondsOfMinute(q: int, r: int)
    requires 0 <= r < MS_PER_MINUTE && r % 1000 == 0
    ensures SameButSeconds(q * MS_PER_MINUTE, q * MS_PER_MINUTE + r)
  {
    assert (q * MS_PER_MINUTE + r) / MS_PER_MINUTE == q;
  }

  /** An instant in the first minute of the year that prints like the start of the year. */
  lemma SameText(y: int, k: int) returns (x: TimeValue, t: TimeValue)
    requires FIRST_YEAR <= y <= LAST_YEAR && !(0 <= y <= 9999) && 0 <= k < 60
    ensures x == NewYear(y) && t == x + k * 1000 && Civil(x).year == Civil(t).year == y
    ensures ToUtcMySqlString(t) == ToUtcMySqlString(x)
  {
    x := AfterNewYear(y, 0, 0);
    t := AfterNewYear(y, k, 0);
    SameMinuteOfNewYear(y, k);
    InYearsMeansYears(x);
    OutsideCollisions(x, t);
  }

  /** Outside the years 0 to 9999 two windows that merely touch are reported as overlapping. */
  lemma TouchingWindowsRefused(y: int) returns (v: Window, w: Window)
    requires FIRST_YEAR <= y <= LAST_YEAR && !(0 <= y <= 9999)
    ensures Ordered(v) && Ordered(w) && InRange(v, y, y) && InRange(w, y, y)
    ensures SelectedBy(v, w) && !Overlap(v, w)
  {
    var x, x1 := SameText(y, 1);
    var _, x2 := SameText(y, 2);
    v, w := Window(x, x1), Window(x1, x2);
    LexIrreflexive(ToUtcMySqlString(x));
    SelectedMeansOneOf(ToUtcMySqlString(v.start), ToUtcMySqlString(v.end),
                       ToUtcMySqlString(w.start), ToUtcMySqlString(w.end));
  }

  /** Outside the years 0 to 9999 the seconds are cut off, so that within a minute the milliseconds decide the order. */
  lemma MsDecideOrder(t: TimeValue, u: TimeValue)
    requires !InYears(t) && Civil(u) == Civil(t).(second := Civil(u).second, ms := Civil(u).ms)
    ensures LexLess(ToUtcMySqlString(t), ToUtcMySqlString(u)) <==> Civil(t).ms < Civil(u).ms
  {
    InYearsMeansYears(t);
    InYearsMeansYears(u);
    PrintedOutside(t);
    PrintedOutside(u);
    CoarseOrder(Civil(t), Civil(u));
  }

  lemma CoarseOrder(f: Fields, g: Fields)
    requires g == f.(second := g.second, ms := g.ms)
    requires Fits(Coarse(f), OUTSIDE_LAYOUT) && Fits(Coarse(g), OUTSIDE_LAYOUT)
    ensures LexLess(Sign(f) + Render(Coarse(f), OUTSIDE_LAYOUT), Sign(g) + Render(Coarse(g), OUTSIDE_LAYOUT))
      <==> f.ms < g.ms
  {
    LexSamePrefix(Sign(f), Render(Coarse(f), OUTSIDE_LAYOUT), Render(Coarse(g), OUTSIDE_LAYOUT));
    RenderOrder(Coarse(f), Coarse(g), OUTSIDE_LAYOUT);
    LastDecides(Coarse(f), Coarse(g));
  }

  lemma {:induction false} LastDecides(a: seq<int>, b: seq<int>)
    requires |a| == |b| > 0 && a[..|a| - 1] == b[..|a| - 1]
    ensures NumbersLess(a, b) <==> a[|a| - 1] < b[|a| - 1]
  {
    if |a| > 1 {
      assert a[0] == a[..|a| - 1][0] == b[0];
      assert a[1..][..|a| - 2] == a[..|a| - 1][1..] == b[1..][..|a| - 2];
      LastDecides(a[1..], b[1..]);
    }
  }

  /** An instant in the first minute of a year outside 0 to 9999. */
  lemma OutsideNewYear(y: int, second: int, ms: int) returns (t: TimeValue)
    requires FIRST_YEAR <= y <= LAST_YEAR && !(0 <= y <= 9999) && 0 <= second < 60 && 0 <= ms < 1000
    ensures !InYears(t) && t == NewYear(y) + second * MS_PER_SECOND + ms
    ensures Civil(t) == Fields(y, 1, 1, 0, 0, second, ms)
  {
    t := AfterNewYear(y, second, ms);
    InYearsMeansYears(t);
  }

  lemma NewYearsAscend(x: int, y: int)
    requires x <= y
    ensures NewYear(x) <= NewYear(y)
  {
    YearsAscend(x, y);
  }

  /** Outside the years 0 to 9999 a window around a stored one goes unnoticed. */
  lemma OverlapMissed(y: int) returns (v: Window, w: Window)
    requires FIRST_YEAR <= y <= LAST_YEAR && !(0 <= y <= 9999)
    ensures Ordered(v) && Ordered(w) && InRange(v, y, y) && InRange(w, y, y)
    ensures NewYear(y) <= w.start < v.start < v.end < w.end < NewYear(y + 1)
    ensures Overlap(v, w) && !SelectedBy(v, w)
  {
    YearStep(y);
    var f := OutsideNewYear(y, 0, 9);
    var s := OutsideNewYear(y, 1, 5);
    var e := OutsideNewYear(y, 2, 6);
    var t := OutsideNewYear(y, 3, 8);
    MsDecideOrder(f, e);
    MsDecideOrder(s, f);
    MsDecideOrder(e, t);
    v, w := Window(s, e), Window(f, t);
    SelectedMeansOneOf(ToUtcMySqlString(s), ToUtcMySqlString(e), ToUtcMySqlString(f), ToUtcMySqlString(t));
  }

  lemma InRangeMeansInYears(w: Window, first: int, last: int)
    requires 0 <= first && last <= 9999 && InRange(w, first, last)
    ensures WindowInYears(w)
  {
    InYearsMeansYears(w.start);
    InYearsMeansYears(w.end);
  }

  ghost predicate WindowsIn(v: Window, w: Window, first: int, last: int) {
    Ordered(v) && Ordered(w) && InRange(v, first, last) && InRange(w, first, last)
  }

  ghost predicate NoOverlapMissed(first: int, last: int) {
    forall v: Window, w: Window :: WindowsIn(v, w, first, last) && Overlap(v, w) ==> SelectedBy(v, w)
  }

  ghost predicate NoFalseAlarm(first: int, last: int) {
    forall v: Window, w: Window :: WindowsIn(v, w, first, last) && SelectedBy(v, w) ==> Overlap(v, w)
  }

  /** A year of the range for which Dates exist and whose texts lose the seconds. */
  function YearOutside(first: int, last: int): (y: int)
    requires first <= last && first <= LAST_YEAR && FIRST_YEAR <= last && !(0 <= first && last <= 9999)
    ensures first <= y <= last && FIRST_YEAR <= y <= LAST_YEAR && !(0 <= y <= 9999)
  {
    if first < 0 then (if first < FIRST_YEAR then FIRST_YEAR else first)
    else if last > LAST_YEAR then LAST_YEAR else last
  }

  /**
   On the windows of a range of years the filter finds every overlap exactly when the range lies in 0 to 9999, and
   finds nothing else exactly when it does.
   */
  lemma FilterExactIff(first: int, last: int)
    requires first <= last && first <= LAST_YEAR && FIRST_YEAR <= last
    ensures NoOverlapMissed(first, last) <==> 0 <= first && last <= 9999
    ensures NoFalseAlarm(first, last) <==> 0 <= first && last <= 9999
  {
    if 0 <= first && last <= 9999 {
      forall v: Window, w: Window | WindowsIn(v, w, first, last) ensures SelectedBy(v, w) <==> Overlap(v, w) {
        InRangeMeansInYears(v, first, last);
        InRangeMeansInYears(w, first, last);
        FilterFindsOverlaps(v, w);
      }
    } else {
      FilterFails(first, last);
    }
  }

  lemma FilterFails(first: int, last: int)
    requires first <= last && first <= LAST_YEAR && FIRST_YEAR <= last && !(0 <= first && last <= 9999)
    ensures !NoOverlapMissed(first, last) && !NoFalseAlarm(first, last)
  {
    var y := YearOutside(first, last);
    var v, w := OverlapMissed(y);
    assert WindowsIn(v, w, first, last);
    var p, q := TouchingWindowsRefused(y);
    assert WindowsIn(p, q, first, last);
  }
}
