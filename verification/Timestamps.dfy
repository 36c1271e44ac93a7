/**
 Printing and parsing of dates (backend/src/helpers/timestamps.ts). The date-range filters compare the
 printed texts, so the printer must keep the order of the instants.
 */
module Timestamps {
  import opened Common
  import opened DecimalText
  import opened Calendar

  /** `ts(i, pad)`. */
  function Ts(i: nat, pad: nat): string {
    PadStart(Decimal(i), pad)
  }

  function Abs(y: int): nat {
    if y < 0 then -y else y
  }

  /** The year of `toJSON`: four digits, or a sign and six digits outside the years 0 to 9999. */
  function YearText(y: int): string {
    if 0 <= y <= 9999 then PadStart(Decimal(y), 4)
    else (if y < 0 then "-" else "+") + PadStart(Decimal(Abs(y)), 6)
  }

  function DateText(f: Fields): string
    requires Valid(f)
  {
    YearText(f.year) + "-" + Ts(f.month, 2) + "-" + Ts(f.day, 2)
  }

  function MinuteText(f: Fields): string
    requires Valid(f)
  {
    Ts(f.hour, 2) + ":" + Ts(f.minute, 2)
  }

  /** `date.toJSON()`, in the Date Time String Format of section 21.4.1.32 of ECMA-262. */
  function ToJson(t: TimeValue): string {
    var f := Civil(t);
    DateText(f) + "T" + MinuteText(f) + ":" + Ts(f.second, 2) + "." + Ts(f.ms, 3) + "Z"
  }

  /** `s.replace(c, d)` for one-character texts: the first occurrence only. */
  function ReplaceFirst(s: string, c: char, d: char): string {
    if s == "" then "" else if s[0] == c then [d] + s[1..] else [s[0]] + ReplaceFirst(s[1..], c, d)
  }

  /** `s.slice(0, n)`. */
  function SliceTo(s: string, n: nat): string {
    if |s| <= n then s else s[..n]
  }

  /** `getMilliseconds` counts in local time, which differs from UTC by whole seconds. */
  function ToUtcMySqlString(t: TimeValue): string {
    ReplaceFirst(SliceTo(ToJson(t), 19), 'T', ' ') + "." + Ts(Civil(t).ms, 3)
  }

  const ISO_LAYOUT: Layout := [(4, "-"), (2, "-"), (2, "T"), (2, ":"), (2, ":"), (2, "."), (3, "Z")]
  const SQL_LAYOUT: Layout := [(4, "-"), (2, "-"), (2, " "), (2, ":"), (2, ":"), (2, "."), (3, "")]

  /** `new Date(s)` on the full form `YYYY-MM-DDTHH:mm:ss.sssZ`; None is the invalid date. */
  function ParseIso(s: string): Option<int> {
    var v :- Read(s, ISO_LAYOUT);
    ReadLength(s, ISO_LAYOUT);
    var f := Fields(v[0], v[1], v[2], v[3], v[4], v[5], v[6]);
    if Valid(f) then Some(TimeOf(f))
    else if f.hour == 24 && f.minute == f.second == f.ms == 0 && Valid(f.(hour := 0)) then Some(TimeOf(f))
    else None
  }

  lemma {:induction false} ReadLength(s: string, layout: Layout)
    ensures Read(s, layout).Some? ==> |Read(s, layout).value| == |layout|
  {
    if layout != [] && |s| >= layout[0].0 + |layout[0].1| {
      ReadLength(s[layout[0].0 + |layout[0].1|..], layout[1..]);
    }
  }

  /** `utcToDate` on a text. */
  function UtcToDate(date: string): Option<int> {
    var d := ReplaceFirst(date, ' ', 'T');
    ParseIso(if d == "" || d[|d| - 1] != 'Z' then d + "Z" else d)
  }

  /** The first instant of the year 0 and the first after the year 9999. */
  const YEAR_0 := -62167219200000
  const YEAR_10000 := 253402300800000

  predicate InYears(t: TimeValue) {
    YEAR_0 <= t < YEAR_10000
  }

  lemma YearsByTime(f: Fields)
    requires Valid(f)
    ensures f.year < 0 <==> TimeOf(f) < YEAR_0
    ensures f.year < 10000 <==> TimeOf(f) < YEAR_10000
  {
    var first, last := Fields(0, 1, 1, 0, 0, 0, 0), Fields(10000, 1, 1, 0, 0, 0, 0);
    assert DayFromYear(0) == -719528 && DayFromYear(10000) == 2932897;
    assert TimeOf(first) == YEAR_0 && TimeOf(last) == YEAR_10000;
    FieldsOrder(f, first);
    FieldsOrder(f, last);
  }

  lemma InYearsMeansYears(t: TimeValue)
    ensures InYears(t) <==> 0 <= Civil(t).year <= 9999
  {
    YearsByTime(Civil(t));
  }

  // ----- inside the years 0 to 9999 the text is a record of fixed-width numerals

  function Numbers(f: Fields): seq<int> {
    [f.year, f.month, f.day, f.hour, f.minute, f.second, f.ms]
  }

  lemma NumbersFit(f: Fields)
    requires Valid(f) && 0 <= f.year <= 9999
    ensures Fits(Numbers(f), SQL_LAYOUT) && Fits(Numbers(f), ISO_LAYOUT)
  {
    assert Pow10(2) == 100 && Pow10(3) == 1000 && Pow10(4) == 10000;
  }

  lemma NumbersLessStep(a: seq<int>, b: seq<int>, i: nat)
    requires i < |a| == |b|
    ensures NumbersLess(a[i..], b[i..]) <==> a[i] < b[i] || (a[i] == b[i] && NumbersLess(a[i + 1..], b[i + 1..]))
  {
    assert a[i..][1..] == a[i + 1..] && b[i..][1..] == b[i + 1..];
  }

  lemma NumbersOrder(f: Fields, g: Fields)
    ensures NumbersLess(Numbers(f), Numbers(g)) <==> FieldsLess(f, g)
  {
    var a, b := Numbers(f), Numbers(g);
    ClockNumbersOrder(f, g);
    NumbersLessStep(a, b, 2);
    NumbersLessStep(a, b, 1);
    NumbersLessStep(a, b, 0);
    assert a[0..] == a && b[0..] == b;
  }

  lemma ClockNumbersOrder(f: Fields, g: Fields)
    ensures NumbersLess(Numbers(f)[3..], Numbers(g)[3..]) <==>
      f.hour < g.hour || (f.hour == g.hour && (
      f.minute < g.minute || (f.minute == g.minute && (
      f.second < g.second || (f.second == g.second &&
      f.ms < g.ms)))))
  {
    var a, b := Numbers(f), Numbers(g);
    NumbersLessStep(a, b, 6);
    assert a[7..] == [] == b[7..];
    NumbersLessStep(a, b, 5);
    NumbersLessStep(a, b, 4);
    NumbersLessStep(a, b, 3);
  }

  /** The common shape of both texts: `sep` stands between day and hour, `end` at the end. */
  function Stamp(f: Fields, sep: string, end: string): string
    requires Valid(f) && 0 <= f.year <= 9999
  {
    Digits(f.year, 4) + ("-" + (Digits(f.month, 2) + ("-" + (Digits(f.day, 2) + (sep + ClockStamp(f, end))))))
  }

  function ClockStamp(f: Fields, end: string): string
    requires Valid(f)
  {
    Digits(f.hour, 2) + (":" + (Digits(f.minute, 2) + (":" + (Digits(f.second, 2) + ("." + (Digits(f.ms, 3) + end))))))
  }

  lemma RenderStep(values: seq<int>, layout: Layout, i: nat)
    requires Fits(values, layout) && i < |values|
    ensures Fits(values[i..], layout[i..]) && Fits(values[i + 1..], layout[i + 1..])
    ensures Render(values[i..], layout[i..])
      == Digits(values[i], layout[i].0) + (layout[i].1 + Render(values[i + 1..], layout[i + 1..]))
  {
    assert values[i..][1..] == values[i + 1..] && layout[i..][1..] == layout[i + 1..];
  }

  lemma ClockStampIsRendered(f: Fields, layout: Layout)
    requires Valid(f) && 0 <= f.year <= 9999 && (layout == SQL_LAYOUT || layout == ISO_LAYOUT)
    ensures Fits(Numbers(f)[3..], layout[3..])
    ensures Render(Numbers(f)[3..], layout[3..]) == ClockStamp(f, layout[6].1)
  {
    NumbersFit(f);
    var v := Numbers(f);
    RenderStep(v, layout, 3);
    RenderStep(v, layout, 4);
    RenderStep(v, layout, 5);
    RenderStep(v, layout, 6);
    assert v[7..] == [] && layout[6].1 + "" == layout[6].1;
  }

  lemma StampIsRendered(f: Fields, layout: Layout)
    requires Valid(f) && 0 <= f.year <= 9999 && (layout == SQL_LAYOUT || layout == ISO_LAYOUT)
    ensures Fits(Numbers(f), layout)
    ensures Render(Numbers(f), layout) == Stamp(f, layout[2].1, layout[6].1)
  {
    NumbersFit(f);
    ClockStampIsRendered(f, layout);
    var v := Numbers(f);
    RenderStep(v, layout, 0);
    RenderStep(v, layout, 1);
    RenderStep(v, layout, 2);
    assert v[0..] == v && layout[0..] == layout;
  }

  lemma {:induction false} ReplaceFirstAt(a: string, c: char, d: char, b: string)
    requires c !in a
    ensures ReplaceFirst(a + ([c] + b), c, d) == a + ([d] + b)
  {
    if a == "" {
      assert a + ([c] + b) == [c] + b && a + ([d] + b) == [d] + b;
    } else {
      ReplaceFirstAt(a[1..], c, d, b);
      assert (a + ([c] + b))[1..] == a[1..] + ([c] + b);
    }
  }

  lemma TwoDigits(f: Fields)
    requires Valid(f)
    ensures Ts(f.month, 2) == Digits(f.month, 2) && Ts(f.day, 2) == Digits(f.day, 2)
    ensures Ts(f.hour, 2) == Digits(f.hour, 2) && Ts(f.minute, 2) == Digits(f.minute, 2)
    ensures Ts(f.second, 2) == Digits(f.second, 2) && Ts(f.ms, 3) == Digits(f.ms, 3)
  {
    assert Pow10(2) == 100 && Pow10(3) == 1000;
    PadIsDigits(f.month, 2);
    PadIsDigits(f.day, 2);
    PadIsDigits(f.hour, 2);
    PadIsDigits(f.minute, 2);
    PadIsDigits(f.second, 2);
    PadIsDigits(f.ms, 3);
  }

  lemma DateTextIsPlain(f: Fields)
    requires Valid(f) && 0 <= f.year <= 9999
    ensures DateText(f) == Digits(f.year, 4) + "-" + Digits(f.month, 2) + "-" + Digits(f.day, 2)
    ensures forall c :: c in DateText(f) ==> IsDigit(c) || c == '-'
  {
    assert Pow10(4) == 10000;
    PadIsDigits(f.year, 4);
    TwoDigits(f);
    DigitsAreDigits(f.year, 4);
    DigitsAreDigits(f.month, 2);
    DigitsAreDigits(f.day, 2);
  }

  lemma RegroupDate(y: string, mo: string, d: string, rest: string)
    ensures y + ("-" + (mo + ("-" + (d + rest)))) == (y + "-" + mo + "-" + d) + rest
  {
  }

  /** Putting the date in front of a text that starts with the separator. */
  lemma StampFromDate(f: Fields, sep: string, end: string)
    requires Valid(f) && 0 <= f.year <= 9999
    ensures Stamp(f, sep, end) == DateText(f) + (sep + ClockStamp(f, end))
  {
    DateTextIsPlain(f);
    RegroupDate(Digits(f.year, 4), Digits(f.month, 2), Digits(f.day, 2), sep + ClockStamp(f, end));
  }

  lemma ClockStampFromMinute(f: Fields, end: string)
    requires Valid(f)
    ensures ClockStamp(f, end) == MinuteText(f) + ":" + Ts(f.second, 2) + "." + Ts(f.ms, 3) + end
  {
    TwoDigits(f);
  }

  lemma SliceOfConcat(a: string, b: string)
    ensures SliceTo(a + b, |a|) == a
  {
  }

  lemma RegroupJson(date: string, minute: string, second: string, ms: string)
    ensures date + "T" + minute + ":" + second + "." + ms + "Z"
      == (date + ("T" + (minute + (":" + second)))) + ("." + ms + "Z")
    ensures date + "T" + minute + ":" + second + "." + ms + "Z"
      == (date + ("T" + minute)) + (":" + second + "." + ms + "Z")
  {
  }

  lemma SlicedInside(t: TimeValue)
    requires InYears(t)
    ensures var f := Civil(t);
            ReplaceFirst(SliceTo(ToJson(t), 19), 'T', ' ')
            == DateText(f) + (" " + (MinuteText(f) + (":" + Ts(f.second, 2))))
  {
    InYearsMeansYears(t);
    var f := Civil(t);
    var date, clock := DateText(f), MinuteText(f) + (":" + Ts(f.second, 2));
    assert 'T' !in date && |date| == 10 by { DateTextIsPlain(f); }
    assert |clock| == 8 by { TwoDigits(f); }
    RegroupJson(DateText(f), MinuteText(f), Ts(f.second, 2), Ts(f.ms, 3));
    SliceOfConcat(date + ("T" + clock), "." + Ts(f.ms, 3) + "Z");
    ReplaceFirstAt(date, 'T', ' ', clock);
  }

  lemma RegroupStamp(date: string, minute: string, second: string, ms: string)
    ensures (date + (" " + (minute + (":" + second)))) + "." + ms
      == date + (" " + (minute + ":" + second + "." + ms + ""))
  {
  }

  lemma PrintedIsStamp(t: TimeValue)
    requires InYears(t)
    ensures 0 <= Civil(t).year <= 9999
    ensures ToUtcMySqlString(t) == Stamp(Civil(t), " ", "")
  {
    InYearsMeansYears(t);
    var f := Civil(t);
    SlicedInside(t);
    RegroupStamp(DateText(f), MinuteText(f), Ts(f.second, 2), Ts(f.ms, 3));
    StampFromDate(f, " ", "");
    ClockStampFromMinute(f, "");
  }

  lemma FewDigits(n: nat)
    ensures Digits(n, 2) == [Digit(n / 10 % 10), Digit(n % 10)]
    ensures Digits(n, 3) == [Digit(n / 100 % 10), Digit(n / 10 % 10), Digit(n % 10)]
    ensures Digits(n, 4) == [Digit(n / 1000 % 10), Digit(n / 100 % 10), Digit(n / 10 % 10), Digit(n % 10)]
  {
    assert Digits(n / 100, 0) == "" && Digits(n / 10, 1) == [Digit(n / 10 % 10)];
    assert Digits(n / 100, 1) == [Digit(n / 100 % 10)] && Digits(n / 1000, 1) == [Digit(n / 1000 % 10)];
    assert n / 10 / 10 == n / 100 && n / 100 / 10 == n / 1000;
    assert Digits(n / 100, 2) == Digits(n / 1000, 1) + [Digit(n / 100 % 10)];
    assert Digits(n / 10, 3) == Digits(n / 100, 2) + [Digit(n / 10 % 10)];
  }

  lemma RegroupAll(y: string, mo: string, d: string, h: string, mi: string, sec: string, ms: string)
    ensures y + ("-" + (mo + ("-" + (d + (" " + (h + (":" + (mi + (":" + (sec + ("." + (ms + ""))))))))))))
      == y + "-" + mo + "-" + d + " " + h + ":" + mi + ":" + sec + "." + ms
  {
  }

  /** `YYYY-MM-DD HH:mm:ss.sss`, digit by digit. */
  function SqlText(f: Fields): string {
    [Digit(f.year / 1000 % 10), Digit(f.year / 100 % 10), Digit(f.year / 10 % 10), Digit(f.year % 10)]
    + "-" + [Digit(f.month / 10 % 10), Digit(f.month % 10)]
    + "-" + [Digit(f.day / 10 % 10), Digit(f.day % 10)]
    + " " + [Digit(f.hour / 10 % 10), Digit(f.hour % 10)]
    + ":" + [Digit(f.minute / 10 % 10), Digit(f.minute % 10)]
    + ":" + [Digit(f.second / 10 % 10), Digit(f.second % 10)]
    + "." + [Digit(f.ms / 100 % 10), Digit(f.ms / 10 % 10), Digit(f.ms % 10)]
  }

  /** Inside the years 0 to 9999 all fields are printed, in this order and with these separators. */
  lemma PrintedShape(t: TimeValue)
    requires InYears(t)
    ensures ToUtcMySqlString(t) == SqlText(Civil(t))
  {
    PrintedIsStamp(t);
    StampShape(Civil(t));
  }

  lemma StampShape(f: Fields)
    requires Valid(f) && 0 <= f.year <= 9999
    ensures Stamp(f, " ", "") == SqlText(f)
  {
    FewDigits(f.year);
    FewDigits(f.month);
    FewDigits(f.day);
    FewDigits(f.hour);
    FewDigits(f.minute);
    FewDigits(f.second);
    FewDigits(f.ms);
    RegroupAll(Digits(f.year, 4), Digits(f.month, 2), Digits(f.day, 2), Digits(f.hour, 2), Digits(f.minute, 2),
               Digits(f.second, 2), Digits(f.ms, 3));
  }

  // ----- order

  /** Within the years 0 to 9999 the printed texts compare exactly as the instants do. */
  lemma PrintingKeepsOrder(a: TimeValue, b: TimeValue)
    requires InYears(a) && InYears(b)
    ensures LexLess(ToUtcMySqlString(a), ToUtcMySqlString(b)) <==> a < b
    ensures ToUtcMySqlString(a) == ToUtcMySqlString(b) <==> a == b
  {
    PrintedIsRendered(a);
    PrintedIsRendered(b);
    RenderOrder(Numbers(Civil(a)), Numbers(Civil(b)), SQL_LAYOUT);
    RenderOrder(Numbers(Civil(b)), Numbers(Civil(a)), SQL_LAYOUT);
    NumbersOrder(Civil(a), Civil(b));
    NumbersOrder(Civil(b), Civil(a));
    FieldsOrder(Civil(a), Civil(b));
    FieldsOrder(Civil(b), Civil(a));
    LexIrreflexive(ToUtcMySqlString(a));
  }

  lemma PrintedIsRendered(t: TimeValue)
    requires InYears(t)
    ensures Fits(Numbers(Civil(t)), SQL_LAYOUT) && ToUtcMySqlString(t) == Render(Numbers(Civil(t)), SQL_LAYOUT)
  {
    InYearsMeansYears(t);
    PrintedIsStamp(t);
    StampIsRendered(Civil(t), SQL_LAYOUT);
  }

  lemma {:induction false} LexIrreflexive(s: string)
    ensures !LexLess(s, s)
  {
    if s != "" { LexIrreflexive(s[1..]); }
  }

  // ----- round trip

  lemma ParseStamp(f: Fields)
    requires Valid(f) && 0 <= f.year <= 9999
    ensures ParseIso(Stamp(f, "T", "Z")) == Some(TimeOf(f))
  {
    StampIsRendered(f, ISO_LAYOUT);
    ReadInvertsRender(Numbers(f), ISO_LAYOUT);
  }

  lemma StampReplaced(f: Fields)
    requires Valid(f) && 0 <= f.year <= 9999
    ensures ReplaceFirst(Stamp(f, " ", ""), ' ', 'T') == Stamp(f, "T", "")
  {
    StampFromDate(f, " ", "");
    StampFromDate(f, "T", "");
    assert ' ' !in DateText(f) by { DateTextIsPlain(f); }
    ReplaceFirstAt(DateText(f), ' ', 'T', ClockStamp(f, ""));
  }

  lemma StampEnded(f: Fields)
    requires Valid(f) && 0 <= f.year <= 9999
    ensures Stamp(f, "T", "") + "Z" == Stamp(f, "T", "Z")
  {
    StampFromDate(f, "T", "");
    StampFromDate(f, "T", "Z");
    ClockStampFromMinute(f, "");
    ClockStampFromMinute(f, "Z");
  }

  lemma ParsePrinted(t: TimeValue)
    requires InYears(t)
    ensures UtcToDate(ToUtcMySqlString(t)) == Some(t)
  {
    InYearsMeansYears(t);
    var f := Civil(t);
    PrintedIsStamp(t);
    StampReplaced(f);
    LastIsDigit(f);
    StampEnded(f);
    ParseStamp(f);
  }

  /** The JSON text itself parses back, with all its fields. */
  lemma ParseJson(t: TimeValue)
    requires InYears(t)
    ensures ParseIso(ToJson(t)) == Some(t)
  {
    JsonIsStamp(t);
    ParseStamp(Civil(t));
  }

  lemma JsonIsStamp(t: TimeValue)
    requires InYears(t)
    ensures 0 <= Civil(t).year <= 9999 && ToJson(t) == Stamp(Civil(t), "T", "Z")
  {
    var f := Civil(t);
    InYearsMeansYears(t);
    StampFromDate(f, "T", "Z");
    ClockStampFromMinute(f, "Z");
    RegroupClock(DateText(f), MinuteText(f), Ts(f.second, 2), Ts(f.ms, 3));
  }

  /** A valid date is a Date: the years 0 to 9999 lie well inside its range. */
  lemma FieldsAreTime(f: Fields)
    requires Valid(f) && 0 <= f.year <= 9999
    ensures -MAX_TIME <= TimeOf(f) <= MAX_TIME && InYears(TimeOf(f)) && Civil(TimeOf(f)) == f
  {
    YearsByTime(f);
    CivilOfTime(f);
  }

  lemma YearFits(values: seq<int>)
    requires Fits(values, ISO_LAYOUT)
    ensures 0 <= values[0] <= 9999
  {
    assert Pow10(4) == 10000;
  }

  lemma FieldsParsed(s: string) returns (f: Fields)
    requires ParseIso(s).Some?
    ensures 0 <= f.year <= 9999 && 1 <= f.month <= 12
    ensures Fits(Numbers(f), ISO_LAYOUT) && Render(Numbers(f), ISO_LAYOUT) == s && ParseIso(s).value == TimeOf(f)
    ensures Valid(f) || (f.hour == 24 && f.minute == f.second == f.ms == 0 && Valid(f.(hour := 0)))
  {
    var v := Read(s, ISO_LAYOUT).value;
    ReadLength(s, ISO_LAYOUT);
    RenderInvertsRead(s, ISO_LAYOUT);
    YearFits(v);
    f := Fields(v[0], v[1], v[2], v[3], v[4], v[5], v[6]);
    assert Numbers(f) == v;
  }

  lemma JsonOfFields(f: Fields)
    requires Valid(f) && 0 <= f.year <= 9999 && Fits(Numbers(f), ISO_LAYOUT)
    ensures -MAX_TIME <= TimeOf(f) <= MAX_TIME && InYears(TimeOf(f))
    ensures ToJson(TimeOf(f)) == Render(Numbers(f), ISO_LAYOUT)
  {
    FieldsAreTime(f);
    JsonIsStamp(TimeOf(f));
    StampIsRendered(f, ISO_LAYOUT);
  }

  /** The text of the day of `f` at 24:00. */
  ghost predicate EndOfDay(f: Fields, s: string) {
    && Valid(f) && f.hour == f.minute == f.second == f.ms == 0
    && Fits(Numbers(f.(hour := 24)), ISO_LAYOUT) && s == Render(Numbers(f.(hour := 24)), ISO_LAYOUT)
  }

  /**
   The other direction: every text that is parsed as a valid date and time is the JSON text of its instant; the one
   other form is 24:00, which stands for the start of the next day.
   */
  lemma ParsedPrintsBack(s: string)
    requires ParseIso(s).Some?
    ensures var t := ParseIso(s).value;
            || (-MAX_TIME <= t <= MAX_TIME && InYears(t) && ToJson(t) == s)
            || exists f: Fields :: EndOfDay(f, s) && t == TimeOf(NextDay(f))
  {
    var f := FieldsParsed(s);
    if Valid(f) {
      JsonOfFields(f);
    } else {
      var g := f.(hour := 0);
      NextDayIsLater(g);
      assert g.(hour := 24) == f && EndOfDay(g, s) && ParseIso(s).value == TimeOf(NextDay(g));
    }
  }

  lemma RegroupClock(date: string, minute: string, second: string, ms: string)
    ensures date + "T" + minute + ":" + second + "." + ms + "Z"
      == date + ("T" + (minute + ":" + second + "." + ms + "Z"))
  {
  }

  lemma LastIsDigit(f: Fields)
    requires Valid(f) && 0 <= f.year <= 9999
    ensures var d := Stamp(f, "T", ""); d != "" && d[|d| - 1] != 'Z'
  {
    StampFromDate(f, "T", "");
    ClockStampFromMinute(f, "");
    TwoDigits(f);
    DigitsAreDigits(f.ms, 3);
    var d := Stamp(f, "T", "");
    assert d[|d| - 1] == Digits(f.ms, 3)[2];
    assert Digits(f.ms, 3)[2] in Digits(f.ms, 3);
  }

  // ----- outside those years

  lemma {:induction false} YearsAreSixDigits(t: TimeValue)
    ensures Abs(Civil(t).year) < 1000000
  {
    var y := Civil(t).year;
    var day := t / MS_PER_DAY;
    ClockTimeInDay(Civil(t));
    assert DayFromYear(y) <= day <= DayFromYear(y) + 366;
    if y > 1970 { YearsAscend(1970, y); } else { YearsAscend(y, 1970); }
  }

  const OUTSIDE_LAYOUT: Layout := [(6, "-"), (2, "-"), (2, " "), (2, ":"), (2, "."), (3, "")]

  /** What is left of the fields: no seconds. */
  function Coarse(f: Fields): seq<int> {
    [Abs(f.year), f.month, f.day, f.hour, f.minute, f.ms]
  }

  function Sign(f: Fields): string {
    if f.year < 0 then "-" else "+"
  }

  lemma CoarseFits(f: Fields)
    requires Valid(f) && Abs(f.year) < 1000000
    ensures Fits(Coarse(f), OUTSIDE_LAYOUT)
  {
    assert Pow10(2) == 100 && Pow10(3) == 1000 && Pow10(6) == 1000000;
  }

  lemma CoarseClockIsRendered(f: Fields)
    requires Valid(f) && Fits(Coarse(f), OUTSIDE_LAYOUT)
    ensures Fits(Coarse(f)[3..], OUTSIDE_LAYOUT[3..])
    ensures Render(Coarse(f)[3..], OUTSIDE_LAYOUT[3..])
      == Digits(f.hour, 2) + (":" + (Digits(f.minute, 2) + ("." + Digits(f.ms, 3))))
  {
    var v, l := Coarse(f), OUTSIDE_LAYOUT;
    RenderStep(v, l, 3);
    RenderStep(v, l, 4);
    RenderStep(v, l, 5);
    assert v[6..] == [] && Digits(f.ms, 3) + ("" + "") == Digits(f.ms, 3);
  }

  lemma CoarseIsRendered(f: Fields)
    requires Valid(f) && Fits(Coarse(f), OUTSIDE_LAYOUT)
    ensures Render(Coarse(f), OUTSIDE_LAYOUT) ==
      Digits(Abs(f.year), 6) + ("-" + (Digits(f.month, 2) + ("-" + (Digits(f.day, 2)
      + (" " + (Digits(f.hour, 2) + (":" + (Digits(f.minute, 2) + ("." + Digits(f.ms, 3))))))))))
  {
    var v, l := Coarse(f), OUTSIDE_LAYOUT;
    CoarseClockIsRendered(f);
    RenderStep(v, l, 0);
    RenderStep(v, l, 1);
    RenderStep(v, l, 2);
    assert v[0..] == v && l[0..] == l;
  }

  lemma OutsideYearText(y: int)
    requires !(0 <= y <= 9999) && Abs(y) < 1000000
    ensures YearText(y) == (if y < 0 then "-" else "+") + Digits(Abs(y), 6)
    ensures |YearText(y)| == 7 && 'T' !in YearText(y)
  {
    assert Pow10(6) == 1000000;
    PadIsDigits(Abs(y), 6);
    DigitsAreDigits(Abs(y), 6);
  }

  lemma NoLetters(f: Fields)
    requires Valid(f)
    ensures 'T' !in Digits(f.month, 2) && 'T' !in Digits(f.day, 2)
  {
    assert Pow10(2) == 100;
    DigitsAreDigits(f.month, 2);
    DigitsAreDigits(f.day, 2);
  }

  lemma OutsideDateText(f: Fields)
    requires Valid(f) && !(0 <= f.year <= 9999) && Abs(f.year) < 1000000
    ensures DateText(f) == Sign(f) + Digits(Abs(f.year), 6) + "-" + Digits(f.month, 2) + "-" + Digits(f.day, 2)
    ensures 'T' !in DateText(f) && |DateText(f)| == 13
  {
    OutsideYearText(f.year);
    TwoDigits(f);
    NoLetters(f);
  }

  lemma SlicedOutside(t: TimeValue)
    requires !InYears(t)
    ensures ReplaceFirst(SliceTo(ToJson(t), 19), 'T', ' ') == DateText(Civil(t)) + (" " + MinuteText(Civil(t)))
  {
    InYearsMeansYears(t);
    var f := Civil(t);
    var date, minute := DateText(f), MinuteText(f);
    YearsAreSixDigits(t);
    assert 'T' !in date && |date| == 13 by { OutsideDateText(f); }
    assert |minute| == 5 by { TwoDigits(f); }
    RegroupJson(DateText(f), MinuteText(f), Ts(f.second, 2), Ts(f.ms, 3));
    SliceOfConcat(date + ("T" + minute), ":" + Ts(f.second, 2) + "." + Ts(f.ms, 3) + "Z");
    ReplaceFirstAt(date, 'T', ' ', minute);
  }

  lemma RegroupOutside(sign: string, y: string, mo: string, d: string, h: string, mi: string, ms: string)
    ensures ((sign + y + "-" + mo + "-" + d) + (" " + (h + ":" + mi))) + "." + ms
      == sign + (y + ("-" + (mo + ("-" + (d + (" " + (h + (":" + (mi + ("." + ms))))))))))
  {
  }

  /** Outside the years 0 to 9999 the slice ends after the minute: the seconds are lost. */
  lemma PrintedOutside(t: TimeValue)
    requires !InYears(t)
    ensures Fits(Coarse(Civil(t)), OUTSIDE_LAYOUT)
    ensures ToUtcMySqlString(t) == Sign(Civil(t)) + Render(Coarse(Civil(t)), OUTSIDE_LAYOUT)
  {
    InYearsMeansYears(t);
    var f := Civil(t);
    YearsAreSixDigits(t);
    CoarseFits(f);
    CoarseIsRendered(f);
    SlicedOutside(t);
    OutsideDateText(f);
    TwoDigits(f);
    RegroupOutside(Sign(f), Digits(Abs(f.year), 6), Digits(f.month, 2), Digits(f.day, 2),
                   Digits(f.hour, 2), Digits(f.minute, 2), Digits(f.ms, 3));
  }

  lemma SixDigits(n: nat)
    ensures Digits(n, 6) == [Digit(n / 100000 % 10), Digit(n / 10000 % 10)] + Digits(n, 4)
  {
    assert n / 10 / 10 == n / 100 && n / 100 / 10 == n / 1000 && n / 1000 / 10 == n / 10000;
    assert n / 10000 / 10 == n / 100000;
    FewDigits(n / 10000);
    FewDigits(n);
    assert Digits(n, 6) == Digits(n / 10, 5) + [Digit(n % 10)];
    assert Digits(n / 10, 5) == Digits(n / 100, 4) + [Digit(n / 10 % 10)];
    assert Digits(n / 100, 4) == Digits(n / 1000, 3) + [Digit(n / 100 % 10)];
    assert Digits(n / 1000, 3) == Digits(n / 10000, 2) + [Digit(n / 1000 % 10)];
  }

  /** `+YYYYYY-MM-DD HH:mm.sss` or `-YYYYYY-MM-DD HH:mm.sss`: no seconds. */
  function CoarseText(f: Fields): string {
    var y := Abs(f.year);
    (if f.year < 0 then "-" else "+")
    + [Digit(y / 100000 % 10), Digit(y / 10000 % 10)]
    + [Digit(y / 1000 % 10), Digit(y / 100 % 10), Digit(y / 10 % 10), Digit(y % 10)]
    + "-" + [Digit(f.month / 10 % 10), Digit(f.month % 10)]
    + "-" + [Digit(f.day / 10 % 10), Digit(f.day % 10)]
    + " " + [Digit(f.hour / 10 % 10), Digit(f.hour % 10)]
    + ":" + [Digit(f.minute / 10 % 10), Digit(f.minute % 10)]
    + "." + [Digit(f.ms / 100 % 10), Digit(f.ms / 10 % 10), Digit(f.ms % 10)]
  }

  lemma RegroupCoarse(sign: string, a: string, b: string, mo: string, d: string, h: string, mi: string, ms: string)
    ensures sign + ((a + b) + ("-" + (mo + ("-" + (d + (" " + (h + (":" + (mi + ("." + ms))))))))))
      == sign + a + b + "-" + mo + "-" + d + " " + h + ":" + mi + "." + ms
  {
  }

  lemma CoarseShape(f: Fields)
    requires Valid(f) && Fits(Coarse(f), OUTSIDE_LAYOUT)
    ensures Sign(f) + Render(Coarse(f), OUTSIDE_LAYOUT) == CoarseText(f)
  {
    CoarseIsRendered(f);
    var y := Abs(f.year);
    SixDigits(y);
    FewDigits(y);
    FewDigits(f.month);
    FewDigits(f.day);
    FewDigits(f.hour);
    FewDigits(f.minute);
    FewDigits(f.ms);
    RegroupCoarse(Sign(f), [Digit(y / 100000 % 10), Digit(y / 10000 % 10)], Digits(y, 4), Digits(f.month, 2),
                  Digits(f.day, 2), Digits(f.hour, 2), Digits(f.minute, 2), Digits(f.ms, 3));
  }

  /** Outside those years the year has a sign and six digits, and the seconds are missing. */
  lemma PrintedShapeOutside(t: TimeValue)
    requires !InYears(t)
    ensures ToUtcMySqlString(t) == CoarseText(Civil(t))
  {
    PrintedOutside(t);
    CoarseShape(Civil(t));
  }

  lemma NoDigitNoDate(s: string)
    requires s != "" && !IsDigit(s[0])
    ensures ParseIso(s) == None
  {
    if |s| >= 4 { assert s[..4][0] in s[..4]; }
  }

  lemma ParseOutside(t: TimeValue)
    requires !InYears(t)
    ensures UtcToDate(ToUtcMySqlString(t)) == None
  {
    PrintedOutside(t);
    var s := ToUtcMySqlString(t);
    var d := ReplaceFirst(s, ' ', 'T');
    assert d[0] == s[0] && !IsDigit(s[0]);
    NoDigitNoDate(if d[|d| - 1] != 'Z' then d + "Z" else d);
  }

  /**
   Parsing undoes printing exactly for the instants of the years 0 to 9999. For the other instants this rests on
   `ParseIso` refusing every text that is not in the standard form; ECMA-262 leaves such texts to the
   implementation. `PrintedOnce` below does not depend on the parser: outside those years the text of an instant
   is also that of another one, so that no parser at all could undo the printing, the last Date of all excepted.
   */
  lemma RoundTrip(t: TimeValue)
    ensures UtcToDate(ToUtcMySqlString(t)) == Some(t) <==> InYears(t)
  {
    if InYears(t) { ParsePrinted(t); } else { ParseOutside(t); }
  }

  lemma MinuteOf(f: Fields)
    requires Valid(f)
    ensures TimeOf(f) / MS_PER_MINUTE == DayNumber(f.year, f.month, f.day) * 1440 + f.hour * 60 + f.minute
    ensures TimeOf(f) % MS_PER_MINUTE == f.second * MS_PER_SECOND + f.ms
  {
    var q, r := DayNumber(f.year, f.month, f.day) * 1440 + f.hour * 60 + f.minute, f.second * MS_PER_SECOND + f.ms;
    assert TimeOf(f) == q * MS_PER_MINUTE + r && 0 <= r < MS_PER_MINUTE;
  }

  predicate SameButSeconds(t: int, u: int) {
    t / MS_PER_MINUTE == u / MS_PER_MINUTE && (t - u) % 1000 == 0
  }

  lemma SameTime(f: Fields, g: Fields)
    requires Valid(f) && Valid(g) && TimeOf(f) == TimeOf(g)
    ensures f == g
  {
    CivilOfTime(f);
    CivilOfTime(g);
  }

  lemma SameRemainder(a: int, b: int, s: int, m: int, r: int, n: int)
    requires a / MS_PER_MINUTE == b / MS_PER_MINUTE && 0 <= m < 1000 && 0 <= n < 1000
    requires a % MS_PER_MINUTE == s * 1000 + m && b % MS_PER_MINUTE == r * 1000 + n
    ensures (a - b) % 1000 == 0 <==> m == n
  {
    assert a - b == (s - r) * 1000 + (m - n);
    assert (a - b) % 1000 == (m - n) % 1000;
  }

  lemma SameMs(f: Fields, g: Fields)
    requires Valid(f) && Valid(g)
    ensures SameButSeconds(TimeOf(f), TimeOf(g)) <==>
      TimeOf(f) / MS_PER_MINUTE == TimeOf(g) / MS_PER_MINUTE && f.ms == g.ms
  {
    assert TimeOf(f) % MS_PER_MINUTE == f.second * MS_PER_SECOND + f.ms by { MinuteOf(f); }
    assert TimeOf(g) % MS_PER_MINUTE == g.second * MS_PER_SECOND + g.ms by { MinuteOf(g); }
    if TimeOf(f) / MS_PER_MINUTE == TimeOf(g) / MS_PER_MINUTE {
      SameRemainder(TimeOf(f), TimeOf(g), f.second, f.ms, g.second, g.ms);
    }
  }

  lemma SameButSecondsFields(f: Fields, g: Fields)
    requires Valid(f) && Valid(g) && SameButSeconds(TimeOf(f), TimeOf(g))
    ensures g == f.(second := g.second)
  {
    var h := f.(second := g.second);
    SameMs(f, g);
    assert TimeOf(f) % MS_PER_MINUTE == f.second * MS_PER_SECOND + f.ms by { MinuteOf(f); }
    assert TimeOf(g) % MS_PER_MINUTE == g.second * MS_PER_SECOND + g.ms by { MinuteOf(g); }
    assert TimeOf(h) == TimeOf(f) + (g.second - f.second) * MS_PER_SECOND;
    SameTime(g, h);
  }

  /** Outside the years 0 to 9999 two instants share a text exactly when they differ only in their seconds. */
  lemma OutsideCollisions(t: TimeValue, u: TimeValue)
    requires !InYears(t)
    ensures ToUtcMySqlString(t) == ToUtcMySqlString(u) <==> SameButSeconds(t, u)
  {
    var f, g := Civil(t), Civil(u);
    PrintedOutside(t);
    if SameButSeconds(t, u) {
      SameButSecondsFields(f, g);
      InYearsMeansYears(t);
      InYearsMeansYears(u);
      PrintedOutside(u);
    } else if ToUtcMySqlString(t) == ToUtcMySqlString(u) {
      if InYears(u) {
        ParsePrinted(u);
        ParseOutside(t);
      } else {
        PrintedOutside(u);
        assert (Sign(f) + Render(Coarse(f), OUTSIDE_LAYOUT))[1..] == Render(Coarse(f), OUTSIDE_LAYOUT);
        assert (Sign(g) + Render(Coarse(g), OUTSIDE_LAYOUT))[1..] == Render(Coarse(g), OUTSIDE_LAYOUT);
        assert Sign(f) == Sign(g);
        ReadInvertsRender(Coarse(f), OUTSIDE_LAYOUT);
        ReadInvertsRender(Coarse(g), OUTSIDE_LAYOUT);
        SameCoarse(f, g);
      }
    }
  }

  lemma SameCoarse(f: Fields, g: Fields)
    requires Valid(f) && Valid(g) && Coarse(f) == Coarse(g) && Sign(f) == Sign(g)
    ensures SameButSeconds(TimeOf(f), TimeOf(g))
  {
    var v, w := Coarse(f), Coarse(g);
    assert v[0] == w[0] && v[1] == w[1] && v[2] == w[2] && v[3] == w[3] && v[4] == w[4] && v[5] == w[5];
    MinuteOf(f);
    MinuteOf(g);
    SameMs(f, g);
  }

  ghost predicate UniquelyPrinted(t: TimeValue) {
    forall u: TimeValue :: ToUtcMySqlString(u) == ToUtcMySqlString(t) ==> u == t
  }

  /** Another instant with the text of `t`; the last Date of all has none. */
  function OtherSecond(t: TimeValue): (u: TimeValue)
    requires t != MAX_TIME
    ensures u != t && SameButSeconds(t, u)
  {
    var q, r := t / MS_PER_MINUTE, t % MS_PER_MINUTE;
    var s := if r < 1000 then r + 1000 else r - 1000;
    assert (q * MS_PER_MINUTE + s) / MS_PER_MINUTE == q;
    q * MS_PER_MINUTE + s
  }

  /** No other instant prints like `t` exactly when `t` lies in the years 0 to 9999 or is the last Date of all. */
  lemma PrintedOnce(t: TimeValue)
    ensures UniquelyPrinted(t) <==> InYears(t) || t == MAX_TIME
  {
    if InYears(t) {
      forall u: TimeValue | ToUtcMySqlString(u) == ToUtcMySqlString(t) ensures u == t {
        ParsePrinted(t);
        RoundTrip(u);
        if !InYears(u) { ParseOutside(u); }
      }
    } else if t == MAX_TIME {
      forall u: TimeValue | ToUtcMySqlString(u) == ToUtcMySqlString(t) ensures u == t {
        OutsideCollisions(t, u);
      }
    } else {
      OutsideCollisions(t, OtherSecond(t));
    }
  }

  /**
   Outside those years every instant but the last Date of all has a partner in the same minute such that no parser
   whatever recovers both.
   */
  lemma NoParserUndoes(parse: string -> Option<int>, t: TimeValue)
    requires !InYears(t) && t != MAX_TIME
    ensures var u := OtherSecond(t);
            !(parse(ToUtcMySqlString(t)) == Some(t) && parse(ToUtcMySqlString(u)) == Some(u))
  {
    OutsideCollisions(t, OtherSecond(t));
  }
}
