/**
 The totals of a transaction receipt: the loop of `createTransactionPdf` in backend/src/html/transaction.html.ts.
 Prices, quantities and rates are exact reals. Every amount the loop keeps has just been rounded, so it is
 represented by its number of cents.
 */
module Receipt {
  import opened JsMap

  datatype Item = Item(qty: real, unitPriceExclVat: real, vatRate: real)
  datatype VatGroup = VatGroup(base: int, vat: int)

  /** `Math.round`: to the nearest integer, halves upwards. */
  function MathRound(x: real): int {
    (x + 0.5).Floor
  }

  /** The number of cents in `roundCents(n)`. */
  function RoundCents(n: real): int {
    MathRound(n * 100.0)
  }

  function Euros(cents: int): real {
    cents as real / 100.0
  }

  // ----- rounding

  lemma RoundingError(n: real)
    ensures -0.005 <= Euros(RoundCents(n)) - n <= 0.005
  {
  }

  /** Rounding a sum of amounts in whole cents changes nothing. */
  lemma RoundedSumIsSum(k: int, l: int)
    ensures RoundCents(Euros(k) + Euros(l)) == k + l
  {
    var x := Euros(k) + Euros(l);
    assert x * 100.0 == (k + l) as real;
    assert ((k + l) as real + 0.5).Floor == k + l;
  }

  /** `roundCents(a + b)` on amounts the loop keeps. */
  function RoundedSum(k: int, l: int): int {
    RoundCents(Euros(k) + Euros(l))
  }

  // ----- what the lines amount to

  function Net(item: Item): real {
    item.unitPriceExclVat * item.qty
  }

  function Percent(amount: real, rate: real): real {
    amount * rate / 100.0
  }

  /** The rounded net amount of a line. */
  function Base(item: Item): int {
    RoundCents(Net(item))
  }

  /** The rounded VAT over the rounded net amount. */
  function Vat(item: Item): int {
    RoundCents(Percent(Euros(Base(item)), item.vatRate))
  }

  /** A line in rounded amounts. The table only compares rates, so their type is left open. */
  datatype Line<+K> = Line(rate: K, base: int, vat: int)

  function LineOf(item: Item): Line<real> {
    Line(item.vatRate, Base(item), Vat(item))
  }

  function Lines(items: seq<Item>): (lines: seq<Line<real>>)
    ensures |lines| == |items|
  {
    seq(|items|, i requires 0 <= i < |items| => LineOf(items[i]))
  }

  function SumBase<K>(lines: seq<Line<K>>): int {
    if lines == [] then 0 else SumBase(lines[..|lines| - 1]) + lines[|lines| - 1].base
  }

  function SumVat<K>(lines: seq<Line<K>>): int {
    if lines == [] then 0 else SumVat(lines[..|lines| - 1]) + lines[|lines| - 1].vat
  }

  function Sum(xs: seq<int>): int {
    if xs == [] then 0 else Sum(xs[..|xs| - 1]) + xs[|xs| - 1]
  }

  /** The lines with one rate. */
  function OfRate<K(==)>(lines: seq<Line<K>>, rate: K): seq<Line<K>> {
    if lines == [] then []
    else
      var last := lines[|lines| - 1];
      OfRate(lines[..|lines| - 1], rate) + if last.rate == rate then [last] else []
  }

  type Groups<K> = seq<(K, VatGroup)>

  /** What the VAT table shows for a rate. */
  ghost function GroupFor<K>(lines: seq<Line<K>>, rate: K): VatGroup {
    VatGroup(SumBase(OfRate(lines, rate)), SumVat(OfRate(lines, rate)))
  }

  ghost predicate GroupsOf<K>(groups: Groups<K>, lines: seq<Line<K>>) {
    && DistinctKeys(groups)
    && Holds(groups, r => GroupFor(lines, r))
    && HasRates(groups, lines)
  }

  ghost predicate HasRates<K>(groups: Groups<K>, lines: seq<Line<K>>) {
    forall j {:trigger lines[j].rate} :: 0 <= j < |lines| ==> lines[j].rate in Keys(groups)
  }

  lemma NoLines<K>(groups: Groups<K>, lines: seq<Line<K>>, rate: K)
    requires GroupsOf(groups, lines) && !HasKey(groups, rate)
    ensures OfRate(lines, rate) == []
  {
    forall j | 0 <= j < |lines| ensures lines[j].rate != rate {
      assert lines[j].rate in Keys(groups);
    }
    NoneOfRate(lines, rate);
  }

  lemma {:induction false} NoneOfRate<K>(lines: seq<Line<K>>, rate: K)
    requires forall j :: 0 <= j < |lines| ==> lines[j].rate != rate
    ensures OfRate(lines, rate) == []
  {
    if lines != [] { NoneOfRate(lines[..|lines| - 1], rate); }
  }

  lemma OfRateOneMore<K>(lines: seq<Line<K>>, line: Line<K>, rate: K)
    ensures OfRate(lines + [line], rate) ==
      if line.rate == rate then OfRate(lines, rate) + [line] else OfRate(lines, rate)
  {
    assert (lines + [line])[..|lines|] == lines;
  }

  lemma SumsOneMore<K>(lines: seq<Line<K>>, line: Line<K>)
    ensures SumBase(lines + [line]) == SumBase(lines) + line.base
    ensures SumVat(lines + [line]) == SumVat(lines) + line.vat
  {
    assert (lines + [line])[..|lines|] == lines;
  }

  lemma GroupOneMore<K>(lines: seq<Line<K>>, line: Line<K>, rate: K)
    ensures GroupFor(lines + [line], rate) ==
      if line.rate == rate
      then VatGroup(GroupFor(lines, rate).base + line.base, GroupFor(lines, rate).vat + line.vat)
      else GroupFor(lines, rate)
  {
    OfRateOneMore(lines, line, rate);
    SumsOneMore(OfRate(lines, rate), line);
  }

  lemma GroupsGrow<K>(groups: Groups<K>, lines: seq<Line<K>>, line: Line<K>, group: VatGroup)
    requires GroupsOf(groups, lines) && group == GroupFor(lines + [line], line.rate)
    ensures GroupsOf(Put(groups, line.rate, group), lines + [line])
  {
    forall i | 0 <= i < |groups| && groups[i].0 != line.rate
      ensures GroupFor(lines + [line], groups[i].0) == GroupFor(lines, groups[i].0)
    {
      GroupOneMore(lines, line, groups[i].0);
    }
    PutHolds(groups, line.rate, r => GroupFor(lines, r), r => GroupFor(lines + [line], r));
    PutHasKeys(groups, line.rate, group);
    RatesGrow(Put(groups, line.rate, group), lines, line);
  }

  lemma RatesGrow<K>(groups: Groups<K>, lines: seq<Line<K>>, line: Line<K>)
    requires HasRates(groups, lines) && line.rate in Keys(groups)
    ensures HasRates(groups, lines + [line])
  {
  }

  // ----- the loop

  lemma LinesOneMore(items: seq<Item>, i: nat)
    requires i < |items|
    ensures Lines(items[..i + 1]) == Lines(items[..i]) + [LineOf(items[i])]
  {
  }

  ghost predicate LineTotals<K>(lineTotals: seq<int>, lines: seq<Line<K>>) {
    && |lineTotals| == |lines|
    && forall i {:trigger lineTotals[i]} :: 0 <= i < |lines| ==> lineTotals[i] == lines[i].base + lines[i].vat
  }

  method LineAmounts(item: Item) returns (baseTotal: int, vatTotal: int)
    ensures Line(item.vatRate, baseTotal, vatTotal) == LineOf(item)
  {
    baseTotal := RoundCents(Net(item));
    vatTotal := RoundCents(Percent(Euros(baseTotal), item.vatRate));
  }

  lemma LookUp<K>(groups: Groups<K>, lines: seq<Line<K>>, rate: K)
    requires GroupsOf(groups, lines)
    ensures HasKey(groups, rate) ==>
      IndexOf(groups, rate) < |groups| && groups[IndexOf(groups, rate)].1 == GroupFor(lines, rate)
    ensures !HasKey(groups, rate) ==> GroupFor(lines, rate) == VatGroup(0, 0)
  {
    if !HasKey(groups, rate) { NoLines(groups, lines, rate); }
  }

  method Increased(group: VatGroup, baseTotal: int, vatTotal: int) returns (r: VatGroup)
    ensures r == VatGroup(group.base + baseTotal, group.vat + vatTotal)
  {
    RoundedSumIsSum(group.base, baseTotal);
    RoundedSumIsSum(group.vat, vatTotal);
    r := VatGroup(RoundedSum(group.base, baseTotal), RoundedSum(group.vat, vatTotal));
  }

  /** The update of the VAT table for one line. */
  method AddToGroup<K(==)>(groups: Map<K, VatGroup>, vatRate: K, baseTotal: int, vatTotal: int,
                           ghost before: seq<Line<K>>)
    requires groups.Valid() && GroupsOf(groups.entries, before)
    modifies groups
    ensures groups.Valid() && GroupsOf(groups.entries, before + [Line(vatRate, baseTotal, vatTotal)])
  {
    ghost var line := Line(vatRate, baseTotal, vatTotal);
    LookUp(groups.entries, before, vatRate);
    var group := VatGroup(0, 0);
    var has := groups.Has(vatRate);
    if has {
      group := groups.Get(vatRate);
    }
    GroupOneMore(before, line, vatRate);
    group := Increased(group, baseTotal, vatTotal);
    assert group == GroupFor(before + [line], vatRate);
    GroupsGrow(groups.entries, before, line, group);
    groups.Set(vatRate, group);
  }

  /** What the loop has established after the given lines. */
  ghost predicate Tallied<K>(lines: seq<Line<K>>, subtotalExcl: int, totalVat: int, lineTotals: seq<int>) {
    subtotalExcl == SumBase(lines) && totalVat == SumVat(lines) && LineTotals(lineTotals, lines)
  }

  lemma TalliedOneMore<K>(lines: seq<Line<K>>, subtotalExcl: int, totalVat: int, lineTotals: seq<int>, line: Line<K>)
    requires Tallied(lines, subtotalExcl, totalVat, lineTotals)
    ensures Tallied(lines + [line], subtotalExcl + line.base, totalVat + line.vat, lineTotals + [line.base + line.vat])
  {
    SumsOneMore(lines, line);
  }

  method RoundedSums(subtotalExcl: int, totalVat: int, baseTotal: int, vatTotal: int)
    returns (newSubtotal: int, newVat: int, lineTotalIncl: int)
    ensures newSubtotal == subtotalExcl + baseTotal && newVat == totalVat + vatTotal
    ensures lineTotalIncl == baseTotal + vatTotal
  {
    RoundedSumIsSum(subtotalExcl, baseTotal);
    RoundedSumIsSum(totalVat, vatTotal);
    RoundedSumIsSum(baseTotal, vatTotal);
    newSubtotal := RoundedSum(subtotalExcl, baseTotal);
    newVat := RoundedSum(totalVat, vatTotal);
    lineTotalIncl := RoundedSum(baseTotal, vatTotal);
  }

  /** The running totals and the printed line totals after one more line. */
  method AddTotals<K>(line: Line<K>, subtotalExcl: int, totalVat: int, lineTotals: seq<int>, ghost before: seq<Line<K>>)
    returns (newSubtotal: int, newVat: int, newLineTotals: seq<int>)
    requires Tallied(before, subtotalExcl, totalVat, lineTotals)
    ensures Tallied(before + [line], newSubtotal, newVat, newLineTotals)
  {
    TalliedOneMore(before, subtotalExcl, totalVat, lineTotals, line);
    var lineTotal;
    newSubtotal, newVat, lineTotal := RoundedSums(subtotalExcl, totalVat, line.base, line.vat);
    newLineTotals := lineTotals + [lineTotal];
  }

  /** The callback that runs for every item: `before` are the lines seen so far, `after` has one line more. */
  method AddLine(item: Item, subtotalExcl: int, totalVat: int, lineTotals: seq<int>, groups: Map<real, VatGroup>,
                 ghost before: seq<Line<real>>, ghost after: seq<Line<real>>)
    returns (newSubtotal: int, newVat: int, newLineTotals: seq<int>)
    requires after == before + [LineOf(item)]
    requires Tallied(before, subtotalExcl, totalVat, lineTotals)
    requires groups.Valid() && GroupsOf(groups.entries, before)
    modifies groups
    ensures Tallied(after, newSubtotal, newVat, newLineTotals)
    ensures groups.Valid() && GroupsOf(groups.entries, after)
  {
    var baseTotal, vatTotal := LineAmounts(item);
    newSubtotal, newVat, newLineTotals :=
      AddTotals(Line(item.vatRate, baseTotal, vatTotal), subtotalExcl, totalVat, lineTotals, before);
    AddToGroup(groups, item.vatRate, baseTotal, vatTotal, before);
  }

  /** The loop over the items. */
  method AddLines(items: seq<Item>, groups: Map<real, VatGroup>)
    returns (subtotalExcl: int, totalVat: int, lineTotals: seq<int>)
    requires groups.Valid() && groups.entries == []
    modifies groups
    ensures Tallied(Lines(items), subtotalExcl, totalVat, lineTotals)
    ensures groups.Valid() && GroupsOf(groups.entries, Lines(items))
  {
    subtotalExcl, totalVat, lineTotals := 0, 0, [];
    for i := 0 to |items|
      invariant Tallied(Lines(items[..i]), subtotalExcl, totalVat, lineTotals)
      invariant groups.Valid() && GroupsOf(groups.entries, Lines(items[..i]))
    {
      LinesOneMore(items, i);
      subtotalExcl, totalVat, lineTotals :=
        AddLine(items[i], subtotalExcl, totalVat, lineTotals, groups, Lines(items[..i]), Lines(items[..i + 1]));
    }
    assert items[..|items|] == items;
  }

  /**
   The totals over the lines, the amount printed on each line and the VAT table, before it is sorted for
   display; all in cents.
   */
  method CreateTransactionTotals(items: seq<Item>)
    returns (subtotalExcl: int, totalVat: int, totalIncl: int, lineTotals: seq<int>, vatGroups: Groups<real>)
    ensures AreLines(Lines(items), items)
    ensures Tallied(Lines(items), subtotalExcl, totalVat, lineTotals) && GroupsOf(vatGroups, Lines(items))
    ensures totalIncl == subtotalExcl + totalVat
    ensures WithinTolerances(totalIncl, items)
  {
    var groups := new Map<real, VatGroup>();
    subtotalExcl, totalVat, lineTotals := AddLines(items, groups);
    RoundedSumIsSum(subtotalExcl, totalVat);
    totalIncl := RoundedSum(subtotalExcl, totalVat);
    vatGroups := groups.entries;
    LinesFromItems(items, Lines(items));
    TotalIsWithin(items);
  }

  // ----- conservation

  ghost function SumOfGroups<K>(groups: Groups<K>): VatGroup {
    if groups == [] then VatGroup(0, 0)
    else
      var rest := SumOfGroups(groups[1..]);
      VatGroup(groups[0].1.base + rest.base, groups[0].1.vat + rest.vat)
  }

  /** The lines whose rate does not occur among the first groups. */
  function Without<K(==)>(lines: seq<Line<K>>, rate: K): seq<Line<K>> {
    if lines == [] then []
    else
      var last := lines[|lines| - 1];
      Without(lines[..|lines| - 1], rate) + if last.rate == rate then [] else [last]
  }

  lemma {:induction false} SplitByRate<K>(lines: seq<Line<K>>, rate: K)
    ensures SumBase(lines) == SumBase(OfRate(lines, rate)) + SumBase(Without(lines, rate))
    ensures SumVat(lines) == SumVat(OfRate(lines, rate)) + SumVat(Without(lines, rate))
  {
    if lines != [] {
      var front, last := lines[..|lines| - 1], lines[|lines| - 1];
      SplitByRate(front, rate);
      if last.rate == rate {
        SumsOneMore(OfRate(front, rate), last);
        assert Without(lines, rate) == Without(front, rate);
      } else {
        SumsOneMore(Without(front, rate), last);
        assert OfRate(lines, rate) == OfRate(front, rate);
      }
    }
  }

  lemma {:induction false} WithoutKeepsOthers<K>(lines: seq<Line<K>>, rate: K, other: K)
    requires rate != other
    ensures OfRate(Without(lines, rate), other) == OfRate(lines, other)
  {
    if lines != [] {
      var front, last := lines[..|lines| - 1], lines[|lines| - 1];
      WithoutKeepsOthers(front, rate, other);
      if last.rate != rate {
        OfRateOneMore(Without(front, rate), last, other);
        assert OfRate(lines, other) == OfRate(front + [last], other) by { assert front + [last] == lines; }
        OfRateOneMore(front, last, other);
      } else {
        assert OfRate(lines, other) == OfRate(front, other);
        assert Without(lines, rate) == Without(front, rate);
      }
    }
  }

  lemma {:induction false} WithoutRates<K>(lines: seq<Line<K>>, rate: K)
    ensures forall x :: x in Without(lines, rate) ==> x in lines && x.rate != rate
  {
    if lines != [] {
      WithoutRates(lines[..|lines| - 1], rate);
      assert lines == lines[..|lines| - 1] + [lines[|lines| - 1]];
    }
  }

  lemma RestOfGroups<K>(groups: Groups<K>, lines: seq<Line<K>>)
    requires groups != [] && GroupsOf(groups, lines)
    ensures GroupsOf(groups[1..], Without(lines, groups[0].0))
  {
    var rate, rest, others := groups[0].0, groups[1..], Without(lines, groups[0].0);
    forall i | 0 <= i < |rest| ensures rest[i].1 == GroupFor(others, rest[i].0) {
      assert rest[i] == groups[i + 1];
      WithoutKeepsOthers(lines, rate, rest[i].0);
    }
    WithoutRates(lines, rate);
    forall j | 0 <= j < |others| ensures others[j].rate in Keys(rest) {
      assert others[j] in others && others[j] in lines;
      var k :| 0 <= k < |groups| && groups[k].0 == others[j].rate;
      assert k > 0 && rest[k - 1] == groups[k];
    }
  }

  /** The rows of the VAT table add up to the subtotal and the total VAT. */
  lemma {:induction false} GroupsConserveTotals<K>(groups: Groups<K>, lines: seq<Line<K>>)
    requires GroupsOf(groups, lines)
    ensures SumOfGroups(groups) == VatGroup(SumBase(lines), SumVat(lines))
  {
    if groups != [] {
      RestOfGroups(groups, lines);
      GroupsConserveTotals(groups[1..], Without(lines, groups[0].0));
      SplitByRate(lines, groups[0].0);
    }
  }

  /** The total including VAT is the sum of the amounts printed on the lines. */
  lemma {:induction false} LinesAddUp<K>(lines: seq<Line<K>>, lineTotals: seq<int>)
    requires LineTotals(lineTotals, lines)
    ensures Sum(lineTotals) == SumBase(lines) + SumVat(lines)
  {
    if lines != [] { LinesAddUp(lines[..|lines| - 1], lineTotals[..|lines| - 1]); }
  }

  // ----- distance from the exact amounts

  function Abs(x: real): (r: real)
    ensures r >= 0.0
  {
    if x < 0.0 then -x else x
  }

  /** Quantity times price, and the VAT on top. */
  function Exact(item: Item): real {
    item.qty * item.unitPriceExclVat * (1.0 + item.vatRate / 100.0)
  }

  lemma ExactIsOnNet(item: Item)
    ensures Exact(item) == Net(item) * (1.0 + item.vatRate / 100.0)
  {
    assert item.qty * item.unitPriceExclVat == Net(item);
  }

  /** Half a cent for the net amount, half a cent for the VAT, and the VAT over the first half cent. */
  function Tolerance(item: Item): real {
    0.005 * (2.0 + Abs(item.vatRate) / 100.0)
  }

  function SumReal(xs: seq<real>): real {
    if xs == [] then 0.0 else SumReal(xs[..|xs| - 1]) + xs[|xs| - 1]
  }

  /** What the lines would amount to without any rounding. */
  ghost predicate AreExact(exact: seq<real>, items: seq<Item>) {
    && |exact| == |items|
    && forall i :: 0 <= i < |items| ==>
         exact[i] == items[i].qty * items[i].unitPriceExclVat * (1.0 + items[i].vatRate / 100.0)
  }

  ghost predicate AreTolerances(tolerances: seq<real>, items: seq<Item>) {
    && |tolerances| == |items|
    && forall i :: 0 <= i < |items| ==> tolerances[i] == 0.005 * (2.0 + Abs(items[i].vatRate) / 100.0)
  }

  lemma ProductSign(x: real, y: real)
    requires x >= 0.0 && y >= 0.0
    ensures x * y >= 0.0
  {
  }

  lemma SmallTimes(d: real, r: real)
    requires -0.005 <= d <= 0.005 && r >= 0.0
    ensures -0.005 * r <= d * r <= 0.005 * r
  {
    ProductSign(0.005 - d, r);
    ProductSign(0.005 + d, r);
    assert (0.005 - d) * r == 0.005 * r - d * r && (0.005 + d) * r == 0.005 * r + d * r;
  }

  lemma ProductOfNegative(d: real, r: real)
    ensures d * -r == -(d * r)
  {
  }

  lemma SmallTimesAbs(d: real, rate: real)
    requires -0.005 <= d <= 0.005
    ensures -(0.005 * Abs(rate)) <= d * rate <= 0.005 * Abs(rate)
  {
    if rate < 0.0 {
      var r := -rate;
      SmallTimes(d, r);
      ProductOfNegative(d, rate);
    } else {
      SmallTimes(d, rate);
    }
  }

  lemma SmallTimesRate(d: real, rate: real)
    requires -0.005 <= d <= 0.005
    ensures Abs(Percent(d, rate)) <= 0.005 * Abs(rate) / 100.0
  {
    SmallTimesAbs(d, rate);
    AbsOfHundredth(d * rate, 0.005 * Abs(rate));
  }

  lemma AbsOfHundredth(p: real, e: real)
    requires -e <= p <= e
    ensures Abs(p / 100.0) <= e / 100.0
  {
  }

  lemma ErrorsOfLine(net: real, base: real, vat: real, percentOfBase: real, percentOfNet: real, rate: real)
    requires Abs(base - net) <= 0.005 && Abs(vat - percentOfBase) <= 0.005
    requires Abs(percentOfBase - percentOfNet) <= 0.005 * rate / 100.0
    ensures Abs(base + vat - (net + percentOfNet)) <= 0.005 * (2.0 + rate / 100.0)
  {
  }

  lemma RoundingErrors(item: Item)
    ensures Abs(Euros(Base(item)) - Net(item)) <= 0.005
    ensures Abs(Euros(Vat(item)) - Percent(Euros(Base(item)), item.vatRate)) <= 0.005
  {
    RoundingError(Net(item));
    RoundingError(Percent(Euros(Base(item)), item.vatRate));
  }

  lemma LineError(item: Item)
    ensures Abs(Euros(Base(item)) + Euros(Vat(item))
                - item.qty * item.unitPriceExclVat * (1.0 + item.vatRate / 100.0))
      <= 0.005 * (2.0 + Abs(item.vatRate) / 100.0)
  {
    RoundingErrors(item);
    ExactIsOnNet(item);
    LineErrorOf(Net(item), Euros(Base(item)), Euros(Vat(item)), item.vatRate);
  }

  lemma LineErrorOf(net: real, base: real, vat: real, rate: real)
    requires Abs(base - net) <= 0.005 && Abs(vat - Percent(base, rate)) <= 0.005
    ensures Abs(base + vat - net * (1.0 + rate / 100.0)) <= 0.005 * (2.0 + Abs(rate) / 100.0)
  {
    PercentDistributes(base, net, rate);
    SmallTimesRate(base - net, rate);
    ErrorsOfLine(net, base, vat, Percent(base, rate), Percent(net, rate), Abs(rate));
  }

  lemma PercentDistributes(x: real, y: real, rate: real)
    ensures Percent(x, rate) == Percent(y, rate) + Percent(x - y, rate)
    ensures y * (1.0 + rate / 100.0) == y + Percent(y, rate)
  {
  }

  lemma EurosAdd(k: int, l: int)
    ensures Euros(k + l) == Euros(k) + Euros(l)
  {
  }

  lemma ErrorsAdd(a: real, b: real, x: real, y: real, s: real, t: real)
    requires Abs(a - x) <= s && Abs(b - y) <= t
    ensures Abs(a + b - (x + y)) <= s + t
  {
  }

  lemma FrontExact(exact: seq<real>, tolerances: seq<real>, items: seq<Item>)
    requires items != [] && AreExact(exact, items) && AreTolerances(tolerances, items)
    ensures var n := |items| - 1;
            && AreExact(exact[..n], items[..n]) && AreTolerances(tolerances[..n], items[..n])
            && exact[n] == Exact(items[n]) && tolerances[n] == Tolerance(items[n])
  {
  }

  function PrintedTotal(items: seq<Item>): int {
    SumBase(Lines(items)) + SumVat(Lines(items))
  }

  lemma LastLine(items: seq<Item>)
    requires items != []
    ensures var n := |items| - 1;
            Euros(PrintedTotal(items))
            == Euros(PrintedTotal(items[..n])) + (Euros(Base(items[n])) + Euros(Vat(items[n])))
  {
    var n := |items| - 1;
    LinesOneMore(items, n);
    assert items[..n + 1] == items;
    SumsOneMore(Lines(items[..n]), LineOf(items[n]));
    EurosAdd(PrintedTotal(items[..n]), Base(items[n]) + Vat(items[n]));
    EurosAdd(Base(items[n]), Vat(items[n]));
  }

  /** The printed total differs from the exact one by at most the tolerances of the lines. */
  lemma {:induction false} TotalError(items: seq<Item>, exact: seq<real>, tolerances: seq<real>)
    requires AreExact(exact, items) && AreTolerances(tolerances, items)
    ensures Abs(Euros(SumBase(Lines(items)) + SumVat(Lines(items))) - SumReal(exact)) <= SumReal(tolerances)
  {
    if items != [] {
      var n := |items| - 1;
      FrontExact(exact, tolerances, items);
      TotalError(items[..n], exact[..n], tolerances[..n]);
      LastLine(items);
      LineOffIsSmall(items[n]);
      ErrorsAdd(Euros(PrintedTotal(items[..n])), Euros(Base(items[n])) + Euros(Vat(items[n])),
                SumReal(exact[..n]), exact[n], SumReal(tolerances[..n]), tolerances[n]);
    }
  }

  lemma LineOffIsSmall(item: Item)
    ensures LineOff(item) <= Tolerance(item)
  {
    LineError(item);
  }

  ghost predicate WithinTolerances(cents: int, items: seq<Item>) {
    forall exact, tolerances :: AreExact(exact, items) && AreTolerances(tolerances, items) ==>
      Abs(cents as real / 100.0 - SumReal(exact)) <= SumReal(tolerances)
  }

  lemma TotalIsWithin(items: seq<Item>)
    ensures WithinTolerances(PrintedTotal(items), items)
  {
    forall exact, tolerances | AreExact(exact, items) && AreTolerances(tolerances, items)
      ensures Abs(PrintedTotal(items) as real / 100.0 - SumReal(exact)) <= SumReal(tolerances)
    {
      TotalError(items, exact, tolerances);
    }
  }

  // ----- the lines, read off the items

  /** `cents` is the whole number of cents nearest to so many euros; half a cent counts upwards. */
  predicate NearestCents(cents: int, euros: real) {
    cents as real - 0.5 <= 100.0 * euros < cents as real + 0.5
  }

  lemma RoundedIsNearest(n: real, cents: int)
    ensures NearestCents(cents, n) <==> cents == RoundCents(n)
  {
  }

  /** The line of an item: its rate, its rounded net amount, and the rounded VAT over that amount. */
  predicate IsLine(line: Line<real>, item: Item) {
    && line.rate == item.vatRate
    && NearestCents(line.base, item.qty * item.unitPriceExclVat)
    && NearestCents(line.vat, line.base as real / 100.0 * item.vatRate / 100.0)
  }

  ghost predicate AreLines(lines: seq<Line<real>>, items: seq<Item>) {
    |lines| == |items| && forall i :: 0 <= i < |items| ==> IsLine(lines[i], items[i])
  }

  lemma OneLine(line: Line<real>, item: Item)
    ensures IsLine(line, item) <==> line == LineOf(item)
  {
    var net := item.qty * item.unitPriceExclVat;
    assert net == Net(item);
    RoundedIsNearest(net, line.base);
    RoundedIsNearest(line.base as real / 100.0 * item.vatRate / 100.0, line.vat);
  }

  /** The fields of the items leave one possibility. */
  lemma LinesFromItems(items: seq<Item>, lines: seq<Line<real>>)
    ensures AreLines(lines, items) <==> lines == Lines(items)
  {
    forall i | 0 <= i < |items| && i < |lines| ensures IsLine(lines[i], items[i]) <==> lines[i] == LineOf(items[i]) {
      OneLine(lines[i], items[i]);
    }
  }

  // ----- how good the bound is

  function LineOff(item: Item): real {
    Abs(Euros(Base(item)) + Euros(Vat(item)) - Exact(item))
  }

  /** Some line at this rate is off by its whole tolerance. */
  ghost predicate ToleranceAttained(rate: real) {
    exists item: Item :: item.vatRate == rate && LineOff(item) == Tolerance(item)
  }

  /** The VAT over so many cents ends in half a cent. */
  ghost predicate HalfCent(k: int, rate: real) {
    exists n: int :: k as real * rate == (100 * n + 50) as real
  }

  lemma HalfCentUp(k: int, n: int, rate: real)
    requires k as real * rate == (100 * n + 50) as real
    ensures Percent(Euros(k), rate) == (n as real + 0.5) / 100.0
    ensures RoundCents(Percent(Euros(k), rate)) == n + 1
  {
    assert Percent(Euros(k), rate) == k as real * rate / 100.0 / 100.0;
    assert (100 * n + 50) as real == 100.0 * (n as real + 0.5);
    assert ((n as real + 0.5) / 100.0) * 100.0 + 0.5 == (n + 1) as real;
  }

  lemma HalfCentBelow(k: int)
    ensures RoundCents((k as real - 0.5) / 100.0) == k
    ensures Euros(k) - (k as real - 0.5) / 100.0 == 0.005
  {
    assert ((k as real - 0.5) / 100.0) * 100.0 + 0.5 == k as real;
  }

  /** Half a cent on the net amount, half a cent on the VAT, both upwards. */
  lemma AttainedAt(k: int, n: int, rate: real)
    requires rate >= 0.0 && k as real * rate == (100 * n + 50) as real
    ensures ToleranceAttained(rate)
  {
    var net := (k as real - 0.5) / 100.0;
    var item := Item(1.0, net, rate);
    HalfCentBelow(k);
    HalfCentUp(k, n, rate);
    assert Net(item) == net && Base(item) == k && Vat(item) == n + 1;
    PercentDistributes(Euros(k), net, rate);
    assert Euros(n + 1) == Percent(Euros(k), rate) + 0.005;
    assert Percent(0.005, rate) == 0.005 * (rate / 100.0);
    ExactIsOnNet(item);
    assert Exact(item) == net + Percent(net, rate);
    assert LineOff(item) == Tolerance(item);
  }

  /** Only when both roundings are off by half a cent. */
  lemma VatIsHalfCent(net: real, base: real, vat: real, rate: real)
    requires rate >= 0.0 && Abs(base - net) <= 0.005 && Abs(vat - Percent(base, rate)) <= 0.005
    requires Abs(base + vat - net * (1.0 + rate / 100.0)) == 0.005 * (2.0 + rate / 100.0)
    ensures Abs(vat - Percent(base, rate)) == 0.005
  {
    PercentDistributes(base, net, rate);
    SmallTimesRate(base - net, rate);
  }

  lemma HalfCentOfVat(k: int, m: int, rate: real)
    requires Abs(Euros(m) - Percent(Euros(k), rate)) == 0.005
    ensures HalfCent(k, rate)
  {
    assert Percent(Euros(k), rate) == k as real * rate / 10000.0;
    var n := if Euros(m) >= Percent(Euros(k), rate) then m - 1 else m;
    assert k as real * rate == (100 * n + 50) as real;
  }

  /** The tolerance is attained at a rate exactly when the VAT over some whole number of cents ends in half a cent. */
  lemma ToleranceAttainedIff(rate: real)
    requires rate >= 0.0
    ensures ToleranceAttained(rate) <==> exists k: int :: HalfCent(k, rate)
  {
    if item: Item :| item.vatRate == rate && LineOff(item) == Tolerance(item) {
      RoundingErrors(item);
      ExactIsOnNet(item);
      VatIsHalfCent(Net(item), Euros(Base(item)), Euros(Vat(item)), rate);
      HalfCentOfVat(Base(item), Vat(item), rate);
    }
    if k: int :| HalfCent(k, rate) {
      var n: int :| k as real * rate == (100 * n + 50) as real;
      AttainedAt(k, n, rate);
    }
  }

  lemma TimesMultipleOfFour(k: int, j: int)
    ensures k * (4 * j) == 4 * (k * j)
  {
  }

  lemma ProductAsReal(k: int, percent: int)
    ensures (k * percent) as real == k as real * percent as real
  {
  }

  lemma WholeHalfCent(k: int, n: int, percent: int)
    ensures k as real * percent as real == (100 * n + 50) as real <==> k * percent == 100 * n + 50
  {
    ProductAsReal(k, percent);
  }

  lemma OddRate(percent: nat)
    requires percent % 2 == 1
    ensures HalfCent(50, percent as real)
  {
    var n := percent / 2;
    assert percent == 2 * n + 1;
    WholeHalfCent(50, n, percent);
  }

  lemma TwiceOddRate(percent: nat)
    requires percent % 4 == 2
    ensures HalfCent(25, percent as real)
  {
    var n := percent / 4;
    assert percent == 4 * n + 2;
    WholeHalfCent(25, n, percent);
  }

  lemma HalfCentRates(percent: nat, rate: real)
    requires rate == percent as real
    ensures (exists k: int :: HalfCent(k, rate)) <==> percent % 4 != 0
  {
    if percent % 4 == 0 {
      if k: int :| HalfCent(k, rate) { NoHalfCent(k, percent); }
    } else if percent % 2 == 1 {
      OddRate(percent);
    } else {
      TwiceOddRate(percent);
    }
  }

  /** For whole percentages: at all rates but the multiples of four, such as 9% and 21%. At 0% it is not attained. */
  lemma WholeRateAttainsIff(percent: nat)
    ensures ToleranceAttained(percent as real) <==> percent % 4 != 0
  {
    ToleranceAttainedIff(percent as real);
    HalfCentRates(percent, percent as real);
  }

  lemma NoHalfCent(k: int, percent: nat)
    requires percent % 4 == 0
    ensures !HalfCent(k, percent as real)
  {
    forall n: int ensures k as real * percent as real != (100 * n + 50) as real {
      WholeHalfCent(k, n, percent);
      TimesMultipleOfFour(k, percent / 4);
    }
  }

  /** Without VAT only the net amount is rounded, and half a cent is all that a line can be off. */
  lemma NoVatLineError(item: Item)
    requires item.vatRate == 0.0
    ensures LineOff(item) <= 0.005
  {
    assert Percent(Euros(Base(item)), 0.0) == 0.0 && Vat(item) == 0;
    ExactIsOnNet(item);
    RoundingErrors(item);
  }
}
