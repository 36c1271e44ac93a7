/**
 Transaction reports: the grouping and reducing functions of backend/src/helpers/transaction-mapper.ts and
 `getTransactionReportData` of backend/src/service/transaction-service.ts that puts them together.
 */
module Reports {
  import opened Common
  import opened DecimalText
  import opened JsMap

  /** Rates are checked to be non-negative when a VAT group is made (controller/vat-group-controller.ts). */
  type Percentage = p: real | p >= 0.0

  datatype Vat = Vat(id: nat, percentage: Percentage)
  datatype Category = Category(id: nat, name: string)
  datatype Product = Product(id: nat, revision: nat, category: Category, vat: Vat, priceInclVat: int)
  datatype Row = Row(product: Product, amount: int, invoiced: bool)
  datatype SubTransaction = SubTransaction(toId: nat, rows: seq<Row>)
  datatype Transaction = Transaction(subTransactions: seq<SubTransaction>)

  // ----- grouping

  type Buckets<K, T> = seq<(K, seq<T>)>

  /** `collectByKey`, on the entries of the map. */
  function Collected<K(==), T>(entries: Buckets<K, T>, item: T, key: K): Buckets<K, T> {
    var i := IndexOf(entries, key);
    if i < |entries| then entries[i := (key, entries[i].1 + [item])] else entries + [(key, [item])]
  }

  function GroupBy<K(==), T>(items: seq<T>, getKey: T -> K): Buckets<K, T> {
    if items == [] then []
    else
      var last := items[|items| - 1];
      Collected(GroupBy(items[..|items| - 1], getKey), last, getKey(last))
  }

  /** Pushing onto the array in the map leaves its entry in place. */
  method CollectByKey<K(==), T>(m: Map<K, seq<T>>, item: T, getKey: T -> K)
    requires m.Valid()
    modifies m
    ensures m.Valid() && m.entries == Collected(old(m.entries), item, getKey(item))
  {
    var key := getKey(item);
    var has := m.Has(key);
    if has {
      var bucket := m.Get(key);
      m.Set(key, bucket + [item]);
    } else {
      assert IndexOf(m.entries, key) == |m.entries|;
      m.Set(key, [item]);
    }
  }

  // ----- what grouping means

  /** The items with key `k`, in order. */
  function Select<K(==), T>(items: seq<T>, getKey: T -> K, k: K): seq<T> {
    if items == [] then []
    else
      var last := items[|items| - 1];
      Select(items[..|items| - 1], getKey, k) + if getKey(last) == k then [last] else []
  }

  /** The keys of the items, each at its first occurrence. */
  function FirstKeys<K(==), T>(items: seq<T>, getKey: T -> K): seq<K> {
    if items == [] then []
    else
      var keys, k := FirstKeys(items[..|items| - 1], getKey), getKey(items[|items| - 1]);
      if k in keys then keys else keys + [k]
  }

  /** Bucket by bucket: the keys in order of first appearance, each with all of its items in order. */
  lemma {:induction false} GroupsAreSelections<K, T>(items: seq<T>, getKey: T -> K)
    ensures var groups := GroupBy(items, getKey);
            |groups| == |FirstKeys(items, getKey)| && DistinctKeys(groups)
            && forall i :: 0 <= i < |groups| ==>
                 groups[i].0 == FirstKeys(items, getKey)[i] && groups[i].1 == Select(items, getKey, groups[i].0)
  {
    if items != [] {
      var front, last := items[..|items| - 1], items[|items| - 1];
      GroupsAreSelections(front, getKey);
      var before, keys := GroupBy(front, getKey), FirstKeys(front, getKey);
      var k := getKey(last);
      var i := IndexOf(before, k);
      if i < |before| {
        assert keys[i] == k && k in keys;
      } else {
        assert k !in keys;
        NothingSelected(front, getKey, k);
      }
    }
  }

  lemma {:induction false} NothingSelected<K, T>(items: seq<T>, getKey: T -> K, k: K)
    requires k !in FirstKeys(items, getKey)
    ensures Select(items, getKey, k) == []
  {
    if items != [] { NothingSelected(items[..|items| - 1], getKey, k); }
  }

  lemma {:induction false} SelectedHaveKey<K, T>(items: seq<T>, getKey: T -> K, k: K)
    ensures forall x :: x in Select(items, getKey, k) ==> x in items && getKey(x) == k
    ensures k in FirstKeys(items, getKey) ==> Select(items, getKey, k) != []
  {
    if items != [] {
      SelectedHaveKey(items[..|items| - 1], getKey, k);
      var last := items[|items| - 1];
      assert items == items[..|items| - 1] + [last];
    }
  }

  ghost function Flat<K, T>(entries: Buckets<K, T>): seq<T> {
    if entries == [] then [] else entries[0].1 + Flat(entries[1..])
  }

  lemma {:induction false} FlatCollected<K, T>(entries: Buckets<K, T>, item: T, key: K)
    ensures multiset(Flat(Collected(entries, item, key))) == multiset(Flat(entries)) + multiset{item}
  {
    if entries == [] {
      assert Flat([(key, [item])]) == [item] + [];
    } else if entries[0].0 == key {
      var after := entries[0 := (key, entries[0].1 + [item])];
      assert after[1..] == entries[1..];
      assert Flat(after) == entries[0].1 + [item] + Flat(entries[1..]);
    } else {
      FlatCollected(entries[1..], item, key);
      var after := Collected(entries, item, key);
      assert after[0] == entries[0] && after[1..] == Collected(entries[1..], item, key);
    }
  }

  /** Every occurrence of an item lands in exactly one bucket. */
  lemma {:induction false} GroupsArePartition<K, T>(items: seq<T>, getKey: T -> K)
    ensures multiset(Flat(GroupBy(items, getKey))) == multiset(items)
    ensures forall i :: 0 <= i < |GroupBy(items, getKey)| ==>
      var (k, bucket) := GroupBy(items, getKey)[i];
      bucket != [] && forall x :: x in bucket ==> getKey(x) == k
  {
    GroupsAreMultiset(items, getKey);
    GroupsAreSelections(items, getKey);
    forall i | 0 <= i < |GroupBy(items, getKey)|
      ensures GroupBy(items, getKey)[i].1 != []
      ensures forall x :: x in GroupBy(items, getKey)[i].1 ==> getKey(x) == GroupBy(items, getKey)[i].0
    {
      SelectedHaveKey(items, getKey, FirstKeys(items, getKey)[i]);
    }
  }

  lemma {:induction false} GroupsAreMultiset<K, T>(items: seq<T>, getKey: T -> K)
    ensures multiset(Flat(GroupBy(items, getKey))) == multiset(items)
  {
    if items != [] {
      var front, last := items[..|items| - 1], items[|items| - 1];
      GroupsAreMultiset(front, getKey);
      FlatCollected(GroupBy(front, getKey), last, getKey(last));
      assert items == front + [last];
    }
  }

  // ----- traversal

  function Rows(subs: seq<SubTransaction>): seq<Row> {
    if subs == [] then [] else Rows(subs[..|subs| - 1]) + subs[|subs| - 1].rows
  }

  function Subs(transactions: seq<Transaction>): seq<SubTransaction> {
    if transactions == [] then []
    else Subs(transactions[..|transactions| - 1]) + transactions[|transactions| - 1].subTransactions
  }

  lemma RowsOneMore(subs: seq<SubTransaction>, last: SubTransaction)
    ensures Rows(subs + [last]) == Rows(subs) + last.rows
  {
    assert (subs + [last])[..|subs|] == subs;
  }

  lemma AppendLast<T>(a: seq<T>, b: seq<T>)
    requires b != []
    ensures a + b == (a + b[..|b| - 1]) + [b[|b| - 1]]
  {
  }

  lemma {:induction false} RowsConcat(a: seq<SubTransaction>, b: seq<SubTransaction>)
    ensures Rows(a + b) == Rows(a) + Rows(b)
  {
    if b == [] {
      assert a + b == a;
    } else {
      var front, last := b[..|b| - 1], b[|b| - 1];
      RowsConcat(a, front);
      AppendLast(a, b);
      RowsOneMore(a + front, last);
      Regroup(Rows(a), Rows(front), last.rows);
    }
  }

  /** The innermost loop of `transactionMapper`, with a callback that collects each row into `m`. */
  method CollectRows<K(==)>(rows: seq<Row>, m: Map<K, seq<Row>>, getKey: Row -> K, ghost seen: seq<Row>)
    requires m.Valid() && m.entries == GroupBy(seen, getKey)
    modifies m
    ensures m.Valid() && m.entries == GroupBy(seen + rows, getKey)
  {
    assert seen + rows[..0] == seen;
    for k := 0 to |rows|
      invariant m.Valid() && m.entries == GroupBy(seen + rows[..k], getKey)
    {
      assert (seen + rows[..k + 1])[..|seen| + k] == seen + rows[..k];
      CollectByKey(m, rows[k], getKey);
    }
    assert rows[..|rows|] == rows;
  }

  method CollectSubTransactions<K(==)>(subs: seq<SubTransaction>, m: Map<K, seq<Row>>, getKey: Row -> K,
                                       ghost seen: seq<Row>)
    requires m.Valid() && m.entries == GroupBy(seen, getKey)
    modifies m
    ensures m.Valid() && m.entries == GroupBy(seen + Rows(subs), getKey)
  {
    assert seen + Rows(subs[..0]) == seen;
    for j := 0 to |subs|
      invariant m.Valid() && m.entries == GroupBy(seen + Rows(subs[..j]), getKey)
    {
      assert subs[..j + 1][..j] == subs[..j];
      assert seen + Rows(subs[..j]) + subs[j].rows == seen + Rows(subs[..j + 1]);
      CollectRows(subs[j].rows, m, getKey, seen + Rows(subs[..j]));
    }
    assert subs[..|subs|] == subs;
  }

  method CollectTransactions<K(==)>(transactions: seq<Transaction>, m: Map<K, seq<Row>>, getKey: Row -> K)
    requires m.Valid() && m.entries == []
    modifies m
    ensures m.Valid() && m.entries == GroupBy(Rows(Subs(transactions)), getKey)
  {
    for i := 0 to |transactions|
      invariant m.Valid() && m.entries == GroupBy(Rows(Subs(transactions[..i])), getKey)
    {
      var subs := transactions[i].subTransactions;
      assert transactions[..i + 1][..i] == transactions[..i];
      RowsConcat(Subs(transactions[..i]), subs);
      CollectSubTransactions(subs, m, getKey, Rows(Subs(transactions[..i])));
    }
    assert transactions[..|transactions|] == transactions;
  }

  // ----- totals

  /** What a row adds to a report: items sold, cents including VAT, cents excluding VAT. */
  datatype Totals = Totals(count: int, inclVat: int, exclVat: real)

  function Add(a: Totals, b: Totals): Totals {
    Totals(a.count + b.count, a.inclVat + b.inclVat, a.exclVat + b.exclVat)
  }

  const NO_TOTALS := Totals(0, 0, 0.0)

  function ExclVat(amountInclVat: int, vat: Vat): real {
    amountInclVat as real / (1.0 + vat.percentage / 100.0)
  }

  /** The amount including VAT is the amount excluding VAT plus the VAT over it. */
  lemma VatIsOnTop(amountInclVat: int, vat: Vat)
    ensures var excl := ExclVat(amountInclVat, vat);
            excl + excl * (vat.percentage / 100.0) == amountInclVat as real
  {
    var factor := 1.0 + vat.percentage / 100.0;
    assert ExclVat(amountInclVat, vat) * factor == amountInclVat as real;
  }

  function Weigh(row: Row): Totals {
    var amountInclVat := row.product.priceInclVat * row.amount;
    Totals(row.amount, amountInclVat, ExclVat(amountInclVat, row.product.vat))
  }

  function SumOf(rows: seq<Row>): Totals {
    if rows == [] then NO_TOTALS else Add(SumOf(rows[..|rows| - 1]), Weigh(rows[|rows| - 1]))
  }

  // ----- the same totals, read off the fields of the rows

  function SumInt(xs: seq<int>): int {
    if xs == [] then 0 else SumInt(xs[..|xs| - 1]) + xs[|xs| - 1]
  }

  function SumReal(xs: seq<real>): real {
    if xs == [] then 0.0 else SumReal(xs[..|xs| - 1]) + xs[|xs| - 1]
  }

  function Amounts(rows: seq<Row>): (xs: seq<int>)
    ensures |xs| == |rows| && forall i :: 0 <= i < |rows| ==> xs[i] == rows[i].amount
  {
    seq(|rows|, i requires 0 <= i < |rows| => Weigh(rows[i]).count)
  }

  /** In cents: so many times the price. */
  function InclAmounts(rows: seq<Row>): (xs: seq<int>)
    ensures |xs| == |rows|
    ensures forall i :: 0 <= i < |rows| ==> xs[i] == rows[i].product.priceInclVat * rows[i].amount
  {
    seq(|rows|, i requires 0 <= i < |rows| => Weigh(rows[i]).inclVat)
  }

  /** With its VAT on top, each is so many times the price. */
  function ExclAmounts(rows: seq<Row>): (xs: seq<real>)
    ensures |xs| == |rows|
    ensures forall i :: 0 <= i < |rows| ==>
      xs[i] * (1.0 + rows[i].product.vat.percentage / 100.0) == (rows[i].product.priceInclVat * rows[i].amount) as real
  {
    forall i | 0 <= i < |rows|
      ensures Weigh(rows[i]).exclVat * (1.0 + rows[i].product.vat.percentage / 100.0)
        == (rows[i].product.priceInclVat * rows[i].amount) as real
    {
      ExclTimesFactor(rows[i].product.priceInclVat * rows[i].amount, rows[i].product.vat);
    }
    seq(|rows|, i requires 0 <= i < |rows| => Weigh(rows[i]).exclVat)
  }

  lemma ExclTimesFactor(amountInclVat: int, vat: Vat)
    ensures ExclVat(amountInclVat, vat) * (1.0 + vat.percentage / 100.0) == amountInclVat as real
  {
  }

  lemma {:induction false} SumOfFields(rows: seq<Row>)
    ensures SumOf(rows) == Totals(SumInt(Amounts(rows)), SumInt(InclAmounts(rows)), SumReal(ExclAmounts(rows)))
  {
    if rows != [] {
      var front := rows[..|rows| - 1];
      SumOfFields(front);
      assert Amounts(rows)[..|rows| - 1] == Amounts(front);
      assert InclAmounts(rows)[..|rows| - 1] == InclAmounts(front);
      assert ExclAmounts(rows)[..|rows| - 1] == ExclAmounts(front);
    }
  }

  /** The running totals of one bucket. */
  method ExtractVatInfoTransactions(rows: seq<Row>) returns (totalInclVat: int, totalExclVat: real)
    ensures totalInclVat == SumOf(rows).inclVat && totalExclVat == SumOf(rows).exclVat
    ensures totalInclVat == SumInt(InclAmounts(rows)) && totalExclVat == SumReal(ExclAmounts(rows))
  {
    SumOfFields(rows);
    totalInclVat, totalExclVat := 0, 0.0;
    for i := 0 to |rows|
      invariant totalInclVat == SumOf(rows[..i]).inclVat && totalExclVat == SumOf(rows[..i]).exclVat
    {
      assert rows[..i + 1][..i] == rows[..i];
      var amountInclVat := rows[i].product.priceInclVat * rows[i].amount;
      totalInclVat := totalInclVat + amountInclVat;
      totalExclVat := totalExclVat + ExclVat(amountInclVat, rows[i].product.vat);
    }
    assert rows[..|rows|] == rows;
  }

  method CountRows(rows: seq<Row>) returns (count: int)
    ensures count == SumOf(rows).count == SumInt(Amounts(rows))
  {
    SumOfFields(rows);
    count := 0;
    for i := 0 to |rows|
      invariant count == SumOf(rows[..i]).count
    {
      assert rows[..i + 1][..i] == rows[..i];
      count := count + rows[i].amount;
    }
    assert rows[..|rows|] == rows;
  }

  // ----- the entries of the three reports

  datatype ProductEntry = ProductEntry(count: int, product: Product)
  datatype VatEntry = VatEntry(vat: Vat, totalExclVat: real, totalInclVat: int)
  datatype CategoryEntry = CategoryEntry(category: Category, totalExclVat: real, totalInclVat: int)

  ghost predicate NoneEmpty<K, T>(groups: Buckets<K, T>) {
    forall i :: 0 <= i < |groups| ==> groups[i].1 != []
  }

  function ProductEntryOf(bucket: seq<Row>): ProductEntry
    requires bucket != []
  {
    ProductEntry(SumOf(bucket).count, bucket[0].product)
  }

  function VatEntryOf(bucket: seq<Row>): VatEntry
    requires bucket != []
  {
    VatEntry(bucket[0].product.vat, SumOf(bucket).exclVat, SumOf(bucket).inclVat)
  }

  function CategoryEntryOf(bucket: seq<Row>): CategoryEntry
    requires bucket != []
  {
    CategoryEntry(bucket[0].product.category, SumOf(bucket).exclVat, SumOf(bucket).inclVat)
  }

  method ReduceMapToReportEntries<K>(m: Map<K, seq<Row>>) returns (entries: seq<ProductEntry>)
    requires NoneEmpty(m.entries)
    ensures |entries| == |m.entries|
    ensures forall i :: 0 <= i < |entries| ==> entries[i] == ProductEntryOf(m.entries[i].1)
  {
    entries := [];
    for i := 0 to |m.entries|
      invariant |entries| == i && forall j :: 0 <= j < i ==> entries[j] == ProductEntryOf(m.entries[j].1)
    {
      var value := m.entries[i].1;
      var count := CountRows(value);
      entries := entries + [ProductEntry(count, value[0].product)];
    }
  }

  method ReduceMapToVatEntries<K>(m: Map<K, seq<Row>>) returns (entries: seq<VatEntry>)
    requires NoneEmpty(m.entries)
    ensures |entries| == |m.entries|
    ensures forall i :: 0 <= i < |entries| ==> entries[i] == VatEntryOf(m.entries[i].1)
  {
    entries := [];
    for i := 0 to |m.entries|
      invariant |entries| == i && forall j :: 0 <= j < i ==> entries[j] == VatEntryOf(m.entries[j].1)
    {
      var value := m.entries[i].1;
      var totalInclVat, totalExclVat := ExtractVatInfoTransactions(value);
      entries := entries + [VatEntry(value[0].product.vat, totalExclVat, totalInclVat)];
    }
  }

  method ReduceMapToCategoryEntries<K>(m: Map<K, seq<Row>>) returns (entries: seq<CategoryEntry>)
    requires NoneEmpty(m.entries)
    ensures |entries| == |m.entries|
    ensures forall i :: 0 <= i < |entries| ==> entries[i] == CategoryEntryOf(m.entries[i].1)
  {
    entries := [];
    for i := 0 to |m.entries|
      invariant |entries| == i && forall j :: 0 <= j < i ==> entries[j] == CategoryEntryOf(m.entries[j].1)
    {
      var value := m.entries[i].1;
      var totalInclVat, totalExclVat := ExtractVatInfoTransactions(value);
      entries := entries + [CategoryEntry(value[0].product.category, totalExclVat, totalInclVat)];
    }
  }

  // ----- conservation

  ghost function TotalOfGroups<K>(groups: Buckets<K, Row>): Totals {
    if groups == [] then NO_TOTALS else Add(SumOf(groups[0].1), TotalOfGroups(groups[1..]))
  }

  lemma SumOfOneMore(rows: seq<Row>, row: Row)
    ensures SumOf(rows + [row]) == Add(SumOf(rows), Weigh(row))
  {
    assert (rows + [row])[..|rows|] == rows;
  }

  lemma TotalCons<K>(k: K, bucket: seq<Row>, rest: Buckets<K, Row>)
    ensures TotalOfGroups([(k, bucket)] + rest) == Add(SumOf(bucket), TotalOfGroups(rest))
  {
    assert ([(k, bucket)] + rest)[1..] == rest;
  }

  lemma CollectedCons<K>(k: K, bucket: seq<Row>, rest: Buckets<K, Row>, row: Row, key: K)
    ensures Collected([(k, bucket)] + rest, row, key) ==
      if k == key then [(k, bucket + [row])] + rest else [(k, bucket)] + Collected(rest, row, key)
  {
    assert ([(k, bucket)] + rest)[1..] == rest;
  }

  lemma {:induction false} TotalOfCollected<K>(groups: Buckets<K, Row>, row: Row, key: K)
    ensures TotalOfGroups(Collected(groups, row, key)) == Add(TotalOfGroups(groups), Weigh(row))
  {
    if groups == [] {
      SumOfOneMore([], row);
      TotalCons(key, [] + [row], []);
      assert Collected(groups, row, key) == [(key, [] + [row])] + [];
    } else {
      var (k, bucket) := groups[0];
      var rest := groups[1..];
      assert groups == [(k, bucket)] + rest;
      CollectedCons(k, bucket, rest, row, key);
      TotalCons(k, bucket, rest);
      if k == key {
        TotalCons(k, bucket + [row], rest);
        SumOfOneMore(bucket, row);
      } else {
        TotalCons(k, bucket, Collected(rest, row, key));
        TotalOfCollected(rest, row, key);
      }
    }
  }

  /** Grouping loses nothing: the buckets together weigh what the rows weigh, whatever the keys. */
  lemma {:induction false} GroupsConserveTotals<K>(rows: seq<Row>, getKey: Row -> K)
    ensures TotalOfGroups(GroupBy(rows, getKey)) == SumOf(rows)
  {
    if rows != [] {
      var front, last := rows[..|rows| - 1], rows[|rows| - 1];
      GroupsConserveTotals(front, getKey);
      TotalOfCollected(GroupBy(front, getKey), last, getKey(last));
    }
  }

  function TotalCount(entries: seq<ProductEntry>): int {
    if entries == [] then 0 else entries[0].count + TotalCount(entries[1..])
  }

  function TotalVat(entries: seq<VatEntry>): (int, real) {
    if entries == [] then (0, 0.0)
    else (entries[0].totalInclVat + TotalVat(entries[1..]).0, entries[0].totalExclVat + TotalVat(entries[1..]).1)
  }

  function TotalCategories(entries: seq<CategoryEntry>): (int, real) {
    if entries == [] then (0, 0.0)
    else (entries[0].totalInclVat + TotalCategories(entries[1..]).0,
          entries[0].totalExclVat + TotalCategories(entries[1..]).1)
  }

  ghost predicate ProductReport<K>(entries: seq<ProductEntry>, groups: Buckets<K, Row>) {
    && |entries| == |groups| && NoneEmpty(groups)
    && forall i :: 0 <= i < |groups| ==> entries[i] == ProductEntryOf(groups[i].1)
  }

  ghost predicate VatReport<K>(entries: seq<VatEntry>, groups: Buckets<K, Row>) {
    && |entries| == |groups| && NoneEmpty(groups)
    && forall i :: 0 <= i < |groups| ==> entries[i] == VatEntryOf(groups[i].1)
  }

  ghost predicate CategoryReport<K>(entries: seq<CategoryEntry>, groups: Buckets<K, Row>) {
    && |entries| == |groups| && NoneEmpty(groups)
    && forall i :: 0 <= i < |groups| ==> entries[i] == CategoryEntryOf(groups[i].1)
  }

  lemma {:induction false} ProductReportTotals<K>(entries: seq<ProductEntry>, groups: Buckets<K, Row>)
    requires ProductReport(entries, groups)
    ensures TotalCount(entries) == TotalOfGroups(groups).count
  {
    if entries != [] { ProductReportTotals(entries[1..], groups[1..]); }
  }

  lemma {:induction false} VatReportTotals<K>(entries: seq<VatEntry>, groups: Buckets<K, Row>)
    requires VatReport(entries, groups)
    ensures TotalVat(entries) == (TotalOfGroups(groups).inclVat, TotalOfGroups(groups).exclVat)
  {
    if entries != [] { VatReportTotals(entries[1..], groups[1..]); }
  }

  lemma {:induction false} CategoryReportTotals<K>(entries: seq<CategoryEntry>, groups: Buckets<K, Row>)
    requires CategoryReport(entries, groups)
    ensures TotalCategories(entries) == (TotalOfGroups(groups).inclVat, TotalOfGroups(groups).exclVat)
  {
    if entries != [] { CategoryReportTotals(entries[1..], groups[1..]); }
  }

  // ----- the keys

  /** `JSON.stringify({ revision, id })`. */
  function ProductKey(row: Row): string {
    "{\"revision\":" + Decimal(row.product.revision) + ",\"id\":" + Decimal(row.product.id) + "}"
  }

  function CategoryKey(row: Row): nat {
    row.product.category.id
  }

  function VatKey(row: Row): nat {
    row.product.vat.id
  }

  lemma CommaAt(a: string, x: string)
    requires ',' !in a
    ensures (a + "," + x)[|a|] == ',' && forall i :: 0 <= i < |a| ==> (a + "," + x)[i] != ','
  {
    assert forall i :: 0 <= i < |a| ==> (a + "," + x)[i] == a[i] && a[i] in a;
  }

  lemma SplitAtComma(a: string, b: string, x: string, y: string)
    requires ',' !in a && ',' !in b && a + "," + x == b + "," + y
    ensures a == b && x == y
  {
    var s := a + "," + x;
    CommaAt(a, x);
    CommaAt(b, y);
    assert |a| == |b|;
    assert s[..|a|] == a && s[|a| + 1..] == x;
    assert s[..|b|] == b && s[|b| + 1..] == y;
  }

  /** Rows share a product bucket exactly when they sold the same revision of the same product. */
  lemma ProductKeyIdentifiesRevision(r: Row, s: Row)
    ensures ProductKey(r) == ProductKey(s) <==>
      r.product.revision == s.product.revision && r.product.id == s.product.id
  {
    var a, b := Decimal(r.product.revision), Decimal(s.product.revision);
    var x, y := Decimal(r.product.id), Decimal(s.product.id);
    ValueOfDecimal(r.product.revision);
    ValueOfDecimal(s.product.revision);
    var open, id, close := "{\"revision\":", "\"id\":", "}";
    assert ProductKey(r) == open + (a + "," + (id + (x + close)));
    assert ProductKey(s) == open + (b + "," + (id + (y + close)));
    if ProductKey(r) == ProductKey(s) {
      assert ProductKey(r)[|open|..] == a + "," + (id + (x + close));
      assert ProductKey(s)[|open|..] == b + "," + (id + (y + close));
      SplitAtComma(a, b, id + (x + close), id + (y + close));
      assert (id + (x + close))[|id|..] == x + close && (id + (y + close))[|id|..] == y + close;
      assert (x + close)[..|x + close| - 1] == x && (y + close)[..|y + close| - 1] == y;
      DecimalIsInjective(r.product.revision, s.product.revision);
      DecimalIsInjective(r.product.id, s.product.id);
    }
  }

  /** Rows share a category bucket, or a VAT bucket, exactly when their products have the same one. */
  lemma OtherKeysIdentify(r: Row, s: Row)
    ensures CategoryKey(r) == CategoryKey(s) <==> r.product.category.id == s.product.category.id
    ensures VatKey(r) == VatKey(s) <==> r.product.vat.id == s.product.vat.id
  {
  }

  // ----- what the entries are about

  lemma {:induction false} KeyOccurs<K>(rows: seq<Row>, getKey: Row -> K, row: Row)
    requires row in rows
    ensures getKey(row) in FirstKeys(rows, getKey)
  {
    var front, last := rows[..|rows| - 1], rows[|rows| - 1];
    assert rows == front + [last];
    if row != last { KeyOccurs(front, getKey, row); }
  }

  /** Each bucket holds the rows with the key of its first row, and every row has a bucket. */
  lemma BucketsByKey<K>(rows: seq<Row>, getKey: Row -> K)
    ensures var groups := GroupBy(rows, getKey);
            && (forall i :: 0 <= i < |groups| ==>
                 groups[i].1 != [] && getKey(groups[i].1[0]) == groups[i].0
                 && groups[i].1 == Select(rows, getKey, getKey(groups[i].1[0])))
            && (forall i, j :: 0 <= i < j < |groups| ==> getKey(groups[i].1[0]) != getKey(groups[j].1[0]))
            && forall row :: row in rows ==> exists i :: 0 <= i < |groups| && getKey(groups[i].1[0]) == getKey(row)
  {
    var groups := GroupBy(rows, getKey);
    GroupsArePartition(rows, getKey);
    GroupsAreSelections(rows, getKey);
    forall i | 0 <= i < |groups| ensures groups[i].1 != [] && getKey(groups[i].1[0]) == groups[i].0 {
      var (k, bucket) := groups[i];
      assert bucket[0] in bucket;
    }
    forall row | row in rows ensures exists i :: 0 <= i < |groups| && getKey(groups[i].1[0]) == getKey(row) {
      KeyOccurs(rows, getKey, row);
      var i :| 0 <= i < |groups| && FirstKeys(rows, getKey)[i] == getKey(row);
      assert groups[i].0 == getKey(row);
    }
  }

  /** One entry for each VAT group that occurs, over the rows with that group. */
  lemma VatEntriesByGroup(rows: seq<Row>, vat: seq<VatEntry>)
    requires VatReport(vat, GroupBy(rows, VatKey))
    ensures forall i, j :: 0 <= i < j < |vat| ==> vat[i].vat.id != vat[j].vat.id
    ensures forall row :: row in rows ==> exists i :: 0 <= i < |vat| && vat[i].vat.id == row.product.vat.id
    ensures forall i :: 0 <= i < |vat| ==>
      var ofGroup := Select(rows, (row: Row) => row.product.vat.id, vat[i].vat.id);
      && vat[i].totalInclVat == SumInt(InclAmounts(ofGroup))
      && vat[i].totalExclVat == SumReal(ExclAmounts(ofGroup))
      && exists row :: row in ofGroup && vat[i].vat == row.product.vat
  {
    BucketsByKey(rows, VatKey);
    var groups := GroupBy(rows, VatKey);
    forall i | 0 <= i < |vat|
      ensures vat[i].vat.id == VatKey(groups[i].1[0])
      ensures var ofGroup := Select(rows, (row: Row) => row.product.vat.id, vat[i].vat.id);
              && vat[i].totalInclVat == SumInt(InclAmounts(ofGroup))
              && vat[i].totalExclVat == SumReal(ExclAmounts(ofGroup))
              && exists row :: row in ofGroup && vat[i].vat == row.product.vat
    {
      var bucket := groups[i].1;
      SumOfFields(bucket);
      SameSelection(rows, VatKey, (row: Row) => row.product.vat.id, vat[i].vat.id);
      assert bucket[0] in bucket && vat[i].vat == bucket[0].product.vat;
    }
  }

  lemma {:induction false} SameSelection<K>(rows: seq<Row>, f: Row -> K, g: Row -> K, k: K)
    requires forall row :: f(row) == g(row)
    ensures Select(rows, f, k) == Select(rows, g, k)
  {
    if rows != [] { SameSelection(rows[..|rows| - 1], f, g, k); }
  }

  /** One entry for each category that occurs, over the rows with that category. */
  lemma CategoryEntriesByCategory(rows: seq<Row>, categories: seq<CategoryEntry>)
    requires CategoryReport(categories, GroupBy(rows, CategoryKey))
    ensures forall i, j :: 0 <= i < j < |categories| ==> categories[i].category.id != categories[j].category.id
    ensures forall row :: row in rows ==>
      exists i :: 0 <= i < |categories| && categories[i].category.id == row.product.category.id
    ensures forall i :: 0 <= i < |categories| ==>
      var ofCategory := Select(rows, (row: Row) => row.product.category.id, categories[i].category.id);
      && categories[i].totalInclVat == SumInt(InclAmounts(ofCategory))
      && categories[i].totalExclVat == SumReal(ExclAmounts(ofCategory))
      && exists row :: row in ofCategory && categories[i].category == row.product.category
  {
    BucketsByKey(rows, CategoryKey);
    var groups := GroupBy(rows, CategoryKey);
    forall i | 0 <= i < |categories|
      ensures categories[i].category.id == CategoryKey(groups[i].1[0])
      ensures var ofCategory := Select(rows, (row: Row) => row.product.category.id, categories[i].category.id);
              && categories[i].totalInclVat == SumInt(InclAmounts(ofCategory))
              && categories[i].totalExclVat == SumReal(ExclAmounts(ofCategory))
              && exists row :: row in ofCategory && categories[i].category == row.product.category
    {
      var bucket := groups[i].1;
      SumOfFields(bucket);
      SameSelection(rows, CategoryKey, (row: Row) => row.product.category.id, categories[i].category.id);
      assert bucket[0] in bucket && categories[i].category == bucket[0].product.category;
    }
  }

  /** A product is identified by its identifier and its revision. */
  function Revision(row: Row): (nat, nat) {
    (row.product.id, row.product.revision)
  }

  lemma {:induction false} SelectionByRevision(rows: seq<Row>, r: Row)
    ensures Select(rows, ProductKey, ProductKey(r)) == Select(rows, Revision, Revision(r))
  {
    if rows != [] {
      SelectionByRevision(rows[..|rows| - 1], r);
      ProductKeyIdentifiesRevision(rows[|rows| - 1], r);
    }
  }

  /** One entry for each revision of a product that occurs, with the number of items sold of it. */
  lemma ProductEntriesByRevision(rows: seq<Row>, entries: seq<ProductEntry>)
    requires ProductReport(entries, GroupBy(rows, ProductKey))
    ensures forall i, j :: 0 <= i < j < |entries| ==>
      entries[i].product.id != entries[j].product.id || entries[i].product.revision != entries[j].product.revision
    ensures forall i :: 0 <= i < |entries| ==>
      var ofRevision := Select(rows, Revision, (entries[i].product.id, entries[i].product.revision));
      && entries[i].count == SumInt(Amounts(ofRevision))
      && exists row :: row in ofRevision && entries[i].product == row.product
  {
    BucketsByKey(rows, ProductKey);
    var groups := GroupBy(rows, ProductKey);
    forall i | 0 <= i < |entries|
      ensures entries[i].product == groups[i].1[0].product
      ensures var ofRevision := Select(rows, Revision, (entries[i].product.id, entries[i].product.revision));
              && entries[i].count == SumInt(Amounts(ofRevision))
              && exists row :: row in ofRevision && entries[i].product == row.product
    {
      var bucket := groups[i].1;
      SumOfFields(bucket);
      SelectionByRevision(rows, bucket[0]);
      assert bucket[0] in bucket && entries[i].product == bucket[0].product;
    }
    forall i, j | 0 <= i < j < |entries|
      ensures entries[i].product.id != entries[j].product.id
        || entries[i].product.revision != entries[j].product.revision
    {
      ProductKeyIdentifiesRevision(groups[i].1[0], groups[j].1[0]);
    }
  }

  // ----- the report over transactions

  /** The sub-transactions to one user; an identifier of 0 counts as none, as any falsy value does. */
  function ToUser(subs: seq<SubTransaction>, exclusiveToId: nat): seq<SubTransaction> {
    if exclusiveToId == 0 || subs == [] then subs
    else
      var last := subs[|subs| - 1];
      ToUser(subs[..|subs| - 1], exclusiveToId) + if last.toId == exclusiveToId then [last] else []
  }

  function Reported(rows: seq<Row>, dropInvoiced: bool): seq<Row> {
    if rows == [] then []
    else
      var last := rows[|rows| - 1];
      Reported(rows[..|rows| - 1], dropInvoiced) + if dropInvoiced && last.invoiced then [] else [last]
  }

  function ReportRows(transactions: seq<Transaction>, exclusiveToId: nat, dropInvoiced: bool): seq<Row> {
    Reported(Rows(ToUser(Subs(transactions), exclusiveToId)), dropInvoiced)
  }

  lemma {:induction false} ToUserMembers(subs: seq<SubTransaction>, exclusiveToId: nat, sub: SubTransaction)
    ensures sub in ToUser(subs, exclusiveToId) <==> sub in subs && (exclusiveToId == 0 || sub.toId == exclusiveToId)
  {
    if exclusiveToId != 0 && subs != [] {
      ToUserMembers(subs[..|subs| - 1], exclusiveToId, sub);
      assert subs == subs[..|subs| - 1] + [subs[|subs| - 1]];
    }
  }

  lemma {:induction false} ReportedMembers(rows: seq<Row>, dropInvoiced: bool, row: Row)
    ensures row in Reported(rows, dropInvoiced) <==> row in rows && !(dropInvoiced && row.invoiced)
  {
    if rows != [] {
      ReportedMembers(rows[..|rows| - 1], dropInvoiced, row);
      assert rows == rows[..|rows| - 1] + [rows[|rows| - 1]];
    }
  }

  lemma {:induction false} RowsMembers(subs: seq<SubTransaction>, row: Row)
    ensures row in Rows(subs) <==> exists sub :: sub in subs && row in sub.rows
  {
    if subs != [] {
      var front, last := subs[..|subs| - 1], subs[|subs| - 1];
      RowsMembers(front, row);
      assert subs == front + [last];
      assert last in subs && forall sub :: sub in subs <==> sub in front || sub == last;
    }
  }

  lemma {:induction false} SubsConcat(a: seq<Transaction>, b: seq<Transaction>)
    ensures Subs(a + b) == Subs(a) + Subs(b)
  {
    if b == [] {
      assert a + b == a;
    } else {
      var front, last := b[..|b| - 1], b[|b| - 1];
      SubsConcat(a, front);
      assert (a + b)[..|a + b| - 1] == a + front && (a + b)[|a + b| - 1] == last;
    }
  }

  lemma {:induction false} ToUserConcat(a: seq<SubTransaction>, b: seq<SubTransaction>, exclusiveToId: nat)
    ensures ToUser(a + b, exclusiveToId) == ToUser(a, exclusiveToId) + ToUser(b, exclusiveToId)
  {
    if b == [] {
      assert a + b == a;
    } else {
      var front, last := b[..|b| - 1], b[|b| - 1];
      ToUserConcat(a, front, exclusiveToId);
      assert (a + b)[..|a + b| - 1] == a + front && (a + b)[|a + b| - 1] == last;
    }
  }

  lemma {:induction false} ReportedConcat(a: seq<Row>, b: seq<Row>, dropInvoiced: bool)
    ensures Reported(a + b, dropInvoiced) == Reported(a, dropInvoiced) + Reported(b, dropInvoiced)
  {
    if b == [] {
      assert a + b == a;
    } else {
      var front, last := b[..|b| - 1], b[|b| - 1];
      ReportedConcat(a, front, dropInvoiced);
      assert (a + b)[..|a + b| - 1] == a + front && (a + b)[|a + b| - 1] == last;
    }
  }

  /** The rows of more transactions come behind those of the earlier ones, in order and as often as they occur. */
  lemma ReportRowsConcat(a: seq<Transaction>, b: seq<Transaction>, exclusiveToId: nat, dropInvoiced: bool)
    ensures ReportRows(a + b, exclusiveToId, dropInvoiced)
      == ReportRows(a, exclusiveToId, dropInvoiced) + ReportRows(b, exclusiveToId, dropInvoiced)
  {
    SubsConcat(a, b);
    ToUserConcat(Subs(a), Subs(b), exclusiveToId);
    RowsConcat(ToUser(Subs(a), exclusiveToId), ToUser(Subs(b), exclusiveToId));
    ReportedConcat(Rows(ToUser(Subs(a), exclusiveToId)), Rows(ToUser(Subs(b), exclusiveToId)), dropInvoiced);
  }

  /** A row is reported exactly when it is in a sub-transaction to the user asked for and not left out as invoiced. */
  lemma ReportRowsMembers(transactions: seq<Transaction>, exclusiveToId: nat, dropInvoiced: bool, row: Row)
    ensures row in ReportRows(transactions, exclusiveToId, dropInvoiced) <==>
      !(dropInvoiced && row.invoiced)
      && exists sub :: sub in Subs(transactions) && row in sub.rows && (exclusiveToId == 0 || sub.toId == exclusiveToId)
  {
    var subs := ToUser(Subs(transactions), exclusiveToId);
    ReportedMembers(Rows(subs), dropInvoiced, row);
    RowsMembers(subs, row);
    forall sub: SubTransaction
      ensures sub in subs <==> sub in Subs(transactions) && (exclusiveToId == 0 || sub.toId == exclusiveToId)
    {
      ToUserMembers(Subs(transactions), exclusiveToId, sub);
    }
  }

  function OneOf(toId: nat, rows: seq<Row>): Transaction {
    Transaction([SubTransaction(toId, rows)])
  }

  lemma RowsOfOne(sub: SubTransaction)
    ensures Rows([sub]) == sub.rows
    ensures Subs([Transaction([sub])]) == [sub]
  {
    assert [sub][..0] == [] && [Transaction([sub])][..0] == [];
  }

  lemma SubsOfOne(t: Transaction)
    ensures Subs([t]) == t.subTransactions
  {
    assert [t][..0] == [];
  }

  /** The sub-transactions of a transaction follow one another. */
  lemma ReportRowsOfSubs(a: seq<SubTransaction>, b: seq<SubTransaction>, exclusiveToId: nat, dropInvoiced: bool)
    ensures ReportRows([Transaction(a + b)], exclusiveToId, dropInvoiced)
      == ReportRows([Transaction(a)], exclusiveToId, dropInvoiced)
       + ReportRows([Transaction(b)], exclusiveToId, dropInvoiced)
  {
    SubsOfOne(Transaction(a + b));
    SubsOfOne(Transaction(a));
    SubsOfOne(Transaction(b));
    ToUserConcat(a, b, exclusiveToId);
    RowsConcat(ToUser(a, exclusiveToId), ToUser(b, exclusiveToId));
    ReportedConcat(Rows(ToUser(a, exclusiveToId)), Rows(ToUser(b, exclusiveToId)), dropInvoiced);
  }

  /** The rows of a sub-transaction follow one another, and a single row is reported once or not at all. */
  lemma ReportRowsOfRows(toId: nat, a: seq<Row>, b: seq<Row>, row: Row, exclusiveToId: nat, dropInvoiced: bool)
    ensures ReportRows([OneOf(toId, a + b)], exclusiveToId, dropInvoiced)
      == ReportRows([OneOf(toId, a)], exclusiveToId, dropInvoiced)
       + ReportRows([OneOf(toId, b)], exclusiveToId, dropInvoiced)
    ensures ReportRows([OneOf(toId, [row])], exclusiveToId, dropInvoiced)
      == if (exclusiveToId == 0 || toId == exclusiveToId) && !(dropInvoiced && row.invoiced) then [row] else []
    ensures ReportRows([OneOf(toId, [])], exclusiveToId, dropInvoiced) == []
  {
    ReportRowsOfOne(toId, a + b, exclusiveToId, dropInvoiced);
    ReportRowsOfOne(toId, a, exclusiveToId, dropInvoiced);
    ReportRowsOfOne(toId, b, exclusiveToId, dropInvoiced);
    ReportRowsOfOne(toId, [row], exclusiveToId, dropInvoiced);
    ReportRowsOfOne(toId, [], exclusiveToId, dropInvoiced);
    ReportedConcat(a, b, dropInvoiced);
    assert [row][..0] == [];
  }

  lemma ReportRowsOfOne(toId: nat, rows: seq<Row>, exclusiveToId: nat, dropInvoiced: bool)
    ensures ReportRows([OneOf(toId, rows)], exclusiveToId, dropInvoiced)
      == if exclusiveToId == 0 || toId == exclusiveToId then Reported(rows, dropInvoiced) else []
  {
    var sub := SubTransaction(toId, rows);
    RowsOfOne(sub);
    assert [sub][..0] == [] && ToUser([], exclusiveToId) == [];
    assert ToUser([sub], exclusiveToId) == if exclusiveToId == 0 || toId == exclusiveToId then [sub] else [];
    assert Rows([]) == [];
  }

  /** How often the row occurs in sub-transactions to the user asked for. */
  function Occurrences(subs: seq<SubTransaction>, exclusiveToId: nat, row: Row): nat {
    if subs == [] then 0
    else
      var sub := subs[0];
      (if exclusiveToId == 0 || sub.toId == exclusiveToId then multiset(sub.rows)[row] else 0)
      + Occurrences(subs[1..], exclusiveToId, row)
  }

  lemma {:induction false} ReportedTimes(rows: seq<Row>, dropInvoiced: bool, row: Row)
    ensures multiset(Reported(rows, dropInvoiced))[row]
      == if dropInvoiced && row.invoiced then 0 else multiset(rows)[row]
  {
    if rows != [] {
      ReportedTimes(rows[..|rows| - 1], dropInvoiced, row);
      assert rows == rows[..|rows| - 1] + [rows[|rows| - 1]];
    }
  }

  /** A row of a transaction is reported as often as it occurs, or, when left out as invoiced, never. */
  lemma {:induction false} RowsReportedTimes(subs: seq<SubTransaction>, exclusiveToId: nat, dropInvoiced: bool,
                                             row: Row)
    ensures multiset(ReportRows([Transaction(subs)], exclusiveToId, dropInvoiced))[row]
      == if dropInvoiced && row.invoiced then 0 else Occurrences(subs, exclusiveToId, row)
  {
    if subs == [] {
      SubsOfOne(Transaction(subs));
    } else {
      var sub, rest := subs[0], subs[1..];
      assert subs == [sub] + rest;
      ReportRowsOfSubs([sub], rest, exclusiveToId, dropInvoiced);
      ReportRowsOfOne(sub.toId, sub.rows, exclusiveToId, dropInvoiced);
      assert OneOf(sub.toId, sub.rows) == Transaction([sub]);
      ReportedTimes(sub.rows, dropInvoiced, row);
      RowsReportedTimes(rest, exclusiveToId, dropInvoiced, row);
    }
  }

  /** The three maps hold the given rows, each grouped by its own key. */
  ghost predicate Hold(products: Map<string, seq<Row>>, categories: Map<nat, seq<Row>>, vats: Map<nat, seq<Row>>,
                       rows: seq<Row>)
    reads products, categories, vats
  {
    && products.Valid() && products.entries == GroupBy(rows, ProductKey)
    && categories.Valid() && categories.entries == GroupBy(rows, CategoryKey)
    && vats.Valid() && vats.entries == GroupBy(rows, VatKey)
  }

  /** The callback that runs for every row. */
  method CollectRow(products: Map<string, seq<Row>>, categories: Map<nat, seq<Row>>, vats: Map<nat, seq<Row>>,
                    row: Row, dropInvoiced: bool, ghost seen: seq<Row>)
    requires categories != vats && Hold(products, categories, vats, seen)
    modifies products, categories, vats
    ensures Hold(products, categories, vats, if dropInvoiced && row.invoiced then seen else seen + [row])
  {
    if dropInvoiced && row.invoiced {
      return;
    }
    assert (seen + [row])[..|seen|] == seen;
    CollectByKey(products, row, ProductKey);
    CollectByKey(categories, row, CategoryKey);
    CollectByKey(vats, row, VatKey);
  }

  lemma ReportedOneMore(rows: seq<Row>, i: nat, dropInvoiced: bool)
    requires i < |rows|
    ensures Reported(rows[..i + 1], dropInvoiced) ==
      if dropInvoiced && rows[i].invoiced then Reported(rows[..i], dropInvoiced)
      else Reported(rows[..i], dropInvoiced) + [rows[i]]
  {
    assert rows[..i + 1][..i] == rows[..i];
  }

  method CollectReportRows(products: Map<string, seq<Row>>, categories: Map<nat, seq<Row>>, vats: Map<nat, seq<Row>>,
                           rows: seq<Row>, dropInvoiced: bool)
    requires categories != vats && Hold(products, categories, vats, [])
    modifies products, categories, vats
    ensures Hold(products, categories, vats, Reported(rows, dropInvoiced))
  {
    for i := 0 to |rows|
      invariant Hold(products, categories, vats, Reported(rows[..i], dropInvoiced))
    {
      ReportedOneMore(rows, i, dropInvoiced);
      CollectRow(products, categories, vats, rows[i], dropInvoiced, Reported(rows[..i], dropInvoiced));
    }
    assert rows[..|rows|] == rows;
  }

  lemma NoBucketEmpty<K>(rows: seq<Row>, getKey: Row -> K)
    ensures NoneEmpty(GroupBy(rows, getKey))
  {
    GroupsArePartition(rows, getKey);
  }

  method GetTransactionReportData(transactions: seq<Transaction>, exclusiveToId: nat, dropInvoiced: bool)
    returns (categories: seq<CategoryEntry>, entries: seq<ProductEntry>, vat: seq<VatEntry>)
    ensures var rows := ReportRows(transactions, exclusiveToId, dropInvoiced);
            ProductReport(entries, GroupBy(rows, ProductKey))
            && CategoryReport(categories, GroupBy(rows, CategoryKey))
            && VatReport(vat, GroupBy(rows, VatKey))
    ensures var rows := ReportRows(transactions, exclusiveToId, dropInvoiced);
            && TotalVat(vat) == TotalCategories(categories) == (SumInt(InclAmounts(rows)), SumReal(ExclAmounts(rows)))
            && TotalCount(entries) == SumInt(Amounts(rows))
  {
    var productEntryMap := new Map<string, seq<Row>>();
    var vatEntryMap := new Map<nat, seq<Row>>();
    var categoryEntryMap := new Map<nat, seq<Row>>();
    var subTransactionRows := Rows(ToUser(Subs(transactions), exclusiveToId));
    CollectReportRows(productEntryMap, categoryEntryMap, vatEntryMap, subTransactionRows, dropInvoiced);
    ghost var rows := ReportRows(transactions, exclusiveToId, dropInvoiced);
    NoBucketEmpty(rows, ProductKey);
    NoBucketEmpty(rows, CategoryKey);
    NoBucketEmpty(rows, VatKey);
    categories := ReduceMapToCategoryEntries(categoryEntryMap);
    entries := ReduceMapToReportEntries(productEntryMap);
    vat := ReduceMapToVatEntries(vatEntryMap);
    ReportsAgree(rows, entries, categories, vat);
  }

  /** The reports agree with each other and with the rows: nothing is lost or counted twice. */
  lemma ReportsAgree(rows: seq<Row>, entries: seq<ProductEntry>, categories: seq<CategoryEntry>, vat: seq<VatEntry>)
    requires ProductReport(entries, GroupBy(rows, ProductKey))
    requires CategoryReport(categories, GroupBy(rows, CategoryKey))
    requires VatReport(vat, GroupBy(rows, VatKey))
    ensures TotalVat(vat) == TotalCategories(categories) == (SumInt(InclAmounts(rows)), SumReal(ExclAmounts(rows)))
    ensures TotalCount(entries) == SumInt(Amounts(rows))
  {
    SumOfFields(rows);
    GroupsConserveTotals(rows, ProductKey);
    GroupsConserveTotals(rows, CategoryKey);
    GroupsConserveTotals(rows, VatKey);
    ProductReportTotals(entries, GroupBy(rows, ProductKey));
    CategoryReportTotals(categories, GroupBy(rows, CategoryKey));
    VatReportTotals(vat, GroupBy(rows, VatKey));
  }
}