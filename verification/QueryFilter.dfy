/**
 The where-clause compilers of backend/src/helpers/query-filter.ts: filter parameters mapped to dotted
 paths become a tree of nested conditions.
 */
module QueryFilter {
  import opened Common

  // ----- where trees and the records they select

  /** A stored row with its joined relations. */
  datatype Record = Field(text: string) | Object(fields: map<string, Record>)

  datatype Condition = Equal(value: string) | Like(pattern: string) | Nested(where: map<string, Condition>)

  type Where = map<string, Condition>

  /** SQL LIKE: `%` stands for any text, `_` for any character. */
  predicate LikeMatches(text: string, pattern: string)
    decreases |text| + |pattern|
  {
    if pattern == "" then text == ""
    else if pattern[0] == '%' then LikeMatches(text, pattern[1..]) || (text != "" && LikeMatches(text[1..], pattern))
    else text != "" && (pattern[0] == '_' || pattern[0] == text[0]) && LikeMatches(text[1..], pattern[1..])
  }

  predicate Meets(r: Record, c: Condition)
    decreases c
  {
    match c
    case Equal(v) => r == Field(v)
    case Like(p) => r.Field? && LikeMatches(r.text, p)
    case Nested(w) => r.Object? && forall k :: k in w ==> k in r.fields && Meets(r.fields[k], w[k])
  }

  type Row = map<string, Record>

  predicate Satisfies(row: Row, w: Where) {
    Meets(Object(row), Nested(w))
  }

  // ----- dotted paths

  /** `path.split('.')`. */
  function Split(path: string): (segments: seq<string>)
    ensures |segments| > 0
  {
    if path == "" then [""]
    else if path[0] == '.' then [""] + Split(path[1..])
    else var rest := Split(path[1..]); [[path[0]] + rest[0]] + rest[1..]
  }

  /** `segments.join('.')`. */
  function Join(segments: seq<string>): string
    requires |segments| > 0
  {
    if |segments| == 1 then segments[0] else segments[0] + "." + Join(segments[1..])
  }

  lemma {:induction false} JoinOfSplit(path: string)
    ensures Join(Split(path)) == path
  {
    if path != "" {
      JoinOfSplit(path[1..]);
      assert path == [path[0]] + path[1..];
      var rest := Split(path[1..]);
      if path[0] == '.' {
        assert Split(path)[1..] == rest;
      } else {
        assert Split(path)[1..] == rest[1..];
      }
    }
  }

  ghost predicate NoDots(segments: seq<string>) {
    forall i :: 0 <= i < |segments| ==> '.' !in segments[i]
  }

  lemma {:induction false} SplitHasNoDots(path: string)
    ensures NoDots(Split(path))
  {
    if path != "" { SplitHasNoDots(path[1..]); }
  }

  lemma {:induction false} SplitOfPlain(s: string)
    requires '.' !in s
    ensures Split(s) == [s]
  {
    if s != "" {
      SplitOfPlain(s[1..]);
      assert s == [s[0]] + s[1..];
    }
  }

  lemma {:induction false} SplitAtDot(s: string, rest: string)
    requires '.' !in s
    ensures Split(s + "." + rest) == [s] + Split(rest)
  {
    var path := s + "." + rest;
    if s == "" {
      assert path[0] == '.' && path[1..] == rest;
    } else {
      assert path[0] == s[0] != '.' && path[1..] == s[1..] + "." + rest;
      SplitAtDot(s[1..], rest);
      assert s == [s[0]] + s[1..];
    }
  }

  lemma {:induction false} SplitOfJoin(segments: seq<string>)
    requires |segments| > 0 && NoDots(segments)
    ensures Split(Join(segments)) == segments
  {
    if |segments| == 1 {
      SplitOfPlain(segments[0]);
    } else {
      SplitOfJoin(segments[1..]);
      SplitAtDot(segments[0], Join(segments[1..]));
      assert [segments[0]] + segments[1..] == segments;
    }
  }

  // ----- the compiler

  /** `property.replace(/^%|%$/g, '')` for a property that starts with a percent sign. */
  function StripPercents(property: string): string
    requires property != ""
  {
    var s := property[1..];
    if s != "" && s[|s| - 1] == '%' then s[..|s| - 1] else s
  }

  predicate IsSearch(segment: string) {
    segment != "" && segment[0] == '%'
  }

  /** The remainder of a path behind its first dot. */
  function Rest(path: string): (rest: string)
    requires |Split(path)| > 1
    ensures |rest| < |path|
    ensures Split(rest) == Split(path)[1..]
  {
    JoinOfSplit(path);
    SplitHasNoDots(path);
    SplitOfJoin(Split(path)[1..]);
    Join(Split(path)[1..])
  }

  /** The entry that one parameter puts into the where tree. */
  function Entry(path: string, value: string): (string, Condition)
    decreases |path|
  {
    var split := Split(path);
    if |split| == 1 && IsSearch(path) then (StripPercents(path), Like("%" + value + "%"))
    else if |split| == 1 then (path, Equal(value))
    else var (key, inner) := Entry(Rest(path), value); (split[0], Nested(map[key := inner]))
  }

  type Mapping = seq<(string, string)>

  function Compile(mapping: Mapping, params: map<string, string>): Where {
    if mapping == [] then map[]
    else
      var where := Compile(mapping[..|mapping| - 1], params);
      var (param, path) := mapping[|mapping| - 1];
      if param !in params then where
      else var (key, c) := Entry(path, params[param]); where[key := c]
  }

  function TotalLength(mapping: Mapping): nat {
    if mapping == [] then 0 else |mapping[0].1| + TotalLength(mapping[1..])
  }

  lemma {:induction false} LengthOfOne(mapping: Mapping, i: nat)
    requires i < |mapping|
    ensures |mapping[i].1| <= TotalLength(mapping)
  {
    if i > 0 { LengthOfOne(mapping[1..], i - 1); }
  }

  /**
   `mapping` lists the parameters with their paths in enumeration order; `params` holds the parameters that
   are not undefined.
   */
  method CreateFilterWhereClause(mapping: Mapping, params: map<string, string>) returns (where: Where)
    ensures where == Compile(mapping, params)
    decreases TotalLength(mapping)
  {
    where := map[];
    for i := 0 to |mapping|
      invariant where == Compile(mapping[..i], params)
    {
      var (param, property) := mapping[i];
      assert mapping[..i + 1][..i] == mapping[..i];
      if param in params {
        var value := params[param];
        var split := Split(property);
        if |split| == 1 && IsSearch(property) {
          where := where[StripPercents(property) := Like("%" + value + "%")];
        } else if |split| == 1 {
          where := where[property := Equal(value)];
        } else {
          LengthOfOne(mapping, i);
          var newMapping := [(param, Rest(property))];
          assert newMapping[1..] == [] && newMapping[..0] == [];
          assert TotalLength(newMapping) == |Rest(property)| < |property| <= TotalLength(mapping);
          var inner := CreateFilterWhereClause(newMapping, params);
          where := where[split[0] := Nested(inner)];
        }
      }
    }
    assert mapping[..|mapping|] == mapping;
  }

  // ----- meaning

  /** The path that is looked up: the segments, with the search marks of the last one removed. */
  function Target(path: string): (segments: seq<string>)
    ensures |segments| == |Split(path)|
  {
    var split := Split(path);
    var last := split[|split| - 1];
    if IsSearch(last) then split[..|split| - 1] + [StripPercents(last)] else split
  }

  function LeafTest(path: string, value: string): Condition {
    var split := Split(path);
    if IsSearch(split[|split| - 1]) then Like("%" + value + "%") else Equal(value)
  }

  function ValueAt(r: Record, path: seq<string>): Option<Record> {
    if path == [] then Some(r)
    else if r.Object? && path[0] in r.fields then ValueAt(r.fields[path[0]], path[1..])
    else None
  }

  /** The value at the path of a parameter equals the parameter, or matches the search for it. */
  ghost predicate Holds(r: Record, path: string, value: string) {
    var v := ValueAt(r, Target(path));
    v.Some? && Meets(v.value, LeafTest(path, value))
  }

  lemma {:induction false} EntryMeaning(r: Record, path: string, value: string)
    ensures Entry(path, value).0 == Target(path)[0]
    ensures var (key, c) := Entry(path, value);
            r.Object? && key in r.fields && Meets(r.fields[key], c) <==> Holds(r, path, value)
    decreases |path|
  {
    if |Split(path)| == 1 {
      LeafMeaning(r, path, value);
    } else {
      var key := Entry(path, value).0;
      RestMeaning(path, value);
      EntryMeaning(if r.Object? && key in r.fields then r.fields[key] else r, Rest(path), value);
    }
  }

  lemma LeafMeaning(r: Record, path: string, value: string)
    requires |Split(path)| == 1
    ensures Entry(path, value).0 == Target(path)[0]
    ensures var (key, c) := Entry(path, value);
            r.Object? && key in r.fields && Meets(r.fields[key], c) <==> Holds(r, path, value)
  {
    var target, key := Target(path), Entry(path, value).0;
    JoinOfSplit(path);
    assert Split(path)[0] == path && target[1..] == [];
    if r.Object? && key in r.fields {
      assert ValueAt(r, target) == ValueAt(r.fields[key], []) == Some(r.fields[key]);
    }
  }

  /** Behind the first dot, the same test is looked up one segment further on. */
  lemma RestMeaning(path: string, value: string)
    requires |Split(path)| > 1
    ensures Target(path)[0] == Split(path)[0] && Target(Rest(path)) == Target(path)[1..]
    ensures LeafTest(Rest(path), value) == LeafTest(path, value)
  {
  }

  predicate Defined(mapping: Mapping, params: map<string, string>, i: int) {
    0 <= i < |mapping| && mapping[i].0 in params
  }

  function Key(mapping: Mapping, i: int): string
    requires 0 <= i < |mapping|
  {
    Target(mapping[i].1)[0]
  }

  /** The last defined parameter below number `n` that writes to the top-level key `k`; -1 when there is none. */
  function WriterBelow(mapping: Mapping, params: map<string, string>, k: string, n: nat): (i: int)
    requires n <= |mapping|
    ensures i == -1 || (Defined(mapping, params, i) && i < n && Key(mapping, i) == k)
    ensures forall j :: i < j < n && Defined(mapping, params, j) ==> Key(mapping, j) != k
  {
    if n == 0 then -1
    else if Defined(mapping, params, n - 1) && Key(mapping, n - 1) == k then n - 1
    else WriterBelow(mapping, params, k, n - 1)
  }

  function Writer(mapping: Mapping, params: map<string, string>, k: string): (i: int)
    ensures i == -1 || (Defined(mapping, params, i) && Key(mapping, i) == k)
    ensures forall j :: i < j < |mapping| && Defined(mapping, params, j) ==> Key(mapping, j) != k
  {
    WriterBelow(mapping, params, k, |mapping|)
  }

  /** A parameter is kept when it is the last one to write to its top-level key. */
  predicate Kept(mapping: Mapping, params: map<string, string>, i: int) {
    Defined(mapping, params, i) && Writer(mapping, params, Key(mapping, i)) == i
  }

  ghost predicate HoldsAt(row: Row, mapping: Mapping, params: map<string, string>, i: int)
    requires Defined(mapping, params, i)
  {
    Holds(Object(row), mapping[i].1, params[mapping[i].0])
  }

  lemma CompileEntries(mapping: Mapping, params: map<string, string>, k: string)
    ensures k in Compile(mapping, params) <==> Writer(mapping, params, k) >= 0
    ensures var i := Writer(mapping, params, k);
            i >= 0 ==> Compile(mapping, params)[k] == Entry(mapping[i].1, params[mapping[i].0]).1
  {
    EntriesBelow(mapping, params, k, |mapping|);
    assert mapping[..|mapping|] == mapping;
  }

  lemma CompileOneMore(mapping: Mapping, params: map<string, string>, n: nat)
    requires n < |mapping|
    ensures Compile(mapping[..n + 1], params) ==
      if Defined(mapping, params, n)
      then var (key, c) := Entry(mapping[n].1, params[mapping[n].0]); Compile(mapping[..n], params)[key := c]
      else Compile(mapping[..n], params)
  {
    assert mapping[..n + 1][..n] == mapping[..n];
  }

  lemma EntryKey(mapping: Mapping, params: map<string, string>, i: nat)
    requires Defined(mapping, params, i)
    ensures Entry(mapping[i].1, params[mapping[i].0]).0 == Key(mapping, i)
  {
    EntryMeaning(Object(map[]), mapping[i].1, params[mapping[i].0]);
  }

  lemma {:induction false} EntriesBelow(mapping: Mapping, params: map<string, string>, k: string, n: nat)
    requires n <= |mapping|
    ensures k in Compile(mapping[..n], params) <==> WriterBelow(mapping, params, k, n) >= 0
    ensures var i := WriterBelow(mapping, params, k, n);
            i >= 0 ==> Compile(mapping[..n], params)[k] == Entry(mapping[i].1, params[mapping[i].0]).1
  {
    if n > 0 {
      EntriesBelow(mapping, params, k, n - 1);
      CompileOneMore(mapping, params, n - 1);
      if Defined(mapping, params, n - 1) { EntryKey(mapping, params, n - 1); }
    }
  }

  /** The produced tree says exactly what the kept parameters say, whatever the mapping. */
  lemma CompileMeaning(row: Row, mapping: Mapping, params: map<string, string>)
    ensures Satisfies(row, Compile(mapping, params)) <==>
      forall i :: Kept(mapping, params, i) ==> HoldsAt(row, mapping, params, i)
  {
    var where := Compile(mapping, params);
    forall i | Kept(mapping, params, i)
      ensures var k := Key(mapping, i);
              k in where && (k in row && Meets(row[k], where[k]) <==> HoldsAt(row, mapping, params, i))
    {
      CompileEntries(mapping, params, Key(mapping, i));
      EntryMeaning(Object(row), mapping[i].1, params[mapping[i].0]);
    }
    forall k | k in where
      ensures Kept(mapping, params, Writer(mapping, params, k)) && Key(mapping, Writer(mapping, params, k)) == k
    {
      CompileEntries(mapping, params, k);
    }
  }

  ghost predicate AllHold(row: Row, mapping: Mapping, params: map<string, string>) {
    forall i :: Defined(mapping, params, i) ==> HoldsAt(row, mapping, params, i)
  }

  /** With different first segments, the tree selects exactly the rows on which every defined parameter holds. */
  lemma DistinctKeysPreserveMeaning(row: Row, mapping: Mapping, params: map<string, string>)
    requires forall i, j :: 0 <= i < j < |mapping| ==> Key(mapping, i) != Key(mapping, j)
    ensures Satisfies(row, Compile(mapping, params)) <==> AllHold(row, mapping, params)
  {
    CompileMeaning(row, mapping, params);
    forall i | Defined(mapping, params, i) ensures Kept(mapping, params, i) {
    }
  }

  // ----- exactly when the meaning is preserved

  /** Every value that passes the test `c` passes the test `d`. */
  ghost predicate TestImplies(c: Condition, d: Condition) {
    forall text: string :: Meets(Field(text), c) ==> Meets(Field(text), d)
  }

  /** An overwritten parameter is harmless when its replacement looks at the same path and demands as much. */
  ghost predicate Lossless(mapping: Mapping, params: map<string, string>) {
    forall i :: Defined(mapping, params, i) ==> Covered(mapping, params, Writer(mapping, params, Key(mapping, i)), i)
  }

  ghost predicate Covered(mapping: Mapping, params: map<string, string>, j: int, i: int)
    requires Defined(mapping, params, i)
  {
    && Defined(mapping, params, j)
    && Target(mapping[j].1) == Target(mapping[i].1)
    && TestImplies(LeafTest(mapping[j].1, params[mapping[j].0]), LeafTest(mapping[i].1, params[mapping[i].0]))
  }

  function Chain(path: seq<string>, text: string): Record {
    if path == [] then Field(text) else Object(map[path[0] := Chain(path[1..], text)])
  }

  /** A record that holds a single value has that value at its own path and no value anywhere else. */
  lemma {:induction false} ChainValue(path: seq<string>, text: string, other: seq<string>)
    ensures path == other ==> ValueAt(Chain(path, text), other) == Some(Field(text))
    ensures path != other ==>
      ValueAt(Chain(path, text), other).None? || ValueAt(Chain(path, text), other).value.Object?
  {
    if path != [] && other != [] && path[0] == other[0] {
      ChainValue(path[1..], text, other[1..]);
      assert path == [path[0]] + path[1..] && other == [other[0]] + other[1..];
    }
  }

  /** A text that passes the test of a leaf. */
  lemma {:induction false} LeafSample(path: string, value: string)
    ensures Meets(Field(value), LeafTest(path, value))
  {
    assert value + "" == value && "" + value == value;
    LikeOwnText(value, "");
    LikeSkips("", value, value + "%");
    assert "%" + (value + "%") == "%" + value + "%";
  }

  /** The row that holds one value for every kept parameter: `text` for number `j`, the parameter itself otherwise. */
  ghost function SampleRow(mapping: Mapping, params: map<string, string>, j: int, text: string): Row {
    map k | k in Compile(mapping, params) && Writer(mapping, params, k) >= 0 ::
      var w := Writer(mapping, params, k);
      Chain(Target(mapping[w].1)[1..], if w == j then text else params[mapping[w].0])
  }

  lemma SampleEntry(mapping: Mapping, params: map<string, string>, j: int, text: string, i: int)
    requires Defined(mapping, params, i)
    ensures var w, row := Writer(mapping, params, Key(mapping, i)), SampleRow(mapping, params, j, text);
            Key(mapping, i) in row && row[Key(mapping, i)]
              == Chain(Target(mapping[w].1)[1..], if w == j then text else params[mapping[w].0])
  {
    CompileEntries(mapping, params, Key(mapping, i));
  }

  lemma SampleValue(mapping: Mapping, params: map<string, string>, j: int, text: string, i: int)
    requires Defined(mapping, params, i)
    ensures var w, row := Writer(mapping, params, Key(mapping, i)), SampleRow(mapping, params, j, text);
            var found := ValueAt(Object(row), Target(mapping[i].1));
            if Target(mapping[i].1) == Target(mapping[w].1)
            then found == Some(Field(if w == j then text else params[mapping[w].0]))
            else found.None? || found.value.Object?
  {
    var k := Key(mapping, i);
    var w, row := Writer(mapping, params, k), SampleRow(mapping, params, j, text);
    SampleEntry(mapping, params, j, text, i);
    RowOfChain(row, Target(mapping[w].1), if w == j then text else params[mapping[w].0], Target(mapping[i].1));
  }

  /** The same for a row that holds a single value under its first segment. */
  lemma RowOfChain(row: Row, path: seq<string>, text: string, other: seq<string>)
    requires path != [] && other != [] && path[0] == other[0]
    requires path[0] in row && row[path[0]] == Chain(path[1..], text)
    ensures var found := ValueAt(Object(row), other);
            if other == path then found == Some(Field(text)) else found.None? || found.value.Object?
  {
    ChainValue(path[1..], text, other[1..]);
    assert path == [path[0]] + path[1..] && other == [other[0]] + other[1..];
  }

  lemma SampleSatisfies(mapping: Mapping, params: map<string, string>, j: int, text: string)
    requires Kept(mapping, params, j) && Meets(Field(text), LeafTest(mapping[j].1, params[mapping[j].0]))
    ensures Satisfies(SampleRow(mapping, params, j, text), Compile(mapping, params))
  {
    forall w | Kept(mapping, params, w) ensures HoldsAt(SampleRow(mapping, params, j, text), mapping, params, w) {
      SampleValue(mapping, params, j, text, w);
      LeafSample(mapping[w].1, params[mapping[w].0]);
    }
    CompileMeaning(SampleRow(mapping, params, j, text), mapping, params);
  }

  lemma WriterIsKept(mapping: Mapping, params: map<string, string>, i: int)
    requires Defined(mapping, params, i)
    ensures Kept(mapping, params, Writer(mapping, params, Key(mapping, i)))
  {
  }

  /** A row that the tree selects although a parameter that was overwritten does not hold on it. */
  lemma UncoveredShows(mapping: Mapping, params: map<string, string>, i: int) returns (row: Row)
    requires Defined(mapping, params, i) && !Covered(mapping, params, Writer(mapping, params, Key(mapping, i)), i)
    ensures Satisfies(row, Compile(mapping, params)) && !HoldsAt(row, mapping, params, i)
  {
    var j := Writer(mapping, params, Key(mapping, i));
    WriterIsKept(mapping, params, i);
    var c, d := LeafTest(mapping[j].1, params[mapping[j].0]), LeafTest(mapping[i].1, params[mapping[i].0]);
    LeafSample(mapping[j].1, params[mapping[j].0]);
    var text := params[mapping[j].0];
    if Target(mapping[j].1) == Target(mapping[i].1) {
      text :| Meets(Field(text), c) && !Meets(Field(text), d);
    }
    row := SampleRow(mapping, params, j, text);
    SampleSatisfies(mapping, params, j, text);
    SampleValue(mapping, params, j, text, i);
  }

  lemma CoveredHolds(row: Row, mapping: Mapping, params: map<string, string>, j: int, i: int)
    requires Defined(mapping, params, i) && Covered(mapping, params, j, i) && HoldsAt(row, mapping, params, j)
    ensures HoldsAt(row, mapping, params, i)
  {
    var v := ValueAt(Object(row), Target(mapping[j].1)).value;
    assert v.Field?;
    assert v == Field(v.text);
  }

  lemma LosslessPreserves(row: Row, mapping: Mapping, params: map<string, string>)
    requires Lossless(mapping, params)
    ensures Satisfies(row, Compile(mapping, params)) <==> AllHold(row, mapping, params)
  {
    CompileMeaning(row, mapping, params);
    if Satisfies(row, Compile(mapping, params)) {
      forall i | Defined(mapping, params, i) ensures HoldsAt(row, mapping, params, i) {
        WriterIsKept(mapping, params, i);
        CoveredHolds(row, mapping, params, Writer(mapping, params, Key(mapping, i)), i);
      }
    }
  }

  ghost predicate PreservesMeaning(mapping: Mapping, params: map<string, string>) {
    forall row: Row :: Satisfies(row, Compile(mapping, params)) <==> AllHold(row, mapping, params)
  }

  /** The tree keeps the meaning of the filter on all rows exactly when no overwritten parameter matters. */
  lemma MeaningPreservedExactly(mapping: Mapping, params: map<string, string>)
    ensures PreservesMeaning(mapping, params) <==> Lossless(mapping, params)
  {
    if Lossless(mapping, params) {
      forall row: Row ensures Satisfies(row, Compile(mapping, params)) <==> AllHold(row, mapping, params) {
        LosslessPreserves(row, mapping, params);
      }
    } else {
      var i :| Defined(mapping, params, i) && !Covered(mapping, params, Writer(mapping, params, Key(mapping, i)), i);
      var row := UncoveredShows(mapping, params, i);
      assert !AllHold(row, mapping, params);
    }
  }

  lemma TargetOfTwo(a: string, b: string)
    requires '.' !in a && '.' !in b && !IsSearch(b)
    ensures Target(a + "." + b) == [a, b]
  {
    SplitAtDot(a, b);
    SplitOfPlain(b);
  }

  /**
   Two properties of one relation: the first filter is silently dropped. The product mapping has such a pair,
   `category.id` and `category.name` (service/product-service.ts:378-379); the failure is latent there, because the
   request parser leaves the second parameter out (line 141).
   */
  lemma SharedSegmentDropsFilter(params: map<string, string>, p: string, q: string, a: string, b: string, c: string)
    requires p in params && q in params
    requires '.' !in a && '.' !in b && '.' !in c && !IsSearch(b) && !IsSearch(c) && b != c
    ensures !PreservesMeaning([(p, a + "." + b), (q, a + "." + c)], params)
  {
    var mapping := [(p, a + "." + b), (q, a + "." + c)];
    TargetOfTwo(a, b);
    TargetOfTwo(a, c);
    assert Key(mapping, 0) == a == Key(mapping, 1);
    assert Defined(mapping, params, 1);
    assert Writer(mapping, params, a) == 1;
    assert [a, b][1] != [a, c][1];
    assert Defined(mapping, params, 0) && !Covered(mapping, params, 1, 0);
    MeaningPreservedExactly(mapping, params);
  }

  // ----- searches

  lemma {:induction false} LikeAnything(text: string)
    ensures LikeMatches(text, "%")
  {
    if text == "" { assert "%"[1..] == ""; } else { LikeAnything(text[1..]); }
  }

  /** A text matches itself as a pattern, followed by anything. */
  lemma {:induction false} LikeOwnText(v: string, tail: string)
    ensures LikeMatches(v + tail, v + "%")
  {
    if v == "" {
      LikeAnything(tail);
      assert v + tail == tail && v + "%" == "%";
    } else {
      LikeOwnText(v[1..], tail);
      assert (v + tail)[1..] == v[1..] + tail && (v + "%")[1..] == v[1..] + "%";
      if v[0] == '%' {
        LikeSkips([], v[1..] + tail, v[1..] + "%");
        assert [] + (v[1..] + tail) == v[1..] + tail && "%" + (v[1..] + "%") == v + "%";
      }
    }
  }

  /** A leading percent sign skips any prefix. */
  lemma {:induction false} LikeSkips(a: string, text: string, p: string)
    requires LikeMatches(text, p)
    ensures LikeMatches(a + text, "%" + p)
  {
    assert ("%" + p)[1..] == p;
    if a == "" {
      assert a + text == text;
    } else {
      LikeSkips(a[1..], text, p);
      assert (a + text)[1..] == a[1..] + text;
    }
  }

  lemma {:induction false} LikeSkipped(text: string, p: string) returns (i: nat)
    requires LikeMatches(text, "%" + p)
    ensures i <= |text| && LikeMatches(text[i..], p)
  {
    assert ("%" + p)[1..] == p;
    if LikeMatches(text, p) {
      i := 0;
      assert text[0..] == text;
    } else {
      var k := LikeSkipped(text[1..], p);
      i := k + 1;
      assert text[1..][k..] == text[i..];
    }
  }

  ghost predicate Plain(v: string) {
    '%' !in v && '_' !in v
  }

  /** For the tests of leaves, implication can be read off the parameters. */
  lemma ImplicationOfTests(v: string, w: string)
    ensures TestImplies(Equal(v), Equal(w)) <==> v == w
    ensures TestImplies(Equal(v), Like("%" + w + "%")) <==> LikeMatches(v, "%" + w + "%")
    ensures !TestImplies(Like("%" + v + "%"), Equal(w))
    ensures Plain(v) ==> (TestImplies(Like("%" + v + "%"), Like("%" + w + "%")) <==> LikeMatches(v, "%" + w + "%"))
  {
    assert Meets(Field(v), Equal(v));
    SearchesFindThemselves(v);
    assert Meets(Field(v), Like("%" + v + "%")) && Meets(Field(v + "x"), Like("%" + v + "%"));
    assert v != v + "x";
    if Plain(v) && LikeMatches(v, "%" + w + "%") {
      forall text: string | Meets(Field(text), Like("%" + v + "%")) ensures Meets(Field(text), Like("%" + w + "%")) {
        FoundInFound(text, v, w);
      }
    }
  }

  lemma SearchesFindThemselves(v: string)
    ensures LikeMatches(v, "%" + v + "%") && LikeMatches(v + "x", "%" + v + "%")
  {
    assert v + "" == v && "" + v == v && "" + (v + "x") == v + "x" && "%" + (v + "%") == "%" + v + "%";
    LikeOwnText(v, "");
    LikeOwnText(v, "x");
    LikeSkips("", v, v + "%");
    LikeSkips("", v + "x", v + "%");
  }

  /** When a search for `w` finds the plain text `v`, it finds every text that a search for `v` finds. */
  lemma FoundInFound(text: string, v: string, w: string)
    requires Plain(v) && LikeMatches(v, "%" + w + "%") && LikeMatches(text, "%" + v + "%")
    ensures LikeMatches(text, "%" + w + "%")
  {
    SearchIsContainment(text, v);
    var i :| OccursAt(v, text, i);
    var tail := text[i..][|v|..];
    assert text == text[..i] + (v + tail);
    LikeWidens(text[..i], v, tail, w);
  }

  /** What a search finds in a text, it finds in every longer text. */
  lemma LikeWidens(a: string, v: string, b: string, w: string)
    requires LikeMatches(v, "%" + w + "%")
    ensures LikeMatches(a + (v + b), "%" + w + "%")
  {
    assert "%" + w + "%" == "%" + (w + "%");
    var i := LikeSkipped(v, w + "%");
    LikeExtends(v[i..], b, w);
    LikeSkips(a + v[..i], v[i..] + b, w + "%");
    assert a + v[..i] + (v[i..] + b) == a + (v + b);
  }

  lemma {:induction false} LikeExtends(text: string, b: string, w: string)
    requires LikeMatches(text, w + "%")
    ensures LikeMatches(text + b, w + "%")
    decreases |text| + |w|
  {
    if w == "" {
      assert w + "%" == "%";
      LikeAnything(text + b);
    } else {
      var p := w + "%";
      assert p[0] == w[0] && p[1..] == w[1..] + "%";
      if text != "" { assert (text + b)[1..] == text[1..] + b; }
      if p[0] == '%' {
        if LikeMatches(text, p[1..]) { LikeExtends(text, b, w[1..]); } else { LikeExtends(text[1..], b, w); }
      } else {
        LikeExtends(text[1..], b, w[1..]);
      }
    }
  }

  lemma {:induction false} LikePrefix(text: string, v: string)
    requires Plain(v)
    ensures LikeMatches(text, v + "%") <==> v <= text
  {
    if v == "" {
      LikeAnything(text);
      assert v + "%" == "%";
    } else {
      assert v[0] in v && (v + "%")[0] == v[0] && (v + "%")[1..] == v[1..] + "%";
      if text != "" { LikePrefix(text[1..], v[1..]); }
    }
  }

  ghost predicate OccursAt(v: string, text: string, i: int) {
    0 <= i <= |text| && v <= text[i..]
  }

  /** Without wildcards of its own, a search value is found exactly where it occurs. */
  lemma SearchIsContainment(text: string, v: string)
    requires Plain(v)
    ensures LikeMatches(text, "%" + v + "%") <==> exists i :: OccursAt(v, text, i)
  {
    var p := v + "%";
    assert "%" + v + "%" == "%" + p;
    if LikeMatches(text, "%" + p) {
      var i := LikeSkipped(text, p);
      LikePrefix(text[i..], v);
      assert OccursAt(v, text, i);
    }
    if i :| OccursAt(v, text, i) {
      LikePrefix(text[i..], v);
      LikeSkips(text[..i], text[i..], p);
      assert text[..i] + text[i..] == text;
    }
  }

  /** The name of a column: neither dots nor percent signs. */
  ghost predicate ColumnName(col: string) {
    col != "" && '.' !in col && '%' !in col
  }

  lemma SearchTarget(col: string)
    requires ColumnName(col)
    ensures Target("%" + col + "%") == [col] && Split("%" + col + "%") == ["%" + col + "%"]
    ensures IsSearch("%" + col + "%")
  {
    var path := "%" + col + "%";
    SplitOfPlain(path);
    StripBoth(col);
    assert path[0] == '%';
  }

  lemma StripBoth(col: string)
    ensures "%" + col + "%" != "" && StripPercents("%" + col + "%") == col
  {
    var path := "%" + col + "%";
    assert path[1..] == col + "%" && (col + "%")[..|col|] == col;
  }

  /** A mapping to `%column%` looks into that column, and finds the texts that contain the value. */
  lemma SearchReachesColumn(row: Row, col: string, value: string)
    requires ColumnName(col) && Plain(value)
    ensures Holds(Object(row), "%" + col + "%", value) <==>
      col in row && row[col].Field? && exists i :: OccursAt(value, row[col].text, i)
  {
    SearchTarget(col);
    assert [col][1..] == [];
    if col in row {
      assert ValueAt(Object(row), [col]) == ValueAt(row[col], []) == Some(row[col]);
      if row[col].Field? { SearchIsContainment(row[col].text, value); }
    }
  }

  /** The same one relation away. */
  lemma SearchReachesRelation(row: Row, relation: string, col: string, value: string)
    requires '.' !in relation && ColumnName(col) && Plain(value)
    ensures Holds(Object(row), relation + "." + ("%" + col + "%"), value) <==>
      relation in row && Holds(row[relation], "%" + col + "%", value)
  {
    var last := "%" + col + "%";
    SearchTarget(col);
    SplitAtDot(relation, last);
    assert Target(relation + "." + last) == [relation, col] && [relation, col][1..] == [col];
    assert LeafTest(relation + "." + last, value) == LeafTest(last, value);
  }

  /** In a pattern an underscore stands for exactly one character. */
  lemma UnderscoreIsOneCharacter(text: string, p: string)
    ensures LikeMatches(text, "_" + p) <==> text != "" && LikeMatches(text[1..], p)
  {
    assert ("_" + p)[1..] == p;
  }
}
