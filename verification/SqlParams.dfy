/**
 `convertToPositional` (backend/src/helpers/params.ts) rewrites SQL with `:name` parameters into SQL
 with `?` marks and the array of values that fills them.
 */
module SqlParams {
  import opened Common

  /** The result of the conversion; the source throws on the first name that `params` lacks. */
  datatype Conversion<+V> = Converted(sql: string, values: seq<V>) | MissingParam(name: string)

  /** `\w` in a JavaScript regular expression without flags. */
  predicate IsWordChar(c: char) {
    'a' <= c <= 'z' || 'A' <= c <= 'Z' || '0' <= c <= '9' || c == '_'
  }

  // ----- what the text means: literal characters and parameter tokens

  datatype Token = Literal(c: char) | Named(name: string)

  function Spelling(ts: seq<Token>): string {
    if ts == [] then "" else Word(ts[0]) + Spelling(ts[1..])
  }

  function Word(t: Token): string {
    match t case Literal(c) => [c] case Named(n) => ":" + n
  }

  predicate StartsWithWordChar(ts: seq<Token>) {
    ts != [] && ts[0].Literal? && IsWordChar(ts[0].c)
  }

  /** A parameter token is a non-empty word that nothing extends; a literal colon is not in front of a word. */
  ghost predicate HeadWellRead(t: Token, rest: seq<Token>) {
    match t
    case Named(n) => n != "" && (forall c :: c in n ==> IsWordChar(c)) && !StartsWithWordChar(rest)
    case Literal(c) => c == ':' ==> !StartsWithWordChar(rest)
  }

  ghost predicate WellRead(ts: seq<Token>) {
    ts != [] ==> HeadWellRead(ts[0], ts[1..]) && WellRead(ts[1..])
  }

  /** The length of the longest prefix of word characters. */
  function WordLength(s: string): (n: nat)
    ensures n <= |s|
    ensures forall k :: 0 <= k < n ==> IsWordChar(s[k])
    ensures n < |s| ==> !IsWordChar(s[n])
  {
    if s == "" || !IsWordChar(s[0]) then 0 else 1 + WordLength(s[1..])
  }

  /** The left-to-right, longest-match reading of `sql`. */
  function Tokens(sql: string): (ts: seq<Token>)
    decreases |sql|
  {
    if sql == "" then []
    else
      var n := WordLength(sql[1..]);
      if sql[0] == ':' && n > 0 then [Named(sql[1..1 + n])] + Tokens(sql[1 + n..])
      else [Literal(sql[0])] + Tokens(sql[1..])
  }

  lemma TokensStart(sql: string)
    ensures StartsWithWordChar(Tokens(sql)) <==> sql != "" && IsWordChar(sql[0])
  {
  }

  lemma Cons(t: Token, rest: seq<Token>)
    ensures Spelling([t] + rest) == Word(t) + Spelling(rest)
    ensures WellRead([t] + rest) <==> HeadWellRead(t, rest) && WellRead(rest)
  {
    assert ([t] + rest)[1..] == rest;
  }

  lemma WordLengthOf(word: string, rest: string)
    requires forall c :: c in word ==> IsWordChar(c)
    requires rest != "" ==> !IsWordChar(rest[0])
    ensures WordLength(word + rest) == |word|
  {
    assert forall k :: 0 <= k < |word| ==> (word + rest)[k] in word;
    assert rest != "" ==> (word + rest)[|word|] == rest[0];
  }

  lemma NameParts(name: string, rest: string)
    ensures var sql := ":" + name + rest;
            sql[0] == ':' && sql[1..] == name + rest && sql[1..1 + |name|] == name && sql[1 + |name|..] == rest
  {
  }

  lemma NextName(sql: string, n: nat)
    requires sql != "" && sql[0] == ':' && n == WordLength(sql[1..]) > 0
    ensures Tokens(sql) == [Named(sql[1..1 + n])] + Tokens(sql[1 + n..])
  {
  }

  lemma TokensOfName(name: string, rest: string)
    requires name != "" && forall c :: c in name ==> IsWordChar(c)
    requires rest != "" ==> !IsWordChar(rest[0])
    ensures Tokens(":" + name + rest) == [Named(name)] + Tokens(rest)
  {
    NameParts(name, rest);
    WordLengthOf(name, rest);
    NextName(":" + name + rest, |name|);
  }

  lemma TokensOfLiteral(c: char, rest: string)
    requires c == ':' ==> rest == "" || !IsWordChar(rest[0])
    ensures Tokens([c] + rest) == [Literal(c)] + Tokens(rest)
  {
    assert ([c] + rest)[1..] == rest;
  }

  ghost predicate NoWordChar(rest: string) {
    rest != "" ==> !IsWordChar(rest[0])
  }

  /** `t` is the token in front of the text `rest`. */
  ghost predicate Fits(t: Token, rest: string) {
    match t
    case Named(n) => n != "" && (forall c :: c in n ==> IsWordChar(c)) && NoWordChar(rest)
    case Literal(c) => c == ':' ==> NoWordChar(rest)
  }

  lemma FirstName(sql: string) returns (name: string, rest: string)
    requires sql != "" && sql[0] == ':' && WordLength(sql[1..]) > 0
    ensures sql == ":" + name + rest && Fits(Named(name), rest)
  {
    var n := WordLength(sql[1..]);
    name, rest := sql[1..][..n], sql[1..][n..];
  }

  lemma FirstToken(sql: string) returns (t: Token, rest: string)
    requires sql != ""
    ensures sql == Word(t) + rest && |rest| < |sql| && Fits(t, rest)
    ensures Tokens(sql) == [t] + Tokens(rest)
  {
    if sql[0] == ':' && WordLength(sql[1..]) > 0 {
      var name;
      name, rest := FirstName(sql);
      t := Named(name);
      TokensOfName(name, rest);
    } else {
      t, rest := Literal(sql[0]), sql[1..];
      assert sql == [sql[0]] + rest;
      TokensOfLiteral(sql[0], rest);
    }
  }

  lemma {:induction false} TokensAreAReading(sql: string)
    ensures Spelling(Tokens(sql)) == sql && WellRead(Tokens(sql))
    decreases |sql|
  {
    if sql != "" {
      var t, rest := FirstToken(sql);
      TokensAreAReading(rest);
      TokensStart(rest);
      Cons(t, Tokens(rest));
    }
  }

  lemma {:induction false} SpellingStart(ts: seq<Token>)
    requires WellRead(ts)
    ensures StartsWithWordChar(ts) <==> Spelling(ts) != "" && IsWordChar(Spelling(ts)[0])
  {
  }

  /** `Tokens` is the only way to read the text as maximal `:name` tokens and literal characters. */
  lemma {:induction false} ReadingIsUnique(ts: seq<Token>)
    requires WellRead(ts)
    ensures Tokens(Spelling(ts)) == ts
  {
    if ts != [] {
      var rest := ts[1..];
      ReadingIsUnique(rest);
      SpellingStart(rest);
      assert ts == [ts[0]] + rest;
      match ts[0]
      case Literal(c) => TokensOfLiteral(c, Spelling(rest));
      case Named(name) => TokensOfName(name, Spelling(rest));
    }
  }

  // ----- the compiler and its specification

  function Template(ts: seq<Token>): string {
    if ts == [] then "" else [if ts[0].Named? then '?' else ts[0].c] + Template(ts[1..])
  }

  function Names(ts: seq<Token>): seq<string> {
    if ts == [] then [] else (if ts[0].Named? then [ts[0].name] else []) + Names(ts[1..])
  }

  function Values<V>(names: seq<string>, params: map<string, V>): seq<V>
    requires forall n :: n in names ==> n in params
  {
    seq(|names|, i requires 0 <= i < |names| => params[names[i]])
  }

  /** The position of the first name that `params` lacks; |names| when there is none. */
  function FirstMissing<V>(names: seq<string>, params: map<string, V>): (k: nat)
    ensures k <= |names|
    ensures forall j :: 0 <= j < k ==> names[j] in params
    ensures k < |names| ==> names[k] !in params
  {
    if names == [] || names[0] !in params then 0 else 1 + FirstMissing(names[1..], params)
  }

  function Compiled<V>(sql: string, params: map<string, V>): Conversion<V> {
    var names := Names(Tokens(sql));
    var k := FirstMissing(names, params);
    if k < |names| then MissingParam(names[k]) else Converted(Template(Tokens(sql)), Values(names, params))
  }

  /** One step of the scan at a position where a parameter token starts. */
  lemma ScanName(sql: string, i: nat, n: nat)
    requires i < |sql| && sql[i] == ':' && n == WordLength(sql[i + 1..]) > 0
    ensures Template(Tokens(sql[i..])) == "?" + Template(Tokens(sql[i + 1 + n..]))
    ensures Names(Tokens(sql[i..])) == [sql[i + 1..i + 1 + n]] + Names(Tokens(sql[i + 1 + n..]))
  {
    assert sql[i..][1..] == sql[i + 1..];
    assert sql[i..][1..1 + n] == sql[i + 1..i + 1 + n] && sql[i..][1 + n..] == sql[i + 1 + n..];
    assert Tokens(sql[i..])[1..] == Tokens(sql[i + 1 + n..]);
  }

  lemma ScanLiteral(sql: string, i: nat)
    requires i < |sql| && !(sql[i] == ':' && WordLength(sql[i + 1..]) > 0)
    ensures Template(Tokens(sql[i..])) == [sql[i]] + Template(Tokens(sql[i + 1..]))
    ensures Names(Tokens(sql[i..])) == Names(Tokens(sql[i + 1..]))
  {
    assert sql[i..][1..] == sql[i + 1..];
    assert Tokens(sql[i..])[1..] == Tokens(sql[i + 1..]);
  }

  /** What has been written up to position `i`, completed by the rest, is the whole result. */
  ghost predicate Scanned(sql: string, i: nat, newSql: string, paramNames: seq<string>)
    requires i <= |sql|
  {
    newSql + Template(Tokens(sql[i..])) == Template(Tokens(sql))
    && paramNames + Names(Tokens(sql[i..])) == Names(Tokens(sql))
  }

  lemma ScannedNothing(sql: string)
    ensures Scanned(sql, 0, "", [])
  {
    assert sql[0..] == sql;
  }

  lemma ScannedName(sql: string, i: nat, n: nat, newSql: string, paramNames: seq<string>)
    requires i < |sql| && sql[i] == ':' && n == WordLength(sql[i + 1..]) > 0 && Scanned(sql, i, newSql, paramNames)
    ensures Scanned(sql, i + 1 + n, newSql + "?", paramNames + [sql[i + 1..i + 1 + n]])
  {
    ScanName(sql, i, n);
    Regroup(newSql, "?", Template(Tokens(sql[i + 1 + n..])));
    Regroup(paramNames, [sql[i + 1..i + 1 + n]], Names(Tokens(sql[i + 1 + n..])));
  }

  lemma ScannedLiteral(sql: string, i: nat, newSql: string, paramNames: seq<string>)
    requires i < |sql| && !(sql[i] == ':' && WordLength(sql[i + 1..]) > 0) && Scanned(sql, i, newSql, paramNames)
    ensures Scanned(sql, i + 1, newSql + [sql[i]], paramNames)
  {
    ScanLiteral(sql, i);
    Regroup(newSql, [sql[i]], Template(Tokens(sql[i + 1..])));
  }

  lemma ScannedAll(sql: string, newSql: string, paramNames: seq<string>)
    requires Scanned(sql, |sql|, newSql, paramNames)
    ensures newSql == Template(Tokens(sql)) && paramNames == Names(Tokens(sql))
  {
    assert sql[|sql|..] == "";
  }

  /** The global replacement: its callback pushes each name and leaves a mark. */
  method ReplaceNames(sql: string) returns (newSql: string, paramNames: seq<string>)
    ensures newSql == Template(Tokens(sql)) && paramNames == Names(Tokens(sql))
  {
    paramNames, newSql := [], "";
    ScannedNothing(sql);
    var i := 0;
    while i < |sql|
      invariant 0 <= i <= |sql| && Scanned(sql, i, newSql, paramNames)
    {
      var n := WordLength(sql[i + 1..]);
      if sql[i] == ':' && n > 0 {
        ScannedName(sql, i, n, newSql, paramNames);
        var name := sql[i + 1..i + 1 + n];
        paramNames, newSql, i := paramNames + [name], newSql + "?", i + 1 + n;
      } else {
        ScannedLiteral(sql, i, newSql, paramNames);
        newSql, i := newSql + [sql[i]], i + 1;
      }
    }
    ScannedAll(sql, newSql, paramNames);
  }

  /**
   Names first, then values. `params` holds every name for which `name in params` is true, inherited
   ones included.
   */
  method ConvertToPositional<V>(sql: string, params: map<string, V>) returns (r: Conversion<V>)
    ensures r == Compiled(sql, params)
  {
    var newSql, paramNames := ReplaceNames(sql);
    var values: seq<V> := [];
    for k := 0 to |paramNames|
      invariant forall j :: 0 <= j < k ==> paramNames[j] in params
      invariant |values| == k && forall j :: 0 <= j < k ==> values[j] == params[paramNames[j]]
    {
      if paramNames[k] !in params {
        return MissingParam(paramNames[k]);
      }
      values := values + [params[paramNames[k]]];
    }
    r := Converted(newSql, values);
  }

  // ----- meaning

  /** A piece of the final statement: a character of the text or a value in place. */
  datatype Piece<+V> = Text(c: char) | Value(v: V)

  /** Replace each `:name` token by its parameter. */
  function Substituted<V>(ts: seq<Token>, params: map<string, V>): seq<Piece<V>>
    requires forall n :: n in Names(ts) ==> n in params
  {
    if ts == [] then []
    else (match ts[0] case Literal(c) => [Text(c)] case Named(n) => assert n == Names(ts)[0]; [Value(params[n])])
         + Substituted(ts[1..], params)
  }

  /** Fill the marks from left to right; None when marks and values do not pair up. */
  function Fill<V>(template: string, values: seq<V>): Option<seq<Piece<V>>> {
    if template == "" then if values == [] then Some([]) else None
    else if template[0] != '?' then
      match Fill(template[1..], values)
      case Some(ps) => Some([Text(template[0])] + ps)
      case None => None
    else if values == [] then None
    else
      match Fill(template[1..], values[1..])
      case Some(ps) => Some([Value(values[0])] + ps)
      case None => None
  }

  function Marks(s: string): nat {
    if s == "" then 0 else (if s[0] == '?' then 1 else 0) + Marks(s[1..])
  }

  lemma {:induction false} MarksPositive(s: string)
    ensures Marks(s) == 0 <==> '?' !in s
  {
    if s != "" { MarksPositive(s[1..]); assert s == [s[0]] + s[1..]; }
  }

  lemma {:induction false} WordHasNoMark(s: string)
    requires forall c :: c in s ==> IsWordChar(c)
    ensures Marks(s) == 0
  {
    MarksPositive(s);
  }

  lemma {:induction false} MarksConcat(a: string, b: string)
    ensures Marks(a + b) == Marks(a) + Marks(b)
  {
    if a == "" { assert a + b == b; } else { MarksConcat(a[1..], b); assert (a + b)[1..] == a[1..] + b; }
  }

  lemma {:induction false} MarksOfTemplate(ts: seq<Token>)
    requires WellRead(ts)
    ensures Marks(Template(ts)) == |Names(ts)| + Marks(Spelling(ts))
  {
    if ts != [] {
      MarksOfTemplate(ts[1..]);
      MarksOfHead(ts);
    }
  }

  lemma MarksOfHead(ts: seq<Token>)
    requires WellRead(ts) && ts != []
    ensures Marks(Spelling(ts)) == (if ts[0] == Literal('?') then 1 else 0) + Marks(Spelling(ts[1..]))
  {
    match ts[0]
    case Literal(c) => MarksConcat([c], Spelling(ts[1..]));
    case Named(n) =>
      MarksConcat(":" + n, Spelling(ts[1..]));
      assert (":" + n)[1..] == n;
      WordHasNoMark(n);
  }

  lemma {:induction false} FillCounts<V>(template: string, values: seq<V>)
    ensures Fill(template, values).Some? <==> Marks(template) == |values|
  {
    if template != "" {
      if template[0] != '?' { FillCounts(template[1..], values); }
      else if values != [] { FillCounts(template[1..], values[1..]); }
    }
  }

  lemma FillMark<V>(rest: string, v: V, vs: seq<V>)
    ensures Fill("?" + rest, [v] + vs) == match Fill(rest, vs) case Some(ps) => Some([Value(v)] + ps) case None => None
  {
    assert ("?" + rest)[1..] == rest && ([v] + vs)[1..] == vs;
  }

  lemma FillText<V>(c: char, rest: string, vs: seq<V>)
    requires c != '?'
    ensures Fill([c] + rest, vs) == match Fill(rest, vs) case Some(ps) => Some([Text(c)] + ps) case None => None
  {
    assert ([c] + rest)[1..] == rest;
  }

  lemma ValuesCons<V>(n: string, names: seq<string>, params: map<string, V>)
    requires n in params && forall m :: m in names ==> m in params
    ensures Values([n] + names, params) == [params[n]] + Values(names, params)
  {
  }

  lemma {:induction false} FillSubstitutes<V>(ts: seq<Token>, params: map<string, V>)
    requires WellRead(ts) && Marks(Spelling(ts)) == 0
    requires forall n :: n in Names(ts) ==> n in params
    ensures Fill(Template(ts), Values(Names(ts), params)) == Some(Substituted(ts, params))
  {
    if ts != [] {
      var rest := ts[1..];
      MarksOfHead(ts);
      assert forall n :: n in Names(rest) ==> n in Names(ts);
      FillSubstitutes(rest, params);
      var vs := Values(Names(rest), params);
      match ts[0]
      case Literal(c) =>
        FillText(c, Template(rest), vs);
        assert Names(ts) == Names(rest);
      case Named(n) =>
        assert Names(ts)[0] == n;
        ValuesCons(n, Names(rest), params);
        FillMark(Template(rest), params[n], vs);
    }
  }

  /**
   The compiled statement, filled from left to right, is the original with every parameter in place,
   exactly when the original has no `?` of its own. Repeated names are repeated values.
   */
  lemma MeaningPreserved<V>(sql: string, params: map<string, V>)
    requires forall n :: n in Names(Tokens(sql)) ==> n in params
    ensures Compiled(sql, params).Converted?
    ensures Fill(Compiled(sql, params).sql, Compiled(sql, params).values) == Some(Substituted(Tokens(sql), params))
      <==> '?' !in sql
  {
    var ts := Tokens(sql);
    TokensAreAReading(sql);
    MarksPositive(sql);
    if '?' in sql {
      MarksOfTemplate(ts);
      FillCounts(Template(ts), Values(Names(ts), params));
    } else {
      FillSubstitutes(ts, params);
    }
  }

  // ----- one name in a statement, without reading the statement as tokens

  /** Letters, digits and the underscore. */
  ghost predicate Alphanumeric(c: char) {
    'a' <= c <= 'z' || 'A' <= c <= 'Z' || '0' <= c <= '9' || c == '_'
  }

  lemma NameIsOneToken(name: string, rest: string)
    requires name != "" && forall c :: c in name ==> Alphanumeric(c)
    requires rest != "" ==> !Alphanumeric(rest[0])
    ensures Tokens(":" + name + rest) == [Named(name)] + Tokens(rest)
  {
    TokensOfName(name, rest);
  }

  /** What the scan makes of a text: the template and the names. */
  function Scan(sql: string): (string, seq<string>) {
    (Template(Tokens(sql)), Names(Tokens(sql)))
  }

  lemma CharIsCopied(c: char, rest: string)
    requires c != ':'
    ensures Scan([c] + rest) == ([c] + Scan(rest).0, Scan(rest).1)
  {
    TokensOfLiteral(c, rest);
    HeadOfTokens(Literal(c), Tokens(rest));
    var names := Names(Tokens(rest));
    assert [] + names == names;
  }

  lemma {:induction false} TextIsCopied(text: string, rest: string)
    requires ':' !in text
    ensures Scan(text + rest) == (text + Scan(rest).0, Scan(rest).1)
  {
    if text == "" {
      assert text + rest == rest && text + Scan(rest).0 == Scan(rest).0;
    } else {
      var c, behind := text[0], text[1..];
      TextIsCopied(behind, rest);
      CharIsCopied(c, behind + rest);
      FirstOfText(text, rest);
      FirstOfText(text, Scan(rest).0);
    }
  }

  lemma FirstOfText(text: string, rest: string)
    requires text != ""
    ensures text + rest == [text[0]] + (text[1..] + rest)
  {
  }

  lemma HeadOfTokens(t: Token, rest: seq<Token>)
    ensures Template([t] + rest) == [if t.Named? then '?' else t.c] + Template(rest)
    ensures Names([t] + rest) == (if t.Named? then [t.name] else []) + Names(rest)
  {
    assert ([t] + rest)[1..] == rest;
  }

  /** A single `:name` becomes a single mark with the value of that name, or is reported as missing. */
  lemma OneName<V>(before: string, name: string, after: string, params: map<string, V>)
    requires ':' !in before && ':' !in after
    requires name != "" && forall c :: c in name ==> Alphanumeric(c)
    requires after != "" ==> !Alphanumeric(after[0])
    ensures Compiled(before + (":" + name + after), params) ==
      if name in params then Converted(before + "?" + after, [params[name]]) else MissingParam(name)
  {
    var sql := before + (":" + name + after);
    NameBeforeText(name, after);
    TextIsCopied(before, ":" + name + after);
    assert Template(Tokens(sql)) == before + "?" + after && Names(Tokens(sql)) == [name];
    assert FirstMissing([name][1..], params) == 0;
    if name in params { assert Values([name], params) == [params[name]]; }
  }

  lemma NameBeforeText(name: string, after: string)
    requires ':' !in after && name != "" && forall c :: c in name ==> Alphanumeric(c)
    requires after != "" ==> !Alphanumeric(after[0])
    ensures Scan(":" + name + after) == ("?" + after, [name])
  {
    NameIsOneToken(name, after);
    HeadOfTokens(Named(name), Tokens(after));
    OnlyText(after);
    assert [name] + [] == [name] && ['?'] + after == "?" + after;
  }

  lemma OnlyText(text: string)
    requires ':' !in text
    ensures Scan(text) == (text, [])
  {
    TextIsCopied(text, "");
    assert text + "" == text;
  }

  /** A statement without colons is left as it is. */
  lemma NoName<V>(sql: string, params: map<string, V>)
    requires ':' !in sql
    ensures Compiled(sql, params) == Converted(sql, [])
  {
    OnlyText(sql);
  }

  /** Marks and values differ by exactly the `?` characters the input already had. */
  lemma MarksMatchValues<V>(sql: string, params: map<string, V>)
    requires Compiled(sql, params).Converted?
    ensures Marks(Compiled(sql, params).sql) == |Compiled(sql, params).values| + Marks(sql)
  {
    TokensAreAReading(sql);
    MarksOfTemplate(Tokens(sql));
  }

  /** The conversion throws exactly when some name is missing, and names the first such one. */
  lemma MissingNameThrows<V>(sql: string, params: map<string, V>)
    ensures Compiled(sql, params).MissingParam? <==> exists n :: n in Names(Tokens(sql)) && n !in params
    ensures Compiled(sql, params).MissingParam? ==>
      var names := Names(Tokens(sql));
      exists k :: 0 <= k < |names| && names[k] == Compiled(sql, params).name && names[k] !in params
        && forall j :: 0 <= j < k ==> names[j] in params
  {
    var names := Names(Tokens(sql));
    var k := FirstMissing(names, params);
    if k < |names| { assert names[k] in names; }
  }
}
