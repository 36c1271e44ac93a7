/** Decimal numerals, zero padding and the comparison of texts, as JavaScript and SQL use them. */
module DecimalText {
  import opened Common

  /** Comparison of texts character by character, the order in which SQLite compares dates. */
  predicate LexLess(a: string, b: string) {
    b != "" && (a == "" || a[0] < b[0] || (a[0] == b[0] && LexLess(a[1..], b[1..])))
  }

  function Digit(d: int): char
    requires 0 <= d < 10
  {
    ('0' as int + d) as char
  }

  predicate IsDigit(c: char) {
    '0' <= c <= '9'
  }

  predicate AllDigits(s: string) {
    forall c :: c in s ==> IsDigit(c)
  }

  /** `n.toString()`. */
  function Decimal(n: nat): string {
    if n < 10 then [Digit(n)] else Decimal(n / 10) + [Digit(n % 10)]
  }

  function Zeros(k: nat): string {
    if k == 0 then "" else "0" + Zeros(k - 1)
  }

  /** `s.padStart(width, '0')`. */
  function PadStart(s: string, width: nat): string {
    if |s| >= width then s else Zeros(width - |s|) + s
  }

  // ----- fixed-width numerals

  function Pow10(w: nat): nat {
    if w == 0 then 1 else 10 * Pow10(w - 1)
  }

  /** The last `w` decimal digits of `n`. */
  function Digits(n: nat, w: nat): (s: string)
    ensures |s| == w
  {
    if w == 0 then "" else Digits(n / 10, w - 1) + [Digit(n % 10)]
  }

  function Value(s: string): nat
    requires AllDigits(s)
  {
    if s == "" then 0
    else assert IsDigit(s[|s| - 1]); 10 * Value(s[..|s| - 1]) + (s[|s| - 1] as int - '0' as int)
  }

  lemma {:induction false} DigitsAreDigits(n: nat, w: nat)
    ensures AllDigits(Digits(n, w))
  {
    if w > 0 { DigitsAreDigits(n / 10, w - 1); }
  }

  lemma {:induction false} ValueOfDigits(n: nat, w: nat)
    requires n < Pow10(w)
    ensures AllDigits(Digits(n, w)) && Value(Digits(n, w)) == n
  {
    DigitsAreDigits(n, w);
    if w > 0 {
      ValueOfDigits(n / 10, w - 1);
      assert Digits(n, w)[..w - 1] == Digits(n / 10, w - 1);
    }
  }

  lemma {:induction false} DigitsOfZero(w: nat)
    ensures Digits(0, w) == Zeros(w)
  {
    if w > 0 {
      DigitsOfZero(w - 1);
      ZerosEnd(w);
    }
  }

  lemma {:induction false} ZerosEnd(w: nat)
    requires w > 0
    ensures Zeros(w) == Zeros(w - 1) + "0"
  {
    if w > 1 {
      ZerosEnd(w - 1);
    }
  }

  /** A numeral that fits is padded to its fixed-width form. */
  lemma {:induction false} PadIsDigits(n: nat, w: nat)
    requires w > 0 && n < Pow10(w)
    ensures PadStart(Decimal(n), w) == Digits(n, w)
    ensures |Decimal(n)| <= w
  {
    if n < 10 {
      DigitsOfZero(w - 1);
    } else {
      assert w > 1;
      PadIsDigits(n / 10, w - 1);
    }
  }

  lemma {:induction false} LexSamePrefix(p: string, x: string, y: string)
    ensures LexLess(p + x, p + y) <==> LexLess(x, y)
  {
    if p == "" {
      assert p + x == x && p + y == y;
    } else {
      LexSamePrefix(p[1..], x, y);
      assert (p + x)[1..] == p[1..] + x && (p + y)[1..] == p[1..] + y;
    }
  }

  /** Fixed-width numerals compare as numbers, whatever follows them. */
  lemma {:induction false} DigitsOrder(m: nat, n: nat, w: nat, x: string, y: string)
    requires m < Pow10(w) && n < Pow10(w)
    ensures LexLess(Digits(m, w) + x, Digits(n, w) + y) <==> m < n || (m == n && LexLess(x, y))
  {
    if w == 0 {
      assert "" + x == x && "" + y == y;
    } else {
      var dm, dn := [Digit(m % 10)], [Digit(n % 10)];
      DigitsOrder(m / 10, n / 10, w - 1, dm + x, dn + y);
      assert Digits(m, w) + x == Digits(m / 10, w - 1) + (dm + x);
      assert Digits(n, w) + y == Digits(n / 10, w - 1) + (dn + y);
      assert (dm + x)[1..] == x && (dn + y)[1..] == y;
    }
  }

  lemma {:induction false} ValueOfDecimal(n: nat)
    ensures AllDigits(Decimal(n)) && Value(Decimal(n)) == n
  {
    if n < 10 {
      assert Decimal(n)[..0] == "";
    } else {
      ValueOfDecimal(n / 10);
      assert Decimal(n)[..|Decimal(n)| - 1] == Decimal(n / 10);
    }
  }

  lemma DecimalIsInjective(m: nat, n: nat)
    ensures Decimal(m) == Decimal(n) <==> m == n
  {
    ValueOfDecimal(m);
    ValueOfDecimal(n);
  }

  // ----- records of fixed-width numerals

  /** A field: how many digits and the text that follows it. */
  type Layout = seq<(nat, string)>

  ghost predicate Fits(values: seq<int>, layout: Layout) {
    |values| == |layout| && forall i :: 0 <= i < |values| ==> 0 <= values[i] < Pow10(layout[i].0)
  }

  ghost function Render(values: seq<int>, layout: Layout): string
    requires Fits(values, layout)
  {
    if values == [] then "" else Digits(values[0], layout[0].0) + (layout[0].1 + Render(values[1..], layout[1..]))
  }

  /** The numbers in a text of exactly this layout. */
  function Read(s: string, layout: Layout): Option<seq<int>> {
    if layout == [] then if s == "" then Some([]) else None
    else
      var (w, sep) := layout[0];
      if |s| >= w && AllDigits(s[..w]) && sep <= s[w..] then
        match Read(s[w + |sep|..], layout[1..])
        case Some(rest) => Some([Value(s[..w])] + rest)
        case None => None
      else None
  }

  predicate NumbersLess(a: seq<int>, b: seq<int>)
    requires |a| == |b|
  {
    a != [] && (a[0] < b[0] || (a[0] == b[0] && NumbersLess(a[1..], b[1..])))
  }

  lemma Slices(a: string, b: string, c: string)
    ensures (a + (b + c))[..|a|] == a && (a + (b + c))[|a|..] == b + c && (a + (b + c))[|a| + |b|..] == c
    ensures b <= b + c
  {
  }

  lemma ReadField(d: string, sep: string, rest: string, layout: Layout)
    requires layout != [] && layout[0].0 == |d| && layout[0].1 == sep && AllDigits(d)
    ensures Read(d + (sep + rest), layout) ==
      match Read(rest, layout[1..]) case Some(vs) => Some([Value(d)] + vs) case None => None
  {
    Slices(d, sep, rest);
  }

  lemma {:induction false} ReadInvertsRender(values: seq<int>, layout: Layout)
    requires Fits(values, layout)
    ensures Read(Render(values, layout), layout) == Some(values)
  {
    if values != [] {
      var d, rest := Digits(values[0], layout[0].0), Render(values[1..], layout[1..]);
      assert Read(rest, layout[1..]) == Some(values[1..]) by { ReadInvertsRender(values[1..], layout[1..]); }
      ValueOfDigits(values[0], layout[0].0);
      ReadField(d, layout[0].1, rest, layout);
      assert [values[0]] + values[1..] == values;
    }
  }

  lemma {:induction false} RenderOrder(a: seq<int>, b: seq<int>, layout: Layout)
    requires Fits(a, layout) && Fits(b, layout)
    ensures LexLess(Render(a, layout), Render(b, layout)) <==> NumbersLess(a, b)
  {
    if a != [] {
      RenderOrder(a[1..], b[1..], layout[1..]);
      var (w, sep) := layout[0];
      var x, y := Render(a[1..], layout[1..]), Render(b[1..], layout[1..]);
      DigitsOrder(a[0], b[0], w, sep + x, sep + y);
      LexSamePrefix(sep, x, y);
    }
  }

  lemma {:induction false} DigitsOfValue(s: string)
    requires AllDigits(s)
    ensures Value(s) < Pow10(|s|) && Digits(Value(s), |s|) == s
  {
    if s != "" {
      var front, last := s[..|s| - 1], s[|s| - 1];
      assert last in s && forall c :: c in front ==> c in s;
      DigitsOfValue(front);
      var d := last as int - '0' as int;
      assert Value(s) / 10 == Value(front) && Value(s) % 10 == d && Digit(d) == last;
      assert s == front + [last];
    }
  }

  lemma FieldRead(s: string, layout: Layout)
    requires layout != [] && Read(s, layout).Some?
    ensures var (w, sep) := layout[0];
            var rest := s[w + |sep|..];
            && AllDigits(s[..w]) && s == s[..w] + (sep + rest) && Read(rest, layout[1..]).Some?
            && Read(s, layout).value == [Value(s[..w])] + Read(rest, layout[1..]).value
  {
    var (w, sep) := layout[0];
    assert s == s[..w] + s[w..] && s[w..] == sep + s[w..][|sep|..];
    assert s[w..][|sep|..] == s[w + |sep|..];
  }

  /** What is read from a text, written again, is the text. */
  lemma {:induction false} RenderInvertsRead(s: string, layout: Layout)
    requires Read(s, layout).Some?
    ensures Fits(Read(s, layout).value, layout) && Render(Read(s, layout).value, layout) == s
  {
    if layout != [] {
      var (w, sep) := layout[0];
      var rest := s[w + |sep|..];
      FieldRead(s, layout);
      RenderInvertsRead(rest, layout[1..]);
      DigitsOfValue(s[..w]);
      var values := Read(s, layout).value;
      assert values[1..] == Read(rest, layout[1..]).value;
    }
  }
}
