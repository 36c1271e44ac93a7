/**
 `escapeHtml` (backend/src/html/escape.ts) runs five global replacements one after the other. Later
 replacements scan text that earlier ones produced; the results below show that this never matters.
 */
module HtmlEscape {
  /** `s.replace(/c/g, rep)` for a one-character pattern. */
  function ReplaceAll(s: string, c: char, rep: string): string {
    if s == "" then "" else (if s[0] == c then rep else [s[0]]) + ReplaceAll(s[1..], c, rep)
  }

  function EscapeHtml(s: string): string {
    var s1 := ReplaceAll(s, '&', "&amp;");
    var s2 := ReplaceAll(s1, '<', "&lt;");
    var s3 := ReplaceAll(s2, '>', "&gt;");
    var s4 := ReplaceAll(s3, '\"', "&quot;");
    ReplaceAll(s4, '\'', "&#39;")
  }

  // ----- the intended meaning: one simultaneous substitution

  /** The character reference of section 13.1.4 of the WHATWG HTML Standard that stands for `c`. */
  function Reference(c: char): string {
    match c
    case '&' => "&amp;"
    case '<' => "&lt;"
    case '>' => "&gt;"
    case '\"' => "&quot;"
    case '\'' => "&#39;"
    case _ => [c]
  }

  function Substitute(s: string): string {
    if s == "" then "" else Reference(s[0]) + Substitute(s[1..])
  }

  predicate IsSpecial(c: char) {
    c == '&' || c == '<' || c == '>' || c == '\"' || c == '\''
  }

  /** The character at the front of the text and the number of characters that spell it. */
  function DecodeOne(s: string): (r: (char, nat))
    requires s != ""
    ensures 0 < r.1 <= |s|
  {
    if "&amp;" <= s then ('&', 5)
    else if "&lt;" <= s then ('<', 4)
    else if "&gt;" <= s then ('>', 4)
    else if "&quot;" <= s then ('\"', 6)
    else if "&#39;" <= s then ('\'', 5)
    else (s[0], 1)
  }

  /** The five references, decoded in a single left-to-right scan. */
  function Decode(s: string): string {
    if s == "" then ""
    else
      var (c, n) := DecodeOne(s);
      [c] + Decode(s[n..])
  }

  lemma {:induction false} ReplaceAllConcat(a: string, b: string, c: char, rep: string)
    ensures ReplaceAll(a + b, c, rep) == ReplaceAll(a, c, rep) + ReplaceAll(b, c, rep)
  {
    if a == "" {
      assert a + b == b;
    } else {
      ReplaceAllConcat(a[1..], b, c, rep);
      assert (a + b)[1..] == a[1..] + b && (a + b)[0] == a[0];
      var first := if a[0] == c then rep else [a[0]];
      assert first + (ReplaceAll(a[1..], c, rep) + ReplaceAll(b, c, rep))
          == ReplaceAll(a, c, rep) + ReplaceAll(b, c, rep);
    }
  }

  lemma {:induction false} EscapeConcat(a: string, b: string)
    ensures EscapeHtml(a + b) == EscapeHtml(a) + EscapeHtml(b)
  {
    ReplaceAllConcat(a, b, '&', "&amp;");
    var a1, b1 := ReplaceAll(a, '&', "&amp;"), ReplaceAll(b, '&', "&amp;");
    ReplaceAllConcat(a1, b1, '<', "&lt;");
    var a2, b2 := ReplaceAll(a1, '<', "&lt;"), ReplaceAll(b1, '<', "&lt;");
    ReplaceAllConcat(a2, b2, '>', "&gt;");
    var a3, b3 := ReplaceAll(a2, '>', "&gt;"), ReplaceAll(b2, '>', "&gt;");
    ReplaceAllConcat(a3, b3, '\"', "&quot;");
    var a4, b4 := ReplaceAll(a3, '\"', "&quot;"), ReplaceAll(b3, '\"', "&quot;");
    ReplaceAllConcat(a4, b4, '\'', "&#39;");
  }

  /** A word that does not contain the pattern is left alone. */
  lemma {:induction false} ReplaceAllAbsent(s: string, c: char, rep: string)
    requires c !in s
    ensures ReplaceAll(s, c, rep) == s
  {
    if s != "" {
      assert s == [s[0]] + s[1..];
      ReplaceAllAbsent(s[1..], c, rep);
    }
  }

  lemma ReplaceOne(c: char, p: char, rep: string)
    ensures ReplaceAll([c], p, rep) == if c == p then rep else [c]
  {
    assert [c][1..] == "";
  }

  /** No reference contains a pattern of a later pass. */
  lemma ReferenceIsInert(c: char)
    requires IsSpecial(c)
    ensures '<' !in Reference(c) && '>' !in Reference(c) && '\"' !in Reference(c) && '\'' !in Reference(c)
  {
  }

  lemma LaterPassesKeep(c: char)
    requires IsSpecial(c)
    ensures ReplaceAll(Reference(c), '<', "&lt;") == Reference(c)
    ensures ReplaceAll(Reference(c), '>', "&gt;") == Reference(c)
    ensures ReplaceAll(Reference(c), '\"', "&quot;") == Reference(c)
    ensures ReplaceAll(Reference(c), '\'', "&#39;") == Reference(c)
  {
    ReferenceIsInert(c);
    ReplaceAllAbsent(Reference(c), '<', "&lt;");
    ReplaceAllAbsent(Reference(c), '>', "&gt;");
    ReplaceAllAbsent(Reference(c), '\"', "&quot;");
    ReplaceAllAbsent(Reference(c), '\'', "&#39;");
  }

  lemma EscapeOne(c: char)
    ensures EscapeHtml([c]) == Reference(c)
  {
    ReplaceOne(c, '&', "&amp;");
    ReplaceOne(c, '<', "&lt;");
    ReplaceOne(c, '>', "&gt;");
    ReplaceOne(c, '\"', "&quot;");
    ReplaceOne(c, '\'', "&#39;");
    if IsSpecial(c) { LaterPassesKeep(c); }
  }

  /** The references of the five characters, and everything else as it is; `EscapeConcat` extends this to all texts. */
  lemma FiveReferences(c: char)
    ensures EscapeHtml("&") == "&amp;" && EscapeHtml("<") == "&lt;" && EscapeHtml(">") == "&gt;"
    ensures EscapeHtml("\"") == "&quot;" && EscapeHtml("'") == "&#39;"
    ensures c !in "&<>\"'" ==> EscapeHtml([c]) == [c]
  {
    EscapeOne('&');
    EscapeOne('<');
    EscapeOne('>');
    EscapeOne('\"');
    EscapeOne('\'');
    EscapeOne(c);
    assert forall d :: d in "&<>\"'" <==> IsSpecial(d);
  }

  /** The five passes are one simultaneous per-character substitution. */
  lemma {:induction false} EscapeIsSimultaneous(s: string)
    ensures EscapeHtml(s) == Substitute(s)
  {
    if s != "" {
      assert s == [s[0]] + s[1..];
      EscapeConcat([s[0]], s[1..]);
      EscapeOne(s[0]);
      EscapeIsSimultaneous(s[1..]);
    }
  }

  lemma {:induction false} SubstituteHasNoMarkup(s: string)
    ensures forall c :: c in Substitute(s) && IsSpecial(c) ==> c == '&'
  {
    if s != "" { SubstituteHasNoMarkup(s[1..]); }
  }

  /** Escaped text contains no character that could open a tag or end an attribute value. */
  lemma EscapedHasNoMarkup(s: string)
    ensures forall c :: c in EscapeHtml(s) ==> c !in "<>\"'"
  {
    EscapeIsSimultaneous(s);
    SubstituteHasNoMarkup(s);
  }

  lemma {:induction false} DecodeInvertsSubstitute(s: string)
    ensures Decode(Substitute(s)) == s
  {
    if s != "" {
      DecodeInvertsSubstitute(s[1..]);
      DecodeFirst(s[0], Substitute(s[1..]));
      assert s == [s[0]] + s[1..];
    }
  }

  lemma DecodeFirst(c: char, rest: string)
    ensures Decode(Reference(c) + rest) == [c] + Decode(rest)
  {
    var r := Reference(c);
    DecodeReference(c, rest);
    assert (r + rest)[|r|..] == rest;
  }

  lemma DecodeReference(c: char, rest: string)
    ensures DecodeOne(Reference(c) + rest) == (c, |Reference(c)|)
  {
    var r := Reference(c);
    var t := r + rest;
    assert r <= t && t[0] == r[0];
    if IsSpecial(c) { assert t[1] == r[1]; }
  }

  /** One decoding scan recovers the input of every escape. */
  lemma DecodeInvertsEscape(s: string)
    ensures Decode(EscapeHtml(s)) == s
  {
    EscapeIsSimultaneous(s);
    DecodeInvertsSubstitute(s);
  }

  lemma EscapeIsInjective(s: string, t: string)
    requires EscapeHtml(s) == EscapeHtml(t)
    ensures s == t
  {
    DecodeInvertsEscape(s);
    DecodeInvertsEscape(t);
  }

  ghost predicate StartsReference(s: string) {
    exists c :: IsSpecial(c) && Reference(c) <= s
  }

  /** Every ampersand of escaped text opens one of the five references: none is left over from the input. */
  lemma AmpersandsOpenReferences(s: string, i: nat)
    requires i < |EscapeHtml(s)| && EscapeHtml(s)[i] == '&'
    ensures StartsReference(EscapeHtml(s)[i..])
  {
    EscapeIsSimultaneous(s);
    AmpersandsOfSubstitute(s, i);
  }

  lemma {:induction false} AmpersandsOfSubstitute(s: string, i: nat)
    requires i < |Substitute(s)| && Substitute(s)[i] == '&'
    ensures StartsReference(Substitute(s)[i..])
  {
    if s != "" {
      var r, rest := Reference(s[0]), Substitute(s[1..]);
      if i < |r| {
        FirstAmpersand(s[0], rest, i);
      } else {
        assert (r + rest)[i..] == rest[i - |r|..];
        AmpersandsOfSubstitute(s[1..], i - |r|);
      }
    }
  }

  lemma FirstAmpersand(c: char, rest: string, i: nat)
    requires i < |Reference(c)| && (Reference(c) + rest)[i] == '&'
    ensures StartsReference((Reference(c) + rest)[i..])
  {
    var t := Reference(c) + rest;
    assert i == 0 && IsSpecial(c);
    assert t[0..] == t && Reference(c) <= t;
  }

  lemma {:induction false} SubstituteLonger(s: string)
    ensures |Substitute(s)| >= |s|
    ensures (exists c :: c in s && IsSpecial(c)) ==> |Substitute(s)| > |s|
  {
    if s != "" { SubstituteLonger(s[1..]); }
  }

  lemma {:induction false} SubstitutePlain(s: string)
    requires forall c :: c in s ==> !IsSpecial(c)
    ensures Substitute(s) == s
  {
    if s != "" {
      SubstitutePlain(s[1..]);
      assert s[0] in s && s == [s[0]] + s[1..];
    }
  }

  /** Escaping twice differs from escaping once exactly when the text has something to escape. */
  lemma EscapeTwice(s: string)
    ensures EscapeHtml(EscapeHtml(s)) == EscapeHtml(s) <==> forall c :: c in s ==> !IsSpecial(c)
  {
    EscapeIsSimultaneous(s);
    EscapeIsSimultaneous(EscapeHtml(s));
    if c :| c in s && IsSpecial(c) {
      SubstituteLonger(s);
      SubstitutePlainIff(Substitute(s));
      SubstituteKeepsSpecial(s, c);
    } else {
      SubstitutePlain(s);
    }
  }

  lemma SubstitutePlainIff(s: string)
    ensures Substitute(s) == s <==> forall c :: c in s ==> !IsSpecial(c)
  {
    if forall c :: c in s ==> !IsSpecial(c) { SubstitutePlain(s); } else { SubstituteLonger(s); }
  }

  lemma {:induction false} SubstituteKeepsSpecial(s: string, c: char)
    requires c in s && IsSpecial(c)
    ensures '&' in Substitute(s)
  {
    var r, rest := Reference(s[0]), Substitute(s[1..]);
    if s[0] == c {
      assert (r + rest)[0] == '&';
    } else {
      SubstituteKeepsSpecial(s[1..], c);
    }
  }
}
