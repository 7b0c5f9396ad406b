/**
 * Extraction of the service worker's cache name (index.mjs lines 41-49). The
 * script matches the regular expression
 *     const\s+CACHE_NAME\s*=\s*(?:'|")([^'"]+)(?:'|")
 * and returns its capture group from the leftmost match, or throws
 * "Failed to parse cache name." when there is none. Here the expression is
 * written twice: once as a declarative shape (PatternPrefix) and once as a
 * hand-written scanner (MatchPrefix, ParseCacheName), and the two are proved
 * to agree.
 */
module CacheName {
  import opened Results

  /** Membership in the `\s` class of JavaScript regular expressions: the
      ECMAScript WhiteSpace and LineTerminator characters. The general soundness
      and completeness lemmas use only that the letters, `=` and the quotes of
      the pattern are not spaces; the concrete examples also use that ' ' and
      the tab are spaces. */
  predicate IsSpace(c: char) {
    || c == ' ' || c == '\t' || c == '\n' || c == '\U{B}' || c == '\U{C}' || c == '\r'
    || c == '\U{A0}' || c == '\U{1680}' || ('\U{2000}' <= c <= '\U{200A}')
    || c == '\U{2028}' || c == '\U{2029}' || c == '\U{202F}' || c == '\U{205F}'
    || c == '\U{3000}' || c == '\U{FEFF}'
  }

  /** Either quote the pattern accepts around the name. */
  predicate IsQuote(c: char) {
    c == '\'' || c == '"'
  }

  predicate AllSpace(w: string) {
    forall k :: 0 <= k < |w| ==> IsSpace(w[k])
  }

  predicate NoQuote(w: string) {
    forall k :: 0 <= k < |w| ==> !IsQuote(w[k])
  }

  datatype ParseError = ParseError(message: string)

  const ParseFailure: ParseError := ParseError("Failed to parse cache name.")

  // ---------------------------------------------------------------------------
  // The pattern, declaratively
  // ---------------------------------------------------------------------------

  /** The text one match of the pattern covers, given the pieces the regular
      expression leaves open. */
  function Frame(sp1: string, sp2: string, sp3: string, open: char, name: string, close: char): string {
    "const" + (sp1 + ("CACHE_NAME" + (sp2 + ("=" + (sp3 + ([open] + (name + [close])))))))
  }

  /** The pieces fit the regular expression: `\s+`, `\s*`, `\s*`, a quote,
      `[^'"]+`, a quote. The two quotes need not be the same. */
  predicate Fits(sp1: string, sp2: string, sp3: string, open: char, name: string, close: char) {
    && |sp1| >= 1 && AllSpace(sp1) && AllSpace(sp2) && AllSpace(sp3)
    && IsQuote(open) && |name| >= 1 && NoQuote(name) && IsQuote(close)
  }

  /** The pattern matches at the start of t, capturing name. */
  ghost predicate PatternPrefix(t: string, name: string) {
    exists sp1, sp2, sp3, open, close ::
      Fits(sp1, sp2, sp3, open, name, close) && Frame(sp1, sp2, sp3, open, name, close) <= t
  }

  /** The pattern matches s at position i, capturing name. */
  ghost predicate MatchesAt(s: string, i: int, name: string) {
    0 <= i <= |s| && PatternPrefix(s[i..], name)
  }

  /** No position before i starts a match. */
  ghost predicate NoMatchBefore(s: string, i: int) {
    forall j, name :: 0 <= j < i ==> !MatchesAt(s, j, name)
  }

  // ---------------------------------------------------------------------------
  // The scanner
  // ---------------------------------------------------------------------------

  /** Length of the longest run of spaces at the start of t. */
  function LeadingSpaces(t: string): (n: nat)
    ensures n <= |t| && AllSpace(t[..n])
    ensures n < |t| ==> !IsSpace(t[n])
  {
    if t != [] && IsSpace(t[0]) then
      var m := LeadingSpaces(t[1..]);
      assert t[..m + 1] == [t[0]] + t[1..][..m];
      m + 1
    else 0
  }

  /** Length of the longest run of non-quote characters at the start of t. */
  function LeadingName(t: string): (n: nat)
    ensures n <= |t| && NoQuote(t[..n])
    ensures n < |t| ==> IsQuote(t[n])
  {
    if t != [] && !IsQuote(t[0]) then
      var m := LeadingName(t[1..]);
      assert t[..m + 1] == [t[0]] + t[1..][..m];
      m + 1
    else 0
  }

  /** The regular expression anchored at the start of t, one stage per piece.
      Each quantified class is followed by a character outside it, so greedy
      matching never has to back off and the first choice at every step is the
      only one. */
  function MatchPrefix(t: string): (r: Option<string>)
    ensures r.Some? ==> |r.value| >= 1 && NoQuote(r.value)
  {
    if "const" <= t then AfterConst(t[5..]) else None
  }

  /** `\s+CACHE_NAME...` */
  function AfterConst(t1: string): Option<string> {
    var n1 := LeadingSpaces(t1);
    if n1 == 0 then None else AtName(t1[n1..])
  }

  /** `CACHE_NAME\s*=...` */
  function AtName(t2: string): Option<string> {
    if "CACHE_NAME" <= t2 then AfterName(t2[10..]) else None
  }

  function AfterName(t3: string): Option<string> {
    AtEquals(t3[LeadingSpaces(t3)..])
  }

  /** `=\s*'...` */
  function AtEquals(t4: string): Option<string> {
    if "=" <= t4 then AfterEquals(t4[1..]) else None
  }

  function AfterEquals(t5: string): Option<string> {
    AtQuote(t5[LeadingSpaces(t5)..])
  }

  /** `(?:'|")([^'"]+)(?:'|")` */
  function AtQuote(t6: string): Option<string> {
    if t6 != [] && IsQuote(t6[0]) then QuotedName(t6[1..]) else None
  }

  /** `([^'"]+)(?:'|")`: the longest quote-free run, which must be non-empty
      and followed by a quote. */
  function QuotedName(t7: string): (r: Option<string>)
    ensures r.Some? ==> |r.value| >= 1 && NoQuote(r.value)
  {
    var n := LeadingName(t7);
    if n == 0 || n == |t7| then None else Some(t7[..n])
  }

  /** `parseCacheName` from position i on: the first position that starts a
      match supplies the name. */
  function FindFrom(s: string, i: nat): (r: Result<string, ParseError>)
    requires i <= |s|
    ensures r.Ok? ==> |r.value| >= 1 && NoQuote(r.value)
    ensures r.Err? ==> r.error == ParseFailure
    decreases |s| - i
  {
    match MatchPrefix(s[i..])
    case Some(name) => Ok(name)
    case None => if i == |s| then Err(ParseFailure) else FindFrom(s, i + 1)
  }

  /** `parseCacheName(serviceWorkerCode)`: the captured name is never empty and
      holds no quote; a failure is the script's parse error. */
  function ParseCacheName(s: string): (r: Result<string, ParseError>)
    ensures r.Ok? ==> |r.value| >= 1 && NoQuote(r.value)
    ensures r.Err? ==> r.error == ParseFailure
  {
    FindFrom(s, 0)
  }

  // ---------------------------------------------------------------------------
  // The scanner agrees with the pattern
  // ---------------------------------------------------------------------------

  lemma PrefixJoin(a: string, b: string, t: string)
    requires a <= t && b <= t[|a|..]
    ensures a + b <= t
  {
    assert (a + b) == t[..|a| + |b|] by {
      assert t[..|a| + |b|] == t[..|a|] + t[|a|..][..|b|];
    }
  }

  lemma PrefixSplit(a: string, b: string, t: string)
    requires a + b <= t
    ensures a <= t && b <= t[|a|..]
  {
    assert t[..|a|] == (a + b)[..|a|];
    assert t[|a|..][..|b|] == (a + b)[|a|..];
  }

  lemma QuotedNameSound(t7: string) returns (close: char)
    requires QuotedName(t7).Some?
    ensures IsQuote(close) && QuotedName(t7).value + [close] <= t7
  {
    var n := LeadingName(t7);
    close := t7[n];
    PrefixJoin(t7[..n], [close], t7);
  }

  lemma AtQuoteSound(t6: string) returns (open: char, close: char)
    requires AtQuote(t6).Some?
    ensures var name := AtQuote(t6).value;
      IsQuote(open) && IsQuote(close) && [open] + (name + [close]) <= t6
  {
    open := t6[0];
    close := QuotedNameSound(t6[1..]);
    PrefixJoin([open], AtQuote(t6).value + [close], t6);
  }

  lemma AfterEqualsSound(t5: string) returns (sp3: string, open: char, close: char)
    requires AfterEquals(t5).Some?
    ensures var name := AfterEquals(t5).value;
      AllSpace(sp3) && IsQuote(open) && IsQuote(close) && sp3 + ([open] + (name + [close])) <= t5
  {
    var n := LeadingSpaces(t5);
    sp3 := t5[..n];
    open, close := AtQuoteSound(t5[n..]);
    PrefixJoin(sp3, [open] + (AfterEquals(t5).value + [close]), t5);
  }

  lemma AtEqualsSound(t4: string) returns (sp3: string, open: char, close: char)
    requires AtEquals(t4).Some?
    ensures var name := AtEquals(t4).value;
      AllSpace(sp3) && IsQuote(open) && IsQuote(close) && "=" + (sp3 + ([open] + (name + [close]))) <= t4
  {
    sp3, open, close := AfterEqualsSound(t4[1..]);
    PrefixJoin("=", sp3 + ([open] + (AtEquals(t4).value + [close])), t4);
  }

  lemma AfterNameSound(t3: string) returns (sp2: string, sp3: string, open: char, close: char)
    requires AfterName(t3).Some?
    ensures var name := AfterName(t3).value;
      && AllSpace(sp2) && AllSpace(sp3) && IsQuote(open) && IsQuote(close)
      && sp2 + ("=" + (sp3 + ([open] + (name + [close])))) <= t3
  {
    var n := LeadingSpaces(t3);
    sp2 := t3[..n];
    sp3, open, close := AtEqualsSound(t3[n..]);
    PrefixJoin(sp2, "=" + (sp3 + ([open] + (AfterName(t3).value + [close]))), t3);
  }

  lemma AtNameSound(t2: string) returns (sp2: string, sp3: string, open: char, close: char)
    requires AtName(t2).Some?
    ensures var name := AtName(t2).value;
      && AllSpace(sp2) && AllSpace(sp3) && IsQuote(open) && IsQuote(close)
      && "CACHE_NAME" + (sp2 + ("=" + (sp3 + ([open] + (name + [close]))))) <= t2
  {
    sp2, sp3, open, close := AfterNameSound(t2[10..]);
    PrefixJoin("CACHE_NAME", sp2 + ("=" + (sp3 + ([open] + (AtName(t2).value + [close])))), t2);
  }

  lemma AfterConstSound(t1: string) returns (sp1: string, sp2: string, sp3: string, open: char, close: char)
    requires AfterConst(t1).Some?
    ensures var name := AfterConst(t1).value;
      && |sp1| >= 1 && AllSpace(sp1) && AllSpace(sp2) && AllSpace(sp3) && IsQuote(open) && IsQuote(close)
      && sp1 + ("CACHE_NAME" + (sp2 + ("=" + (sp3 + ([open] + (name + [close])))))) <= t1
  {
    var n := LeadingSpaces(t1);
    sp1 := t1[..n];
    sp2, sp3, open, close := AtNameSound(t1[n..]);
    PrefixJoin(sp1, "CACHE_NAME" + (sp2 + ("=" + (sp3 + ([open] + (AfterConst(t1).value + [close]))))), t1);
  }

  /** Soundness: a name the scanner returns is captured by a match of the pattern. */
  lemma MatchPrefixSound(t: string)
    requires MatchPrefix(t).Some?
    ensures PatternPrefix(t, MatchPrefix(t).value)
  {
    var name := MatchPrefix(t).value;
    var sp1, sp2, sp3, open, close := AfterConstSound(t[5..]);
    PrefixJoin("const", sp1 + ("CACHE_NAME" + (sp2 + ("=" + (sp3 + ([open] + (name + [close])))))), t);
    assert Fits(sp1, sp2, sp3, open, name, close);
    assert Frame(sp1, sp2, sp3, open, name, close) <= t;
  }

  /** A run of spaces followed by a non-space is exactly what LeadingSpaces measures. */
  lemma LeadingSpacesExact(sp: string, rest: string, t: string)
    requires AllSpace(sp) && sp + rest <= t && rest != [] && !IsSpace(rest[0])
    ensures LeadingSpaces(t) == |sp|
  {
    var n := LeadingSpaces(t);
    assert t[|sp|] == rest[0];
  }

  lemma LeadingNameExact(name: string, close: char, t: string)
    requires NoQuote(name) && IsQuote(close) && name + [close] <= t
    ensures LeadingName(t) == |name|
  {
    var n := LeadingName(t);
    assert t[|name|] == close;
  }

  lemma QuotedNameComplete(name: string, close: char, t7: string)
    requires |name| >= 1 && NoQuote(name) && IsQuote(close) && name + [close] <= t7
    ensures QuotedName(t7) == Some(name)
  {
    LeadingNameExact(name, close, t7);
    PrefixSplit(name, [close], t7);
    assert |t7| >= |name| + 1;
    assert t7[..|name|] == name;
  }

  lemma AtQuoteComplete(open: char, name: string, close: char, t6: string)
    requires IsQuote(open) && |name| >= 1 && NoQuote(name) && IsQuote(close)
    requires [open] + (name + [close]) <= t6
    ensures AtQuote(t6) == Some(name)
  {
    PrefixSplit([open], name + [close], t6);
    QuotedNameComplete(name, close, t6[1..]);
  }

  lemma AfterEqualsComplete(sp3: string, open: char, name: string, close: char, t5: string)
    requires AllSpace(sp3) && IsQuote(open) && |name| >= 1 && NoQuote(name) && IsQuote(close)
    requires sp3 + ([open] + (name + [close])) <= t5
    ensures AfterEquals(t5) == Some(name)
  {
    LeadingSpacesExact(sp3, [open] + (name + [close]), t5);
    PrefixSplit(sp3, [open] + (name + [close]), t5);
    AtQuoteComplete(open, name, close, t5[|sp3|..]);
  }

  lemma AtEqualsComplete(sp3: string, open: char, name: string, close: char, t4: string)
    requires AllSpace(sp3) && IsQuote(open) && |name| >= 1 && NoQuote(name) && IsQuote(close)
    requires "=" + (sp3 + ([open] + (name + [close]))) <= t4
    ensures AtEquals(t4) == Some(name)
  {
    PrefixSplit("=", sp3 + ([open] + (name + [close])), t4);
    AfterEqualsComplete(sp3, open, name, close, t4[1..]);
  }

  lemma AfterNameComplete(sp2: string, sp3: string, open: char, name: string, close: char, t3: string)
    requires AllSpace(sp2) && AllSpace(sp3) && IsQuote(open) && |name| >= 1 && NoQuote(name) && IsQuote(close)
    requires sp2 + ("=" + (sp3 + ([open] + (name + [close])))) <= t3
    ensures AfterName(t3) == Some(name)
  {
    var rest := "=" + (sp3 + ([open] + (name + [close])));
    LeadingSpacesExact(sp2, rest, t3);
    PrefixSplit(sp2, rest, t3);
    AtEqualsComplete(sp3, open, name, close, t3[|sp2|..]);
  }

  lemma AtNameComplete(sp2: string, sp3: string, open: char, name: string, close: char, t2: string)
    requires AllSpace(sp2) && AllSpace(sp3) && IsQuote(open) && |name| >= 1 && NoQuote(name) && IsQuote(close)
    requires "CACHE_NAME" + (sp2 + ("=" + (sp3 + ([open] + (name + [close]))))) <= t2
    ensures AtName(t2) == Some(name)
  {
    PrefixSplit("CACHE_NAME", sp2 + ("=" + (sp3 + ([open] + (name + [close])))), t2);
    AfterNameComplete(sp2, sp3, open, name, close, t2[10..]);
  }

  lemma AfterConstComplete(sp1: string, sp2: string, sp3: string, open: char, name: string, close: char, t1: string)
    requires Fits(sp1, sp2, sp3, open, name, close)
    requires sp1 + ("CACHE_NAME" + (sp2 + ("=" + (sp3 + ([open] + (name + [close])))))) <= t1
    ensures AfterConst(t1) == Some(name)
  {
    var rest := "CACHE_NAME" + (sp2 + ("=" + (sp3 + ([open] + (name + [close])))));
    LeadingSpacesExact(sp1, rest, t1);
    PrefixSplit(sp1, rest, t1);
    AtNameComplete(sp2, sp3, open, name, close, t1[|sp1|..]);
  }

  /** Completeness: whenever the pattern matches at the start of t, the scanner
      returns the captured name. */
  lemma MatchPrefixComplete(t: string, name: string)
    requires PatternPrefix(t, name)
    ensures MatchPrefix(t) == Some(name)
  {
    var sp1, sp2, sp3, open, close :| Fits(sp1, sp2, sp3, open, name, close) && Frame(sp1, sp2, sp3, open, name, close) <= t;
    var rest := sp1 + ("CACHE_NAME" + (sp2 + ("=" + (sp3 + ([open] + (name + [close]))))));
    PrefixSplit("const", rest, t);
    AfterConstComplete(sp1, sp2, sp3, open, name, close, t[5..]);
  }

  /** At a given position the captured name is determined: the pattern has one
      way to match there. */
  lemma MatchesAtUnique(s: string, i: int, a: string, b: string)
    requires MatchesAt(s, i, a) && MatchesAt(s, i, b)
    ensures a == b
  {
    MatchPrefixComplete(s[i..], a);
    MatchPrefixComplete(s[i..], b);
  }

  lemma MatchesAtIffScanner(s: string, i: nat, name: string)
    requires i <= |s|
    ensures MatchesAt(s, i, name) <==> MatchPrefix(s[i..]) == Some(name)
  {
    if MatchesAt(s, i, name) {
      MatchPrefixComplete(s[i..], name);
    }
    if MatchPrefix(s[i..]) == Some(name) {
      MatchPrefixSound(s[i..]);
    }
  }

  lemma {:induction false} FindFromCorrect(s: string, i: nat)
    requires i <= |s| && NoMatchBefore(s, i)
    ensures FindFrom(s, i).Ok? ==>
      exists k :: i <= k <= |s| && MatchesAt(s, k, FindFrom(s, i).value) && NoMatchBefore(s, k)
    ensures FindFrom(s, i).Err? ==> forall k, name :: !MatchesAt(s, k, name)
    decreases |s| - i
  {
    match MatchPrefix(s[i..])
    case Some(name) =>
      MatchesAtIffScanner(s, i, name);
    case None =>
      forall name ensures !MatchesAt(s, i, name) {
        MatchesAtIffScanner(s, i, name);
      }
      if i < |s| {
        FindFromCorrect(s, i + 1);
      } else {
        forall k, name ensures !MatchesAt(s, k, name) {
          if 0 <= k < i {
          } else if k == i {
          }
        }
      }
  }

  /** Soundness with leftmost choice: a returned name is captured by a match of
      the pattern at some position, and no earlier position starts a match. */
  lemma ParseCacheNameSound(s: string)
    requires ParseCacheName(s).Ok?
    ensures exists i :: 0 <= i <= |s| && MatchesAt(s, i, ParseCacheName(s).value) && NoMatchBefore(s, i)
  {
    FindFromCorrect(s, 0);
  }

  /** The parse fails exactly when no position of the text starts a match. */
  lemma ParseCacheNameFails(s: string)
    ensures ParseCacheName(s).Err? <==> forall i, name :: !MatchesAt(s, i, name)
  {
    FindFromCorrect(s, 0);
    if ParseCacheName(s).Ok? {
      ParseCacheNameSound(s);
    }
  }

  /** Any match at position 0 is the one returned. */
  lemma ParseLeadingMatch(s: string, name: string)
    requires PatternPrefix(s, name)
    ensures ParseCacheName(s) == Ok(name)
  {
    assert s[0..] == s;
    MatchPrefixComplete(s, name);
  }

  /** A declaration at the start of the text yields its name. */
  lemma ParseDeclaration(name: string, rest: string)
    requires |name| >= 1 && NoQuote(name)
    ensures ParseCacheName("const CACHE_NAME = \"" + name + "\"" + rest) == Ok(name)
  {
    var s := "const CACHE_NAME = \"" + name + "\"" + rest;
    var f := Frame(" ", " ", " ", '"', name, '"');
    assert Fits(" ", " ", " ", '"', name, '"');
    assert f == "const CACHE_NAME = \"" + name + "\"";
    assert f <= s;
    ParseLeadingMatch(s, name);
  }

  /** `const CACHE_NAME = "v3";` yields `v3`. */
  lemma ParseExample()
    ensures ParseCacheName("const CACHE_NAME = \"v3\";") == Ok("v3")
  {
    var s := "const CACHE_NAME = \"v3\";";
    assert Fits(" ", " ", " ", '"', "v3", '"');
    assert Frame(" ", " ", " ", '"', "v3", '"') <= s;
    ParseLeadingMatch(s, "v3");
  }

  /** Mixed quotes are accepted and no space is needed around `=`. */
  lemma ParseMixedQuotes()
    ensures ParseCacheName("const\tCACHE_NAME='v3\"") == Ok("v3")
  {
    var s := "const\tCACHE_NAME='v3\"";
    assert Fits("\t", "", "", '\'', "v3", '"');
    assert Frame("\t", "", "", '\'', "v3", '"') <= s;
    ParseLeadingMatch(s, "v3");
  }

  /** A text in which `const` never occurs has no cache name. */
  lemma ParseWithoutConst(s: string)
    requires forall i :: 0 <= i <= |s| ==> !("const" <= s[i..])
    ensures ParseCacheName(s).Err?
  {
    forall i, name | MatchesAt(s, i, name)
      ensures false
    {
      var sp1, sp2, sp3, open, close :| Fits(sp1, sp2, sp3, open, name, close) && Frame(sp1, sp2, sp3, open, name, close) <= s[i..];
      PrefixSplit("const", sp1 + ("CACHE_NAME" + (sp2 + ("=" + (sp3 + ([open] + (name + [close])))))), s[i..]);
    }
    ParseCacheNameFails(s);
  }
}
