/**
 * `cleanFoodName`: an ordered chain of rewrites of a food name, each one a
 * regular-expression replacement, followed by capitalising every
 * space-separated word. Each rewrite is an explicit string function with a
 * lemma saying which inputs it changes and how.
 */
module NameCleaning {
  import opened Wrappers
  import opened Text

  /** Every character of `w` is whitespace. */
  predicate AllSpace(w: string) {
    forall i :: 0 <= i < |w| ==> IsSpace(w[i])
  }

  predicate AllDigits(d: string) {
    forall i :: 0 <= i < |d| ==> IsDigit(d[i])
  }

  lemma LowerKeeps(s: string, c: char)
    requires !('A' <= c <= 'Z')
    ensures c in Lower(s) <==> c in s || ('a' <= c <= 'z' && ToUpper(c) in s)
  {
    if c in Lower(s) {
      var i :| 0 <= i < |s| && Lower(s)[i] == c;
      if s[i] != c {
        assert ToUpper(c) == s[i];
      }
    }
    if c in s {
      var i :| 0 <= i < |s| && s[i] == c;
      assert Lower(s)[i] == c;
    }
    if 'a' <= c <= 'z' && ToUpper(c) in s {
      var i :| 0 <= i < |s| && s[i] == ToUpper(c);
      assert Lower(s)[i] == c;
    }
  }

  // ----- Step 1: curly quotes become straight ones -----

  predicate IsCurlySingle(c: char) {
    c == '\U{2018}' || c == '\U{2019}' || c == '\U{201A}' || c == '\U{201B}'
  }

  predicate IsCurlyDouble(c: char) {
    c == '\U{201C}' || c == '\U{201D}' || c == '\U{201E}' || c == '\U{201F}'
  }

  function NormalizeQuote(c: char): char {
    if IsCurlySingle(c) then '\'' else if IsCurlyDouble(c) then '"' else c
  }

  /**
   * The two quote-normalising replacements: the length is kept, no curly
   * quote is left, and every other character stays where it was.
   */
  function NormalizeQuotes(s: string): (r: string)
    ensures |r| == |s|
    ensures forall i :: 0 <= i < |s| ==> !IsCurlySingle(r[i]) && !IsCurlyDouble(r[i])
    ensures forall i :: 0 <= i < |s| && IsCurlySingle(s[i]) ==> r[i] == '\''
    ensures forall i :: 0 <= i < |s| && IsCurlyDouble(s[i]) ==> r[i] == '"'
    ensures forall i :: 0 <= i < |s| && !IsCurlySingle(s[i]) && !IsCurlyDouble(s[i]) ==> r[i] == s[i]
  {
    seq(|s|, i requires 0 <= i < |s| => NormalizeQuote(s[i]))
  }

  // ----- Step 2: one double quote at each end -----

  /** `replace(/^"|"$/g, '')`: a leading `"` and, after it, a trailing `"` are dropped. */
  function StripOuterDoubleQuote(s: string): (r: string)
    ensures |s| - 2 <= |r| <= |s|
  {
    var t := if s != [] && s[0] == '"' then s[1..] else s;
    if t != [] && t[|t| - 1] == '"' then t[..|t| - 1] else t
  }

  /**
   * A text between two quotes loses exactly those; a single quote at only one
   * end is dropped too; a text with no quote at its ends is kept.
   */
  lemma StripOuterDoubleQuoteSpec(x: string)
    ensures StripOuterDoubleQuote("\"" + x + "\"") == x
    ensures (x == [] || x[|x| - 1] != '"') ==> StripOuterDoubleQuote("\"" + x) == x
    ensures (x == [] || x[0] != '"') ==> StripOuterDoubleQuote(x + "\"") == x
    ensures (x == [] || (x[0] != '"' && x[|x| - 1] != '"')) ==> StripOuterDoubleQuote(x) == x
  {
    var s := "\"" + x + "\"";
    assert s[1..] == x + "\"";
    assert (x + "\"")[..|x|] == x;
    assert ("\"" + x)[1..] == x;
  }

  // ----- Step 3: 'X', meatless -----

  /** `s` reads `'X',` then whitespace then `meatless` in any case, with no `'` in a non-empty X. */
  predicate MeatlessShape(s: string, x: string, w: string, m: string) {
    s == "'" + x + "'," + w + m && x != [] && '\'' !in x && AllSpace(w) && Lower(m) == "meatless"
  }

  /** `/^'([^']+)',\s*meatless$/i` replaced by `$1 (Meatless)`. */
  function MeatlessRewrite(s: string): string {
    if |s| >= 1 && s[0] == '\'' && '\'' in s[1..] then
      var j := 1 + IndexOf(s[1..], '\'');
      var rest := s[j + 1..];
      if j > 1 && |rest| >= 9 && rest[0] == ',' && AllSpace(rest[1..|rest| - 8]) && Lower(rest[|rest| - 8..]) == "meatless"
      then s[1..j] + " (Meatless)"
      else s
    else s
  }

  /** A name of the meatless shape becomes `X (Meatless)`. */
  lemma MeatlessApplies(x: string, w: string, m: string)
    requires x != [] && '\'' !in x && AllSpace(w) && Lower(m) == "meatless"
    ensures MeatlessRewrite("'" + x + "'," + w + m) == x + " (Meatless)"
  {
    assert |m| == 8;
    CommaTailJoin(w, m);
    MeatlessConcat(x, w, m);
    MeatlessRewriteAt(x, "," + w + m);
  }

  /** The rewrite on a name cut at its first two quotes. */
  lemma MeatlessRewriteAt(x: string, rest: string)
    requires x != [] && '\'' !in x
    requires |rest| >= 9 && rest[0] == ',' && AllSpace(rest[1..|rest| - 8]) && Lower(rest[|rest| - 8..]) == "meatless"
    ensures MeatlessRewrite("'" + x + "'" + rest) == x + " (Meatless)"
  {
    QuotedPrefixJoin(x, rest);
    MeatlessRewriteCut("'" + x + "'" + rest, x, rest);
  }

  lemma MeatlessRewriteCut(s: string, x: string, rest: string)
    requires |s| >= 1 && s[0] == '\'' && '\'' in s[1..] && 1 + IndexOf(s[1..], '\'') == |x| + 1
    requires |x| + 2 <= |s| && s[1..|x| + 1] == x && s[|x| + 2..] == rest && x != []
    requires |rest| >= 9 && rest[0] == ',' && AllSpace(rest[1..|rest| - 8]) && Lower(rest[|rest| - 8..]) == "meatless"
    ensures MeatlessRewrite(s) == x + " (Meatless)"
  {
  }

  /** The first quote after the opening one closes `x`. */
  lemma QuotedPrefixJoin(x: string, tail: string)
    requires '\'' !in x
    ensures var s := "'" + x + "'" + tail;
            s[0] == '\'' && '\'' in s[1..] && 1 + IndexOf(s[1..], '\'') == |x| + 1 &&
            s[1..|x| + 1] == x && s[|x| + 2..] == tail
  {
    var s := "'" + x + "'" + tail;
    assert s[1..] == x + "'" + tail;
    assert s[1..][|x|] == '\'';
    assert s[1..][..|x|] == x;
    IndexOfAt(s[1..], '\'', |x|);
  }

  lemma CommaTailJoin(w: string, m: string)
    requires |m| == 8
    ensures var rest := "," + w + m;
            |rest| >= 9 && rest[0] == ',' && rest[1..|rest| - 8] == w && rest[|rest| - 8..] == m
  {
  }


  /** Only a name of the meatless shape is changed, and it becomes `X (Meatless)`. */
  lemma MeatlessOnlyOnShape(s: string)
    requires MeatlessRewrite(s) != s
    ensures exists x, w, m :: MeatlessShape(s, x, w, m) && MeatlessRewrite(s) == x + " (Meatless)"
  {
    var x, w, m := MeatlessParts(s);
  }

  /** The three parts of a name the rewrite changes. */
  lemma MeatlessParts(s: string) returns (x: string, w: string, m: string)
    requires MeatlessRewrite(s) != s
    ensures MeatlessShape(s, x, w, m) && MeatlessRewrite(s) == x + " (Meatless)"
  {
    var j := 1 + IndexOf(s[1..], '\'');
    var rest := s[j + 1..];
    x, w, m := s[1..j], rest[1..|rest| - 8], rest[|rest| - 8..];
    QuotedPrefixSplit(s, j);
    CommaTailSplit(rest);
    MeatlessConcat(x, w, m);
  }

  lemma MeatlessConcat(x: string, w: string, m: string)
    ensures "'" + x + "'" + ("," + w + m) == "'" + x + "'," + w + m
  {
  }

  /** Cutting a text at its first two quotes. */
  lemma QuotedPrefixSplit(s: string, j: nat)
    requires |s| >= 1 && s[0] == '\'' && '\'' in s[1..] && j == 1 + IndexOf(s[1..], '\'')
    ensures s == "'" + s[1..j] + "'" + s[j + 1..] && '\'' !in s[1..j]
  {
    assert s[1..][..j - 1] == s[1..j];
    assert s == [s[0]] + s[1..j] + [s[j]] + s[j + 1..];
  }

  lemma CommaTailSplit(rest: string)
    requires |rest| >= 9 && rest[0] == ','
    ensures rest == "," + rest[1..|rest| - 8] + rest[|rest| - 8..]
  {
    assert rest == [rest[0]] + rest[1..|rest| - 8] + rest[|rest| - 8..];
  }

  // ----- Step 4: single quotes at both ends -----

  /** Drops the maximal run of `c` at the start. */
  function DropLeading(s: string, c: char): (r: string)
    ensures |r| <= |s| && r == s[|s| - |r|..]
    ensures forall i :: 0 <= i < |s| - |r| ==> s[i] == c
    ensures r != [] ==> r[0] != c
  {
    if s != [] && s[0] == c then DropLeading(s[1..], c) else s
  }

  /** Drops the maximal run of `c` at the end. */
  function DropTrailing(s: string, c: char): (r: string)
    ensures |r| <= |s| && r == s[..|r|]
    ensures forall i :: |r| <= i < |s| ==> s[i] == c
    ensures r != [] ==> r[|r| - 1] != c
  {
    if s != [] && s[|s| - 1] == c then DropTrailing(s[..|s| - 1], c) else s
  }

  /** `replace(/^'+|'+$/g, '')`. */
  function StripSingleQuotes(s: string): string {
    DropTrailing(DropLeading(s, '\''), '\'')
  }

  /** A text that neither starts nor ends with `'` is unchanged. */
  lemma StripSingleQuotesPlain(s: string)
    requires s != [] && s[0] != '\'' && s[|s| - 1] != '\''
    ensures StripSingleQuotes(s) == s
  {
    assert DropLeading(s, '\'') == s;
  }

  /**
   * The result is a slice of `s` outside which there are only `'`, and it
   * neither starts nor ends with `'`.
   */
  lemma StripSingleQuotesSpec(s: string)
    ensures exists i, j :: 0 <= i <= j <= |s| && StripSingleQuotes(s) == s[i..j] &&
              (forall k :: 0 <= k < i ==> s[k] == '\'') && (forall k :: j <= k < |s| ==> s[k] == '\'')
    ensures StripSingleQuotes(s) != [] ==> StripSingleQuotes(s)[0] != '\'' && StripSingleQuotes(s)[|StripSingleQuotes(s)| - 1] != '\''
  {
    var i, j := StripBounds(s);
    StripEnds(s);
  }

  lemma StripEnds(s: string)
    ensures StripSingleQuotes(s) != [] ==> StripSingleQuotes(s)[0] != '\'' && StripSingleQuotes(s)[|StripSingleQuotes(s)| - 1] != '\''
  {
    var t := DropLeading(s, '\'');
    var r := DropTrailing(t, '\'');
    if r != [] {
      assert r[0] == t[0];
    }
  }

  lemma StripBounds(s: string) returns (i: nat, j: nat)
    ensures i <= j <= |s| && StripSingleQuotes(s) == s[i..j]
    ensures (forall k :: 0 <= k < i ==> s[k] == '\'') && (forall k :: j <= k < |s| ==> s[k] == '\'')
  {
    i, j := QuoteBounds(s, DropLeading(s, '\''), StripSingleQuotes(s));
  }

  /** `t` is `s` after a run of quotes, `r` is `t` before a run of quotes. */
  lemma QuoteBounds(s: string, t: string, r: string) returns (i: nat, j: nat)
    requires |t| <= |s| && t == s[|s| - |t|..] && forall k :: 0 <= k < |s| - |t| ==> s[k] == '\''
    requires |r| <= |t| && r == t[..|r|] && forall k :: |r| <= k < |t| ==> t[k] == '\''
    ensures i <= j <= |s| && r == s[i..j]
    ensures (forall k :: 0 <= k < i ==> s[k] == '\'') && (forall k :: j <= k < |s| ==> s[k] == '\'')
  {
    i, j := |s| - |t|, |s| - |t| + |r|;
    SliceOfSuffix(s, i, |r|);
    SuffixAllQuotes(s, t, i, |r|);
  }

  lemma SliceOfSuffix(s: string, i: nat, n: nat)
    requires i + n <= |s|
    ensures s[i..][..n] == s[i..i + n]
  {
  }

  lemma SuffixAllQuotes(s: string, t: string, i: nat, n: nat)
    requires i <= |s| && t == s[i..] && n <= |t|
    requires forall k :: n <= k < |t| ==> t[k] == '\''
    ensures forall k :: i + n <= k < |s| ==> s[k] == '\''
  {
    forall k | i + n <= k < |s| ensures s[k] == '\'' {
      assert s[k] == t[k - i];
    }
  }

  // ----- Steps 5 to 7: `, raw`, `, fresh` and `, dried` at the end -----

  function LastIndexOf(s: string, c: char): (i: nat)
    requires c in s
    ensures i < |s| && s[i] == c && c !in s[i + 1..]
  {
    if s[|s| - 1] == c then |s| - 1
    else
      assert c in s[..|s| - 1] by {
        var k :| 0 <= k < |s| && s[k] == c;
        assert s[..|s| - 1][k] == c;
      }
      LastIndexOf(s[..|s| - 1], c)
  }

  lemma LastIndexOfUnique(s: string, c: char, p: int)
    requires 0 <= p < |s| && s[p] == c && c !in s[p + 1..]
    ensures LastIndexOf(s, c) == p
  {
    var i := LastIndexOf(s, c);
  }

  /** From the comma at `p` to the end there is only `word`, in any case, padded by whitespace. */
  predicate WordSuffixAt(s: string, p: int, word: string) {
    0 <= p < |s| && s[p] == ',' && Lower(Trim(s[p + 1..])) == word
  }

  /**
   * `replace(/,\s*WORD\s*$/i, repl)`. Only the last comma can start the
   * match, since the rest of the match holds no comma.
   */
  function DropWordSuffix(s: string, word: string, repl: string): string {
    if ',' in s && WordSuffixAt(s, LastIndexOf(s, ','), word) then s[..LastIndexOf(s, ',')] + repl else s
  }

  /**
   * The rewrite is exact: when a comma at `p` is followed by nothing but
   * `word` between whitespace, everything from `p` is replaced; when there
   * is no such comma the name is unchanged.
   */
  lemma DropWordSuffixSpec(s: string, word: string, repl: string)
    requires ',' !in word
    ensures forall p :: WordSuffixAt(s, p, word) ==> DropWordSuffix(s, word, repl) == s[..p] + repl
    ensures (forall p :: !WordSuffixAt(s, p, word)) ==> DropWordSuffix(s, word, repl) == s
  {
    forall p | WordSuffixAt(s, p, word) ensures DropWordSuffix(s, word, repl) == s[..p] + repl {
      var t := s[p + 1..];
      LowerKeeps(Trim(t), ',');
      TrimKeeps(t, ',');
      LastIndexOfUnique(s, ',', p);
    }
  }

  /** A non-space character absent from `Trim(t)` is absent from `t`. */
  lemma TrimKeeps(t: string, c: char)
    requires !IsSpace(c) && c !in Trim(t)
    ensures c !in t
  {
    NotInTrimmed(t, TrimStart(t), Trim(t), c);
  }

  /** `a` is `t` after a run of whitespace, `r` is `a` before a run of whitespace. */
  lemma NotInTrimmed(t: string, a: string, r: string, c: char)
    requires |a| <= |t| && a == t[|t| - |a|..] && forall k :: 0 <= k < |t| - |a| ==> IsSpace(t[k])
    requires |r| <= |a| && r == a[..|r|] && forall k :: |r| <= k < |a| ==> IsSpace(a[k])
    requires !IsSpace(c) && c !in r
    ensures c !in t
  {
    var d := |t| - |a|;
    forall k | 0 <= k < |t| ensures t[k] != c {
      if k < d {
        assert IsSpace(t[k]);
      } else if k - d < |r| {
        assert r[k - d] == a[k - d] == t[k];
      } else {
        assert IsSpace(a[k - d]);
      }
    }
  }

  // ----- Steps 8 to 10: the first `\s+(annotation)` -----

  /** The end of the maximal run of whitespace starting at `p`. */
  function SpaceRun(s: string, p: nat): (e: nat)
    requires p <= |s|
    ensures p <= e <= |s| && AllSpace(s[p..e]) && (e == |s| || !IsSpace(s[e]))
    decreases |s| - p
  {
    if p < |s| && IsSpace(s[p]) then SpaceRun(s, p + 1) else p
  }

  /** `\s+` followed by `lit` (in any case) matches at `p`. */
  predicate AnnotationAt(s: string, p: int, lit: string) {
    0 <= p < |s| && IsSpace(s[p]) && SpaceRun(s, p) + |lit| <= |s| &&
    Lower(s[SpaceRun(s, p)..SpaceRun(s, p) + |lit|]) == lit
  }

  /** The leftmost match at or after `from`. */
  function FindAnnotation(s: string, lit: string, from: nat): (r: Option<nat>)
    requires from <= |s|
    ensures r.Some? ==> from <= r.value && AnnotationAt(s, r.value, lit)
    ensures r.Some? ==> forall q :: from <= q < r.value ==> !AnnotationAt(s, q, lit)
    ensures r.None? ==> forall q :: from <= q ==> !AnnotationAt(s, q, lit)
    decreases |s| - from
  {
    if from == |s| then None
    else if AnnotationAt(s, from, lit) then Some(from)
    else FindAnnotation(s, lit, from + 1)
  }

  /** `replace(/\s+LIT/i, '')`: the first match only, which need not end the name. */
  function RemoveAnnotation(s: string, lit: string): string {
    match FindAnnotation(s, lit, 0)
    case None => s
    case Some(p) => s[..p] + s[SpaceRun(s, p) + |lit|..]
  }

  /**
   * `AnnotationAt` is the regular expression: at `p` there is a non-empty
   * run of whitespace, ending at `q`, followed by `lit`.
   */
  lemma AnnotationAtIsMatch(s: string, p: int, lit: string)
    requires 0 <= p <= |s| && lit != [] && !IsSpace(lit[0]) && !('A' <= lit[0] <= 'Z')
    ensures AnnotationAt(s, p, lit) <==>
              exists q :: p < q && q + |lit| <= |s| && AllSpace(s[p..q]) && Lower(s[q..q + |lit|]) == lit
  {
    if q :| p < q && q + |lit| <= |s| && AllSpace(s[p..q]) && Lower(s[q..q + |lit|]) == lit {
      var e := SpaceRun(s, p);
      assert IsSpace(s[p..q][0]);
      assert ToLower(s[q]) == lit[0];
      assert !IsSpace(s[q]);
      assert forall k :: p <= k < q ==> IsSpace(s[k]) by {
        forall k | p <= k < q ensures IsSpace(s[k]) {
          assert s[p..q][k - p] == s[k];
        }
      }
      assert e == q;
    }
    if AnnotationAt(s, p, lit) {
      var e := SpaceRun(s, p);
      assert s[p..e][0] == s[p];
    }
  }

  /**
   * The first match is removed, from its first whitespace character to the
   * end of `lit`; with no match the name is unchanged.
   */
  lemma RemoveAnnotationSpec(s: string, lit: string)
    ensures (forall q :: !AnnotationAt(s, q, lit)) ==> RemoveAnnotation(s, lit) == s
    ensures forall p :: AnnotationAt(s, p, lit) && (forall q :: 0 <= q < p ==> !AnnotationAt(s, q, lit)) ==>
              RemoveAnnotation(s, lit) == s[..p] + s[SpaceRun(s, p) + |lit|..]
  {
  }

  /** A name whose text after its last `lit[0]` is shorter than `lit` holds no match. */
  lemma NoAnnotation(s: string, a: string, b: string, lit: string)
    requires s == a + b && lit != [] && lit[0] == '(' && '(' !in a && |b| < |lit|
    ensures RemoveAnnotation(s, lit) == s
  {
    forall q | 0 <= q < |s| && IsSpace(s[q]) && SpaceRun(s, q) + |lit| <= |s|
      ensures Lower(s[SpaceRun(s, q)..SpaceRun(s, q) + |lit|]) != lit
    {
      var e := SpaceRun(s, q);
      assert e < |a|;
      assert s[e] == a[e];
      assert a[e] != '(';
      assert Lower(s[e..e + |lit|])[0] == ToLower(s[e]) != '(';
    }
  }

  // ----- Step 11: the `raw<digits>` footnote -----

  /** The length of the maximal run of digits at the end of `s`. */
  function TrailingDigits(s: string): (n: nat)
    ensures n <= |s| && AllDigits(s[|s| - n..]) && (n < |s| ==> !IsDigit(s[|s| - n - 1]))
  {
    if s != [] && IsDigit(s[|s| - 1]) then
      var n := TrailingDigits(s[..|s| - 1]);
      DigitsSnoc(s, n);
      n + 1
    else 0
  }

  lemma DigitsSnoc(s: string, n: nat)
    requires s != [] && IsDigit(s[|s| - 1]) && n < |s| && AllDigits(s[..|s| - 1][|s| - 1 - n..])
    ensures AllDigits(s[|s| - n - 1..])
  {
    var t := s[|s| - n - 1..];
    var u := s[..|s| - 1][|s| - 1 - n..];
    forall i | 0 <= i < |t| ensures IsDigit(t[i]) {
      if i < n {
        assert t[i] == u[i];
      }
    }
  }

  /**
   * `replace(/,?\s*raw\d*$/i, '')`: `raw` in any case, then only digits to
   * the end; the whitespace before it and a comma before that go too.
   */
  function RemoveRawFootnote(s: string): (r: string)
    ensures |r| <= |s| && r == s[..|r|]
  {
    var t := s[..|s| - TrailingDigits(s)];
    if |t| >= 3 && Lower(t[|t| - 3..]) == "raw" then
      var u := TrimEnd(t[..|t| - 3]);
      assert u == s[..|u|];
      DropComma(u)
    else s
  }

  /** The text without its last character when that is a comma. */
  function DropComma(u: string): (r: string)
    ensures |r| <= |u| && r == u[..|r|]
  {
    if u != [] && u[|u| - 1] == ',' then u[..|u| - 1] else u
  }

  lemma RawFootnoteParts(a: string, w: string, r: string, d: string)
    requires AllSpace(w) && Lower(r) == "raw" && AllDigits(d)
    ensures TrailingDigits(a + w + r + d) == |d|
    ensures (a + w + r + d)[..|a + w + r + d| - |d|] == a + w + r
    ensures TrimEnd(a + w) == TrimEnd(a)
  {
    var s := a + w + r + d;
    var n := TrailingDigits(s);
    assert |r| == 3;
    assert Lower(r)[2] == 'w';
    assert !IsDigit(r[2]);
    assert s[|s| - |d| - 1] == r[2];
    assert s[|s| - |d|..] == d;
    TrimEndSpaces(a, w);
  }

  lemma {:induction false} TrimEndSpaces(a: string, w: string)
    requires AllSpace(w)
    ensures TrimEnd(a + w) == TrimEnd(a)
    decreases |w|
  {
    if w != [] {
      var w' := w[..|w| - 1];
      assert (a + w)[..|a + w| - 1] == a + w';
      assert (a + w)[|a + w| - 1] == w[|w| - 1];
      TrimEndSpaces(a, w');
    } else {
      assert a + w == a;
    }
  }

  /** `, raw6` style footnotes: after a comma anything before is kept. */
  lemma RawFootnoteAfterComma(a: string, w: string, r: string, d: string)
    requires AllSpace(w) && Lower(r) == "raw" && AllDigits(d)
    ensures RemoveRawFootnote(a + "," + w + r + d) == a
  {
    var t := a + "," + w + r;
    RawFootnoteParts(a + ",", w, r, d);
    assert t[|t| - 3..] == r;
    assert t[..|t| - 3] == a + "," + w;
    assert TrimEnd(a + ",") == a + ",";
    assert (a + ",")[..|a|] == a;
    RemoveRawCut(a + "," + w + r + d, t, a + ",");
  }

  /** The footnote removal once the digits and `raw` are located. */
  lemma RemoveRawCut(s: string, t: string, u: string)
    requires |t| <= |s| && TrailingDigits(s) == |s| - |t| && s[..|t|] == t
    requires |t| >= 3 && Lower(t[|t| - 3..]) == "raw" && TrimEnd(t[..|t| - 3]) == u
    ensures RemoveRawFootnote(s) == DropComma(u)
  {
    assert s[..|s| - TrailingDigits(s)] == t;
  }

  /** Without a comma the footnote takes the whitespace before `raw` and nothing else. */
  lemma RawFootnoteWithoutComma(a: string, w: string, r: string, d: string)
    requires AllSpace(w) && Lower(r) == "raw" && AllDigits(d)
    requires a == [] || (!IsSpace(a[|a| - 1]) && a[|a| - 1] != ',')
    ensures RemoveRawFootnote(a + w + r + d) == a
  {
    var t := a + w + r;
    RawFootnoteParts(a, w, r, d);
    assert t[|t| - 3..] == r;
    assert t[..|t| - 3] == a + w;
    RemoveRawCut(a + w + r + d, t, TrimEnd(a));
    assert TrimEnd(a) == a;
  }

  /** The footnote pattern is not anchored at a word start: "straw" loses its "raw". */
  lemma StrawLosesRaw()
    ensures RemoveRawFootnote("straw") == "st"
  {
    RawFootnoteWithoutComma("st", "", "raw", "");
    assert "st" + "" + "raw" + "" == "straw";
  }

  /** The pattern `raw\d*$` matches at `k`: `raw` in any case there, then only digits to the end. */
  predicate RawFootnoteAt(s: string, k: int) {
    0 <= k && k + 3 <= |s| && Lower(s[k..k + 3]) == "raw" && AllDigits(s[k + 3..])
  }

  /** A match at `k` leaves exactly the digits after `raw` as the trailing digit run. */
  lemma RawFootnoteDigits(s: string, k: int)
    requires RawFootnoteAt(s, k)
    ensures TrailingDigits(s) == |s| - k - 3
  {
    var n := TrailingDigits(s);
    assert Lower(s[k..k + 3])[2] == ToLower(s[k + 2]);
    assert !IsDigit(s[k + 2]);
  }

  /**
   * The footnote step changes a name exactly when `raw\d*$` matches in it,
   * and then it makes the name shorter; any other name is kept as it is.
   */
  lemma RawFootnoteIff(s: string)
    ensures RemoveRawFootnote(s) != s <==> exists k :: RawFootnoteAt(s, k)
    ensures RemoveRawFootnote(s) != s ==> |RemoveRawFootnote(s)| < |s|
  {
    var n := TrailingDigits(s);
    var t := s[..|s| - n];
    if |t| >= 3 && Lower(t[|t| - 3..]) == "raw" {
      var k := |t| - 3;
      assert s[k..k + 3] == t[|t| - 3..];
      assert s[k + 3..] == s[|s| - n..];
      assert RawFootnoteAt(s, k);
    } else {
      forall k | RawFootnoteAt(s, k) ensures false {
        RawFootnoteDigits(s, k);
      }
    }
  }

  /** A name in which `raw\d*$` matches nowhere comes back unchanged. */
  lemma NoRawFootnoteKept(s: string)
    requires forall k :: !RawFootnoteAt(s, k)
    ensures RemoveRawFootnote(s) == s
  {
    RawFootnoteIff(s);
  }

  /** "Coleslaw" and "Kale, cooked 2" end in no `raw<digits>`, so they are kept. */
  lemma NoFootnoteExamples()
    ensures RemoveRawFootnote("Coleslaw") == "Coleslaw"
    ensures RemoveRawFootnote("Kale, cooked 2") == "Kale, cooked 2"
  {
    var c := "Coleslaw";
    assert TrailingDigits(c) == 0;
    assert c[..|c|] == c;
    assert Lower(c[5..])[0] == 'l';
    var e := "Kale, cooked 2";
    assert TrailingDigits(e[..13]) == 0;
    assert TrailingDigits(e) == 1;
    assert Lower(e[..13][10..])[2] == ' ';
  }

  // ----- Step 13: capitalising each word -----

  /** One word: upper-case its first character, or the second after a leading `(` or `'`. */
  function CapWord(w: string): string {
    if w != [] && (w[0] == '(' || w[0] == '\'') then
      (if |w| >= 2 then [w[0], ToUpper(w[1])] + w[2..] else w)
    else if w == [] then []
    else [ToUpper(w[0])] + w[1..]
  }

  function CapWords(ws: seq<string>): (r: seq<string>)
    ensures |r| == |ws| && forall k :: 0 <= k < |ws| ==> r[k] == CapWord(ws[k])
  {
    seq(|ws|, k requires 0 <= k < |ws| => CapWord(ws[k]))
  }

  /** `split(' ').map(...).join(' ')`. */
  function Capitalize(s: string): string {
    Join(CapWords(Split(s, ' ')), " ")
  }

  /** Position `k` starts a space-separated word. */
  predicate WordStart(s: string, k: int) {
    k == 0 || (0 < k <= |s| && s[k - 1] == ' ')
  }

  /** Position `k` is the one the capitalisation upper-cases in its word. */
  predicate CapAt(s: string, k: int) {
    0 <= k < |s| &&
    ((WordStart(s, k) && s[k] != '(' && s[k] != '\'') ||
     (k >= 1 && WordStart(s, k - 1) && (s[k - 1] == '(' || s[k - 1] == '\'')))
  }

  lemma CapWordSpec(w: string)
    requires ' ' !in w
    ensures |CapWord(w)| == |w|
    ensures forall k :: 0 <= k < |w| ==> CapWord(w)[k] == if CapAt(w, k) then ToUpper(w[k]) else w[k]
  {
    forall k | 0 < k < |w| ensures !WordStart(w, k) {
      assert w[k - 1] in w;
    }
  }

  lemma CapitalizeWord(w: string)
    requires ' ' !in w
    ensures Capitalize(w) == CapWord(w)
  {
  }

  lemma SplitCons(a: string, b: string)
    requires ' ' !in a
    ensures Split(a + " " + b, ' ') == [a] + Split(b, ' ')
  {
    var s := a + " " + b;
    assert s[|a|] == ' ';
    assert s[..|a|] == a;
    IndexOfAt(s, ' ', |a|);
    assert s[|a| + 1..] == b;
  }

  lemma JoinCons(x: string, xs: seq<string>, sep: string)
    requires xs != []
    ensures Join([x] + xs, sep) == x + sep + Join(xs, sep)
  {
    assert ([x] + xs)[1..] == xs;
  }

  lemma CapitalizeCons(a: string, b: string)
    requires ' ' !in a
    ensures Capitalize(a + " " + b) == CapWord(a) + " " + Capitalize(b)
  {
    SplitCons(a, b);
    var rest := Split(b, ' ');
    assert CapWords([a] + rest) == [CapWord(a)] + CapWords(rest);
    JoinCons(CapWord(a), CapWords(rest), " ");
  }

  /** The character the capitalisation puts at position `k` of `s`. */
  function CapChar(s: string, k: int): char
    requires 0 <= k < |s|
  {
    if CapAt(s, k) then ToUpper(s[k]) else s[k]
  }

  /** `t` is `s` with exactly the `CapAt` positions upper-cased. */
  predicate CapitalizedFrom(t: string, s: string) {
    |t| == |s| && forall k :: 0 <= k < |s| ==> t[k] == CapChar(s, k)
  }

  lemma CapAtPrefix(a: string, b: string, k: int)
    requires 0 <= k < |a|
    ensures CapChar(a + " " + b, k) == CapChar(a, k)
  {
    var s := a + " " + b;
    assert s[k] == a[k];
    if k >= 1 {
      assert s[k - 1] == a[k - 1];
    }
    if k >= 2 {
      assert s[k - 2] == a[k - 2];
    }
  }

  lemma CapAtSuffix(a: string, b: string, k: int)
    requires |a| < k < |a| + 1 + |b|
    ensures CapChar(a + " " + b, k) == CapChar(b, k - |a| - 1)
  {
    var s := a + " " + b;
    var j := k - |a| - 1;
    assert s[k] == b[j];
    assert s[k - 1] == if j == 0 then ' ' else b[j - 1];
    if k >= 2 {
      assert s[k - 2] == if j == 0 then (if |a| > 0 then a[|a| - 1] else ' ') else if j == 1 then ' ' else b[j - 2];
    }
  }

  lemma CapitalizeConsSpec(a: string, b: string)
    requires ' ' !in a
    requires CapitalizedFrom(Capitalize(b), b)
    ensures CapitalizedFrom(Capitalize(a + " " + b), a + " " + b)
  {
    var s := a + " " + b;
    CapitalizeCons(a, b);
    CapWordSpec(a);
    var c := CapWord(a) + " " + Capitalize(b);
    forall k | 0 <= k < |s| ensures c[k] == CapChar(s, k) {
      CapConsAt(a, b, k);
    }
  }

  /** One position of `CapitalizeConsSpec`: in the first word, at the space, or in the rest. */
  lemma CapConsAt(a: string, b: string, k: int)
    requires ' ' !in a && 0 <= k < |a| + 1 + |b|
    requires CapitalizedFrom(Capitalize(b), b)
    ensures (CapWord(a) + " " + Capitalize(b))[k] == CapChar(a + " " + b, k)
  {
    CapWordSpec(a);
    ConsIndex(CapWord(a), Capitalize(b), k);
    ConsIndex(a, b, k);
    if k < |a| {
      CapAtPrefix(a, b, k);
    } else if k > |a| {
      CapAtSuffix(a, b, k);
    }
  }

  /** The character at `k` of two texts joined by a space. */
  lemma ConsIndex(u: string, v: string, k: int)
    requires 0 <= k < |u| + 1 + |v|
    ensures (u + " " + v)[k] == if k < |u| then u[k] else if k == |u| then ' ' else v[k - |u| - 1]
  {
  }

  /**
   * Capitalising keeps the length and changes only the first character of
   * each space-separated word, or the character after a leading `(` or
   * `'`, which it upper-cases.
   */
  lemma {:induction false} CapitalizeSpec(s: string)
    ensures CapitalizedFrom(Capitalize(s), s)
    decreases |s|
  {
    if ' ' !in s {
      CapitalizeWord(s);
      CapWordSpec(s);
    } else {
      var i := IndexOf(s, ' ');
      var a, b := s[..i], s[i + 1..];
      assert s == a + " " + b;
      CapitalizeSpec(b);
      CapitalizeConsSpec(a, b);
    }
  }

  lemma ToUpperSpace(c: char)
    ensures IsSpace(ToUpper(c)) <==> IsSpace(c)
  {
  }

  // ----- The whole chain -----

  /** Steps 1 to 4: quotes. */
  function QuoteSteps(name: string): string {
    StripSingleQuotes(MeatlessRewrite(StripOuterDoubleQuote(NormalizeQuotes(name))))
  }

  /** Steps 5 to 7: trailing `, raw`, `, fresh`, `, dried`. */
  function SuffixSteps(s: string): string {
    DropWordSuffix(DropWordSuffix(DropWordSuffix(s, "raw", ""), "fresh", ""), "dried", " (dried)")
  }

  /** Steps 8 to 10: the three annotations. */
  function AnnotationSteps(s: string): string {
    RemoveAnnotation(RemoveAnnotation(RemoveAnnotation(s, "(unspecified)"), "(no further specified)"), "(not further specified)")
  }

  /** The rewrites before the final trim, in source order. */
  function Rewritten(name: string): string {
    RemoveRawFootnote(AnnotationSteps(SuffixSteps(QuoteSteps(name))))
  }

  /** `cleanFoodName`. */
  function CleanFoodName(name: string): string {
    Capitalize(Trim(Rewritten(name)))
  }

  /**
   * A cleaned name has no whitespace at its ends, and it is the trimmed
   * rewritten name with the word-initial characters upper-cased.
   */
  lemma CleanFoodNameSpec(name: string)
    ensures IsTrimmed(CleanFoodName(name))
    ensures CapitalizedFrom(CleanFoodName(name), Trim(Rewritten(name)))
  {
    CapitalizeTrim(Rewritten(name));
  }

  lemma CapitalizeTrim(r: string)
    ensures IsTrimmed(Capitalize(Trim(r)))
    ensures CapitalizedFrom(Capitalize(Trim(r)), Trim(r))
  {
    var t := Trim(r);
    TrimProperties(r);
    CapitalizeSpec(t);
    if t != [] {
      ToUpperSpace(t[0]);
      ToUpperSpace(t[|t| - 1]);
    }
  }

  // ----- Worked names -----

  lemma NormalizeQuotesPlain(s: string)
    requires forall i :: 0 <= i < |s| ==> !IsCurlySingle(s[i]) && !IsCurlyDouble(s[i])
    ensures NormalizeQuotes(s) == s
  {
  }

  /** A name without curly quotes and with no quote at either end passes the quote steps unchanged. */
  lemma QuoteStepsPlain(s: string)
    requires forall i :: 0 <= i < |s| ==> !IsCurlySingle(s[i]) && !IsCurlyDouble(s[i])
    requires s != [] && s[0] != '"' && s[0] != '\'' && s[|s| - 1] != '"' && s[|s| - 1] != '\''
    ensures QuoteSteps(s) == s
  {
    NormalizeQuotesPlain(s);
    StripOuterDoubleQuoteSpec(s);
    assert MeatlessRewrite(s) == s;
    StripSingleQuotesPlain(s);
  }

  lemma SuffixStepsNoComma(s: string)
    requires ',' !in s
    ensures SuffixSteps(s) == s
  {
  }

  /** The last comma is followed by none of the three words: nothing changes. */
  lemma SuffixStepsKeep(s: string, p: nat)
    requires p < |s| && s[p] == ',' && ',' !in s[p + 1..]
    requires Lower(Trim(s[p + 1..])) != "raw" && Lower(Trim(s[p + 1..])) != "fresh" && Lower(Trim(s[p + 1..])) != "dried"
    ensures SuffixSteps(s) == s
  {
    LastIndexOfUnique(s, ',', p);
  }

  /** The last comma is followed by `dried`: it becomes ` (dried)`. */
  lemma SuffixStepsDried(s: string, p: nat)
    requires p < |s| && s[p] == ',' && ',' !in s[p + 1..]
    requires Lower(Trim(s[p + 1..])) == "dried"
    ensures SuffixSteps(s) == s[..p] + " (dried)"
  {
    LastIndexOfUnique(s, ',', p);
    LastCommaOtherWord(s, p, "raw", "");
    LastCommaOtherWord(s, p, "fresh", "");
  }

  /** With the last comma at `p` followed by another word, the rewrite does nothing. */
  lemma LastCommaOtherWord(s: string, p: nat, word: string, repl: string)
    requires ',' in s && LastIndexOf(s, ',') == p && Lower(Trim(s[p + 1..])) != word
    ensures DropWordSuffix(s, word, repl) == s
  {
  }

  lemma AnnotationStepsNone(s: string, a: string, b: string)
    requires s == a + b && '(' !in a && |b| < 13
    ensures AnnotationSteps(s) == s
  {
    NoAnnotation(s, a, b, "(unspecified)");
    NoAnnotation(s, a, b, "(no further specified)");
    NoAnnotation(s, a, b, "(not further specified)");
  }

  /** A name ending in neither a digit nor `w` has no footnote. */
  lemma FootnoteAbsent(s: string)
    requires s != [] && !IsDigit(s[|s| - 1]) && ToLower(s[|s| - 1]) != 'w'
    ensures RemoveRawFootnote(s) == s
  {
    assert TrailingDigits(s) == 0;
    assert s[..|s|] == s;
    if |s| >= 3 {
      assert Lower(s[|s| - 3..])[2] == ToLower(s[|s| - 1]);
    }
  }

  lemma BaconQuoteSteps(name: string)
    requires name == "'Bacon', meatless"
    ensures QuoteSteps(name) == "Bacon (Meatless)"
  {
    BaconPlain(name);
    BaconShape(name);
    MeatlessApplies("Bacon", " ", "meatless");
    BaconMeatlessText();
    StripSingleQuotesPlain("Bacon (Meatless)");
  }

  lemma BaconMeatlessText()
    ensures "Bacon" + " (Meatless)" == "Bacon (Meatless)"
  {
  }

  lemma BaconPlain(name: string)
    requires name == "'Bacon', meatless"
    ensures StripOuterDoubleQuote(NormalizeQuotes(name)) == name
  {
    NormalizeQuotesPlain(name);
  }

  lemma BaconShape(name: string)
    requires name == "'Bacon', meatless"
    ensures name == "'" + "Bacon" + "'," + " " + "meatless"
    ensures Lower("meatless") == "meatless"
  {
  }

  lemma CapWordFixed(w: string)
    requires w != [] && (w[0] == '(' || w[0] == '\'') ==> |w| >= 2 && !('a' <= w[1] <= 'z')
    requires w != [] && w[0] != '(' && w[0] != '\'' ==> !('a' <= w[0] <= 'z')
    ensures CapWord(w) == w
  {
    if w != [] && (w[0] == '(' || w[0] == '\'') {
      assert w == [w[0], w[1]] + w[2..];
    } else if w != [] {
      assert w == [w[0]] + w[1..];
    }
  }

  lemma SpacePair(s: string, a: string, b: string)
    requires s == a + " " + b && ' ' !in a && ' ' !in b
    ensures Capitalize(s) == CapWord(a) + " " + CapWord(b)
  {
    CapitalizeCons(a, b);
    CapitalizeWord(b);
  }

  lemma BaconWords(m: string)
    requires m == "Bacon (Meatless)"
    ensures m == "Bacon" + " " + "(Meatless)" && ' ' !in "Bacon" && ' ' !in "(Meatless)"
    ensures CapWord("Bacon") == "Bacon" && CapWord("(Meatless)") == "(Meatless)"
  {
    CapWordFixed("Bacon");
    CapWordFixed("(Meatless)");
  }

  lemma BaconCapitalized(m: string)
    requires m == "Bacon (Meatless)"
    ensures Capitalize(m) == m
  {
    BaconWords(m);
    SpacePair(m, "Bacon", "(Meatless)");
  }

  lemma BaconRest(m: string)
    requires m == "Bacon (Meatless)"
    ensures Rewritten("'Bacon', meatless") == m
  {
    BaconQuoteSteps("'Bacon', meatless");
    BaconTail(m);
  }

  lemma BaconTail(m: string)
    requires m == "Bacon (Meatless)"
    ensures RemoveRawFootnote(AnnotationSteps(SuffixSteps(m))) == m
  {
    BaconFacts(m);
    SuffixStepsNoComma(m);
    AnnotationStepsNone(m, "Bacon ", "(Meatless)");
    FootnoteAbsent(m);
  }

  lemma BaconFacts(m: string)
    requires m == "Bacon (Meatless)"
    ensures ',' !in m && m == "Bacon " + "(Meatless)" && '(' !in "Bacon " && |"(Meatless)"| < 13
    ensures m != [] && !IsDigit(m[|m| - 1]) && ToLower(m[|m| - 1]) != 'w' && IsTrimmed(m)
  {
  }

  /** `'Bacon', meatless` becomes `Bacon (Meatless)`. */
  lemma MeatlessExample(name: string)
    requires name == "'Bacon', meatless"
    ensures CleanFoodName(name) == "Bacon (Meatless)"
  {
    var m := "Bacon (Meatless)";
    BaconRest(m);
    BaconFacts(m);
    TrimProperties(m);
    BaconCapitalized(m);
  }

  lemma ChickenSuffix(name: string)
    requires name == "chicken, raw6"
    ensures SuffixSteps(name) == name
  {
    ChickenFacts(name);
    ChickenTailWord();
    SuffixStepsKeep(name, 7);
  }

  /** One space before a trimmed word is all `trim` removes. */
  lemma TrimOneSpace(t: string)
    requires t != [] && IsTrimmed(t)
    ensures Trim(" " + t) == t
  {
    assert (" " + t)[1..] == t;
    TrimProperties(t);
  }

  lemma ChickenFacts(name: string)
    requires name == "chicken, raw6"
    ensures name[7] == ',' && ',' !in name[8..] && name[8..] == " raw6"
  {
  }

  lemma ChickenTailWord()
    ensures Trim(" raw6") == "raw6" && Lower("raw6") == "raw6"
  {
    ChickenTailText("raw6");
    TrimOneSpace("raw6");
    LowerNoUpper("raw6");
  }

  lemma ChickenTailText(w: string)
    requires w == "raw6"
    ensures w != [] && IsTrimmed(w) && forall i :: 0 <= i < |w| ==> !('A' <= w[i] <= 'Z')
  {
  }

  lemma ChickenParts(name: string)
    requires name == "chicken, raw6"
    ensures name == "chicken" + "," + " " + "raw" + "6" && '(' !in name
  {
  }

  lemma RawParts()
    ensures AllSpace(" ") && Lower("raw") == "raw" && AllDigits("6")
  {
  }

  lemma ChickenPlain(name: string)
    requires name == "chicken, raw6"
    ensures QuoteSteps(name) == name
  {
    QuoteStepsPlain(name);
  }

  lemma ChickenRewritten(name: string)
    requires name == "chicken, raw6"
    ensures Rewritten(name) == "chicken"
  {
    ChickenPlain(name);
    ChickenSuffix(name);
    ChickenUnannotated(name);
    ChickenFootnote(name);
  }

  lemma ChickenUnannotated(name: string)
    requires name == "chicken, raw6"
    ensures AnnotationSteps(name) == name
  {
    ChickenParts(name);
    AnnotationStepsNone(name, name, "");
  }

  lemma ChickenFootnote(name: string)
    requires name == "chicken, raw6"
    ensures RemoveRawFootnote(name) == "chicken"
  {
    ChickenParts(name);
    RawParts();
    RawFootnoteAfterComma("chicken", " ", "raw", "6");
  }

  lemma ChickenWord(w: string)
    requires w == "chicken"
    ensures IsTrimmed(w) && ' ' !in w && CapWord(w) == "Chicken"
  {
  }

  /** `chicken, raw6`: the footnote and the comma before it go. */
  lemma RawFootnoteExample(name: string)
    requires name == "chicken, raw6"
    ensures CleanFoodName(name) == "Chicken"
  {
    ChickenRewritten(name);
    ChickenWord("chicken");
    TrimProperties("chicken");
    CapitalizeWord("chicken");
  }

  lemma DriedWord()
    ensures Trim(" dried") == "dried" && Lower("dried") == "dried"
  {
    DriedText("dried");
    TrimOneSpace("dried");
    LowerNoUpper("dried");
  }

  lemma DriedText(w: string)
    requires w == "dried"
    ensures w != [] && IsTrimmed(w) && forall i :: 0 <= i < |w| ==> !('A' <= w[i] <= 'Z')
  {
  }

  lemma SuffixDriedAfter(s: string, a: string, t: string)
    requires s == a + "," + t && ',' !in t && Lower(Trim(t)) == "dried"
    ensures SuffixSteps(s) == a + " (dried)"
  {
    assert s[|a|] == ',' && s[|a| + 1..] == t && s[..|a|] == a;
    SuffixStepsDried(s, |a|);
  }

  lemma BeefSuffix(name: string)
    requires name == "beef, dried"
    ensures SuffixSteps(name) == "beef (dried)"
  {
    BeefDriedText(name);
    DriedWord();
    SuffixDriedAfter(name, "beef", " dried");
  }

  lemma BeefDriedText(name: string)
    requires name == "beef, dried"
    ensures name == "beef" + "," + " dried" && ',' !in " dried"
    ensures "beef" + " (dried)" == "beef (dried)"
  {
  }

  lemma BeefPlain(name: string)
    requires name == "beef, dried"
    ensures QuoteSteps(name) == name
  {
    QuoteStepsPlain(name);
  }

  lemma BeefTail(c: string)
    requires c == "beef (dried)"
    ensures RemoveRawFootnote(AnnotationSteps(c)) == c && IsTrimmed(c)
  {
    assert c == "beef " + "(dried)" && '(' !in "beef ";
    AnnotationStepsNone(c, "beef ", "(dried)");
    FootnoteAbsent(c);
  }

  lemma BeefWords(c: string)
    requires c == "beef (dried)"
    ensures c == "beef" + " " + "(dried)" && ' ' !in "beef" && ' ' !in "(dried)"
    ensures CapWord("beef") == "Beef" && CapWord("(dried)") == "(Dried)"
  {
  }

  lemma BeefCapitalized(c: string)
    requires c == "beef (dried)"
    ensures Capitalize(c) == "Beef (Dried)"
  {
    BeefWords(c);
    SpacePair(c, "beef", "(dried)");
  }

  /** `beef, dried` becomes `Beef (Dried)`. */
  lemma DriedExample(name: string)
    requires name == "beef, dried"
    ensures CleanFoodName(name) == "Beef (Dried)"
  {
    var c := "beef (dried)";
    BeefPlain(name);
    BeefSuffix(name);
    BeefTail(c);
    TrimProperties(c);
    BeefCapitalized(c);
  }

  /** A name that is only `raw` is cleaned to the empty string. */
  lemma RawOnlyExample(name: string)
    requires name == "raw"
    ensures CleanFoodName(name) == ""
  {
    RawRewritten(name);
    TrimProperties("");
    CapitalizeEmpty();
  }

  lemma RawRewritten(name: string)
    requires name == "raw"
    ensures Rewritten(name) == ""
  {
    RawUnchanged(name);
    RawFootnoteOnly(name);
  }

  lemma RawUnchanged(name: string)
    requires name == "raw"
    ensures AnnotationSteps(SuffixSteps(QuoteSteps(name))) == name
  {
    RawPlain(name);
    QuoteStepsPlain(name);
    SuffixStepsNoComma(name);
    AnnotationStepsNone(name, name, "");
  }

  /** The facts about `raw` the three unchanged steps need. */
  lemma RawPlain(name: string)
    requires name == "raw"
    ensures forall i :: 0 <= i < |name| ==> !IsCurlySingle(name[i]) && !IsCurlyDouble(name[i])
    ensures name != [] && name[0] == 'r' && name[|name| - 1] == 'w'
    ensures ',' !in name && '(' !in name && name + "" == name
  {
  }

  lemma RawFootnoteOnly(name: string)
    requires name == "raw"
    ensures RemoveRawFootnote(name) == ""
  {
    RawFootnoteWithoutComma("", "", "raw", "");
    assert "" + "" + "raw" + "" == name;
  }

  lemma CapitalizeEmpty()
    ensures Capitalize("") == ""
  {
    CapitalizeSpec("");
  }
}
