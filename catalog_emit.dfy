/**
 * `generateTypeScriptFile`: the collected items are sorted by name, the
 * first item of each lower-cased name is kept, and the survivors are
 * printed as the entries of the `foodData` array of a TypeScript module.
 *
 * `localeCompare` is replaced by ordinal order (`Text.LexLe`); the sort is
 * the stable sort of the JavaScript standard, written as an insertion sort.
 */
module CatalogEmit {
  import opened Wrappers
  import opened Text
  import opened Sequences
  import opened FoodTypes

  // ----- Sorting by name -----

  predicate SortedByName(s: seq<FoodItem>) {
    forall i, j :: 0 <= i < j < |s| ==> LexLe(s[i].name, s[j].name)
  }

  /** Where a stable insertion puts `x`: just after the last element whose name is not after `x`'s. */
  function InsertPos(s: seq<FoodItem>, x: FoodItem): (p: nat)
    ensures p <= |s|
    ensures p > 0 ==> LexLe(s[p - 1].name, x.name)
    ensures forall i :: p <= i < |s| ==> !LexLe(s[i].name, x.name)
  {
    if s == [] then 0
    else if LexLe(s[|s| - 1].name, x.name) then |s|
    else
      var p := InsertPos(s[..|s| - 1], x);
      assert forall i :: p <= i < |s| - 1 ==> s[i] == s[..|s| - 1][i];
      p
  }

  function Insert(s: seq<FoodItem>, x: FoodItem): (r: seq<FoodItem>)
    ensures |r| == |s| + 1
  {
    s[..InsertPos(s, x)] + [x] + s[InsertPos(s, x)..]
  }

  /** `items.sort((a, b) => a.name.localeCompare(b.name))`, on ordinal order. */
  function SortByName(xs: seq<FoodItem>): (r: seq<FoodItem>)
    ensures |r| == |xs|
  {
    if xs == [] then [] else Insert(SortByName(xs[..|xs| - 1]), xs[|xs| - 1])
  }

  lemma InsertSorted(s: seq<FoodItem>, x: FoodItem)
    requires SortedByName(s)
    ensures SortedByName(Insert(s, x))
  {
    var p := InsertPos(s, x);
    var r := Insert(s, x);
    assert forall k :: 0 <= k < p ==> r[k] == s[k];
    assert r[p] == x;
    assert forall k :: p < k < |r| ==> r[k] == s[k - 1];
    forall k | p <= k < |s| ensures LexLe(x.name, s[k].name) {
      LexLeTotal(x.name, s[k].name);
    }
    forall k | 0 <= k < p ensures LexLe(s[k].name, x.name) {
      if k < p - 1 {
        LexLeTransitive(s[k].name, s[p - 1].name, x.name);
      }
    }
    forall i, j | 0 <= i < j < |r| ensures LexLe(r[i].name, r[j].name) {
      if i < p && p < j {
        LexLeTransitive(r[i].name, x.name, r[j].name);
      }
    }
  }

  /** The sorted list is ordered by name. */
  lemma {:induction false} SortSorted(xs: seq<FoodItem>)
    ensures SortedByName(SortByName(xs))
  {
    if xs != [] {
      SortSorted(xs[..|xs| - 1]);
      InsertSorted(SortByName(xs[..|xs| - 1]), xs[|xs| - 1]);
    }
  }

  lemma InsertPermutes(s: seq<FoodItem>, x: FoodItem)
    ensures multiset(Insert(s, x)) == multiset(s) + multiset{x}
  {
    var p := InsertPos(s, x);
    assert s == s[..p] + s[p..];
  }

  /** The sorted list holds the same items, each as often. */
  lemma {:induction false} SortPermutes(xs: seq<FoodItem>)
    ensures multiset(SortByName(xs)) == multiset(xs)
  {
    if xs != [] {
      var init := xs[..|xs| - 1];
      SortPermutes(init);
      InsertPermutes(SortByName(init), xs[|xs| - 1]);
      assert xs == init + [xs[|xs| - 1]];
    }
  }

  /** The items carrying one exact name. */
  function Named(n: string): FoodItem -> bool {
    (y: FoodItem) => y.name == n
  }

  lemma InsertStable(s: seq<FoodItem>, x: FoodItem, n: string)
    ensures Filter(Insert(s, x), Named(n)) == Filter(s, Named(n)) + (if x.name == n then [x] else [])
  {
    var p := InsertPos(s, x);
    if x.name == n {
      NoSameNameAfter(s, x, p);
    }
    FilterInsertLast(s[..p], x, s[p..], Named(n));
    assert s[..p] + s[p..] == s;
  }

  /** No item after the insertion point has the inserted item's name. */
  lemma NoSameNameAfter(s: seq<FoodItem>, x: FoodItem, p: nat)
    requires p == InsertPos(s, x)
    ensures forall y :: y in s[p..] ==> !Named(x.name)(y)
  {
    LexLeReflexive(x.name);
  }

  /** The sort is stable: items with equal names keep their input order. */
  lemma {:induction false} SortStable(xs: seq<FoodItem>, n: string)
    ensures Filter(SortByName(xs), Named(n)) == Filter(xs, Named(n))
  {
    if xs != [] {
      SortStable(xs[..|xs| - 1], n);
      InsertStable(SortByName(xs[..|xs| - 1]), xs[|xs| - 1], n);
    }
  }

  // ----- Keeping the first item of each lower-cased name -----

  /** The de-duplication key: `item.name.toLowerCase()`. */
  function Key(x: FoodItem): string {
    Lower(x.name)
  }

  /** The keys of a list: the `seen` set after looking at all of it. */
  function KeySet(s: seq<FoodItem>): set<string> {
    if s == [] then {} else KeySet(s[..|s| - 1]) + {Key(s[|s| - 1])}
  }

  lemma {:induction false} KeySetMembers(s: seq<FoodItem>)
    ensures forall k :: k in KeySet(s) <==> exists i :: 0 <= i < |s| && Key(s[i]) == k
  {
    if s != [] {
      var init := s[..|s| - 1];
      KeySetMembers(init);
      forall k | k in KeySet(s) ensures exists i :: 0 <= i < |s| && Key(s[i]) == k {
        if k in KeySet(init) {
          var i :| 0 <= i < |init| && Key(init[i]) == k;
          assert s[i] == init[i];
        }
      }
      forall i | 0 <= i < |s| ensures Key(s[i]) in KeySet(s) {
        if i < |init| {
          assert s[i] == init[i];
        }
      }
    }
  }

  /** The items the `seen` loop keeps: each one whose key no earlier item had. */
  function FirstOfEachKey(s: seq<FoodItem>): (r: seq<FoodItem>)
    ensures |r| <= |s|
  {
    if s == [] then []
    else if Key(s[|s| - 1]) in KeySet(s[..|s| - 1]) then FirstOfEachKey(s[..|s| - 1])
    else FirstOfEachKey(s[..|s| - 1]) + [s[|s| - 1]]
  }

  /** No item before position `i` has the key of the item at `i`. */
  predicate FirstWithKey(s: seq<FoodItem>, i: nat)
    requires i < |s|
  {
    forall j :: 0 <= j < i ==> Key(s[j]) != Key(s[i])
  }

  /** The kept items are the input with some items deleted, in order. */
  lemma {:induction false} FirstOfEachKeySubsequence(s: seq<FoodItem>)
    ensures IsSubsequence(FirstOfEachKey(s), s)
  {
    if s != [] {
      var init := s[..|s| - 1];
      FirstOfEachKeySubsequence(init);
      assert init + [s[|s| - 1]] == s;
      if Key(s[|s| - 1]) in KeySet(init) {
        SubsequenceOfLonger(FirstOfEachKey(init), init, s[|s| - 1]);
      } else {
        SubsequenceSnoc(FirstOfEachKey(init), init, s[|s| - 1]);
      }
    }
  }

  /** Every key of the input is kept. */
  lemma {:induction false} FirstOfEachKeyKeys(s: seq<FoodItem>)
    ensures KeySet(FirstOfEachKey(s)) == KeySet(s)
  {
    if s != [] {
      var init := s[..|s| - 1];
      FirstOfEachKeyKeys(init);
      var r := FirstOfEachKey(s);
      if Key(s[|s| - 1]) !in KeySet(init) {
        assert r[..|r| - 1] == FirstOfEachKey(init);
      }
    }
  }

  /** No two kept items share a key. */
  lemma {:induction false} FirstOfEachKeyDistinct(s: seq<FoodItem>)
    ensures forall i, j :: 0 <= i < j < |FirstOfEachKey(s)| ==> Key(FirstOfEachKey(s)[i]) != Key(FirstOfEachKey(s)[j])
  {
    if s != [] {
      var init := s[..|s| - 1];
      FirstOfEachKeyDistinct(init);
      var d := FirstOfEachKey(init);
      if Key(s[|s| - 1]) !in KeySet(init) {
        FirstOfEachKeyKeys(init);
        KeySetMembers(d);
        var r := FirstOfEachKey(s);
        assert forall i :: 0 <= i < |d| ==> r[i] == d[i];
      }
    }
  }

  lemma FirstWithKeyPrefix(s: seq<FoodItem>, i: nat)
    requires i < |s| - 1
    ensures FirstWithKey(s, i) <==> FirstWithKey(s[..|s| - 1], i)
  {
    assert forall j :: 0 <= j <= i ==> s[j] == s[..|s| - 1][j];
  }

  lemma FirstWithKeyLast(s: seq<FoodItem>)
    requires s != []
    ensures FirstWithKey(s, |s| - 1) <==> Key(s[|s| - 1]) !in KeySet(s[..|s| - 1])
  {
    var init := s[..|s| - 1];
    KeySetMembers(init);
    assert forall j :: 0 <= j < |init| ==> s[j] == init[j];
  }

  /** An item is kept exactly when it stands at the first position of its key. */
  lemma {:induction false} FirstOfEachKeyFirst(s: seq<FoodItem>)
    ensures forall y :: y in FirstOfEachKey(s) <==> exists i :: 0 <= i < |s| && s[i] == y && FirstWithKey(s, i)
  {
    if s != [] {
      var init := s[..|s| - 1];
      var x := s[|s| - 1];
      FirstOfEachKeyFirst(init);
      FirstWithKeyLast(s);
      var d := FirstOfEachKey(init);
      var r := FirstOfEachKey(s);
      assert r == d || r == d + [x];
      assert r == d + [x] <==> Key(x) !in KeySet(init);
      forall y | y in r ensures exists i :: 0 <= i < |s| && s[i] == y && FirstWithKey(s, i) {
        if y in d {
          var i :| 0 <= i < |init| && init[i] == y && FirstWithKey(init, i);
          FirstWithKeyPrefix(s, i);
        } else {
          assert y == x && FirstWithKey(s, |s| - 1);
        }
      }
      forall i | 0 <= i < |s| && FirstWithKey(s, i) ensures s[i] in r {
        if i < |init| {
          FirstWithKeyPrefix(s, i);
          assert init[i] == s[i];
        }
      }
    }
  }

  lemma {:induction false} SubsequenceSorted(a: seq<FoodItem>, b: seq<FoodItem>)
    requires IsSubsequence(a, b) && SortedByName(b)
    ensures SortedByName(a)
    decreases |b|
  {
    if a != [] {
      var b' := b[..|b| - 1];
      assert SortedByName(b');
      if a[|a| - 1] == b[|b| - 1] {
        var a' := a[..|a| - 1];
        SubsequenceSorted(a', b');
        SubsequenceMembers(a', b');
        forall i | 0 <= i < |a'| ensures LexLe(a[i].name, a[|a| - 1].name) {
          assert a'[i] in b';
          var m :| 0 <= m < |b'| && b'[m] == a'[i];
          assert b[m] == a[i];
        }
        assert forall i :: 0 <= i < |a'| ==> a[i] == a'[i];
      } else {
        SubsequenceSorted(a, b');
      }
    }
  }

  /** The catalog proper: sorted, then the first item of each lower-cased name. */
  function Catalog(items: seq<FoodItem>): seq<FoodItem> {
    FirstOfEachKey(SortByName(items))
  }

  lemma SortKeys(xs: seq<FoodItem>)
    ensures KeySet(SortByName(xs)) == KeySet(xs)
  {
    var s := SortByName(xs);
    SortPermutes(xs);
    KeySetMembers(s);
    KeySetMembers(xs);
    forall k | k in KeySet(s) ensures k in KeySet(xs) {
      var i :| 0 <= i < |s| && Key(s[i]) == k;
      assert s[i] in multiset(xs);
      var j :| 0 <= j < |xs| && xs[j] == s[i];
    }
    forall k | k in KeySet(xs) ensures k in KeySet(s) {
      var i :| 0 <= i < |xs| && Key(xs[i]) == k;
      assert xs[i] in multiset(s);
      var j :| 0 <= j < |s| && s[j] == xs[i];
    }
  }

  /**
   * The emitted items are the sorted input with items deleted, in name
   * order, with pairwise distinct lower-cased names, together covering
   * every lower-cased name of the input; an item is kept exactly when it
   * is the first of its lower-cased name in the sorted input.
   */
  lemma CatalogSpec(items: seq<FoodItem>)
    ensures IsSubsequence(Catalog(items), SortByName(items))
    ensures SortedByName(Catalog(items))
    ensures forall i, j :: 0 <= i < j < |Catalog(items)| ==> Key(Catalog(items)[i]) != Key(Catalog(items)[j])
    ensures KeySet(Catalog(items)) == KeySet(items)
    ensures forall y :: y in Catalog(items) <==>
              exists i :: 0 <= i < |SortByName(items)| && SortByName(items)[i] == y && FirstWithKey(SortByName(items), i)
    ensures forall y :: y in Catalog(items) ==> y in items
  {
    var s := SortByName(items);
    FirstOfEachKeySubsequence(s);
    SortSorted(items);
    SubsequenceSorted(Catalog(items), s);
    FirstOfEachKeyDistinct(s);
    FirstOfEachKeyKeys(s);
    SortKeys(items);
    FirstOfEachKeyFirst(s);
    SubsequenceMembers(Catalog(items), s);
    SortPermutes(items);
    forall y | y in Catalog(items) ensures y in items {
      assert y in multiset(s);
    }
  }

  // ----- Escaping a name for a single-quoted literal -----

  /** `s.replace(/c/g, t)` for a one-character pattern. */
  function ReplaceChar(s: string, c: char, t: string): string {
    if s == [] then [] else ReplaceChar(s[..|s| - 1], c, t) + (if s[|s| - 1] == c then t else [s[|s| - 1]])
  }

  /** Backslashes doubled first, then each quote given a backslash. */
  function EscapeName(s: string): string {
    ReplaceChar(ReplaceChar(s, '\\', "\\\\"), '\'', "\\'")
  }

  /** What either step makes of one character. */
  function EscapeChar(c: char): string {
    if c == '\\' then "\\\\" else if c == '\'' then "\\'" else [c]
  }

  /** Escaping character by character, from the front. */
  function EscapeEach(s: string): string {
    if s == [] then [] else EscapeChar(s[0]) + EscapeEach(s[1..])
  }

  lemma {:induction false} ReplaceCharAppend(a: string, b: string, c: char, t: string)
    ensures ReplaceChar(a + b, c, t) == ReplaceChar(a, c, t) + ReplaceChar(b, c, t)
    decreases |b|
  {
    if b == [] {
      assert a + b == a;
    } else {
      var b' := b[..|b| - 1];
      assert (a + b)[..|a + b| - 1] == a + b';
      assert (a + b)[|a + b| - 1] == b[|b| - 1];
      ReplaceCharAppend(a, b', c, t);
    }
  }

  lemma ReplaceCharSingle(c: char, d: char, t: string)
    ensures ReplaceChar([c], d, t) == if c == d then t else [c]
  {
    assert [c][..0] == [];
  }

  lemma {:induction false} ReplaceCharAbsent(s: string, d: char, t: string)
    requires d !in s
    ensures ReplaceChar(s, d, t) == s
  {
    if s != [] {
      assert d !in s[..|s| - 1];
      ReplaceCharAbsent(s[..|s| - 1], d, t);
      assert s == s[..|s| - 1] + [s[|s| - 1]];
    }
  }

  lemma EscapeNameChar(c: char)
    ensures EscapeName([c]) == EscapeChar(c)
  {
    ReplaceCharSingle(c, '\\', "\\\\");
    if c == '\\' {
      ReplaceCharAbsent("\\\\", '\'', "\\'");
    } else {
      ReplaceCharSingle(c, '\'', "\\'");
    }
  }

  /** The two global replacements act character by character, and the second never touches the output of the first. */
  lemma {:induction false} EscapeNameIsEach(s: string)
    ensures EscapeName(s) == EscapeEach(s)
  {
    if s != [] {
      EscapeNameIsEach(s[1..]);
      assert s == [s[0]] + s[1..];
      ReplaceCharAppend([s[0]], s[1..], '\\', "\\\\");
      ReplaceCharAppend(ReplaceChar([s[0]], '\\', "\\\\"), ReplaceChar(s[1..], '\\', "\\\\"), '\'', "\\'");
      EscapeNameChar(s[0]);
    }
  }

  /** Every backslash and quote of the text is part of a two-character escape. */
  predicate EscapedWell(t: string)
    decreases |t|
  {
    t == [] ||
    (t[0] == '\\' && |t| >= 2 && (t[1] == '\\' || t[1] == '\'') && EscapedWell(t[2..])) ||
    (t[0] != '\\' && t[0] != '\'' && EscapedWell(t[1..]))
  }

  lemma {:induction false} EscapeEachWell(s: string)
    ensures EscapedWell(EscapeEach(s))
  {
    if s != [] {
      EscapeEachWell(s[1..]);
      var t := EscapeEach(s);
      if s[0] == '\\' || s[0] == '\'' {
        assert t[2..] == EscapeEach(s[1..]);
      } else {
        assert t[1..] == EscapeEach(s[1..]);
      }
    }
  }

  /** In each emitted name, every backslash and quote carries an escaping backslash. */
  lemma EscapeNameWell(s: string)
    ensures EscapedWell(EscapeName(s))
  {
    EscapeNameIsEach(s);
    EscapeEachWell(s);
  }

  /**
   * How a JavaScript engine reads the body of a single-quoted literal (the
   * two escapes `\\` and `\'` only): the characters up to the closing quote,
   * and the text after it; `None` for a line break, a missing closing quote
   * or any other escape.
   */
  function ReadLiteral(t: string): Option<(string, string)>
    decreases |t|
  {
    if t == [] || t[0] == '\n' || t[0] == '\r' then None
    else if t[0] == '\'' then Some(([], t[1..]))
    else if t[0] == '\\' then
      if |t| >= 2 && (t[1] == '\\' || t[1] == '\'') then
        match ReadLiteral(t[2..])
        case None => None
        case Some(p) => Some(([t[1]] + p.0, p.1))
      else None
    else
      match ReadLiteral(t[1..])
      case None => None
      case Some(p) => Some(([t[0]] + p.0, p.1))
  }

  lemma {:induction false} ReadEscapeEach(n: string, rest: string)
    requires '\n' !in n && '\r' !in n
    ensures ReadLiteral(EscapeEach(n) + "'" + rest) == Some((n, rest))
  {
    var t := EscapeEach(n) + "'" + rest;
    if n == [] {
      assert t == "'" + rest;
    } else {
      ReadEscapeEach(n[1..], rest);
      var u := EscapeEach(n[1..]) + "'" + rest;
      assert t == EscapeChar(n[0]) + u;
      ReadEscapedChar(n[0], u, n[1..], rest);
      assert n == [n[0]] + n[1..];
    }
  }

  /** One escaped character in front of a literal that reads as `(m, rest)`. */
  lemma ReadEscapedChar(c: char, u: string, m: string, rest: string)
    requires c != '\n' && c != '\r'
    requires ReadLiteral(u) == Some((m, rest))
    ensures ReadLiteral(EscapeChar(c) + u) == Some(([c] + m, rest))
  {
    var t := EscapeChar(c) + u;
    if c == '\\' || c == '\'' {
      assert t[2..] == u;
    } else {
      assert t[1..] == u;
    }
  }

  /** Reading back an escaped name gives the name, and stops at the quote that follows it. */
  lemma ReadEscapedName(n: string, rest: string)
    requires '\n' !in n && '\r' !in n
    ensures ReadLiteral(EscapeName(n) + "'" + rest) == Some((n, rest))
  {
    EscapeNameIsEach(n);
    ReadEscapeEach(n, rest);
  }

  // ----- Printing the purine value -----

  function DigitChar(d: int): (c: char)
    requires 0 <= d < 10
    ensures IsDigit(c) && c as int - '0' as int == d
  {
    ('0' as int + d) as char
  }

  /** The decimal digits of `n`, most significant first, without leading zeros. */
  function NatText(n: nat): (r: string)
    ensures |r| >= 1 && forall i :: 0 <= i < |r| ==> IsDigit(r[i])
  {
    if n < 10 then [DigitChar(n)] else NatText(n / 10) + [DigitChar(n % 10)]
  }

  /** The number a string of decimal digits denotes. */
  function DigitsValue(s: string): nat
    requires forall i :: 0 <= i < |s| ==> IsDigit(s[i])
  {
    if s == [] then 0
    else
      assert IsDigit(s[|s| - 1]);
      DigitsValue(s[..|s| - 1]) * 10 + (s[|s| - 1] as int - '0' as int)
  }

  lemma {:induction false} NatTextValue(n: nat)
    ensures DigitsValue(NatText(n)) == n
    ensures n != 0 ==> NatText(n)[0] != '0'
  {
    if n >= 10 {
      NatTextValue(n / 10);
      var r := NatText(n);
      assert r[..|r| - 1] == NatText(n / 10);
    }
  }

  /** How a template literal prints an integer. */
  function IntText(i: int): string {
    if i < 0 then "-" + NatText(-i) else NatText(i)
  }

  /** `${item.purines}`: the number, or `null` for a missing value. */
  function PurinesText(p: Option<int>): string {
    match p
    case None => "null"
    case Some(i) => IntText(i)
  }

  /** Reading a printed integer back: an optional minus sign and at least one digit. */
  function ReadInt(s: string): Option<int> {
    if s != [] && s[0] == '-' && |s| >= 2 && (forall i :: 1 <= i < |s| ==> IsDigit(s[i])) then Some(0 - DigitsValue(s[1..]) as int)
    else if s != [] && (forall i :: 0 <= i < |s| ==> IsDigit(s[i])) then Some(DigitsValue(s))
    else None
  }

  lemma IntTextRoundTrip(i: int)
    ensures ReadInt(IntText(i)) == Some(i)
  {
    if i < 0 {
      NatTextValue(-i);
      ReadNegative(NatText(-i), -i);
    } else {
      NatTextValue(i);
      ReadDigits(NatText(i), i);
    }
  }

  lemma ReadNegative(t: string, n: nat)
    requires |t| >= 1 && (forall k :: 0 <= k < |t| ==> IsDigit(t[k])) && DigitsValue(t) == n
    ensures ReadInt("-" + t) == Some(0 - n as int)
  {
    var s := "-" + t;
    assert s[1..] == t;
    assert forall k :: 1 <= k < |s| ==> s[k] == t[k - 1];
  }

  lemma ReadDigits(t: string, n: nat)
    requires |t| >= 1 && (forall k :: 0 <= k < |t| ==> IsDigit(t[k])) && DigitsValue(t) == n
    ensures ReadInt(t) == Some(n)
  {
    assert IsDigit(t[0]);
  }

  /** Distinct purine values print differently. */
  lemma PurinesTextInjective(p: Option<int>, q: Option<int>)
    requires PurinesText(p) == PurinesText(q)
    ensures p == q
  {
    if p.Some? {
      IntTextRoundTrip(p.value);
    }
    if q.Some? {
      IntTextRoundTrip(q.value);
    }
  }

  // ----- The item lines and the file -----

  /** The text of an item line up to its name literal. */
  const NamePrefix := "  { name: '"

  /** The rest of an item line: the closing quote of the name is just before it. */
  function ItemTail(item: FoodItem): string {
    ", purines: " + PurinesText(item.purines) + ", category: '" + item.category.Label() +
    "', purineLevel: '" + item.purineLevel.Label() + "' }"
  }

  /** One element of the emitted array. */
  function ItemLine(item: FoodItem): string {
    NamePrefix + EscapeName(item.name) + "'" + ItemTail(item)
  }

  /**
   * The name literal of an item line reads back as the item's name, and the
   * literal ends where the rest of the line begins.
   */
  lemma ItemLineName(item: FoodItem)
    requires '\n' !in item.name && '\r' !in item.name
    ensures StartsWith(ItemLine(item), NamePrefix)
    ensures ReadLiteral(ItemLine(item)[|NamePrefix|..]) == Some((item.name, ItemTail(item)))
  {
    assert ItemLine(item)[|NamePrefix|..] == EscapeName(item.name) + "'" + ItemTail(item);
    ReadEscapedName(item.name, ItemTail(item));
  }

  function ItemLines(items: seq<FoodItem>): (r: seq<string>)
    ensures |r| == |items| && forall k :: 0 <= k < |items| ==> r[k] == ItemLine(items[k])
  {
    seq(|items|, k requires 0 <= k < |items| => ItemLine(items[k]))
  }

  const FileHead := "import type { FoodItem } from './types';\n\nexport const foodData: FoodItem[] = [\n"
  const FileTail := ",\n];\n"

  /** The generated module: the item lines separated by a comma and a line break. */
  function FileText(items: seq<FoodItem>): string {
    FileHead + Join(ItemLines(items), ",\n") + FileTail
  }

  /** One more item for the `seen` loop: its key is added, and the item is kept when the key is new. */
  lemma DedupStep(s: seq<FoodItem>, i: nat)
    requires i < |s|
    ensures KeySet(s[..i + 1]) == KeySet(s[..i]) + {Key(s[i])}
    ensures FirstOfEachKey(s[..i + 1]) ==
              if Key(s[i]) in KeySet(s[..i]) then FirstOfEachKey(s[..i]) else FirstOfEachKey(s[..i]) + [s[i]]
  {
    assert s[..i + 1][..i] == s[..i];
  }

  /**
   * `generateTypeScriptFile`: sort, then the loop that keeps an item when
   * its lower-cased name is not yet in `seen`, then the text.
   */
  method GenerateTypeScriptFile(items: seq<FoodItem>) returns (text: string)
    ensures text == FileText(Catalog(items))
  {
    var sorted := SortByName(items);
    var uniqueItems: seq<FoodItem> := [];
    var seen: set<string> := {};
    for i := 0 to |sorted|
      invariant seen == KeySet(sorted[..i])
      invariant uniqueItems == FirstOfEachKey(sorted[..i])
    {
      DedupStep(sorted, i);
      var key := Lower(sorted[i].name);
      if key !in seen {
        seen := seen + {key};
        uniqueItems := uniqueItems + [sorted[i]];
      }
    }
    assert sorted[..|sorted|] == sorted;
    text := FileText(uniqueItems);
  }
}
