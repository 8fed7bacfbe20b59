/**
 * `parseCSVLine`: a comma splitter in which every `"` toggles an in-quotes
 * flag and is dropped, commas inside quotes are kept, and each field is
 * trimmed. A doubled quote is not an escaped quote (unlike section 2 of
 * RFC 4180): it toggles the flag twice.
 */
module CsvLine {
  import opened Text

  /** The loop state of `parseCSVLine` before a field is trimmed and pushed. */
  datatype ScanState = ScanState(done: seq<string>, current: string, inQuotes: bool)

  /** One iteration of the character loop. */
  function Step(st: ScanState, c: char): ScanState {
    if c == '"' then st.(inQuotes := !st.inQuotes)
    else if c == ',' && !st.inQuotes then ScanState(st.done + [st.current], "", st.inQuotes)
    else st.(current := st.current + [c])
  }

  /** The state after the loop has consumed `s`. */
  function Scan(s: string): ScanState {
    if s == [] then ScanState([], "", false) else Step(Scan(s[..|s| - 1]), s[|s| - 1])
  }

  /** The fields before trimming. */
  function RawFields(line: string): seq<string> {
    Scan(line).done + [Scan(line).current]
  }

  function TrimAll(xs: seq<string>): (r: seq<string>)
    ensures |r| == |xs| && forall k :: 0 <= k < |xs| ==> r[k] == Trim(xs[k])
  {
    if xs == [] then [] else TrimAll(xs[..|xs| - 1]) + [Trim(xs[|xs| - 1])]
  }

  lemma TrimAllTrimmed(xs: seq<string>)
    requires forall k :: 0 <= k < |xs| ==> Trim(xs[k]) == xs[k]
    ensures TrimAll(xs) == xs
  {
    var r := TrimAll(xs);
    assert forall k :: 0 <= k < |xs| ==> r[k] == xs[k];
  }

  /** The fields `parseCSVLine` returns. */
  function LineFields(line: string): seq<string> {
    TrimAll(RawFields(line))
  }

  /** `parseCSVLine`, loop for loop. */
  method ParseCsvLine(line: string) returns (fields: seq<string>)
    ensures fields == LineFields(line)
  {
    fields := [];
    var current := "";
    var inQuotes := false;
    for i := 0 to |line|
      invariant current == Scan(line[..i]).current
      invariant inQuotes == Scan(line[..i]).inQuotes
      invariant fields == TrimAll(Scan(line[..i]).done)
    {
      ScanPrefix(line, i);
      var c := line[i];
      if c == '"' {
        inQuotes := !inQuotes;
      } else if c == ',' && !inQuotes {
        TrimAllSnoc(Scan(line[..i]).done, current);
        fields := fields + [Trim(current)];
        current := "";
      } else {
        current := current + [c];
      }
    }
    assert line[..|line|] == line;
    TrimAllSnoc(Scan(line).done, current);
    fields := fields + [Trim(current)];
  }

  lemma ScanPrefix(line: string, i: nat)
    requires i < |line|
    ensures Scan(line[..i + 1]) == Step(Scan(line[..i]), line[i])
  {
    assert line[..i + 1][..i] == line[..i];
  }

  lemma TrimAllSnoc(xs: seq<string>, x: string)
    ensures TrimAll(xs + [x]) == TrimAll(xs) + [Trim(x)]
  {
    assert (xs + [x])[..|xs|] == xs;
  }

  // ----- Reference counts over the characters of a line -----

  /** The number of `"` characters in `s`. */
  function QuoteCount(s: string): nat {
    if s == [] then 0 else QuoteCount(s[..|s| - 1]) + (if s[|s| - 1] == '"' then 1 else 0)
  }

  /** The number of commas in `s` preceded by an even number of quotes. */
  function UnquotedCommas(s: string): nat {
    if s == [] then 0
    else
      var unquotedComma := s[|s| - 1] == ',' && QuoteCount(s[..|s| - 1]) % 2 == 0;
      UnquotedCommas(s[..|s| - 1]) + (if unquotedComma then 1 else 0)
  }

  /** `s` with every `"` deleted. */
  function DeleteQuotes(s: string): string {
    if s == [] then [] else DeleteQuotes(s[..|s| - 1]) + (if s[|s| - 1] == '"' then [] else [s[|s| - 1]])
  }

  lemma {:induction false} DeleteQuotesNoQuotes(s: string)
    requires '"' !in s
    ensures DeleteQuotes(s) == s
  {
    if s != [] {
      DeleteQuotesNoQuotes(s[..|s| - 1]);
      assert s == s[..|s| - 1] + [s[|s| - 1]];
    }
  }

  lemma JoinExtendLast(xs: seq<string>, y: string, t: string, sep: string)
    ensures Join(xs + [y + t], sep) == Join(xs + [y], sep) + t
  {
    if xs == [] {
    } else {
      JoinSnoc(xs, y + t, sep);
      JoinSnoc(xs, y, sep);
    }
  }

  /**
   * The loop state after any prefix: the flag is the parity of the quotes
   * seen, one field was closed per comma outside quotes, the raw fields
   * joined by commas are the input without its quotes, no raw field holds a
   * quote, and without quotes no raw field holds a comma.
   */
  lemma ScanFacts(s: string)
    ensures Scan(s).inQuotes == (QuoteCount(s) % 2 == 1)
    ensures |Scan(s).done| == UnquotedCommas(s)
    ensures Join(RawFields(s), ",") == DeleteQuotes(s)
    ensures forall f :: f in RawFields(s) ==> '"' !in f
    ensures '"' !in s ==> QuoteCount(s) == 0
    ensures '"' !in s ==> forall f :: f in RawFields(s) ==> ',' !in f
  {
    ScanCounts(s);
    ScanJoin(s);
    ScanFieldsClean(s);
  }

  lemma {:induction false} ScanCounts(s: string)
    ensures Scan(s).inQuotes == (QuoteCount(s) % 2 == 1)
    ensures |Scan(s).done| == UnquotedCommas(s)
    ensures '"' !in s ==> QuoteCount(s) == 0
  {
    if s != [] {
      var init := s[..|s| - 1];
      ScanCounts(init);
      assert '"' !in s ==> '"' !in init by {
        assert s == init + [s[|s| - 1]];
      }
    }
  }

  lemma {:induction false} ScanJoin(s: string)
    ensures Join(RawFields(s), ",") == DeleteQuotes(s)
  {
    if s != [] {
      var init := s[..|s| - 1];
      var c := s[|s| - 1];
      ScanJoin(init);
      var st := Scan(init);
      if c == '"' {
      } else if c == ',' && !st.inQuotes {
        JoinSnoc(st.done + [st.current], "", ",");
        assert RawFields(s) == st.done + [st.current] + [""];
      } else {
        JoinExtendLast(st.done, st.current, [c], ",");
        assert RawFields(s) == st.done + [st.current + [c]];
      }
    }
  }

  lemma {:induction false} ScanFieldsClean(s: string)
    ensures forall f :: f in RawFields(s) ==> '"' !in f
    ensures '"' !in s ==> forall f :: f in RawFields(s) ==> ',' !in f
  {
    if s != [] {
      var init := s[..|s| - 1];
      var c := s[|s| - 1];
      ScanFieldsClean(init);
      ScanCounts(init);
      var st := Scan(init);
      assert '"' !in s ==> '"' !in init by {
        assert s == init + [c];
      }
      if c == '"' {
      } else if c == ',' && !st.inQuotes {
        assert RawFields(s) == st.done + [st.current] + [""];
      } else {
        assert RawFields(s) == st.done + [st.current + [c]];
        assert forall f :: f in RawFields(s) ==> f in st.done || f == st.current + [c];
      }
    }
  }

  // ----- What parseCSVLine promises -----

  /**
   * There is one field more than there are commas outside quotes; no field
   * holds a quote; every field is trimmed; the fields are the raw fields,
   * trimmed, and a comma inside quotes stays in its raw field: the raw
   * fields joined by commas give back the line without its quotes.
   */
  lemma LineFieldsShape(line: string)
    ensures |LineFields(line)| == 1 + UnquotedCommas(line)
    ensures |LineFields(line)| == |RawFields(line)|
    ensures forall k :: 0 <= k < |LineFields(line)| ==> LineFields(line)[k] == Trim(RawFields(line)[k])
    ensures forall k :: 0 <= k < |LineFields(line)| ==> '"' !in LineFields(line)[k] && IsTrimmed(LineFields(line)[k])
    ensures Join(RawFields(line), ",") == DeleteQuotes(line)
  {
    ScanFacts(line);
    var raw := RawFields(line);
    forall k | 0 <= k < |raw| ensures '"' !in Trim(raw[k]) && IsTrimmed(Trim(raw[k])) {
      TrimProperties(raw[k]);
      assert raw[k] in raw;
      var i, j :| 0 <= i <= j <= |raw[k]| && Trim(raw[k]) == raw[k][i..j];
      assert forall x :: x in raw[k][i..j] ==> x in raw[k];
    }
  }

  /** No whitespace at either end of `s`, and none next to a comma. */
  predicate NoPadding(s: string) {
    forall k :: 0 <= k < |s| && IsSpace(s[k]) ==> 0 < k < |s| - 1 && s[k - 1] != ',' && s[k + 1] != ','
  }

  lemma {:induction false} PartsTrimmed(xs: seq<string>)
    requires xs != []
    requires forall x :: x in xs ==> ',' !in x
    requires NoPadding(Join(xs, ","))
    ensures forall x :: x in xs ==> IsTrimmed(x)
  {
    var s := Join(xs, ",");
    var x := xs[0];
    if |xs| > 1 {
      var rest := Join(xs[1..], ",");
      assert s == x + "," + rest;
      assert s[|x|] == ',';
      if x != [] {
        assert s[0] == x[0] && s[|x| - 1] == x[|x| - 1];
      }
      assert NoPadding(rest) by {
        forall k | 0 <= k < |rest| && IsSpace(rest[k])
          ensures 0 < k < |rest| - 1 && rest[k - 1] != ',' && rest[k + 1] != ','
        {
          var K := k + |x| + 1;
          assert s[K] == rest[k];
          assert K != |x|;
          if k > 0 {
            assert s[K - 1] == rest[k - 1];
          }
          if k + 1 < |rest| {
            assert s[K + 1] == rest[k + 1];
          }
        }
      }
      forall y | y in xs[1..] ensures ',' !in y {
        assert y in xs;
      }
      PartsTrimmed(xs[1..]);
      assert forall y :: y in xs ==> y == x || y in xs[1..];
    }
  }

  /**
   * Round trip, parse then print: a line without quotes and without
   * whitespace at its ends or next to a comma is its fields joined by commas.
   */
  lemma ParseThenJoin(line: string)
    requires '"' !in line
    requires NoPadding(line)
    ensures Join(LineFields(line), ",") == line
  {
    ScanFacts(line);
    DeleteQuotesNoQuotes(line);
    var raw := RawFields(line);
    PartsTrimmed(raw);
    forall k | 0 <= k < |raw| ensures Trim(raw[k]) == raw[k] {
      assert raw[k] in raw;
      TrimProperties(raw[k]);
    }
    TrimAllTrimmed(raw);
  }

  // ----- Print then parse -----

  /** A field as it is written in a line, optionally between quotes. */
  datatype Cell = Cell(text: string, quoted: bool)

  function CellText(c: Cell): string {
    if c.quoted then "\"" + c.text + "\"" else c.text
  }

  /** A field that reads back as itself: no quote, trimmed, a comma only when quoted. */
  predicate SafeCell(c: Cell) {
    '"' !in c.text && IsTrimmed(c.text) && (c.quoted || ',' !in c.text)
  }

  function CellTexts(cells: seq<Cell>): (r: seq<string>)
    ensures |r| == |cells| && forall k :: 0 <= k < |cells| ==> r[k] == CellText(cells[k])
  {
    seq(|cells|, k requires 0 <= k < |cells| => CellText(cells[k]))
  }

  function Texts(cells: seq<Cell>): (r: seq<string>)
    ensures |r| == |cells| && forall k :: 0 <= k < |cells| ==> r[k] == cells[k].text
  {
    seq(|cells|, k requires 0 <= k < |cells| => cells[k].text)
  }

  /** The line that holds `cells`, separated by commas. */
  function RenderRow(cells: seq<Cell>): string {
    Join(CellTexts(cells), ",")
  }

  lemma {:induction false} ScanPlain(p: string, t: string)
    requires '"' !in t
    requires Scan(p).inQuotes || ',' !in t
    ensures Scan(p + t) == Scan(p).(current := Scan(p).current + t)
    decreases |t|
  {
    if t == [] {
      assert p + t == p;
    } else {
      var t' := t[..|t| - 1];
      assert '"' !in t' && (Scan(p).inQuotes || ',' !in t') by {
        assert t == t' + [t[|t| - 1]];
      }
      ScanPlain(p, t');
      assert (p + t)[..|p + t| - 1] == p + t';
      assert t' + [t[|t| - 1]] == t;
    }
  }

  lemma ScanQuote(p: string)
    ensures Scan(p + "\"") == Scan(p).(inQuotes := !Scan(p).inQuotes)
  {
    assert (p + "\"")[..|p|] == p;
  }

  lemma ScanCell(p: string, c: Cell)
    requires SafeCell(c) && !Scan(p).inQuotes
    ensures Scan(p + CellText(c)) == Scan(p).(current := Scan(p).current + c.text)
  {
    if c.quoted {
      ScanQuote(p);
      ScanPlain(p + "\"", c.text);
      ScanQuote(p + "\"" + c.text);
      assert p + CellText(c) == p + "\"" + c.text + "\"";
    } else {
      ScanPlain(p, c.text);
    }
  }

  lemma {:induction false} ScanRow(cells: seq<Cell>)
    requires cells != []
    requires forall c :: c in cells ==> SafeCell(c)
    ensures Scan(RenderRow(cells)) == ScanState(Texts(cells)[..|cells| - 1], cells[|cells| - 1].text, false)
  {
    var n := |cells|;
    if n == 1 {
      assert RenderRow(cells) == [] + CellText(cells[0]);
      assert Scan([]) == ScanState([], [], false);
      ScanCell([], cells[0]);
    } else {
      var init := cells[..n - 1];
      var c := cells[n - 1];
      assert forall d :: d in init ==> d in cells;
      ScanRow(init);
      ScanRowStep(cells);
    }
  }

  /** Adding a safe field after a comma to a row the scanner has read. */
  lemma ScanRowStep(cells: seq<Cell>)
    requires |cells| > 1 && SafeCell(cells[|cells| - 1])
    requires var init := cells[..|cells| - 1];
             Scan(RenderRow(init)) == ScanState(Texts(init)[..|init| - 1], init[|init| - 1].text, false)
    ensures Scan(RenderRow(cells)) == ScanState(Texts(cells)[..|cells| - 1], cells[|cells| - 1].text, false)
  {
    var c := cells[|cells| - 1];
    RenderSnoc(cells);
    var p := RenderRow(cells[..|cells| - 1]);
    ScanComma(p);
    ScanCell(p + ",", c);
    assert "" + c.text == c.text;
    TextsSnoc(cells);
  }

  lemma ScanComma(p: string)
    requires !Scan(p).inQuotes
    ensures Scan(p + ",") == ScanState(Scan(p).done + [Scan(p).current], "", false)
  {
    assert (p + ",")[..|p|] == p;
  }

  lemma RenderSnoc(cells: seq<Cell>)
    requires |cells| > 1
    ensures RenderRow(cells) == RenderRow(cells[..|cells| - 1]) + "," + CellText(cells[|cells| - 1])
  {
    var init := cells[..|cells| - 1];
    assert CellTexts(cells) == CellTexts(init) + [CellText(cells[|cells| - 1])];
    JoinSnoc(CellTexts(init), CellText(cells[|cells| - 1]), ",");
  }

  lemma TextsSnoc(cells: seq<Cell>)
    requires |cells| > 1
    ensures Texts(cells)[..|cells| - 1] == Texts(cells[..|cells| - 1])[..|cells| - 2] + [cells[|cells| - 2].text]
  {
    var n := |cells|;
    var ti := Texts(cells[..n - 1]);
    assert ti == ti[..n - 2] + [cells[n - 2].text];
    assert Texts(cells)[..n - 1] == ti;
  }

  /**
   * Round trip, print then parse: writing safe fields (quoted where they
   * hold a comma) separated by commas and parsing the line gives the fields.
   */
  lemma JoinThenParse(cells: seq<Cell>)
    requires cells != []
    requires forall c :: c in cells ==> SafeCell(c)
    ensures LineFields(RenderRow(cells)) == Texts(cells)
  {
    RawFieldsOfRow(cells);
    var raw := Texts(cells);
    forall k | 0 <= k < |raw| ensures Trim(raw[k]) == raw[k] {
      assert cells[k] in cells;
      TrimProperties(cells[k].text);
    }
    TrimAllTrimmed(raw);
  }

  lemma RawFieldsOfRow(cells: seq<Cell>)
    requires cells != []
    requires forall c :: c in cells ==> SafeCell(c)
    ensures RawFields(RenderRow(cells)) == Texts(cells)
  {
    ScanRow(cells);
    var n := |cells|;
    assert Texts(cells) == Texts(cells)[..n - 1] + [cells[n - 1].text];
  }

  /** A quoted comma stays inside its field; the other two separate fields. */
  lemma QuotedCommaExample()
    ensures LineFields("a,\"b,c\",d") == ["a", "b,c", "d"]
  {
    var cells := ExampleCells();
    RenderExample(cells);
    JoinThenParse(cells);
    ExampleTexts(cells);
  }

  lemma ExampleTexts(cells: seq<Cell>)
    requires cells == ExampleCells()
    ensures Texts(cells) == ["a", "b,c", "d"]
  {
  }

  function ExampleCells(): (r: seq<Cell>)
    ensures |r| == 3 && forall c :: c in r ==> SafeCell(c)
  {
    [Cell("a", false), Cell("b,c", true), Cell("d", false)]
  }

  lemma RenderExample(cells: seq<Cell>)
    requires cells == ExampleCells()
    ensures RenderRow(cells) == "a,\"b,c\",d"
  {
    var ts := CellTexts(cells);
    assert CellText(cells[1]) == "\"" + "b,c" + "\"";
    assert ts[0] == "a" && ts[1] == "\"b,c\"" && ts[2] == "d";
    assert ts == ["a", "\"b,c\"", "d"];
    assert Join(ts[2..], ",") == "d";
    assert Join(ts[1..], ",") == "\"b,c\",d";
  }

  /** A doubled quote toggles twice and disappears: not RFC 4180's escaped quote. */
  lemma DoubledQuoteExample()
    ensures LineFields("\"a\"\"b\"") == ["ab"]
  {
    var cells := [Cell("a", true), Cell("b", true)];
    ScanCell([], cells[0]);
    assert [] + CellText(cells[0]) == "\"a\"";
    ScanCell("\"a\"", cells[1]);
    assert "\"a\"" + CellText(cells[1]) == "\"a\"\"b\"";
    assert Scan("\"a\"\"b\"") == ScanState([], "ab", false);
    assert RawFields("\"a\"\"b\"") == ["ab"];
    TrimProperties("ab");
  }
}
