/**
 * `parseCSV`: the USDA-style export is split into trimmed lines; the first
 * line that starts the column header fixes where data begins (two lines
 * further, past the units row); every later line is either rejected or
 * turned into one catalog item.
 *
 * The number parser `parseFloat` is a parameter `num`: `None` stands for
 * `NaN`, `Some(v)` for a finite value.
 */
module CsvParse {
  import opened Wrappers
  import opened Text
  import opened FoodTypes
  import opened BuildTypes
  import opened CsvLine
  import opened Classify
  import opened NameCleaning
  import opened Sequences

  // ----- Lines -----

  /** `replace(/\r$/, '')`. */
  function DropCR(s: string): string {
    if s != [] && s[|s| - 1] == '\r' then s[..|s| - 1] else s
  }

  /** `content.split('\n').map(line => line.trim().replace(/\r$/, ''))`. */
  function CsvLines(content: string): (r: seq<string>)
    ensures |r| == |Split(content, '\n')|
    ensures forall i :: 0 <= i < |r| ==> r[i] == DropCR(Trim(Split(content, '\n')[i]))
  {
    var pieces := Split(content, '\n');
    seq(|pieces|, i requires 0 <= i < |pieces| => DropCR(Trim(pieces[i])))
  }

  /** Every line is trimmed, so the carriage-return step never changes one. */
  lemma CsvLinesTrimmed(content: string)
    ensures forall i :: 0 <= i < |CsvLines(content)| ==>
              CsvLines(content)[i] == Trim(Split(content, '\n')[i]) && IsTrimmed(CsvLines(content)[i])
  {
    var pieces := Split(content, '\n');
    forall i | 0 <= i < |pieces| ensures CsvLines(content)[i] == Trim(pieces[i]) && IsTrimmed(Trim(pieces[i])) {
      TrimProperties(pieces[i]);
    }
  }

  // ----- The header line -----

  /** The column header of either export (the source kind does not matter). */
  predicate IsHeaderLine(line: string) {
    StartsWith(line, "Food Description,") || StartsWith(line, "Alcoholic Beverage Description,")
  }

  /** The index of the first header line at or after `from`. */
  function HeaderIndex(lines: seq<string>, from: nat): (r: Option<nat>)
    requires from <= |lines|
    ensures r.Some? ==> from <= r.value < |lines| && IsHeaderLine(lines[r.value])
    ensures r.Some? ==> forall j :: from <= j < r.value ==> !IsHeaderLine(lines[j])
    ensures r.None? ==> forall j :: from <= j < |lines| ==> !IsHeaderLine(lines[j])
    decreases |lines| - from
  {
    if from == |lines| then None
    else if IsHeaderLine(lines[from]) then Some(from)
    else HeaderIndex(lines, from + 1)
  }

  /** Where the data rows begin: two lines after the header, or the end. */
  function DataStart(h: nat, n: nat): nat {
    if h + 2 <= n then h + 2 else n
  }

  // ----- One data row -----

  /** Empty lines, footnotes and the sources note. */
  predicate SkippedLine(line: string) {
    line == [] || StartsWith(line, "1 ") || StartsWith(line, "2 ") || StartsWith(line, "*") ||
    StartsWith(line, "ND =") || Contains(line, "Sources of data")
  }

  /** The name column with one quote stripped at each end, trimmed. */
  function RowName(fields: seq<string>): string
    requires |fields| >= 1
  {
    Trim(StripOuterDoubleQuote(fields[0]))
  }

  /** The group-heading rows of the export: names, parts of names, prefixes and a suffix. */
  predicate IsSectionHeader(name: string) {
    name == [] || Contains(name, "Organ Products") || Contains(name, "other than organs") ||
    name == "Beverages" || name == "Dairy and Eggs" || name == "Finfish and shellfish" ||
    name == "Fruits" || name == "Legumes and legume products" || name == "Nuts and seeds" ||
    name == "Sausages and luncheon meats" || name == "Sweets" || name == "Vegetables" ||
    Contains(name, "(other than") || EndsWith(name, "products") || StartsWith(name, "Cereal grains") ||
    StartsWith(name, "Lamb, veal") || StartsWith(name, "Pork organ") || StartsWith(name, "Pork (other") ||
    StartsWith(name, "Poultry organ") || StartsWith(name, "Poultry (other") ||
    StartsWith(name, "Soups, sauces") || StartsWith(name, "Beef Organ") || StartsWith(name, "Beef (other") ||
    StartsWith(name, "Vegetarian meat")
  }

  /** A total-purines cell that is rejected before parsing. */
  predicate BlankPurines(cell: string) {
    cell == [] || cell == "ND" || cell == "-"
  }

  /** The item built from an accepted row whose column 18 parses as `v`. */
  function MakeItem(name: string, v: real, kind: SourceKind): FoodItem {
    FoodItem(CleanFoodName(name), Some(Round(v)), DetermineCategory(name, kind), DeterminePurineLevel(v))
  }

  /** What the row loop does with one line: `None` when it moves on. */
  function RowItem(line: string, kind: SourceKind, num: string -> Option<real>): Option<FoodItem> {
    if SkippedLine(line) then None else FieldsItem(LineFields(line), kind, num)
  }

  /** The conditions on the fields of a line that was not skipped. */
  function FieldsItem(fields: seq<string>, kind: SourceKind, num: string -> Option<real>): Option<FoodItem> {
    if |fields| < 19 then None
    else if IsSectionHeader(RowName(fields)) then None
    else if BlankPurines(fields[18]) then None
    else match num(fields[18])
      case None => None
      case Some(v) => Some(MakeItem(RowName(fields), v, kind))
  }

  /** `RowItem` for one source kind and number parser, as a function of the line. */
  function RowFn(kind: SourceKind, num: string -> Option<real>): string -> Option<FoodItem> {
    line => RowItem(line, kind, num)
  }

  /** The items of the accepted lines, in line order. */
  function RowItems(lines: seq<string>, kind: SourceKind, num: string -> Option<real>): (r: seq<FoodItem>)
    ensures |r| <= |lines|
  {
    FilterMap(lines, RowFn(kind, num))
  }

  /** The result of `parseCSV`: the missing header is the only error. */
  function CsvItems(content: string, kind: SourceKind, num: string -> Option<real>): Result<seq<FoodItem>, BuildError> {
    var lines := CsvLines(content);
    match HeaderIndex(lines, 0)
    case None => Failure(HeaderMissing(kind))
    case Some(h) => Success(RowItems(lines[DataStart(h, |lines|)..], kind, num))
  }

  /** The header search of `parseCSV`: the loop that breaks at the first header line. */
  method FindDataStart(lines: seq<string>) returns (dataStart: int)
    ensures dataStart == -1 <==> HeaderIndex(lines, 0).None?
    ensures dataStart != -1 ==> dataStart == HeaderIndex(lines, 0).value + 2
  {
    dataStart := -1;
    for i := 0 to |lines|
      invariant dataStart == -1
      invariant forall j :: 0 <= j < i ==> !IsHeaderLine(lines[j])
    {
      if StartsWith(lines[i], "Food Description,") || StartsWith(lines[i], "Alcoholic Beverage Description,") {
        dataStart := i + 2;
        break;
      }
    }
  }

  /** The body of the row loop: every `continue` is a `None`. */
  method ParseRow(line: string, kind: SourceKind, num: string -> Option<real>) returns (item: Option<FoodItem>)
    ensures item == RowItem(line, kind, num)
  {
    if line == [] || StartsWith(line, "1 ") || StartsWith(line, "2 ") || StartsWith(line, "*") ||
       StartsWith(line, "ND =") || Contains(line, "Sources of data") {
      return None;
    }
    var fields := ParseCsvLine(line);
    item := ParseFields(fields, kind, num);
  }

  /** The rest of the row loop body, once the line is split into fields. */
  method ParseFields(fields: seq<string>, kind: SourceKind, num: string -> Option<real>) returns (item: Option<FoodItem>)
    ensures item == FieldsItem(fields, kind, num)
  {
    if |fields| < 19 {
      return None;
    }
    var name := Trim(StripOuterDoubleQuote(fields[0]));
    if IsSectionHeader(name) {
      return None;
    }
    var totalPurines := fields[18];
    if totalPurines == [] || totalPurines == "ND" || totalPurines == "-" {
      return None;
    }
    var purines := num(totalPurines);
    if purines.None? {
      return None;
    }
    var food := BuildItem(name, purines.value, kind);
    item := Some(food);
  }

  /** The item pushed for an accepted row: category and level from the raw name and value. */
  method BuildItem(name: string, v: real, kind: SourceKind) returns (item: FoodItem)
    ensures item == MakeItem(name, v, kind)
  {
    var category := DetermineCategory(name, kind);
    var purineLevel := DeterminePurineLevel(v);
    var cleanName := CleanFoodName(name);
    item := FoodItem(cleanName, Some(Round(v)), category, purineLevel);
  }

  lemma RowItemsPrefix(lines: seq<string>, i: nat, kind: SourceKind, num: string -> Option<real>, y: Option<FoodItem>)
    requires i < |lines| && RowItem(lines[i], kind, num) == y
    ensures RowItems(lines[..i + 1], kind, num) == RowItems(lines[..i], kind, num) + (if y.Some? then [y.value] else [])
  {
    FilterMapPrefix(lines, i, RowFn(kind, num), y);
  }

  /** The row loop of `parseCSV`: each accepted line pushes its item. */
  method ParseRows(lines: seq<string>, kind: SourceKind, num: string -> Option<real>) returns (items: seq<FoodItem>)
    ensures items == RowItems(lines, kind, num)
  {
    items := [];
    for i := 0 to |lines|
      invariant items == RowItems(lines[..i], kind, num)
    {
      var item := ParseRow(lines[i], kind, num);
      RowItemsPrefix(lines, i, kind, num, item);
      if item.Some? {
        items := items + [item.value];
      }
    }
    assert lines[..|lines|] == lines;
  }

  /** `parseCSV`, loop for loop: the header search, then the row loop from the data start. */
  method ParseCsv(content: string, kind: SourceKind, num: string -> Option<real>) returns (r: Result<seq<FoodItem>, BuildError>)
    ensures r == CsvItems(content, kind, num)
  {
    var lines := CsvLines(content);
    var dataStart := FindDataStart(lines);
    if dataStart == -1 {
      return Failure(HeaderMissing(kind));
    }
    var lo := if dataStart <= |lines| then dataStart else |lines|;
    var items := ParseRows(lines[lo..], kind, num);
    r := Success(items);
  }

  // ----- What parseCSV promises -----

  /** It fails exactly when no line is a header line, and then with the missing-header error. */
  lemma HeaderMissingIff(content: string, kind: SourceKind, num: string -> Option<real>)
    ensures CsvItems(content, kind, num).Failure? <==>
              forall i :: 0 <= i < |CsvLines(content)| ==> !IsHeaderLine(CsvLines(content)[i])
    ensures CsvItems(content, kind, num).Failure? ==> CsvItems(content, kind, num).error == HeaderMissing(kind)
  {
  }

  /** The row loop is a fold: the items of two runs of lines are concatenated, in order. */
  lemma RowItemsAppend(a: seq<string>, b: seq<string>, kind: SourceKind, num: string -> Option<real>)
    ensures RowItems(a + b, kind, num) == RowItems(a, kind, num) + RowItems(b, kind, num)
  {
    FilterMapAppend(a, b, RowFn(kind, num));
  }

  /** Every item comes from one line, and every accepted line gives its item. */
  lemma RowItemsOrigin(lines: seq<string>, kind: SourceKind, num: string -> Option<real>)
    ensures forall item :: item in RowItems(lines, kind, num) <==>
              exists i :: 0 <= i < |lines| && RowItem(lines[i], kind, num) == Some(item)
  {
    var f := RowFn(kind, num);
    FilterMapMembers(lines, f);
    forall i | 0 <= i < |lines| ensures f(lines[i]) == RowItem(lines[i], kind, num) {
    }
  }

  /** The closed purine range that the stored, rounded value of each level lies in. */
  predicate RoundedInTier(p: int, l: PurineLevel) {
    (l == Low || TierStart(l) <= p as real) && (l == VeryHigh || p as real <= TierStart(l) + 100.0)
  }

  /** Rounding moves a value at most half a unit, so never out of its tier's closed range. */
  lemma RoundStaysInTier(v: real)
    ensures RoundedInTier(Round(v), DeterminePurineLevel(v))
  {
  }

  /** The properties every emitted item has. */
  predicate WellFormedItem(item: FoodItem, kind: SourceKind) {
    item.purines.Some? && RoundedInTier(item.purines.value, item.purineLevel) && IsTrimmed(item.name) &&
    (kind == AlcoholSource ==> item.category == Beverages)
  }

  /** The item of any accepted line is well formed. */
  lemma FieldsItemWellFormed(fields: seq<string>, kind: SourceKind, num: string -> Option<real>)
    ensures FieldsItem(fields, kind, num).Some? ==> WellFormedItem(FieldsItem(fields, kind, num).value, kind)
  {
    if FieldsItem(fields, kind, num).Some? {
      var v := num(fields[18]).value;
      CleanFoodNameSpec(RowName(fields));
      RoundStaysInTier(v);
    }
  }

  /** Every item of the row loop is well formed. */
  lemma RowItemsWellFormed(lines: seq<string>, kind: SourceKind, num: string -> Option<real>)
    ensures forall item :: item in RowItems(lines, kind, num) ==> WellFormedItem(item, kind)
  {
    var f := RowFn(kind, num);
    forall line | line in lines && f(line).Some? ensures WellFormedItem(f(line).value, kind) {
      if !SkippedLine(line) {
        FieldsItemWellFormed(LineFields(line), kind, num);
      }
    }
    FilterMapPreserves(lines, f, item => WellFormedItem(item, kind));
  }

  /** The data lines from `start` on yield only well-formed items, each from one of those lines. */
  lemma DataItemsSpec(lines: seq<string>, start: nat, kind: SourceKind, num: string -> Option<real>)
    requires start <= |lines|
    ensures forall item :: item in RowItems(lines[start..], kind, num) ==>
              WellFormedItem(item, kind) && exists i :: start <= i < |lines| && RowItem(lines[i], kind, num) == Some(item)
  {
    var data := lines[start..];
    RowItemsWellFormed(data, kind, num);
    RowItemsOrigin(data, kind, num);
    forall item | item in RowItems(data, kind, num) ensures exists i :: start <= i < |lines| && RowItem(lines[i], kind, num) == Some(item) {
      OriginInSuffix(lines, start, kind, num, item);
    }
  }

  /** A line of the data part is a line of the file, `start` further on. */
  lemma OriginInSuffix(lines: seq<string>, start: nat, kind: SourceKind, num: string -> Option<real>, item: FoodItem)
    requires start <= |lines|
    requires exists i :: 0 <= i < |lines| - start && RowItem(lines[start..][i], kind, num) == Some(item)
    ensures exists i :: start <= i < |lines| && RowItem(lines[i], kind, num) == Some(item)
  {
    var i :| 0 <= i < |lines| - start && RowItem(lines[start..][i], kind, num) == Some(item);
    assert lines[start..][i] == lines[start + i];
  }

  /**
   * A successful parse yields only items from lines at least two after the
   * first header line, and each item has a stored purine value inside its
   * level's range, a trimmed name, and, for the alcohol export, the
   * Beverages category.
   */
  lemma CsvItemsSpec(content: string, kind: SourceKind, num: string -> Option<real>)
    ensures CsvItems(content, kind, num).Success? ==>
              var lines := CsvLines(content);
              var h := HeaderIndex(lines, 0).value;
              forall item :: item in CsvItems(content, kind, num).value ==>
                WellFormedItem(item, kind) &&
                exists i :: h + 2 <= i < |lines| && RowItem(lines[i], kind, num) == Some(item)
  {
    var lines := CsvLines(content);
    match HeaderIndex(lines, 0)
    case None =>
    case Some(h) =>
      var start := DataStart(h, |lines|);
      assert CsvItems(content, kind, num) == Success(RowItems(lines[start..], kind, num));
      DataItemsSpec(lines, start, kind, num);
  }
}
