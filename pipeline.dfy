/**
 * `main` of the catalog builder as a function of its inputs: the listing of
 * the data directory, the listing of each folder, the text of each file and
 * the number parser. Writing the output file and the console messages are
 * not modelled; the result is the text that would be written, or the error
 * that ends the run.
 */
module Pipeline {
  import opened Wrappers
  import opened Text
  import opened FoodTypes
  import opened BuildTypes
  import opened DataFolder
  import opened CsvParse
  import opened CatalogEmit

  /** `f.includes(word) && f.endsWith('.csv')`. */
  predicate IsCsvFor(f: string, word: string) {
    Contains(f, word) && EndsWith(f, ".csv")
  }

  /** The index of the first file matching `word` at or after `from`. */
  function FirstCsvFrom(files: seq<string>, word: string, from: nat): (r: Option<nat>)
    requires from <= |files|
    ensures r.Some? ==> from <= r.value < |files| && IsCsvFor(files[r.value], word)
    ensures r.Some? ==> forall j :: from <= j < r.value ==> !IsCsvFor(files[j], word)
    ensures r.None? ==> forall j :: from <= j < |files| ==> !IsCsvFor(files[j], word)
    decreases |files| - from
  {
    if from == |files| then None
    else if IsCsvFor(files[from], word) then Some(from)
    else FirstCsvFrom(files, word, from + 1)
  }

  /** `files.find(...)`, failing with `missing` when no file matches. */
  function FindCsv(files: seq<string>, word: string, missing: BuildError): Result<string, BuildError> {
    match FirstCsvFrom(files, word, 0)
    case None => Failure(missing)
    case Some(i) => Success(files[i])
  }

  /** The snapshot folder and the food and alcohol files chosen in it. */
  datatype Sources = Sources(folder: string, foodFile: string, alcoholFile: string)

  /** The folder first, then the food file, then the alcohol file; the first missing one is the error. */
  function SelectSources(listing: seq<DirEntry>, listFolder: string -> seq<string>): Result<Sources, BuildError> {
    var folder :- FindLatestDataFolder(listing);
    var files := listFolder(folder);
    var food :- FindCsv(files, "food", FoodFileMissing);
    var alcohol :- FindCsv(files, "alcohol", AlcoholFileMissing);
    Success(Sources(folder, food, alcohol))
  }

  /** Both files are parsed, food first, and the items are concatenated, food items first. */
  function CollectItems(src: Sources, readFile: (string, string) -> string, num: string -> Option<real>): Result<seq<FoodItem>, BuildError> {
    var foodItems :- CsvItems(readFile(src.folder, src.foodFile), FoodSource, num);
    var alcoholItems :- CsvItems(readFile(src.folder, src.alcoholFile), AlcoholSource, num);
    Success(foodItems + alcoholItems)
  }

  /** A whole run: the text of the generated module, or the error the run stops with. */
  function Build(listing: seq<DirEntry>, listFolder: string -> seq<string>, readFile: (string, string) -> string,
                 num: string -> Option<real>): Result<string, BuildError> {
    var src :- SelectSources(listing, listFolder);
    var items :- CollectItems(src, readFile, num);
    Success(FileText(Catalog(items)))
  }

  /**
   * The chosen files: the first listed name containing the word and
   * ending in `.csv`; a run fails for the folder first, then the food file,
   * then the alcohol file.
   */
  lemma SelectSourcesSpec(listing: seq<DirEntry>, listFolder: string -> seq<string>)
    ensures FindLatestDataFolder(listing).Failure? ==> SelectSources(listing, listFolder) == Failure(NoDatedFolder)
    ensures FindLatestDataFolder(listing).Success? ==>
              var files := listFolder(FindLatestDataFolder(listing).value);
              (SelectSources(listing, listFolder) == Failure(FoodFileMissing) <==>
                 forall f :: f in files ==> !IsCsvFor(f, "food")) &&
              (SelectSources(listing, listFolder) == Failure(AlcoholFileMissing) <==>
                 (exists f :: f in files && IsCsvFor(f, "food")) && forall f :: f in files ==> !IsCsvFor(f, "alcohol")) &&
              (SelectSources(listing, listFolder).Success? ==>
                 var src := SelectSources(listing, listFolder).value;
                 src.folder == FindLatestDataFolder(listing).value &&
                 IsCsvFor(src.foodFile, "food") && IsCsvFor(src.alcoholFile, "alcohol") &&
                 src.foodFile in files && src.alcoholFile in files)
  {
    LatestFolderIsGreatest(listing);
    if FindLatestDataFolder(listing).Success? {
      var files := listFolder(FindLatestDataFolder(listing).value);
      var food := FirstCsvFrom(files, "food", 0);
      var alcohol := FirstCsvFrom(files, "alcohol", 0);
      if food.Some? {
        assert files[food.value] in files;
      }
      if alcohol.Some? {
        assert files[alcohol.value] in files;
      }
    }
  }

  /**
   * Once the sources are chosen, the run fails only for a missing header,
   * the food file's first; otherwise its output is the catalog of the food
   * items followed by the alcohol items, and every emitted item is well
   * formed.
   */
  lemma BuildSpec(listing: seq<DirEntry>, listFolder: string -> seq<string>, readFile: (string, string) -> string,
                  num: string -> Option<real>)
    requires SelectSources(listing, listFolder).Success?
    ensures var src := SelectSources(listing, listFolder).value;
            var food := CsvItems(readFile(src.folder, src.foodFile), FoodSource, num);
            var alcohol := CsvItems(readFile(src.folder, src.alcoholFile), AlcoholSource, num);
            (food.Failure? ==> Build(listing, listFolder, readFile, num) == Failure(HeaderMissing(FoodSource))) &&
            (food.Success? && alcohol.Failure? ==> Build(listing, listFolder, readFile, num) == Failure(HeaderMissing(AlcoholSource))) &&
            (food.Success? && alcohol.Success? ==>
               Build(listing, listFolder, readFile, num) == Success(FileText(Catalog(food.value + alcohol.value))) &&
               forall y :: y in Catalog(food.value + alcohol.value) ==>
                 WellFormedItem(y, FoodSource) && (y !in food.value ==> y.category == Beverages))
  {
    var src := SelectSources(listing, listFolder).value;
    var foodText := readFile(src.folder, src.foodFile);
    var alcoholText := readFile(src.folder, src.alcoholFile);
    var food := CsvItems(foodText, FoodSource, num);
    var alcohol := CsvItems(alcoholText, AlcoholSource, num);
    HeaderMissingIff(foodText, FoodSource, num);
    HeaderMissingIff(alcoholText, AlcoholSource, num);
    if food.Success? && alcohol.Success? {
      CsvItemsSpec(foodText, FoodSource, num);
      CsvItemsSpec(alcoholText, AlcoholSource, num);
      CatalogSpec(food.value + alcohol.value);
    }
  }
}
