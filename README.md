# Purine catalog builder and food queries, in Dafny

This project models the logic of a gout-diet web application. It proves properties of that model.

Most of the logic is the offline builder `scripts/update-data.js`. It turns two USDA-style CSV exports into one TypeScript module holding the array `foodData` of `FoodItem` records. A food export and an alcohol export are taken from the newest dated snapshot folder. The builder's steps are these:

- choose the snapshot folder (`findLatestDataFolder`);
- split each line into fields (`parseCSVLine`);
- turn the accepted rows into items (`parseCSV`);
- classify each item by keyword (`determineCategory`);
- assign a purine tier (`determinePurineLevel`);
- rewrite the name (`cleanFoodName`);
- sort, de-duplicate and print the catalog (`generateTypeScriptFile`).

`main` is modelled as a function from its inputs to the generated text or to the error that stops the run. Its inputs are:

- the listing of the data directory, as `(name, isDir)` pairs;
- the listing of each folder;
- the text of each file;
- the number parser.

The application side has three small pure parts:

- the case-insensitive catalog search `searchFoodsAction`;
- the purine-level filter of the food list (`getFoods`);
- three helpers of the Firestore layer: the display name derived from an e-mail address, the display-name fallback of a new profile, and the diary-entry record.

Modules, one file each:

- `Wrappers`, `Text` (ASCII case mapping, `trim`, `split`, `join`, ordinal order) and `Sequences` (filtering, subsequences) are shared helpers.
- `FoodTypes` holds the records. `DataFolder`, `CsvLine`, `CsvParse`, `Classify`, `NameCleaning`, `CatalogEmit` and `Pipeline` model the builder.
- `Search`, `FoodList` and `FirestoreActions` model the application side.

The code that works by updating state is written as methods with loops and invariants:

- the character loop of `parseCSVLine` (`CsvLine.ParseCsvLine`);
- the header search with `break` (`CsvParse.FindDataStart`);
- the row loop of `parseCSV` (`CsvParse.ParseRows`, `CsvParse.ParseRow` and `CsvParse.ParseFields`);
- the `seen`-set loop of `generateTypeScriptFile` (`CatalogEmit.GenerateTypeScriptFile`).

Each method is proved equal to a function, and the properties are proved about that function.

Behaviour of the code worth noting:

- **Level from the unrounded value.** The purine level comes from the parsed value before rounding. So a row with 99.5 is stored as 100 but is Low (`Classify.RoundedAcrossThreshold`).
- **Annotations are not anchored.** The three `(unspecified)`-style annotations are removed at their first occurrence, not only at the end of the name.
- **The footnote pattern is not anchored at a word.** `raw<digits>` at the end of a name is removed even inside a word, so "straw" becomes "st" (`NameCleaning.StrawLosesRaw`).
- **Cleaned names can be empty.** A cleaned name can be empty: the name "raw" cleans to "" (`NameCleaning.RawOnlyExample`).
- **Some keywords can never decide.** "eggplant", "green beans" and "peanut" contain a keyword of an earlier rule, so no name containing them gets the category they are listed under (`Classify.ShadowedVegetableKeywords`, `Classify.ShadowedNutKeyword`).
- **`parseCSV` strips no quotes.** Its quote strip on the name never removes anything, because `parseCSVLine` has already deleted every `"` (`CsvLine.LineFieldsShape`).

## Model

| member | source | states |
|---|---|---|
| DataFolder.DatedFolders | scripts/update-data.js:18-21 | a name is kept exactly when it names a directory entry and matches `YYYY-MM-DD` |
| DataFolder.Greatest | scripts/update-data.js:22-29 | the chosen name is one of the names and none sorts after it |
| DataFolder.LatestFolderIsGreatest | scripts/update-data.js:17-30 | fails, with the no-folder error, exactly when no directory has a date name; otherwise returns a dated directory that no other dated directory sorts after |
| DataFolder.LatestIsMaximum | scripts/update-data.js:17-30 | a dated directory that no other dated directory sorts after is the one chosen |
| DataFolder.LatestFolderExample | scripts/update-data.js:17-30 | in a listing with a file, a non-date directory and three dated directories, `2024-05-05` is chosen |
| CsvLine.ParseCsvLine | scripts/update-data.js:118-138 | the character loop returns exactly the fields of the specification `LineFields` |
| CsvLine.ScanFacts | scripts/update-data.js:118-138 | after the loop, the quote flag is the parity of the quotes; the completed fields number the unquoted commas; the raw fields joined by commas are the line without its quotes; no field holds a quote |
| CsvLine.LineFieldsShape | scripts/update-data.js:118-138 | a line yields exactly 1 + (commas outside quotes) fields; each is trimmed and holds no `"` |
| CsvLine.ParseThenJoin | scripts/update-data.js:118-138 | for a line with no `"` and no whitespace at its ends or beside a comma, joining the fields with `,` gives back the line |
| CsvLine.JoinThenParse | scripts/update-data.js:118-138 | writing trimmed, quote-free fields, quoting those that hold a comma, and splitting the line gives back the fields: a quoted comma stays in its field |
| CsvLine.QuotedCommaExample | scripts/update-data.js:126-133 | `a,"b,c",d` splits into `a`, `b,c` and `d` |
| CsvLine.DoubledQuoteExample | scripts/update-data.js:126-127 | a doubled quote is not an escaped quote: `"a""b"` is the single field `ab` |
| Classify.DeterminePurineLevel | scripts/update-data.js:239-244 | Low exactly below 100, Medium exactly in [100, 200), High exactly in [200, 300), Very High exactly from 300 |
| Classify.LevelMonotone | scripts/update-data.js:239-244 | a larger value never gets a lower tier |
| Classify.LevelIsTier | scripts/update-data.js:239-244 | a value gets a tier exactly when it lies in that tier's half-open range |
| Classify.Round | scripts/update-data.js:106 | `Math.round` gives the integer within half a unit: r - 0.5 <= v < r + 0.5 |
| Classify.LevelAgreesWithRounded | scripts/update-data.js:92-106 | away from the half-unit just below each threshold, the level of the stored rounded value equals the level of the parsed value |
| Classify.RoundedAcrossThreshold | scripts/update-data.js:92-106 | 99.5 is stored as 100 but is Low, while 100 would be Medium |
| Classify.Rules | scripts/update-data.js:150-230 | nine keyword sets, tried in the order Seafood, Meat, Dairy, Legumes, Grains, Nuts, Fruits, Vegetables, Beverages |
| Classify.DetermineCategory | scripts/update-data.js:143-148 | every alcohol-export name is Beverages |
| Classify.FirstRuleAtMatch | scripts/update-data.js:150-230 | when rule i is the first with a keyword in the name, its category is returned |
| Classify.FirstRuleNoMatch | scripts/update-data.js:232-233 | with no keyword in the name, the category is Other |
| Classify.RuleCategoriesDistinct | scripts/update-data.js:150-230 | the nine rules select nine different categories, none of them Other |
| Classify.CategoryPriority | scripts/update-data.js:143-234 | a food name gets rule i's category exactly when rule i has a keyword in the lower-cased name and no earlier rule does; it gets Other exactly when no keyword occurs |
| Classify.FirstMatchIndex | scripts/update-data.js:150-230 | when some rule matches there is a first matching rule |
| Classify.ShadowedVegetableKeywords | scripts/update-data.js:176-224 | a food name containing `eggplant` or `green beans` is never Vegetables, because `egg` (Dairy) or `bean` (Legumes) matches first |
| Classify.ShadowedNutKeyword | scripts/update-data.js:182-203 | a food name containing `peanut` is never Nuts, because `pea` (Legumes) matches first |
| Classify.EarlierRuleShadows | scripts/update-data.js:143-234 | a keyword of an earlier rule in the lower-cased name rules out the category of every later rule |
| Classify.FishCreamIsSeafood | scripts/update-data.js:150-180 | `fish cream` is Seafood although it holds the Dairy keyword `cream` |
| NameCleaning.NormalizeQuotes | scripts/update-data.js:251-253 | U+2018 to U+201B become `'`, U+201C to U+201F become `"`, all other characters are kept, and no curly quote remains |
| NameCleaning.StripOuterDoubleQuoteSpec | scripts/update-data.js:254 | a text between two `"` loses exactly those two; a single `"` at only the start, or only the end, is dropped; a text with no `"` at either end is unchanged |
| NameCleaning.MeatlessApplies | scripts/update-data.js:257-259 | `'X',` then whitespace then `meatless` in any case, with X non-empty and free of `'`, becomes `X (Meatless)` |
| NameCleaning.MeatlessOnlyOnShape | scripts/update-data.js:257-259 | the meatless rewrite changes only names of that shape |
| NameCleaning.StripSingleQuotesSpec | scripts/update-data.js:262 | the result is the input with a run of `'` removed from each end, and it neither starts nor ends with `'` |
| NameCleaning.DropWordSuffixSpec | scripts/update-data.js:264-266 | when the text after a comma is only the word (any case, padded by whitespace), the comma and the rest are replaced; otherwise nothing changes |
| NameCleaning.SuffixStepsDried | scripts/update-data.js:264-266 | a trailing `, dried` becomes ` (dried)` |
| NameCleaning.SuffixStepsKeep | scripts/update-data.js:264-266 | a last comma followed by none of `raw`, `fresh` or `dried` leaves the name unchanged |
| NameCleaning.FindAnnotation | scripts/update-data.js:267-269 | returns the leftmost position where whitespace and the annotation (any case) match, or none when there is no match |
| NameCleaning.AnnotationAtIsMatch | scripts/update-data.js:267-269 | a match at p is exactly a non-empty whitespace run from p followed by the annotation in any case |
| NameCleaning.RemoveAnnotationSpec | scripts/update-data.js:267-269 | without a match nothing changes; otherwise the leftmost match and only it is removed |
| NameCleaning.NoAnnotation | scripts/update-data.js:267-269 | a name whose text from its first `(` on is shorter than the annotation is unchanged |
| NameCleaning.RemoveRawFootnote | scripts/update-data.js:270 | the result is a prefix of the name |
| NameCleaning.RawFootnoteAfterComma | scripts/update-data.js:270 | `A, raw<digits>` (any case, any whitespace) becomes `A` |
| NameCleaning.RawFootnoteWithoutComma | scripts/update-data.js:270 | `A raw<digits>` becomes `A` when A ends in neither whitespace nor a comma |
| NameCleaning.StrawLosesRaw | scripts/update-data.js:270 | `straw` becomes `st` |
| NameCleaning.RawFootnoteIff | scripts/update-data.js:270 | the name changes exactly when `raw` in any case followed only by digits ends it, and then it gets shorter |
| NameCleaning.NoRawFootnoteKept | scripts/update-data.js:270 | a name in which `raw\d*$` matches nowhere comes back unchanged |
| NameCleaning.NoFootnoteExamples | scripts/update-data.js:270 | `Coleslaw` and `Kale, cooked 2` are kept |
| NameCleaning.CapWordSpec | scripts/update-data.js:274-282 | a word keeps its length, and only its first character, or the second after a leading `(` or `'`, is upper-cased |
| NameCleaning.CapitalizeSpec | scripts/update-data.js:274-282 | the result is the text with exactly the first letter of each space-separated word upper-cased (after a leading `(` or `'`) and nothing else changed |
| NameCleaning.CleanFoodNameSpec | scripts/update-data.js:249-285 | the cleaned name is trimmed and is the trimmed rewritten name with each word capitalised |
| NameCleaning.MeatlessExample | scripts/update-data.js:249-285 | `'Bacon', meatless` becomes `Bacon (Meatless)` |
| NameCleaning.RawFootnoteExample | scripts/update-data.js:249-285 | `chicken, raw6` becomes `Chicken` |
| NameCleaning.DriedExample | scripts/update-data.js:249-285 | `beef, dried` becomes `Beef (Dried)` |
| NameCleaning.RawOnlyExample | scripts/update-data.js:249-285 | `raw` becomes the empty name |
| CsvParse.CsvLines | scripts/update-data.js:37 | one line per newline-separated piece, trimmed, with a final carriage return removed |
| CsvParse.CsvLinesTrimmed | scripts/update-data.js:37 | every line is trimmed, so the carriage-return step never changes one |
| CsvParse.HeaderIndex | scripts/update-data.js:41-48 | finds the first line starting with `Food Description,` or `Alcoholic Beverage Description,`, or reports that none does |
| CsvParse.FindDataStart | scripts/update-data.js:41-48 | the loop with `break` returns -1 exactly when no header line exists, and otherwise two past the first one |
| CsvParse.ParseRow | scripts/update-data.js:56-109 | the loop body returns the row's item exactly as the specification `RowItem` does: nothing for a skipped line |
| CsvParse.ParseFields | scripts/update-data.js:67-109 | nothing for fewer than 19 fields, a section heading, a blank, `ND` or `-` purine cell, or an unparsable one; otherwise the item with cleaned name, rounded value, category and level |
| CsvParse.ParseRows | scripts/update-data.js:55-110 | the row loop pushes exactly the items of the accepted lines, in line order |
| CsvParse.ParseCsv | scripts/update-data.js:36-113 | `parseCSV` returns the missing-header error or the items of the lines from two past the header on |
| CsvParse.HeaderMissingIff | scripts/update-data.js:41-52 | the parse fails exactly when no line is a header line, and then with the missing-header error for that export |
| CsvParse.RowItemsAppend | scripts/update-data.js:55-110 | the items of two runs of lines are the items of the first followed by those of the second |
| CsvParse.RowItemsOrigin | scripts/update-data.js:55-110 | an item is produced exactly when some line yields it |
| CsvParse.RoundStaysInTier | scripts/update-data.js:99-106 | the stored rounded value lies in the closed range of the level computed from the unrounded value |
| CsvParse.FieldsItemWellFormed | scripts/update-data.js:67-109 | an accepted row's item has a purine value in its level's range, a trimmed name, and Beverages for the alcohol export |
| CsvParse.RowItemsWellFormed | scripts/update-data.js:55-110 | every item of the row loop is well formed in that sense |
| CsvParse.DataItemsSpec | scripts/update-data.js:55-110 | every item from the data lines is well formed and comes from one of those lines |
| CsvParse.CsvItemsSpec | scripts/update-data.js:36-113 | a successful parse holds only well-formed items, each from a line at least two after the first header line |
| CatalogEmit.SortSorted | scripts/update-data.js:292 | the sorted list is ordered by name |
| CatalogEmit.SortPermutes | scripts/update-data.js:292 | the sorted list has the same items, each as often |
| CatalogEmit.SortStable | scripts/update-data.js:292 | items with the same name keep their input order |
| CatalogEmit.KeySetMembers | scripts/update-data.js:295-300 | the `seen` set holds exactly the lower-cased names of the items looked at |
| CatalogEmit.DedupStep | scripts/update-data.js:295-304 | one pass of the `seen` loop adds the item's lower-cased name to the set and keeps the item exactly when that name was not yet seen |
| CatalogEmit.FirstOfEachKeySubsequence | scripts/update-data.js:295-304 | the kept items are the sorted list with items deleted, in order |
| CatalogEmit.FirstOfEachKeyKeys | scripts/update-data.js:295-304 | every lower-cased name of the input is kept |
| CatalogEmit.FirstOfEachKeyDistinct | scripts/update-data.js:295-304 | no two kept items share a lower-cased name |
| CatalogEmit.FirstOfEachKeyFirst | scripts/update-data.js:295-304 | an item is kept exactly when it is the first of its lower-cased name |
| CatalogEmit.CatalogSpec | scripts/update-data.js:290-304 | the emitted items are a subsequence of the sorted input, ordered by name, with distinct lower-cased names covering all of the input's, each the first of its name after sorting, and all from the input |
| CatalogEmit.EscapeNameIsEach | scripts/update-data.js:308 | the two global replacements escape each `\` and `'` once, character by character |
| CatalogEmit.EscapeNameWell | scripts/update-data.js:308 | in an escaped name every `\` and `'` is part of a `\\` or `\'` escape |
| CatalogEmit.ReadEscapedName | scripts/update-data.js:308-309 | reading the escaped name and its closing quote as a single-quoted literal gives back the name and the text after it (for names without line breaks) |
| CatalogEmit.NatTextValue | scripts/update-data.js:309 | the printed digits of n denote n and have no leading zero |
| CatalogEmit.IntTextRoundTrip | scripts/update-data.js:309 | reading a printed integer back gives the integer |
| CatalogEmit.PurinesTextInjective | scripts/update-data.js:309 | different purine values, `null` included, print differently |
| CatalogEmit.ItemLineName | scripts/update-data.js:307-310 | the name literal of an item line reads back as the item's name and ends where the rest of the line starts |
| CatalogEmit.GenerateTypeScriptFile | scripts/update-data.js:290-318 | the sort, the `seen` loop and the text give the module text of the catalog of the items |
| Pipeline.FirstCsvFrom | scripts/update-data.js:334-335 | finds the first listed name containing the word and ending in `.csv`, or reports that there is none |
| Pipeline.SelectSourcesSpec | scripts/update-data.js:326-341 | the run stops for a missing dated folder, then a missing food file, then a missing alcohol file, each exactly when it applies; otherwise the chosen files match and are listed |
| Pipeline.BuildSpec | scripts/update-data.js:343-359 | with the files chosen, the food file's missing header stops the run first, then the alcohol file's; otherwise the output is the catalog of the food items followed by the alcohol items, and every emitted alcohol item is Beverages |
| Search.EmptyQueryFindsNothing | src/app/actions.ts:7-9 | the empty query returns nothing |
| Search.SearchSoundAndComplete | src/app/actions.ts:11-13 | for a non-empty query an item is returned exactly when it is in the catalog and its lower-cased name contains the lower-cased query |
| Search.SearchSubsequence | src/app/actions.ts:11-13 | the result keeps catalog order and is never longer than the catalog |
| Search.SearchIgnoresQueryCase | src/app/actions.ts:11-13 | two queries that differ only in case find the same items |
| FoodList.LevelMatchesSpec | src/components/food-list.tsx:22-28 | `high` in any case keeps High and Very High; `low`, `medium` and `very high` keep their own tier; any other level keeps nothing |
| FoodList.SourceListSpec | src/components/food-list.tsx:15-19 | a non-empty query uses the search result, otherwise the whole catalog |
| FoodList.GetFoodsSpec | src/components/food-list.tsx:21-32 | an absent, empty or `all` level returns the source list; any other keeps exactly the items its level matches; the result is a subsequence of the source list |
| FoodList.UnknownLevelIsEmpty | src/components/food-list.tsx:21-28 | a level naming no tier returns nothing |
| FoodList.UpperCaseAllIsEmpty | src/components/food-list.tsx:21-28 | `ALL` is not `all` and returns nothing |
| FirestoreActions.DisplayNameFromEmailSpec | src/firebase/firestore/actions.ts:56-58 | the derived name holds only ASCII letters, digits and spaces, has no space at either end, never two in a row, and keeps every letter and digit before the first `@`, in order; it is the maximal runs of letters and digits before the first `@`, joined by single spaces |
| FirestoreActions.DottedNameExample | src/firebase/firestore/actions.ts:56-58 | `john.smith@x.com` gives `john smith` |
| FirestoreActions.LocalPartSpec | src/firebase/firestore/actions.ts:57 | only the text before the first `@` matters; an address without `@` is used whole |
| FirestoreActions.NoAlnumsEmptyName | src/firebase/firestore/actions.ts:57 | with no letter or digit before the `@` the derived name is empty |
| FirestoreActions.DisplayNameChoice | src/firebase/firestore/actions.ts:65-72 | a non-empty own display name wins, else the name derived from a non-empty e-mail, else `Gouty User`; the other profile fields are the user's |
| FirestoreActions.EmptyDerivedName | src/firebase/firestore/actions.ts:57-65 | a user with no display name and the address `__@example.com` gets the empty display name |
| FirestoreActions.EntryDataSpec | src/firebase/firestore/actions.ts:33-40 | the entry copies name, purines, level and category so that the food reads back from it; the serving size is the argument and the time is the server's |

## Left out

- File-system reads and the write of the generated module are not modelled. Neither are `console` output, `process.exit` and the final count of item lines. The listings and file texts are parameters, and the result is the text or the error.
- `scripts/clear-data.js` is not part of this model: it only writes a constant file.
- `parseFloat` is the parameter `num`. Its prefix parsing, `Infinity` and the width of floating point are not modelled; `NaN` is `None`.
- `Math.round` is modelled as floor(v + 0.5) on exact reals.
- `localeCompare` is replaced by ordinal order of code units. Locale collation cannot be expressed over plain strings. The sort is any stable sort by that order; with a total order and stability, every such sort gives the same result.
- The sort of `generateTypeScriptFile` reorders the caller's array in place. The model computes the sorted sequence as a value, so that update of the caller's array is not captured.
- `toLowerCase`, `toUpperCase`, `trim` and the regular-expression class `\s` are modelled on ASCII only; there is no Unicode case mapping or Unicode whitespace.
- CatalogEmit.ItemLineName: requires names without line breaks. The emitter does not escape them, and the model does not prove that cleaned names contain none.
- NameCleaning.CleanFoodNameSpec: states only the final trim and the capitalisation. The individual rewrite steps are stated by their own lemmas and by the worked names.
- FoodItem.purines and DiaryEntryData.purines are whole numbers (`Option<int>`). Catalog items always hold rounded values, but a hand-entered diary food may carry a fractional value, since its form (src/components/diary/add-custom-entry-dialog.tsx:46, 93) accepts any number of at least 0. Fractional purine values of such entries are not modelled.
- FoodItem's `category` is a string in the application's types; the model uses the ten values the builder produces.
- Not modelled: the Firestore reads and writes, `onSnapshot` hooks, timestamp conversion, the error event bus, and all React components and pages.
- The language-model search flow is a foreign call and is not modelled.
- The form validation schema, the sitemap (it depends on the current date) and the URL-parameter handling of the filter bar are not modelled.
