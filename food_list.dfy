/**
 * `getFoods` of the food list page: the search result for a non-empty
 * query, or the whole catalog, then the purine-level filter. An absent
 * search parameter is `None`; the catalog is a parameter.
 */
module FoodList {
  import opened Wrappers
  import opened Text
  import opened Sequences
  import opened FoodTypes
  import opened Search

  /** The list the level filter is applied to. */
  function SourceList(catalog: seq<FoodItem>, query: Option<string>): seq<FoodItem> {
    if Truthy(query) then SearchFoods(catalog, query.value) else catalog
  }

  /** The filter predicate: "high" covers both high tiers, any other level is compared lower-cased. */
  predicate LevelMatches(level: string, p: PurineLevel) {
    var wanted := Lower(level);
    var have := Lower(p.Label());
    if wanted == "high" then have == "high" || have == "very high" else have == wanted
  }

  function LevelFilter(level: string): FoodItem -> bool {
    (food: FoodItem) => LevelMatches(level, food.purineLevel)
  }

  /** The level filter is applied exactly when the level is non-empty and not the exact text `all`. */
  predicate FiltersByLevel(level: Option<string>) {
    Truthy(level) && level.value != "all"
  }

  function GetFoods(catalog: seq<FoodItem>, query: Option<string>, level: Option<string>): seq<FoodItem> {
    var foods := SourceList(catalog, query);
    if FiltersByLevel(level) then Filter(foods, LevelFilter(level.value)) else foods
  }

  lemma LowerLabels()
    ensures Lower(Low.Label()) == "low" && Lower(Medium.Label()) == "medium"
    ensures Lower(High.Label()) == "high" && Lower(VeryHigh.Label()) == "very high"
  {
    assert Lower(Low.Label()) == "low";
    assert Lower(Medium.Label()) == "medium";
    assert Lower(High.Label()) == "high";
    assert Lower(VeryHigh.Label()) == "very high";
  }

  /** What the level filter keeps: both high tiers for "high", otherwise the tier whose name it is, in any case. */
  lemma LevelMatchesSpec(level: string, p: PurineLevel)
    ensures Lower(level) == "high" ==> (LevelMatches(level, p) <==> p == High || p == VeryHigh)
    ensures Lower(level) == "low" ==> (LevelMatches(level, p) <==> p == Low)
    ensures Lower(level) == "medium" ==> (LevelMatches(level, p) <==> p == Medium)
    ensures Lower(level) == "very high" ==> (LevelMatches(level, p) <==> p == VeryHigh)
    ensures Lower(level) !in {"low", "medium", "high", "very high"} ==> !LevelMatches(level, p)
  {
    LowerLabels();
  }

  /** A non-empty query searches; otherwise the whole catalog is the source. */
  lemma SourceListSpec(catalog: seq<FoodItem>, query: Option<string>)
    ensures Truthy(query) ==> SourceList(catalog, query) == SearchFoods(catalog, query.value)
    ensures !Truthy(query) ==> SourceList(catalog, query) == catalog
  {
  }

  /**
   * An absent, empty or `all` level returns the source list unchanged;
   * any other level keeps exactly the source items whose level it matches,
   * in order.
   */
  lemma GetFoodsSpec(catalog: seq<FoodItem>, query: Option<string>, level: Option<string>)
    ensures !FiltersByLevel(level) ==> GetFoods(catalog, query, level) == SourceList(catalog, query)
    ensures FiltersByLevel(level) ==>
              forall food :: food in GetFoods(catalog, query, level) <==>
                food in SourceList(catalog, query) && LevelMatches(level.value, food.purineLevel)
    ensures IsSubsequence(GetFoods(catalog, query, level), SourceList(catalog, query))
  {
    var foods := SourceList(catalog, query);
    if FiltersByLevel(level) {
      FilterMembers(foods, LevelFilter(level.value));
      FilterIsSubsequence(foods, LevelFilter(level.value));
    } else {
      SubsequenceReflexive(foods);
    }
  }

  /** A level naming no tier yields nothing, even `ALL`, which is not the exact text `all`. */
  lemma UnknownLevelIsEmpty(catalog: seq<FoodItem>, query: Option<string>, level: string)
    requires level != [] && level != "all"
    requires Lower(level) !in {"low", "medium", "high", "very high"}
    ensures GetFoods(catalog, query, Some(level)) == []
  {
    var foods := SourceList(catalog, query);
    forall food | food in foods ensures !LevelFilter(level)(food) {
      LevelMatchesSpec(level, food.purineLevel);
    }
    FilterNone(foods, LevelFilter(level));
  }

  /** The upper-case `ALL` is not the `all` the page treats as no filter, and selects nothing. */
  lemma UpperCaseAllIsEmpty(catalog: seq<FoodItem>, query: Option<string>, level: string)
    requires level == "ALL"
    ensures GetFoods(catalog, query, Some(level)) == []
  {
    assert Lower(level) == "all";
    UnknownLevelIsEmpty(catalog, query, level);
  }
}
