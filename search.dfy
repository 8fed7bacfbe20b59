/** `searchFoodsAction`: the case-insensitive substring search over the catalog. */
module Search {
  import opened Text
  import opened Sequences
  import opened FoodTypes

  /** The item's lower-cased name contains the lower-cased query. */
  function NameMatches(query: string): FoodItem -> bool {
    (item: FoodItem) => Contains(Lower(item.name), Lower(query))
  }

  /** The empty query finds nothing; any other keeps the matching items, in catalog order. */
  function SearchFoods(catalog: seq<FoodItem>, query: string): seq<FoodItem> {
    if query == [] then [] else Filter(catalog, NameMatches(query))
  }

  lemma EmptyQueryFindsNothing(catalog: seq<FoodItem>)
    ensures SearchFoods(catalog, "") == []
  {
  }

  /**
   * For a non-empty query an item is returned exactly when it is in the
   * catalog and its lower-cased name contains the lower-cased query.
   */
  lemma SearchSoundAndComplete(catalog: seq<FoodItem>, query: string)
    requires query != []
    ensures forall item :: item in SearchFoods(catalog, query) <==>
              item in catalog && Contains(Lower(item.name), Lower(query))
  {
    FilterMembers(catalog, NameMatches(query));
  }

  /** The result keeps catalog order and is never longer than the catalog. */
  lemma SearchSubsequence(catalog: seq<FoodItem>, query: string)
    ensures IsSubsequence(SearchFoods(catalog, query), catalog)
    ensures |SearchFoods(catalog, query)| <= |catalog|
  {
    if query == [] {
    } else {
      FilterIsSubsequence(catalog, NameMatches(query));
    }
  }

  /** The search ignores the case of the query. */
  lemma SearchIgnoresQueryCase(catalog: seq<FoodItem>, q1: string, q2: string)
    requires q1 != [] && q2 != [] && Lower(q1) == Lower(q2)
    ensures SearchFoods(catalog, q1) == SearchFoods(catalog, q2)
  {
    FilterCongruent(catalog, NameMatches(q1), NameMatches(q2));
  }
}
