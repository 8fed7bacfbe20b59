/**
 * `determinePurineLevel` and `determineCategory`: the purine tier of a
 * value and the category of a food name, chosen by keyword sets tried in
 * a fixed priority order.
 */
module Classify {
  import opened Text
  import opened FoodTypes
  import opened BuildTypes

  // ----- Purine levels -----

  /** `determinePurineLevel`: half-open tiers at 100, 200 and 300 mg per 100 g. */
  function DeterminePurineLevel(v: real): (r: PurineLevel)
    ensures r == Low <==> v < 100.0
    ensures r == Medium <==> 100.0 <= v < 200.0
    ensures r == High <==> 200.0 <= v < 300.0
    ensures r == VeryHigh <==> 300.0 <= v
  {
    if v < 100.0 then Low
    else if v < 200.0 then Medium
    else if v < 300.0 then High
    else VeryHigh
  }

  /** The position of a tier, from Low (0) to Very High (3). */
  function Rank(l: PurineLevel): nat {
    match l
    case Low => 0
    case Medium => 1
    case High => 2
    case VeryHigh => 3
  }

  /** The least value of a tier (Low has no lower bound; 0 is the natural one). */
  function TierStart(l: PurineLevel): real {
    100.0 * (Rank(l) as real)
  }

  /** More purines never give a lower tier. */
  lemma LevelMonotone(v: real, w: real)
    requires v <= w
    ensures Rank(DeterminePurineLevel(v)) <= Rank(DeterminePurineLevel(w))
  {
  }

  /**
   * The tier is fixed by the hundreds: it is the unique tier whose start
   * is at most `v` and whose successor's start is above `v` (Very High has
   * no upper end, Low no lower end).
   */
  lemma LevelIsTier(v: real, l: PurineLevel)
    ensures DeterminePurineLevel(v) == l <==>
              (l == Low || TierStart(l) <= v) && (l == VeryHigh || v < TierStart(l) + 100.0)
  {
  }

  /** `Math.round`: the nearest integer, halves rounded up. */
  function Round(v: real): (r: int)
    ensures r as real - 0.5 <= v < r as real + 0.5
  {
    (v + 0.5).Floor
  }

  /**
   * The level is taken from the unrounded value, so it agrees with the
   * level of the stored, rounded value except in the half unit just below
   * each threshold.
   */
  lemma LevelAgreesWithRounded(v: real)
    requires !(99.5 <= v < 100.0) && !(199.5 <= v < 200.0) && !(299.5 <= v < 300.0)
    ensures DeterminePurineLevel(v) == DeterminePurineLevel(Round(v) as real)
  {
  }

  /** Just below a threshold the stored value is 100 while the level stays Low. */
  lemma RoundedAcrossThreshold()
    ensures Round(99.5) == 100
    ensures DeterminePurineLevel(99.5) == Low
    ensures DeterminePurineLevel(Round(99.5) as real) == Medium
  {
  }

  // ----- Categories -----

  /** One keyword set and the category it selects. */
  datatype Rule = Rule(category: Category, keywords: seq<string>)

  /** The keyword sets of `determineCategory`, in the order they are tried. */
  function Rules(): (r: seq<Rule>)
    ensures |r| == 9
    ensures r[0].category == Seafood && r[1].category == Meat && r[2].category == Dairy
    ensures r[3].category == Legumes && r[4].category == Grains && r[5].category == Nuts
    ensures r[6].category == Fruits && r[7].category == Vegetables && r[8].category == Beverages
  {
    [ Rule(Seafood, ["fish", "salmon", "tuna", "shrimp", "crab", "lobster", "oyster", "clam", "mussel",
                     "squid", "octopus", "scallop", "mackerel", "sardine", "anchovy", "herring", "cod",
                     "halibut", "flounder", "eel", "carp", "trout", "roe", "milt", "seabass", "snail",
                     "krill", "whitebait", "bonito", "yellowtail"]),
      Rule(Meat, ["beef", "pork", "chicken", "lamb", "mutton", "veal", "duck", "goose", "turkey", "liver",
                  "kidney", "heart", "tongue", "ham", "bacon", "sausage", "frankfurter", "salami",
                  "prosciutto", "corned", "whale", "foie gras", "gizzard", "pate"]),
      Rule(Dairy, ["milk", "cheese", "yogurt", "cream", "butter", "egg"]),
      Rule(Legumes, ["bean", "soy", "tofu", "lentil", "pea", "chickpea", "miso", "natto", "okara"]),
      Rule(Grains, ["rice", "bread", "flour", "noodle", "pasta", "spaghetti", "barley", "wheat", "oat",
                    "cereal", "bran", "ramen", "udon", "soba"]),
      Rule(Nuts, ["nut", "almond", "walnut", "peanut", "cashew", "pistachio", "seed", "sesame", "chia"]),
      Rule(Fruits, ["apple", "banana", "orange", "strawberry", "grape", "mango", "avocado", "goji", "fruit"]),
      Rule(Vegetables, ["spinach", "broccoli", "carrot", "potato", "tomato", "onion", "cabbage", "lettuce",
                        "mushroom", "asparagus", "pepper", "corn", "cucumber", "eggplant", "garlic",
                        "ginger", "pumpkin", "squash", "seaweed", "radish", "leek", "sprout", "parsley",
                        "okra", "bamboo", "turnip", "taro", "cauliflower", "burdock", "green beans"]),
      Rule(Beverages, ["tea", "coffee", "juice", "beverage", "amazake"]) ]
  }

  /** Some keyword of the set occurs in `name`. */
  predicate AnyKeyword(name: string, keywords: seq<string>) {
    exists k :: 0 <= k < |keywords| && Contains(name, keywords[k])
  }

  /** The category of the first rule with a keyword in `name`, or Other. */
  function FirstRule(name: string, rules: seq<Rule>): Category {
    if rules == [] then Other
    else if AnyKeyword(name, rules[0].keywords) then rules[0].category
    else FirstRule(name, rules[1..])
  }

  /** `determineCategory`: alcohol is always Beverages; a food name is matched lower-cased. */
  function DetermineCategory(name: string, kind: SourceKind): (r: Category)
    ensures kind == AlcoholSource ==> r == Beverages
  {
    if kind == AlcoholSource then Beverages else FirstRule(Lower(name), Rules())
  }

  /** Rule `i` is the first rule whose keywords occur in `name`. */
  predicate FirstMatchAt(name: string, rules: seq<Rule>, i: int) {
    0 <= i < |rules| && AnyKeyword(name, rules[i].keywords) &&
    forall j :: 0 <= j < i ==> !AnyKeyword(name, rules[j].keywords)
  }

  lemma {:induction false} FirstRuleAtMatch(name: string, rules: seq<Rule>, i: int)
    requires FirstMatchAt(name, rules, i)
    ensures FirstRule(name, rules) == rules[i].category
    decreases i
  {
    if i > 0 {
      assert !AnyKeyword(name, rules[0].keywords);
      assert FirstMatchAt(name, rules[1..], i - 1) by {
        forall j | 0 <= j < i - 1 ensures !AnyKeyword(name, rules[1..][j].keywords) {
          assert rules[1..][j] == rules[j + 1];
        }
      }
      FirstRuleAtMatch(name, rules[1..], i - 1);
    }
  }

  lemma {:induction false} FirstRuleNoMatch(name: string, rules: seq<Rule>)
    requires forall j :: 0 <= j < |rules| ==> !AnyKeyword(name, rules[j].keywords)
    ensures FirstRule(name, rules) == Other
    decreases |rules|
  {
    if rules != [] {
      assert !AnyKeyword(name, rules[0].keywords);
      assert forall j :: 0 <= j < |rules| - 1 ==> rules[1..][j] == rules[j + 1];
      FirstRuleNoMatch(name, rules[1..]);
    }
  }

  /** No two rules select the same category, and none selects Other. */
  lemma RuleCategoriesDistinct()
    ensures forall i, j :: 0 <= i < j < |Rules()| ==> Rules()[i].category != Rules()[j].category
    ensures forall i :: 0 <= i < |Rules()| ==> Rules()[i].category != Other
  {
    var r := Rules();
    forall i, j | 0 <= i < j < |r| ensures r[i].category != r[j].category {
      assert i == 0 || i == 1 || i == 2 || i == 3 || i == 4 || i == 5 || i == 6 || i == 7;
    }
  }

  /**
   * Priority: a food name gets the category of rule `i` exactly when some
   * keyword of rule `i` occurs in its lower-cased form and no keyword of an
   * earlier rule does; it gets Other exactly when no keyword occurs at all.
   */
  lemma CategoryPriority(name: string)
    ensures forall i :: 0 <= i < |Rules()| ==>
              (DetermineCategory(name, FoodSource) == Rules()[i].category <==> FirstMatchAt(Lower(name), Rules(), i))
    ensures DetermineCategory(name, FoodSource) == Other <==>
              forall j :: 0 <= j < |Rules()| ==> !AnyKeyword(Lower(name), Rules()[j].keywords)
  {
    var n := Lower(name);
    var rules := Rules();
    RuleCategoriesDistinct();
    if forall j :: 0 <= j < |rules| ==> !AnyKeyword(n, rules[j].keywords) {
      FirstRuleNoMatch(n, rules);
      forall i | 0 <= i < |rules| ensures !FirstMatchAt(n, rules, i) {
      }
    } else {
      var m := FirstMatchIndex(n, rules);
      FirstRuleAtMatch(n, rules, m);
      forall i | 0 <= i < |rules| && FirstMatchAt(n, rules, i) ensures i == m {
      }
    }
  }

  /** Some rule matches, so there is a first one. */
  lemma FirstMatchIndex(name: string, rules: seq<Rule>) returns (m: int)
    requires exists j :: 0 <= j < |rules| && AnyKeyword(name, rules[j].keywords)
    ensures FirstMatchAt(name, rules, m)
  {
    m := 0;
    while !AnyKeyword(name, rules[m].keywords)
      invariant 0 <= m < |rules|
      invariant forall j :: 0 <= j < m ==> !AnyKeyword(name, rules[j].keywords)
      decreases |rules| - m
    {
      m := m + 1;
    }
  }

  /** A longer keyword that holds a shorter one from an earlier rule can never decide. */
  lemma ContainsPrefix(s: string, t: string, p: string)
    requires Contains(s, t) && StartsWith(t, p)
    ensures Contains(s, p)
  {
    var i :| 0 <= i <= |s| - |t| && OccursAt(s, t, i);
    assert s[i..i + |p|] == t[..|p|];
    assert OccursAt(s, p, i);
  }

  /**
   * "eggplant" in a food name always contains "egg", which the Dairy rule
   * tries first: such a name is never Vegetables. Likewise "green beans"
   * contains "bean" from the Legumes rule.
   */
  lemma ShadowedVegetableKeywords(name: string)
    requires Contains(Lower(name), "eggplant") || Contains(Lower(name), "green beans")
    ensures DetermineCategory(name, FoodSource) != Vegetables
  {
    var n := Lower(name);
    ShadowFacts();
    if Contains(n, "eggplant") {
      ContainsPrefix(n, "eggplant", "egg");
      EarlierRuleShadows(name, 2, 5, 7);
    } else {
      ContainsSuffixPart(n, "green beans", "bean", 6);
      EarlierRuleShadows(name, 3, 0, 7);
    }
  }

  /** "peanut" starts with "pea" from the Legumes rule, tried before Nuts: such a name is never Nuts. */
  lemma ShadowedNutKeyword(name: string)
    requires Contains(Lower(name), "peanut")
    ensures DetermineCategory(name, FoodSource) != Nuts
  {
    ShadowFacts();
    ContainsPrefix(Lower(name), "peanut", "pea");
    EarlierRuleShadows(name, 3, 4, 5);
  }

  /** The keywords the shadowing lemmas name. */
  lemma ShadowFacts()
    ensures |Rules()[2].keywords| > 5 && Rules()[2].keywords[5] == "egg"
    ensures |Rules()[3].keywords| > 4 && Rules()[3].keywords[0] == "bean" && Rules()[3].keywords[4] == "pea"
  {
  }

  /** A keyword of an earlier rule in the name rules out the category of a later one. */
  lemma EarlierRuleShadows(name: string, e: nat, k: nat, later: nat)
    requires e < later < |Rules()| && k < |Rules()[e].keywords| && Contains(Lower(name), Rules()[e].keywords[k])
    ensures DetermineCategory(name, FoodSource) != Rules()[later].category
  {
    CategoryPriority(name);
    assert AnyKeyword(Lower(name), Rules()[e].keywords);
    assert !FirstMatchAt(Lower(name), Rules(), later);
  }

  lemma ContainsSuffixPart(s: string, t: string, p: string, d: nat)
    requires Contains(s, t) && d + |p| <= |t| && t[d..d + |p|] == p
    ensures Contains(s, p)
  {
    var i :| 0 <= i <= |s| - |t| && OccursAt(s, t, i);
    assert s[i..i + |t|] == t;
    forall k | 0 <= k < |p| ensures s[i + d + k] == p[k] {
      assert s[i + d + k] == s[i..i + |t|][d + k];
    }
    assert s[i + d..i + d + |p|] == p;
    assert OccursAt(s, p, i + d);
  }

  /** "Fish cream": Seafood is tried before Dairy. */
  lemma FishCreamIsSeafood(name: string)
    requires name == "fish cream"
    ensures DetermineCategory(name, FoodSource) == Seafood
  {
    assert Lower(name) == name;
    assert OccursAt(name, "fish", 0);
    assert Rules()[0].keywords[0] == "fish";
    assert FirstMatchAt(name, Rules(), 0);
    FirstRuleAtMatch(name, Rules(), 0);
  }
}
