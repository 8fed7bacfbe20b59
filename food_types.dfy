/** The catalog record and its two enumerations. */
module FoodTypes {
  import opened Wrappers

  /** The categories the catalog builder assigns. */
  datatype Category = Seafood | Meat | Dairy | Legumes | Grains | Nuts | Fruits | Vegetables | Beverages | Other {
    /** The text stored in the catalog and in diary entries. */
    function Label(): string {
      match this
      case Seafood => "Seafood"
      case Meat => "Meat"
      case Dairy => "Dairy"
      case Legumes => "Legumes"
      case Grains => "Grains"
      case Nuts => "Nuts"
      case Fruits => "Fruits"
      case Vegetables => "Vegetables"
      case Beverages => "Beverages"
      case Other => "Other"
    }
  }

  /** The four purine tiers. */
  datatype PurineLevel = Low | Medium | High | VeryHigh {
    function Label(): string {
      match this
      case Low => "Low"
      case Medium => "Medium"
      case High => "High"
      case VeryHigh => "Very High"
    }
  }

  /**
   * One catalog entry: a name, milligrams of purines per 100 g (absent for
   * hand-entered diary foods), a category and a purine level.
   */
  datatype FoodItem = FoodItem(name: string, purines: Option<int>, category: Category, purineLevel: PurineLevel)
}

/** What the catalog builder is run on, and the ways a run can fail. */
module BuildTypes {

  /** Which of the two source files a CSV text came from. */
  datatype SourceKind = FoodSource | AlcoholSource

  /** The fatal errors of a catalog build; each aborts the whole run. */
  datatype BuildError =
    | NoDatedFolder
    | FoodFileMissing
    | AlcoholFileMissing
    | HeaderMissing(kind: SourceKind)
}
