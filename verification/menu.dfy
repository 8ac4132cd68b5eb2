/** The menu data shapes: portion types, nutrition records, portion variants,
    menu items, and the restaurant directory entries the home page lists. */
module Menu {
  import opened Wrappers

  /** The closed set of portion tags a menu item or variant may carry. */
  datatype PortionType = Single | Combo | Shareable | Addon | Drink | Dessert

  /** Nutrition facts. The four macro fields are always present; the six
      micronutrient fields may be missing from the data. Quantities are whole numbers. */
  datatype Nutrition = Nutrition(
    calories: nat,
    protein: nat,
    totalFat: nat,
    carbs: nat,
    satFat: Option<nat>,
    transFat: Option<nat>,
    cholesterol: Option<nat>,
    sodium: Option<nat>,
    fiber: Option<nat>,
    sugars: Option<nat>)

  /** One portion size of a menu item, with its own complete nutrition record and an
      optional portion-type override. */
  datatype ItemVariant = ItemVariant(
    id: string,
    labelText: string,   // `label` in the data; `label` is a Dafny keyword
    nutrition: Nutrition,
    portionType: Option<PortionType>,
    isDefault: Option<bool>)

  /** A menu item. Its own `nutrition` is required, so there is always something to
      fall back on when no variant is selected. */
  datatype MenuItem = MenuItem(
    id: Option<string>,
    name: string,
    nutrition: Nutrition,
    image: Option<string>,
    category: string,
    portionType: PortionType,
    restaurant: Option<string>,
    variants: Option<seq<ItemVariant>>,
    defaultVariantId: Option<string>)

  /** Variant ids are pairwise distinct. */
  predicate DistinctIds(vs: seq<ItemVariant>) {
    forall i, j :: 0 <= i < j < |vs| ==> vs[i].id != vs[j].id
  }

  /** An entry of the restaurant directory. */
  datatype Restaurant = Restaurant(id: string, name: string, logo: string, cover: string, menuFile: string)

  /** The string literal each portion tag is written as in the menu data. */
  function PortionTag(p: PortionType): string {
    match p
    case Single => "single"
    case Combo => "combo"
    case Shareable => "shareable"
    case Addon => "addon"
    case Drink => "drink"
    case Dessert => "dessert"
  }

  /** The portion tag a string literal denotes, if it is one of the six. */
  function ParsePortionType(s: string): (r: Option<PortionType>)
    ensures r.Some? ==> PortionTag(r.value) == s
  {
    if s == "single" then Some(Single)
    else if s == "combo" then Some(Combo)
    else if s == "shareable" then Some(Shareable)
    else if s == "addon" then Some(Addon)
    else if s == "drink" then Some(Drink)
    else if s == "dessert" then Some(Dessert)
    else None
  }

  /** Every tag reads back as itself, so the six literals are distinct and the set is closed. */
  lemma PortionTagRoundTrip(p: PortionType)
    ensures ParsePortionType(PortionTag(p)) == Some(p)
  {
  }

  /** A string is a portion tag exactly when it is one of the six literals. */
  lemma ParsePortionTypeComplete(s: string)
    ensures ParsePortionType(s).Some? <==> exists p: PortionType :: PortionTag(p) == s
  {
    if s == "single" { assert PortionTag(Single) == s; }
  }
}
