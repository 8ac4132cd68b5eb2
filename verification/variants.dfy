/** How a menu card decides which portion variant is selected at first and which
    nutrition record it displays for the current selection. */
module VariantResolution {
  import opened Wrappers
  import opened Menu
  import Seqs

  /** The card's variant list: the item's variants when there is at least one, and
      no list at all otherwise, so an empty list counts as no variants. */
  function NormalizedVariants(item: MenuItem): (r: Option<seq<ItemVariant>>)
    ensures r.Some? <==> item.variants.Some? && |item.variants.value| > 0
    ensures r.Some? ==> r.value == item.variants.value
  {
    match item.variants
    case Some(vs) => if |vs| > 0 then Some(vs) else None
    case None => None
  }

  /** Position of the first variant whose id is `id` (the element `find` returns). */
  function IndexOfId(vs: seq<ItemVariant>, id: string): Option<nat> {
    Seqs.Find(vs, (v: ItemVariant) => v.id == id)
  }

  predicate IsFlaggedDefault(v: ItemVariant) {
    v.isDefault == Some(true)
  }

  /** Position of the first variant flagged `isDefault`. */
  function IndexOfFlagged(vs: seq<ItemVariant>): Option<nat> {
    Seqs.Find(vs, IsFlaggedDefault)
  }

  predicate HasId(vs: seq<ItemVariant>, id: string) {
    exists j :: 0 <= j < |vs| && vs[j].id == id
  }

  /** `defaultVariantId` is set to a non-empty string naming one of the variants. */
  predicate ExplicitDefaultApplies(item: MenuItem, vs: seq<ItemVariant>) {
    item.defaultVariantId.Some? && item.defaultVariantId.value != "" && HasId(vs, item.defaultVariantId.value)
  }

  /** Position `k` holds the first variant flagged `isDefault`. */
  predicate IsFirstFlagged(vs: seq<ItemVariant>, k: int) {
    0 <= k < |vs| && IsFlaggedDefault(vs[k]) && forall j :: 0 <= j < k ==> !IsFlaggedDefault(vs[j])
  }

  /** The fallback rule when `defaultVariantId` does not apply: the id of the first
      variant flagged `isDefault`, or the first variant's id when none is flagged. */
  predicate IsFallbackChoice(vs: seq<ItemVariant>, id: string)
    requires |vs| > 0
  {
    if exists j :: 0 <= j < |vs| && IsFlaggedDefault(vs[j]) then
      forall k :: 0 <= k < |vs| && IsFirstFlagged(vs, k) ==> id == vs[k].id
    else
      id == vs[0].id
  }

  /** The variant id selected when the card first renders: `""` without variants;
      otherwise the item's non-empty `defaultVariantId` if some variant carries it,
      else the first variant flagged `isDefault`, else the first variant. */
  function DefaultVariantId(item: MenuItem): (r: string)
    ensures match NormalizedVariants(item)
      case None => r == ""
      case Some(vs) =>
        && HasId(vs, r)
        && (ExplicitDefaultApplies(item, vs) ==> r == item.defaultVariantId.value)
        && (!ExplicitDefaultApplies(item, vs) ==> IsFallbackChoice(vs, r))
  {
    match NormalizedVariants(item)
    case None => ""
    case Some(vs) =>
      if item.defaultVariantId.Some? && item.defaultVariantId.value != "" && IndexOfId(vs, item.defaultVariantId.value).Some? then
        item.defaultVariantId.value
      else
        match IndexOfFlagged(vs)
        case Some(k) => vs[k].id
        case None => vs[0].id
  }

  /** The variant whose id is the selected one (the first such), if any. */
  function SelectedVariant(item: MenuItem, selectedId: string): (r: Option<ItemVariant>)
    ensures r.Some? <==> NormalizedVariants(item).Some? && HasId(NormalizedVariants(item).value, selectedId)
    ensures r.Some? ==> r.value.id == selectedId
    ensures r.Some? ==>
              var vs := NormalizedVariants(item).value;
              exists k :: 0 <= k < |vs| && r.value == vs[k] && forall j :: 0 <= j < k ==> vs[j].id != selectedId
  {
    match NormalizedVariants(item)
    case None => None
    case Some(vs) =>
      match IndexOfId(vs, selectedId)
      case Some(k) => Some(vs[k])
      case None => None
  }

  /** The nutrition record the card displays: the selected variant's, else the item's own. */
  function ActiveNutrition(item: MenuItem, selectedId: string): (n: Nutrition)
    ensures SelectedVariant(item, selectedId).None? ==> n == item.nutrition
    ensures NormalizedVariants(item).Some? ==>
              var vs := NormalizedVariants(item).value;
              forall k :: 0 <= k < |vs| && vs[k].id == selectedId && (forall j :: 0 <= j < k ==> vs[j].id != selectedId)
                ==> n == vs[k].nutrition
  {
    match NormalizedVariants(item)
    case None => item.nutrition
    case Some(vs) =>
      match IndexOfId(vs, selectedId)
      case Some(k) => vs[k].nutrition
      case None => item.nutrition
  }

  /** An item with an empty variant list behaves exactly like one with no list. */
  lemma EmptyVariantsLikeAbsent(item: MenuItem, selectedId: string)
    requires item.variants == Some([])
    ensures DefaultVariantId(item) == DefaultVariantId(item.(variants := None)) == ""
    ensures ActiveNutrition(item, selectedId) == ActiveNutrition(item.(variants := None), selectedId) == item.nutrition
  {
  }

  /** Selecting a variant by its id displays that variant's stored nutrition. */
  lemma SelectVariantRoundTrip(item: MenuItem, i: nat)
    requires item.variants.Some? && i < |item.variants.value|
    requires DistinctIds(item.variants.value)
    ensures SelectedVariant(item, item.variants.value[i].id) == Some(item.variants.value[i])
    ensures ActiveNutrition(item, item.variants.value[i].id) == item.variants.value[i].nutrition
  {
    var vs := item.variants.value;
    var k := IndexOfId(vs, vs[i].id);
    assert k.Some?;
  }

  /** With variants present, the initial selection always names a variant, so the
      card never falls back to the item's own nutrition at first render. */
  lemma DefaultSelectsAVariant(item: MenuItem)
    requires NormalizedVariants(item).Some?
    ensures SelectedVariant(item, DefaultVariantId(item)).Some?
    ensures exists j :: 0 <= j < |item.variants.value| && ActiveNutrition(item, DefaultVariantId(item)) == item.variants.value[j].nutrition
  {
    var vs := item.variants.value;
    var k := IndexOfId(vs, DefaultVariantId(item));
    assert k.Some?;
    assert ActiveNutrition(item, DefaultVariantId(item)) == vs[k.value].nutrition;
  }

  /** `DefaultSelectsAVariant` in implication form, for use inside function bodies. */
  lemma DefaultSelectsAVariantIfAny(item: MenuItem)
    ensures NormalizedVariants(item).Some? ==> SelectedVariant(item, DefaultVariantId(item)).Some?
  {
    if NormalizedVariants(item).Some? {
      DefaultSelectsAVariant(item);
    }
  }

  /** Two portions, the second flagged as default and no `defaultVariantId`: the second is selected. */
  lemma FlaggedDefaultExample(n8: Nutrition, n12: Nutrition, base: Nutrition)
    ensures var item := MenuItem(None, "Nuggets", base, None, "Entrees", Single, None,
                                 Some([ItemVariant("8pc", "8 piece", n8, None, Some(false)),
                                       ItemVariant("12pc", "12 piece", n12, None, Some(true))]),
                                 None);
            DefaultVariantId(item) == "12pc" && ActiveNutrition(item, DefaultVariantId(item)) == n12
  {
    var vs := [ItemVariant("8pc", "8 piece", n8, None, Some(false)), ItemVariant("12pc", "12 piece", n12, None, Some(true))];
    assert !IsFlaggedDefault(vs[0]) && IsFlaggedDefault(vs[1]);
    assert vs[0].id != "12pc";
  }
}
