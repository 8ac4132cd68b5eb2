/** The menu card: rank badge, calorie-per-protein ratio cell, and how the card's
    selected portion drives both the displayed nutrition and the details panel. */
module CardDisplay {
  import opened Wrappers
  import opened Menu
  import opened Decimal
  import opened JsMath
  import VariantResolution
  import DetailsPanel

  /** `String(n).padStart(2, "0")`: the number with a leading zero when it has a single digit. */
  function Pad2(n: nat): (r: string)
    ensures |r| >= 2 && AllDigits(r)
    ensures n < 10 ==> r == ['0', DigitChar(n)]
    ensures n >= 10 ==> r == NatToString(n)
    ensures ParseNat(r) == n
  {
    var s := NatToString(n);
    ParseNatToString(n);
    ParseNatLeadingZero(s);
    assert n < 10 ==> PadStart(s, 2, '0') == "0" + s;
    PadStart(s, 2, '0')
  }

  /** The rank badge: `pad2(rankIndex + 1)` when the card is ranked, nothing otherwise. */
  function RankText(rankIndex: Option<nat>): (r: Option<string>)
    ensures r.Some? <==> rankIndex.Some?
    ensures r.Some? ==> |r.value| >= 2 && AllDigits(r.value) && ParseNat(r.value) == rankIndex.value + 1
    ensures r.Some? ==> r.value == Pad2(rankIndex.value + 1)
  {
    match rankIndex
    case Some(i) => Some(Pad2(i + 1))
    case None => None
  }

  /** Calories per gram of protein, `Infinity` when there is no protein. */
  function CaloriesPerProtein(calories: nat, protein: nat): (r: Extended)
    ensures r.PosInfinity? <==> protein == 0
    ensures r.Finite? ==> r.value >= 0.0 && r.value * protein as real == calories as real
  {
    if protein == 0 then PosInfinity else Finite(calories as real / protein as real)
  }

  /** The card's rounded ratio, `Math.round(caloriesPerProtein(...))`. */
  function CardRatio(n: Nutrition): (r: Extended)
    ensures r.PosInfinity? <==> n.protein == 0
    ensures r.Finite? ==> r.value == ((2 * n.calories + n.protein) / (2 * n.protein)) as real
  {
    if n.protein == 0 then MathRound(CaloriesPerProtein(n.calories, n.protein))
    else
      RoundedQuotient(n.calories, n.protein);
      MathRound(CaloriesPerProtein(n.calories, n.protein))
  }

  /** The ratio cell's text, present only when the card asks for ratios and the
      rounded ratio is finite. */
  function RatioCell(showRatio: bool, n: Nutrition): (r: Option<string>)
    ensures r.Some? <==> showRatio && n.protein != 0
  {
    var ratio := CardRatio(n);
    if showRatio && ratio.Finite? then
      Some(NatToString(ratio.value.Floor) + ":1")
    else None
  }

  /** Whenever the card shows a ratio cell, it reads the same as the details panel's ratio. */
  lemma RatioCellMatchesPanel(showRatio: bool, n: Nutrition)
    requires showRatio && n.protein != 0
    ensures RatioCell(showRatio, n).value == DetailsPanel.CalToProteinRatio(n.calories, n.protein)
  {
  }

  /** The state a card keeps: the id of the selected portion. */
  datatype CardState = CardState(selectedVariantId: string)

  /** The state a card starts in. */
  function InitialState(item: MenuItem): (st: CardState)
    ensures VariantResolution.NormalizedVariants(item).None? ==> st.selectedVariantId == ""
    ensures VariantResolution.NormalizedVariants(item).Some? ==> VariantResolution.SelectedVariant(item, st.selectedVariantId).Some?
    ensures VariantResolution.NormalizedVariants(item).Some? ==>
              var vs := VariantResolution.NormalizedVariants(item).value;
              && (VariantResolution.ExplicitDefaultApplies(item, vs) ==> st.selectedVariantId == item.defaultVariantId.value)
              && (!VariantResolution.ExplicitDefaultApplies(item, vs) ==> VariantResolution.IsFallbackChoice(vs, st.selectedVariantId))
  {
    VariantResolution.DefaultSelectsAVariantIfAny(item);
    CardState(VariantResolution.DefaultVariantId(item))
  }

  /** The portion row the card hands to its details panel. */
  function PanelPortions(item: MenuItem, st: CardState): (r: Option<seq<DetailsPanel.PortionButton>>)
    ensures r.Some? <==> item.variants.Some? && |item.variants.value| > 0
    ensures r.Some? ==> |r.value| == |item.variants.value|
    ensures r.Some? ==> forall i :: 0 <= i < |r.value| ==>
              && r.value[i].caption == item.variants.value[i].labelText
              && r.value[i].reportsId == item.variants.value[i].id
              && (r.value[i].active <==> item.variants.value[i].id == st.selectedVariantId)
  {
    DetailsPanel.PortionSection(VariantResolution.NormalizedVariants(item), st.selectedVariantId)
  }

  /** Clicking portion button `i` in the panel selects the id that button reports. */
  function ChoosePortion(item: MenuItem, st: CardState, i: nat): (st': CardState)
    requires PanelPortions(item, st).Some? && i < |PanelPortions(item, st).value|
    ensures st'.selectedVariantId == item.variants.value[i].id
  {
    CardState(PanelPortions(item, st).value[i].reportsId)
  }

  /** The portion row appears exactly when the item has at least one variant. */
  lemma PortionRowIffVariants(item: MenuItem, st: CardState)
    ensures PanelPortions(item, st).Some? <==> item.variants.Some? && |item.variants.value| > 0
  {
  }

  /** With distinct variant ids, a freshly rendered card highlights exactly one portion
      button, and that button's variant supplies the displayed nutrition. */
  lemma ExactlyOneActiveAtFirstRender(item: MenuItem)
    requires item.variants.Some? && |item.variants.value| > 0
    requires DistinctIds(item.variants.value)
    ensures var buttons := PanelPortions(item, InitialState(item)).value;
            exists k :: 0 <= k < |buttons|
              && buttons[k].active
              && (forall j :: 0 <= j < |buttons| && buttons[j].active ==> j == k)
              && VariantResolution.ActiveNutrition(item, InitialState(item).selectedVariantId) == item.variants.value[k].nutrition
  {
    var vs := item.variants.value;
    var id := InitialState(item).selectedVariantId;
    var buttons := PanelPortions(item, InitialState(item)).value;
    var k :| 0 <= k < |vs| && vs[k].id == id;
    VariantResolution.SelectVariantRoundTrip(item, k);
    assert buttons[k].active;
  }

  /** After clicking portion button `i`, that button is the highlighted one and the card
      displays that variant's nutrition. */
  lemma ChoosingPortionShowsIt(item: MenuItem, st: CardState, i: nat)
    requires PanelPortions(item, st).Some? && i < |PanelPortions(item, st).value|
    requires DistinctIds(item.variants.value)
    ensures var st' := ChoosePortion(item, st, i);
            var buttons := PanelPortions(item, st').value;
            (forall j :: 0 <= j < |buttons| ==> (buttons[j].active <==> j == i))
            && VariantResolution.ActiveNutrition(item, st'.selectedVariantId) == item.variants.value[i].nutrition
  {
    VariantResolution.SelectVariantRoundTrip(item, i);
  }
}
