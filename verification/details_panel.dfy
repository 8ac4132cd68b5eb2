/** The expandable details panel of a menu card: the nutrition-label cell
    formatter, the calorie-to-protein ratio text and the portion buttons. */
module DetailsPanel {
  import opened Wrappers
  import opened Menu
  import opened Decimal
  import JsMath

  /** The placeholder shown for a missing value (an em dash). */
  const Dash: string := "\U{2014}"

  /** A nutrition-label cell: the value followed by its unit suffix, or the
      placeholder when the value is missing. */
  function Format(n: Option<nat>, suffix: string := ""): (r: string)
    ensures n.None? ==> r == Dash
    ensures n.Some? ==>
      && |r| > |suffix|
      && r[|r| - |suffix|..] == suffix
      && AllDigits(r[..|r| - |suffix|])
      && ParseNat(r[..|r| - |suffix|]) == n.value
    ensures n.Some? ==> r[..|r| - |suffix|] == NatToString(n.value)
  {
    match n
    case None => Dash
    case Some(v) =>
      var s := NatToString(v);
      assert (s + suffix)[..|s|] == s;
      ParseNatToString(v);
      s + suffix
  }

  /** The placeholder appears exactly for missing values, whatever the suffix. */
  lemma FormatDashIffMissing(n: Option<nat>, suffix: string)
    ensures Format(n, suffix) == Dash <==> n.None?
  {
    if n.Some? {
      var r := Format(n, suffix);
      assert IsDigit(r[0]);
    }
  }

  /** The "Cal to Protein Ratio" cell: the placeholder for zero protein, otherwise
      `Math.round(calories / protein)` followed by `":1"`. */
  function CalToProteinRatio(calories: nat, protein: nat): (r: string)
    ensures protein == 0 ==> r == Dash
    ensures protein != 0 ==> r == NatToString((2 * calories + protein) / (2 * protein)) + ":1"
  {
    if protein == 0 then Dash
    else
      var rounded := JsMath.RoundHalfUp(calories as real / protein as real);
      JsMath.RoundedQuotient(calories, protein);
      NatToString(rounded) + ":1"
  }

  /** The ratio cell shows the placeholder exactly when protein is zero. */
  lemma RatioDashIffZeroProtein(calories: nat, protein: nat)
    ensures CalToProteinRatio(calories, protein) == Dash <==> protein == 0
  {
    if protein != 0 {
      assert IsDigit(CalToProteinRatio(calories, protein)[0]);
    }
  }

  /** One button of the portion row: its caption, whether it is highlighted, and the
      id it reports when clicked. */
  datatype PortionButton = PortionButton(caption: string, active: bool, reportsId: string)

  /** The portion row: absent unless there is at least one variant; otherwise one
      button per variant, in order, highlighted when its id is the selected id. */
  function PortionSection(variants: Option<seq<ItemVariant>>, selectedId: string): (r: Option<seq<PortionButton>>)
    ensures r.Some? <==> variants.Some? && |variants.value| > 0
    ensures r.Some? ==> |r.value| == |variants.value|
    ensures r.Some? ==> forall i :: 0 <= i < |r.value| ==>
              && r.value[i].caption == variants.value[i].labelText
              && (r.value[i].active <==> variants.value[i].id == selectedId)
              && r.value[i].reportsId == variants.value[i].id
  {
    match variants
    case Some(vs) =>
      if |vs| > 0 then
        Some(seq(|vs|, i requires 0 <= i < |vs| => PortionButton(vs[i].labelText, vs[i].id == selectedId, vs[i].id)))
      else None
    case None => None
  }

  /** Positions of highlighted buttons. */
  function ActivePositions(buttons: seq<PortionButton>): set<nat> {
    set i: nat | i < |buttons| && buttons[i].active
  }

  /** With distinct variant ids at most one portion button is highlighted, and it is
      the one whose variant carries the selected id. */
  lemma AtMostOneActive(vs: seq<ItemVariant>, selectedId: string)
    requires |vs| > 0
    requires DistinctIds(vs)
    ensures var buttons := PortionSection(Some(vs), selectedId).value;
            |ActivePositions(buttons)| <= 1
            && forall i :: i in ActivePositions(buttons) ==> vs[i].id == selectedId
  {
    var buttons := PortionSection(Some(vs), selectedId).value;
    var act := ActivePositions(buttons);
    if act != {} {
      var i :| i in act;
      assert act == {i};
    }
  }
}
