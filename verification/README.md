# High-protein fast-food finder: a Dafny model of its display logic

This project models the logic of a small restaurant-menu browser. The logic has three parts:

- **Restaurant search** on the home page. The query is trimmed and lower-cased. A blank
  query lists every restaurant. Any other query keeps, in order, the restaurants whose
  lower-cased name contains it.
- **Portion-variant resolution** on a menu card. The card chooses which portion
  (variant) is selected at first render: the item's `defaultVariantId` if it names a
  variant, else the first variant flagged `isDefault`, else the first variant. An empty
  `defaultVariantId` is ignored, even when some variant's id is `""`
  (components/MenuItemCard.tsx:35). It then
  displays the selected variant's nutrition, or the item's own nutrition when nothing
  is selected.
- **Display helpers**. These are the two-digit rank badge (`pad2`), the
  calories-per-protein ratio with its zero-protein guard, the nutrition-label cell
  formatter, and the portion buttons of the details panel.

Modules, leaf first:

| file | module | models |
|---|---|---|
| wrappers.dfy | `Wrappers` | `Option`, for every optional field and `undefined` result |
| seqs.dfy | `Seqs` | `Array.prototype.find` / `filter` and the subsequence relation |
| text.dfy | `Text` | `trim`, `toLowerCase` (ASCII letters), `includes` |
| decimal.dfy | `Decimal` | `String(n)` for whole numbers, its inverse, `padStart` |
| jsmath.dfy | `JsMath` | `Infinity` and `Math.round` |
| menu.dfy | `Menu` | the data shapes of `types/menu.ts` and the restaurant directory entry |
| variants.dfy | `VariantResolution` | default-variant and active-nutrition resolution of the menu card |
| details_panel.dfy | `DetailsPanel` | `format`, `calToProteinRatio`, the portion row |
| card.dfy | `CardDisplay` | `pad2`, `caloriesPerProtein`, rank badge, ratio cell, card selection state |
| search.dfy | `RestaurantSearch` | the home page's `filteredRestaurants` |

The data shapes are datatypes:

- `Nutrition` always has calories, protein, totalFat and carbs.
- Its six micronutrient fields are `Option`s.
- Every `ItemVariant` carries a complete `Nutrition`.
- `MenuItem.nutrition` is required, so the fallback of variant resolution is always defined.
- `PortionType` is a closed datatype of six tags.
- `variants`, `defaultVariantId`, `isDefault` and the variant's `portionType` override are `Option`s.
- The variant's `label` field is called `labelText`, because `label` is a Dafny keyword.

Nutrition quantities are whole numbers (`nat`). JavaScript's division is modelled on `real`. `Infinity`
is the `PosInfinity` case of `JsMath.Extended`. `Math.round(x)` is modelled as `floor(x + 0.5)` on exact
reals. ECMAScript defines `Math.round` as the closest integer, with ties going toward +∞. On exact reals
the two agree, except that JavaScript returns −0 for x in [−0.5, 0). Negative values never reach
`Math.round` here.

## Model

| member | source | states |
|---|---|---|
| `Seqs.Find` | components/MenuItemCard.tsx:42 | `find` returns the first position whose element satisfies the predicate, and nothing exactly when no element does |
| `Seqs.Filter` | app/page.tsx:17-19 | `filter` keeps, in order, exactly the elements satisfying the predicate. The result is a subsequence of the input and no longer than it. Each element occurs as often as in the input if it satisfies the predicate, and not at all otherwise |
| `Seqs.FilterIdempotent` | app/page.tsx:17-19 | filtering a filtered list again with the same predicate changes nothing |
| `Text.TrimStartSpec` | app/page.tsx:12 | leading-whitespace removal yields the longest suffix that does not start with ECMAScript whitespace; everything removed is whitespace |
| `Text.TrimEndSpec` | app/page.tsx:12 | trailing-whitespace removal yields the longest prefix that does not end with whitespace; everything removed is whitespace |
| `Text.ToLower` | app/page.tsx:12 | lower-casing keeps the length of the string |
| `Text.ToLowerSpec` | app/page.tsx:12 | lower-casing turns each of `A`-`Z` into the letter 32 code points later and keeps every other character, so no upper-case ASCII letter remains |
| `Text.TrimSpec` | app/page.tsx:12 | `trim` keeps a contiguous part of the string that neither starts nor ends with whitespace, and everything cut off on either side is whitespace |
| `Text.ToLowerIdempotent` | app/page.tsx:12 | lower-casing an already lower-cased string changes nothing |
| `Text.ContainsIff` | app/page.tsx:18 | `includes` holds exactly when the needle occurs at some position of the string |
| `Text.TrimToLowerCommute` | app/page.tsx:12 | trimming and lower-casing commute |
| `Text.TrimSurroundingWhitespace` | app/page.tsx:12 | whitespace around a string does not change its trimmed form |
| `Decimal.NatToString` | components/MenuItemCard.tsx:11 | `String(n)` is a non-empty digit string, one digit exactly for n < 10, starting with `0` only for zero |
| `Decimal.ParseNatToString` | components/ItemDetailsPanel.tsx:5 | reading back the decimal rendering of a number gives the number |
| `Decimal.PadStart` | components/MenuItemCard.tsx:11 | `padStart` output has length max(width, length), ends with the input, and is fill characters before it |
| `Menu.ParsePortionType` | types/menu.ts:1-7 | a string read as a portion tag is the literal of the tag it yields |
| `Menu.PortionTagRoundTrip` | types/menu.ts:1-7 | every portion tag's literal reads back as that tag |
| `Menu.ParsePortionTypeComplete` | types/menu.ts:1-7 | a string is a portion tag exactly when it is one of the six literals |
| `VariantResolution.NormalizedVariants` | components/MenuItemCard.tsx:32 | the card has a variant list exactly when the item's list is present and non-empty, and then it is the item's list |
| `VariantResolution.DefaultVariantId` | components/MenuItemCard.tsx:33-40 | with no variants the initial id is `""`. Otherwise it is always some variant's id: the non-empty `defaultVariantId` when a variant carries it, else the first `isDefault` variant's id, else the first variant's id |
| `VariantResolution.SelectedVariant` | components/MenuItemCard.tsx:42 | a variant is selected exactly when some variant carries the selected id. The selected variant is the list element at the first position carrying that id |
| `VariantResolution.ActiveNutrition` | components/MenuItemCard.tsx:42-43 | the displayed nutrition is the first variant with the selected id's nutrition, or the item's own when no variant is selected |
| `VariantResolution.EmptyVariantsLikeAbsent` | components/MenuItemCard.tsx:32-43 | an empty variant list resolves exactly like a missing one: id `""` and the item's own nutrition |
| `VariantResolution.SelectVariantRoundTrip` | components/MenuItemCard.tsx:42-43 | with distinct ids, selecting a variant's id selects that variant and displays its stored nutrition |
| `VariantResolution.DefaultSelectsAVariant` | components/MenuItemCard.tsx:33-43 | with variants present, the initial selection always finds a variant and displays one of the variants' nutrition records |
| `VariantResolution.FlaggedDefaultExample` | components/MenuItemCard.tsx:38-39 | for `8pc` (not default) and `12pc` (flagged default) with no `defaultVariantId`, `12pc` is selected and its nutrition shown |
| `JsMath.RoundHalfUp` | components/ItemDetailsPanel.tsx:10 | `Math.round` gives the integer within half a unit, with halves rounded up |
| `JsMath.MathRound` | components/MenuItemCard.tsx:54 | `Math.round` keeps `Infinity` and turns a finite value into the nearest integer |
| `JsMath.RoundedQuotient` | components/ItemDetailsPanel.tsx:10 | for whole c and p > 0, `Math.round(c / p)` equals `(2c + p) div (2p)` |
| `DetailsPanel.Format` | components/ItemDetailsPanel.tsx:4-6 | a missing value prints as the dash. A present one prints as its decimal rendering, which reads back to the value, followed by the suffix |
| `DetailsPanel.FormatDashIffMissing` | components/ItemDetailsPanel.tsx:5 | a cell shows the dash exactly when its value is missing |
| `DetailsPanel.CalToProteinRatio` | components/ItemDetailsPanel.tsx:8-11 | zero protein prints the dash; otherwise the text is the rounded quotient `(2c + p) div (2p)` followed by `:1` |
| `DetailsPanel.RatioDashIffZeroProtein` | components/ItemDetailsPanel.tsx:9 | the ratio cell shows the dash exactly when protein is zero |
| `DetailsPanel.PortionSection` | components/ItemDetailsPanel.tsx:110-127 | the portion row exists exactly when there is at least one variant. It has one button per variant in order: captioned with its label, active exactly when its id is the selected id, reporting its own id |
| `DetailsPanel.AtMostOneActive` | components/ItemDetailsPanel.tsx:116-117 | with distinct variant ids at most one portion button is active, and an active one carries the selected id |
| `CardDisplay.Pad2` | components/MenuItemCard.tsx:10-12 | `pad2` has at least two digits: a leading `0` before a single digit, the number unchanged otherwise, and it reads back as the number |
| `CardDisplay.RankText` | components/MenuItemCard.tsx:50 | a ranked card's badge is `pad2(rankIndex + 1)`: at least two digits, reading back as rank index + 1. An unranked card has no badge |
| `CardDisplay.InitialState` | components/MenuItemCard.tsx:33-41 | a fresh card selects `""` when the item has no variants. Otherwise it starts on the default chain's choice, which always selects a variant: the item's `defaultVariantId` when that is non-empty and names a variant, else the first variant flagged `isDefault`, else the first variant |
| `CardDisplay.PanelPortions` | components/MenuItemCard.tsx:156-162 | the card hands its panel a portion row exactly when the item has a non-empty variant list. The row has one button per variant, captioned with that variant's label, reporting its id, and active exactly when that id is the card's selection |
| `CardDisplay.CaloriesPerProtein` | components/MenuItemCard.tsx:14-17 | the ratio is `Infinity` exactly when protein is zero; otherwise it is the non-negative value that, times protein, gives calories |
| `CardDisplay.CardRatio` | components/MenuItemCard.tsx:52-55 | the rounded card ratio is `Infinity` exactly for zero protein, else `(2c + p) div (2p)` |
| `CardDisplay.RatioCell` | components/MenuItemCard.tsx:116-120 | the ratio cell is rendered exactly when ratios are requested and protein is non-zero |
| `CardDisplay.RatioCellMatchesPanel` | components/MenuItemCard.tsx:116-120 | a rendered card ratio cell reads the same as the details panel's ratio text |
| `CardDisplay.ChoosePortion` | components/ItemDetailsPanel.tsx:123 | clicking portion button i selects exactly variant i's id |
| `CardDisplay.PortionRowIffVariants` | components/ItemDetailsPanel.tsx:110 | the card's details panel shows a portion row exactly when the item has a non-empty variant list |
| `CardDisplay.ExactlyOneActiveAtFirstRender` | components/MenuItemCard.tsx:41-43 | with distinct ids, a fresh card highlights exactly one portion button, and that variant's nutrition is displayed |
| `CardDisplay.ChoosingPortionShowsIt` | components/ItemDetailsPanel.tsx:123 | after clicking button i, exactly button i is active and variant i's nutrition is displayed |
| `RestaurantSearch.NormalizeQuery` | app/page.tsx:12 | the normalized query is the trimmed, lower-cased query: it has no surrounding whitespace and no upper-case letter |
| `RestaurantSearch.FilterRestaurants` | app/page.tsx:11-20 | a blank normalized query lists everything unchanged. Otherwise the result is an order-preserving subsequence, no longer than the input. It holds only restaurants whose lower-cased name contains the query, and every such restaurant as often as it occurs in the input |
| `RestaurantSearch.CaseInsensitive` | app/page.tsx:12 | queries equal up to letter case list the same restaurants |
| `RestaurantSearch.SurroundingWhitespaceIgnored` | app/page.tsx:12 | whitespace before and after a query does not change what is listed |
| `RestaurantSearch.FilterIdempotent` | app/page.tsx:17-19 | searching the listed restaurants again with the same query lists them all again |
| `RestaurantSearch.SearchExample` | app/page.tsx:11-20 | "ch" over Chick-fil-A, Chipotle, Panera lists Chick-fil-A and Chipotle |

## Left out

- Menu ranking (sorting by protein, ratio and calories): app/restaurant/[id]/page.tsx is not part of this model.
- The "restaurant not found" lookup: app/restaurant/[id]/page.tsx is not part of this model.
- Autocomplete and its keyboard highlight: app/page.tsx has only the plain filter, so there is nothing to model.
- Loading the restaurant directory from `data/index.json`: the restaurant list is a parameter.
- React machinery: `useState`, `useMemo`, `useId` and re-render timing. For example, a card does not re-initialise its selection when its item changes. The card's selection is the explicit `CardState`.
- Markup and styling: the nutrition-label rows, images, links, the expand toggle, the sticky restaurant bar, the header gradient, and the `<select>` wrapper. These carry no logic beyond what is modelled.
- Floating point: values are whole numbers; rounding error, `NaN`, −0 and negative quantities are not modelled.
- `Decimal.NatToString`: prints every whole number in plain digits. JavaScript's `String(n)` switches to exponent notation from 10^21 on, which is not modelled.
- `Text.ToLower`: lower-cases ASCII letters only. Unicode case mapping of other letters is not modelled.
- `DetailsPanel.Format`: renders whole numbers only. A fractional value such as 2.5 is outside the `nat` model.
- `CardDisplay.RankText`: takes the rank index as a whole number. JavaScript would accept any number.
- `DetailsPanel.PortionSection`: takes the selected id as a string, which is what the card always passes. The panel's own type also allows it to be missing.
- The card's `?? 0` fallbacks for calories, protein, carbs and fat (components/MenuItemCard.tsx:45-48) and the category's `?? "—"` are unreachable, because those fields are required. They are not modelled.
