/** The home page's restaurant search: the query is trimmed and lower-cased; a blank
    query lists every restaurant, any other keeps, in order, the restaurants whose
    lower-cased name contains it. */
module RestaurantSearch {
  import opened Menu
  import opened Text
  import Seqs

  /** The query as the filter compares it. */
  function NormalizeQuery(query: string): (q: string)
    ensures q == Trim(ToLower(query))
    ensures |q| == 0 || (!IsWhitespace(q[0]) && !IsWhitespace(q[|q| - 1]))
    ensures ToLower(q) == q
  {
    TrimToLowerCommute(query);
    ToLowerIdempotent(Trim(query));
    TrimStartSpec(ToLower(query));
    TrimEndSpec(TrimStart(ToLower(query)));
    ToLower(Trim(query))
  }

  /** A restaurant matches a normalized query when its lower-cased name contains it. */
  predicate Matches(r: Restaurant, q: string) {
    Contains(ToLower(r.name), q)
  }

  function MatchesQuery(q: string): Restaurant -> bool {
    (r: Restaurant) => Matches(r, q)
  }

  /** The restaurants listed for `query`. */
  function FilterRestaurants(restaurants: seq<Restaurant>, query: string): (result: seq<Restaurant>)
    ensures NormalizeQuery(query) == "" ==> result == restaurants
    ensures |result| <= |restaurants|
    ensures Seqs.IsSubsequence(result, restaurants)
    ensures forall r :: r in result ==> r in restaurants && IsSubstring(ToLower(r.name), NormalizeQuery(query))
    ensures forall k :: 0 <= k < |restaurants| && IsSubstring(ToLower(restaurants[k].name), NormalizeQuery(query))
              ==> restaurants[k] in result
    ensures forall x :: multiset(result)[x] ==
              if IsSubstring(ToLower(x.name), NormalizeQuery(query)) then multiset(restaurants)[x] else 0
  {
    var q := NormalizeQuery(query);
    if q == "" then
      BlankQueryMatchesAll(q);
      Seqs.SubsequenceOfItself(restaurants);
      restaurants
    else
      MatchesMeansOccurs(q);
      Seqs.Filter(restaurants, MatchesQuery(q))
  }

  /** The empty query occurs in every name. */
  lemma BlankQueryMatchesAll(q: string)
    requires q == ""
    ensures forall r: Restaurant :: IsSubstring(ToLower(r.name), q)
  {
    forall r: Restaurant
      ensures IsSubstring(ToLower(r.name), q)
    {
      assert OccursAt(ToLower(r.name), q, 0);
    }
  }

  lemma MatchesMeansOccurs(q: string)
    ensures forall r :: Matches(r, q) <==> IsSubstring(ToLower(r.name), q)
  {
    forall r: Restaurant
      ensures Matches(r, q) <==> IsSubstring(ToLower(r.name), q)
    {
      ContainsIff(ToLower(r.name), q);
    }
  }

  /** Queries that differ only in letter case list the same restaurants. */
  lemma CaseInsensitive(restaurants: seq<Restaurant>, q1: string, q2: string)
    requires ToLower(q1) == ToLower(q2)
    ensures FilterRestaurants(restaurants, q1) == FilterRestaurants(restaurants, q2)
  {
    assert NormalizeQuery(q1) == NormalizeQuery(q2);
  }

  /** Whitespace around a query does not change what is listed. */
  lemma SurroundingWhitespaceIgnored(restaurants: seq<Restaurant>, before: string, query: string, after: string)
    requires AllWhitespace(before) && AllWhitespace(after)
    ensures FilterRestaurants(restaurants, before + query + after) == FilterRestaurants(restaurants, query)
  {
    ToLowerAppend(before + query, after);
    ToLowerAppend(before, query);
    forall i | 0 <= i < |ToLower(before)|
      ensures IsWhitespace(ToLower(before)[i])
    {
      LowerCharWhitespace(before[i]);
    }
    forall i | 0 <= i < |ToLower(after)|
      ensures IsWhitespace(ToLower(after)[i])
    {
      LowerCharWhitespace(after[i]);
    }
    TrimSurroundingWhitespace(ToLower(before), ToLower(query), ToLower(after));
  }

  /** Searching the listed restaurants again with the same query lists them all again. */
  lemma FilterIdempotent(restaurants: seq<Restaurant>, query: string)
    ensures var once := FilterRestaurants(restaurants, query);
            FilterRestaurants(once, query) == once
  {
    var q := NormalizeQuery(query);
    if q != "" {
      Seqs.FilterIdempotent(restaurants, MatchesQuery(q));
    }
  }

  lemma NormalizeExample()
    ensures NormalizeQuery("ch") == "ch"
  {
    var s := "ch";
    assert s[0] == 'c' && s[1] == 'h';
    assert LowerChar('c') == 'c' && LowerChar('h') == 'h';
    assert ToLower(s) == s;
    assert !IsWhitespace('c') && !IsWhitespace('h');
    assert TrimStart(s) == s;
    assert TrimEnd(s) == s;
    assert Trim(s) == s;
  }

  lemma PrefixMatches(r: Restaurant)
    requires |r.name| >= 2 && r.name[0] in "Cc" && r.name[1] in "Hh"
    ensures Matches(r, "ch")
  {
    assert ToLower(r.name)[..2] == "ch";
  }

  lemma PaneraNoMatch()
    ensures !Matches(Restaurant("panera", "Panera", "", "", ""), "ch")
  {
    var p := ToLower("Panera");
    assert p == "panera";
    assert 'c' !in p;
    MissingFirstCharNotContained(p, "ch");
  }

  /** Filtering three elements of which only the first two qualify keeps those two. */
  lemma FilterFirstTwo(a: Restaurant, b: Restaurant, c: Restaurant, p: Restaurant -> bool)
    requires p(a) && p(b) && !p(c)
    ensures Seqs.Filter([a, b, c], p) == [a, b]
  {
    assert [a, b, c][1..] == [b, c] && [b, c][1..] == [c] && [c][1..] == [];
  }

  /** Three restaurants searched for "ch": the two whose names contain "ch" in any case, in order. */
  lemma SearchExample()
    ensures var chick := Restaurant("chick-fil-a", "Chick-fil-A", "", "", "");
            var chipotle := Restaurant("chipotle", "Chipotle", "", "", "");
            var panera := Restaurant("panera", "Panera", "", "", "");
            FilterRestaurants([chick, chipotle, panera], "ch") == [chick, chipotle]
  {
    var chick := Restaurant("chick-fil-a", "Chick-fil-A", "", "", "");
    var chipotle := Restaurant("chipotle", "Chipotle", "", "", "");
    var panera := Restaurant("panera", "Panera", "", "", "");
    NormalizeExample();
    PrefixMatches(chick);
    PrefixMatches(chipotle);
    PaneraNoMatch();
    FilterFirstTwo(chick, chipotle, panera, MatchesQuery("ch"));
  }
}
