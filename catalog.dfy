/** The fixed landmark catalog of the quiz and the pure derivations over it:
    the landmarks of the selected route (a filter that keeps catalog order)
    and the landmark at the current index. */
module Catalog {
  import opened Wrappers

  /** The three themed routes; every landmark belongs to exactly one. */
  datatype Route = Historical | Cultural | Natural

  /** A landmark as far as the game logic sees it: its id, its route, how many
      answer options its question offers and which of them is correct.
      Names, texts, hints and map coordinates are display data only. */
  datatype Landmark = Landmark(id: int, route: Route, answerCount: int, correctAnswer: int)

  /** Answer options per question in the catalog. */
  const AnswerOptions := 4

  /** The catalog, in source order. */
  const Landmarks: seq<Landmark> := [
    Landmark(1, Historical, AnswerOptions, 1),
    Landmark(2, Cultural, AnswerOptions, 2),
    Landmark(3, Natural, AnswerOptions, 1),
    Landmark(4, Historical, AnswerOptions, 1),
    Landmark(5, Cultural, AnswerOptions, 1),
    Landmark(6, Natural, AnswerOptions, 2)
  ]

  /** The landmarks of `catalog` on `route`, in catalog order. */
  function Filter(catalog: seq<Landmark>, route: Route): (f: seq<Landmark>)
    ensures |f| <= |catalog|
    decreases |catalog|
  {
    if catalog == [] then []
    else if catalog[0].route == route then [catalog[0]] + Filter(catalog[1..], route)
    else Filter(catalog[1..], route)
  }

  /** The filter keeps exactly the landmarks of the catalog that are on the route. */
  lemma {:induction false} FilterMembers(catalog: seq<Landmark>, route: Route)
    ensures forall l :: l in Filter(catalog, route) <==> l in catalog && l.route == route
    decreases |catalog|
  {
    if catalog != [] {
      FilterMembers(catalog[1..], route);
      assert catalog == [catalog[0]] + catalog[1..];
    }
  }

  /** The landmarks of the selected route; none while no route is selected. */
  function RouteLandmarks(catalog: seq<Landmark>, selected: Option<Route>): (rl: seq<Landmark>)
    ensures |rl| <= |catalog|
    ensures forall l :: l in rl <==> l in catalog && selected == Some(l.route)
  {
    match selected
    case None => []
    case Some(route) => FilterMembers(catalog, route); Filter(catalog, route)
  }

  /** The landmark at `index` of a route's list, or None when the index is out
      of range (an array read past the end gives `undefined`). */
  function LandmarkAt(routeLandmarks: seq<Landmark>, index: int): (c: Option<Landmark>)
    ensures c.Some? <==> 0 <= index < |routeLandmarks|
    ensures c.Some? ==> c.value == routeLandmarks[index] && c.value in routeLandmarks
  {
    if 0 <= index < |routeLandmarks| then Some(routeLandmarks[index]) else None
  }

  /** Filtering a concatenation filters each part: the filter never reorders
      landmarks across a split point. */
  lemma {:induction false} FilterAppend(a: seq<Landmark>, b: seq<Landmark>, route: Route)
    ensures Filter(a + b, route) == Filter(a, route) + Filter(b, route)
    decreases |a|
  {
    if a == [] {
      assert a + b == b;
    } else {
      assert (a + b)[1..] == a[1..] + b;
      FilterAppend(a[1..], b, route);
    }
  }

  /** A landmark of the route sits in the filtered list at the position given by
      the number of landmarks of that route before it in the catalog. */
  lemma FilterPosition(catalog: seq<Landmark>, route: Route, j: int)
    requires 0 <= j < |catalog| && catalog[j].route == route
    ensures |Filter(catalog[..j], route)| < |Filter(catalog, route)|
    ensures Filter(catalog, route)[|Filter(catalog[..j], route)|] == catalog[j]
  {
    assert catalog == catalog[..j] + catalog[j..];
    FilterAppend(catalog[..j], catalog[j..], route);
    assert catalog[j..][0] == catalog[j];
  }

  /** Order preservation: of two landmarks of the route, the one earlier in the
      catalog comes strictly earlier in the filtered list. */
  lemma FilterOrder(catalog: seq<Landmark>, route: Route, i: int, j: int)
    requires 0 <= i < j < |catalog|
    requires catalog[i].route == route && catalog[j].route == route
    ensures |Filter(catalog[..i], route)| < |Filter(catalog[..j], route)|
  {
    assert catalog[..j] == catalog[..i] + catalog[i..j];
    FilterAppend(catalog[..i], catalog[i..j], route);
    assert catalog[i..j][0] == catalog[i];
  }

  /** The routes partition the catalog: their filtered lists add up to all of it. */
  lemma {:induction false} FilterPartition(catalog: seq<Landmark>)
    ensures |Filter(catalog, Historical)| + |Filter(catalog, Cultural)| + |Filter(catalog, Natural)|
            == |catalog|
    decreases |catalog|
  {
    if catalog != [] {
      FilterPartition(catalog[1..]);
    }
  }

  /** `x` as a one-element list when it is on `route`, else the empty list. */
  function Keep(x: Landmark, route: Route): seq<Landmark> {
    if x.route == route then [x] else []
  }

  /** Filtering the suffix of `s` from `k` keeps `s[k]` exactly when it is on
      the route, then filters the suffix from `k + 1`. */
  lemma FilterSuffix(s: seq<Landmark>, k: int, route: Route)
    requires 0 <= k < |s|
    ensures Filter(s[k..], route) == Keep(s[k], route) + Filter(s[k + 1..], route)
  {
    assert s[k..][0] == s[k] && s[k..][1..] == s[k + 1..];
  }

  /** Filtering a six-entry list, spelled out entry by entry. */
  lemma FilterSix(s: seq<Landmark>, route: Route)
    requires |s| == 6
    ensures Filter(s, route) == Keep(s[0], route) + (Keep(s[1], route) + (Keep(s[2], route)
                                + (Keep(s[3], route) + (Keep(s[4], route) + Keep(s[5], route)))))
  {
    assert s[6..] == [];
    FilterSuffix(s, 5, route);
    assert Filter(s[5..], route) == Keep(s[5], route);
    FilterSuffix(s, 4, route);
    FilterSuffix(s, 3, route);
    FilterSuffix(s, 2, route);
    FilterSuffix(s, 1, route);
    FilterSuffix(s, 0, route);
    assert s[0..] == s;
  }

  /** The historical route: catalog landmarks 1 and 4, in that order. */
  lemma HistoricalRoute()
    ensures Filter(Landmarks, Historical) == [Landmarks[0], Landmarks[3]]
  {
    var s := Landmarks;
    FilterSix(s, Historical);
    assert Keep(s[4], Historical) + Keep(s[5], Historical) == [];
    assert Keep(s[2], Historical) + (Keep(s[3], Historical) + []) == [s[3]];
  }

  /** The cultural route: catalog landmarks 2 and 5, in that order. */
  lemma CulturalRoute()
    ensures Filter(Landmarks, Cultural) == [Landmarks[1], Landmarks[4]]
  {
    var s := Landmarks;
    FilterSix(s, Cultural);
    assert Keep(s[4], Cultural) + Keep(s[5], Cultural) == [s[4]];
    assert Keep(s[2], Cultural) + (Keep(s[3], Cultural) + [s[4]]) == [s[4]];
  }

  /** The natural route: catalog landmarks 3 and 6, in that order. */
  lemma NaturalRoute()
    ensures Filter(Landmarks, Natural) == [Landmarks[2], Landmarks[5]]
  {
    var s := Landmarks;
    FilterSix(s, Natural);
    assert Keep(s[4], Natural) + Keep(s[5], Natural) == [s[5]];
    assert Keep(s[2], Natural) + (Keep(s[3], Natural) + [s[5]]) == [s[2], s[5]];
  }

  /** With this catalog every route has exactly two landmarks (the "2 points"
      badge on each route card): landmarks 1 and 4 are historical, 2 and 5
      cultural, 3 and 6 natural. */
  lemma CatalogRoutes()
    ensures Filter(Landmarks, Historical) == [Landmarks[0], Landmarks[3]]
    ensures Filter(Landmarks, Cultural) == [Landmarks[1], Landmarks[4]]
    ensures Filter(Landmarks, Natural) == [Landmarks[2], Landmarks[5]]
    ensures forall r: Route :: |Filter(Landmarks, r)| == 2
  {
    HistoricalRoute();
    CulturalRoute();
    NaturalRoute();
    forall r: Route ensures |Filter(Landmarks, r)| == 2 {
      match r
      case Historical =>
      case Cultural =>
      case Natural =>
    }
  }

  /** Every catalog question has four options and a correct index among them,
      and landmark ids are distinct. */
  lemma CatalogWellFormed()
    ensures forall l :: l in Landmarks ==> l.answerCount == AnswerOptions && 0 <= l.correctAnswer < l.answerCount
    ensures forall i, j :: 0 <= i < j < |Landmarks| ==> Landmarks[i].id != Landmarks[j].id
  {
  }
}
