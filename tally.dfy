/**
 * The per-county counter and the percentage shown on a county label.  Each
 * kept marker is counted for the first county, in feature order, whose
 * shape contains its point, and for no county when none does.
 */
module Tally {
  import opened Wrappers
  import opened Geo
  import opened Filter

  /** The position of the first feature whose shape contains `p`, if any. */
  function FirstContaining(features: seq<Feature>, contains: Containment, p: Point): (r: Option<nat>)
    ensures r.Some? ==> r.value < |features| && contains(features[r.value].geometry, p)
    ensures r.Some? ==> forall j :: 0 <= j < r.value ==> !contains(features[j].geometry, p)
    ensures r.None? <==> forall j :: 0 <= j < |features| ==> !contains(features[j].geometry, p)
    decreases |features|
  {
    if |features| == 0 then None
    else if contains(features[0].geometry, p) then Some(0)
    else
      match FirstContaining(features[1..], contains, p)
      case None => None
      case Some(i) => Some(i + 1)
  }

  /** The county name a point is counted for: that of the first feature containing it. */
  function CountyOf(features: seq<Feature>, contains: Containment, p: Point): (r: Option<string>)
    ensures r.Some? ==> exists i :: 0 <= i < |features| && features[i].name == r.value
  {
    match FirstContaining(features, contains, p)
    case None => None
    case Some(i) => Some(features[i].name)
  }

  /** The names of the features: the keys of `county_marker_counts`. */
  function Names(features: seq<Feature>): (r: set<string>)
    ensures forall i :: 0 <= i < |features| ==> features[i].name in r
    ensures forall n :: n in r ==> exists i :: 0 <= i < |features| && features[i].name == n
  {
    set f | f in features :: f.name
  }

  /** How many of `markers` are counted for the county called `name`. */
  function Tally(markers: seq<Marker>, features: seq<Feature>, contains: Containment, name: string): nat
  {
    if markers == [] then 0
    else
      Tally(markers[..|markers| - 1], features, contains, name)
        + if CountyOf(features, contains, markers[|markers| - 1].point) == Some(name) then 1 else 0
  }

  /** Reading marker `k` adds one to the count of its county and to no other. */
  lemma TallyStep(markers: seq<Marker>, k: nat, features: seq<Feature>, contains: Containment)
    requires k < |markers|
    ensures forall n :: Tally(markers[..k + 1], features, contains, n)
                        == Tally(markers[..k], features, contains, n) + (if CountyOf(features, contains, markers[k].point) == Some(n) then 1 else 0)
  {
    assert markers[..k + 1][..k] == markers[..k];
  }

  /** How many of `markers` no county contains. */
  function Unassigned(markers: seq<Marker>, features: seq<Feature>, contains: Containment): nat
  {
    if markers == [] then 0
    else
      Unassigned(markers[..|markers| - 1], features, contains)
        + if CountyOf(features, contains, markers[|markers| - 1].point).None? then 1 else 0
  }

  /** `counts` after the marker at `p` is credited: one more for its county, if it has one. */
  function Credited(counts: map<string, nat>, county: Option<string>): map<string, nat>
  {
    match county
    case None => counts
    case Some(n) => if n in counts then counts[n := counts[n] + 1] else counts
  }

  /**
   * The inner loop of lines 77-81: the features are tried in order and the
   * first one whose shape contains `p` gets one more, after which the search
   * stops.
   */
  method CreditFirstContaining(counts: map<string, nat>, features: seq<Feature>, contains: Containment, p: Point)
    returns (updated: map<string, nat>)
    requires forall i :: 0 <= i < |features| ==> features[i].name in counts
    ensures updated == Credited(counts, CountyOf(features, contains, p))
  {
    updated := counts;
    for j := 0 to |features|
      invariant updated == counts
      invariant forall i :: 0 <= i < j ==> !contains(features[i].geometry, p)
    {
      if contains(features[j].geometry, p) {
        assert FirstContaining(features, contains, p) == Some(j);
        updated := updated[features[j].name := updated[features[j].name] + 1];
        return;
      }
    }
  }

  /**
   * Lines 75-81: every county name starts at 0, and each marker is credited
   * to the first county containing its point.  Afterwards the keys are the
   * county names and each count is that county's tally.
   */
  method CountMarkers(markers: seq<Marker>, features: seq<Feature>, contains: Containment)
    returns (counts: map<string, nat>)
    ensures counts.Keys == Names(features)
    ensures forall n :: n in counts ==> counts[n] == Tally(markers, features, contains, n)
  {
    counts := map f | f in features :: f.name := 0;
    for k := 0 to |markers|
      invariant counts.Keys == Names(features)
      invariant forall n :: n in counts ==> counts[n] == Tally(markers[..k], features, contains, n)
    {
      ghost var before := counts;
      counts := CreditFirstContaining(counts, features, contains, markers[k].point);
      TallyStep(markers, k, features, contains);
      forall n | n in counts
        ensures counts[n] == Tally(markers[..k + 1], features, contains, n)
      {
        assert counts[n] == before[n] + if CountyOf(features, contains, markers[k].point) == Some(n) then 1 else 0;
      }
    }
    assert markers[..|markers|] == markers;
  }

  /** The sum of the tallies of the names in `names`. */
  function SumTallies(markers: seq<Marker>, features: seq<Feature>, contains: Containment, names: seq<string>): nat
  {
    if names == [] then 0
    else Tally(markers, features, contains, names[0]) + SumTallies(markers, features, contains, names[1..])
  }

  /** How often `x` occurs in `names`. */
  function Occurrences(names: seq<string>, x: string): nat
  {
    if names == [] then 0 else (if names[0] == x then 1 else 0) + Occurrences(names[1..], x)
  }

  lemma {:induction false} OccurrencesOfDistinct(names: seq<string>, x: string)
    requires forall i, j :: 0 <= i < j < |names| ==> names[i] != names[j]
    ensures Occurrences(names, x) == if x in names then 1 else 0
  {
    if names != [] {
      OccurrencesOfDistinct(names[1..], x);
      assert x in names <==> names[0] == x || x in names[1..];
      if names[0] == x {
        assert forall j :: 0 <= j < |names[1..]| ==> names[1..][j] == names[j + 1] != names[0];
      }
    }
  }

  /** Adding one marker adds one to the sum for every occurrence of its county's name. */
  lemma {:induction false} SumTalliesStep(markers: seq<Marker>, m: Marker, features: seq<Feature>,
                                          contains: Containment, names: seq<string>)
    ensures SumTallies(markers + [m], features, contains, names)
      == SumTallies(markers, features, contains, names)
         + match CountyOf(features, contains, m.point) { case None => 0 case Some(n) => Occurrences(names, n) }
  {
    var ms := markers + [m];
    assert ms[..|ms| - 1] == markers;
    if names != [] {
      SumTalliesStep(markers, m, features, contains, names[1..]);
    }
  }

  /**
   * Every marker is counted at most once: for any list of distinct names the
   * counts of those names plus the uncounted markers do not exceed the
   * number of markers, and when the list holds every county name they add
   * up to it exactly.
   */
  lemma {:induction false} TalliesPartitionMarkers(markers: seq<Marker>, features: seq<Feature>,
                                                   contains: Containment, names: seq<string>)
    requires forall i, j :: 0 <= i < j < |names| ==> names[i] != names[j]
    ensures SumTallies(markers, features, contains, names) + Unassigned(markers, features, contains) <= |markers|
    ensures (forall i :: 0 <= i < |features| ==> features[i].name in names) ==>
      SumTallies(markers, features, contains, names) + Unassigned(markers, features, contains) == |markers|
  {
    if markers == [] {
      SumTalliesZero(markers, features, contains, names);
    } else {
      var init := markers[..|markers| - 1];
      var m := markers[|markers| - 1];
      assert markers == init + [m];
      TalliesPartitionMarkers(init, features, contains, names);
      SumTalliesStep(init, m, features, contains, names);
      match CountyOf(features, contains, m.point)
      case None =>
      case Some(n) => OccurrencesOfDistinct(names, n);
    }
  }

  lemma {:induction false} SumTalliesZero(markers: seq<Marker>, features: seq<Feature>,
                                          contains: Containment, names: seq<string>)
    requires markers == []
    ensures SumTallies(markers, features, contains, names) == 0
  {
    if names != [] {
      SumTalliesZero(markers, features, contains, names[1..]);
    }
  }

  /** No county's count exceeds the number of markers. */
  lemma TallyAtMostTotal(markers: seq<Marker>, features: seq<Feature>, contains: Containment, name: string)
    ensures Tally(markers, features, contains, name) <= |markers|
  {
    assert SumTallies(markers, features, contains, [name]) == Tally(markers, features, contains, name);
    TalliesPartitionMarkers(markers, features, contains, [name]);
  }

  /** A marker whose point the first county in the list contains is counted for that county. */
  lemma FirstCountyWins(features: seq<Feature>, contains: Containment, p: Point, i: nat)
    requires i < |features| && contains(features[i].geometry, p)
    requires forall j :: 0 <= j < i ==> !contains(features[j].geometry, p)
    ensures CountyOf(features, contains, p) == Some(features[i].name)
  {
  }

  /**
   * Line 112: the county's share of the markers in percent, or 0 when there
   * is no marker at all.  It lies between 0 and 100 when the count does
   * not exceed the total.
   */
  function Percentage(count: nat, total: nat): (r: real)
    ensures total == 0 ==> r == 0.0
    ensures r >= 0.0
    ensures count <= total ==> r <= 100.0
  {
    if total > 0 then (count as real) / (total as real) * 100.0 else 0.0
  }

  /** Line 113: a county gets a label exactly when its percentage is positive. */
  predicate HasLabel(count: nat, total: nat) {
    Percentage(count, total) > 0.0
  }

  /** A county is labelled if and only if there are markers and some are counted for it. */
  lemma LabelIffCounted(count: nat, total: nat)
    ensures HasLabel(count, total) <==> total > 0 && count > 0
  {
  }

  /** The sum of the percentages shown for the names in `names`. */
  function SumPercentages(markers: seq<Marker>, features: seq<Feature>, contains: Containment,
                          names: seq<string>, total: nat): real
  {
    if names == [] then 0.0
    else Percentage(Tally(markers, features, contains, names[0]), total)
         + SumPercentages(markers, features, contains, names[1..], total)
  }

  /** With markers present, percentages add up like the counts they come from. */
  lemma {:induction false} SumPercentagesScales(markers: seq<Marker>, features: seq<Feature>, contains: Containment,
                                                names: seq<string>, total: nat)
    requires total > 0
    ensures SumPercentages(markers, features, contains, names, total)
            == (SumTallies(markers, features, contains, names) as real) / (total as real) * 100.0
  {
    if names != [] {
      SumPercentagesScales(markers, features, contains, names[1..], total);
      var a := Tally(markers, features, contains, names[0]);
      var b := SumTallies(markers, features, contains, names[1..]);
      assert Percentage(a, total) == (a as real) / (total as real) * 100.0;
      ShareAdds(a as real, b as real, total as real);
    }
  }

  lemma ShareAdds(a: real, b: real, t: real)
    requires t > 0.0
    ensures a / t * 100.0 + b / t * 100.0 == (a + b) / t * 100.0
  {
  }

  /**
   * With markers present, the percentages of all counties (each name listed
   * once) and the share of the markers no county contains add up to 100; in
   * particular they add up to 100 alone when every marker lies in a county.
   */
  lemma PercentagesAddUpTo100(markers: seq<Marker>, features: seq<Feature>, contains: Containment, names: seq<string>)
    requires |markers| > 0
    requires forall i, j :: 0 <= i < j < |names| ==> names[i] != names[j]
    requires forall i :: 0 <= i < |features| ==> features[i].name in names
    ensures SumPercentages(markers, features, contains, names, |markers|)
            + Percentage(Unassigned(markers, features, contains), |markers|) == 100.0
  {
    var total := |markers|;
    var s := SumTallies(markers, features, contains, names);
    var u := Unassigned(markers, features, contains);
    TalliesPartitionMarkers(markers, features, contains, names);
    SumPercentagesScales(markers, features, contains, names, total);
    assert Percentage(u, total) == (u as real) / (total as real) * 100.0;
    SharesOfWhole(s as real, u as real, total as real);
  }

  lemma SharesOfWhole(a: real, b: real, t: real)
    requires t > 0.0 && a + b == t
    ensures a / t * 100.0 + b / t * 100.0 == 100.0
  {
    ShareAdds(a, b, t);
  }
}
