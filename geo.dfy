/**
 * The county features of the boundary dataset and the selection of the New
 * Jersey ones.  Shapes are kept as their GeoJSON coordinates; whether a shape
 * contains a point is decided by the geometry library, so it is an
 * uninterpreted relation `Containment` that every operation takes as a
 * parameter.
 */
module Geo {

  /** A point as the geometry library builds it: `x` is the longitude, `y` the latitude. */
  datatype Point = Point(x: real, y: real)

  /** A GeoJSON geometry: a polygon is a list of rings, a ring a list of points. */
  datatype Geometry =
    | Polygon(rings: seq<seq<Point>>)
    | MultiPolygon(polygons: seq<seq<seq<Point>>>)

  /** `contains(g, p)`: the geometry library's `g.contains(p)`, left uninterpreted. */
  type Containment = (Geometry, Point) -> bool

  /** One feature of the boundary dataset: its `STATE` code, its `NAME` and its shape. */
  datatype Feature = Feature(state: string, name: string, geometry: Geometry)

  /** The FIPS code the dataset gives New Jersey. */
  const NewJersey: string := "34"

  /**
   * `[f for f in features if f['properties']['STATE'] == '34']`: the New
   * Jersey features, each as often as it occurs and in the order given.
   */
  function StateFeatures(features: seq<Feature>): (r: seq<Feature>)
    ensures |r| <= |features|
    ensures forall k :: 0 <= k < |r| ==> r[k].state == NewJersey
    ensures forall f :: f in r <==> f in features && f.state == NewJersey
    ensures multiset(r) <= multiset(features)
  {
    if features == [] then []
    else
      var last := features[|features| - 1];
      var init := features[..|features| - 1];
      assert features == init + [last];
      StateFeatures(init) + if last.state == NewJersey then [last] else []
  }

  /**
   * `r` consists of the features of `features` at the strictly increasing
   * positions `idx`, and those are exactly the positions of New Jersey features.
   */
  ghost predicate PicksStateFeatures(r: seq<Feature>, features: seq<Feature>, idx: seq<int>) {
    && |idx| == |r|
    && (forall k :: 0 <= k < |idx| ==> 0 <= idx[k] < |features| && r[k] == features[idx[k]])
    && (forall k, l :: 0 <= k < l < |idx| ==> idx[k] < idx[l])
    && (forall i :: 0 <= i < |features| ==> (i in idx <==> features[i].state == NewJersey))
  }

  /** Extending the input by one feature extends a selection by that feature when it is kept. */
  lemma PicksExtend(r: seq<Feature>, init: seq<Feature>, idx: seq<int>, last: Feature)
    requires PicksStateFeatures(r, init, idx)
    ensures last.state == NewJersey ==> PicksStateFeatures(r + [last], init + [last], idx + [|init|])
    ensures last.state != NewJersey ==> PicksStateFeatures(r, init + [last], idx)
  {
    var features := init + [last];
    var n := |init|;
    var keep := last.state == NewJersey;
    var r' := if keep then r + [last] else r;
    var idx' := if keep then idx + [n] else idx;
    forall k | 0 <= k < |idx'|
      ensures 0 <= idx'[k] < |features| && r'[k] == features[idx'[k]]
    {
      if k < |idx| {
        assert idx'[k] == idx[k] && r'[k] == r[k] && init[idx[k]] == features[idx[k]];
      }
    }
    forall i | 0 <= i < |features|
      ensures i in idx' <==> features[i].state == NewJersey
    {
      assert i in idx' <==> i in idx || (keep && i == n);
      if i < n {
        assert init[i] == features[i];
        assert i in idx <==> init[i].state == NewJersey;
      } else {
        assert forall k :: 0 <= k < |idx| ==> idx[k] < n;
        assert i !in idx;
      }
    }
    assert PicksStateFeatures(r', features, idx');
  }

  /** The selection keeps its input order and drops exactly the other states' features. */
  lemma {:induction false} StateFeaturesKeepOrder(features: seq<Feature>)
    ensures exists idx :: PicksStateFeatures(StateFeatures(features), features, idx)
  {
    if features == [] {
      var r := StateFeatures(features);
      assert r == [];
      assert PicksStateFeatures(r, features, []);
    } else {
      var n := |features| - 1;
      var init := features[..n];
      assert features == init + [features[n]];
      StateFeaturesKeepOrder(init);
      var r0 := StateFeatures(init);
      var idx :| PicksStateFeatures(r0, init, idx);
      PicksExtend(r0, init, idx, features[n]);
      if features[n].state == NewJersey {
        assert StateFeatures(features) == r0 + [features[n]];
        assert PicksStateFeatures(StateFeatures(features), features, idx + [n]);
      } else {
        assert StateFeatures(features) == r0;
        assert PicksStateFeatures(StateFeatures(features), features, idx);
      }
    }
  }
}
