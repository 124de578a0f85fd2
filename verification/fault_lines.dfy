/** Flattening tectonic fault features into the two parallel coordinate lists
    of a single line trace (the list-building part of `add_fault_lines_mapbox`).
    A `None` entry breaks the drawn line, so every line is followed by one. */
module FaultLines {
  import opened Wrappers

  /** A GeoJSON position: `[lon, lat]`, possibly followed by more numbers. */
  type Position = seq<real>

  /** The geometry of a feature; every type other than the two line types is
      `OtherGeometry`, whose `kind` is then neither "LineString" nor
      "MultiLineString" (`add_fault_lines_mapbox` dispatches on that name). */
  datatype Geometry =
    | LineString(coordinates: seq<Position>)
    | MultiLineString(lineCoordinates: seq<seq<Position>>)
    | OtherGeometry(kind: string)

  /** A feature; `None` is the JSON `null` geometry of an unlocated feature. */
  datatype Feature = Feature(geometry: Option<Geometry>)

  /** The lists handed to the renderer: `lons[i]` and `lats[i]` describe the same vertex. */
  datatype Trace = Trace(lons: seq<Option<real>>, lats: seq<Option<real>>)

  /** `IndexError`: reading `c[0]` or `c[1]` of a position that has fewer than
      two numbers. `TypeError`: reading the `"type"` of a `null` geometry. */
  datatype FlattenError = IndexError | TypeError

  /** Index of the longitude and of the latitude inside a position. */
  const Lon: nat := 0
  const Lat: nat := 1

  /** The lines a geometry contributes, in order. */
  function LinesOf(g: Geometry): seq<seq<Position>>
  {
    match g
    case LineString(coords) => [coords]
    case MultiLineString(lines) => lines
    case OtherGeometry(_) => []
  }

  /** The lines a feature contributes; a `null` geometry has none. */
  function FeatureLines(f: Feature): seq<seq<Position>>
  {
    if f.geometry.None? then [] else LinesOf(f.geometry.value)
  }

  /** Every line of every feature, in feature order. */
  function Lines(features: seq<Feature>): seq<seq<Position>>
  {
    if |features| == 0 then []
    else Lines(features[..|features| - 1]) + FeatureLines(features[|features| - 1])
  }

  predicate WellFormedLine(line: seq<Position>)
  {
    forall i :: 0 <= i < |line| ==> |line[i]| >= 2
  }

  predicate WellFormedLines(lines: seq<seq<Position>>)
  {
    forall j :: 0 <= j < |lines| ==> WellFormedLine(lines[j])
  }

  /** Every position the flattening reads has both a longitude and a latitude. */
  predicate WellFormed(features: seq<Feature>)
  {
    WellFormedLines(Lines(features))
  }

  /** Every feature has a geometry. */
  predicate Located(features: seq<Feature>)
  {
    forall i :: 0 <= i < |features| ==> features[i].geometry.Some?
  }

  /** What the loop raises while it handles feature `f`, if anything: a `null`
      geometry fails on its `"type"`, a short position on its coordinates. */
  function FeatureError(f: Feature): Option<FlattenError>
  {
    if f.geometry.None? then Some(TypeError)
    else if !WellFormedLines(FeatureLines(f)) then Some(IndexError)
    else None
  }

  /** The error of the first feature that raises one. */
  function FirstError(features: seq<Feature>): Option<FlattenError>
  {
    if |features| == 0 then None
    else
      var e := FirstError(features[..|features| - 1]);
      if e.Some? then e else FeatureError(features[|features| - 1])
  }

  /** Coordinate `k` of every position of `line`. */
  function Values(line: seq<Position>, k: nat): (vs: seq<real>)
    requires k < 2 && WellFormedLine(line)
    ensures |vs| == |line|
    ensures forall i :: 0 <= i < |line| ==> vs[i] == line[i][k]
  {
    if |line| == 0 then [] else Values(line[..|line| - 1], k) + [line[|line| - 1][k]]
  }

  /** Coordinate `k` of every position of every line, in order. */
  function AllValues(lines: seq<seq<Position>>, k: nat): seq<real>
    requires k < 2 && WellFormedLines(lines)
  {
    if |lines| == 0 then []
    else AllValues(lines[..|lines| - 1], k) + Values(lines[|lines| - 1], k)
  }

  function Somes(vs: seq<real>): (s: seq<Option<real>>)
    ensures |s| == |vs|
    ensures forall i :: 0 <= i < |vs| ==> s[i] == Some(vs[i])
  {
    seq(|vs|, i requires 0 <= i < |vs| => Some(vs[i]))
  }

  /** The entries that are not line breaks. */
  function Present(s: seq<Option<real>>): seq<real>
  {
    if |s| == 0 then []
    else Present(s[..|s| - 1]) + (if s[|s| - 1].Some? then [s[|s| - 1].value] else [])
  }

  /** The reference layout: the lines' coordinates with exactly one break
      between two consecutive lines and none before the first or after the last. */
  function Joined(lines: seq<seq<Position>>, k: nat): seq<Option<real>>
    requires k < 2 && WellFormedLines(lines)
  {
    if |lines| == 0 then []
    else if |lines| == 1 then Somes(Values(lines[0], k))
    else Joined(lines[..|lines| - 1], k) + [None] + Somes(Values(lines[|lines| - 1], k))
  }

  // The emission loop of `add_fault_lines_mapbox`, one level per function.

  /** One line: its coordinates, then a break. */
  function LineTrace(line: seq<Position>, k: nat): seq<Option<real>>
    requires k < 2 && WellFormedLine(line)
  {
    Somes(Values(line, k)) + [None]
  }

  function LinesTrace(lines: seq<seq<Position>>, k: nat): seq<Option<real>>
    requires k < 2 && WellFormedLines(lines)
  {
    if |lines| == 0 then []
    else LinesTrace(lines[..|lines| - 1], k) + LineTrace(lines[|lines| - 1], k)
  }

  function FeatureTrace(f: Feature, k: nat): seq<Option<real>>
    requires k < 2 && WellFormedLines(FeatureLines(f))
  {
    match f.geometry
    case Some(LineString(coords)) =>
      assert WellFormedLine(FeatureLines(f)[0]);
      LineTrace(coords, k)
    case Some(MultiLineString(lines)) => LinesTrace(lines, k)
    case Some(OtherGeometry(_)) => []
    case None => []
  }

  function FeaturesTrace(features: seq<Feature>, k: nat): seq<Option<real>>
    requires k < 2 && WellFormed(features)
  {
    if |features| == 0 then []
    else
      var init := features[..|features| - 1];
      var f := features[|features| - 1];
      WellFormedSplit(init, f);
      assert features == init + [f];
      FeaturesTrace(init, k) + FeatureTrace(f, k)
  }

  /** The two lists `add_fault_lines_mapbox` builds, with the first exception
      its loop raises as the `Failure`; the one trailing break is dropped. */
  function FlattenFaultLines(features: seq<Feature>): (r: Result<Trace, FlattenError>)
    ensures r.Failure? <==> !Located(features) || !WellFormed(features)
    ensures r.Success? ==> r.value == Trace(Joined(Lines(features), Lon), Joined(Lines(features), Lat))
  {
    var e := FirstError(features);
    NoErrorIffWellFormed(features);
    if e.Some? then Failure(e.value)
    else
      var lons := FeaturesTrace(features, Lon);
      var lats := FeaturesTrace(features, Lat);
      FeaturesTraceLengths(features);
      TraceShape(features, Lon);
      TraceShape(features, Lat);
      if |lons| > 0 && lons[|lons| - 1].None? then
        Success(Trace(lons[..|lons| - 1], lats[..|lats| - 1]))
      else
        Success(Trace(lons, lats))
  }

  // Lemmas

  lemma LinesSnoc(init: seq<Feature>, f: Feature)
    ensures Lines(init + [f]) == Lines(init) + FeatureLines(f)
  {
    assert (init + [f])[..|init|] == init;
  }

  lemma WellFormedSplit(init: seq<Feature>, f: Feature)
    requires WellFormed(init + [f])
    ensures WellFormed(init) && WellFormedLines(FeatureLines(f))
  {
    LinesSnoc(init, f);
    var a := Lines(init);
    var b := FeatureLines(f);
    assert forall j :: 0 <= j < |a| ==> a[j] == (a + b)[j];
    assert forall j :: 0 <= j < |b| ==> b[j] == (a + b)[|a| + j];
  }

  lemma WellFormedLinesAppend(a: seq<seq<Position>>, b: seq<seq<Position>>)
    requires WellFormedLines(a + b)
    ensures WellFormedLines(a) && WellFormedLines(b)
  {
    assert forall j :: 0 <= j < |a| ==> a[j] == (a + b)[j];
    assert forall j :: 0 <= j < |b| ==> b[j] == (a + b)[|a| + j];
  }

  lemma WellFormedLinesJoin(a: seq<seq<Position>>, b: seq<seq<Position>>)
    requires WellFormedLines(a) && WellFormedLines(b)
    ensures WellFormedLines(a + b)
  {
    assert forall j :: |a| <= j < |a + b| ==> (a + b)[j] == b[j - |a|];
  }

  lemma {:induction false} FirstErrorNone(features: seq<Feature>)
    ensures FirstError(features).None?
            <==> forall j :: 0 <= j < |features| ==> FeatureError(features[j]).None?
    decreases |features|
  {
    if |features| > 0 {
      var init := features[..|features| - 1];
      FirstErrorNone(init);
      assert forall j :: 0 <= j < |init| ==> init[j] == features[j];
    }
  }

  /** No feature raises exactly when every feature has a geometry and every
      position has two coordinates. */
  lemma {:induction false} NoErrorIffWellFormed(features: seq<Feature>)
    ensures FirstError(features).None? <==> Located(features) && WellFormed(features)
    decreases |features|
  {
    if |features| > 0 {
      var init := features[..|features| - 1];
      var f := features[|features| - 1];
      assert features == init + [f];
      NoErrorIffWellFormed(init);
      LinesSnoc(init, f);
      if WellFormed(features) {
        WellFormedSplit(init, f);
      }
      if WellFormed(init) && WellFormedLines(FeatureLines(f)) {
        WellFormedLinesJoin(Lines(init), FeatureLines(f));
      }
      assert Located(features) <==> Located(init) && f.geometry.Some? by {
        assert forall j :: 0 <= j < |init| ==> init[j] == features[j];
      }
    }
  }

  lemma {:induction false} FirstErrorAppend(a: seq<Feature>, b: seq<Feature>)
    ensures FirstError(a + b) == if FirstError(a).Some? then FirstError(a) else FirstError(b)
    decreases |b|
  {
    if |b| == 0 {
      assert a + b == a;
    } else {
      assert (a + b)[..|a + b| - 1] == a + b[..|b| - 1];
      FirstErrorAppend(a, b[..|b| - 1]);
    }
  }

  /** The flattening stops at the first feature that raises, with that
      feature's error: a `null` geometry or a short position further on does
      not change which exception the caller sees. */
  lemma {:induction false} FlattenFailsAtFirstBadFeature(features: seq<Feature>)
    ensures FlattenFaultLines(features).Failure? <==>
            exists i :: 0 <= i < |features| && FeatureError(features[i]).Some?
    ensures FlattenFaultLines(features).Failure? ==>
              exists i :: 0 <= i < |features| && FeatureError(features[i]).Some?
                && (forall j :: 0 <= j < i ==> FeatureError(features[j]).None?)
                && FlattenFaultLines(features).error == FeatureError(features[i]).value
    decreases |features|
  {
    FirstErrorNone(features);
    if |features| > 0 && FirstError(features).Some? {
      var init := features[..|features| - 1];
      var n := |features| - 1;
      assert forall j :: 0 <= j < |init| ==> init[j] == features[j];
      FlattenFailsAtFirstBadFeature(init);
      if FirstError(init).Some? {
        var i :| 0 <= i < |init| && FeatureError(init[i]).Some?
                 && (forall j :: 0 <= j < i ==> FeatureError(init[j]).None?)
                 && FlattenFaultLines(init).error == FeatureError(init[i]).value;
        assert FeatureError(features[i]).Some?;
      } else {
        FirstErrorNone(init);
        assert FeatureError(features[n]).Some?;
      }
    }
  }

  lemma {:induction false} LinesTraceAppend(a: seq<seq<Position>>, b: seq<seq<Position>>, k: nat)
    requires k < 2 && WellFormedLines(a + b)
    ensures WellFormedLines(a) && WellFormedLines(b)
    ensures LinesTrace(a + b, k) == LinesTrace(a, k) + LinesTrace(b, k)
    decreases |b|
  {
    WellFormedLinesAppend(a, b);
    if |b| > 0 {
      var b' := b[..|b| - 1];
      assert (a + b)[..|a + b| - 1] == a + b';
      assert a + b' + [b[|b| - 1]] == a + b;
      WellFormedLinesAppend(a + b', [b[|b| - 1]]);
      LinesTraceAppend(a, b', k);
    } else {
      assert a + b == a;
    }
  }

  /** The feature-by-feature emission is the line-by-line emission of `Lines`. */
  lemma {:induction false} FeaturesTraceIsLinesTrace(features: seq<Feature>, k: nat)
    requires k < 2 && WellFormed(features)
    ensures FeaturesTrace(features, k) == LinesTrace(Lines(features), k)
    decreases |features|
  {
    if |features| > 0 {
      var init := features[..|features| - 1];
      var f := features[|features| - 1];
      assert features == init + [f];
      WellFormedSplit(init, f);
      LinesSnoc(init, f);
      FeaturesTraceIsLinesTrace(init, k);
      LinesTraceAppend(Lines(init), FeatureLines(f), k);
      match f.geometry
      case Some(LineString(coords)) =>
        assert LinesTrace([coords], k) == LineTrace(coords, k) by {
          assert [coords][..0] == [];
        }
      case _ =>
    }
  }

  /** Before the trailing break is dropped, the emission is the reference
      layout followed by one break. */
  lemma {:induction false} LinesTraceIsJoined(lines: seq<seq<Position>>, k: nat)
    requires k < 2 && WellFormedLines(lines) && |lines| > 0
    ensures LinesTrace(lines, k) == Joined(lines, k) + [None]
    decreases |lines|
  {
    if |lines| > 1 {
      LinesTraceIsJoined(lines[..|lines| - 1], k);
    } else {
      assert lines[..0] == [];
    }
  }

  lemma FeaturesTraceLengths(features: seq<Feature>)
    requires WellFormed(features)
    ensures |FeaturesTrace(features, Lon)| == |FeaturesTrace(features, Lat)|
  {
    FeaturesTraceIsLinesTrace(features, Lon);
    FeaturesTraceIsLinesTrace(features, Lat);
    var lines := Lines(features);
    if |lines| > 0 {
      LinesTraceIsJoined(lines, Lon);
      LinesTraceIsJoined(lines, Lat);
      JoinedAligned(lines);
    }
  }

  /** The emission is empty when there are no lines, and otherwise the
      reference layout followed by one break. */
  lemma TraceShape(features: seq<Feature>, k: nat)
    requires k < 2 && WellFormed(features)
    ensures var t := FeaturesTrace(features, k);
      if |Lines(features)| == 0 then t == [] else t == Joined(Lines(features), k) + [None]
  {
    FeaturesTraceIsLinesTrace(features, k);
    if |Lines(features)| > 0 {
      LinesTraceIsJoined(Lines(features), k);
    }
  }

  /** The longitude and latitude layouts line up: same length, breaks at the same places. */
  lemma {:induction false} JoinedAligned(lines: seq<seq<Position>>)
    requires WellFormedLines(lines)
    ensures |Joined(lines, Lon)| == |Joined(lines, Lat)|
    ensures forall i :: 0 <= i < |Joined(lines, Lon)| ==>
              (Joined(lines, Lon)[i].None? <==> Joined(lines, Lat)[i].None?)
    decreases |lines|
  {
    if |lines| > 1 {
      JoinedAligned(lines[..|lines| - 1]);
    }
  }

  lemma PresentAppend(a: seq<Option<real>>, b: seq<Option<real>>)
    ensures Present(a + b) == Present(a) + Present(b)
    decreases |b|
  {
    if |b| > 0 {
      assert (a + b)[..|a + b| - 1] == a + b[..|b| - 1];
      PresentAppend(a, b[..|b| - 1]);
    } else {
      assert a + b == a;
    }
  }

  lemma {:induction false} PresentSomes(vs: seq<real>)
    ensures Present(Somes(vs)) == vs
    decreases |vs|
  {
    if |vs| > 0 {
      var init := vs[..|vs| - 1];
      assert Somes(vs)[..|vs| - 1] == Somes(init);
      PresentSomes(init);
    }
  }

  /** Dropping the breaks from the reference layout leaves every coordinate, in order. */
  lemma {:induction false} PresentJoined(lines: seq<seq<Position>>, k: nat)
    requires k < 2 && WellFormedLines(lines)
    ensures Present(Joined(lines, k)) == AllValues(lines, k)
    decreases |lines|
  {
    if |lines| == 1 {
      PresentSomes(Values(lines[0], k));
      assert lines[..0] == [];
    } else if |lines| > 1 {
      var init := lines[..|lines| - 1];
      var last := Somes(Values(lines[|lines| - 1], k));
      PresentJoined(init, k);
      PresentAppend(Joined(init, k) + [None], last);
      PresentAppend(Joined(init, k), [None]);
      var brk: seq<Option<real>> := [None];
      assert Present(brk) == [] by {
        assert brk[..0] == [];
      }
      PresentSomes(Values(lines[|lines| - 1], k));
    }
  }

  /** The non-break entries are the longitudes (resp. latitudes) of every
      position of every line, in feature order; no coordinate is lost,
      duplicated or reordered. */
  lemma FlattenKeepsCoordinates(features: seq<Feature>)
    requires Located(features) && WellFormed(features)
    ensures FlattenFaultLines(features).Success?
    ensures Present(FlattenFaultLines(features).value.lons) == AllValues(Lines(features), Lon)
    ensures Present(FlattenFaultLines(features).value.lats) == AllValues(Lines(features), Lat)
  {
    PresentJoined(Lines(features), Lon);
    PresentJoined(Lines(features), Lat);
  }

  /** The two lists always line up, and breaks sit at the same indices in both. */
  lemma FlattenAligned(features: seq<Feature>)
    requires Located(features) && WellFormed(features)
    ensures var t := FlattenFaultLines(features).value;
      && |t.lons| == |t.lats|
      && forall i :: 0 <= i < |t.lons| ==> (t.lons[i].None? <==> t.lats[i].None?)
  {
    JoinedAligned(Lines(features));
  }

  /** The reference layout ends in a break exactly when there are at least two
      lines and the last of them has no position. */
  lemma {:induction false} JoinedEndsInBreak(lines: seq<seq<Position>>, k: nat)
    requires k < 2 && WellFormedLines(lines)
    ensures var s := Joined(lines, k);
      |s| > 0 && s[|s| - 1].None? <==> |lines| >= 2 && |lines[|lines| - 1]| == 0
  {
  }

  /** The single pop leaves a trailing break only behind a last line with no
      position; when every line has a position the longitudes never end in a break. */
  lemma FlattenTrailingBreak(features: seq<Feature>)
    requires Located(features) && WellFormed(features)
    ensures var lons := FlattenFaultLines(features).value.lons;
      |lons| > 0 && lons[|lons| - 1].None?
      <==> |Lines(features)| >= 2 && |Lines(features)[|Lines(features)| - 1]| == 0
    ensures (forall j :: 0 <= j < |Lines(features)| ==> |Lines(features)[j]| > 0) ==>
              var lons := FlattenFaultLines(features).value.lons;
              |lons| == 0 || lons[|lons| - 1].Some?
  {
    JoinedEndsInBreak(Lines(features), Lon);
  }

  lemma {:induction false} LinesAppend(a: seq<Feature>, b: seq<Feature>)
    ensures Lines(a + b) == Lines(a) + Lines(b)
    decreases |b|
  {
    if |b| == 0 {
      assert a + b == a;
    } else {
      var init := b[..|b| - 1];
      var f := b[|b| - 1];
      assert a + b == (a + init) + [f];
      LinesSnoc(a + init, f);
      LinesSnoc(init, f);
      LinesAppend(a, init);
    }
  }

  /** A feature whose geometry is neither line type changes nothing, wherever
      it stands among the features. */
  lemma OtherGeometryIgnored(a: seq<Feature>, b: seq<Feature>, kind: string)
    requires kind != "LineString" && kind != "MultiLineString"
    ensures FlattenFaultLines(a + [Feature(Some(OtherGeometry(kind)))] + b) == FlattenFaultLines(a + b)
  {
    var f := Feature(Some(OtherGeometry(kind)));
    FirstErrorAppend(a + [f], b);
    FirstErrorAppend(a, [f]);
    FirstErrorAppend(a, b);
    assert FirstError([f]) == None by {
      assert [f][..0] == [];
    }
    LinesAppend(a + [f], b);
    LinesAppend(a, b);
    LinesSnoc(a, f);
    assert Lines(a + [f] + b) == Lines(a + b);
  }
}
