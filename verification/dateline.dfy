/** Splitting a ring of `(lat, lon)` points wherever it jumps across the
    ±180° longitude seam (`split_polygon_at_dateline`). */
module Dateline {
  import opened Geo

  function Last<T>(s: seq<T>): T
    requires |s| > 0
  {
    s[|s| - 1]
  }

  /** The pieces laid end to end. */
  function Concat(polys: seq<seq<GeoPoint>>): seq<GeoPoint>
  {
    if |polys| == 0 then [] else Concat(polys[..|polys| - 1]) + polys[|polys| - 1]
  }

  lemma ConcatSnoc(polys: seq<seq<GeoPoint>>, piece: seq<GeoPoint>)
    ensures Concat(polys + [piece]) == Concat(polys) + piece
  {
    assert (polys + [piece])[..|polys|] == polys;
  }

  /** Number of adjacent pairs of `coords` that jump across the seam. */
  function Jumps(coords: seq<GeoPoint>): nat
  {
    if |coords| < 2 then 0
    else Jumps(coords[..|coords| - 1])
         + (if Crosses(coords[|coords| - 2], coords[|coords| - 1]) then 1 else 0)
  }

  ghost predicate NonEmptyPieces(polys: seq<seq<GeoPoint>>)
  {
    forall k :: 0 <= k < |polys| ==> |polys[k]| > 0
  }

  /** No two adjacent points of `piece` lie across the seam. */
  ghost predicate NoInnerJump(piece: seq<GeoPoint>)
  {
    forall j :: 0 < j < |piece| ==> !Crosses(piece[j - 1], piece[j])
  }

  /** Consecutive pieces meet exactly at a seam crossing. */
  ghost predicate JumpBoundaries(polys: seq<seq<GeoPoint>>)
    requires NonEmptyPieces(polys)
  {
    forall k :: 0 <= k < |polys| - 1 ==> Crosses(Last(polys[k]), polys[k + 1][0])
  }

  /** The shape every dateline split has: non-empty pieces, no seam jump inside
      a piece, a seam jump between every two consecutive pieces. */
  ghost predicate WellSplit(polys: seq<seq<GeoPoint>>)
  {
    && NonEmptyPieces(polys)
    && (forall k :: 0 <= k < |polys| ==> NoInnerJump(polys[k]))
    && JumpBoundaries(polys)
  }

  /** The specification of a dateline split, independent of how it is computed:
      pieces of that shape which, laid end to end, give back the input. */
  ghost predicate IsDatelineSplit(coords: seq<GeoPoint>, polys: seq<seq<GeoPoint>>)
  {
    WellSplit(polys) && Concat(polys) == coords
  }

  /** The state of the splitting pass once it has consumed `coords`: the closed
      polygons followed by the current one. An empty input yields no polygon;
      otherwise the current polygon ends on the last point consumed. */
  function Split(coords: seq<GeoPoint>): (polys: seq<seq<GeoPoint>>)
    ensures |polys| == 0 <==> |coords| == 0
    ensures |coords| > 0 ==> |Last(polys)| > 0 && Last(Last(polys)) == Last(coords)
  {
    if |coords| == 0 then []
    else if |coords| == 1 then [[coords[0]]]
    else
      var done := Split(coords[..|coords| - 1]);
      var current := Last(done);
      var p := Last(coords);
      if Crosses(Last(current), p) then done + [[p]]
      else done[..|done| - 1] + [current + [p]]
  }

  /** One more point either opens a new polygon or extends the current one. */
  lemma SplitSnoc(prefix: seq<GeoPoint>, p: GeoPoint)
    requires |prefix| > 0
    ensures var done := Split(prefix);
      Split(prefix + [p])
      == if Crosses(Last(Last(done)), p) then done + [[p]]
         else done[..|done| - 1] + [Last(done) + [p]]
  {
    assert (prefix + [p])[..|prefix|] == prefix;
  }

  /** The single pass over the points, as the dashboard runs it. */
  method SplitPolygonAtDateline(coords: seq<GeoPoint>) returns (polygons: seq<seq<GeoPoint>>)
    ensures polygons == Split(coords)
    ensures IsDatelineSplit(coords, polygons)
  {
    SplitIsDatelineSplit(coords);
    polygons := [];
    if |coords| == 0 {
      return;
    }
    var current := [coords[0]];
    assert coords[..1] == [coords[0]];
    for i := 1 to |coords|
      invariant |current| > 0
      invariant polygons + [current] == Split(coords[..i])
    {
      var prev := current[|current| - 1];
      var curr := coords[i];
      assert coords[..i + 1] == coords[..i] + [curr];
      SplitStep(polygons, current, coords[..i], curr);
      if Abs(curr.lon - prev.lon) > 180.0 {
        polygons := polygons + [current];
        current := [curr];
      } else {
        current := current + [curr];
      }
    }
    if |current| > 0 {
      polygons := polygons + [current];
    }
    assert coords[..|coords|] == coords;
  }

  /** `SplitSnoc` in terms of the loop's two variables. */
  lemma SplitStep(closed: seq<seq<GeoPoint>>, current: seq<GeoPoint>, prefix: seq<GeoPoint>, p: GeoPoint)
    requires |prefix| > 0 && |current| > 0
    requires closed + [current] == Split(prefix)
    ensures Crosses(Last(current), p) ==> Split(prefix + [p]) == closed + [current] + [[p]]
    ensures !Crosses(Last(current), p) ==> Split(prefix + [p]) == closed + [current + [p]]
  {
    var done := Split(prefix);
    SplitSnoc(prefix, p);
    assert done[..|done| - 1] == closed;
    assert Last(done) == current;
  }

  /** The pieces before the last one keep the shape of a split. */
  lemma DropLast(polys: seq<seq<GeoPoint>>)
    requires WellSplit(polys) && |polys| > 0
    ensures WellSplit(polys[..|polys| - 1])
  {
    var init := polys[..|polys| - 1];
    assert forall k :: 0 <= k < |init| ==> init[k] == polys[k];
  }

  /** The last piece may be replaced by another one that starts on the same
      point and does not jump. */
  lemma ReplaceLast(polys: seq<seq<GeoPoint>>, q: seq<GeoPoint>)
    requires WellSplit(polys) && |polys| > 0
    requires |q| > 0 && NoInnerJump(q) && q[0] == Last(polys)[0]
    ensures WellSplit(polys[..|polys| - 1] + [q])
  {
    var r := polys[..|polys| - 1] + [q];
    assert forall k :: 0 <= k < |polys| - 1 ==> r[k] == polys[k];
    assert r[|polys| - 1] == q;
  }

  /** A one-point piece may be added after a piece it jumps away from. */
  lemma AppendPiece(polys: seq<seq<GeoPoint>>, p: GeoPoint)
    requires WellSplit(polys) && |polys| > 0
    requires Crosses(Last(Last(polys)), p)
    ensures WellSplit(polys + [[p]])
  {
    var r := polys + [[p]];
    assert forall k :: 0 <= k < |polys| ==> r[k] == polys[k];
    assert r[|polys|] == [p];
  }

  /** Appending a point that does not jump keeps a piece jump-free. */
  lemma NoInnerJumpSnoc(piece: seq<GeoPoint>, p: GeoPoint)
    requires |piece| > 0 && NoInnerJump(piece) && !Crosses(Last(piece), p)
    ensures NoInnerJump(piece + [p])
  {
    var grown := piece + [p];
    forall j | 0 < j < |grown|
      ensures !Crosses(grown[j - 1], grown[j])
    {
      if j < |piece| {
        assert grown[j - 1] == piece[j - 1] && grown[j] == piece[j];
      }
    }
  }

  /** Dropping the last point keeps a piece jump-free. */
  lemma NoInnerJumpPrefix(piece: seq<GeoPoint>)
    requires |piece| > 0 && NoInnerJump(piece)
    ensures NoInnerJump(piece[..|piece| - 1])
  {
    var shrunk := piece[..|piece| - 1];
    forall j | 0 < j < |shrunk|
      ensures !Crosses(shrunk[j - 1], shrunk[j])
    {
      assert shrunk[j - 1] == piece[j - 1] && shrunk[j] == piece[j];
    }
  }

  /** A point across the seam from the end of a split starts a new piece. */
  lemma AddPiece(prefix: seq<GeoPoint>, polys: seq<seq<GeoPoint>>, p: GeoPoint)
    requires IsDatelineSplit(prefix, polys) && |polys| > 0
    requires Crosses(Last(Last(polys)), p)
    ensures IsDatelineSplit(prefix + [p], polys + [[p]])
  {
    ConcatSnoc(polys, [p]);
    AppendPiece(polys, p);
  }

  /** A point on the same side of the seam as the end of a split extends the last piece. */
  lemma GrowPiece(prefix: seq<GeoPoint>, polys: seq<seq<GeoPoint>>, p: GeoPoint)
    requires IsDatelineSplit(prefix, polys) && |polys| > 0
    requires !Crosses(Last(Last(polys)), p)
    ensures IsDatelineSplit(prefix + [p], polys[..|polys| - 1] + [Last(polys) + [p]])
  {
    var closed := polys[..|polys| - 1];
    var current := Last(polys);
    assert closed + [current] == polys;
    ConcatSnoc(closed, current);
    ConcatSnoc(closed, current + [p]);
    NoInnerJumpSnoc(current, p);
    ReplaceLast(polys, current + [p]);
  }

  /** Removing a one-point last piece leaves a split of the input without its last point. */
  lemma DropPiece(coords: seq<GeoPoint>, polys: seq<seq<GeoPoint>>)
    requires IsDatelineSplit(coords, polys) && |polys| >= 2 && |Last(polys)| == 1
    ensures |coords| >= 2
    ensures Last(polys) == [Last(coords)]
    ensures IsDatelineSplit(coords[..|coords| - 1], polys[..|polys| - 1])
    ensures Crosses(Last(Last(polys[..|polys| - 1])), Last(coords))
  {
    var n := |polys|;
    var init := polys[..n - 1];
    assert init + [polys[n - 1]] == polys;
    ConcatSnoc(init, polys[n - 1]);
    assert init[..n - 2] + [init[n - 2]] == init;
    ConcatSnoc(init[..n - 2], init[n - 2]);
    DropLast(polys);
  }

  /** Removing the last point of a longer last piece leaves a split of the input
      without its last point. */
  lemma ShrinkPiece(coords: seq<GeoPoint>, polys: seq<seq<GeoPoint>>)
    requires IsDatelineSplit(coords, polys) && |polys| >= 1 && |Last(polys)| >= 2
    ensures |coords| >= 2
    ensures var piece := Last(polys);
      && piece == piece[..|piece| - 1] + [Last(coords)]
      && IsDatelineSplit(coords[..|coords| - 1], polys[..|polys| - 1] + [piece[..|piece| - 1]])
      && !Crosses(piece[|piece| - 2], Last(coords))
  {
    var init := polys[..|polys| - 1];
    var piece := Last(polys);
    var shrunk := piece[..|piece| - 1];
    assert init + [piece] == polys;
    assert shrunk + [Last(piece)] == piece;
    ConcatSnoc(init, piece);
    ConcatSnoc(init, shrunk);
    NoInnerJumpPrefix(piece);
    ReplaceLast(polys, shrunk);
  }

  /** What the pass computes meets the specification of a dateline split. */
  lemma {:induction false} SplitIsDatelineSplit(coords: seq<GeoPoint>)
    ensures IsDatelineSplit(coords, Split(coords))
    decreases |coords|
  {
    if |coords| == 1 {
      ConcatSnoc([], [coords[0]]);
      assert [coords[0]] == coords;
    } else if |coords| >= 2 {
      var prefix := coords[..|coords| - 1];
      var p := Last(coords);
      assert coords == prefix + [p];
      SplitIsDatelineSplit(prefix);
      var done := Split(prefix);
      var closed := done[..|done| - 1];
      assert closed + [Last(done)] == done;
      SplitStep(closed, Last(done), prefix, p);
      if Crosses(Last(Last(done)), p) {
        AddPiece(prefix, done, p);
      } else {
        GrowPiece(prefix, done, p);
      }
    }
  }

  /** There is only one dateline split of a given input: the specification
      determines the result completely. */
  lemma {:induction false} DatelineSplitUnique(coords: seq<GeoPoint>, polys: seq<seq<GeoPoint>>)
    requires IsDatelineSplit(coords, polys)
    ensures polys == Split(coords)
    decreases |coords|, 1
  {
    if |polys| == 0 {
    } else if |polys| == 1 && |Last(polys)| == 1 {
      var piece := Last(polys);
      ConcatSnoc([], piece);
      assert polys == [piece] && piece == [piece[0]];
    } else if |Last(polys)| == 1 {
      UniqueAfterNewPiece(coords, polys);
    } else {
      UniqueAfterGrownPiece(coords, polys);
    }
  }

  /** Uniqueness when the last point started a piece of its own. */
  lemma {:induction false} UniqueAfterNewPiece(coords: seq<GeoPoint>, polys: seq<seq<GeoPoint>>)
    requires IsDatelineSplit(coords, polys) && |polys| >= 2 && |Last(polys)| == 1
    ensures polys == Split(coords)
    decreases |coords|, 0
  {
    var prefix := coords[..|coords| - 1];
    var p := Last(coords);
    var init := polys[..|polys| - 1];
    DropPiece(coords, polys);
    DatelineSplitUnique(prefix, init);
    var closed := init[..|init| - 1];
    assert closed + [Last(init)] == init;
    SplitStep(closed, Last(init), prefix, p);
    assert coords == prefix + [p];
    assert polys == init + [[p]];
  }

  /** Uniqueness when the last point extended the last piece. */
  lemma {:induction false} UniqueAfterGrownPiece(coords: seq<GeoPoint>, polys: seq<seq<GeoPoint>>)
    requires IsDatelineSplit(coords, polys) && |polys| >= 1 && |Last(polys)| >= 2
    ensures polys == Split(coords)
    decreases |coords|, 0
  {
    var prefix := coords[..|coords| - 1];
    var p := Last(coords);
    var init := polys[..|polys| - 1];
    var piece := Last(polys);
    var shrunk := piece[..|piece| - 1];
    ShrinkPiece(coords, polys);
    DatelineSplitUnique(prefix, init + [shrunk]);
    SplitStep(init, shrunk, prefix, p);
    assert coords == prefix + [p];
    assert polys == init + [shrunk + [p]];
  }

  /** One polygon to start with, plus one more for every seam jump. */
  lemma {:induction false} SplitCount(coords: seq<GeoPoint>)
    requires |coords| > 0
    ensures |Split(coords)| == 1 + Jumps(coords)
    decreases |coords|
  {
    if |coords| >= 2 {
      SplitCount(coords[..|coords| - 1]);
      assert coords[..|coords| - 1][|coords| - 2] == coords[|coords| - 2];
    }
  }

  /** The input comes back as the one and only polygon exactly when it has
      points and never jumps across the seam. */
  lemma SplitWithoutJumps(coords: seq<GeoPoint>)
    ensures Split(coords) == [coords] <==> |coords| > 0 && NoInnerJump(coords)
  {
    if |coords| > 0 && NoInnerJump(coords) {
      SingleSplit(coords);
      DatelineSplitUnique(coords, [coords]);
    }
    if Split(coords) == [coords] {
      SplitIsDatelineSplit(coords);
      assert Split(coords)[0] == coords;
    }
  }

  lemma SingleSplit(coords: seq<GeoPoint>)
    requires |coords| > 0 && NoInnerJump(coords)
    ensures IsDatelineSplit(coords, [coords])
  {
    ConcatSnoc([], coords);
    assert [] + [coords] == [coords];
    assert [coords][0] == coords;
  }

  /** Two neighbours on either side of the seam, 358 degrees apart in
      longitude, end up in different polygons. */
  lemma SplitAtSeamExample()
    ensures Split([GeoPoint(10.0, 179.0), GeoPoint(10.0, -179.0)])
            == [[GeoPoint(10.0, 179.0)], [GeoPoint(10.0, -179.0)]]
  {
  }
}
