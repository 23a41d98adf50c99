/**
 * The drawing engine's pure parts: the canvas commands a stroke emits, the
 * eraser's hit test and filter, and how the stroke list is wrapped into the
 * single saved draw record and unwrapped again.
 */
module Draw {
  import opened Storage

  /** The canvas calls the content script makes, in order; `BeginPath` also sets colour, width and round caps. */
  datatype Cmd =
    | ClearRect
    | BeginPath(color: string, width: int)
    | MoveTo(x: real, y: real)
    | QuadraticCurveTo(cpx: real, cpy: real, x: real, y: real)
    | LineTo(x: real, y: real)
    | Stroke

  /** The exact midpoint of two coordinates. */
  function Mid(a: int, b: int): real {
    (a + b) as real / 2.0
  }

  /** The curve segment drawn with sample `p` as control point, ending halfway to the next sample `q`. */
  function Curve(p: Point, q: Point): Cmd {
    QuadraticCurveTo(p.x as real, p.y as real, Mid(p.x, q.x), Mid(p.y, q.y))
  }

  /** One curve per interior sample. */
  function Curves(pts: seq<Point>): (r: seq<Cmd>)
    requires |pts| >= 2
    ensures |r| == |pts| - 2
  {
    seq(|pts| - 2, k requires 0 <= k < |pts| - 2 => Curve(pts[k + 1], pts[k + 2]))
  }

  /** What `drawPath` emits for a stroke. */
  function StrokeCommands(path: DrawPath): (r: seq<Cmd>)
    ensures |path.points| < 2 <==> r == []
    ensures |path.points| >= 2 ==> |r| == |path.points| + 2
  {
    var pts := path.points;
    if |pts| < 2 then []
    else
      [BeginPath(path.color, path.width), MoveTo(pts[0].x as real, pts[0].y as real)] +
      Curves(pts) +
      [LineTo(pts[|pts| - 1].x as real, pts[|pts| - 1].y as real), Stroke]
  }

  /** The loop of `drawPath`: moveTo the first sample, a curve per interior sample, lineTo the last. */
  method EmitStroke(path: DrawPath) returns (cmds: seq<Cmd>)
    ensures cmds == StrokeCommands(path)
  {
    var pts := path.points;
    if |pts| < 2 {
      return [];
    }
    cmds := [BeginPath(path.color, path.width), MoveTo(pts[0].x as real, pts[0].y as real)];
    var i := 1;
    while i < |pts| - 1
      invariant 1 <= i <= |pts| - 1
      invariant cmds == [BeginPath(path.color, path.width), MoveTo(pts[0].x as real, pts[0].y as real)] + Curves(pts)[..i - 1]
    {
      var xc := (pts[i].x + pts[i + 1].x) as real / 2.0;
      var yc := (pts[i].y + pts[i + 1].y) as real / 2.0;
      assert Curves(pts)[..i] == Curves(pts)[..i - 1] + [Curve(pts[i], pts[i + 1])];
      cmds := cmds + [QuadraticCurveTo(pts[i].x as real, pts[i].y as real, xc, yc)];
      i := i + 1;
    }
    assert Curves(pts)[..i - 1] == Curves(pts);
    var last := pts[|pts| - 1];
    cmds := cmds + [LineTo(last.x as real, last.y as real), Stroke];
  }

  /** The control points of the curve segments, in order. */
  function ControlPoints(cmds: seq<Cmd>): seq<(real, real)> {
    if cmds == [] then []
    else (if cmds[0].QuadraticCurveTo? then [(cmds[0].cpx, cmds[0].cpy)] else []) + ControlPoints(cmds[1..])
  }

  /** Where the pen is after each move or segment. */
  function PenPositions(cmds: seq<Cmd>): seq<(real, real)> {
    if cmds == [] then []
    else
      (match cmds[0]
       case MoveTo(x, y) => [(x, y)]
       case QuadraticCurveTo(_, _, x, y) => [(x, y)]
       case LineTo(x, y) => [(x, y)]
       case _ => []) + PenPositions(cmds[1..])
  }

  function AsReal(p: Point): (real, real) {
    (p.x as real, p.y as real)
  }

  lemma {:induction false} ControlPointsAppend(a: seq<Cmd>, b: seq<Cmd>)
    ensures ControlPoints(a + b) == ControlPoints(a) + ControlPoints(b)
    decreases |a|
  {
    if a == [] {
      assert a + b == b;
    } else {
      assert (a + b)[1..] == a[1..] + b;
      ControlPointsAppend(a[1..], b);
    }
  }

  lemma {:induction false} PenPositionsAppend(a: seq<Cmd>, b: seq<Cmd>)
    ensures PenPositions(a + b) == PenPositions(a) + PenPositions(b)
    decreases |a|
  {
    if a == [] {
      assert a + b == b;
    } else {
      assert (a + b)[1..] == a[1..] + b;
      PenPositionsAppend(a[1..], b);
    }
  }

  lemma {:induction false} CurvesFacts(pts: seq<Point>, n: nat)
    requires |pts| >= 2 && n <= |pts| - 2
    ensures ControlPoints(Curves(pts)[..n]) == seq(n, k requires 0 <= k < n => AsReal(pts[k + 1]))
    ensures PenPositions(Curves(pts)[..n]) == seq(n, k requires 0 <= k < n => (Mid(pts[k + 1].x, pts[k + 2].x), Mid(pts[k + 1].y, pts[k + 2].y)))
    decreases n
  {
    var cs := Curves(pts);
    if n == 0 {
      assert cs[..0] == [];
    } else {
      CurvesFacts(pts, n - 1);
      assert cs[..n] == cs[..n - 1] + [cs[n - 1]];
      ControlPointsAppend(cs[..n - 1], [cs[n - 1]]);
      PenPositionsAppend(cs[..n - 1], [cs[n - 1]]);
      assert [cs[n - 1]][1..] == [];
    }
  }

  lemma {:induction false} StrokeParts(path: DrawPath)
    requires |path.points| >= 2
    ensures var pts := path.points;
      StrokeCommands(path) ==
        [BeginPath(path.color, path.width), MoveTo(pts[0].x as real, pts[0].y as real)] + Curves(pts) +
        [LineTo(pts[|pts| - 1].x as real, pts[|pts| - 1].y as real), Stroke]
  {
  }

  /** The control points of a stroke are exactly its interior samples, in order. */
  lemma {:induction false} StrokeControlPoints(path: DrawPath)
    requires |path.points| >= 2
    ensures var pts := path.points;
      ControlPoints(StrokeCommands(path)) == seq(|pts| - 2, k requires 0 <= k < |pts| - 2 => AsReal(pts[k + 1]))
  {
    var pts := path.points;
    var n := |pts|;
    var head := [BeginPath(path.color, path.width), MoveTo(pts[0].x as real, pts[0].y as real)];
    var tail := [LineTo(pts[n - 1].x as real, pts[n - 1].y as real), Stroke];
    var cs := Curves(pts);
    StrokeParts(path);
    CurvesFacts(pts, n - 2);
    assert cs[..n - 2] == cs;
    ControlPointsAppend(head + cs, tail);
    ControlPointsAppend(head, cs);
    assert head[1..][1..] == [] && tail[1..][1..] == [];
    assert ControlPoints(head) == [];
    assert ControlPoints(tail) == [];
  }

  /**
   * A stroke starts at its first sample, passes through the points halfway
   * between consecutive interior samples, and ends at its last sample itself.
   */
  lemma {:induction false} StrokePenPositions(path: DrawPath)
    requires |path.points| >= 2
    ensures var pts := path.points; var n := |pts|;
      PenPositions(StrokeCommands(path)) ==
        [AsReal(pts[0])] +
        seq(n - 2, k requires 0 <= k < n - 2 => (Mid(pts[k + 1].x, pts[k + 2].x), Mid(pts[k + 1].y, pts[k + 2].y))) +
        [AsReal(pts[n - 1])]
  {
    var pts := path.points;
    var n := |pts|;
    var head := [BeginPath(path.color, path.width), MoveTo(pts[0].x as real, pts[0].y as real)];
    var tail := [LineTo(pts[n - 1].x as real, pts[n - 1].y as real), Stroke];
    var cs := Curves(pts);
    StrokeParts(path);
    CurvesFacts(pts, n - 2);
    assert cs[..n - 2] == cs;
    PenPositionsAppend(head + cs, tail);
    PenPositionsAppend(head, cs);
    assert head[1..][1..] == [] && tail[1..][1..] == [];
    assert PenPositions(head) == [AsReal(pts[0])];
    assert PenPositions(tail) == [AsReal(pts[n - 1])];
  }

  /** `redrawCanvas`: every committed stroke, in order. */
  function Replay(paths: seq<DrawPath>): seq<Cmd> {
    if paths == [] then [] else StrokeCommands(paths[0]) + Replay(paths[1..])
  }

  lemma {:induction false} ReplayAppend(a: seq<DrawPath>, b: seq<DrawPath>)
    ensures Replay(a + b) == Replay(a) + Replay(b)
    decreases |a|
  {
    if a == [] {
      assert a + b == b;
    } else {
      assert (a + b)[0] == a[0] && (a + b)[1..] == a[1..] + b;
      ReplayAppend(a[1..], b);
    }
  }

  /** Drawing one more stroke after a replay is the replay of the longer prefix. */
  lemma {:induction false} ReplayPrefixStep(paths: seq<DrawPath>, i: nat)
    requires i < |paths|
    ensures Replay(paths[..i + 1]) == Replay(paths[..i]) + StrokeCommands(paths[i])
  {
    ReplayAppend(paths[..i], [paths[i]]);
    assert paths[..i + 1] == paths[..i] + [paths[i]];
    assert [paths[i]][1..] == [];
  }

  // ---------------------------------------------------------------------------
  // The eraser

  const EraserSize := 25

  /** Whether sample `p` lies strictly within the eraser's radius of (x, y), squared to stay exact. */
  predicate Near(p: Point, x: int, y: int) {
    (p.x - x) * (p.x - x) + (p.y - y) * (p.y - y) < EraserSize * EraserSize
  }

  /** Comparing the squared distance with 625 is comparing the distance with 25. */
  lemma {:induction false} NearIsDistance(p: Point, x: int, y: int, dist: real)
    requires dist >= 0.0
    requires dist * dist == ((p.x - x) * (p.x - x) + (p.y - y) * (p.y - y)) as real
    ensures Near(p, x, y) <==> dist < EraserSize as real
  {
    var d := (p.x - x) * (p.x - x) + (p.y - y) * (p.y - y);
    if dist < 25.0 {
      assert dist * dist <= dist * 25.0;
      assert dist * 25.0 < 625.0;
    } else {
      assert dist * dist >= dist * 25.0;
      assert dist * 25.0 >= 625.0;
    }
  }

  /** Whether any sample of the stroke is near (x, y). */
  predicate Hit(path: DrawPath, x: int, y: int) {
    exists i :: 0 <= i < |path.points| && Near(path.points[i], x, y)
  }

  /** The strokes the eraser keeps, in their original order. */
  function KeepStrokes(paths: seq<DrawPath>, x: int, y: int): (r: seq<DrawPath>)
    ensures |r| <= |paths|
  {
    if paths == [] then []
    else (if Hit(paths[0], x, y) then [] else [paths[0]]) + KeepStrokes(paths[1..], x, y)
  }

  /** A stroke survives exactly when it was there and no sample of it is near the point. */
  lemma {:induction false} KeepStrokesMembers(paths: seq<DrawPath>, x: int, y: int, p: DrawPath)
    ensures p in KeepStrokes(paths, x, y) <==> p in paths && !Hit(p, x, y)
    decreases |paths|
  {
    if paths != [] {
      KeepStrokesMembers(paths[1..], x, y, p);
      assert paths == [paths[0]] + paths[1..];
    }
  }

  lemma {:induction false} KeepStrokesAppend(a: seq<DrawPath>, b: seq<DrawPath>, x: int, y: int)
    ensures KeepStrokes(a + b, x, y) == KeepStrokes(a, x, y) + KeepStrokes(b, x, y)
    decreases |a|
  {
    if a == [] {
      assert a + b == b;
    } else {
      assert (a + b)[0] == a[0] && (a + b)[1..] == a[1..] + b;
      KeepStrokesAppend(a[1..], b, x, y);
    }
  }

  /** Nothing the eraser keeps is hit, so erasing twice at one point is erasing once. */
  lemma {:induction false} KeepStrokesIdempotent(paths: seq<DrawPath>, x: int, y: int)
    ensures KeepStrokes(KeepStrokes(paths, x, y), x, y) == KeepStrokes(paths, x, y)
    decreases |paths|
  {
    if paths != [] {
      var rest := KeepStrokes(paths[1..], x, y);
      KeepStrokesIdempotent(paths[1..], x, y);
      if !Hit(paths[0], x, y) {
        assert KeepStrokes(paths, x, y) == [paths[0]] + rest;
        KeepStrokesAppend([paths[0]], rest, x, y);
        assert [paths[0]][1..] == [];
        assert KeepStrokes([paths[0]], x, y) == [paths[0]];
      } else {
        assert KeepStrokes(paths, x, y) == rest;
      }
    }
  }

  /** The count is unchanged exactly when no stroke was hit. */
  lemma {:induction false} KeepStrokesCount(paths: seq<DrawPath>, x: int, y: int)
    ensures |KeepStrokes(paths, x, y)| == |paths| <==> forall i :: 0 <= i < |paths| ==> !Hit(paths[i], x, y)
    ensures |KeepStrokes(paths, x, y)| == |paths| ==> KeepStrokes(paths, x, y) == paths
    decreases |paths|
  {
    if paths != [] {
      KeepStrokesCount(paths[1..], x, y);
      assert forall i :: 1 <= i < |paths| ==> paths[i] == paths[1..][i - 1];
      if |KeepStrokes(paths, x, y)| == |paths| {
        assert paths == [paths[0]] + paths[1..];
      }
    }
  }

  // ---------------------------------------------------------------------------
  // The saved draw record

  const DrawRecordId := "draw_main"

  /** `saveState`: the strokes travel as one `draw_main` record, or none at all when there are none. */
  function SavedDrawAnnotations(paths: seq<DrawPath>): (r: seq<DrawAnnotation>)
    ensures |r| <= 1 && (r == [] <==> paths == [])
    ensures r != [] ==> r[0].id == DrawRecordId
  {
    if |paths| > 0 then [DrawAnnotation(DrawRecordId, paths)] else []
  }

  /** `loadSavedAnnotations`: the strokes of the first draw record, or none. */
  function LoadedPaths(ds: seq<DrawAnnotation>): seq<DrawPath> {
    if |ds| > 0 then ds[0].paths else []
  }

  /** Loading what was saved gives the same strokes back. */
  lemma {:induction false} SavedPathsRoundTrip(paths: seq<DrawPath>)
    ensures LoadedPaths(SavedDrawAnnotations(paths)) == paths
  {
  }
}
