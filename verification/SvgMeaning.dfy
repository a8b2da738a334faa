/**
  What SubpathToPolyline (graphics/src/SVGLoader.cc) draws, in the terms of the SVG commands: which
  numbers count from the point reached so far, where each command ends, and that a drawing of relative
  commands alone is carried along when its start is moved.
*/
module SvgMeaning {
  import opened Common
  import opened SvgPath
  import opened SvgDrawing
  import opened SvgStrokes

  // ----- one command behind others -----

  /** One group more behind the other groups of a command. */
  lemma {:induction false} StrokesAppend(f: Stroke, c: char, numbers: seq<real>, group: seq<real>, pen: Pen)
    requires GroupSize(c) > 0 && AreGroups(|numbers|, GroupSize(c)) && |group| == GroupSize(c)
    ensures AreGroups(|numbers + group|, GroupSize(c))
    ensures Strokes(f, c, numbers + group, pen) == AfterGroup(f, c, group, Strokes(f, c, numbers, pen))
    decreases |numbers|
  {
    var n := GroupSize(c);
    if numbers == [] {
      assert numbers + group == group && group[..n] == group && group[n..] == [];
      assert AreGroups(0, n);
    } else {
      assert (numbers + group)[..n] == numbers[..n] && (numbers + group)[n..] == numbers[n..] + group;
      StrokesAppend(f, c, numbers[n..], group, AfterGroup(f, c, numbers[..n], pen));
    }
  }

  /** The point with these numbers: lower-case letters count from the point reached so far. */
  function At(c: char, last: Vec2, x: real, y: real): Vec2 {
    if 'a' <= c <= 'z' then (last.0 + x, last.1 + y) else (x, y)
  }

  /** Behind the drawing p comes pair i of the numbers, counted from the point before it. */
  predicate IsPoint(cmd: SVGCommand, p: Pen, line: seq<Vec2>, i: nat)
    requires |p.polyline| + i < |line| && 2 * i + 1 < |cmd.numbers|
  {
    var at := |p.polyline| + i;
    line[at] == At(cmd.cmd, if i == 0 then p.last else line[at - 1], cmd.numbers[2 * i], cmd.numbers[2 * i + 1])
  }

  /** From p to q the command has drawn a point for each pair of its numbers, and q ends at the last. */
  ghost predicate DrawsPoints(cmd: SVGCommand, p: Pen, q: Pen) {
    && p.polyline <= q.polyline && |cmd.numbers| == 2 * (|q.polyline| - |p.polyline|)
    && q.last == (if cmd.numbers == [] then p.last else q.polyline[|q.polyline| - 1])
    && (forall i: nat :: i < |q.polyline| - |p.polyline| ==> IsPoint(cmd, p, q.polyline, i))
  }

  lemma PointAdded(samples: nat, b: Interpolate, arc: Arc, c: char, x: real, y: real, p: Pen)
    requires c in {'m', 'l', 'M', 'L'}
    ensures var point := At(c, p.last, x, y);
      AfterGroup(StrokeOf(samples, b, arc), c, [x, y], p) == Pen(point, p.polyline + [point])
  {
    assert StrokeOf(samples, b, arc)(c, [x, y], p.last) == GroupStroke(samples, b, arc, c, [x, y], p.last);
  }

  lemma OnePointMore(c: char, numbers: seq<real>, x: real, y: real, pen: Pen, p: Pen)
    requires DrawsPoints(SVGCommand(c, numbers), pen, p)
    ensures var point := At(c, p.last, x, y);
      DrawsPoints(SVGCommand(c, numbers + [x, y]), pen, Pen(point, p.polyline + [point]))
  {
    hide At;
    var line, n := p.polyline + [At(c, p.last, x, y)], |p.polyline| - |pen.polyline|;
    forall i: nat | i < n + 1
      ensures IsPoint(SVGCommand(c, numbers + [x, y]), pen, line, i)
    {
      if i < n {
        assert IsPoint(SVGCommand(c, numbers), pen, p.polyline, i);
      }
    }
  }

  lemma {:induction false} LinesDrawn(samples: nat, b: Interpolate, arc: Arc, cmd: SVGCommand, pen: Pen)
    requires cmd.cmd in {'m', 'l', 'M', 'L'} && WholeGroups(cmd)
    ensures DrawsPoints(cmd, pen, DrawnCommand(StrokeOf(samples, b, arc), cmd, pen))
    decreases |cmd.numbers|
  {
    var c, numbers, f := cmd.cmd, cmd.numbers, StrokeOf(samples, b, arc);
    assert GroupSize(c) == 2 && !Closes(c);
    if numbers != [] {
      hide DrawsPoints, GroupSize, ToLower, AreGroups, At;
      LastGroupOf(|numbers|, 2);
      var n := |numbers| - 2;
      var x, y := numbers[n], numbers[n + 1];
      assert numbers == numbers[..n] + [x, y];
      LinesDrawn(samples, b, arc, SVGCommand(c, numbers[..n]), pen);
      StrokesAppend(f, c, numbers[..n], [x, y], pen);
      var p := Strokes(f, c, numbers[..n], pen);
      PointAdded(samples, b, arc, c, x, y, p);
      OnePointMore(c, numbers[..n], x, y, pen, p);
    }
  }

  lemma {:induction false} LastGroupOf(n: nat, size: nat)
    requires size > 0 && n > 0 && AreGroups(n, size)
    ensures n >= size && AreGroups(n - size, size)
  {
    if n > size {
      LastGroupOf(n - size, size);
    }
  }

  /** Point i of a curve that starts at p.last is its sample at the (i + 1)-th multiple of the resolution. */
  predicate IsSample(samples: nat, b: Interpolate, p: Pen, line: seq<Vec2>, p1: Vec2, p2: Vec2, p3: Vec2, i: nat)
    requires |p.polyline| + i < |line|
  {
    line[|p.polyline| + i] == b(Times(i + 1, Resolution(samples)), p.last, p1, p2, p3)
  }

  /** From p to q a curve with these control points is drawn, with so many samples and its end point. */
  ghost predicate DrawsCurve(samples: nat, b: Interpolate, p: Pen, q: Pen, p1: Vec2, p2: Vec2, p3: Vec2) {
    var n := if samples == 0 then 1 else samples;
    && |q.polyline| == |p.polyline| + n && p.polyline <= q.polyline
    && q.last == p3 == q.polyline[|q.polyline| - 1]
    && (forall i: nat :: i < n - 1 ==> IsSample(samples, b, p, q.polyline, p1, p2, p3, i))
  }

  lemma CurveOfSamples(samples: nat, b: Interpolate, p: Pen, p1: Vec2, p2: Vec2, p3: Vec2)
    ensures var s := BezierFrom(Curve(b, p.last, p1, p2, p3), p3, Resolution(samples), Resolution(samples));
      DrawsCurve(samples, b, p, Pen(p3, p.polyline + s), p1, p2, p3)
  {
    BezierSamples(b, p.last, p1, p2, p3, samples);
    hide BezierFrom, Resolution, Times;
  }

  lemma CurveIsDrawn(samples: nat, b: Interpolate, arc: Arc, c: char, g: seq<real>, p: Pen)
    requires c in {'c', 'C'} && |g| == 6
    ensures DrawsCurve(samples, b, p, AfterGroup(StrokeOf(samples, b, arc), c, g, p),
      At(c, p.last, g[0], g[1]), At(c, p.last, g[2], g[3]), At(c, p.last, g[4], g[5]))
  {
    hide BezierFrom, AfterGroup, StrokeOf, DrawsCurve;
    CurveDrawn(samples, b, arc, c, g, p.last, p.polyline);
    CurveOfSamples(samples, b, p, At(c, p.last, g[0], g[1]), At(c, p.last, g[2], g[3]), At(c, p.last, g[4], g[5]));
  }

  /** A curve goes to the last pair of its group; the other pairs are its control points. */
  lemma CurveAdded(samples: nat, b: Interpolate, arc: Arc, c: char, numbers: seq<real>, g: seq<real>, pen: Pen)
    requires c in {'c', 'C'} && AreGroups(|numbers|, 6) && |g| == 6
    ensures AreGroups(|numbers + g|, 6)
    ensures var f := StrokeOf(samples, b, arc);
      var p, q := Strokes(f, c, numbers, pen), Strokes(f, c, numbers + g, pen);
      DrawsCurve(samples, b, p, q, At(c, p.last, g[0], g[1]), At(c, p.last, g[2], g[3]), At(c, p.last, g[4], g[5]))
  {
    var f := StrokeOf(samples, b, arc);
    assert GroupSize(c) == 6;
    hide *;
    StrokesAppend(f, c, numbers, g, pen);
    CurveIsDrawn(samples, b, arc, c, g, Strokes(f, c, numbers, pen));
  }

  lemma ArcIsDrawn(samples: nat, b: Interpolate, arc: Arc, c: char, g: seq<real>, p: Pen)
    requires c in {'a', 'A'} && |g| == 7
    ensures var end := At(c, p.last, g[5], g[6]);
      AfterGroup(StrokeOf(samples, b, arc), c, g, p) == Pen(end, p.polyline + arc(p.last, g[..5], end))
  {
    assert StrokeOf(samples, b, arc)(c, g, p.last) == GroupStroke(samples, b, arc, c, g, p.last);
  }

  /** An arc goes to the last pair of its group. */
  lemma ArcAdded(samples: nat, b: Interpolate, arc: Arc, c: char, numbers: seq<real>, g: seq<real>, pen: Pen)
    requires c in {'a', 'A'} && AreGroups(|numbers|, 7) && |g| == 7
    ensures AreGroups(|numbers + g|, 7)
    ensures var f := StrokeOf(samples, b, arc);
      var p, q := Strokes(f, c, numbers, pen), Strokes(f, c, numbers + g, pen);
      var end := At(c, p.last, g[5], g[6]);
      q == Pen(end, p.polyline + arc(p.last, g[..5], end))
  {
    var f := StrokeOf(samples, b, arc);
    assert GroupSize(c) == 7;
    hide *;
    StrokesAppend(f, c, numbers, g, pen);
    ArcIsDrawn(samples, b, arc, c, g, Strokes(f, c, numbers, pen));
  }

  /** Z, z and the end of a go back to the first point, unless the drawing is within 1e-5 of it; the
      other commands with numbers are their strokes; v, h and unknown letters draw nothing. */
  lemma CommandDrawn(samples: nat, b: Interpolate, arc: Arc, cmd: SVGCommand, p: Pen)
    requires WholeGroups(cmd)
    ensures var f, c, q := StrokeOf(samples, b, arc), cmd.cmd, DrawnCommand(StrokeOf(samples, b, arc), cmd, p);
      var k := |p.polyline|;
      && (c in {'m', 'l', 'c', 'M', 'L', 'C', 'A'} ==> GroupSize(c) > 0 && q == Strokes(f, c, cmd.numbers, p))
      && (c == 'a' ==> q == DrawnCommand(f, SVGCommand('Z', []), Strokes(f, c, cmd.numbers, p)))
      && (c in {'z', 'Z'} ==> q.last == p.last)
      && (c in {'z', 'Z'} && k > 0 && DistanceSquared(p.polyline[k - 1], p.polyline[0]) > 0.00001 * 0.00001 ==>
            q.polyline == p.polyline + [p.polyline[0]])
      && (c in {'z', 'Z'} && (k == 0 || DistanceSquared(p.polyline[k - 1], p.polyline[0]) <= 0.00001 * 0.00001) ==>
            q.polyline == p.polyline)
      && (ToLower(c) !in {'m', 'l', 'c', 'a', 'z'} ==> q == p)
  {
    if ToLower(cmd.cmd) in {'v', 'h'} {
      NothingDrawn(samples, b, arc, cmd.cmd, cmd.numbers, p);
    }
  }

  // ----- relative commands and the start -----

  function Moved(line: seq<Vec2>, v: Vec2): (r: seq<Vec2>)
    ensures |r| == |line|
  {
    seq(|line|, i requires 0 <= i < |line| => Add(line[i], v))
  }

  function MovedPen(p: Pen, v: Vec2): Pen {
    Pen(Add(p.last, v), Moved(p.polyline, v))
  }

  lemma MovedConcat(a: seq<Vec2>, b: seq<Vec2>, v: Vec2)
    ensures Moved(a + b, v) == Moved(a, v) + Moved(b, v)
  {
  }

  predicate CarriesAt(b: Interpolate, v: Vec2, t: real, p0: Vec2, p1: Vec2, p2: Vec2, p3: Vec2) {
    b(t, Add(p0, v), Add(p1, v), Add(p2, v), Add(p3, v)) == Add(b(t, p0, p1, p2, p3), v)
  }

  /** Moving the control points moves the curve. */
  ghost predicate Carries(b: Interpolate, v: Vec2) {
    forall t, p0, p1, p2, p3 :: CarriesAt(b, v, t, p0, p1, p2, p3)
  }

  predicate ArcCarriesAt(arc: Arc, v: Vec2, p: Vec2, n: seq<real>, end: Vec2) {
    arc(Add(p, v), n, Add(end, v)) == Moved(arc(p, n, end), v)
  }

  /** Moving both ends moves the arc. */
  ghost predicate ArcCarries(arc: Arc, v: Vec2) {
    forall p, n, end :: ArcCarriesAt(arc, v, p, n, end)
  }

  lemma {:induction false} SamplesMoved(b: Interpolate, v: Vec2, p0: Vec2, p1: Vec2, p2: Vec2, p3: Vec2, step: real,
      t: real)
    requires step > 0.0 && Carries(b, v)
    ensures BezierFrom(Curve(b, Add(p0, v), Add(p1, v), Add(p2, v), Add(p3, v)), Add(p3, v), step, t)
      == Moved(BezierFrom(Curve(b, p0, p1, p2, p3), p3, step, t), v)
    decreases Remaining(t, step)
  {
    if t < 1.0 {
      RemainingDrops(t, step);
      SamplesMoved(b, v, p0, p1, p2, p3, step, t + step);
      assert CarriesAt(b, v, t, p0, p1, p2, p3);
      MovedConcat([b(t, p0, p1, p2, p3)], BezierFrom(Curve(b, p0, p1, p2, p3), p3, step, t + step), v);
    }
  }

  lemma AddTwice(x: real, y: real, o: Vec2, v: Vec2)
    ensures Add((x, y), Add(o, v)) == Add(Add((x, y), o), v)
  {
  }

  lemma CurveMoved(samples: nat, b: Interpolate, arc: Arc, g: seq<real>, p: Pen, v: Vec2)
    requires |g| == 6 && Carries(b, v)
    ensures AfterGroup(StrokeOf(samples, b, arc), 'c', g, MovedPen(p, v))
      == MovedPen(AfterGroup(StrokeOf(samples, b, arc), 'c', g, p), v)
  {
    hide BezierFrom, AfterGroup, StrokeOf, Add, Carries, Resolution;
    var o := p.last;
    CurveDrawn(samples, b, arc, 'c', g, o, p.polyline);
    CurveDrawn(samples, b, arc, 'c', g, Add(o, v), Moved(p.polyline, v));
    AddTwice(g[0], g[1], o, v);
    AddTwice(g[2], g[3], o, v);
    AddTwice(g[4], g[5], o, v);
    var p1, p2, p3 := Add((g[0], g[1]), o), Add((g[2], g[3]), o), Add((g[4], g[5]), o);
    var step := Resolution(samples);
    SamplesMoved(b, v, o, p1, p2, p3, step, step);
    MovedConcat(p.polyline, BezierFrom(Curve(b, o, p1, p2, p3), p3, step, step), v);
  }

  lemma ArcMoved(samples: nat, b: Interpolate, arc: Arc, g: seq<real>, p: Pen, v: Vec2)
    requires |g| == 7 && ArcCarries(arc, v)
    ensures AfterGroup(StrokeOf(samples, b, arc), 'a', g, MovedPen(p, v))
      == MovedPen(AfterGroup(StrokeOf(samples, b, arc), 'a', g, p), v)
  {
    hide AfterGroup, StrokeOf;
    ArcIsDrawn(samples, b, arc, 'a', g, p);
    ArcIsDrawn(samples, b, arc, 'a', g, MovedPen(p, v));
    var end := At('a', p.last, g[5], g[6]);
    assert At('a', Add(p.last, v), g[5], g[6]) == Add(end, v);
    assert ArcCarriesAt(arc, v, p.last, g[..5], end);
    MovedConcat(p.polyline, arc(p.last, g[..5], end), v);
  }

  lemma PointMoved(samples: nat, b: Interpolate, arc: Arc, c: char, g: seq<real>, p: Pen, v: Vec2)
    requires (c == 'm' || c == 'l') && |g| == 2
    ensures AfterGroup(StrokeOf(samples, b, arc), c, g, MovedPen(p, v))
      == MovedPen(AfterGroup(StrokeOf(samples, b, arc), c, g, p), v)
  {
    hide AfterGroup, StrokeOf;
    PointAdded(samples, b, arc, c, g[0], g[1], p);
    PointAdded(samples, b, arc, c, g[0], g[1], MovedPen(p, v));
    assert g == [g[0], g[1]];
    var point := At(c, p.last, g[0], g[1]);
    assert At(c, Add(p.last, v), g[0], g[1]) == Add(point, v);
    MovedConcat(p.polyline, [point], v);
  }

  lemma {:induction false} StrokesMoved(samples: nat, b: Interpolate, arc: Arc, c: char, numbers: seq<real>, p: Pen,
      v: Vec2)
    requires Carries(b, v) && ArcCarries(arc, v)
    requires c in {'m', 'l', 'c', 'a'} && AreGroups(|numbers|, GroupSize(c))
    ensures Strokes(StrokeOf(samples, b, arc), c, numbers, MovedPen(p, v))
      == MovedPen(Strokes(StrokeOf(samples, b, arc), c, numbers, p), v)
    decreases |numbers|
  {
    if numbers != [] {
      var f, n := StrokeOf(samples, b, arc), GroupSize(c);
      hide AfterGroup, StrokeOf, Carries, ArcCarries, MovedPen;
      var g := numbers[..n];
      StrokesMoved(samples, b, arc, c, numbers[n..], AfterGroup(f, c, g, p), v);
      if c == 'c' {
        CurveMoved(samples, b, arc, g, p, v);
      } else if c == 'a' {
        ArcMoved(samples, b, arc, g, p, v);
      } else {
        PointMoved(samples, b, arc, c, g, p, v);
      }
      FirstGroupStrokes(f, c, numbers, p);
      FirstGroupStrokes(f, c, numbers, MovedPen(p, v));
    }
  }

  lemma FirstGroupStrokes(f: Stroke, c: char, numbers: seq<real>, p: Pen)
    requires GroupSize(c) > 0 && numbers != [] && AreGroups(|numbers|, GroupSize(c))
    ensures var n := GroupSize(c);
      Strokes(f, c, numbers, p) == Strokes(f, c, numbers[n..], AfterGroup(f, c, numbers[..n], p))
  {
  }

  lemma ClosedMoved(line: seq<Vec2>, v: Vec2)
    ensures Closed(Moved(line, v)) == Moved(Closed(line), v)
  {
    if line != [] {
      MovedConcat(line, [line[0]], v);
    }
  }

  lemma CommandMoved(samples: nat, b: Interpolate, arc: Arc, cmd: SVGCommand, p: Pen, v: Vec2)
    requires Carries(b, v) && ArcCarries(arc, v) && WholeGroups(cmd) && 'a' <= cmd.cmd <= 'z'
    ensures DrawnCommand(StrokeOf(samples, b, arc), cmd, MovedPen(p, v))
      == MovedPen(DrawnCommand(StrokeOf(samples, b, arc), cmd, p), v)
  {
    var f, c := StrokeOf(samples, b, arc), cmd.cmd;
    if c in {'m', 'l', 'c', 'a'} {
      StrokesMoved(samples, b, arc, c, cmd.numbers, p, v);
      ClosedMoved(Strokes(f, c, cmd.numbers, p).polyline, v);
    } else {
      ClosedMoved(p.polyline, v);
      if c == 'v' || c == 'h' {
        NothingDrawn(samples, b, arc, c, cmd.numbers, p);
        NothingDrawn(samples, b, arc, c, cmd.numbers, MovedPen(p, v));
      }
    }
  }

  /** A subpath of lower-case commands draws the same figure wherever it starts. */
  lemma {:induction false} RelativeDrawingIsCarried(samples: nat, b: Interpolate, arc: Arc, s: seq<SVGCommand>,
      last: Vec2, v: Vec2)
    requires Carries(b, v) && ArcCarries(arc, v)
    requires AllWhole(s) && forall i :: 0 <= i < |s| ==> 'a' <= s[i].cmd <= 'z'
    ensures var f := StrokeOf(samples, b, arc);
      Drawn(f, s, Pen(Add(last, v), [])) == MovedPen(Drawn(f, s, Pen(last, [])), v)
  {
    if s == [] {
      assert Moved([], v) == [];
    } else {
      var f, n := StrokeOf(samples, b, arc), |s| - 1;
      hide StrokeOf, Carries, ArcCarries, MovedPen, DrawnCommand;
      RelativeDrawingIsCarried(samples, b, arc, s[..n], last, v);
      CommandMoved(samples, b, arc, s[n], Drawn(f, s[..n], Pen(last, [])), v);
    }
  }

  // ----- the curve of the program -----

  /** The point at t of the way from a to b. */
  function Toward(t: real, a: real, b: real): real {
    a + (b - a) * t
  }

  /** The curve by repeated division of the control polygon at t. */
  function Divided(t: real, a: real, b: real, c: real, d: real): real {
    var ab, bc, cd := Toward(t, a, b), Toward(t, b, c), Toward(t, c, d);
    Toward(t, Toward(t, ab, bc), Toward(t, bc, cd))
  }

  lemma CoordinateIsDivided(t: real, a: real, b: real, c: real, d: real)
    ensures BezierCoordinate(t, a, b, c, d) == Divided(t, a, b, c, d)
  {
  }

  lemma DividedMoves(t: real, a: real, b: real, c: real, d: real, v: real)
    ensures Divided(t, a + v, b + v, c + v, d + v) == Divided(t, a, b, c, d) + v
  {
  }

  /** The program's formula is the point that repeated division of the control polygon leads to, in both
      coordinates; so the curve moves with its control points. */
  lemma BezierIsDivision(t: real, p0: Vec2, p1: Vec2, p2: Vec2, p3: Vec2)
    ensures BezierInterpolate(t, p0, p1, p2, p3)
      == (Divided(t, p0.0, p1.0, p2.0, p3.0), Divided(t, p0.1, p1.1, p2.1, p3.1))
  {
    hide BezierCoordinate, Divided;
    CoordinateIsDivided(t, p0.0, p1.0, p2.0, p3.0);
    CoordinateIsDivided(t, p0.1, p1.1, p2.1, p3.1);
  }

  lemma BezierCarries(v: Vec2)
    ensures Carries(BezierInterpolate, v)
  {
    forall t, p0, p1, p2, p3
      ensures CarriesAt(BezierInterpolate, v, t, p0, p1, p2, p3)
    {
      hide BezierInterpolate, Divided;
      BezierIsDivision(t, p0, p1, p2, p3);
      BezierIsDivision(t, Add(p0, v), Add(p1, v), Add(p2, v), Add(p3, v));
      DividedMoves(t, p0.0, p1.0, p2.0, p3.0, v.0);
      DividedMoves(t, p0.1, p1.1, p2.1, p3.1, v.1);
    }
  }
}
