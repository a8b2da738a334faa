/**
  The strokes of SVGLoader: lines, sampled Bezier curves and arcs, and the loops that draw a subpath
  with them. How an arc is sampled is a parameter.
*/
module SvgStrokes {
  import opened Common
  import opened SvgPath
  import opened SvgDrawing

  // ----- Bezier curves -----

  function BezierCoordinate(t: real, a: real, b: real, c: real, d: real): real {
    var t1 := 1.0 - t;
    t1 * t1 * t1 * a + 3.0 * t * (t1 * t1) * b + 3.0 * (t * t) * t1 * c + t * t * t * d
  }

  function BezierInterpolate(t: real, p0: Vec2, p1: Vec2, p2: Vec2, p3: Vec2): Vec2 {
    (BezierCoordinate(t, p0.0, p1.0, p2.0, p3.0), BezierCoordinate(t, p0.1, p1.1, p2.1, p3.1))
  }

  /** How many more samples the loop takes at most. */
  function Remaining(t: real, step: real): nat
    requires step > 0.0
  {
    if t < 1.0 then
      Positive(1.0 - t, 1.0 / step);
      ((1.0 - t) * (1.0 / step)).Floor + 1
    else 0
  }

  lemma RemainingDrops(t: real, step: real)
    requires step > 0.0 && t < 1.0
    ensures Remaining(t + step, step) < Remaining(t, step)
  {
    var inverse := 1.0 / step;
    Distribute(1.0 - (t + step), step, inverse);
    assert step * inverse == 1.0;
    Positive(1.0 - t, inverse);
    FloorDrops((1.0 - (t + step)) * inverse);
    assert (1.0 - t) * inverse == (1.0 - (t + step)) * inverse + 1.0;
  }

  /** The samples from t on; the last one is the end point itself. */
  function BezierFrom(curve: real -> Vec2, end: Vec2, step: real, t: real): seq<Vec2>
    requires step > 0.0
    decreases Remaining(t, step)
  {
    if t < 1.0 then
      RemainingDrops(t, step);
      [curve(t)] + BezierFrom(curve, end, step, t + step)
    else [end]
  }

  /** How a curve is interpolated between its control points; the program uses BezierInterpolate. */
  type Interpolate = (real, Vec2, Vec2, Vec2, Vec2) -> Vec2

  function Curve(b: Interpolate, p0: Vec2, p1: Vec2, p2: Vec2, p3: Vec2): real -> Vec2 {
    t => b(t, p0, p1, p2, p3)
  }

  lemma BezierEnds(p0: Vec2, p1: Vec2, p2: Vec2, p3: Vec2)
    ensures BezierInterpolate(0.0, p0, p1, p2, p3) == p0 && BezierInterpolate(1.0, p0, p1, p2, p3) == p3
  {
  }

  method CubicBezier(b: Interpolate, p0: Vec2, p1: Vec2, p2: Vec2, p3: Vec2, step: real, points0: seq<Vec2>)
    returns (points: seq<Vec2>)
    requires step > 0.0
    ensures points == points0 + BezierFrom(Curve(b, p0, p1, p2, p3), p3, step, step)
  {
    points := points0;
    var t := step;
    while t < 1.0
      invariant points + BezierFrom(Curve(b, p0, p1, p2, p3), p3, step, t)
        == points0 + BezierFrom(Curve(b, p0, p1, p2, p3), p3, step, step)
      decreases Remaining(t, step)
    {
      RemainingDrops(t, step);
      var p := b(t, p0, p1, p2, p3);
      Reassociate(points, [p], BezierFrom(Curve(b, p0, p1, p2, p3), p3, step, t + step));
      points := points + [p];
      t := t + step;
    }
    points := points + [p3];
  }

  function Times(k: nat, step: real): real {
    if k == 0 then 0.0 else Times(k - 1, step) + step
  }

  lemma {:induction false} TimesIsProduct(k: nat, step: real)
    ensures Times(k, step) == k as real * step
  {
    if k > 0 {
      TimesIsProduct(k - 1, step);
      Distribute((k - 1) as real, 1.0, step);
    }
  }

  lemma TimesOfUnit(k: nat, n: nat)
    requires 0 < n && k <= n
    ensures var t := Times(k, 1.0 / n as real); (k < n ==> t < 1.0) && (k == n ==> t == 1.0)
  {
    var step := 1.0 / n as real;
    TimesIsProduct(k, step);
    TimesIsProduct(n, step);
    assert n as real * step == 1.0;
    if k < n {
      assert k as real <= (n as real) - 1.0;
      assert k as real * step <= ((n as real) - 1.0) * step == 1.0 - step;
    }
  }

  lemma {:induction false} BezierCount(curve: real -> Vec2, end: Vec2, k: nat, n: nat)
    requires 1 <= k <= n
    ensures var step := 1.0 / n as real;
      var s := BezierFrom(curve, end, step, Times(k, step));
      && |s| == n - k + 1 && s[n - k] == end
      && forall i :: 0 <= i < n - k ==> s[i] == curve(Times(k + i, step))
    decreases n - k
  {
    var step := 1.0 / n as real;
    TimesOfUnit(k, n);
    if k < n {
      BezierCount(curve, end, k + 1, n);
      var rest := BezierFrom(curve, end, step, Times(k + 1, step));
      var s := [curve(Times(k, step))] + rest;
      assert s == BezierFrom(curve, end, step, Times(k, step));
      forall i | 0 <= i < n - k
        ensures s[i] == curve(Times(k + i, step))
      {
        if i > 0 {
          assert s[i] == rest[i - 1] && Times(k + 1 + (i - 1), step) == Times(k + i, step);
        }
      }
    }
  }

  /** With n samples the resolution is 1 / n: a curve gives n points, the last one is the end point
      and the others lie on the curve at the multiples of 1 / n. */
  lemma BezierSamples(b: Interpolate, p0: Vec2, p1: Vec2, p2: Vec2, p3: Vec2, samples: nat)
    ensures var step := Resolution(samples);
      var s := BezierFrom(Curve(b, p0, p1, p2, p3), p3, step, step);
      && |s| == (if samples == 0 then 1 else samples) && s[|s| - 1] == p3
      && forall i :: 0 <= i < |s| - 1 ==> s[i] == b(Times(i + 1, step), p0, p1, p2, p3)
  {
    var n := if samples == 0 then 1 else samples;
    var step := Resolution(samples);
    assert Times(1, step) == step;
    BezierCount(Curve(b, p0, p1, p2, p3), p3, 1, n);
  }

  /** 1.0 / max(1, samples) */
  function Resolution(samples: nat): (r: real)
    ensures r > 0.0
  {
    1.0 / (if samples == 0 then 1 else samples) as real
  }

  // ----- strokes -----

  /** How an arc is sampled: from a point, with five parameters, to a point. */
  type Arc = (Vec2, seq<real>, Vec2) -> seq<Vec2>

  function Add(a: Vec2, b: Vec2): Vec2 {
    (a.0 + b.0, a.1 + b.1)
  }

  /** The origin the numbers of a command are taken from. */
  function Origin(c: char, last: Vec2): Vec2 {
    if c in {'m', 'l', 'c', 'a'} then last else (0.0, 0.0)
  }

  /** What one group of numbers adds; v, h and unknown letters add nothing. */
  function GroupStroke(samples: nat, b: Interpolate, arc: Arc, c: char, n: seq<real>, last: Vec2): (seq<Vec2>, Vec2)
    requires |n| == GroupSize(c)
  {
    var o := Origin(c, last);
    if ToLower(c) in {'m', 'l'} then
      var p := Add((n[0], n[1]), o);
      ([p], p)
    else if ToLower(c) == 'c' then
      var p1, p2, p3 := Add((n[0], n[1]), o), Add((n[2], n[3]), o), Add((n[4], n[5]), o);
      (BezierFrom(Curve(b, last, p1, p2, p3), p3, Resolution(samples), Resolution(samples)), p3)
    else if ToLower(c) == 'a' then
      var end := Add((n[5], n[6]), o);
      (arc(last, n[..5], end), end)
    else ([], last)
  }

  function StrokeOf(samples: nat, b: Interpolate, arc: Arc): Stroke {
    (c, n, last) => if |n| == GroupSize(c) then GroupStroke(samples, b, arc, c, n, last) else ([last], last)
  }

  ghost predicate ArcNotEmpty(arc: Arc) {
    forall p, n, end :: arc(p, n, end) != []
  }

  lemma StrokesOfSource(samples: nat, b: Interpolate, arc: Arc)
    requires ArcNotEmpty(arc)
    ensures ArcsDraw(StrokeOf(samples, b, arc))
  {
  }

  // ----- the loops of SubpathToPolyline -----

  method DrawLines(ghost samples: nat, ghost b: Interpolate, ghost arc: Arc, cmd: SVGCommand, last0: Vec2,
      polyline0: seq<Vec2>)
    returns (last: Vec2, polyline: seq<Vec2>)
    requires WholeGroups(cmd) && ToLower(cmd.cmd) in {'m', 'l'}
    ensures Pen(last, polyline) == Strokes(StrokeOf(samples, b, arc), cmd.cmd, cmd.numbers, Pen(last0, polyline0))
  {
    last, polyline := last0, polyline0;
    var i := 0;
    assert cmd.numbers[i..] == cmd.numbers;
    while i < |cmd.numbers|
      invariant i <= |cmd.numbers| && AreGroups(|cmd.numbers| - i, 2)
      invariant Strokes(StrokeOf(samples, b, arc), cmd.cmd, cmd.numbers[i..], Pen(last, polyline))
        == Strokes(StrokeOf(samples, b, arc), cmd.cmd, cmd.numbers, Pen(last0, polyline0))
    {
      assert cmd.numbers[i..][2..] == cmd.numbers[i + 2..];
      var p := (cmd.numbers[i], cmd.numbers[i + 1]);
      if cmd.cmd in {'m', 'l'} {
        p := (p.0 + last.0, p.1 + last.1);
      }
      polyline := polyline + [p];
      last := p;
      i := i + 2;
    }
  }

  lemma StrokesNext(f: Stroke, c: char, numbers: seq<real>, i: nat, pen: Pen)
    requires GroupSize(c) > 0 && i < |numbers| && AreGroups(|numbers| - i, GroupSize(c))
    ensures var k := i + GroupSize(c);
      k <= |numbers| && Strokes(f, c, numbers[i..], pen)
        == Strokes(f, c, numbers[k..], AfterGroup(f, c, numbers[i..k], pen))
  {
    var n := GroupSize(c);
    assert numbers[i..][..n] == numbers[i..i + n] && numbers[i..][n..] == numbers[i + n..];
  }

  /** The numbers from i on are still to be drawn. */
  ghost predicate Remains(f: Stroke, cmd: SVGCommand, i: nat, pen: Pen, goal: Pen) {
    && GroupSize(cmd.cmd) > 0 && i <= |cmd.numbers| && AreGroups(|cmd.numbers| - i, GroupSize(cmd.cmd))
    && Strokes(f, cmd.cmd, cmd.numbers[i..], pen) == goal
  }

  /** One round of the loop: the six numbers at i. */
  method DrawCurve(samples: nat, b: Interpolate, ghost arc: Arc, cmd: SVGCommand, i: nat, last0: Vec2,
      polyline0: seq<Vec2>, ghost goal: Pen)
    returns (last: Vec2, polyline: seq<Vec2>)
    requires ToLower(cmd.cmd) == 'c' && i < |cmd.numbers|
    requires Remains(StrokeOf(samples, b, arc), cmd, i, Pen(last0, polyline0), goal)
    ensures Remains(StrokeOf(samples, b, arc), cmd, i + 6, Pen(last, polyline), goal)
  {
    var numbers := cmd.numbers;
    var o := if cmd.cmd == 'c' then last0 else (0.0, 0.0);
    var p1 := Add((numbers[i], numbers[i + 1]), o);
    var p2 := Add((numbers[i + 2], numbers[i + 3]), o);
    var p3 := Add((numbers[i + 4], numbers[i + 5]), o);
    polyline := CubicBezier(b, last0, p1, p2, p3, Resolution(samples), polyline0);
    last := p3;
    CurveDrawn(samples, b, arc, cmd.cmd, numbers[i..i + 6], last0, polyline0);
    StrokesNext(StrokeOf(samples, b, arc), cmd.cmd, numbers, i, Pen(last0, polyline0));
  }

  lemma CurveDrawn(samples: nat, b: Interpolate, arc: Arc, c: char, n: seq<real>, last: Vec2, polyline: seq<Vec2>)
    requires ToLower(c) == 'c' && |n| == 6
    ensures var o := if c == 'c' then last else (0.0, 0.0);
      var p1, p2, p3 := Add((n[0], n[1]), o), Add((n[2], n[3]), o), Add((n[4], n[5]), o);
      AfterGroup(StrokeOf(samples, b, arc), c, n, Pen(last, polyline))
        == Pen(p3, polyline + BezierFrom(Curve(b, last, p1, p2, p3), p3, Resolution(samples), Resolution(samples)))
  {
    assert StrokeOf(samples, b, arc)(c, n, last) == GroupStroke(samples, b, arc, c, n, last);
  }

  method DrawCurves(samples: nat, b: Interpolate, ghost arc: Arc, cmd: SVGCommand, last0: Vec2, polyline0: seq<Vec2>)
    returns (last: Vec2, polyline: seq<Vec2>)
    requires WholeGroups(cmd) && ToLower(cmd.cmd) == 'c'
    ensures Pen(last, polyline) == Strokes(StrokeOf(samples, b, arc), cmd.cmd, cmd.numbers, Pen(last0, polyline0))
  {
    last, polyline := last0, polyline0;
    ghost var goal := Strokes(StrokeOf(samples, b, arc), cmd.cmd, cmd.numbers, Pen(last0, polyline0));
    var i := 0;
    assert cmd.numbers[i..] == cmd.numbers;
    while i < |cmd.numbers|
      invariant Remains(StrokeOf(samples, b, arc), cmd, i, Pen(last, polyline), goal)
    {
      last, polyline := DrawCurve(samples, b, arc, cmd, i, last, polyline, goal);
      i := i + 6;
    }
  }

  method DrawArcs(ghost samples: nat, ghost b: Interpolate, arc: Arc, cmd: SVGCommand, last0: Vec2,
      polyline0: seq<Vec2>)
    returns (last: Vec2, polyline: seq<Vec2>)
    requires WholeGroups(cmd) && ToLower(cmd.cmd) == 'a'
    ensures Pen(last, polyline) == Strokes(StrokeOf(samples, b, arc), cmd.cmd, cmd.numbers, Pen(last0, polyline0))
  {
    last, polyline := last0, polyline0;
    var i := 0;
    assert cmd.numbers[i..] == cmd.numbers;
    while i < |cmd.numbers|
      invariant i <= |cmd.numbers| && AreGroups(|cmd.numbers| - i, 7)
      invariant Strokes(StrokeOf(samples, b, arc), cmd.cmd, cmd.numbers[i..], Pen(last, polyline))
        == Strokes(StrokeOf(samples, b, arc), cmd.cmd, cmd.numbers, Pen(last0, polyline0))
    {
      assert cmd.numbers[i..][7..] == cmd.numbers[i + 7..];
      assert cmd.numbers[i..][..7][..5] == cmd.numbers[i..i + 5];
      var end := Add((cmd.numbers[i + 5], cmd.numbers[i + 6]), if cmd.cmd == 'a' then last else (0.0, 0.0));
      polyline := polyline + arc(last, cmd.numbers[i..i + 5], end);
      last := end;
      i := i + 7;
    }
  }

  lemma {:induction false} NothingDrawn(samples: nat, b: Interpolate, arc: Arc, c: char, numbers: seq<real>, pen: Pen)
    requires ToLower(c) in {'v', 'h'}
    requires AreGroups(|numbers|, 1)
    ensures Strokes(StrokeOf(samples, b, arc), c, numbers, pen) == pen
    decreases |numbers|
  {
    if numbers != [] {
      assert pen.polyline + [] == pen.polyline;
      NothingDrawn(samples, b, arc, c, numbers[1..], pen);
    }
  }

  /** The switch over the letters. The case of 'a' has no break. */
  method DrawCommand(samples: nat, b: Interpolate, arc: Arc, cmd: SVGCommand, last0: Vec2, polyline0: seq<Vec2>)
    returns (last: Vec2, polyline: seq<Vec2>)
    requires WholeGroups(cmd)
    ensures Pen(last, polyline) == DrawnCommand(StrokeOf(samples, b, arc), cmd, Pen(last0, polyline0))
  {
    last, polyline := last0, polyline0;
    match cmd.cmd {
      case 'm' | 'l' | 'M' | 'L' =>
        last, polyline := DrawLines(samples, b, arc, cmd, last, polyline);
      case 'C' | 'c' =>
        last, polyline := DrawCurves(samples, b, arc, cmd, last, polyline);
      case 'A' =>
        last, polyline := DrawArcs(samples, b, arc, cmd, last, polyline);
      case 'a' =>
        last, polyline := DrawArcs(samples, b, arc, cmd, last, polyline);
        polyline := Closed(polyline);
      case 'Z' | 'z' =>
        polyline := Closed(polyline);
      case _ =>
        if ToLower(cmd.cmd) in {'v', 'h'} {
          NothingDrawn(samples, b, arc, cmd.cmd, cmd.numbers, Pen(last, polyline));
        }
    }
  }

  method SubpathToPolyline(samples: nat, b: Interpolate, arc: Arc, subpath: seq<SVGCommand>, last0: Vec2,
      polyline0: seq<Vec2>)
    returns (last: Vec2, polyline: seq<Vec2>)
    requires AllWhole(subpath)
    ensures polyline0 != [] ==> last == (0.0, 0.0) && polyline == polyline0
    ensures polyline0 == [] ==> Pen(last, polyline) == Drawn(StrokeOf(samples, b, arc), subpath, Pen(last0, []))
  {
    last, polyline := last0, polyline0;
    if polyline != [] {
      return (0.0, 0.0), polyline;
    }
    var i := 0;
    while i < |subpath|
      invariant 0 <= i <= |subpath| && AllWhole(subpath[..i])
      invariant Pen(last, polyline) == Drawn(StrokeOf(samples, b, arc), subpath[..i], Pen(last0, []))
    {
      assert subpath[..i + 1][..i] == subpath[..i];
      last, polyline := DrawCommand(samples, b, arc, subpath[i], last, polyline);
      i := i + 1;
    }
    assert subpath[..i] == subpath;
  }

  // ----- the promise, for these strokes -----

  /** Expansion keeps what SubpathToPolyline draws, for any arc sampling: the same end point always,
      the same polyline exactly when the status says so, and so whenever every 'a' has one group. */
  lemma ExpandedSubpathDrawsAlike(samples: nat, b: Interpolate, arc: Arc, s: seq<SVGCommand>, last: Vec2)
    requires ArcNotEmpty(arc) && AllWhole(s)
    ensures AllWhole(ExpandedAll(s))
    ensures var f, pen := StrokeOf(samples, b, arc), Pen(last, []);
      && Drawn(f, ExpandedAll(s), pen).last == Drawn(f, s, pen).last
      && (Drawn(f, ExpandedAll(s), pen) == Drawn(f, s, pen) <==> StatusAfter(f, s, pen) == Same)
      && ((forall i :: 0 <= i < |s| ==> s[i].cmd == 'a' ==> |s[i].numbers| == 7) ==> StatusAfter(f, s, pen) == Same)
  {
    var f, pen := StrokeOf(samples, b, arc), Pen(last, []);
    StrokesOfSource(samples, b, arc);
    ExpansionKeepsDrawing(f, s, pen);
    if forall i :: 0 <= i < |s| ==> s[i].cmd == 'a' ==> |s[i].numbers| == 7 {
      OneArcEachIsSame(f, s, pen);
    }
  }

  /** A first move draws its point. */
  lemma StartDrawn(samples: nat, b: Interpolate, arc: Arc, start: seq<real>)
    requires |start| == 2
    ensures var s := [SVGCommand('M', start)];
      && AreGroups(2, 2) && AllWhole(s)
      && Drawn(StrokeOf(samples, b, arc), s, Pen((0.0, 0.0), [])) == Pen((start[0], start[1]), [(start[0], start[1])])
      && StatusAfter(StrokeOf(samples, b, arc), s, Pen((0.0, 0.0), [])) == Same
  {
    var f, c, pen := StrokeOf(samples, b, arc), SVGCommand('M', start), Pen((0.0, 0.0), []);
    assert AreGroups(0, 2);
    assert [c][..0] == [];
    OneGroup(f, 'M', start, pen);
  }

  lemma LastStatus(f: Stroke, s: seq<SVGCommand>, c: SVGCommand, pen: Pen)
    requires AllWhole(s) && WholeGroups(c)
    ensures AllWhole(s + [c])
    ensures StatusAfter(f, s + [c], pen) == NextStatus(f, c, StatusAfter(f, s, pen), Drawn(f, s, pen))
    ensures Drawn(f, s + [c], pen) == DrawnCommand(f, c, Drawn(f, s, pen))
  {
    assert (s + [c])[..|s|] == s;
  }

  /** An 'a' with two groups, the first of which ends far from the start, draws one point more when
      it is expanded. */
  lemma TwoArcsChange(samples: nat, b: Interpolate, arc: Arc, start: seq<real>, numbers: seq<real>)
    requires ArcNotEmpty(arc) && |start| == 2 && |numbers| == 14
    requires var o := (start[0], start[1]);
      var points := arc(o, numbers[..5], Add((numbers[5], numbers[6]), o));
      IsFar(points[|points| - 1], o)
    ensures var s, f, pen := [SVGCommand('M', start), SVGCommand('a', numbers)], StrokeOf(samples, b, arc),
      Pen((0.0, 0.0), []);
      AllWhole(s) && AllWhole(ExpandedAll(s)) && Drawn(f, ExpandedAll(s), pen) != Drawn(f, s, pen)
  {
    var move, c := [SVGCommand('M', start)], SVGCommand('a', numbers);
    var f, pen := StrokeOf(samples, b, arc), Pen((0.0, 0.0), []);
    assert AreGroups(0, 7) && AreGroups(7, 7);
    StartDrawn(samples, b, arc, start);
    LastStatus(f, move, c, pen);
    assert move + [c] == [SVGCommand('M', start), c];
    assert numbers[..7][..5] == numbers[..5];
    assert !QuietArcs(f, numbers, Drawn(f, move, pen));
    ExpandedSubpathDrawsAlike(samples, b, arc, move + [c], (0.0, 0.0));
  }

  /** A line behind the first move draws its point. */
  lemma LineDrawn(samples: nat, b: Interpolate, arc: Arc, start: seq<real>, end: seq<real>)
    requires |start| == 2 && |end| == 2
    ensures var s, f, pen := [SVGCommand('M', start), SVGCommand('L', end)], StrokeOf(samples, b, arc),
      Pen((0.0, 0.0), []);
      && AllWhole(s) && StatusAfter(f, s, pen) == Same
      && Drawn(f, s, pen) == Pen((end[0], end[1]), [(start[0], start[1]), (end[0], end[1])])
  {
    var f, move, line := StrokeOf(samples, b, arc), [SVGCommand('M', start)], SVGCommand('L', end);
    var pen := Pen((0.0, 0.0), []);
    assert AreGroups(0, 2);
    StartDrawn(samples, b, arc, start);
    OneGroup(f, 'L', end, Drawn(f, move, pen));
    LastStatus(f, move, line, pen);
    assert move + [line] == [SVGCommand('M', start), line];
  }

  /** So does an 'a' without numbers that finds the drawing far from its start: it closes the path, and
      its expansion is nothing. */
  lemma BareArcChanges(samples: nat, b: Interpolate, arc: Arc, start: seq<real>, end: seq<real>)
    requires ArcNotEmpty(arc) && |start| == 2 && |end| == 2 && IsFar((end[0], end[1]), (start[0], start[1]))
    ensures var s := [SVGCommand('M', start), SVGCommand('L', end), SVGCommand('a', [])];
      var f, pen := StrokeOf(samples, b, arc), Pen((0.0, 0.0), []);
      AllWhole(s) && AllWhole(ExpandedAll(s)) && Drawn(f, ExpandedAll(s), pen) != Drawn(f, s, pen)
  {
    var drawn, c := [SVGCommand('M', start), SVGCommand('L', end)], SVGCommand('a', []);
    var s := [SVGCommand('M', start), SVGCommand('L', end), c];
    assert s == drawn + [c] && AreGroups(0, 7);
    LineDrawn(samples, b, arc, start, end);
    LastStatus(StrokeOf(samples, b, arc), drawn, c, Pen((0.0, 0.0), []));
    ExpandedSubpathDrawsAlike(samples, b, arc, s, (0.0, 0.0));
  }
}
