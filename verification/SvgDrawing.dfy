/**
  What expansion does to the drawing: drawing the expanded commands of a subpath ends where the compact
  ones end, and gives the same polyline exactly when a status, computed along the compact drawing, says
  so. Only an 'a' with several groups, or with none, can make a difference.
*/
module SvgDrawing {
  import opened Common
  import opened SvgPath

  // ----- drawing in pieces -----

  lemma {:induction false} DrawnConcat(f: Stroke, a: seq<SVGCommand>, b: seq<SVGCommand>, pen: Pen)
    requires AllWhole(a) && AllWhole(b)
    ensures AllWhole(a + b) && Drawn(f, a + b, pen) == Drawn(f, b, Drawn(f, a, pen))
    decreases |b|
  {
    if b == [] {
      assert a + b == a;
    } else {
      var last := |b| - 1;
      assert (a + b)[..|a + b| - 1] == a + b[..last];
      DrawnConcat(f, a, b[..last], pen);
    }
  }

  lemma GroupsWhole(c: char, numbers: seq<real>)
    requires GroupSize(c) > 0 && AreGroups(|numbers|, GroupSize(c))
    ensures AllWhole(Groups(c, numbers))
  {
    ExpansionKeepsNumbers(c, numbers);
  }

  lemma ExpandedWhole(c: SVGCommand)
    requires WholeGroups(c)
    ensures AllWhole(Expanded(c))
  {
    if GroupSize(c.cmd) > 0 {
      GroupsWhole(c.cmd, c.numbers);
    }
  }

  lemma {:induction false} ExpandedAllWhole(s: seq<SVGCommand>)
    requires AllWhole(s)
    ensures AllWhole(ExpandedAll(s))
  {
    if s != [] {
      ExpandedAllWhole(s[..|s| - 1]);
      ExpandedWhole(s[|s| - 1]);
    }
  }

  /** One group, then the rest. */
  lemma DrawnFirst(f: Stroke, c: SVGCommand, rest: seq<SVGCommand>, pen: Pen)
    requires WholeGroups(c) && AllWhole(rest)
    ensures AllWhole([c] + rest) && Drawn(f, [c] + rest, pen) == Drawn(f, rest, DrawnCommand(f, c, pen))
  {
    assert [c][..0] == [];
    DrawnConcat(f, [c], rest, pen);
  }

  function AfterGroup(f: Stroke, c: char, group: seq<real>, pen: Pen): Pen {
    var (points, last) := f(c, group, pen.last);
    Pen(last, pen.polyline + points)
  }

  lemma OneGroup(f: Stroke, c: char, group: seq<real>, pen: Pen)
    requires |group| == GroupSize(c) > 0
    ensures WholeGroups(SVGCommand(c, group))
    ensures var p := AfterGroup(f, c, group, pen);
      DrawnCommand(f, SVGCommand(c, group), pen) == if Closes(c) then p.(polyline := Closed(p.polyline)) else p
  {
    assert group[..GroupSize(c)] == group && group[GroupSize(c)..] == [];
    assert AreGroups(0, GroupSize(c));
    assert Strokes(f, c, group, pen) == Strokes(f, c, [], AfterGroup(f, c, group, pen));
  }

  /** Commands other than 'a' draw the same in groups. */
  lemma {:induction false} GroupsDrawTheSame(f: Stroke, c: char, numbers: seq<real>, pen: Pen)
    requires GroupSize(c) > 0 && AreGroups(|numbers|, GroupSize(c)) && !Closes(c)
    ensures AllWhole(Groups(c, numbers)) && Drawn(f, Groups(c, numbers), pen) == Strokes(f, c, numbers, pen)
    decreases |numbers|
  {
    GroupsWhole(c, numbers);
    if numbers != [] {
      var n := GroupSize(c);
      OneGroup(f, c, numbers[..n], pen);
      GroupsWhole(c, numbers[n..]);
      DrawnFirst(f, SVGCommand(c, numbers[..n]), Groups(c, numbers[n..]), pen);
      GroupsDrawTheSame(f, c, numbers[n..], AfterGroup(f, c, numbers[..n], pen));
    }
  }

  /** What the numbers of a command add to a drawing does not depend on what was drawn before. */
  function Stroked(f: Stroke, c: char, numbers: seq<real>, last: Vec2): (seq<Vec2>, Vec2)
    requires GroupSize(c) > 0 && AreGroups(|numbers|, GroupSize(c))
    decreases |numbers|
  {
    if numbers == [] then ([], last)
    else
      var n := GroupSize(c);
      var (points, next) := f(c, numbers[..n], last);
      var (others, end) := Stroked(f, c, numbers[n..], next);
      (points + others, end)
  }

  function Adding(pen: Pen, stroke: (seq<Vec2>, Vec2)): Pen {
    Pen(stroke.1, pen.polyline + stroke.0)
  }

  lemma {:induction false} StrokesAdd(f: Stroke, c: char, numbers: seq<real>, pen: Pen)
    requires GroupSize(c) > 0 && AreGroups(|numbers|, GroupSize(c))
    ensures Strokes(f, c, numbers, pen) == Adding(pen, Stroked(f, c, numbers, pen.last))
    decreases |numbers|
  {
    if numbers == [] {
      assert pen.polyline + [] == pen.polyline;
    } else {
      var n := GroupSize(c);
      var (points, next) := f(c, numbers[..n], pen.last);
      StrokesAdd(f, c, numbers[n..], Pen(next, pen.polyline + points));
      Reassociate(pen.polyline, points, Stroked(f, c, numbers[n..], next).0);
    }
  }

  // ----- how often the start point follows each other point -----

  /** Counts of the point start: at the beginning, and behind each of the other points. */
  function Runs(line: seq<Vec2>, start: Vec2): (r: seq<nat>)
    ensures r != []
  {
    if line == [] then [0] else Counted(Runs(line[..|line| - 1], start), line[|line| - 1] == start)
  }

  /** The counts with one more point. */
  function Counted(r: seq<nat>, isStart: bool): (s: seq<nat>)
    requires r != []
    ensures s != []
  {
    if isStart then r[..|r| - 1] + [r[|r| - 1] + 1] else r + [0]
  }

  lemma RunsNext(line: seq<Vec2>, x: Vec2, start: Vec2)
    ensures Runs(line + [x], start) == Counted(Runs(line, start), x == start)
  {
    assert (line + [x])[..|line|] == line;
  }

  lemma RunsEnd(line: seq<Vec2>, start: Vec2)
    requires line != []
    ensures var r := Runs(line, start); r[|r| - 1] > 0 <==> line[|line| - 1] == start
  {
  }

  /** A difference that more points do not make up for: a count that is settled, or the last one when
      both lines end at the start already. */
  ghost predicate Differ(r: seq<nat>, s: seq<nat>)
    requires r != [] && s != []
  {
    |r| == |s| && exists k :: 0 <= k < |r| && DifferAt(r, s, k)
  }

  predicate DifferAt(r: seq<nat>, s: seq<nat>, k: nat)
    requires k < |r| && k < |s|
  {
    r[k] != s[k] && (k < |r| - 1 || (r[k] > 0 && s[k] > 0))
  }

  lemma DifferStays(r: seq<nat>, s: seq<nat>, isStart: bool)
    requires r != [] && s != [] && Differ(r, s)
    ensures Differ(Counted(r, isStart), Counted(s, isStart))
  {
    var k :| 0 <= k < |r| && DifferAt(r, s, k);
    assert DifferAt(Counted(r, isStart), Counted(s, isStart), k);
  }

  /** One more start point on one side alone, which is added only behind another point. */
  lemma DifferStaysOneSided(r: seq<nat>, s: seq<nat>)
    requires r != [] && s != [] && Differ(r, s) && r[|r| - 1] == 0
    ensures Differ(Counted(r, true), s) && Differ(s, Counted(r, true))
  {
    var k :| 0 <= k < |r| && DifferAt(r, s, k);
    assert DifferAt(Counted(r, true), s, k) && DifferAt(s, Counted(r, true), k);
  }

  lemma DifferSymmetric(r: seq<nat>, s: seq<nat>)
    requires r != [] && s != [] && Differ(r, s)
    ensures Differ(s, r)
  {
    var k :| 0 <= k < |r| && DifferAt(r, s, k);
    assert DifferAt(s, r, k);
  }

  ghost predicate LinesDiffer(a: seq<Vec2>, b: seq<Vec2>, start: Vec2) {
    Differ(Runs(a, start), Runs(b, start))
  }

  lemma PointKeepsDifference(a: seq<Vec2>, b: seq<Vec2>, x: Vec2, start: Vec2)
    requires LinesDiffer(a, b, start)
    ensures LinesDiffer(a + [x], b + [x], start)
  {
    RunsNext(a, x, start);
    RunsNext(b, x, start);
    DifferStays(Runs(a, start), Runs(b, start), x == start);
  }

  lemma {:induction false} PointsKeepDifference(a: seq<Vec2>, b: seq<Vec2>, points: seq<Vec2>, start: Vec2)
    requires LinesDiffer(a, b, start)
    ensures LinesDiffer(a + points, b + points, start)
    decreases |points|
  {
    if points == [] {
      assert a + points == a && b + points == b;
    } else {
      PointKeepsDifference(a, b, points[0], start);
      PointsKeepDifference(a + [points[0]], b + [points[0]], points[1..], start);
      FirstOf(a, points);
      FirstOf(b, points);
    }
  }

  lemma FirstOf(a: seq<Vec2>, points: seq<Vec2>)
    requires points != []
    ensures a + [points[0]] + points[1..] == a + points
  {
  }

  lemma ClosingKeepsDifference(a: seq<Vec2>, b: seq<Vec2>)
    requires a != [] && b != [] && a[0] == b[0] && LinesDiffer(a, b, a[0])
    ensures LinesDiffer(Closed(a), b, a[0]) && LinesDiffer(b, Closed(a), a[0])
  {
    DifferSymmetric(Runs(a, a[0]), Runs(b, a[0]));
    if IsFar(a[|a| - 1], a[0]) {
      RunsEnd(a, a[0]);
      RunsNext(a, a[0], a[0]);
      DifferStaysOneSided(Runs(a, a[0]), Runs(b, a[0]));
    }
  }

  /** The start point on one side, and then the same points on both: too late to make up for it. */
  lemma PointsMakeDifference(a: seq<Vec2>, start: Vec2, points: seq<Vec2>)
    requires a != [] && a[|a| - 1] != start && points != []
    ensures LinesDiffer(a + [start] + points, a + points, start)
  {
    var x, others := points[0], points[1..];
    RunsEnd(a, start);
    RunsNext(a, start, start);
    RunsNext(a + [start], x, start);
    RunsNext(a, x, start);
    var r := Runs(a, start);
    assert DifferAt(Runs(a + [start] + [x], start), Runs(a + [x], start), |r| - 1);
    PointsKeepDifference(a + [start] + [x], a + [x], others, start);
    FirstOf(a + [start], points);
    FirstOf(a, points);
  }

  // ----- the status of two drawings -----

  /** The compact drawing against the expanded one: the same; one start point longer, and the other
      one could still make up for it; one shorter; or different for good. */
  datatype Status = Same | Longer | Shorter | Different

  /** The line ends far from its start, and the other one is this one closed. */
  predicate IsClosedForm(line: seq<Vec2>, closed: seq<Vec2>) {
    line != [] && IsFar(line[|line| - 1], line[0]) && closed == line + [line[0]]
  }

  ghost predicate Related(st: Status, p: Pen, q: Pen) {
    && p.last == q.last
    && match st
       case Same => p == q
       case Longer => IsClosedForm(q.polyline, p.polyline)
       case Shorter => IsClosedForm(p.polyline, q.polyline)
       case Different => SameStart(p.polyline, q.polyline) && LinesDiffer(p.polyline, q.polyline, p.polyline[0])
  }

  predicate SameStart(a: seq<Vec2>, b: seq<Vec2>) {
    a != [] && b != [] && a[0] == b[0]
  }

  lemma SameIsEqual(st: Status, p: Pen, q: Pen)
    requires Related(st, p, q)
    ensures p == q <==> st == Same
  {
  }

  /** The status after both drawings got the same points. */
  function Drawing(st: Status, points: seq<Vec2>): Status {
    if points == [] || st == Same then st else Different
  }

  lemma PointsRelated(st: Status, p: Pen, q: Pen, stroke: (seq<Vec2>, Vec2))
    requires Related(st, p, q)
    ensures Related(Drawing(st, stroke.0), Adding(p, stroke), Adding(q, stroke))
  {
    var points := stroke.0;
    if points == [] {
      assert p.polyline + [] == p.polyline && q.polyline + [] == q.polyline;
    } else if st == Longer {
      var start := p.polyline[0];
      NotFarFromItself(start);
      PointsMakeDifference(q.polyline, start, points);
    } else if st == Shorter {
      var start := p.polyline[0];
      NotFarFromItself(start);
      PointsMakeDifference(p.polyline, start, points);
      DifferSymmetric(Runs(q.polyline + points, start), Runs(p.polyline + points, start));
    } else if st == Different {
      PointsKeepDifference(p.polyline, q.polyline, points, p.polyline[0]);
    }
  }

  lemma NotFarFromItself(a: Vec2)
    ensures !IsFar(a, a)
  {
  }

  function Closing(p: Pen): Pen {
    p.(polyline := Closed(p.polyline))
  }

  lemma BothClosed(st: Status, p: Pen, q: Pen)
    requires Related(st, p, q)
    ensures Related(if st == Different then Different else Same, Closing(p), Closing(q))
  {
    if st == Different {
      ClosingKeepsDifference(p.polyline, q.polyline);
      ClosingKeepsDifference(q.polyline, Closed(p.polyline));
    } else if p.polyline != [] {
      NotFarFromItself(p.polyline[0]);
    }
  }

  /** Only the compact drawing is closed. */
  lemma CompactClosed(st: Status, p: Pen, q: Pen)
    requires Related(st, p, q) && st != Shorter
    ensures Related(if st == Same && !IsNearStart(p.polyline) then Longer else st, Closing(p), q)
  {
    if st == Different {
      ClosingKeepsDifference(p.polyline, q.polyline);
    } else if p.polyline != [] {
      NotFarFromItself(p.polyline[0]);
    }
  }

  /** Only the expanded drawing is closed. */
  lemma ExpandedClosed(st: Status, p: Pen, q: Pen)
    requires Related(st, p, q) && (st == Same || st == Different)
    ensures Related(if st == Same && !IsNearStart(p.polyline) then Shorter else st, p, Closing(q))
  {
    if st == Different {
      DifferSymmetric(Runs(p.polyline, p.polyline[0]), Runs(q.polyline, p.polyline[0]));
      ClosingKeepsDifference(q.polyline, p.polyline);
    }
  }

  predicate IsNearStart(line: seq<Vec2>) {
    line == [] || !IsFar(line[|line| - 1], line[0])
  }

  // ----- arcs -----

  /** An arc always draws something. */
  ghost predicate ArcsDraw(f: Stroke) {
    forall group, last :: f('a', group, last).0 != []
  }

  /** After each group but the last the polyline ends near its first point. */
  predicate QuietArcs(f: Stroke, numbers: seq<real>, pen: Pen)
    requires AreGroups(|numbers|, 7)
    decreases |numbers|
  {
    |numbers| <= 7 ||
    (var p := AfterGroup(f, 'a', numbers[..7], pen); IsNearStart(p.polyline) && QuietArcs(f, numbers[7..], p))
  }

  /** The first group of an 'a', drawn in both ways, and closed in the expanded one if more follow. */
  lemma FirstGroup(f: Stroke, group: seq<real>, st: Status, p: Pen, q: Pen)
    requires ArcsDraw(f) && Related(st, p, q)
    ensures var p1, q1 := AfterGroup(f, 'a', group, p), AfterGroup(f, 'a', group, q);
      && Related(if st == Same then Same else Different, p1, q1)
      && Related(if st != Same then Different else if IsNearStart(p1.polyline) then Same else Shorter, p1, Closing(q1))
  {
    PointsRelated(st, p, q, f('a', group, p.last));
    ExpandedClosed(if st == Same then Same else Different, AfterGroup(f, 'a', group, p), AfterGroup(f, 'a', group, q));
  }

  /** An 'a' with one group. */
  lemma LastGroup(f: Stroke, group: seq<real>, st: Status, p: Pen, q: Pen)
    requires ArcsDraw(f) && Related(st, p, q)
    ensures Related(if st == Same then Same else Different,
      Closing(AfterGroup(f, 'a', group, p)), Closing(AfterGroup(f, 'a', group, q)))
  {
    FirstGroup(f, group, st, p, q);
    BothClosed(if st == Same then Same else Different, AfterGroup(f, 'a', group, p), AfterGroup(f, 'a', group, q));
  }

  /** Cutting off the first group of an 'a', in both drawings. */
  lemma ArcNext(f: Stroke, numbers: seq<real>, p: Pen, q: Pen)
    requires AreGroups(|numbers|, 7) && |numbers| > 7
    ensures AllWhole(Groups('a', numbers)) && AllWhole(Groups('a', numbers[7..]))
    ensures DrawnCommand(f, SVGCommand('a', numbers), p)
      == DrawnCommand(f, SVGCommand('a', numbers[7..]), AfterGroup(f, 'a', numbers[..7], p))
    ensures Drawn(f, Groups('a', numbers), q)
      == Drawn(f, Groups('a', numbers[7..]), Closing(AfterGroup(f, 'a', numbers[..7], q)))
  {
    GroupsWhole('a', numbers);
    GroupsWhole('a', numbers[7..]);
    OneGroup(f, 'a', numbers[..7], q);
    DrawnFirst(f, SVGCommand('a', numbers[..7]), Groups('a', numbers[7..]), q);
  }

  lemma ArcAlone(f: Stroke, numbers: seq<real>, p: Pen, q: Pen)
    requires |numbers| == 7
    ensures AreGroups(7, 7) && AllWhole(Groups('a', numbers))
    ensures DrawnCommand(f, SVGCommand('a', numbers), p) == Closing(AfterGroup(f, 'a', numbers, p))
    ensures Drawn(f, Groups('a', numbers), q) == Closing(AfterGroup(f, 'a', numbers, q))
  {
    assert AreGroups(0, 7);
    GroupsWhole('a', numbers);
    OneGroup(f, 'a', numbers, p);
    OneGroup(f, 'a', numbers, q);
    assert numbers[..7] == numbers && numbers[7..] == [];
    DrawnFirst(f, SVGCommand('a', numbers), [], q);
  }

  /** The groups of an 'a' drawn one command each, against all of them drawn and then closed. */
  lemma {:induction false} ArcsRelated(f: Stroke, numbers: seq<real>, st: Status, p: Pen, q: Pen)
    requires ArcsDraw(f) && numbers != [] && AreGroups(|numbers|, 7) && Related(st, p, q)
    ensures AllWhole(Groups('a', numbers))
    ensures Related(if st == Same && QuietArcs(f, numbers, p) then Same else Different,
      DrawnCommand(f, SVGCommand('a', numbers), p), Drawn(f, Groups('a', numbers), q))
    decreases |numbers|
  {
    if |numbers| == 7 {
      ArcAlone(f, numbers, p, q);
      LastGroup(f, numbers, st, p, q);
    } else {
      var p1, q1 := AfterGroup(f, 'a', numbers[..7], p), Closing(AfterGroup(f, 'a', numbers[..7], q));
      FirstGroup(f, numbers[..7], st, p, q);
      ArcNext(f, numbers, p, q);
      var next := if st != Same then Different else if IsNearStart(p1.polyline) then Same else Shorter;
      ArcsRelated(f, numbers[7..], next, p1, q1);
    }
  }

  // ----- whole subpaths -----

  /** How a command changes the status; pen is the compact drawing before it. */
  function NextStatus(f: Stroke, c: SVGCommand, st: Status, pen: Pen): Status
    requires WholeGroups(c)
  {
    if st == Different then Different
    else if c.cmd == 'a' then
      if c.numbers != [] then if st == Same && QuietArcs(f, c.numbers, pen) then Same else Different
      else if st == Same && !IsNearStart(pen.polyline) then Longer
      else st
    else if ToLower(c.cmd) == 'z' then Same
    else if GroupSize(c.cmd) > 0 then Drawing(st, Stroked(f, c.cmd, c.numbers, pen.last).0)
    else st
  }

  /** The status at the end of a subpath. It stays Same as long as every 'a' finds the drawing near its
      start: after each of its groups but the last, or at once if it has none. If an 'a' without
      numbers does not, the two drawings are the same again after the next 'z', provided nothing is
      drawn in between. */
  function StatusAfter(f: Stroke, s: seq<SVGCommand>, pen: Pen): Status
    requires AllWhole(s)
  {
    if s == [] then Same
    else NextStatus(f, s[|s| - 1], StatusAfter(f, s[..|s| - 1], pen), Drawn(f, s[..|s| - 1], pen))
  }

  lemma CommandRelated(f: Stroke, c: SVGCommand, st: Status, p: Pen, q: Pen)
    requires ArcsDraw(f) && WholeGroups(c) && Related(st, p, q) && st != Shorter
    ensures AllWhole(Expanded(c))
    ensures NextStatus(f, c, st, p) != Shorter
    ensures Related(NextStatus(f, c, st, p), DrawnCommand(f, c, p), Drawn(f, Expanded(c), q))
  {
    ExpandedWhole(c);
    if c.cmd == 'a' && c.numbers != [] {
      ArcsRelated(f, c.numbers, st, p, q);
    } else if c.cmd == 'a' {
      CompactClosed(st, p, q);
    } else if GroupSize(c.cmd) > 0 {
      GroupsDrawTheSame(f, c.cmd, c.numbers, q);
      StrokesAdd(f, c.cmd, c.numbers, p);
      StrokesAdd(f, c.cmd, c.numbers, q);
      PointsRelated(st, p, q, Stroked(f, c.cmd, c.numbers, p.last));
    } else if ToLower(c.cmd) == 'z' {
      assert [c][..0] == [];
      BothClosed(st, p, q);
    }
  }

  /** The drawings of a subpath and of its expanded commands. */
  ghost predicate DrawingsRelated(f: Stroke, s: seq<SVGCommand>, e: seq<SVGCommand>, pen: Pen)
    requires AllWhole(s) && AllWhole(e)
  {
    StatusAfter(f, s, pen) != Shorter && Related(StatusAfter(f, s, pen), Drawn(f, s, pen), Drawn(f, e, pen))
  }

  lemma NextRelated(f: Stroke, front: seq<SVGCommand>, e: seq<SVGCommand>, c: SVGCommand, pen: Pen)
    requires ArcsDraw(f) && AllWhole(front) && AllWhole(e) && WholeGroups(c) && DrawingsRelated(f, front, e, pen)
    ensures AllWhole(front + [c]) && AllWhole(e + Expanded(c)) && DrawingsRelated(f, front + [c], e + Expanded(c), pen)
  {
    ExpandedWhole(c);
    assert (front + [c])[..|front|] == front;
    DrawnConcat(f, e, Expanded(c), pen);
    CommandRelated(f, c, StatusAfter(f, front, pen), Drawn(f, front, pen), Drawn(f, e, pen));
  }

  lemma {:induction false} SubpathRelated(f: Stroke, s: seq<SVGCommand>, pen: Pen)
    requires ArcsDraw(f) && AllWhole(s)
    ensures AllWhole(ExpandedAll(s)) && DrawingsRelated(f, s, ExpandedAll(s), pen)
    decreases |s|
  {
    if s != [] {
      var front, c := s[..|s| - 1], s[|s| - 1];
      assert s == front + [c];
      SubpathRelated(f, front, pen);
      NextRelated(f, front, ExpandedAll(front), c, pen);
    }
  }

  /** Drawing the expanded commands of a subpath ends at the point where the compact ones end, and
      gives the same polyline exactly when the status says so. The program reads the first point of
      a polyline when it closes it; here closing one without points does nothing. */
  lemma ExpansionKeepsDrawing(f: Stroke, s: seq<SVGCommand>, pen: Pen)
    requires ArcsDraw(f) && AllWhole(s)
    ensures AllWhole(ExpandedAll(s))
    ensures Drawn(f, ExpandedAll(s), pen).last == Drawn(f, s, pen).last
    ensures Drawn(f, ExpandedAll(s), pen) == Drawn(f, s, pen) <==> StatusAfter(f, s, pen) == Same
  {
    SubpathRelated(f, s, pen);
    SameIsEqual(StatusAfter(f, s, pen), Drawn(f, s, pen), Drawn(f, ExpandedAll(s), pen));
  }

  /** So nothing changes when every 'a' has one group. */
  lemma {:induction false} OneArcEachIsSame(f: Stroke, s: seq<SVGCommand>, pen: Pen)
    requires AllWhole(s) && forall i :: 0 <= i < |s| ==> s[i].cmd == 'a' ==> |s[i].numbers| == 7
    ensures StatusAfter(f, s, pen) == Same
  {
    if s != [] {
      OneArcEachIsSame(f, s[..|s| - 1], pen);
    }
  }
}
