/**
  SVGLoader::PathsToClosedPolylines (graphics/src/SVGLoader.cc): the polylines of all paths are cut
  into segments, and the segments are stitched to new polylines wherever ends are near each other.
*/
module SvgStitch {
  import opened Common

  type Segment = (Vec2, Vec2)

  /** Whether two points count as the same. */
  type Nearness = (Vec2, Vec2) -> bool

  function Vector2dCompare(tol: real): Nearness {
    (a, b) => DistanceSquared(a, b) < tol * tol
  }

  /** endPoint.Distance(startPoint) < tol, as a comparison of squares. */
  function ShorterThan(tol: real): Nearness {
    (a, b) => tol > 0.0 && DistanceSquared(a, b) < tol * tol
  }

  // ----- cutting into segments -----

  /** A point too near the start of the segment is skipped, and the start is kept. */
  function Cut(points: seq<Vec2>, start: Vec2, short: Nearness): seq<Segment> {
    if points == [] then []
    else if short(points[0], start) then Cut(points[1..], start, short)
    else [(start, points[0])] + Cut(points[1..], points[0], short)
  }

  /** The program reads the first point of each polyline. */
  predicate NoneEmpty(polylines: seq<seq<Vec2>>) {
    forall i :: 0 <= i < |polylines| ==> polylines[i] != []
  }

  function CutAll(polylines: seq<seq<Vec2>>, short: Nearness): seq<Segment>
    requires NoneEmpty(polylines)
  {
    if polylines == [] then []
    else
      var last := polylines[|polylines| - 1];
      CutAll(polylines[..|polylines| - 1], short) + Cut(last[1..], last[0], short)
  }

  ghost predicate Chained(segments: seq<Segment>) {
    forall i {:trigger segments[i]} :: 0 < i < |segments| ==> segments[i].0 == segments[i - 1].1
  }

  /** The segments of a polyline hang together from its first point on and none is short; the last
      point of the polyline is where they end, or too near that. */
  lemma {:induction false} CutHangsTogether(points: seq<Vec2>, start: Vec2, short: Nearness)
    ensures var s := Cut(points, start, short);
      && Chained(s) && (s != [] ==> s[0].0 == start)
      && (forall i :: 0 <= i < |s| ==> !short(s[i].1, s[i].0))
      && (points != [] ==>
          var end, last := if s == [] then start else s[|s| - 1].1, points[|points| - 1];
          last == end || short(last, end))
  {
    if points != [] {
      if short(points[0], start) {
        CutHangsTogether(points[1..], start, short);
      } else {
        CutHangsTogether(points[1..], points[0], short);
      }
    }
  }

  /** Where the segments end so far. */
  function EndOf(segments: seq<Segment>, start: Vec2): Vec2 {
    if segments == [] then start else segments[|segments| - 1].1
  }

  /** One point more adds the segment to it from where the others end, unless it is too near that. */
  lemma {:induction false} CutNext(points: seq<Vec2>, p: Vec2, start: Vec2, short: Nearness)
    ensures var s := Cut(points, start, short);
      var end := EndOf(s, start);
      Cut(points + [p], start, short) == if short(p, end) then s else s + [(end, p)]
  {
    if points == [] {
      assert [p][1..] == [];
    } else {
      assert (points + [p])[1..] == points[1..] + [p];
      CutNext(points[1..], p, if short(points[0], start) then start else points[0], short);
    }
  }

  /** The segments of several polylines, and of several paths, are those of each in order. */
  lemma {:induction false} CutAllInOrder(a: seq<seq<Vec2>>, b: seq<seq<Vec2>>, poly: seq<Vec2>, short: Nearness)
    requires NoneEmpty(a) && NoneEmpty(b) && poly != []
    ensures CutAll(a + b, short) == CutAll(a, short) + CutAll(b, short)
    ensures CutAll([poly], short) == Cut(poly[1..], poly[0], short)
    decreases |b|
  {
    assert [poly][..0] == [];
    if b == [] {
      assert a + b == a;
    } else {
      assert (a + b)[..|a + b| - 1] == a + b[..|b| - 1];
      CutAllInOrder(a, b[..|b| - 1], poly, short);
    }
  }

  method CutPolyline(poly: seq<Vec2>, short: Nearness, segments0: seq<Segment>) returns (segments: seq<Segment>)
    requires poly != []
    ensures segments == segments0 + Cut(poly[1..], poly[0], short)
  {
    segments := segments0;
    var startPoint := poly[0];
    var i := 1;
    while i < |poly|
      invariant 1 <= i <= |poly|
      invariant segments + Cut(poly[i..], startPoint, short) == segments0 + Cut(poly[1..], poly[0], short)
    {
      var endPoint := poly[i];
      assert poly[i..][1..] == poly[i + 1..];
      if !short(endPoint, startPoint) {
        Reassociate(segments, [(startPoint, endPoint)], Cut(poly[i + 1..], endPoint, short));
        segments := segments + [(startPoint, endPoint)];
        startPoint := endPoint;
      }
      i := i + 1;
    }
  }

  method CutPath(polylines: seq<seq<Vec2>>, short: Nearness, segments0: seq<Segment>) returns (segments: seq<Segment>)
    requires NoneEmpty(polylines)
    ensures segments == segments0 + CutAll(polylines, short)
  {
    segments := segments0;
    var i := 0;
    while i < |polylines|
      invariant 0 <= i <= |polylines|
      invariant segments == segments0 + CutAll(polylines[..i], short)
    {
      assert polylines[..i + 1][..i] == polylines[..i];
      Reassociate(segments0, CutAll(polylines[..i], short), Cut(polylines[i][1..], polylines[i][0], short));
      segments := CutPolyline(polylines[i], short, segments);
      i := i + 1;
    }
    assert polylines[..i] == polylines;
  }

  // ----- stitching -----

  /** A new polyline, the segments it was made of in that order, and whether it closed. */
  datatype Chain = Chain(polyline: seq<Vec2>, used: seq<Segment>, closed: bool)

  predicate Touches(near: Nearness, tail: Vec2, s: Segment) {
    near(tail, s.0) || near(tail, s.1)
  }

  /** When both ends touch, the first one is the next point. */
  function NextPoint(near: Nearness, tail: Vec2, s: Segment): Vec2 {
    if near(tail, s.1) then s.0 else s.1
  }

  function FirstTouching(near: Nearness, tail: Vec2, segments: seq<Segment>, i: nat): (r: nat)
    ensures i <= |segments| ==> i <= r <= |segments|
    decreases |segments| - i
  {
    if i >= |segments| then |segments|
    else if Touches(near, tail, segments[i]) then i
    else FirstTouching(near, tail, segments, i + 1)
  }

  function Without(segments: seq<Segment>, i: nat): seq<Segment>
    requires i < |segments|
  {
    segments[..i] + segments[i + 1..]
  }

  /** One round of the inner loop: take the first segment that touches the tail. */
  function Extended(near: Nearness, c: Chain, segments: seq<Segment>): (Chain, seq<Segment>)
    requires c.polyline != []
    requires FirstTouching(near, c.polyline[|c.polyline| - 1], segments, 0) < |segments|
  {
    var tail := c.polyline[|c.polyline| - 1];
    var i := FirstTouching(near, tail, segments, 0);
    var next := NextPoint(near, tail, segments[i]);
    (Chain(c.polyline + [next], c.used + [segments[i]], near(next, c.polyline[0])), Without(segments, i))
  }

  predicate CanGrow(near: Nearness, c: Chain, segments: seq<Segment>)
    requires c.polyline != []
  {
    !c.closed && FirstTouching(near, c.polyline[|c.polyline| - 1], segments, 0) < |segments|
  }

  function Grown(near: Nearness, c: Chain, segments: seq<Segment>): (r: (Chain, seq<Segment>))
    requires c.polyline != []
    ensures |r.1| <= |segments|
    decreases |segments|
  {
    if CanGrow(near, c, segments) then
      var (d, rest) := Extended(near, c, segments);
      Grown(near, d, rest)
    else (c, segments)
  }

  function Begun(s: Segment): Chain {
    Chain([s.0, s.1], [s], false)
  }

  function Stitched(near: Nearness, segments: seq<Segment>): seq<Chain>
    decreases |segments|
  {
    if segments == [] then []
    else
      var (c, rest) := Grown(near, Begun(segments[0]), segments[1..]);
      [c] + Stitched(near, rest)
  }

  function Polylines(chains: seq<Chain>, closed: bool): seq<seq<Vec2>> {
    if chains == [] then []
    else (if chains[0].closed == closed then [chains[0].polyline] else []) + Polylines(chains[1..], closed)
  }

  /** The search for a segment that touches the tail. */
  method FindSegment(near: Nearness, polyline: seq<Vec2>, segments: seq<Segment>)
    returns (segmentFound: bool, nextPoint: Vec2, it: nat)
    requires polyline != []
    ensures var tail := polyline[|polyline| - 1];
      && it == FirstTouching(near, tail, segments, 0)
      && (segmentFound <==> it < |segments|)
      && (segmentFound ==> nextPoint == NextPoint(near, tail, segments[it]))
  {
    segmentFound, nextPoint, it := false, (0.0, 0.0), 0;
    while it < |segments|
      invariant it <= |segments| && !segmentFound
      invariant FirstTouching(near, polyline[|polyline| - 1], segments, 0)
        == FirstTouching(near, polyline[|polyline| - 1], segments, it)
    {
      var seg := segments[it];
      if near(polyline[|polyline| - 1], seg.0) {
        nextPoint := seg.1;
        segmentFound := true;
      }
      if near(polyline[|polyline| - 1], seg.1) {
        nextPoint := seg.0;
        segmentFound := true;
      }
      if segmentFound {
        return;
      }
      it := it + 1;
    }
  }

  /** One polyline, from the first segment. */
  method GrowPolyline(near: Nearness, segments0: seq<Segment>)
    returns (polyline: seq<Vec2>, loopClosed: bool, segments: seq<Segment>)
    requires segments0 != []
    ensures var (c, rest) := Grown(near, Begun(segments0[0]), segments0[1..]);
      polyline == c.polyline && loopClosed == c.closed && segments == rest
  {
    var s := segments0[0];
    polyline := [s.0, s.1];
    segments := segments0[1..];
    ghost var used := [s];
    loopClosed := false;
    var segmentFound := true;
    while segmentFound && !loopClosed
      invariant polyline != []
      invariant Grown(near, Chain(polyline, used, loopClosed), segments) == Grown(near, Begun(s), segments0[1..])
      invariant segmentFound || loopClosed || !CanGrow(near, Chain(polyline, used, loopClosed), segments)
      decreases |segments|, segmentFound
    {
      var nextPoint, it;
      segmentFound, nextPoint, it := FindSegment(near, polyline, segments);
      if segmentFound {
        used := used + [segments[it]];
        segments := Without(segments, it);
        polyline := polyline + [nextPoint];
        if near(nextPoint, polyline[0]) {
          loopClosed := true;
        }
      }
    }
  }

  method PathsToClosedPolylines(paths: seq<seq<seq<Vec2>>>, tol: real,
                                closedPolys0: seq<seq<Vec2>>, openPolys0: seq<seq<Vec2>>)
    returns (closedPolys: seq<seq<Vec2>>, openPolys: seq<seq<Vec2>>)
    requires forall k :: 0 <= k < |paths| ==> NoneEmpty(paths[k])
    ensures var chains := Stitched(Vector2dCompare(tol), SegmentsOf(paths, ShorterThan(tol)));
      && closedPolys == closedPolys0 + Polylines(chains, true)
      && openPolys == openPolys0 + Polylines(chains, false)
  {
    var segments := [];
    var k := 0;
    while k < |paths|
      invariant 0 <= k <= |paths|
      invariant segments == SegmentsOf(paths[..k], ShorterThan(tol))
    {
      assert paths[..k + 1][..k] == paths[..k];
      segments := CutPath(paths[k], ShorterThan(tol), segments);
      k := k + 1;
    }
    assert paths[..k] == paths;
    closedPolys, openPolys := StitchSegments(Vector2dCompare(tol), segments, closedPolys0, openPolys0);
  }

  function SegmentsOf(paths: seq<seq<seq<Vec2>>>, short: Nearness): seq<Segment>
    requires forall k :: 0 <= k < |paths| ==> NoneEmpty(paths[k])
  {
    if paths == [] then []
    else
      SegmentsOf(paths[..|paths| - 1], short) + CutAll(paths[|paths| - 1], short)
  }

  /** The segments of several paths are those of each in order. */
  lemma {:induction false} SegmentsInOrder(a: seq<seq<seq<Vec2>>>, b: seq<seq<seq<Vec2>>>, path: seq<seq<Vec2>>,
      short: Nearness)
    requires forall k :: 0 <= k < |a| ==> NoneEmpty(a[k])
    requires forall k :: 0 <= k < |b| ==> NoneEmpty(b[k])
    requires NoneEmpty(path)
    ensures SegmentsOf(a + b, short) == SegmentsOf(a, short) + SegmentsOf(b, short)
    ensures SegmentsOf([path], short) == CutAll(path, short)
    decreases |b|
  {
    assert [path][..0] == [];
    if b == [] {
      assert a + b == a;
    } else {
      assert (a + b)[..|a + b| - 1] == a + b[..|b| - 1];
      SegmentsInOrder(a, b[..|b| - 1], path, short);
    }
  }

  /** Appending the polylines of the remaining segments gives those of all of them. */
  ghost predicate Remain(near: Nearness, segments: seq<Segment>, polys: seq<seq<Vec2>>, closed: bool,
      goal: seq<seq<Vec2>>)
  {
    polys + Polylines(Stitched(near, segments), closed) == goal
  }

  /** One polyline more, which is closed or open. */
  lemma OnePolylineMore(near: Nearness, segments: seq<Segment>, polys: seq<seq<Vec2>>, closed: bool,
      goal: seq<seq<Vec2>>, rest: seq<Segment>)
    requires Remain(near, segments, polys, closed, goal) && Stitched(near, segments) != []
    requires Stitched(near, segments)[1..] == Stitched(near, rest)
    ensures var c := Stitched(near, segments)[0];
      Remain(near, rest, if c.closed == closed then polys + [c.polyline] else polys, closed, goal)
  {
    hide Stitched;
    var chains := Stitched(near, segments);
    Reassociate(polys, [chains[0].polyline], Polylines(chains[1..], closed));
  }

  lemma AllStitched(near: Nearness, polys: seq<seq<Vec2>>, closed: bool, goal: seq<seq<Vec2>>)
    requires Remain(near, [], polys, closed, goal)
    ensures polys == goal
  {
  }

  method StitchSegments(near: Nearness, segments0: seq<Segment>, closedPolys0: seq<seq<Vec2>>,
      openPolys0: seq<seq<Vec2>>)
    returns (closedPolys: seq<seq<Vec2>>, openPolys: seq<seq<Vec2>>)
    ensures closedPolys == closedPolys0 + Polylines(Stitched(near, segments0), true)
    ensures openPolys == openPolys0 + Polylines(Stitched(near, segments0), false)
  {
    closedPolys, openPolys := closedPolys0, openPolys0;
    var segments := segments0;
    ghost var closedGoal := closedPolys0 + Polylines(Stitched(near, segments0), true);
    ghost var openGoal := openPolys0 + Polylines(Stitched(near, segments0), false);
    while segments != []
      invariant Remain(near, segments, closedPolys, true, closedGoal)
      invariant Remain(near, segments, openPolys, false, openGoal)
      decreases |segments|
    {
      hide Remain;
      ghost var chains := Stitched(near, segments);
      var polyline, loopClosed, rest := GrowPolyline(near, segments);
      assert chains[0].polyline == polyline && chains[0].closed == loopClosed && chains[1..] == Stitched(near, rest);
      OnePolylineMore(near, segments, closedPolys, true, closedGoal, rest);
      OnePolylineMore(near, segments, openPolys, false, openGoal, rest);
      if loopClosed {
        closedPolys := closedPolys + [polyline];
      } else {
        openPolys := openPolys + [polyline];
      }
      segments := rest;
    }
    AllStitched(near, closedPolys, true, closedGoal);
    AllStitched(near, openPolys, false, openGoal);
  }

  // ----- what stitching keeps -----

  /** The next point is the other end of a segment that has one end near this point; the first end, if both
      are. */
  predicate Links(near: Nearness, s: Segment, from: Vec2, to: Vec2) {
    (near(from, s.1) && to == s.0) || (!near(from, s.1) && near(from, s.0) && to == s.1)
  }

  /** A chain is its first segment, and then one point for each further segment, which has one end
      near the point before. It is closed when, and as soon as, a point is near the first one. */
  ghost predicate IsChain(near: Nearness, c: Chain) {
    && |c.used| >= 1 && |c.polyline| == |c.used| + 1
    && c.polyline[0] == c.used[0].0 && c.polyline[1] == c.used[0].1
    && (forall k :: 1 <= k < |c.used| ==> Links(near, c.used[k], c.polyline[k], c.polyline[k + 1]))
    && (forall k :: 2 <= k < |c.used| ==> !near(c.polyline[k], c.polyline[0]))
    && (c.closed <==> |c.used| >= 2 && near(c.polyline[|c.used|], c.polyline[0]))
  }

  /** One of the ends of s is near this point. */
  ghost predicate HasEndNear(near: Nearness, s: Segment, tail: Vec2) {
    exists end | end == s.0 || end == s.1 :: near(tail, end)
  }

  /** No segment that was left touches the end of an open chain. */
  ghost predicate NothingTouches(near: Nearness, c: Chain, rest: seq<Segment>)
    requires c.polyline != []
  {
    c.closed || forall i :: 0 <= i < |rest| ==> !HasEndNear(near, rest[i], c.polyline[|c.polyline| - 1])
  }

  lemma {:induction false} FirstTouchingIsFirst(near: Nearness, tail: Vec2, segments: seq<Segment>, i: nat)
    ensures var r := FirstTouching(near, tail, segments, i);
      && (r < |segments| ==> HasEndNear(near, segments[r], tail))
      && forall k :: i <= k < r && k < |segments| ==> !HasEndNear(near, segments[k], tail)
    decreases |segments| - i
  {
    if i < |segments| && !Touches(near, tail, segments[i]) {
      FirstTouchingIsFirst(near, tail, segments, i + 1);
    }
  }

  lemma ChainHasEnd(near: Nearness, c: Chain)
    requires IsChain(near, c)
    ensures c.polyline != []
  {
  }

  lemma ExtendedKeepsChain(near: Nearness, c: Chain, segments: seq<Segment>)
    requires IsChain(near, c) && CanGrow(near, c, segments)
    ensures var (d, rest) := Extended(near, c, segments);
      && IsChain(near, d) && multiset(d.used) + multiset(rest) == multiset(c.used) + multiset(segments)
  {
    hide FirstTouching, Without;
    ChainHasEnd(near, c);
    hide IsChain;
    var tail := c.polyline[|c.polyline| - 1];
    var i := FirstTouching(near, tail, segments, 0);
    FirstTouchingIsFirst(near, tail, segments, 0);
    TakenOut(segments, i);
    LinkAdded(near, c, segments[i], NextPoint(near, tail, segments[i]));
  }

  lemma LinkAdded(near: Nearness, c: Chain, s: Segment, next: Vec2)
    requires IsChain(near, c) && !c.closed && Links(near, s, c.polyline[|c.polyline| - 1], next)
    ensures IsChain(near, Chain(c.polyline + [next], c.used + [s], near(next, c.polyline[0])))
  {
  }

  lemma TakenOut(segments: seq<Segment>, i: nat)
    requires i < |segments|
    ensures multiset([segments[i]]) + multiset(Without(segments, i)) == multiset(segments)
  {
    assert segments == segments[..i] + [segments[i]] + segments[i + 1..];
  }

  lemma {:induction false} GrownIsChain(near: Nearness, c: Chain, segments: seq<Segment>)
    requires IsChain(near, c)
    ensures var (d, rest) := Grown(near, c, segments);
      && IsChain(near, d) && NothingTouches(near, d, rest)
      && multiset(d.used) + multiset(rest) == multiset(c.used) + multiset(segments)
    decreases |segments|
  {
    if CanGrow(near, c, segments) {
      var (d, rest) := Extended(near, c, segments);
      ExtendedKeepsChain(near, c, segments);
      GrownIsChain(near, d, rest);
    } else {
      FirstTouchingIsFirst(near, c.polyline[|c.polyline| - 1], segments, 0);
    }
  }

  function Used(chains: seq<Chain>): seq<Segment> {
    if chains == [] then [] else chains[0].used + Used(chains[1..])
  }

  function Lines(polylines: seq<seq<Vec2>>): int {
    if polylines == [] then 0 else |polylines[0]| - 1 + Lines(polylines[1..])
  }

  /** Every chain is one, and the end of an open chain touches no segment of a later one. */
  ghost predicate AreChains(near: Nearness, chains: seq<Chain>) {
    forall j :: 0 <= j < |chains| ==>
      IsChain(near, chains[j]) && NothingTouches(near, chains[j], Used(chains[j + 1..]))
  }

  lemma NothingTouchesAnyOrder(near: Nearness, c: Chain, a: seq<Segment>, b: seq<Segment>)
    requires c.polyline != [] && NothingTouches(near, c, a) && multiset(a) == multiset(b)
    ensures NothingTouches(near, c, b)
  {
    forall i | 0 <= i < |b|
      ensures b[i] in a
    {
      assert b[i] in multiset(b);
    }
  }

  /** Nothing is lost: the segments used by the chains are the segments there were, each as often as
      it was there. */
  lemma {:induction false} StitchingConserves(near: Nearness, segments: seq<Segment>)
    ensures var chains := Stitched(near, segments);
      && AreChains(near, chains) && multiset(Used(chains)) == multiset(segments)
    decreases |segments|
  {
    if segments != [] {
      var (c, rest) := Grown(near, Begun(segments[0]), segments[1..]);
      GrownIsChain(near, Begun(segments[0]), segments[1..]);
      StitchingConserves(near, rest);
      OneMoreChain(near, segments, c, rest, Stitched(near, rest));
    }
  }

  lemma OneMoreChain(near: Nearness, segments: seq<Segment>, c: Chain, rest: seq<Segment>, tail: seq<Chain>)
    requires segments != [] && IsChain(near, c) && NothingTouches(near, c, rest)
    requires multiset(c.used) + multiset(rest) == multiset([segments[0]]) + multiset(segments[1..])
    requires AreChains(near, tail) && multiset(Used(tail)) == multiset(rest)
    ensures AreChains(near, [c] + tail) && multiset(Used([c] + tail)) == multiset(segments)
  {
    NothingTouchesAnyOrder(near, c, rest, Used(tail));
    ChainsCons(near, c, tail);
    MultisetsAdd(c.used, Used(tail), rest, segments[0], segments[1..]);
    assert segments == [segments[0]] + segments[1..];
  }

  lemma MultisetsAdd(a: seq<Segment>, b: seq<Segment>, rest: seq<Segment>, s: Segment, others: seq<Segment>)
    requires multiset(a) + multiset(rest) == multiset([s]) + multiset(others) && multiset(b) == multiset(rest)
    ensures multiset(a + b) == multiset([s] + others)
  {
  }

  lemma ChainsCons(near: Nearness, c: Chain, tail: seq<Chain>)
    requires AreChains(near, tail) && IsChain(near, c) && NothingTouches(near, c, Used(tail))
    ensures AreChains(near, [c] + tail) && Used([c] + tail) == c.used + Used(tail)
  {
    var all := [c] + tail;
    assert all[1..] == tail;
    forall j | 0 <= j < |all|
      ensures IsChain(near, all[j]) && NothingTouches(near, all[j], Used(all[j + 1..]))
    {
      if j > 0 {
        assert all[j] == tail[j - 1] && all[j + 1..] == tail[j - 1 + 1..];
      }
    }
  }

  lemma {:induction false} LinesOfChains(near: Nearness, chains: seq<Chain>)
    requires forall j :: 0 <= j < |chains| ==> IsChain(near, chains[j])
    ensures Lines(Polylines(chains, true)) + Lines(Polylines(chains, false)) == |Used(chains)|
    ensures |Polylines(chains, true)| + |Polylines(chains, false)| == |chains|
  {
    if chains != [] {
      LinesOfChains(near, chains[1..]);
      var c := chains[0];
      assert IsChain(near, c);
      LinesCons(c.polyline, Polylines(chains[1..], c.closed));
      assert [] + Polylines(chains[1..], !c.closed) == Polylines(chains[1..], !c.closed);
      assert Lines(Polylines(chains, c.closed)) == |c.used| + Lines(Polylines(chains[1..], c.closed));
    }
  }

  lemma LinesCons(line: seq<Vec2>, rest: seq<seq<Vec2>>)
    ensures Lines([line] + rest) == |line| - 1 + Lines(rest)
  {
    assert ([line] + rest)[1..] == rest;
  }

  /** Point counts minus one, over all closed and open polylines, add up to the segment count. */
  lemma LinesAreSegments(near: Nearness, segments: seq<Segment>)
    ensures var chains := Stitched(near, segments);
      Lines(Polylines(chains, true)) + Lines(Polylines(chains, false)) == |segments|
  {
    StitchingConserves(near, segments);
    var chains := Stitched(near, segments);
    LinesOfChains(near, chains);
    assert |multiset(Used(chains))| == |multiset(segments)|;
  }

  lemma {:induction false} PolylineOfChain(chains: seq<Chain>, closed: bool, i: nat) returns (j: nat)
    requires i < |Polylines(chains, closed)|
    ensures j < |chains| && chains[j].polyline == Polylines(chains, closed)[i] && chains[j].closed == closed
  {
    if chains[0].closed == closed {
      if i == 0 {
        j := 0;
      } else {
        var k := PolylineOfChain(chains[1..], closed, i - 1);
        j := k + 1;
      }
    } else {
      var k := PolylineOfChain(chains[1..], closed, i);
      j := k + 1;
    }
  }

  /** Every closed polyline has at least three points and ends near its first one. */
  lemma ClosedPolylinesClose(near: Nearness, segments: seq<Segment>, i: nat)
    requires i < |Polylines(Stitched(near, segments), true)|
    ensures var line := Polylines(Stitched(near, segments), true)[i];
      |line| >= 3 && near(line[|line| - 1], line[0])
  {
    StitchingConserves(near, segments);
    var j := PolylineOfChain(Stitched(near, segments), true, i);
  }

  /** The end of an open polyline is near neither its first point (unless it is a single segment) nor
      any end of a segment that was still there. */
  lemma OpenPolylinesAreStuck(near: Nearness, segments: seq<Segment>, i: nat) returns (j: nat)
    requires i < |Polylines(Stitched(near, segments), false)|
    ensures var chains := Stitched(near, segments);
      var line := Polylines(chains, false)[i];
      && j < |chains| && chains[j].polyline == line && |line| >= 2
      && (|line| > 2 ==> !near(line[|line| - 1], line[0]))
      && NothingTouches(near, chains[j], Used(chains[j + 1..]))
  {
    StitchingConserves(near, segments);
    j := PolylineOfChain(Stitched(near, segments), false, i);
  }

  // ----- in which order -----

  /** Without the first occurrence of s. */
  function RemoveFirst(segments: seq<Segment>, s: Segment): seq<Segment> {
    if segments == [] then []
    else if segments[0] == s then segments[1..]
    else [segments[0]] + RemoveFirst(segments[1..], s)
  }

  lemma {:induction false} RemovedAt(segments: seq<Segment>, i: nat)
    requires i < |segments| && forall k :: 0 <= k < i ==> segments[k] != segments[i]
    ensures RemoveFirst(segments, segments[i]) == Without(segments, i)
  {
    if i > 0 {
      RemovedAt(segments[1..], i - 1);
      assert Without(segments, i) == [segments[0]] + Without(segments[1..], i - 1);
    }
  }

  /** What is left of the segments when these were used. */
  function Left(segments: seq<Segment>, used: seq<Segment>): seq<Segment> {
    if used == [] then segments
    else RemoveFirst(Left(segments, used[..|used| - 1]), used[|used| - 1])
  }

  lemma LeftNext(segments: seq<Segment>, used: seq<Segment>, s: Segment)
    ensures Left(segments, used + [s]) == RemoveFirst(Left(segments, used), s)
  {
    assert (used + [s])[..|used|] == used;
  }

  /** s is the first of these segments that touches the tail. */
  ghost predicate IsPicked(near: Nearness, tail: Vec2, s: Segment, left: seq<Segment>) {
    exists i: nat :: i < |left| && left[i] == s && HasEndNear(near, s, tail)
      && forall k :: 0 <= k < i ==> !HasEndNear(near, left[k], tail)
  }

  /** The chain begins with the first segment that was left, and goes on with the first that touches. */
  ghost predicate IsGreedy(near: Nearness, c: Chain, all: seq<Segment>, before: seq<Segment>) {
    && c.used != [] && |c.polyline| == |c.used| + 1
    && Left(all, before) != [] && c.used[0] == Left(all, before)[0]
    && forall k :: 1 <= k < |c.used| ==>
         IsPicked(near, c.polyline[k], c.used[k], Left(all, before + c.used[..k]))
  }

  lemma PickedNext(near: Nearness, c: Chain, all: seq<Segment>, before: seq<Segment>, s: Segment, next: Vec2,
      closed: bool)
    requires IsGreedy(near, c, all, before)
    requires IsPicked(near, c.polyline[|c.polyline| - 1], s, Left(all, before + c.used))
    ensures IsGreedy(near, Chain(c.polyline + [next], c.used + [s], closed), all, before)
  {
    hide IsPicked, Left;
    var d := Chain(c.polyline + [next], c.used + [s], closed);
    forall k | 1 <= k < |d.used|
      ensures IsPicked(near, d.polyline[k], d.used[k], Left(all, before + d.used[..k]))
    {
      assert d.used[..k] == if k < |c.used| then c.used[..k] else c.used;
      assert d.polyline[k] == c.polyline[k];
    }
  }

  lemma FirstIsPicked(near: Nearness, tail: Vec2, segments: seq<Segment>)
    requires FirstTouching(near, tail, segments, 0) < |segments|
    ensures var i := FirstTouching(near, tail, segments, 0);
      && IsPicked(near, tail, segments[i], segments)
      && RemoveFirst(segments, segments[i]) == Without(segments, i)
  {
    var i := FirstTouching(near, tail, segments, 0);
    FirstTouchingIsFirst(near, tail, segments, 0);
    hide FirstTouching, RemoveFirst, Without;
    RemovedAt(segments, i);
  }

  lemma ExtendedIsGreedy(near: Nearness, c: Chain, segments: seq<Segment>, all: seq<Segment>, before: seq<Segment>)
    requires IsGreedy(near, c, all, before) && segments == Left(all, before + c.used) && CanGrow(near, c, segments)
    ensures var (d, rest) := Extended(near, c, segments);
      IsGreedy(near, d, all, before) && rest == Left(all, before + d.used)
  {
    var tail := c.polyline[|c.polyline| - 1];
    hide IsGreedy, IsPicked, Left, FirstTouching, RemoveFirst, Without, NextPoint;
    FirstIsPicked(near, tail, segments);
    var s := segments[FirstTouching(near, tail, segments, 0)];
    PickedNext(near, c, all, before, s, NextPoint(near, tail, s), near(NextPoint(near, tail, s), c.polyline[0]));
    LeftNext(all, before + c.used, s);
    Reassociate(before, c.used, [s]);
  }

  lemma {:induction false} GrownIsGreedy(near: Nearness, c: Chain, segments: seq<Segment>, all: seq<Segment>,
      before: seq<Segment>)
    requires IsGreedy(near, c, all, before) && segments == Left(all, before + c.used)
    ensures var (d, rest) := Grown(near, c, segments);
      IsGreedy(near, d, all, before) && rest == Left(all, before + d.used)
    decreases |segments|
  {
    if CanGrow(near, c, segments) {
      ExtendedIsGreedy(near, c, segments, all, before);
      hide IsGreedy, Left;
      var (d, rest) := Extended(near, c, segments);
      GrownIsGreedy(near, d, rest, all, before);
    }
  }

  lemma BegunIsGreedy(near: Nearness, segments: seq<Segment>, all: seq<Segment>, before: seq<Segment>)
    requires segments != [] && segments == Left(all, before)
    ensures IsGreedy(near, Begun(segments[0]), all, before)
    ensures segments[1..] == Left(all, before + Begun(segments[0]).used)
  {
    LeftNext(all, before, segments[0]);
  }

  /** Each chain is greedy behind the ones before it. */
  ghost predicate AllGreedy(near: Nearness, chains: seq<Chain>, all: seq<Segment>, before: seq<Segment>) {
    forall j :: 0 <= j < |chains| ==> IsGreedy(near, chains[j], all, before + Used(chains[..j]))
  }

  lemma UsedCons(c: Chain, chains: seq<Chain>, j: nat)
    requires 0 < j <= |chains| + 1
    ensures Used(([c] + chains)[..j]) == c.used + Used(chains[..j - 1])
  {
    assert ([c] + chains)[..j] == [c] + chains[..j - 1];
    assert ([c] + chains[..j - 1])[1..] == chains[..j - 1];
  }

  lemma AllGreedyCons(near: Nearness, c: Chain, chains: seq<Chain>, all: seq<Segment>, before: seq<Segment>)
    requires IsGreedy(near, c, all, before) && AllGreedy(near, chains, all, before + c.used)
    ensures AllGreedy(near, [c] + chains, all, before)
  {
    hide IsGreedy, Used;
    forall j | 0 <= j < |chains| + 1
      ensures IsGreedy(near, ([c] + chains)[j], all, before + Used(([c] + chains)[..j]))
    {
      if j == 0 {
        assert Used([]) == [] by {
          UsedOfNothing();
        }
        assert before + [] == before;
      } else {
        UsedCons(c, chains, j);
        assert IsGreedy(near, chains[j - 1], all, before + c.used + Used(chains[..j - 1]));
        Reassociate(before, c.used, Used(chains[..j - 1]));
      }
    }
  }

  lemma UsedOfNothing()
    ensures Used([]) == []
  {
  }

  lemma {:induction false} LaterAreGreedy(near: Nearness, segments: seq<Segment>, all: seq<Segment>,
      before: seq<Segment>)
    requires segments == Left(all, before)
    ensures AllGreedy(near, Stitched(near, segments), all, before)
    decreases |segments|
  {
    if segments != [] {
      hide IsGreedy, Left, Grown, AllGreedy;
      var (c, rest) := Grown(near, Begun(segments[0]), segments[1..]);
      BegunIsGreedy(near, segments, all, before);
      GrownIsGreedy(near, Begun(segments[0]), segments[1..], all, before);
      LaterAreGreedy(near, rest, all, before + c.used);
      AllGreedyCons(near, c, Stitched(near, rest), all, before);
    } else {
      assert Stitched(near, segments) == [];
    }
  }

  /** Each chain begins with the first segment that no earlier one used, and takes, point after point, the
      first of those left that touches its end. */
  lemma StitchingIsGreedy(near: Nearness, segments: seq<Segment>, j: nat)
    requires j < |Stitched(near, segments)|
    ensures IsGreedy(near, Stitched(near, segments)[j], segments, Used(Stitched(near, segments)[..j]))
  {
    LaterAreGreedy(near, segments, segments, []);
    assert [] + Used(Stitched(near, segments)[..j]) == Used(Stitched(near, segments)[..j]);
  }

  /** The polylines of one kind are in the order of their chains. */
  lemma {:induction false} PolylinesInOrder(a: seq<Chain>, b: seq<Chain>, c: Chain, closed: bool)
    ensures Polylines(a + b, closed) == Polylines(a, closed) + Polylines(b, closed)
    ensures Polylines([c], closed) == if c.closed == closed then [c.polyline] else []
  {
    assert [c][1..] == [];
    if a == [] {
      assert a + b == b;
    } else {
      assert (a + b)[1..] == a[1..] + b && (a + b)[0] == a[0];
      PolylinesInOrder(a[1..], b, c, closed);
      Reassociate(if a[0].closed == closed then [a[0].polyline] else [], Polylines(a[1..], closed),
        Polylines(b, closed));
    }
  }

  // ----- what near means -----

  predicate IsWithin(a: Vec2, b: Vec2, tol: real) {
    var x, y := a.0 - b.0, a.1 - b.1;
    x * x + y * y < tol * tol
  }

  /** For a tolerance that is not negative, both comparisons are those of the distance with it; with a
      negative one no segment is short, but ends are near as with its magnitude. */
  lemma Tolerances(tol: real, a: Vec2, b: Vec2)
    ensures Vector2dCompare(tol)(a, b) == IsWithin(a, b, tol)
    ensures ShorterThan(tol)(a, b) == (tol >= 0.0 && IsWithin(a, b, tol))
  {
    if tol == 0.0 {
      assert Square(a.0 - b.0) >= 0.0 && Square(a.1 - b.1) >= 0.0;
    }
  }

  /** No segment is shorter than a tolerance that is not negative. */
  lemma CutAreLong(points: seq<Vec2>, start: Vec2, tol: real, i: nat)
    requires tol >= 0.0 && i < |Cut(points, start, ShorterThan(tol))|
    ensures var s := Cut(points, start, ShorterThan(tol))[i]; !IsWithin(s.1, s.0, tol)
  {
    hide IsWithin, ShorterThan;
    CutHangsTogether(points, start, ShorterThan(tol));
    var s := Cut(points, start, ShorterThan(tol))[i];
    Tolerances(tol, s.1, s.0);
  }

  /** A closed polyline ends within the tolerance of its start. */
  lemma ClosedWithinTolerance(tol: real, segments: seq<Segment>, i: nat)
    requires i < |Polylines(Stitched(Vector2dCompare(tol), segments), true)|
    ensures var line := Polylines(Stitched(Vector2dCompare(tol), segments), true)[i];
      |line| >= 3 && IsWithin(line[|line| - 1], line[0], tol)
  {
    hide IsWithin, Vector2dCompare, Stitched, Polylines;
    ClosedPolylinesClose(Vector2dCompare(tol), segments, i);
    var line := Polylines(Stitched(Vector2dCompare(tol), segments), true)[i];
    Tolerances(tol, line[|line| - 1], line[0]);
  }
}
