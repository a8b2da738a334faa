/**
  The distance along a trajectory, after TrajectoryInfo in graphics/src/Animation.cc: SetWaypoints
  stores the length of each segment under the time it ends at, and DistanceSoFar adds them up.
*/
module Trajectory {
  import opened Common
  import opened KeyTimes
  import opened Animation

  // ----- SetWaypoints -----

  /** A time of the clock, the position in the plane, and the whole pose. */
  datatype Waypoint<P> = Waypoint(time: real, position: Vec2, pose: P)

  /** The distance of two points of the plane; only what is needed of it. */
  ghost predicate IsDistance(d: (Vec2, Vec2) -> real) {
    (forall a, b :: d(a, b) >= 0.0) && (forall a :: d(a, a) == 0.0)
  }

  ghost predicate InOrder<P>(w: seq<Waypoint<P>>) {
    forall i, j :: 0 <= i < j < |w| ==> w[i].time < w[j].time
  }

  function SegmentAt<P>(d: (Vec2, Vec2) -> real, w: seq<Waypoint<P>>, i: nat): Key<real>
    requires i < |w|
  {
    Key(w[i].time - w[0].time, d(w[if i == 0 then 0 else i - 1].position, w[i].position))
  }

  /** The key frames and the segments of the first k waypoints. */
  ghost predicate HasSet<P>(d: (Vec2, Vec2) -> real, w: seq<Waypoint<P>>, k: nat, keys: seq<Key<P>>, m: seq<Key<real>>)
    requires k <= |w|
  {
    && |keys| == k && (forall i :: 0 <= i < k ==> keys[i] == Key(w[i].time - w[0].time, w[i].pose))
    && |m| == k && (forall i :: 0 <= i < k ==> m[i] == SegmentAt(d, w, i))
  }

  /** One more waypoint: as the times increase, both go to the end. */
  lemma HasSetNext<P>(d: (Vec2, Vec2) -> real, w: seq<Waypoint<P>>, k: nat, keys: seq<Key<P>>, m: seq<Key<real>>)
    requires InOrder(w) && k < |w| && HasSet(d, w, k, keys, m)
    ensures HasSet(d, w, k + 1, Inserted(keys, Key(w[k].time - w[0].time, w[k].pose)), Put(m, SegmentAt(d, w, k)))
  {
    InsertedLast(keys, Key(w[k].time - w[0].time, w[k].pose));
  }

  class TrajectoryInfo<P> {
    var startTime: real
    var endTime: real
    var segDistance: seq<Key<real>>
    /** The key frames of the pose animation. */
    var waypoints: seq<Key<P>>

    constructor ()
      ensures segDistance == [] && waypoints == []
    {
      startTime, endTime, segDistance, waypoints := 0.0, 0.0, [], [];
    }

    /** The waypoints come as a std::map, so in the order of their times. */
    method SetWaypoints(d: (Vec2, Vec2) -> real, w: seq<Waypoint<P>>)
      requires w != [] && InOrder(w)
      modifies this
      ensures startTime == w[0].time && endTime == w[|w| - 1].time
      ensures HasSet(d, w, |w|, waypoints, segDistance) && IsMapOf(d, w, segDistance)
    {
      hide Put, Inserted;
      segDistance := [];
      startTime := w[0].time;
      endTime := w[|w| - 1].time;
      var anim: seq<Key<P>> := [];
      var prevPose := w[0].position;
      var k := 0;
      while k < |w|
        invariant 0 <= k <= |w|
        invariant startTime == w[0].time && endTime == w[|w| - 1].time
        invariant prevPose == w[if k == 0 then 0 else k - 1].position
        invariant HasSet(d, w, k, anim, segDistance)
      {
        HasSetNext(d, w, k, anim, segDistance);
        anim := Inserted(anim, Key(w[k].time - startTime, w[k].pose));
        segDistance := Put(segDistance, Key(w[k].time - startTime, d(prevPose, w[k].position)));
        prevPose := w[k].position;
        k := k + 1;
      }
      waypoints := anim;
    }

    method DistanceSoFar(time: real) returns (distance: real)
      ensures distance == Distance(segDistance, time)
    {
      distance := 0.0;
      var segment, prevSegment := 0, 0;
      while segment < |segDistance| && segDistance[segment].time <= time
        invariant 0 <= segment <= |segDistance| && prevSegment == (if segment == 0 then 0 else segment - 1)
        invariant distance == Sum(segDistance, segment)
        invariant UpperBound(segDistance, time, 0) == UpperBound(segDistance, time, segment)
      {
        distance := distance + segDistance[segment].value;
        prevSegment := segment;
        segment := segment + 1;
      }
      if segment == |segDistance| {
        return;
      }
      if time - segDistance[prevSegment].time > 0.0 {
        distance := distance
          + (time - segDistance[prevSegment].time)
            / (segDistance[segment].time - segDistance[prevSegment].time) * segDistance[segment].value;
      }
    }
  }

  // ----- DistanceSoFar -----

  function Sum(m: seq<Key<real>>, n: nat): real
    requires n <= |m|
  {
    if n == 0 then 0.0 else Sum(m, n - 1) + m[n - 1].value
  }

  /** The part of a segment of this duration and length that is covered when this much time passed. */
  function Covered(passed: real, duration: real, length: real): real
    requires passed < duration
  {
    if passed > 0.0 then passed / duration * length else 0.0
  }

  /** The part of segment n that is covered. The first segment has no duration. */
  function Part(m: seq<Key<real>>, n: nat, time: real): real
    requires n < |m| && time < m[n].time
  {
    var prev := m[if n == 0 then 0 else n - 1].time;
    Covered(time - prev, m[n].time - prev, m[n].value)
  }

  function Distance(m: seq<Key<real>>, time: real): real {
    var n := UpperBound(m, time, 0);
    Sum(m, n) + if n < |m| then Part(m, n, time) else 0.0
  }

  ghost predicate NonNegative(m: seq<Key<real>>) {
    forall i :: 0 <= i < |m| ==> m[i].value >= 0.0
  }

  lemma {:induction false} SumGrows(m: seq<Key<real>>, a: nat, b: nat)
    requires a <= b <= |m| && NonNegative(m)
    ensures 0.0 <= Sum(m, a) <= Sum(m, b)
    decreases b
  {
    if a < b {
      SumGrows(m, a, b - 1);
    } else if a > 0 {
      SumGrows(m, a - 1, b - 1);
    }
  }

  lemma ProductInOrder(a: real, b: real, s: real)
    requires a <= b && s >= 0.0
    ensures a * s <= b * s
  {
  }

  lemma QuotientInOrder(a: real, b: real, d: real)
    requires 0.0 <= a <= b <= d && d > 0.0
    ensures 0.0 <= a / d <= b / d <= 1.0
  {
    FractionInside(a, d);
    FractionInside(b, d);
    var x := QuotientOf(a, d);
    var y := QuotientOf(b, d);
    OrderOfFactors(x, y, a, b, d);
  }

  lemma CoveredGrows(a: real, b: real, d: real, length: real)
    requires a <= b < d && length >= 0.0
    ensures 0.0 <= Covered(a, d, length) <= Covered(b, d, length) <= length
  {
    if b > 0.0 {
      QuotientInOrder(if a > 0.0 then a else 0.0, b, d);
      ProductInOrder(0.0, b / d, length);
      ProductInOrder(b / d, 1.0, length);
      if a > 0.0 {
        ProductInOrder(0.0, a / d, length);
        ProductInOrder(a / d, b / d, length);
      }
    }
  }

  /** Within a segment the part grows with the time, from 0 to the whole length. */
  lemma PartGrows(m: seq<Key<real>>, n: nat, t1: real, t2: real)
    requires n < |m| && NonNegative(m) && t1 <= t2 < m[n].time
    ensures 0.0 <= Part(m, n, t1) <= Part(m, n, t2) <= m[n].value
  {
    var prev := m[if n == 0 then 0 else n - 1].time;
    CoveredGrows(t1 - prev, t2 - prev, m[n].time - prev, m[n].value);
  }

  /** The distance grows with the time, and lies between 0 and the total. */
  lemma DistanceGrows(m: seq<Key<real>>, t1: real, t2: real)
    requires Increasing(m) && NonNegative(m) && t1 <= t2
    ensures 0.0 <= Distance(m, t1) <= Distance(m, t2) <= Sum(m, |m|)
  {
    var n1, n2 := UpperBound(m, t1, 0), UpperBound(m, t2, 0);
    UpperBoundSplits(m, t1, 0);
    UpperBoundSplits(m, t2, 0);
    UpperBoundGrows(m, t1, t2, 0);
    SumGrows(m, 0, n1);
    SumGrows(m, n1, n2);
    SumGrows(m, n2, |m|);
    if n2 < |m| {
      PartGrows(m, n2, t2, t2);
      SumGrows(m, n2 + 1, |m|);
    }
    if n1 < |m| {
      PartGrows(m, n1, t1, t1);
      if n1 == n2 {
        PartGrows(m, n1, t1, t2);
      } else {
        SumGrows(m, n1 + 1, n2);
      }
    }
  }

  /** At the time of a waypoint it is the sum of the segments up to that waypoint, and from the last
      one on it is the total. */
  lemma DistanceAtWaypoints(m: seq<Key<real>>, i: nat, time: real)
    requires Increasing(m) && i < |m|
    ensures Distance(m, m[i].time) == Sum(m, i + 1)
    ensures time >= m[|m| - 1].time ==> Distance(m, time) == Sum(m, |m|)
  {
    UpperBoundIs(m, m[i].time, 0, i + 1);
    if time >= m[|m| - 1].time {
      UpperBoundIs(m, time, 0, |m|);
    }
  }

  /** Nothing is covered up to the start. */
  lemma NothingBeforeTheStart(m: seq<Key<real>>, time: real)
    requires Increasing(m) && NonNegative(m) && m != [] && m[0] == Key(0.0, 0.0) && time <= 0.0
    ensures Distance(m, time) == 0.0
  {
    DistanceAtWaypoints(m, 0, 0.0);
    DistanceGrows(m, time, 0.0);
    assert Sum(m, 1) == Sum(m, 0) + m[0].value;
  }

  /** The map SetWaypoints stores. */
  ghost predicate IsMapOf<P>(d: (Vec2, Vec2) -> real, w: seq<Waypoint<P>>, m: seq<Key<real>>) {
    |m| == |w| && forall i :: 0 <= i < |w| ==> m[i] == SegmentAt(d, w, i)
  }

  /** It meets the conditions of the lemmas above, and its first segment has no length. */
  lemma WaypointsGiveSegments<P>(d: (Vec2, Vec2) -> real, w: seq<Waypoint<P>>, m: seq<Key<real>>, i: nat)
    requires IsDistance(d) && i < |w| && InOrder(w) && IsMapOf(d, w, m)
    ensures Increasing(m) && NonNegative(m) && m[0] == Key(0.0, 0.0) && m[i].time == w[i].time - w[0].time
  {
  }

  /** The way along the first n waypoints. */
  function Way<P>(d: (Vec2, Vec2) -> real, w: seq<Waypoint<P>>, n: nat): real
    requires n <= |w|
  {
    if n < 2 then 0.0 else Way(d, w, n - 1) + d(w[n - 2].position, w[n - 1].position)
  }

  lemma {:induction false} SumIsWay<P>(d: (Vec2, Vec2) -> real, w: seq<Waypoint<P>>, m: seq<Key<real>>, n: nat)
    requires IsDistance(d) && IsMapOf(d, w, m) && n <= |w|
    ensures Sum(m, n) == Way(d, w, n)
  {
    if n > 0 {
      SumIsWay(d, w, m, n - 1);
      assert m[n - 1] == SegmentAt(d, w, n - 1);
    }
  }

  /** A part of a length is to the length as the time that passed is to the whole time. */
  ghost predicate IsShare(part: real, length: real, passed: real, duration: real) {
    part * duration == length * passed
  }

  lemma CoveredInTime(passed: real, duration: real, length: real)
    requires 0.0 <= passed < duration
    ensures IsShare(Covered(passed, duration, length), length, passed, duration)
  {
    var f := QuotientOf(passed, duration);
    assert f * length * duration == length * (f * duration);
  }

  lemma DistanceBetween(m: seq<Key<real>>, i: nat, time: real)
    requires Increasing(m) && 0 < i < |m| && m[i - 1].time <= time < m[i].time
    ensures IsShare(Distance(m, time) - Sum(m, i), m[i].value, time - m[i - 1].time, m[i].time - m[i - 1].time)
  {
    hide IsShare, Covered;
    UpperBoundIs(m, time, 0, i);
    CoveredInTime(time - m[i - 1].time, m[i].time - m[i - 1].time, m[i].value);
  }

  lemma WaypointOfMap<P>(d: (Vec2, Vec2) -> real, w: seq<Waypoint<P>>, m: seq<Key<real>>, i: nat)
    requires IsMapOf(d, w, m) && i < |w|
    ensures m[i].time == w[i].time - w[0].time
    ensures i > 0 ==> m[i].value == d(w[i - 1].position, w[i].position)
  {
  }

  /** The distance after a time from the start: at a waypoint it is the way along the waypoints up to it,
      between two of them it grows with the time at an even pace, and from the last one on it stays. */
  lemma DistanceIsWay<P>(d: (Vec2, Vec2) -> real, w: seq<Waypoint<P>>, m: seq<Key<real>>, i: nat, time: real)
    requires IsDistance(d) && InOrder(w) && IsMapOf(d, w, m) && i < |w|
    ensures time == w[i].time - w[0].time ==> Distance(m, time) == Way(d, w, i + 1)
    ensures time >= w[|w| - 1].time - w[0].time ==> Distance(m, time) == Way(d, w, |w|)
    ensures i > 0 && w[i - 1].time <= w[0].time + time < w[i].time ==>
      IsShare(Distance(m, time) - Way(d, w, i), d(w[i - 1].position, w[i].position),
        w[0].time + time - w[i - 1].time, w[i].time - w[i - 1].time)
  {
    hide IsShare, Distance, Sum, Way;
    WaypointsGiveSegments(d, w, m, i);
    WaypointOfMap(d, w, m, i);
    WaypointOfMap(d, w, m, |w| - 1);
    SumIsWay(d, w, m, i + 1);
    SumIsWay(d, w, m, |w|);
    hide IsMapOf, InOrder;
    DistanceAtWaypoints(m, i, time);
    if i > 0 && w[i - 1].time <= w[0].time + time < w[i].time {
      WaypointOfMap(d, w, m, i - 1);
      SumIsWay(d, w, m, i);
      DistanceBetween(m, i, time);
      assert time - m[i - 1].time == w[0].time + time - w[i - 1].time;
      assert m[i].time - m[i - 1].time == w[i].time - w[i - 1].time;
    }
  }
}
