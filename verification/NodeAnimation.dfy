/**
  Animations of a skeleton node, after graphics/src/NodeAnimation.cc: a std::map from times to
  transforms, and the transform at any time between them.
*/
module NodeAnimation {
  import opened Common
  import opened KeyTimes

  /** A transform: its translation, and its rotation, of which nothing is assumed. */
  datatype Frame<Q> = Frame(translation: Vec3, rotation: Q)

  /** math::Quaterniond::Slerp */
  type Slerp<!Q> = (real, Q, Q) -> Q

  // ----- adding key frames -----

  function Later(length: real, time: real): real {
    if time > length then time else length
  }

  /** The length is the time of the last key frame, if that is positive. */
  ghost predicate IsLength<V>(keys: seq<Key<V>>, length: real) {
    length == if keys == [] then 0.0 else Later(0.0, keys[|keys| - 1].time)
  }

  lemma PutKeepsLength<V>(keys: seq<Key<V>>, length: real, key: Key<V>)
    requires Increasing(keys) && IsLength(keys, length)
    ensures Increasing(Put(keys, key)) && IsLength(Put(keys, key), Later(length, key.time))
  {
    PutKeepsOrder(keys, key);
  }

  // ----- the frame at a time -----

  function ReducedTime(time: real, length: real, loop: bool): real
    requires time > length && loop ==> length > 0.0
  {
    if time <= length then time else if loop then Wrapped(time, length) else length
  }

  datatype Result<Q> = Found(frame: Frame<Q>) | InvalidTimeRange

  function Lerp(a: Vec3, b: Vec3, t: real): Vec3 {
    (a.0 + (b.0 - a.0) * t, a.1 + (b.1 - a.1) * t, a.2 + (b.2 - a.2) * t)
  }

  function Interpolated<Q>(slerp: Slerp<Q>, prev: Key<Frame<Q>>, next: Key<Frame<Q>>, time: real): Result<Q>
    requires next.time != prev.time
  {
    var t := (time - prev.time) / (next.time - prev.time);
    if t < 0.0 || t > 1.0 then InvalidTimeRange
    else Found(Frame(Lerp(prev.value.translation, next.value.translation, t),
      slerp(t, prev.value.rotation, next.value.rotation)))
  }

  /** Of a reduced time. Behind the last key upper_bound gives the end of the map, and the program
      would go on to read it; the conditions rule that out. */
  function FrameAtReduced<Q>(slerp: Slerp<Q>, keys: seq<Key<Frame<Q>>>, length: real, time: real): Result<Q>
    requires keys != [] && Increasing(keys)
    requires Equal(time, length) || UpperBound(keys, time, 0) < |keys|
  {
    var at := UpperBound(keys, time, 0);
    if Equal(time, length) then Found(keys[|keys| - 1].value)
    else if at == 0 || Equal(keys[at].time, time) then Found(keys[at].value)
    else Interpolated(slerp, keys[at - 1], keys[at], time)
  }

  /** What the program needs to find a frame: key frames, a positive length where a time has to be
      wrapped, and, unless the last frame is taken, a key behind the reduced time. */
  ghost predicate CanBeAsked<V>(keys: seq<Key<V>>, length: real, time: real, loop: bool) {
    && keys != [] && Increasing(keys) && IsLength(keys, length)
    && (time > length && loop ==> length > 0.0)
    && var r := ReducedTime(time, length, loop); Equal(r, length) || r < keys[|keys| - 1].time
  }

  lemma CanBeReduced<V>(keys: seq<Key<V>>, length: real, time: real, loop: bool)
    requires CanBeAsked(keys, length, time, loop)
    ensures var r := ReducedTime(time, length, loop);
      r <= length && (Equal(r, length) || UpperBound(keys, r, 0) < |keys|)
  {
    var laps := ReducedInside(time, length, loop);
    UpperBoundSplits(keys, ReducedTime(time, length, loop), 0);
  }

  /** A time behind the end counts as the end, or is taken back by whole lengths in a loop. */
  lemma ReducedInside(time: real, length: real, loop: bool) returns (laps: nat)
    requires time > length && loop ==> length > 0.0
    ensures var r := ReducedTime(time, length, loop);
      && r <= length
      && (time <= length ==> r == time)
      && (time > length && !loop ==> r == length)
      && (time > length && loop ==> r > 0.0 && r == time - laps as real * length)
  {
    laps := 0;
    if time > length && loop {
      laps := WrappedIsInside(time, length);
    }
  }

  /** There always is such a key when the last key time is not negative. */
  lemma CanAlwaysBeAsked<V>(keys: seq<Key<V>>, length: real, time: real, loop: bool)
    requires keys != [] && Increasing(keys) && IsLength(keys, length) && keys[|keys| - 1].time >= 0.0
    requires time > length && loop ==> length > 0.0
    ensures CanBeAsked(keys, length, time, loop)
  {
    var laps := ReducedInside(time, length, loop);
  }

  ghost function FrameAtTime<Q>(slerp: Slerp<Q>, keys: seq<Key<Frame<Q>>>, length: real, time: real, loop: bool)
    : Result<Q>
    requires CanBeAsked(keys, length, time, loop)
  {
    CanBeReduced(keys, length, time, loop);
    FrameAtReduced(slerp, keys, length, ReducedTime(time, length, loop))
  }

  ghost predicate BetweenPoints(p: Vec3, a: Vec3, b: Vec3) {
    Between(p.0, a.0, b.0) && Between(p.1, a.1, b.1) && Between(p.2, a.2, b.2)
  }

  lemma LerpBetween(a: Vec3, b: Vec3, t: real)
    requires 0.0 <= t <= 1.0
    ensures BetweenPoints(Lerp(a, b, t), a, b)
  {
    InterpolatedBetween(a.0, b.0, b.0 - a.0, t);
    InterpolatedBetween(a.1, b.1, b.1 - a.1, t);
    InterpolatedBetween(a.2, b.2, b.2 - a.2, t);
  }

  /** A frame between two key frames, at the fraction t of the time between them. */
  ghost predicate IsBlend<Q>(slerp: Slerp<Q>, prev: Key<Frame<Q>>, next: Key<Frame<Q>>, time: real, t: real,
      f: Frame<Q>)
  {
    && prev.time <= time < next.time && 0.0 <= t <= 1.0 && time == prev.time + t * (next.time - prev.time)
    && f.rotation == slerp(t, prev.value.rotation, next.value.rotation)
    && BetweenPoints(f.translation, prev.value.translation, next.value.translation)
  }

  lemma BlendIsFound<Q>(slerp: Slerp<Q>, prev: Key<Frame<Q>>, next: Key<Frame<Q>>, time: real) returns (t: real)
    requires prev.time <= time < next.time
    ensures var f := Interpolated(slerp, prev, next, time);
      f.Found? && IsBlend(slerp, prev, next, time, t, f.frame)
  {
    t := (time - prev.time) / (next.time - prev.time);
    FractionInside(time - prev.time, next.time - prev.time);
    LerpBetween(prev.value.translation, next.value.translation, t);
  }

  /** "Invalid time range" cannot happen. The frame is that of key frame i, when the reduced time
      counts as equal to its time or is before all of them, or counts as equal to the length and i
      is the last; or it lies between the key frames i - 1 and i on both sides of the reduced time. */
  lemma FrameIsBetweenNeighbours<Q>(slerp: Slerp<Q>, keys: seq<Key<Frame<Q>>>, length: real, time: real, loop: bool)
    returns (i: nat, t: real)
    requires CanBeAsked(keys, length, time, loop)
    ensures var r := ReducedTime(time, length, loop);
      var f := FrameAtTime(slerp, keys, length, time, loop);
      && r <= length && i < |keys| && f.Found?
      && ((f.frame == keys[i].value
            && (Equal(r, keys[i].time) || (i == 0 && r < keys[0].time) || (i == |keys| - 1 && Equal(r, length))))
          || (i > 0 && IsBlend(slerp, keys[i - 1], keys[i], r, t, f.frame)))
  {
    var r := ReducedTime(time, length, loop);
    CanBeReduced(keys, length, time, loop);
    UpperBoundSplits(keys, r, 0);
    var at := UpperBound(keys, r, 0);
    i, t := at, 0.0;
    if Equal(r, length) {
      i := |keys| - 1;
    } else if at > 0 && !Equal(keys[at].time, r) {
      t := BlendIsFound(slerp, keys[at - 1], keys[at], r);
    }
  }

  lemma BlendAtStart<Q>(slerp: Slerp<Q>, prev: Key<Frame<Q>>, next: Key<Frame<Q>>)
    requires prev.time < next.time
    ensures Interpolated(slerp, prev, next, prev.time)
      == Found(Frame(prev.value.translation, slerp(0.0, prev.value.rotation, next.value.rotation)))
  {
    var t := (prev.time - prev.time) / (next.time - prev.time);
    assert t == 0.0;
    LerpAtZero(prev.value.translation, next.value.translation, t);
  }

  lemma LerpAtZero(a: Vec3, b: Vec3, t: real)
    requires t == 0.0
    ensures Lerp(a, b, t) == a
  {
  }

  /** At the time of a key frame whose next one is further away than the tolerance, the translation is
      exactly that of the key frame, and the rotation is where spherical interpolation begins. */
  lemma FrameAtKeyFrame<Q>(slerp: Slerp<Q>, keys: seq<Key<Frame<Q>>>, length: real, i: nat, loop: bool)
    requires i < |keys| && CanBeAsked(keys, length, keys[i].time, loop)
    requires i < |keys| - 1 ==> !Equal(keys[i].time, keys[i + 1].time) && !Equal(keys[i].time, length)
    ensures FrameAtTime(slerp, keys, length, keys[i].time, loop)
      == if i == |keys| - 1 then Found(keys[i].value)
         else Found(Frame(keys[i].value.translation, slerp(0.0, keys[i].value.rotation, keys[i + 1].value.rotation)))
  {
    CanBeReduced(keys, length, keys[i].time, loop);
    UpperBoundIs(keys, keys[i].time, 0, i + 1);
    if i < |keys| - 1 {
      BlendAtStart(slerp, keys[i], keys[i + 1]);
    }
  }

  /** At time r the point p is on the line from a at t1 to b at t2. */
  ghost predicate OnWay(p: Vec3, r: real, t1: real, a: Vec3, t2: real, b: Vec3) {
    && (p.0 - a.0) * (t2 - t1) == (b.0 - a.0) * (r - t1)
    && (p.1 - a.1) * (t2 - t1) == (b.1 - a.1) * (r - t1)
    && (p.2 - a.2) * (t2 - t1) == (b.2 - a.2) * (r - t1)
  }

  lemma LerpOnWay(a: Vec3, b: Vec3, t1: real, t2: real, r: real, t: real)
    requires t * (t2 - t1) == r - t1
    ensures OnWay(Lerp(a, b, t), r, t1, a, t2, b)
  {
    QuotientOnLine(a.0, b.0 - a.0, r - t1, t2 - t1, t);
    QuotientOnLine(a.1, b.1 - a.1, r - t1, t2 - t1, t);
    QuotientOnLine(a.2, b.2 - a.2, r - t1, t2 - t1, t);
  }

  /** The frame f at time r is between these two key frames: the translation is on the line between
      theirs, and the rotation is interpolated at the same fraction of the time. */
  ghost predicate IsOnWay<Q>(slerp: Slerp<Q>, prev: Key<Frame<Q>>, next: Key<Frame<Q>>, r: real, f: Frame<Q>)
    requires prev.time < next.time
  {
    && OnWay(f.translation, r, prev.time, prev.value.translation, next.time, next.value.translation)
    && f.rotation == slerp((r - prev.time) / (next.time - prev.time), prev.value.rotation, next.value.rotation)
  }

  lemma InterpolatedOnWay<Q>(slerp: Slerp<Q>, prev: Key<Frame<Q>>, next: Key<Frame<Q>>, r: real)
    requires prev.time <= r < next.time
    ensures var f := Interpolated(slerp, prev, next, r);
      f.Found? && IsOnWay(slerp, prev, next, r, f.frame)
  {
    var t := (r - prev.time) / (next.time - prev.time);
    FractionInside(r - prev.time, next.time - prev.time);
    LerpOnWay(prev.value.translation, next.value.translation, prev.time, next.time, r, t);
    hide Lerp, OnWay;
  }

  /** Which frame it is: the last one where the reduced time counts as the end, the first one before all
      times; else the next one if the time counts as its, or one on the way between its two neighbours. */
  lemma FrameInTime<Q>(slerp: Slerp<Q>, keys: seq<Key<Frame<Q>>>, length: real, time: real, loop: bool, i: nat)
    requires CanBeAsked(keys, length, time, loop) && i < |keys|
    ensures var r, f := ReducedTime(time, length, loop), FrameAtTime(slerp, keys, length, time, loop);
      && (Equal(r, length) ==> f == Found(keys[|keys| - 1].value))
      && (!Equal(r, length) && r < keys[0].time ==> f == Found(keys[0].value))
      && (!Equal(r, length) && i > 0 && keys[i - 1].time <= r < keys[i].time ==>
            if Equal(keys[i].time, r) then f == Found(keys[i].value)
            else f.Found? && IsOnWay(slerp, keys[i - 1], keys[i], r, f.frame))
  {
    hide Interpolated, IsOnWay;
    var r := ReducedTime(time, length, loop);
    CanBeReduced(keys, length, time, loop);
    if !Equal(r, length) {
      if r < keys[0].time {
        UpperBoundIs(keys, r, 0, 0);
      } else if i > 0 && keys[i - 1].time <= r < keys[i].time {
        UpperBoundIs(keys, r, 0, i);
        InterpolatedOnWay(slerp, keys[i - 1], keys[i], r);
      }
    }
  }

  class NodeAnimation<Q> {
    var keyFrames: seq<Key<Frame<Q>>>
    var length: real

    ghost predicate Valid()
      reads this
    {
      Increasing(keyFrames) && IsLength(keyFrames, length)
    }

    constructor ()
      ensures Valid() && keyFrames == [] && length == 0.0
    {
      keyFrames, length := [], 0.0;
    }

    method AddKeyFrame(time: real, trans: Frame<Q>)
      requires Valid()
      modifies this
      ensures Valid() && keyFrames == Put(old(keyFrames), Key(time, trans)) && length == Later(old(length), time)
    {
      PutKeepsLength(keyFrames, length, Key(time, trans));
      if time > length {
        length := time;
      }
      keyFrames := Put(keyFrames, Key(time, trans));
    }

    method FrameAt(slerp: Slerp<Q>, time0: real, loop: bool) returns (result: Result<Q>)
      requires Valid() && CanBeAsked(keyFrames, length, time0, loop)
      ensures result == FrameAtTime(slerp, keyFrames, length, time0, loop)
    {
      CanBeReduced(keyFrames, length, time0, loop);
      var time := time0;
      if time > length {
        if loop {
          time := Wrap(time, length);
        } else {
          time := length;
        }
      }
      if Equal(time, length) {
        return Found(keyFrames[|keyFrames| - 1].value);
      }
      var it1 := UpperBound(keyFrames, time, 0);
      if it1 == 0 || Equal(keyFrames[it1].time, time) {
        return Found(keyFrames[it1].value);
      }
      var it2 := it1;
      it1 := it1 - 1;
      UpperBoundSplits(keyFrames, time, 0);
      var nextKey, nextTrans := keyFrames[it2].time, keyFrames[it2].value;
      var prevKey, prevTrans := keyFrames[it1].time, keyFrames[it1].value;
      var t := (time - prevKey) / (nextKey - prevKey);
      if t < 0.0 || t > 1.0 {
        return InvalidTimeRange;
      }
      var pos := Lerp(prevTrans.translation, nextTrans.translation, t);
      var rot := slerp(t, prevTrans.rotation, nextTrans.rotation);
      return Found(Frame(pos, rot));
    }
  }
}
