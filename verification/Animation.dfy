/**
  Key frame animations, after graphics/src/Animation.cc: key frames are kept in the order of their
  times, and a time is looked up between the two key frames around it, across the wrap if need be.
*/
module Animation {
  import opened Common
  import opened KeyTimes

  // ----- creating key frames -----

  /** CreateKeyFrame inserts behind the key frames of the same time. */
  function Inserted<V>(keys: seq<Key<V>>, key: Key<V>): seq<Key<V>> {
    var i := UpperBound(keys, key.time, 0);
    keys[..i] + [key] + keys[i..]
  }

  function AllInserted<V>(created: seq<Key<V>>): seq<Key<V>> {
    if created == [] then []
    else Inserted(AllInserted(created[..|created| - 1]), created[|created| - 1])
  }

  lemma InsertedSorted<V>(keys: seq<Key<V>>, key: Key<V>)
    requires Sorted(keys)
    ensures Sorted(Inserted(keys, key)) && multiset(Inserted(keys, key)) == multiset(keys) + multiset([key])
  {
    UpperBoundSplits(keys, key.time, 0);
    InsertedAt(keys, key, UpperBound(keys, key.time, 0));
    SortedAround(keys, key, UpperBound(keys, key.time, 0));
  }

  lemma SortedAround<V>(keys: seq<Key<V>>, key: Key<V>, i: nat)
    requires Sorted(keys) && i <= |keys|
    requires (i > 0 ==> keys[i - 1].time <= key.time) && (i < |keys| ==> key.time <= keys[i].time)
    ensures Sorted(keys[..i] + [key] + keys[i..])
  {
  }

  lemma InsertedAt<V>(keys: seq<Key<V>>, key: Key<V>, i: nat)
    requires i <= |keys|
    ensures multiset(keys[..i] + [key] + keys[i..]) == multiset(keys) + multiset([key])
  {
    assert keys == keys[..i] + keys[i..];
  }

  /** The keys of one time, in order. */
  function AtTime<V>(keys: seq<Key<V>>, time: real): seq<Key<V>> {
    if keys == [] then []
    else AtTime(keys[..|keys| - 1], time) + if keys[|keys| - 1].time == time then [keys[|keys| - 1]] else []
  }

  lemma {:induction false} AtTimeConcat<V>(a: seq<Key<V>>, b: seq<Key<V>>, time: real)
    ensures AtTime(a + b, time) == AtTime(a, time) + AtTime(b, time)
    decreases |b|
  {
    if b == [] {
      assert a + b == a;
    } else {
      assert (a + b)[..|a + b| - 1] == a + b[..|b| - 1];
      AtTimeConcat(a, b[..|b| - 1], time);
    }
  }

  lemma {:induction false} NoneAtTime<V>(keys: seq<Key<V>>, time: real)
    requires forall i :: 0 <= i < |keys| ==> keys[i].time != time
    ensures AtTime(keys, time) == []
  {
    if keys != [] {
      NoneAtTime(keys[..|keys| - 1], time);
    }
  }

  lemma AtTimeBetween<V>(front: seq<Key<V>>, key: Key<V>, back: seq<Key<V>>, time: real)
    requires key.time == time ==> AtTime(back, time) == []
    ensures AtTime(front + [key] + back, time) == AtTime(front + back, time) + if key.time == time then [key] else []
  {
    AtTimeConcat(front + [key], back, time);
    AtTimeConcat(front, back, time);
    assert (front + [key])[..|front|] == front;
  }

  lemma InsertedAtTime<V>(keys: seq<Key<V>>, key: Key<V>, time: real)
    requires Sorted(keys)
    ensures AtTime(Inserted(keys, key), time) == AtTime(keys, time) + if key.time == time then [key] else []
  {
    hide AtTime, UpperBound;
    var i := UpperBound(keys, key.time, 0);
    UpperBoundSplits(keys, key.time, 0);
    if key.time == time {
      NoneAtTime(keys[i..], time);
    }
    AtTimeBetween(keys[..i], key, keys[i..], time);
    assert keys == keys[..i] + keys[i..];
  }

  /** A key frame behind all others goes to the end. */
  lemma InsertedLast<V>(keys: seq<Key<V>>, key: Key<V>)
    requires Sorted(keys) && (keys != [] ==> keys[|keys| - 1].time <= key.time)
    ensures Inserted(keys, key) == keys + [key]
  {
    UpperBoundIs(keys, key.time, 0, |keys|);
  }

  /** However the key frames are created: they are in the order of their times, they are all there,
      and those of the same time are in the order they were created in. */
  lemma {:induction false} CreationKeepsOrder<V>(created: seq<Key<V>>, time: real)
    ensures var keys := AllInserted(created);
      Sorted(keys) && multiset(keys) == multiset(created) && AtTime(keys, time) == AtTime(created, time)
  {
    if created != [] {
      var front, key := created[..|created| - 1], created[|created| - 1];
      CreationKeepsOrder(front, time);
      InsertedSorted(AllInserted(front), key);
      InsertedAtTime(AllInserted(front), key, time);
      assert created == front + [key];
    }
  }

  // ----- looking up a time -----

  datatype Bracket = Bracket(fraction: real, first: nat, second: nat)

  /** The time after the loop, which does nothing when the length is not positive. */
  function Reduced(time: real, length: real): real {
    if length > 0.0 then Wrapped(time, length) else time
  }

  /** The time of the second key frame; behind the last key it is the first key, one length later. */
  function SecondTime<V>(keys: seq<Key<V>>, length: real, time: real): real
    requires keys != []
  {
    var at := LowerBound(keys, time, 0);
    if at == |keys| then length + keys[0].time else keys[at].time
  }

  function FirstIndex<V>(keys: seq<Key<V>>, time: real): (r: nat)
    requires keys != []
    ensures r < |keys|
  {
    var at := LowerBound(keys, time, 0);
    if at == |keys| || (at > 0 && time < keys[at].time) then at - 1 else at
  }

  function Lookup<V>(keys: seq<Key<V>>, length: real, time0: real): (b: Bracket)
    requires keys != []
    ensures b.first < |keys| && b.second < |keys|
  {
    var time := Reduced(time0, length);
    var at := LowerBound(keys, time, 0);
    var first := FirstIndex(keys, time);
    var t1, t2 := keys[first].time, SecondTime(keys, length, time);
    Bracket(if Equal(t1, t2) then 0.0 else (time - t1) / (t2 - t1), first, if at == |keys| then 0 else at)
  }

  /** Where the first key frame and the second one are. */
  lemma LookupBrackets<V>(keys: seq<Key<V>>, length: real, time: real)
    requires keys != [] && Sorted(keys)
    ensures var r := Reduced(time, length);
      var b := Lookup(keys, length, time);
      && (r <= keys[0].time ==> b.first == b.second == 0 && b.fraction == 0.0)
      && (keys[0].time < r <= keys[|keys| - 1].time ==>
            keys[b.first].time <= r <= keys[b.second].time && b.first <= b.second <= b.first + 1)
      && (r > keys[|keys| - 1].time ==> b.first == |keys| - 1 && b.second == 0)
  {
    var r := Reduced(time, length);
    LowerBoundSplits(keys, r, 0);
  }

  /** For a positive length and key times that are not negative: the fraction is in [0, 1], and unless
      the two times count as equal it says where between them the reduced time is. */
  lemma FractionIsInside<V>(keys: seq<Key<V>>, length: real, time: real)
    requires keys != [] && Sorted(keys) && length > 0.0 && keys[0].time >= 0.0
    ensures var r := Reduced(time, length);
      var b := Lookup(keys, length, time);
      var t1, t2 := keys[b.first].time, SecondTime(keys, length, r);
      && r <= length && 0.0 <= b.fraction <= 1.0
      && (Equal(t1, t2) ==> b.fraction == 0.0)
      && (!Equal(t1, t2) ==> t1 <= r <= t2 && r == t1 + b.fraction * (t2 - t1))
  {
    var r := Reduced(time, length);
    var laps := WrappedIsInside(time, length);
    LowerBoundSplits(keys, r, 0);
    var first := FirstIndex(keys, r);
    var t1, t2 := keys[first].time, SecondTime(keys, length, r);
    if !Equal(t1, t2) {
      FractionInside(r - t1, t2 - t1);
    }
  }

  /** Without that: behind the last key the fraction is in [0, 1] exactly when the two times count as
      equal or the reduced time is not behind the first key one length later. */
  lemma FractionInsideIff<V>(keys: seq<Key<V>>, length: real, time: real)
    requires keys != [] && Sorted(keys)
    ensures var r := Reduced(time, length);
      var b := Lookup(keys, length, time);
      var last, t2 := keys[|keys| - 1].time, length + keys[0].time;
      0.0 <= b.fraction <= 1.0 <==> r <= last || Equal(last, t2) || r <= t2
  {
    var r := Reduced(time, length);
    LowerBoundSplits(keys, r, 0);
    var first := FirstIndex(keys, r);
    var t1, t2 := keys[first].time, SecondTime(keys, length, r);
    if !Equal(t1, t2) {
      if t1 <= r <= t2 {
        FractionInside(r - t1, t2 - t1);
      } else {
        assert t1 < r && t2 < r;
        FractionOutside(r - t1, t2 - t1);
      }
    }
  }

  lemma FractionOutside(a: real, d: real)
    requires a > 0.0 && d < a && d != 0.0
    ensures !(0.0 <= a / d <= 1.0)
  {
    var f := QuotientOf(a, d);
    if 0.0 <= f <= 1.0 {
      ScaledInside(d, f);
    }
  }

  /** It can be: with a length of 0 and keys at 0 and 1, time 2 has the fraction -1. */
  lemma FractionCanBeOutside<V>(v: V)
    ensures Lookup([Key(0.0, v), Key(1.0, v)], 0.0, 2.0).fraction == -1.0
  {
    var keys := [Key(0.0, v), Key(1.0, v)];
    LowerBoundSplits(keys, 2.0, 0);
    assert LowerBound(keys, 2.0, 0) == 2;
  }

  /** A numeric animation: the key frames hold numbers. */
  function Interpolated(keys: seq<Key<real>>, length: real, time: real): real
    requires keys != []
  {
    var b := Lookup(keys, length, time);
    if Equal(b.fraction, 0.0) then keys[b.first].value
    else keys[b.first].value + (keys[b.second].value - keys[b.first].value) * b.fraction
  }

  /** Interpolated values stay between the values of the two key frames. */
  lemma InterpolatedStaysBetween(keys: seq<Key<real>>, length: real, time: real)
    requires keys != [] && Sorted(keys) && length > 0.0 && keys[0].time >= 0.0
    ensures var b := Lookup(keys, length, time);
      Between(Interpolated(keys, length, time), keys[b.first].value, keys[b.second].value)
  {
    FractionIsInside(keys, length, time);
    LookupBrackets(keys, length, time);
    var b := Lookup(keys, length, time);
    InterpolatedBetween(keys[b.first].value, keys[b.second].value, keys[b.second].value - keys[b.first].value,
      b.fraction);
  }

  /** The value between two key frames at these times. */
  function Blended(v1: real, v2: real, t1: real, t2: real, r: real): real {
    var f := if Equal(t1, t2) then 0.0 else (r - t1) / (t2 - t1);
    if Equal(f, 0.0) then v1 else v1 + (v2 - v1) * f
  }

  lemma BlendedOnLine(v1: real, v2: real, t1: real, t2: real, r: real)
    ensures OnLine(Blended(v1, v2, t1, t2, r), r, t1, v1, t2, v2)
  {
    if !Equal(t1, t2) {
      var f := QuotientOf(r - t1, t2 - t1);
      FarQuotient(r - t1, t2 - t1, f);
      QuotientOnLine(v1, v2 - v1, r - t1, t2 - t1, f);
    }
  }

  lemma InterpolatedIsBlended(keys: seq<Key<real>>, length: real, time: real, first: nat, second: nat, t2: real)
    requires keys != [] && first < |keys| && second < |keys|
    requires var r := Reduced(time, length);
      var at := LowerBound(keys, r, 0);
      && first == FirstIndex(keys, r) && second == (if at == |keys| then 0 else at) && t2 == SecondTime(keys, length, r)
    ensures Interpolated(keys, length, time)
      == Blended(keys[first].value, keys[second].value, keys[first].time, t2, Reduced(time, length))
  {
  }

  /** The time that is looked up: whole lengths are taken off a time behind the end. */
  lemma ReducedIsInside(time: real, length: real) returns (laps: nat)
    ensures Reduced(time, length) == time - laps as real * length
    ensures length > 0.0 ==> Reduced(time, length) <= length && (time > length ==> Reduced(time, length) > 0.0)
    ensures laps > 0 ==> time > length > 0.0
  {
    laps := 0;
    if length > 0.0 {
      laps := WrappedIsInside(time, length);
    }
  }

  lemma ValueAtKey(keys: seq<Key<real>>, length: real, time: real, i: nat)
    requires i < |keys| && LowerBound(keys, Reduced(time, length), 0) == i
    requires i == 0 || Reduced(time, length) == keys[i].time
    ensures Interpolated(keys, length, time) == keys[i].value
  {
    hide Blended, Interpolated, LowerBound, Reduced;
    InterpolatedIsBlended(keys, length, time, i, i, keys[i].time);
    BlendedAtOneKey(keys[i].value, keys[i].time, Reduced(time, length));
  }

  lemma BlendedAtOneKey(v: real, t: real, r: real)
    ensures Blended(v, v, t, t, r) == v
  {
  }

  lemma ValueBetweenKeys(keys: seq<Key<real>>, length: real, time: real, i: nat)
    requires 0 < i < |keys| && LowerBound(keys, Reduced(time, length), 0) == i && Reduced(time, length) < keys[i].time
    ensures OnLine(Interpolated(keys, length, time), Reduced(time, length), keys[i - 1].time, keys[i - 1].value,
      keys[i].time, keys[i].value)
  {
    hide Blended, Interpolated, LowerBound, Reduced, OnLine;
    InterpolatedIsBlended(keys, length, time, i - 1, i, keys[i].time);
    BlendedOnLine(keys[i - 1].value, keys[i].value, keys[i - 1].time, keys[i].time, Reduced(time, length));
  }

  lemma ValueBehindKeys(keys: seq<Key<real>>, length: real, time: real)
    requires keys != [] && LowerBound(keys, Reduced(time, length), 0) == |keys|
    ensures var last := keys[|keys| - 1];
      OnLine(Interpolated(keys, length, time), Reduced(time, length), last.time, last.value,
        length + keys[0].time, keys[0].value)
  {
    hide Blended, Interpolated, LowerBound, Reduced, OnLine;
    var last, t2 := |keys| - 1, length + keys[0].time;
    InterpolatedIsBlended(keys, length, time, last, 0, t2);
    BlendedOnLine(keys[last].value, keys[0].value, keys[last].time, t2, Reduced(time, length));
  }

  /** Where the value is at the reduced time r: at a key frame's own time, of which key frame i is the
      first, it is that key frame's; between two key frames, or behind the last one, with the first one a
      length later, it is on the line between the two. */
  lemma ValueInTime(keys: seq<Key<real>>, length: real, time: real, i: nat)
    requires Sorted(keys) && i < |keys|
    ensures var r, v := Reduced(time, length), Interpolated(keys, length, time);
      var start, last := keys[0], keys[|keys| - 1];
      && (r <= start.time ==> v == start.value)
      && (r == keys[i].time && (i > 0 ==> keys[i - 1].time < r) ==> v == keys[i].value)
      && (i > 0 && keys[i - 1].time < r < keys[i].time ==>
            OnLine(v, r, keys[i - 1].time, keys[i - 1].value, keys[i].time, keys[i].value))
      && (r > last.time ==> OnLine(v, r, last.time, last.value, length + start.time, start.value))
  {
    hide Interpolated, Reduced, OnLine;
    var r := Reduced(time, length);
    LowerBoundSplits(keys, r, 0);
    var at := LowerBound(keys, r, 0);
    if at == |keys| {
      ValueBehindKeys(keys, length, time);
    } else if at == 0 || r == keys[at].time {
      ValueAtKey(keys, length, time, at);
    } else {
      ValueBetweenKeys(keys, length, time, at);
    }
  }

  class NumericAnimation {
    var length: real
    var keyFrames: seq<Key<real>>

    constructor (length: real)
      ensures this.length == length && keyFrames == []
    {
      this.length, keyFrames := length, [];
    }

    method CreateKeyFrame(time: real, value: real)
      requires Sorted(keyFrames)
      modifies this
      ensures length == old(length) && keyFrames == Inserted(old(keyFrames), Key(time, value))
      ensures Sorted(keyFrames) && multiset(keyFrames) == multiset(old(keyFrames)) + multiset([Key(time, value)])
    {
      InsertedSorted(keyFrames, Key(time, value));
      var iter := UpperBound(keyFrames, time, 0);
      keyFrames := keyFrames[..iter] + [Key(time, value)] + keyFrames[iter..];
    }

    method KeyFramesAtTime(time0: real) returns (fraction: real, kf1: nat, kf2: nat)
      requires keyFrames != []
      ensures Bracket(fraction, kf1, kf2) == Lookup(keyFrames, length, time0)
    {
      var time := time0;
      if length > 0.0 {
        time := Wrap(time, length);
      }
      var t2;
      var iter := LowerBound(keyFrames, time, 0);
      if iter == |keyFrames| {
        kf2 := 0;
        t2 := length + keyFrames[kf2].time;
        iter := iter - 1;
      } else {
        kf2 := iter;
        t2 := keyFrames[kf2].time;
        if iter != 0 && time < keyFrames[iter].time {
          iter := iter - 1;
        }
      }
      kf1 := iter;
      var t1 := keyFrames[kf1].time;
      fraction := if Equal(t1, t2) then 0.0 else (time - t1) / (t2 - t1);
    }

    method InterpolatedKeyFrame(timePos: real) returns (value: real)
      requires keyFrames != []
      ensures value == Interpolated(keyFrames, length, timePos)
    {
      var t, kf1, kf2 := KeyFramesAtTime(timePos);
      if Equal(t, 0.0) {
        value := keyFrames[kf1].value;
      } else {
        var diff := keyFrames[kf2].value - keyFrames[kf1].value;
        value := keyFrames[kf1].value + diff * t;
      }
    }
  }
}
