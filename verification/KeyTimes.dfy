/**
  What graphics/src/Animation.cc and graphics/src/NodeAnimation.cc share: key frames in the order of
  their times, the search for a time among them, and the loop that wraps a time into an animation.
*/
module KeyTimes {
  import opened Common

  datatype Key<V> = Key(time: real, value: V)

  const TOLERANCE: real := 0.000001

  /** ignition::math::equal on doubles. */
  predicate Equal(a: real, b: real) {
    -TOLERANCE <= a - b <= TOLERANCE
  }

  // ----- order -----

  ghost predicate Sorted<V>(keys: seq<Key<V>>) {
    forall i, j :: 0 <= i <= j < |keys| ==> keys[i].time <= keys[j].time
  }

  ghost predicate Increasing<V>(keys: seq<Key<V>>) {
    forall i, j :: 0 <= i < j < |keys| ==> keys[i].time < keys[j].time
  }

  /** std::lower_bound: the first key at or behind the time. */
  function LowerBound<V>(keys: seq<Key<V>>, time: real, i: nat): (r: nat)
    ensures i <= |keys| ==> i <= r <= |keys|
    decreases |keys| - i
  {
    if i >= |keys| then |keys| else if keys[i].time >= time then i else LowerBound(keys, time, i + 1)
  }

  /** std::upper_bound: the first key behind the time. */
  function UpperBound<V>(keys: seq<Key<V>>, time: real, i: nat): (r: nat)
    ensures i <= |keys| ==> i <= r <= |keys|
    ensures r < |keys| ==> keys[r].time > time
    decreases |keys| - i
  {
    if i >= |keys| then |keys| else if keys[i].time > time then i else UpperBound(keys, time, i + 1)
  }

  lemma {:induction false} LowerBoundSplits<V>(keys: seq<Key<V>>, time: real, i: nat)
    requires Sorted(keys)
    ensures var r := LowerBound(keys, time, i);
      && (forall k :: i <= k < r && k < |keys| ==> keys[k].time < time)
      && (forall k :: r <= k < |keys| ==> keys[k].time >= time)
    decreases |keys| - i
  {
    if i < |keys| && keys[i].time < time {
      LowerBoundSplits(keys, time, i + 1);
    }
  }

  lemma {:induction false} UpperBoundSplits<V>(keys: seq<Key<V>>, time: real, i: nat)
    requires Sorted(keys)
    ensures var r := UpperBound(keys, time, i);
      && (forall k :: i <= k < r && k < |keys| ==> keys[k].time <= time)
      && (forall k :: r <= k < |keys| ==> keys[k].time > time)
    decreases |keys| - i
  {
    if i < |keys| && keys[i].time <= time {
      UpperBoundSplits(keys, time, i + 1);
    }
  }

  lemma {:induction false} UpperBoundIs<V>(keys: seq<Key<V>>, time: real, i: nat, n: nat)
    requires Sorted(keys) && i <= n <= |keys|
    requires (n > 0 ==> keys[n - 1].time <= time) && (n < |keys| ==> keys[n].time > time)
    ensures UpperBound(keys, time, i) == n
    decreases n - i
  {
    if i < n {
      UpperBoundIs(keys, time, i + 1, n);
    }
  }

  lemma {:induction false} UpperBoundGrows<V>(keys: seq<Key<V>>, t1: real, t2: real, i: nat)
    requires t1 <= t2
    ensures UpperBound(keys, t1, i) <= UpperBound(keys, t2, i)
    decreases |keys| - i
  {
    if i < |keys| && keys[i].time <= t1 {
      UpperBoundGrows(keys, t1, t2, i + 1);
    }
  }

  // ----- maps from times -----

  /** map[time] = value, on a std::map in the order of its keys. */
  function Put<V>(keys: seq<Key<V>>, key: Key<V>): (r: seq<Key<V>>)
    ensures r != []
  {
    if keys == [] || keys[|keys| - 1].time < key.time then keys + [key]
    else if keys[|keys| - 1].time == key.time then keys[..|keys| - 1] + [key]
    else Put(keys[..|keys| - 1], key) + [keys[|keys| - 1]]
  }

  /** What is stored under a time: one value or none. */
  function Get<V>(keys: seq<Key<V>>, time: real): seq<V> {
    if keys == [] then []
    else if keys[|keys| - 1].time == time then [keys[|keys| - 1].value]
    else Get(keys[..|keys| - 1], time)
  }

  lemma {:induction false} PutKeepsOrder<V>(keys: seq<Key<V>>, key: Key<V>)
    requires Increasing(keys)
    ensures var r := Put(keys, key);
      && Increasing(r)
      && r[|r| - 1].time == if keys != [] && keys[|keys| - 1].time > key.time then keys[|keys| - 1].time else key.time
  {
    if keys != [] && keys[|keys| - 1].time > key.time {
      PutKeepsOrder(keys[..|keys| - 1], key);
      IncreasingNext(Put(keys[..|keys| - 1], key), keys[|keys| - 1]);
    }
  }

  lemma IncreasingNext<V>(keys: seq<Key<V>>, key: Key<V>)
    requires Increasing(keys) && keys != [] && keys[|keys| - 1].time < key.time
    ensures Increasing(keys + [key])
  {
  }

  lemma {:induction false} PutStores<V>(keys: seq<Key<V>>, key: Key<V>, time: real)
    requires Increasing(keys)
    ensures Get(Put(keys, key), time) == if time == key.time then [key.value] else Get(keys, time)
  {
    if keys != [] {
      var front, last := keys[..|keys| - 1], keys[|keys| - 1];
      assert (front + [key])[..|front|] == front && (keys + [key])[..|keys|] == keys;
      if last.time > key.time {
        PutStores(front, key, time);
        assert (Put(front, key) + [last])[..|Put(front, key)|] == Put(front, key);
      }
    }
  }

  // ----- wrapping -----

  function Laps(time: real, length: real): nat
    requires length > 0.0
  {
    if time > length then
      Positive(time, 1.0 / length);
      (time * (1.0 / length)).Floor + 1
    else 0
  }

  lemma LapsDrop(time: real, length: real)
    requires time > length > 0.0
    ensures Laps(time - length, length) < Laps(time, length)
  {
    var inverse := 1.0 / length;
    Distribute(time - length, length, inverse);
    assert length * inverse == 1.0;
    Positive(time, inverse);
    FloorDrops((time - length) * inverse);
    assert time * inverse == (time - length) * inverse + 1.0;
  }

  /** while (time > length) time -= length; */
  function Wrapped(time: real, length: real): real
    requires length > 0.0
    decreases Laps(time, length)
  {
    if time > length then
      LapsDrop(time, length);
      Wrapped(time - length, length)
    else time
  }

  method Wrap(time0: real, length: real) returns (time: real)
    requires length > 0.0
    ensures time == Wrapped(time0, length)
  {
    time := time0;
    while time > length
      invariant Wrapped(time, length) == Wrapped(time0, length)
      decreases Laps(time, length)
    {
      LapsDrop(time, length);
      time := time - length;
    }
  }

  /** A time behind the end becomes one inside, whole lengths earlier; others stay. */
  lemma {:induction false} WrappedIsInside(time: real, length: real) returns (laps: nat)
    requires length > 0.0
    ensures Wrapped(time, length) == time - laps as real * length <= length
    ensures laps > 0 <==> time > length
    ensures time > length ==> Wrapped(time, length) > 0.0
    decreases Laps(time, length)
  {
    if time > length {
      LapsDrop(time, length);
      var fewer := WrappedIsInside(time - length, length);
      laps := fewer + 1;
      Distribute(fewer as real, 1.0, length);
    } else {
      laps := 0;
    }
  }

  // ----- fractions -----

  lemma FractionInside(a: real, d: real)
    requires 0.0 <= a <= d && d > 0.0
    ensures 0.0 <= a / d <= 1.0 && a / d * d == a
  {
    var f := QuotientOf(a, d);
    OrderOfFactors(0.0, f, 0.0, a, d);
    OrderOfFactors(f, 1.0, a, d, d);
  }

  ghost predicate Between(v: real, a: real, b: real) {
    a <= v <= b || b <= v <= a
  }

  lemma ScaledInside(d: real, t: real)
    requires 0.0 <= t <= 1.0
    ensures Between(d * t, 0.0, d)
  {
    if d > 0.0 {
      if t > 0.0 { Positive(d, t); }
      if t < 1.0 { Positive(d, 1.0 - t); }
      assert d * t + d * (1.0 - t) == d;
    } else if d < 0.0 {
      if t > 0.0 { Positive(-d, t); }
      if t < 1.0 { Positive(-d, 1.0 - t); }
      assert -d * t == -(d * t);
      assert d * t + d * (1.0 - t) == d;
      assert -d * (1.0 - t) == -(d * (1.0 - t));
    }
  }

  /** Linear interpolation stays between the two values. */
  lemma InterpolatedBetween(a: real, b: real, d: real, t: real)
    requires 0.0 <= t <= 1.0 && d == b - a
    ensures Between(a + d * t, a, b)
  {
    ScaledInside(d, t);
  }

  function Magnitude(x: real): real {
    if x < 0.0 then -x else x
  }

  /** At time r the value v is on the line from v1 at t1 to v2 at t2; it is v1 when the two times count as
      equal, or the fraction of the way counts as none. */
  ghost predicate OnLine(v: real, r: real, t1: real, v1: real, t2: real, v2: real) {
    if Magnitude(t2 - t1) > TOLERANCE && Magnitude(r - t1) > TOLERANCE * Magnitude(t2 - t1)
    then (v - v1) * (t2 - t1) == (v2 - v1) * (r - t1)
    else v == v1
  }

  /** Interpolation by the quotient f of two differences of times. */
  lemma QuotientOnLine(v1: real, diff: real, x: real, d: real, f: real)
    requires f * d == x
    ensures (v1 + diff * f - v1) * d == diff * x
  {
    assert diff * f * d == diff * (f * d);
  }

  lemma FarQuotient(x: real, d: real, f: real)
    requires f * d == x && d != 0.0
    ensures Equal(f, 0.0) <==> Magnitude(x) <= TOLERANCE * Magnitude(d)
  {
    var e, y := Magnitude(d), if d < 0.0 then -x else x;
    if d < 0.0 {
      NegatedFactor(f, d);
    }
    FarProduct(f, e, y, TOLERANCE);
  }

  lemma NegatedFactor(a: real, b: real)
    ensures a * -b == -(a * b) && -a * b == -(a * b)
  {
  }

  lemma FarProduct(f: real, e: real, y: real, t: real)
    requires e > 0.0 && f * e == y
    ensures -t <= f <= t <==> -(t * e) <= y <= t * e
  {
    NegatedFactor(t, e);
    if f <= t {
      ProductsInOrder(f, t, e);
    } else {
      ProductsInOrder(t, f, e);
    }
    if f >= -t {
      ProductsInOrder(-t, f, e);
    } else {
      ProductsInOrder(f, -t, e);
    }
  }

  /** Products with the same positive factor are ordered as the other factors are. */
  lemma ProductsInOrder(a: real, b: real, s: real)
    requires s > 0.0 && a <= b
    ensures a * s <= b * s && (a < b ==> a * s < b * s)
  {
    if a < b {
      Positive(b - a, s);
      Subtract(b, a, s);
    }
  }
}
