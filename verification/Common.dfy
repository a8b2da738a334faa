/** Small things several modules need. */
module Common {
  datatype Option<+T> = None | Some(value: T)

  type Vec2 = (real, real)
  type Vec3 = (real, real, real)

  function Square(x: real): (r: real)
    ensures r >= 0.0
  {
    x * x
  }

  function DistanceSquared(a: Vec2, b: Vec2): real {
    Square(a.0 - b.0) + Square(a.1 - b.1)
  }

  lemma Reassociate<T>(a: seq<T>, b: seq<T>, c: seq<T>)
    ensures a + (b + c) == a + b + c
  {
  }

  lemma Positive(a: real, b: real)
    requires a > 0.0 && b > 0.0
    ensures a * b > 0.0
  {
  }

  lemma Distribute(a: real, b: real, s: real)
    ensures (a + b) * s == a * s + b * s
  {
  }

  lemma Subtract(a: real, b: real, s: real)
    ensures (a - b) * s == a * s - b * s
  {
  }

  /** Products with the same positive factor are in the order of the other factors. */
  lemma OrderByProduct(a: real, b: real, s: real)
    requires s > 0.0 && a * s <= b * s
    ensures a <= b
  {
    if a > b {
      Positive(a - b, s);
      Subtract(a, b, s);
    }
  }

  /** A quotient by its name: what is proved about q needs no division. */
  lemma QuotientOf(a: real, d: real) returns (q: real)
    requires d != 0.0
    ensures q == a / d && q * d == a
  {
    q := a / d;
  }

  /** The factors behind two products in order. */
  lemma OrderOfFactors(x: real, y: real, a: real, b: real, s: real)
    requires s > 0.0 && x * s == a && y * s == b && a <= b
    ensures x <= y
  {
    OrderByProduct(x, y, s);
  }

  lemma FloorDrops(y: real)
    ensures (y + 1.0).Floor == y.Floor + 1
  {
  }
}
