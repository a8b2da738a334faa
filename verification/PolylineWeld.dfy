/**
  Welding of polylines into a vertex table and an edge list
  (MeshManager::ConvertPolylinesToVerticesAndEdges in graphics/src/MeshManager.cc).
  Doubles are modelled as reals.
*/
module PolylineWeld {
  import opened Common

  type Edge = (nat, nat)

  lemma SquareIsZero(x: real)
    ensures Square(x) == 0.0 <==> x == 0.0
  {
    if x != 0.0 {
      var y := 1.0 / x;
      assert x * y == 1.0;
      assert Square(x) * (y * y) == (x * y) * (x * y) == 1.0;
    }
  }

  predicate Near(v: Vec2, p: Vec2, tol: real) {
    DistanceSquared(v, p) < Square(tol)
  }

  /** A point is near itself exactly when the tolerance is not zero; near is symmetric. */
  lemma NearFacts(p: Vec2, q: Vec2, tol: real)
    ensures Near(p, p, tol) <==> tol != 0.0
    ensures Near(p, q, tol) <==> Near(q, p, tol)
    ensures tol == 0.0 ==> !Near(p, q, tol)
  {
    SquareIsZero(tol);
    SquareIsZero(p.0 - p.0);
    SquareOfOpposite(p.0 - q.0, q.0 - p.0);
    SquareOfOpposite(p.1 - q.1, q.1 - p.1);
  }

  lemma SquareOfOpposite(x: real, y: real)
    requires x == -y
    ensures Square(x) == Square(y)
  {
    assert x * x == y * y;
  }

  /** The first entry of the table that is near p, or the table's size. */
  function FirstNear(vertices: seq<Vec2>, p: Vec2, tol: real): (r: nat)
    ensures r <= |vertices|
  {
    if vertices == [] then 0
    else if Near(vertices[0], p, tol) then 0
    else 1 + FirstNear(vertices[1..], p, tol)
  }

  predicate Placed(vertices: seq<Vec2>, p: Vec2, tol: real) {
    FirstNear(vertices, p, tol) < |vertices|
  }

  /** Every point is near the vertex that represents it, and near no earlier one. */
  lemma {:induction false} FirstNearIsFirst(vertices: seq<Vec2>, p: Vec2, tol: real)
    ensures var r := FirstNear(vertices, p, tol);
      && (r < |vertices| ==> Near(vertices[r], p, tol))
      && (forall i :: 0 <= i < r ==> !Near(vertices[i], p, tol))
  {
    if vertices != [] && !Near(vertices[0], p, tol) {
      FirstNearIsFirst(vertices[1..], p, tol);
    }
  }

  lemma {:induction false} FirstNearUnique(vertices: seq<Vec2>, p: Vec2, tol: real, r: nat)
    requires r <= |vertices| && (r < |vertices| ==> Near(vertices[r], p, tol))
    requires forall i :: 0 <= i < r ==> !Near(vertices[i], p, tol)
    ensures FirstNear(vertices, p, tol) == r
  {
    if vertices != [] && r > 0 {
      assert !Near(vertices[0], p, tol);
      FirstNearUnique(vertices[1..], p, tol, r - 1);
    }
  }

  /** Where a point is represented does not change when the table grows. */
  lemma FirstNearStable(vertices: seq<Vec2>, later: seq<Vec2>, p: Vec2, tol: real)
    requires vertices <= later && Placed(vertices, p, tol)
    ensures FirstNear(later, p, tol) == FirstNear(vertices, p, tol)
  {
    FirstNearIsFirst(vertices, p, tol);
    FirstNearUnique(later, p, tol, FirstNear(vertices, p, tol));
  }

  /** No two vertices are near each other. */
  ghost predicate Separated(vertices: seq<Vec2>, tol: real) {
    forall i, j :: 0 <= i < j < |vertices| ==> !Near(vertices[i], vertices[j], tol)
  }

  // ----- the algorithm -----

  function WithPoint(vertices: seq<Vec2>, p: Vec2, tol: real): seq<Vec2> {
    if Placed(vertices, p, tol) then vertices else vertices + [p]
  }

  /** The table and the edges after the segments of a polyline have been processed. */
  function Converted(vertices: seq<Vec2>, poly: seq<Vec2>, tol: real): (seq<Vec2>, seq<Edge>) {
    if |poly| <= 1 then (vertices, [])
    else
      var (before, edges) := Converted(vertices, poly[..|poly| - 1], tol);
      var middle := WithPoint(before, poly[|poly| - 2], tol);
      var a, b := FirstNear(before, poly[|poly| - 2], tol), FirstNear(middle, poly[|poly| - 1], tol);
      (WithPoint(middle, poly[|poly| - 1], tol), if a == b then edges else edges + [(a, b)])
  }

  class VertexTable {
    var vertices: seq<Vec2>

    constructor (initial: seq<Vec2>)
      ensures vertices == initial
    {
      vertices := initial;
    }

    /** Appends p unless an earlier vertex is near it; returns where p is represented. */
    method AddUniquePoint(p: Vec2, tol: real) returns (index: nat)
      modifies this
      ensures index == FirstNear(old(vertices), p, tol) < |vertices|
      ensures vertices == WithPoint(old(vertices), p, tol)
    {
      var sqrTol := Square(tol);
      for i := 0 to |vertices|
        invariant vertices == old(vertices)
        invariant forall k :: 0 <= k < i ==> !Near(vertices[k], p, tol)
      {
        if DistanceSquared(vertices[i], p) < sqrTol {
          FirstNearUnique(vertices, p, tol, i);
          return i;
        }
      }
      FirstNearUnique(vertices, p, tol, |vertices|);
      vertices := vertices + [p];
      index := |vertices| - 1;
    }
  }

  lemma OnePointConverted(vertices: seq<Vec2>, poly: seq<Vec2>, tol: real)
    requires |poly| == 1
    ensures Converted(vertices, poly, tol) == (vertices, [])
  {
  }

  lemma ConvertedNext(vertices: seq<Vec2>, poly: seq<Vec2>, i: nat, tol: real)
    requires 0 < i < |poly|
    ensures var (before, edges) := Converted(vertices, poly[..i], tol);
      var middle := WithPoint(before, poly[i - 1], tol);
      var a, b := FirstNear(before, poly[i - 1], tol), FirstNear(middle, poly[i], tol);
      Converted(vertices, poly[..i + 1], tol)
        == (WithPoint(middle, poly[i], tol), if a == b then edges else edges + [(a, b)])
  {
    assert poly[..i + 1][..i] == poly[..i];
  }

  method ConvertPolyline(table: VertexTable, poly: seq<Vec2>, tol: real) returns (edges: seq<Edge>)
    requires poly != []
    modifies table
    ensures (table.vertices, edges) == Converted(old(table.vertices), poly, tol)
  {
    var previous := poly[0];
    edges := [];
    OnePointConverted(table.vertices, poly[..1], tol);
    hide Converted, WithPoint, FirstNear;
    for i := 1 to |poly|
      invariant previous == poly[i - 1]
      invariant (table.vertices, edges) == Converted(old(table.vertices), poly[..i], tol)
    {
      var p := poly[i];
      ConvertedNext(old(table.vertices), poly, i, tol);
      var startPointIndex := table.AddUniquePoint(previous, tol);
      var endPointIndex := table.AddUniquePoint(p, tol);
      previous := p;
      if startPointIndex != endPointIndex {
        edges := edges + [(startPointIndex, endPointIndex)];
      }
    }
    assert poly[..|poly|] == poly;
  }

  function ConvertedAll(vertices: seq<Vec2>, polys: seq<seq<Vec2>>, tol: real): (seq<Vec2>, seq<Edge>) {
    if polys == [] then (vertices, [])
    else
      var (before, edges) := ConvertedAll(vertices, polys[..|polys| - 1], tol);
      var (after, added) := Converted(before, polys[|polys| - 1], tol);
      (after, edges + added)
  }

  method ConvertPolylinesToVerticesAndEdges(polys: seq<seq<Vec2>>, tol: real, table: VertexTable)
    returns (edges: seq<Edge>)
    requires forall poly :: poly in polys ==> poly != []
    modifies table
    ensures (table.vertices, edges) == ConvertedAll(old(table.vertices), polys, tol)
  {
    edges := [];
    for k := 0 to |polys|
      invariant (table.vertices, edges) == ConvertedAll(old(table.vertices), polys[..k], tol)
    {
      assert polys[..k + 1][..k] == polys[..k] && polys[k] in polys;
      var added := ConvertPolyline(table, polys[k], tol);
      edges := edges + added;
    }
    assert polys[..|polys|] == polys;
  }

  // ----- the vertex table -----

  lemma WithPointFacts(vertices: seq<Vec2>, p: Vec2, tol: real)
    ensures vertices <= WithPoint(vertices, p, tol)
    ensures Separated(vertices, tol) ==> Separated(WithPoint(vertices, p, tol), tol)
    ensures FirstNear(vertices, p, tol) < |WithPoint(vertices, p, tol)|
    ensures tol != 0.0 ==> FirstNear(WithPoint(vertices, p, tol), p, tol) == FirstNear(vertices, p, tol)
  {
    FirstNearIsFirst(vertices, p, tol);
    if !Placed(vertices, p, tol) && tol != 0.0 {
      NearFacts(p, p, tol);
      FirstNearUnique(vertices + [p], p, tol, |vertices|);
    }
  }

  /** The table only grows, and its vertices stay at least the tolerance apart. */
  lemma {:induction false} TableStaysSeparated(vertices: seq<Vec2>, poly: seq<Vec2>, tol: real)
    ensures vertices <= Converted(vertices, poly, tol).0
    ensures Separated(vertices, tol) ==> Separated(Converted(vertices, poly, tol).0, tol)
  {
    if |poly| > 1 {
      TableStaysSeparated(vertices, poly[..|poly| - 1], tol);
      var before := Converted(vertices, poly[..|poly| - 1], tol).0;
      WithPointFacts(before, poly[|poly| - 2], tol);
      WithPointFacts(WithPoint(before, poly[|poly| - 2], tol), poly[|poly| - 1], tol);
    }
  }

  lemma {:induction false} TableStaysSeparatedAll(vertices: seq<Vec2>, polys: seq<seq<Vec2>>, tol: real)
    ensures vertices <= ConvertedAll(vertices, polys, tol).0
    ensures Separated(vertices, tol) ==> Separated(ConvertedAll(vertices, polys, tol).0, tol)
  {
    if polys != [] {
      TableStaysSeparatedAll(vertices, polys[..|polys| - 1], tol);
      TableStaysSeparated(ConvertedAll(vertices, polys[..|polys| - 1], tol).0, polys[|polys| - 1], tol);
    }
  }

  // ----- what the edges are, given the final table -----

  ghost predicate AllPlaced(vertices: seq<Vec2>, poly: seq<Vec2>, tol: real) {
    |poly| > 1 ==> forall p :: p in poly ==> Placed(vertices, p, tol)
  }

  /** The edges between the representatives of consecutive points, without self-loops. */
  function PolyEdges(vertices: seq<Vec2>, poly: seq<Vec2>, tol: real): seq<Edge> {
    if |poly| <= 1 then []
    else
      var a, b := FirstNear(vertices, poly[|poly| - 2], tol), FirstNear(vertices, poly[|poly| - 1], tol);
      PolyEdges(vertices, poly[..|poly| - 1], tol) + (if a == b then [] else [(a, b)])
  }

  function AllEdges(vertices: seq<Vec2>, polys: seq<seq<Vec2>>, tol: real): seq<Edge> {
    if polys == [] then []
    else AllEdges(vertices, polys[..|polys| - 1], tol) + PolyEdges(vertices, polys[|polys| - 1], tol)
  }

  lemma {:induction false} PolyEdgesStable(vertices: seq<Vec2>, later: seq<Vec2>, poly: seq<Vec2>, tol: real)
    requires vertices <= later && AllPlaced(vertices, poly, tol)
    ensures AllPlaced(later, poly, tol)
    ensures PolyEdges(later, poly, tol) == PolyEdges(vertices, poly, tol)
  {
    if |poly| > 1 {
      forall p | p in poly
        ensures Placed(later, p, tol) && FirstNear(later, p, tol) == FirstNear(vertices, p, tol)
      {
        FirstNearStable(vertices, later, p, tol);
      }
      PolyEdgesStable(vertices, later, poly[..|poly| - 1], tol);
    }
  }

  /** With a non-zero tolerance, welding a polyline joins consecutive points through the vertices
      that represent them in the final table. */
  lemma {:induction false} ConvertedIsWelded(vertices: seq<Vec2>, poly: seq<Vec2>, tol: real)
    requires tol != 0.0
    ensures var (after, edges) := Converted(vertices, poly, tol);
      AllPlaced(after, poly, tol) && edges == PolyEdges(after, poly, tol)
  {
    if |poly| > 1 {
      var n, front := |poly|, poly[..|poly| - 1];
      ConvertedIsWelded(vertices, front, tol);
      var before := Converted(vertices, front, tol).0;
      var middle := WithPoint(before, poly[n - 2], tol);
      var after := WithPoint(middle, poly[n - 1], tol);
      WithPointFacts(before, poly[n - 2], tol);
      WithPointFacts(middle, poly[n - 1], tol);
      PolyEdgesStable(before, after, front, tol);
      FirstNearStable(middle, after, poly[n - 2], tol);
      assert forall p :: p in poly ==> p in front || p == poly[n - 1];
      assert forall p :: p in front ==> p == poly[n - 2] || |front| > 1;
    }
  }

  lemma {:induction false} AllEdgesStable(vertices: seq<Vec2>, later: seq<Vec2>, polys: seq<seq<Vec2>>, tol: real)
    requires vertices <= later && forall poly :: poly in polys ==> AllPlaced(vertices, poly, tol)
    ensures forall poly :: poly in polys ==> AllPlaced(later, poly, tol)
    ensures AllEdges(later, polys, tol) == AllEdges(vertices, polys, tol)
  {
    if polys != [] {
      AllEdgesStable(vertices, later, polys[..|polys| - 1], tol);
      PolyEdgesStable(vertices, later, polys[|polys| - 1], tol);
    }
  }

  /** The same for all polylines: the edge list is a function of the final table alone. */
  lemma {:induction false} ConvertedAllIsWelded(vertices: seq<Vec2>, polys: seq<seq<Vec2>>, tol: real)
    requires tol != 0.0
    ensures var (after, edges) := ConvertedAll(vertices, polys, tol);
      (forall poly :: poly in polys ==> AllPlaced(after, poly, tol)) && edges == AllEdges(after, polys, tol)
  {
    if polys != [] {
      var front, last := polys[..|polys| - 1], polys[|polys| - 1];
      ConvertedAllIsWelded(vertices, front, tol);
      var before := ConvertedAll(vertices, front, tol).0;
      ConvertedIsWelded(before, last, tol);
      TableStaysSeparated(before, last, tol);
      AllEdgesStable(before, Converted(before, last, tol).0, front, tol);
    }
  }

  // ----- properties of the edges -----

  /** The edges lead from a to b, each starting where the one before it ends. */
  ghost predicate IsWalk(edges: seq<Edge>, a: nat, b: nat) {
    if edges == [] then a == b
    else
      var e := edges[|edges| - 1];
      e.1 == b && IsWalk(edges[..|edges| - 1], a, e.0)
  }

  function OutDegree(edges: seq<Edge>, v: nat): nat {
    if edges == [] then 0 else OutDegree(edges[..|edges| - 1], v) + (if edges[|edges| - 1].0 == v then 1 else 0)
  }

  function InDegree(edges: seq<Edge>, v: nat): nat {
    if edges == [] then 0 else InDegree(edges[..|edges| - 1], v) + (if edges[|edges| - 1].1 == v then 1 else 0)
  }

  lemma {:induction false} DegreesConcat(a: seq<Edge>, b: seq<Edge>, v: nat)
    ensures OutDegree(a + b, v) == OutDegree(a, v) + OutDegree(b, v)
    ensures InDegree(a + b, v) == InDegree(a, v) + InDegree(b, v)
  {
    if b == [] {
      assert a + b == a;
    } else {
      DegreesConcat(a, b[..|b| - 1], v);
      assert (a + b)[..|a + b| - 1] == a + b[..|b| - 1];
    }
  }

  lemma {:induction false} WalkDegrees(edges: seq<Edge>, a: nat, b: nat, v: nat)
    requires IsWalk(edges, a, b)
    ensures OutDegree(edges, v) + (if v == b then 1 else 0) == InDegree(edges, v) + (if v == a then 1 else 0)
  {
    if edges != [] {
      WalkDegrees(edges[..|edges| - 1], a, edges[|edges| - 1].0, v);
    }
  }

  /** The edges of a polyline chain from the vertex of its first point to that of its last;
      none is a self-loop, and every one joins two vertices of the table. */
  lemma {:induction false} PolyEdgesAreWalk(vertices: seq<Vec2>, poly: seq<Vec2>, tol: real)
    requires poly != [] && AllPlaced(vertices, poly, tol)
    ensures IsWalk(PolyEdges(vertices, poly, tol), FirstNear(vertices, poly[0], tol),
      FirstNear(vertices, poly[|poly| - 1], tol))
    ensures forall e :: e in PolyEdges(vertices, poly, tol) ==> e.0 != e.1 && e.0 < |vertices| && e.1 < |vertices|
  {
    if |poly| > 1 {
      var front := poly[..|poly| - 1];
      assert Placed(vertices, poly[|poly| - 2], tol) && Placed(vertices, poly[|poly| - 1], tol);
      hide FirstNear, IsWalk;
      PolyEdgesAreWalk(vertices, front, tol);
      var a, b := FirstNear(vertices, poly[|poly| - 2], tol), FirstNear(vertices, poly[|poly| - 1], tol);
      ExtendWalk(PolyEdges(vertices, front, tol), FirstNear(vertices, poly[0], tol), a, b);
    }
  }

  lemma ExtendWalk(edges: seq<Edge>, start: nat, a: nat, b: nat)
    requires IsWalk(edges, start, a)
    ensures IsWalk(edges + (if a == b then [] else [(a, b)]), start, b)
  {
    assert edges + [] == edges;
    assert (edges + [(a, b)])[..|edges|] == edges;
  }

  /** If every polyline ends where it starts, every vertex has as many edges in as out. */
  lemma {:induction false} ClosedPolylinesBalance(vertices: seq<Vec2>, polys: seq<seq<Vec2>>, tol: real, v: nat)
    requires forall poly :: poly in polys ==> poly != [] && poly[0] == poly[|poly| - 1]
    requires forall poly :: poly in polys ==> AllPlaced(vertices, poly, tol)
    ensures InDegree(AllEdges(vertices, polys, tol), v) == OutDegree(AllEdges(vertices, polys, tol), v)
  {
    if polys != [] {
      var poly := polys[|polys| - 1];
      ClosedPolylinesBalance(vertices, polys[..|polys| - 1], tol, v);
      DegreesConcat(AllEdges(vertices, polys[..|polys| - 1], tol), PolyEdges(vertices, poly, tol), v);
      if |poly| > 1 {
        var a := FirstNear(vertices, poly[0], tol);
        PolyEdgesAreWalk(vertices, poly, tol);
        WalkDegrees(PolyEdges(vertices, poly, tol), a, a, v);
      }
    }
  }

  /** Closed polylines welded with a non-zero tolerance: the edge list of the algorithm balances
      at every vertex. */
  lemma WeldedLoopsBalance(vertices: seq<Vec2>, polys: seq<seq<Vec2>>, tol: real, v: nat)
    requires tol != 0.0
    requires forall poly :: poly in polys ==> poly != [] && poly[0] == poly[|poly| - 1]
    ensures var edges := ConvertedAll(vertices, polys, tol).1;
      InDegree(edges, v) == OutDegree(edges, v)
  {
    ConvertedAllIsWelded(vertices, polys, tol);
    ClosedPolylinesBalance(ConvertedAll(vertices, polys, tol).0, polys, tol, v);
  }

  // ----- a zero tolerance -----

  ghost predicate Unwelded(vertices: seq<Vec2>, poly: seq<Vec2>, after: seq<Vec2>, edges: seq<Edge>)
    requires poly != []
  {
    && |edges| == |poly| - 1
    && |after| == |vertices| + 2 * |edges|
    && (forall k :: 0 <= k < |edges| ==> edges[k] == (|vertices| + 2 * k, |vertices| + 2 * k + 1))
    && (forall k :: 0 <= k < |edges| ==>
          after[|vertices| + 2 * k] == poly[k] && after[|vertices| + 2 * k + 1] == poly[k + 1])
  }

  /** With a zero tolerance nothing is near anything, so every segment gets two vertices of its
      own: the table grows by two for each, and no two edges share a vertex. */
  lemma {:induction false} ZeroToleranceNeverWelds(vertices: seq<Vec2>, poly: seq<Vec2>)
    requires poly != []
    ensures var (after, edges) := Converted(vertices, poly, 0.0);
      Unwelded(vertices, poly, after, edges)
  {
    hide Unwelded, Converted, FirstNear, WithPoint;
    if |poly| == 1 {
      OnePointConverted(vertices, poly, 0.0);
      OnePointUnwelded(vertices, poly);
    } else {
      var front := poly[..|poly| - 1];
      ZeroToleranceNeverWelds(vertices, front);
      var (before, edges) := Converted(vertices, front, 0.0);
      UnweldedStep(vertices, poly);
      UnweldedExtends(vertices, poly, before, edges);
    }
  }

  lemma OnePointUnwelded(vertices: seq<Vec2>, poly: seq<Vec2>)
    requires |poly| == 1
    ensures Unwelded(vertices, poly, vertices, [])
  {
  }

  lemma UnweldedExtends(vertices: seq<Vec2>, poly: seq<Vec2>, before: seq<Vec2>, edges: seq<Edge>)
    requires |poly| > 1 && Unwelded(vertices, poly[..|poly| - 1], before, edges)
    ensures Unwelded(vertices, poly, before + [poly[|poly| - 2]] + [poly[|poly| - 1]],
      edges + [(|before|, |before| + 1)])
  {
  }

  lemma UnweldedStep(vertices: seq<Vec2>, poly: seq<Vec2>)
    requires |poly| > 1
    ensures var (before, edges) := Converted(vertices, poly[..|poly| - 1], 0.0);
      Converted(vertices, poly, 0.0)
        == (before + [poly[|poly| - 2]] + [poly[|poly| - 1]], edges + [(|before|, |before| + 1)])
  {
    var before := Converted(vertices, poly[..|poly| - 1], 0.0).0;
    NothingNear(before, poly[|poly| - 2]);
    NothingNear(before + [poly[|poly| - 2]], poly[|poly| - 1]);
  }

  lemma NothingNear(vertices: seq<Vec2>, p: Vec2)
    ensures FirstNear(vertices, p, 0.0) == |vertices|
  {
    forall i | 0 <= i < |vertices|
      ensures !Near(vertices[i], p, 0.0)
    {
      NearFacts(vertices[i], p, 0.0);
    }
    FirstNearUnique(vertices, p, 0.0, |vertices|);
  }

  /** Each edge starts where the one before it ends. */
  ghost predicate Chains(edges: seq<Edge>) {
    exists a: nat, b: nat :: IsWalk(edges, a, b)
  }

  ghost predicate AlwaysChains(tol: real) {
    forall vertices: seq<Vec2>, poly: seq<Vec2> :: poly != [] ==> Chains(Converted(vertices, poly, tol).1)
  }

  lemma WeldedEdgesChain(vertices: seq<Vec2>, poly: seq<Vec2>, tol: real)
    requires tol != 0.0 && poly != []
    ensures Chains(Converted(vertices, poly, tol).1)
  {
    ConvertedIsWelded(vertices, poly, tol);
    PolyEdgesAreWalk(Converted(vertices, poly, tol).0, poly, tol);
  }

  /** Three points, welded with a zero tolerance, give two separate edges. */
  lemma UnchainedEdges(p: Vec2) returns (edges: seq<Edge>)
    ensures edges == Converted([], [p, p, p], 0.0).1 == [(0, 1), (2, 3)]
  {
    edges := Converted([], [p, p, p], 0.0).1;
    ZeroToleranceNeverWelds([], [p, p, p]);
  }

  /** The edges of every polyline chain exactly when the tolerance is not zero. */
  lemma EdgesChainIffTolerance(tol: real)
    ensures AlwaysChains(tol) <==> tol != 0.0
  {
    if tol != 0.0 {
      forall vertices: seq<Vec2>, poly: seq<Vec2> | poly != []
        ensures Chains(Converted(vertices, poly, tol).1)
      {
        WeldedEdgesChain(vertices, poly, tol);
      }
    } else {
      var p := (0.0, 0.0);
      var edges := UnchainedEdges(p);
      forall a: nat, b: nat
        ensures !IsWalk(edges, a, b)
      {
        assert edges[..1] == [(0, 1)] && !IsWalk(edges[..1], a, 2);
      }
      assert !Chains(edges);
    }
  }
}
