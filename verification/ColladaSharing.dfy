/**
  Which corners of a COLLADA primitive share a vertex (graphics/src/ColladaLoader.cc): a corner shares the
  vertex of the latest corner at its position, if their normals and texture coordinates agree, and
  otherwise gets one of its own.
*/
module ColladaSharing {
  import opened Common
  import opened Collada
  import opened ColladaMeaning

  ghost predicate AtSamePosition(g: Geometry, a: seq<nat>, b: seq<nat>)
    requires ValidCorner(g, a) && ValidCorner(g, b)
  {
    Merged(g.verts, g.vertex, a) == Merged(g.verts, g.vertex, b)
  }

  ghost predicate LookAlike(g: Geometry, a: seq<nat>, b: seq<nat>)
    requires ValidCorner(g, a) && ValidCorner(g, b)
  {
    && Merged(g.norms, g.normal, a) == Merged(g.norms, g.normal, b)
    && Merged(g.texs, g.texcoord, a) == Merged(g.texs, g.texcoord, b)
  }

  /** The record of the vertex a corner was given. */
  ghost function RecordOf(g: Geometry, corner: seq<nat>, index: nat): GeometryIndices
    requires ValidCorner(g, corner) && g.vertex.Some?
  {
    GeometryIndices(Merged(g.verts, g.vertex, corner).value, OrZero(Merged(g.norms, g.normal, corner)),
      OrZero(Merged(g.texs, g.texcoord, corner)), index)
  }

  lemma MatchesIfAlike(g: Geometry, a: seq<nat>, b: seq<nat>, index: nat)
    requires ValidCorner(g, a) && ValidCorner(g, b) && g.vertex.Some?
    ensures Matches(RecordOf(g, a, index), Merged(g.norms, g.normal, b), Merged(g.texs, g.texcoord, b))
      <==> LookAlike(g, a, b)
  {
  }

  lemma OneRecord(r: GeometryIndices, normal: Option<nat>, texcoord: Option<nat>)
    ensures SharedAt([r], normal, texcoord, 0) == if Matches(r, normal, texcoord) then 0 else 1
  {
  }

  /** A corner at a new position, or whose position has the record of an earlier corner. */
  lemma CornerShares(b: Build, g: Geometry, corner: seq<nat>, earlier: Option<seq<nat>>, index: nat)
    requires ValidGeometry(g) && ValidCorner(g, corner) && g.vertex.Some?
    requires earlier.Some? ==> ValidCorner(g, earlier.value) && AtSamePosition(g, earlier.value, corner)
    requires Records(b, Merged(g.verts, g.vertex, corner).value)
      == if earlier.Some? then [RecordOf(g, earlier.value, index)] else []
    ensures var a, w := AddedCorner(b, g, corner), Merged(g.verts, g.vertex, corner).value;
      var given := if earlier.Some? && LookAlike(g, earlier.value, corner) then index else |b.mesh.vertices|;
      && a.mesh.indices == b.mesh.indices + [given]
      && Records(a, w) == [RecordOf(g, corner, given)]
      && forall v :: v != w ==> Records(a, v) == Records(b, v)
  {
    MergedIndexes(g, corner);
    if earlier.Some? {
      MatchesIfAlike(g, earlier.value, corner, index);
      OneRecord(RecordOf(g, earlier.value, index), Merged(g.norms, g.normal, corner),
        Merged(g.texs, g.texcoord, corner));
    }
  }

  /** The latest of these corners at position v, or -1. */
  ghost function Latest(g: Geometry, corners: seq<seq<nat>>, v: nat): (j: int)
    requires ValidCorners(g, corners) && g.vertex.Some?
    ensures -1 <= j < |corners|
    ensures j >= 0 ==> Merged(g.verts, g.vertex, corners[j]).value == v
    ensures forall k :: j < k < |corners| ==> Merged(g.verts, g.vertex, corners[k]).value != v
  {
    if corners == [] then -1
    else
      var last := |corners| - 1;
      if Merged(g.verts, g.vertex, corners[last]).value == v then last else Latest(g, corners[..last], v)
  }

  /** The list of a position holds one record, that of the latest corner there. */
  ghost predicate HoldsLatest(g: Geometry, b: Build, corners: seq<seq<nat>>, v: nat)
    requires ValidCorners(g, corners) && g.vertex.Some? && |b.mesh.indices| == |corners|
  {
    var j := Latest(g, corners, v);
    Records(b, v) == if j >= 0 then [RecordOf(g, corners[j], b.mesh.indices[j])] else []
  }

  lemma {:induction false} RecordsAreLatest(g: Geometry, corners: seq<seq<nat>>, v: nat)
    requires ValidGeometry(g) && ValidCorners(g, corners) && g.vertex.Some?
    ensures |AddedAll(g, corners).mesh.indices| == |corners| && HoldsLatest(g, AddedAll(g, corners), corners, v)
  {
    if corners != [] {
      var front, corner := corners[..|corners| - 1], corners[|corners| - 1];
      var b, w := AddedAll(g, front), Merged(g.verts, g.vertex, corner).value;
      RecordsAreLatest(g, front, v);
      RecordsAreLatest(g, front, w);
      var j := Latest(g, front, w);
      CornerShares(b, g, corner, if j >= 0 then Some(front[j]) else None, if j >= 0 then b.mesh.indices[j] else 0);
    }
  }

  lemma LastGiven(g: Geometry, corners: seq<seq<nat>>)
    requires ValidGeometry(g) && ValidCorners(g, corners) && g.vertex.Some? && corners != []
    ensures var last := |corners| - 1;
      var before, j := AddedAll(g, corners[..last]).mesh,
        Latest(g, corners[..last], Merged(g.verts, g.vertex, corners[last]).value);
      && |before.indices| == last
      && AddedAll(g, corners).mesh.indices == before.indices
        + [if j >= 0 && LookAlike(g, corners[j], corners[last]) then before.indices[j] else |before.vertices|]
  {
    var last := |corners| - 1;
    var front, corner := corners[..last], corners[last];
    var w := Merged(g.verts, g.vertex, corner).value;
    var b, j := AddedAll(g, front), Latest(g, front, w);
    RecordsAreLatest(g, front, w);
    hide Latest, LookAlike, AddedCorner, RecordOf, Merged, ValidGeometry, ValidCorner;
    CornerShares(b, g, corner, if j >= 0 then Some(front[j]) else None, if j >= 0 then b.mesh.indices[j] else 0);
  }

  lemma OneMoreIndex(g: Geometry, corners: seq<seq<nat>>)
    requires ValidGeometry(g) && ValidCorners(g, corners) && g.vertex.Some? && corners != []
    ensures AddedAll(g, corners[..|corners| - 1]).mesh.indices <= AddedAll(g, corners).mesh.indices
  {
    MergedIndexes(g, corners[|corners| - 1]);
  }

  lemma {:induction false} IndicesStay(g: Geometry, corners: seq<seq<nat>>, n: nat)
    requires ValidGeometry(g) && ValidCorners(g, corners) && g.vertex.Some? && n <= |corners|
    ensures AddedAll(g, corners[..n]).mesh.indices <= AddedAll(g, corners).mesh.indices
  {
    hide AddedAll, ValidGeometry, ValidCorner;
    if n < |corners| {
      var last := |corners| - 1;
      IndicesStay(g, corners[..last], n);
      assert corners[..last][..n] == corners[..n];
      OneMoreIndex(g, corners);
    } else {
      assert corners[..n] == corners;
    }
  }

  /** Corner i has the index of the latest corner before it at its position, if that one looks alike, or
      that of a vertex of its own. */
  lemma GivenIndex(g: Geometry, corners: seq<seq<nat>>, i: nat)
    requires ValidGeometry(g) && ValidCorners(g, corners) && g.vertex.Some? && i < |corners|
    ensures var indices, before := AddedAll(g, corners).mesh.indices, AddedAll(g, corners[..i]).mesh;
      var j := Latest(g, corners[..i], Merged(g.verts, g.vertex, corners[i]).value);
      && |indices| == |corners| && before.indices == indices[..i]
      && indices[i] == if j >= 0 && LookAlike(g, corners[j], corners[i]) then indices[j] else |before.vertices|
  {
    hide AddedAll, ValidGeometry, ValidCorner, LookAlike, Latest, Merged, HoldsLatest;
    var front := corners[..i + 1];
    assert front[..i] == corners[..i] && front[i] == corners[i];
    LastGiven(g, front);
    RecordsAreLatest(g, corners, 0);
    RecordsAreLatest(g, front, 0);
    IndicesStay(g, corners, i + 1);
  }

  lemma LatestIs(g: Geometry, corners: seq<seq<nat>>, i: nat, j: int)
    requires ValidCorners(g, corners) && g.vertex.Some? && -1 <= j < i < |corners|
    requires j >= 0 ==> AtSamePosition(g, corners[j], corners[i])
    requires forall k :: j < k < i ==> !AtSamePosition(g, corners[k], corners[i])
    ensures Latest(g, corners[..i], Merged(g.verts, g.vertex, corners[i]).value) == j
  {
    var front, v := corners[..i], Merged(g.verts, g.vertex, corners[i]).value;
    assert forall k :: j < k < i ==> Merged(g.verts, g.vertex, front[k]).value != v;
    assert j >= 0 ==> Merged(g.verts, g.vertex, front[j]).value == v;
  }

  /** Corner j is the latest one before corner i at its position: they share a vertex exactly when their
      merged normals and texture coordinates are the same; else the vertex of i is not used before it. */
  lemma SharesWithLatest(g: Geometry, corners: seq<seq<nat>>, j: nat, i: nat)
    requires ValidGeometry(g) && ValidCorners(g, corners) && g.vertex.Some? && j < i < |corners|
    requires AtSamePosition(g, corners[j], corners[i])
    requires forall k :: j < k < i ==> !AtSamePosition(g, corners[k], corners[i])
    ensures var indices := AddedAll(g, corners).mesh.indices;
      && |indices| == |corners| && (indices[i] == indices[j] <==> LookAlike(g, corners[j], corners[i]))
      && (!LookAlike(g, corners[j], corners[i]) ==> indices[i] !in indices[..i])
  {
    hide AddedAll, LookAlike, Latest, AtSamePosition, Merged, ValidGeometry, ValidCorner;
    GivenIndex(g, corners, i);
    LatestIs(g, corners, i, j);
    EarlierAreUsed(g, corners[..i]);
    var indices, before := AddedAll(g, corners).mesh.indices, AddedAll(g, corners[..i]).mesh;
    assert indices[..i][j] == indices[j] && |before.vertices| !in before.indices;
  }

  /** A position that is new gives a new vertex. */
  lemma NewPositionIsNewVertex(g: Geometry, corners: seq<seq<nat>>, i: nat)
    requires ValidGeometry(g) && ValidCorners(g, corners) && g.vertex.Some? && i < |corners|
    requires forall k :: 0 <= k < i ==> !AtSamePosition(g, corners[k], corners[i])
    ensures var indices := AddedAll(g, corners).mesh.indices; |indices| == |corners| && indices[i] !in indices[..i]
  {
    hide AddedAll, LookAlike, Latest, AtSamePosition, Merged, ValidGeometry, ValidCorner;
    GivenIndex(g, corners, i);
    LatestIs(g, corners, i, -1);
    EarlierAreUsed(g, corners[..i]);
    var before := AddedAll(g, corners[..i]).mesh;
    assert |before.vertices| !in before.indices;
  }

  /** The indices so far are those of vertices there are. */
  lemma EarlierAreUsed(g: Geometry, corners: seq<seq<nat>>)
    requires ValidGeometry(g) && ValidCorners(g, corners) && g.vertex.Some?
    ensures var m := AddedAll(g, corners).mesh; forall x :: x in m.indices ==> x < |m.vertices|
  {
    ReexpandsCorners(g, corners);
    var m := AddedAll(g, corners).mesh;
    forall x | x in m.indices
      ensures x < |m.vertices|
    {
      var k :| 0 <= k < |m.indices| && m.indices[k] == x;
      assert CornerShown(g, m, m.indices[k], corners[k]);
    }
  }
}
