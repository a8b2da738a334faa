/**
  What the buffers of module Collada mean: re-expanding the index buffer gives every corner of the
  input back, in order, with its position, normal and texture coordinate.
*/
module ColladaMeaning {
  import opened Common
  import opened Collada

  // ----- what an index shows -----

  ghost predicate Separate(g: Geometry) {
    g.normal.Some? && !g.combined
  }

  /** The normals carried inside <vertices> and no others. */
  ghost predicate OnlyCombined(g: Geometry) {
    g.normal.None? && g.combined
  }

  /** Both: then each vertex has two normals, the one from <vertices> first. */
  ghost predicate BothNormals(g: Geometry) {
    g.normal.Some? && g.combined
  }

  /** The nodes a vertex hangs on, in the order they were added. */
  function NodesOf(a: seq<NodeAssignment>, vertex: nat): seq<(nat, real)> {
    if a == [] then []
    else
      var front, last := NodesOf(a[..|a| - 1], vertex), a[|a| - 1];
      if last.vertex == vertex then front + [(last.node, last.weight)] else front
  }

  /** The vertex of this index holds the values of these indices. */
  ghost predicate Shows(g: Geometry, m: Buffers, index: nat, vertex: nat, normal: Option<nat>, texcoord: Option<nat>) {
    && index < |m.vertices| && vertex < |g.verts.values| && m.vertices[index] == Bound(g, g.verts.values[vertex])
    && NodesOf(m.assignments, index) == WeightsOf(g, vertex)
    && (Separate(g) ==> ShowsAt(m.normals, index, g.norms, normal))
    && (OnlyCombined(g) ==> ShowsAt(m.normals, index, g.norms, Some(vertex)))
    && (BothNormals(g) ==>
          ShowsAt(m.normals, 2 * index, g.norms, Some(vertex)) && ShowsAt(m.normals, 2 * index + 1, g.norms, normal))
    && (g.texcoord.Some? ==> ShowsAt(m.texcoords, index, g.texs, texcoord))
  }

  ghost predicate ShowsAt<T>(shown: seq<T>, index: nat, s: Source<T>, k: Option<nat>) {
    k.Some? && k.value < |s.values| && index < |shown| && shown[index] == s.values[k.value]
  }

  ghost predicate IsGrown(m: Buffers, n: Buffers) {
    && m.vertices <= n.vertices && m.normals <= n.normals && m.texcoords <= n.texcoords && m.indices <= n.indices
    && SameNodes(m, n)
  }

  /** The vertices of m hang on the same nodes in n. */
  ghost predicate SameNodes(m: Buffers, n: Buffers) {
    forall i :: 0 <= i < |m.vertices| ==> NodesOf(n.assignments, i) == NodesOf(m.assignments, i)
  }

  lemma GrownStillShows(g: Geometry, m: Buffers, n: Buffers, index: nat, vertex: nat, normal: Option<nat>,
      texcoord: Option<nat>)
    requires IsGrown(m, n) && Shows(g, m, index, vertex, normal, texcoord)
    ensures Shows(g, n, index, vertex, normal, texcoord)
  {
  }

  ghost function NormalOf(g: Geometry, r: GeometryIndices): Option<nat> {
    if g.normal.Some? then Some(r.normalIndex) else None
  }

  ghost function TexcoordOf(g: Geometry, r: GeometryIndices): Option<nat> {
    if g.texcoord.Some? then Some(r.texcoordIndex) else None
  }

  ghost predicate RecordsShown(g: Geometry, b: Build) {
    forall v, i :: v in b.vertexIndexMap && 0 <= i < |b.vertexIndexMap[v]| ==>
      var r := b.vertexIndexMap[v][i];
      Shows(g, b.mesh, r.mappedIndex, v, NormalOf(g, r), TexcoordOf(g, r))
  }

  /** How long the arrays are; with normals both separate and inside <vertices> there are two for
      each vertex. */
  ghost predicate Lengths(g: Geometry, m: Buffers) {
    && |m.normals| == (if g.combined then |m.vertices| else 0) + (if g.normal.Some? then |m.vertices| else 0)
    && |m.texcoords| == if g.texcoord.Some? then |m.vertices| else 0
  }

  ghost predicate NodesInside(m: Buffers) {
    forall k :: 0 <= k < |m.assignments| ==> m.assignments[k].vertex < |m.vertices|
  }

  // ----- the nodes of a new vertex -----

  lemma {:induction false} NoNodesOutside(a: seq<NodeAssignment>, vertex: nat)
    requires forall k :: 0 <= k < |a| ==> a[k].vertex != vertex
    ensures NodesOf(a, vertex) == []
  {
    if a != [] {
      NoNodesOutside(a[..|a| - 1], vertex);
    }
  }

  lemma {:induction false} NodesAppended(a: seq<NodeAssignment>, vertex: nat, weights: seq<(nat, real)>, i: nat)
    ensures NodesOf(a + Assigned(vertex, weights), i) == NodesOf(a, i) + if i == vertex then weights else []
    decreases |weights|
  {
    var added := a + Assigned(vertex, weights);
    if weights == [] {
      assert added == a;
    } else {
      var front, last := weights[..|weights| - 1], weights[|weights| - 1];
      NodesAppended(a, vertex, front, i);
      assert added[..|added| - 1] == a + Assigned(vertex, front);
      assert front + [last] == weights;
    }
  }

  lemma {:induction false} AssignedToVertex(vertex: nat, weights: seq<(nat, real)>)
    ensures forall k :: 0 <= k < |Assigned(vertex, weights)| ==> Assigned(vertex, weights)[k].vertex == vertex
  {
    if weights != [] {
      AssignedToVertex(vertex, weights[..|weights| - 1]);
    }
  }

  lemma NewNodes(m: Buffers, n: Buffers, weights: seq<(nat, real)>)
    requires NodesInside(m) && |n.vertices| == |m.vertices| + 1
    requires n.assignments == m.assignments + Assigned(|m.vertices|, weights)
    ensures SameNodes(m, n) && NodesInside(n) && NodesOf(n.assignments, |m.vertices|) == weights
  {
    forall i | 0 <= i <= |m.vertices|
      ensures NodesOf(n.assignments, i) == NodesOf(m.assignments, i) + if i == |m.vertices| then weights else []
    {
      NodesAppended(m.assignments, |m.vertices|, weights, i);
    }
    NoNodesOutside(m.assignments, |m.vertices|);
    AssignedToVertex(|m.vertices|, weights);
  }

  // ----- one corner -----

  lemma VertexAdded(b: Build, g: Geometry, v: nat, normal: Option<nat>, texcoord: Option<nat>)
    requires Indexes(g, Some(v), normal, texcoord) && Lengths(g, b.mesh) && NodesInside(b.mesh)
    requires normal.Some? == g.normal.Some? && texcoord.Some? == g.texcoord.Some?
    ensures var m := WithTexcoord(WithNormal(WithVertex(b.mesh, g, v), g, normal), g, texcoord);
      && IsGrown(b.mesh, m) && Lengths(g, m) && NodesInside(m)
      && Shows(g, m, |b.mesh.vertices|, v, normal, texcoord)
      && m.indices == b.mesh.indices + [|b.mesh.vertices|] && |m.vertices| == |b.mesh.vertices| + 1
  {
    NewNodes(b.mesh, WithVertex(b.mesh, g, v), WeightsOf(g, v));
  }

  lemma RecordsStayShown(g: Geometry, b: Build, mesh: Buffers)
    requires RecordsShown(g, b) && IsGrown(b.mesh, mesh)
    ensures RecordsShown(g, Build(mesh, b.vertexIndexMap))
  {
    forall v, i | v in b.vertexIndexMap && 0 <= i < |b.vertexIndexMap[v]|
      ensures var r := b.vertexIndexMap[v][i]; Shows(g, mesh, r.mappedIndex, v, NormalOf(g, r), TexcoordOf(g, r))
    {
      var r := b.vertexIndexMap[v][i];
      GrownStillShows(g, b.mesh, mesh, r.mappedIndex, v, NormalOf(g, r), TexcoordOf(g, r));
    }
  }

  lemma RecordAdded(g: Geometry, b: Build, v: nat, r: GeometryIndices)
    requires RecordsShown(g, b) && Shows(g, b.mesh, r.mappedIndex, v, NormalOf(g, r), TexcoordOf(g, r))
    ensures RecordsShown(g, b.(vertexIndexMap := b.vertexIndexMap[v := [r]]))
  {
  }

  ghost predicate Used(m: Buffers) {
    forall j :: 0 <= j < |m.vertices| ==> j in m.indices
  }

  ghost predicate Inv(g: Geometry, b: Build) {
    Lengths(g, b.mesh) && NodesInside(b.mesh) && RecordsShown(g, b) && Used(b.mesh)
  }

  lemma SharedCorner(b: Build, g: Geometry, v: nat, normal: Option<nat>, texcoord: Option<nat>)
    requires Inv(g, b) && Indexes(g, Some(v), normal, texcoord)
    requires normal.Some? == g.normal.Some? && texcoord.Some? == g.texcoord.Some?
    requires SharedAt(Records(b, v), normal, texcoord, 0) < |Records(b, v)|
    ensures var a := Added(b, g, Some(v), normal, texcoord);
      && Inv(g, a) && IsGrown(b.mesh, a.mesh) && |a.mesh.indices| == |b.mesh.indices| + 1
      && Shows(g, a.mesh, a.mesh.indices[|b.mesh.indices|], v, normal, texcoord)
  {
    var a := Added(b, g, Some(v), normal, texcoord);
    RecordsStayShown(g, b, a.mesh);
    assert forall j :: j in b.mesh.indices ==> j in a.mesh.indices;
  }

  lemma UsedGrows(m: Buffers, n: Buffers)
    requires Used(m) && n.indices == m.indices + [|m.vertices|] && |n.vertices| == |m.vertices| + 1
    ensures Used(n)
  {
    assert n.indices[|m.indices|] == |m.vertices|;
    assert forall j :: j in m.indices ==> j in n.indices;
  }

  lemma NewCorner(b: Build, g: Geometry, v: nat, normal: Option<nat>, texcoord: Option<nat>)
    requires Inv(g, b) && Indexes(g, Some(v), normal, texcoord)
    requires normal.Some? == g.normal.Some? && texcoord.Some? == g.texcoord.Some?
    requires SharedAt(Records(b, v), normal, texcoord, 0) >= |Records(b, v)|
    ensures var a := Added(b, g, Some(v), normal, texcoord);
      && Inv(g, a) && IsGrown(b.mesh, a.mesh) && |a.mesh.indices| == |b.mesh.indices| + 1
      && Shows(g, a.mesh, a.mesh.indices[|b.mesh.indices|], v, normal, texcoord)
  {
    var a := Added(b, g, Some(v), normal, texcoord);
    VertexAdded(b, g, v, normal, texcoord);
    RecordsStayShown(g, b, a.mesh);
    RecordAdded(g, Build(a.mesh, b.vertexIndexMap), v,
      GeometryIndices(v, OrZero(normal), OrZero(texcoord), |b.mesh.vertices|));
    UsedGrows(b.mesh, a.mesh);
  }

  lemma CornerAdded(b: Build, g: Geometry, v: nat, normal: Option<nat>, texcoord: Option<nat>)
    requires Inv(g, b) && Indexes(g, Some(v), normal, texcoord)
    requires normal.Some? == g.normal.Some? && texcoord.Some? == g.texcoord.Some?
    ensures var a := Added(b, g, Some(v), normal, texcoord);
      && Inv(g, a) && IsGrown(b.mesh, a.mesh) && |a.mesh.indices| == |b.mesh.indices| + 1
      && Shows(g, a.mesh, a.mesh.indices[|b.mesh.indices|], v, normal, texcoord)
  {
    if SharedAt(Records(b, v), normal, texcoord, 0) < |Records(b, v)| {
      SharedCorner(b, g, v, normal, texcoord);
    } else {
      NewCorner(b, g, v, normal, texcoord);
    }
  }

  // ----- all corners -----

  /** The vertex of this index holds the values the corner names. Normals inside <vertices> and the
      nodes of the skeleton follow the position the corner's position was merged into. */
  ghost predicate CornerShown(g: Geometry, m: Buffers, index: nat, corner: seq<nat>)
    requires ValidCorner(g, corner) && g.vertex.Some?
  {
    && index < |m.vertices| && m.vertices[index] == Bound(g, g.verts.values[corner[g.vertex.value]])
    && NodesOf(m.assignments, index) == WeightsOf(g, Merged(g.verts, g.vertex, corner).value)
    && (Separate(g) ==> ShowsAt(m.normals, index, g.norms, Some(corner[g.normal.value])))
    && (OnlyCombined(g) ==> ShowsAt(m.normals, index, g.norms, Merged(g.verts, g.vertex, corner)))
    && (BothNormals(g) ==>
          && ShowsAt(m.normals, 2 * index, g.norms, Merged(g.verts, g.vertex, corner))
          && ShowsAt(m.normals, 2 * index + 1, g.norms, Some(corner[g.normal.value])))
    && (g.texcoord.Some? ==> ShowsAt(m.texcoords, index, g.texs, Some(corner[g.texcoord.value])))
  }

  lemma MergedIsShown(g: Geometry, m: Buffers, index: nat, corner: seq<nat>)
    requires ValidGeometry(g) && ValidCorner(g, corner) && g.vertex.Some?
    requires Shows(g, m, index, Merged(g.verts, g.vertex, corner).value, Merged(g.norms, g.normal, corner),
      Merged(g.texs, g.texcoord, corner))
    ensures CornerShown(g, m, index, corner)
  {
    MergedKeepsValue(g.verts, g.vertex, corner);
    if g.normal.Some? { MergedKeepsValue(g.norms, g.normal, corner); }
    if g.texcoord.Some? { MergedKeepsValue(g.texs, g.texcoord, corner); }
  }

  lemma CornerStaysShown(g: Geometry, m: Buffers, n: Buffers, index: nat, corner: seq<nat>)
    requires ValidCorner(g, corner) && g.vertex.Some? && IsGrown(m, n) && CornerShown(g, m, index, corner)
    ensures CornerShown(g, n, index, corner)
  {
  }

  ghost predicate AllShown(g: Geometry, m: Buffers, corners: seq<seq<nat>>)
    requires ValidCorners(g, corners) && g.vertex.Some?
  {
    |m.indices| == |corners| && forall i :: 0 <= i < |corners| ==> CornerShown(g, m, m.indices[i], corners[i])
  }

  lemma OneMoreShown(g: Geometry, m: Buffers, n: Buffers, corners: seq<seq<nat>>)
    requires corners != [] && ValidCorners(g, corners) && g.vertex.Some? && IsGrown(m, n)
    requires ValidCorners(g, corners[..|corners| - 1]) && AllShown(g, m, corners[..|corners| - 1])
    requires |n.indices| == |corners| && CornerShown(g, n, n.indices[|corners| - 1], corners[|corners| - 1])
    ensures AllShown(g, n, corners)
  {
    forall i | 0 <= i < |corners|
      ensures CornerShown(g, n, n.indices[i], corners[i])
    {
      if i < |corners| - 1 {
        assert corners[i] == corners[..|corners| - 1][i];
        CornerStaysShown(g, m, n, m.indices[i], corners[i]);
      }
    }
  }

  /** Re-expanding the index buffer gives back every corner in order, with its values; the arrays
      keep their lengths, and hold no vertex that no index uses. */
  lemma {:induction false} ReexpandsCorners(g: Geometry, corners: seq<seq<nat>>)
    requires ValidGeometry(g) && ValidCorners(g, corners) && g.vertex.Some?
    ensures var b := AddedAll(g, corners); Inv(g, b) && AllShown(g, b.mesh, corners)
  {
    if corners != [] {
      var front, corner := corners[..|corners| - 1], corners[|corners| - 1];
      ReexpandsCorners(g, front);
      MergedIndexes(g, corner);
      var b, a := AddedAll(g, front), AddedAll(g, corners);
      CornerAdded(b, g, Merged(g.verts, g.vertex, corner).value, Merged(g.norms, g.normal, corner),
        Merged(g.texs, g.texcoord, corner));
      MergedIsShown(g, a.mesh, a.mesh.indices[|front|], corner);
      OneMoreShown(g, b.mesh, a.mesh, corners);
    }
  }

  /** Normals inside <vertices>: the corner shows the normal of its own position exactly when that
      one equals the normal of the position it was merged into. */
  lemma CombinedNormalFollowsMergedPosition(g: Geometry, corners: seq<seq<nat>>, i: nat)
    requires ValidGeometry(g) && ValidCorners(g, corners) && g.vertex.Some? && OnlyCombined(g) && i < |corners|
    ensures var m, k := AddedAll(g, corners).mesh, corners[i][g.vertex.value];
      && |m.indices| == |corners| && m.indices[i] < |m.normals|
      && k < |g.norms.values| && Remap(g.verts.duplicates, k) < |g.norms.values|
      && (m.normals[m.indices[i]] == g.norms.values[k]
        <==> g.norms.values[Remap(g.verts.duplicates, k)] == g.norms.values[k])
  {
    ReexpandsCorners(g, corners);
    MergedKeepsValue(g.verts, g.vertex, corners[i]);
    assert CornerShown(g, AddedAll(g, corners).mesh, AddedAll(g, corners).mesh.indices[i], corners[i]);
  }

  /** It need not: two equal positions with different normals, and the second corner shows the normal
      of the first. */
  lemma CombinedNormalIsLost(p: Vec3, n0: Vec3, n1: Vec3)
    requires n0 != n1
    ensures var none: Option<nat> := None;
      var g := Geometry(Some(0), none, none, 1, Source([p, p], DuplicatesOf([p, p], 0)), Source([n0, n1], map[]),
        Source([], map[]), true, None);
      var corners := [[0], [1]];
      && ValidGeometry(g) && ValidCorners(g, corners)
      && var m := AddedAll(g, corners).mesh;
         |m.indices| == 2 && m.indices[1] < |m.normals| && m.normals[m.indices[1]] == n0
  {
    var none: Option<nat> := None;
    var values := [p, p];
    DuplicateAt(values, 0, 0);
    DuplicateAt(values, 0, 1);
    IndexOfIsFirst(values, p, 0, 0);
    DuplicatesAreValid(values);
    var g := Geometry(Some(0), none, none, 1, Source(values, DuplicatesOf(values, 0)), Source([n0, n1], map[]),
      Source([], map[]), true, None);
    var corners := [[0], [1]];
    ReexpandsCorners(g, corners);
    var m := AddedAll(g, corners).mesh;
    assert CornerShown(g, m, m.indices[1], corners[1]);
  }

  /** With both, what is in the place of a vertex is a normal of another one: here two positions, each
      with its normal in <vertices> and the same one in a NORMAL input, and one of the two corners
      finds the normal of the other in its place. */
  lemma BothNormalsAreShifted(p: Vec3, q: Vec3, n0: Vec3, n1: Vec3)
    requires n0 != n1
    ensures var none: Option<nat> := None;
      var g := Geometry(Some(0), Some(1), none, 2, Source([p, q], map[]), Source([n0, n1], map[]),
        Source([], map[]), true, None);
      var corners := [[0, 0], [1, 1]];
      && ValidGeometry(g) && ValidCorners(g, corners) && BothNormals(g)
      && var m := AddedAll(g, corners).mesh;
         && |m.indices| == 2 && m.indices[0] < |m.normals| && m.indices[1] < |m.normals|
         && (m.normals[m.indices[0]] != n0 || m.normals[m.indices[1]] != n1)
  {
    var none: Option<nat> := None;
    var g := Geometry(Some(0), Some(1), none, 2, Source([p, q], map[]), Source([n0, n1], map[]),
      Source([], map[]), true, None);
    var corners := [[0, 0], [1, 1]];
    hide AddedAll, Lengths, Used, Inv, AllShown;
    ReexpandsCorners(g, corners);
    ShiftedNormals(g, AddedAll(g, corners), corners, n0, n1);
  }

  lemma ShiftedNormals(g: Geometry, b: Build, corners: seq<seq<nat>>, n0: Vec3, n1: Vec3)
    requires BothNormals(g) && g.vertex == Some(0) && g.normal == Some(1) && g.norms.values == [n0, n1] && n0 != n1
    requires corners == [[0, 0], [1, 1]] && ValidCorners(g, corners) && g.verts.duplicates == map[]
    requires Inv(g, b) && AllShown(g, b.mesh, corners)
    ensures var m := b.mesh;
      && |m.indices| == 2 && m.indices[0] < |m.normals| && m.indices[1] < |m.normals|
      && (m.normals[m.indices[0]] != n0 || m.normals[m.indices[1]] != n1)
  {
    hide RecordsShown, NodesInside;
    var m := b.mesh;
    assert CornerShown(g, m, m.indices[0], corners[0]) && CornerShown(g, m, m.indices[1], corners[1]);
    assert m.normals[2 * m.indices[0]] == m.normals[2 * m.indices[0] + 1] == n0;
    assert m.normals[2 * m.indices[1]] == m.normals[2 * m.indices[1] + 1] == n1;
    TwoVertices(g, m);
  }

  lemma TwoVertices(g: Geometry, m: Buffers)
    requires Lengths(g, m) && Used(m) && BothNormals(g) && |m.indices| == 2
    requires m.indices[0] < |m.vertices| && m.indices[1] < |m.vertices|
    requires m.normals[2 * m.indices[0]] != m.normals[2 * m.indices[1]]
    ensures |m.vertices| == 2 && (m.indices == [0, 1] || m.indices == [1, 0])
  {
    assert 0 in m.indices;
    assert |m.vertices| > 2 ==> 1 in m.indices && 2 in m.indices;
    assert |m.vertices| == 2 ==> 1 in m.indices;
  }

  /** The same for the skeleton: the vertex of a corner hangs on the nodes of the corner's position
      exactly when these are the nodes of the position it was merged into. */
  lemma NodesFollowMergedPosition(g: Geometry, corners: seq<seq<nat>>, i: nat)
    requires ValidGeometry(g) && ValidCorners(g, corners) && g.vertex.Some? && i < |corners|
    ensures var m, k := AddedAll(g, corners).mesh, corners[i][g.vertex.value];
      && |m.indices| == |corners|
      && (NodesOf(m.assignments, m.indices[i]) == WeightsOf(g, k)
        <==> WeightsOf(g, Remap(g.verts.duplicates, k)) == WeightsOf(g, k))
  {
    ReexpandsCorners(g, corners);
    assert CornerShown(g, AddedAll(g, corners).mesh, AddedAll(g, corners).mesh.indices[i], corners[i]);
  }

  /** They need not be: of two equal positions only the second one has a node, and the vertex of both
      corners has none. */
  lemma NodeIsLost(p: Vec3, node: (nat, real))
    ensures var none: Option<nat> := None;
      var g := Geometry(Some(0), none, none, 1, Source([p, p], DuplicatesOf([p, p], 0)), Source([], map[]),
        Source([], map[]), false, Some(Skin(v => v, [[], [node]])));
      var corners := [[0], [1]];
      && ValidGeometry(g) && ValidCorners(g, corners) && WeightsOf(g, 1) == [node]
      && var m := AddedAll(g, corners).mesh;
         |m.indices| == 2 && NodesOf(m.assignments, m.indices[1]) == []
  {
    var none: Option<nat> := None;
    var values := [p, p];
    DuplicateAt(values, 0, 0);
    DuplicateAt(values, 0, 1);
    IndexOfIsFirst(values, p, 0, 0);
    DuplicatesAreValid(values);
    var g := Geometry(Some(0), none, none, 1, Source(values, DuplicatesOf(values, 0)), Source([], map[]),
      Source([], map[]), false, Some(Skin(v => v, [[], [node]])));
    var corners := [[0], [1]];
    ReexpandsCorners(g, corners);
    var m := AddedAll(g, corners).mesh;
    assert CornerShown(g, m, m.indices[1], corners[1]);
  }

  /** The normals and the texture coordinates of the corners, and nothing else. */
  ghost predicate IsPositionless(g: Geometry, m: Buffers, corners: seq<seq<nat>>)
    requires ValidCorners(g, corners)
  {
    && m.vertices == [] && m.indices == [] && m.assignments == []
    && |m.normals| == (if g.normal.Some? then |corners| else 0)
    && |m.texcoords| == (if g.texcoord.Some? then |corners| else 0)
    && (forall i :: 0 <= i < |m.normals| ==> m.normals[i] == g.norms.values[corners[i][g.normal.value]])
    && (forall i :: 0 <= i < |m.texcoords| ==> m.texcoords[i] == g.texs.values[corners[i][g.texcoord.value]])
  }

  lemma PositionlessNext(g: Geometry, b: Build, front: seq<seq<nat>>, corner: seq<nat>)
    requires ValidGeometry(g) && g.vertex.None? && ValidCorners(g, front) && ValidCorner(g, corner)
    requires IsPositionless(g, b.mesh, front)
    ensures ValidCorners(g, front + [corner]) && IsPositionless(g, AddedCorner(b, g, corner).mesh, front + [corner])
  {
    MergedIndexes(g, corner);
    if g.normal.Some? { MergedKeepsValue(g.norms, g.normal, corner); }
    if g.texcoord.Some? { MergedKeepsValue(g.texs, g.texcoord, corner); }
  }

  /** Without a VERTEX input there is no vertex and no index, and each corner adds its own normal
      and texture coordinate. */
  lemma {:induction false} WithoutPositions(g: Geometry, corners: seq<seq<nat>>)
    requires ValidGeometry(g) && ValidCorners(g, corners) && g.vertex.None?
    ensures IsPositionless(g, AddedAll(g, corners).mesh, corners)
  {
    if corners != [] {
      var front, corner := corners[..|corners| - 1], corners[|corners| - 1];
      WithoutPositions(g, front);
      PositionlessNext(g, AddedAll(g, front), front, corner);
      assert front + [corner] == corners;
    }
  }

  // ----- polygons -----

  /** 3 * sum(max(0, vcount - 2)). */
  function FanSize(vcounts: seq<nat>): nat {
    if vcounts == [] then 0
    else
      var last := vcounts[|vcounts| - 1];
      FanSize(vcounts[..|vcounts| - 1]) + if last < 2 then 0 else 3 * (last - 2)
  }

  lemma {:induction false} FanHas(strs: seq<nat>, size: nat, base: nat, n: nat)
    ensures |Fan(strs, size, base, n)| == if n < 2 then 0 else 3 * (n - 2)
  {
    if n > 2 {
      FanHas(strs, size, base, n - 1);
    }
  }

  lemma {:induction false} PolygonCornersCount(strs: seq<nat>, size: nat, vcounts: seq<nat>)
    ensures |PolygonCorners(strs, size, vcounts)| == FanSize(vcounts)
  {
    if vcounts != [] {
      PolygonCornersCount(strs, size, vcounts[..|vcounts| - 1]);
      FanHas(strs, size, Total(vcounts[..|vcounts| - 1]), vcounts[|vcounts| - 1]);
    }
  }

  lemma {:induction false} FanValid(g: Geometry, strs: seq<nat>, base: nat, n: nat)
    requires n > 2 ==> ValidStream(g, strs, base, base + n)
    ensures ValidCorners(g, Fan(strs, g.size, base, n))
  {
    if n > 2 {
      FanValid(g, strs, base, n - 1);
      assert ValidCornerAt(g, strs, base) && ValidCornerAt(g, strs, base + n - 2)
        && ValidCornerAt(g, strs, base + n - 1);
      hide ValidStream, ValidCorner, Start, CornerAt;
    }
  }

  lemma {:induction false} PolygonsValid(g: Geometry, strs: seq<nat>, vcounts: seq<nat>)
    requires ValidPolygons(g, strs, vcounts)
    ensures ValidCorners(g, PolygonCorners(strs, g.size, vcounts))
  {
    if vcounts != [] {
      PolygonsValid(g, strs, vcounts[..|vcounts| - 1]);
      FanValid(g, strs, Total(vcounts[..|vcounts| - 1]), vcounts[|vcounts| - 1]);
    }
  }

  /** The buffers LoadPolylist builds: the index buffer has 3 * sum(max(0, vcount - 2)) entries and
      re-expands to the fans of the polygons. */
  lemma PolylistMeaning(g: Geometry, strs: seq<nat>, vcounts: seq<nat>)
    requires ValidGeometry(g) && g.vertex.Some? && ValidPolygons(g, strs, vcounts)
    ensures var corners := PolygonCorners(strs, g.size, vcounts);
      ValidCorners(g, corners) &&
      var m := AddedAll(g, corners).mesh;
      && |m.indices| == FanSize(vcounts) && AllShown(g, m, corners) && Lengths(g, m) && Used(m)
  {
    PolygonsValid(g, strs, vcounts);
    PolygonCornersCount(strs, g.size, vcounts);
    ReexpandsCorners(g, PolygonCorners(strs, g.size, vcounts));
  }

  lemma ThreeCorners(strs: seq<nat>, size: nat, base: nat)
    ensures Corners(strs, size, base + 3) == Corners(strs, size, base) + Fan(strs, size, base, 3)
  {
    assert Corners(strs, size, base + 1) == Corners(strs, size, base) + [CornerAt(strs, size, base)];
    assert Corners(strs, size, base + 2) == Corners(strs, size, base + 1) + [CornerAt(strs, size, base + 1)];
    assert Corners(strs, size, base + 3) == Corners(strs, size, base + 2) + [CornerAt(strs, size, base + 2)];
    assert Fan(strs, size, base, 2) == [];
    OneByOne(Corners(strs, size, base), CornerAt(strs, size, base), CornerAt(strs, size, base + 1),
      CornerAt(strs, size, base + 2));
  }

  lemma OneByOne(cs: seq<seq<nat>>, a: seq<nat>, b: seq<nat>, c: seq<nat>)
    ensures cs + [a] + [b] + [c] == cs + ([] + [a, b, c])
  {
  }

  lemma {:induction false} AllThrees(strs: seq<nat>, size: nat, vcounts: seq<nat>)
    requires forall l :: 0 <= l < |vcounts| ==> vcounts[l] == 3
    ensures PolygonCorners(strs, size, vcounts) == Corners(strs, size, Total(vcounts))
  {
    if vcounts != [] {
      var front := vcounts[..|vcounts| - 1];
      AllThrees(strs, size, front);
      ThreeCorners(strs, size, Total(front));
    }
  }

  // ----- the bind shape transform -----

  /** The same buffers with other positions. */
  function Moved(m: Buffers, bind: Vec3 -> Vec3): Buffers {
    m.(vertices := seq(|m.vertices|, i requires 0 <= i < |m.vertices| => bind(m.vertices[i])))
  }

  lemma MovedNext(g: Geometry, m: Buffers, v: nat)
    requires g.skin.Some? && v < |g.verts.values| && (g.combined ==> v < |g.norms.values|)
    ensures WithVertex(Moved(m, g.skin.value.bind), g, v)
      == Moved(WithVertex(m, Unbound(g), v), g.skin.value.bind)
  {
  }

  lemma MovedCorner(g: Geometry, b: Build, vertex: Option<nat>, normal: Option<nat>, texcoord: Option<nat>)
    requires g.skin.Some? && Indexes(g, vertex, normal, texcoord)
    ensures var bind := g.skin.value.bind;
      var a := Added(b, Unbound(g), vertex, normal, texcoord);
      Added(b.(mesh := Moved(b.mesh, bind)), g, vertex, normal, texcoord) == a.(mesh := Moved(a.mesh, bind))
  {
    if vertex.Some? {
      MovedNext(g, b.mesh, vertex.value);
    }
  }

  lemma {:induction false} BindMovesVertices(g: Geometry, corners: seq<seq<nat>>)
    requires g.skin.Some? && ValidGeometry(g) && ValidCorners(g, corners)
    ensures ValidGeometry(Unbound(g)) && ValidCorners(Unbound(g), corners)
    ensures var a := AddedAll(Unbound(g), corners);
      AddedAll(g, corners) == a.(mesh := Moved(a.mesh, g.skin.value.bind))
  {
    if corners != [] {
      var front, corner := corners[..|corners| - 1], corners[|corners| - 1];
      BindMovesVertices(g, front);
      MergedIndexes(g, corner);
      assert ValidCorner(Unbound(g), corner);
      MovedCorner(g, AddedAll(Unbound(g), front), Merged(g.verts, g.vertex, corner),
        Merged(g.norms, g.normal, corner), Merged(g.texs, g.texcoord, corner));
    }
  }

  /** On a polygon list of triangles LoadPolylist builds what LoadTriangles builds, moved by the bind
      shape transform if there is a skeleton. */
  lemma TrianglesAreThreeSidedPolygons(g: Geometry, strs: seq<nat>, vcounts: seq<nat>)
    requires ValidGeometry(g) && ValidPolygons(g, strs, vcounts)
    requires forall l :: 0 <= l < |vcounts| ==> vcounts[l] == 3
    ensures var polygons, triangles := PolygonCorners(strs, g.size, vcounts), Corners(strs, g.size, Total(vcounts));
      && ValidCorners(g, polygons) && ValidGeometry(Unbound(g)) && ValidCorners(Unbound(g), triangles)
      && var m := AddedAll(Unbound(g), triangles).mesh;
         AddedAll(g, polygons).mesh == if g.skin.Some? then Moved(m, g.skin.value.bind) else m
  {
    PolygonsValid(g, strs, vcounts);
    AllThrees(strs, g.size, vcounts);
    if g.skin.Some? {
      BindMovesVertices(g, PolygonCorners(strs, g.size, vcounts));
    }
  }

  /** The bind shape transform leaves the position of every corner where it is. */
  ghost predicate FixesPositions(g: Geometry, corners: seq<seq<nat>>)
    requires ValidCorners(g, corners) && g.vertex.Some?
  {
    forall i :: 0 <= i < |corners| ==>
      var v := g.verts.values[corners[i][g.vertex.value]]; Bound(g, v) == v
  }

  lemma PositionShown(g: Geometry, m: Buffers, corners: seq<seq<nat>>, i: nat)
    requires ValidCorners(g, corners) && g.vertex.Some? && AllShown(g, m, corners) && i < |corners|
    ensures m.indices[i] < |m.vertices|
    ensures m.vertices[m.indices[i]] == Bound(g, g.verts.values[corners[i][g.vertex.value]])
  {
    assert CornerShown(g, m, m.indices[i], corners[i]);
  }

  lemma FixedIfEqual(g: Geometry, m: Buffers, corners: seq<seq<nat>>)
    requires ValidCorners(g, corners) && ValidCorners(Unbound(g), corners) && g.vertex.Some?
    requires AllShown(g, m, corners) && AllShown(Unbound(g), m, corners)
    ensures FixesPositions(g, corners)
  {
    forall i | 0 <= i < |corners|
      ensures var v := g.verts.values[corners[i][g.vertex.value]]; Bound(g, v) == v
    {
      PositionShown(g, m, corners, i);
      PositionShown(Unbound(g), m, corners, i);
    }
  }

  lemma EqualIfFixed(g: Geometry, n: Buffers, corners: seq<seq<nat>>)
    requires ValidCorners(g, corners) && ValidCorners(Unbound(g), corners) && g.vertex.Some? && g.skin.Some?
    requires AllShown(Unbound(g), n, corners) && Used(n) && FixesPositions(g, corners)
    ensures Moved(n, g.skin.value.bind) == n
  {
    forall j | 0 <= j < |n.vertices|
      ensures g.skin.value.bind(n.vertices[j]) == n.vertices[j]
    {
      assert j in n.indices;
      var i :| 0 <= i < |n.indices| && n.indices[i] == j;
      PositionShown(Unbound(g), n, corners, i);
    }
    assert Moved(n, g.skin.value.bind).vertices == n.vertices;
  }

  /** Behind the same corners the two loaders leave the same buffers exactly when the transform they
      differ in moves none of the positions. */
  lemma LoadersAgreeIffFixed(g: Geometry, corners: seq<seq<nat>>)
    requires ValidGeometry(g) && ValidCorners(g, corners) && g.vertex.Some? && g.skin.Some?
    ensures ValidGeometry(Unbound(g)) && ValidCorners(Unbound(g), corners)
    ensures AddedAll(g, corners).mesh == AddedAll(Unbound(g), corners).mesh <==> FixesPositions(g, corners)
  {
    BindMovesVertices(g, corners);
    ReexpandsCorners(g, corners);
    ReexpandsCorners(Unbound(g), corners);
    var m, n := AddedAll(g, corners).mesh, AddedAll(Unbound(g), corners).mesh;
    if m == n {
      FixedIfEqual(g, m, corners);
    }
    if FixesPositions(g, corners) {
      EqualIfFixed(g, n, corners);
    }
  }

  // ----- what a fan is -----

  /** Triangle k - 2 of a fan: corners 0, k - 1 and k of the polygon, in this order. */
  lemma {:induction false} FanCorners(strs: seq<nat>, size: nat, base: nat, n: nat, k: nat)
    requires 2 <= k < n
    ensures var fan, at := Fan(strs, size, base, n), 3 * (k - 2);
      && |fan| == 3 * (n - 2) && fan[at] == CornerAt(strs, size, base)
      && fan[at + 1] == CornerAt(strs, size, base + k - 1) && fan[at + 2] == CornerAt(strs, size, base + k)
    decreases n
  {
    hide CornerAt;
    if n > 3 {
      FanCorners(strs, size, base, n - 1, if k < n - 1 then k else n - 2);
    } else {
      assert Fan(strs, size, base, 2) == [];
    }
  }

  type Edge = (nat, nat)

  /** The directed edges of the triangles of a fan over n corners. */
  function FanEdges(n: nat): multiset<Edge> {
    if n <= 2 then multiset{}
    else
      var (a, b, c) := (Anchored(0, n - 1), Anchored(1, n - 1), Anchored(2, n - 1));
      FanEdges(n - 1) + multiset{(a, b), (b, c), (c, a)}
  }

  /** The edges 0 -> 1 -> ... -> n - 1. */
  function Path(n: nat): multiset<Edge> {
    if n <= 1 then multiset{} else Path(n - 1) + multiset{(n - 2, n - 1)}
  }

  /** Each diagonal from corner 0, in both directions. */
  function Diagonals(n: nat): multiset<Edge> {
    if n <= 3 then multiset{} else Diagonals(n - 1) + multiset{(0, n - 2), (n - 2, 0)}
  }

  lemma FanEdgesNext(n: nat)
    requires n > 2
    ensures FanEdges(n) == FanEdges(n - 1) + multiset{(0, n - 2), (n - 2, n - 1), (n - 1, 0)}
  {
  }

  lemma OutlineNext(n: nat)
    requires n > 3
    ensures Path(n) == Path(n - 1) + multiset{(n - 2, n - 1)}
    ensures Diagonals(n) == Diagonals(n - 1) + multiset{(0, n - 2), (n - 2, 0)}
  {
  }

  /** One triangle more: the closing edge becomes a diagonal. */
  lemma OutlineGrows(path: multiset<Edge>, diagonals: multiset<Edge>, closing: Edge, to: Edge, side: Edge, back: Edge)
    ensures path + multiset{closing} + diagonals + multiset{to, side, back}
      == path + multiset{side} + multiset{back} + (diagonals + multiset{to, closing})
  {
  }

  /** A fan covers its polygon: its edges are those of the polygon, each once and the same way round,
      and the diagonals, each once in either direction. */
  lemma {:induction false} FanKeepsOutline(n: nat)
    requires n >= 3
    ensures FanEdges(n) == Path(n) + multiset{(n - 1, 0)} + Diagonals(n)
  {
    if n > 3 {
      hide FanEdges, Path, Diagonals;
      FanKeepsOutline(n - 1);
      FanEdgesNext(n);
      OutlineNext(n);
      OutlineGrows(Path(n - 1), Diagonals(n - 1), (n - 2, 0), (0, n - 2), (n - 2, n - 1), (n - 1, 0));
    } else {
      FanOfThree();
    }
  }

  lemma FanOfThree()
    ensures FanEdges(3) == Path(3) + multiset{(2, 0)} + Diagonals(3)
  {
    FanEdgesNext(3);
    assert FanEdges(2) == multiset{};
    assert Path(3) == multiset{(0, 1), (1, 2)};
  }
}
