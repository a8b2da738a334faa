/**
  COLLADA re-indexing, after graphics/src/ColladaLoader.cc: three index streams (position, normal,
  texture coordinate) become one index buffer over parallel arrays. Equal values are merged
  through duplicate maps, polygons are cut into triangle fans on the way.
*/
module Collada {
  import opened Common

  // ----- duplicate maps -----

  /** The first index from j on that holds v, or the length. */
  function IndexOf<T(==)>(values: seq<T>, v: T, j: nat): (r: nat)
    ensures j <= |values| ==> j <= r <= |values|
    ensures r < |values| ==> values[r] == v
    decreases |values| - j
  {
    if j >= |values| then |values| else if values[j] == v then j else IndexOf(values, v, j + 1)
  }

  /** Each index from from on whose value was there before, with the index it was first at. */
  function DuplicatesOf<T(==)>(values: seq<T>, from: nat): map<nat, nat> {
    if |values| <= from then map[]
    else
      var front, last := values[..|values| - 1], values[|values| - 1];
      var first := IndexOf(front, last, from);
      if first < |front| then DuplicatesOf(front, from)[|front| := first] else DuplicatesOf(front, from)
  }

  function Placed<T>(read: seq<T>, place: T -> T): seq<T> {
    if read == [] then [] else Placed(read[..|read| - 1], place) + [place(read[|read| - 1])]
  }

  lemma {:induction false} IndexOfGrows<T>(values: seq<T>, u: T, v: T, j: nat)
    requires j <= |values|
    ensures var r := IndexOf(values, u, j);
      IndexOf(values + [v], u, j) == if r < |values| then r else if u == v then |values| else |values| + 1
    decreases |values| - j
  {
    if j < |values| && values[j] != u {
      IndexOfGrows(values, u, v, j + 1);
    }
  }

  lemma DuplicatesGrow<T>(values: seq<T>, v: T, from: nat)
    requires from <= |values|
    ensures var first := IndexOf(values, v, from);
      DuplicatesOf(values + [v], from) ==
        if first < |values| then DuplicatesOf(values, from)[|values| := first] else DuplicatesOf(values, from)
  {
    assert (values + [v])[..|values|] == values;
  }

  lemma {:induction false} IndexOfIsFirst<T>(values: seq<T>, v: T, j: nat, k: nat)
    requires j <= k < |values| && values[k] == v
    ensures IndexOf(values, v, j) <= k
    decreases k - j
  {
    if values[j] != v {
      IndexOfIsFirst(values, v, j + 1, k);
    }
  }

  lemma {:induction false} DuplicateAt<T>(values: seq<T>, from: nat, k: nat)
    ensures var d := DuplicatesOf(values, from);
      && (k in d <==> from <= k < |values| && IndexOf(values, values[k], from) < k)
      && (k in d ==> d[k] == IndexOf(values, values[k], from))
  {
    if |values| > from {
      var n := |values| - 1;
      var front, last := values[..n], values[n];
      assert front + [last] == values;
      DuplicateAt(front, from, k);
      IndexOfGrows(front, last, last, from);
      if from <= k < n {
        IndexOfGrows(front, values[k], last, from);
        IndexOfIsFirst(front, front[k], from, k);
      }
    }
  }

  /** The table of the values seen so far, each with the index it was first seen at. */
  ghost predicate IsTable<T(!new)>(unique: map<T, nat>, values: seq<T>, from: nat) {
    forall v :: if v in unique then unique[v] == IndexOf(values, v, from) < |values|
      else IndexOf(values, v, from) >= |values|
  }

  lemma TableGrows<T(!new)>(unique: map<T, nat>, values: seq<T>, v: T, from: nat)
    requires from <= |values| && IsTable(unique, values, from)
    ensures IsTable(if v in unique then unique else unique[v := |values|], values + [v], from)
  {
    var grown := if v in unique then unique else unique[v := |values|];
    forall u
      ensures if u in grown then grown[u] == IndexOf(values + [v], u, from) <= |values|
        else IndexOf(values + [v], u, from) > |values|
    {
      IndexOfGrows(values, u, v, from);
    }
  }

  lemma MergedUpdate(a: map<nat, nat>, b: map<nat, nat>, k: nat, v: nat)
    ensures (a + b)[k := v] == a + b[k := v]
  {
  }

  /** The loop of LoadPositions, LoadNormals and LoadTexCoords: place is what each of them does to a
      value it has read (transform, rotate and normalise, flip). */
  method LoadSource<T(==,!new)>(read: seq<T>, place: T -> T, values0: seq<T>, duplicates0: map<nat, nat>)
    returns (values: seq<T>, duplicates: map<nat, nat>)
    ensures values == values0 + Placed(read, place)
    ensures duplicates == duplicates0 + DuplicatesOf(values, |values0|)
  {
    values, duplicates := values0, duplicates0;
    var unique: map<T, nat> := map[];
    var i := 0;
    while i < |read|
      invariant 0 <= i <= |read|
      invariant values == values0 + Placed(read[..i], place)
      invariant duplicates == duplicates0 + DuplicatesOf(values, |values0|)
      invariant IsTable(unique, values, |values0|)
    {
      var vec := place(read[i]);
      PlacedGrows(values0, read, place, i);
      DuplicatesGrow(values, vec, |values0|);
      TableGrows(unique, values, vec, |values0|);
      MergedUpdate(duplicates0, DuplicatesOf(values, |values0|), |values|, IndexOf(values, vec, |values0|));
      values := values + [vec];
      if vec in unique {
        duplicates := duplicates[|values| - 1 := unique[vec]];
      } else {
        unique := unique[vec := |values| - 1];
      }
      i := i + 1;
    }
    assert read[..i] == read;
  }

  lemma PlacedGrows<T>(values0: seq<T>, read: seq<T>, place: T -> T, i: nat)
    requires i < |read|
    ensures values0 + Placed(read[..i + 1], place) == values0 + Placed(read[..i], place) + [place(read[i])]
  {
    assert read[..i + 1][..i] == read[..i];
  }

  function Remap(duplicates: map<nat, nat>, k: nat): nat {
    if k in duplicates then duplicates[k] else k
  }

  /** The duplicate map sends two indices to the same one exactly when their values are equal, and
      what it sends an index to holds the value of that index and is sent to itself. */
  lemma RemapMergesEqualValues<T>(values: seq<T>, j: nat, k: nat)
    requires j < |values| && k < |values|
    ensures var d := DuplicatesOf(values, 0);
      && Remap(d, k) <= k && values[Remap(d, k)] == values[k] && Remap(d, Remap(d, k)) == Remap(d, k)
      && (Remap(d, j) == Remap(d, k) <==> values[j] == values[k])
  {
    IndexOfIsFirst(values, values[k], 0, k);
    IndexOfIsFirst(values, values[j], 0, j);
    DuplicateAt(values, 0, j);
    DuplicateAt(values, 0, k);
    DuplicateAt(values, 0, IndexOf(values, values[k], 0));
  }

  // ----- the submesh -----

  /** A vertex hangs on a skeleton node, given by its handle, with a weight. */
  datatype NodeAssignment = NodeAssignment(vertex: nat, node: nat, weight: real)

  datatype Buffers = Buffers(vertices: seq<Vec3>, normals: seq<Vec3>, texcoords: seq<Vec2>, indices: seq<nat>,
                             assignments: seq<NodeAssignment>)

  const EMPTY := Buffers([], [], [], [], [])

  class SubMesh {
    var vertices: seq<Vec3>
    var normals: seq<Vec3>
    var texcoords: seq<Vec2>
    var indices: seq<nat>
    var assignments: seq<NodeAssignment>

    function State(): Buffers
      reads this
    {
      Buffers(vertices, normals, texcoords, indices, assignments)
    }

    constructor ()
      ensures State() == EMPTY
    {
      vertices, normals, texcoords, indices, assignments := [], [], [], [], [];
    }

    method AddVertex(v: Vec3)
      modifies this
      ensures State() == old(State()).(vertices := old(vertices) + [v])
    {
      vertices := vertices + [v];
    }

    /** An index that is too large is reported and changes nothing. */
    method SetVertex(i: nat, v: Vec3)
      modifies this
      ensures State() == old(State()).(vertices := if i < |old(vertices)| then old(vertices)[i := v] else old(vertices))
    {
      if i < |vertices| {
        vertices := vertices[i := v];
      }
    }

    method AddNodeAssignment(vertex: nat, node: nat, weight: real)
      modifies this
      ensures State() == old(State()).(assignments := old(assignments) + [NodeAssignment(vertex, node, weight)])
    {
      assignments := assignments + [NodeAssignment(vertex, node, weight)];
    }

    method AddNormal(n: Vec3)
      modifies this
      ensures State() == old(State()).(normals := old(normals) + [n])
    {
      normals := normals + [n];
    }

    method AddTexCoord(t: Vec2)
      modifies this
      ensures State() == old(State()).(texcoords := old(texcoords) + [t])
    {
      texcoords := texcoords + [t];
    }

    method AddIndex(i: nat)
      modifies this
      ensures State() == old(State()).(indices := old(indices) + [i])
    {
      indices := indices + [i];
    }
  }

  // ----- one corner -----

  datatype Source<T> = Source(values: seq<T>, duplicates: map<nat, nat>)

  /** The skeleton of a mesh: the bind shape transform, and for each position the handles and the
      weights of its nodes. */
  datatype Skin = Skin(bind: Vec3 -> Vec3, weights: seq<seq<(nat, real)>>)

  /** What the <input> elements of a primitive give: for each semantic the position of its index in
      a corner, the number of indices in a corner, and the three sources. combined says that the
      normals came with the positions, in <vertices>. The mesh may have a skeleton. */
  datatype Geometry = Geometry(vertex: Option<nat>, normal: Option<nat>, texcoord: Option<nat>, size: nat,
                               verts: Source<Vec3>, norms: Source<Vec3>, texs: Source<Vec2>, combined: bool,
                               skin: Option<Skin>)

  /** Where a position is placed. */
  function Bound(g: Geometry, v: Vec3): Vec3 {
    if g.skin.Some? then g.skin.value.bind(v) else v
  }

  /** The geometry as LoadTriangles takes it, which leaves the bind shape transform out. */
  function Unbound(g: Geometry): Geometry {
    if g.skin.Some? then g.(skin := Some(Skin(v => v, g.skin.value.weights))) else g
  }

  /** The nodes of a position; there are none behind the end of the table. */
  function WeightsOf(g: Geometry, v: nat): seq<(nat, real)> {
    if g.skin.Some? && v < |g.skin.value.weights| then g.skin.value.weights[v] else []
  }

  function Assigned(vertex: nat, weights: seq<(nat, real)>): seq<NodeAssignment> {
    if weights == [] then []
    else
      var last := weights[|weights| - 1];
      Assigned(vertex, weights[..|weights| - 1]) + [NodeAssignment(vertex, last.0, last.1)]
  }

  datatype GeometryIndices = GeometryIndices(vertexIndex: nat, normalIndex: nat, texcoordIndex: nat, mappedIndex: nat)

  /** Each index in the duplicate map, and what it is sent to, holds the same value. */
  ghost predicate ValidSource<T>(s: Source<T>) {
    forall k :: k in s.duplicates ==>
      k < |s.values| && s.duplicates[k] < |s.values| && s.values[s.duplicates[k]] == s.values[k]
  }

  ghost predicate ValidGeometry(g: Geometry) {
    && (g.vertex.Some? ==> g.vertex.value < g.size)
    && (g.normal.Some? ==> g.normal.value < g.size)
    && (g.texcoord.Some? ==> g.texcoord.value < g.size)
    && ValidSource(g.verts) && ValidSource(g.norms) && ValidSource(g.texs)
    && (g.combined ==> |g.norms.values| >= |g.verts.values|)
  }

  lemma DuplicatesAreValid<T>(values: seq<T>)
    ensures ValidSource(Source(values, DuplicatesOf(values, 0)))
  {
    forall k: nat
      ensures var d := DuplicatesOf(values, 0);
        k in d ==> k < |values| && d[k] < |values| && values[d[k]] == values[k]
    {
      DuplicateAt(values, 0, k);
    }
  }

  /** The sources of one kind that were read before, by id. */
  class SourceCache<T(==,!new)> {
    var sources: map<string, Source<T>>

    ghost predicate Valid()
      reads this
    {
      forall id :: id in sources ==> ValidSource(sources[id])
    }

    constructor ()
      ensures Valid() && sources == map[]
    {
      sources := map[];
    }

    /** LoadPositions, LoadNormals and LoadTexCoords: a cached source replaces what there was, one
        that cannot be found or read changes nothing, another one is appended and cached. */
    method Load(id: string, read: Option<seq<T>>, place: T -> T, before: Source<T>) returns (after: Source<T>)
      requires Valid() && ValidSource(before)
      modifies this
      ensures Valid() && ValidSource(after)
      ensures id in old(sources) ==> after == old(sources[id]) && sources == old(sources)
      ensures id !in old(sources) && read.None? ==> after == before && sources == old(sources)
      ensures id !in old(sources) && read.Some? ==>
        && after.values == before.values + Placed(read.value, place)
        && after.duplicates == before.duplicates + DuplicatesOf(after.values, |before.values|)
        && sources == old(sources)[id := after]
    {
      if id in sources {
        return sources[id];
      }
      if read.None? {
        return before;
      }
      var values, duplicates := LoadSource(read.value, place, before.values, before.duplicates);
      LoadedSourceIsValid(before, Placed(read.value, place));
      after := Source(values, duplicates);
      sources := sources[id := after];
    }
  }

  predicate InRange<T>(s: Source<T>, offset: Option<nat>, corner: seq<nat>) {
    offset.Some? ==> offset.value < |corner| && corner[offset.value] < |s.values|
  }

  predicate ValidCorner(g: Geometry, corner: seq<nat>) {
    |corner| == g.size && InRange(g.verts, g.vertex, corner) && InRange(g.norms, g.normal, corner)
      && InRange(g.texs, g.texcoord, corner)
  }

  /** The merged index of a corner in one of the sources. */
  function Merged<T>(s: Source<T>, offset: Option<nat>, corner: seq<nat>): Option<nat>
    requires InRange(s, offset, corner)
  {
    if offset.Some? then Some(Remap(s.duplicates, corner[offset.value])) else None
  }

  /** What a merged index stands for is the value the corner named. */
  lemma MergedKeepsValue<T>(s: Source<T>, offset: Option<nat>, corner: seq<nat>)
    requires ValidSource(s) && InRange(s, offset, corner) && offset.Some?
    ensures var m := Merged(s, offset, corner).value;
      m < |s.values| && s.values[m] == s.values[corner[offset.value]]
  {
  }

  /** Reading a source into a valid one, empty or not, leaves a valid one. */
  lemma LoadedSourceIsValid<T>(before: Source<T>, read: seq<T>)
    requires ValidSource(before)
    ensures var values := before.values + read;
      ValidSource(Source(values, before.duplicates + DuplicatesOf(values, |before.values|)))
  {
    var values := before.values + read;
    forall k: nat
      ensures var d := DuplicatesOf(values, |before.values|);
        k in d ==> k < |values| && d[k] < |values| && values[d[k]] == values[k]
    {
      DuplicateAt(values, |before.values|, k);
    }
  }

  predicate Matches(iv: GeometryIndices, normal: Option<nat>, texcoord: Option<nat>) {
    (normal.Some? ==> iv.normalIndex == normal.value) && (texcoord.Some? ==> iv.texcoordIndex == texcoord.value)
  }

  /** The first record that can be shared, or the length. */
  function SharedAt(records: seq<GeometryIndices>, normal: Option<nat>, texcoord: Option<nat>, i: nat): (r: nat)
    ensures r < |records| ==> Matches(records[r], normal, texcoord)
    decreases |records| - i
  {
    if i >= |records| then |records|
    else if Matches(records[i], normal, texcoord) then i
    else SharedAt(records, normal, texcoord, i + 1)
  }

  function OrZero(n: Option<nat>): nat {
    if n.Some? then n.value else 0
  }

  datatype Build = Build(mesh: Buffers, vertexIndexMap: map<nat, seq<GeometryIndices>>)

  function WithVertex(m: Buffers, g: Geometry, v: nat): Buffers
    requires v < |g.verts.values| && (g.combined ==> v < |g.norms.values|)
  {
    Buffers(m.vertices + [Bound(g, g.verts.values[v])],
      if g.combined then m.normals + [g.norms.values[v]] else m.normals, m.texcoords, m.indices + [|m.vertices|],
      m.assignments + Assigned(|m.vertices|, WeightsOf(g, v)))
  }

  function WithNormal(m: Buffers, g: Geometry, normal: Option<nat>): Buffers
    requires normal.Some? ==> normal.value < |g.norms.values|
  {
    if normal.Some? then m.(normals := m.normals + [g.norms.values[normal.value]]) else m
  }

  function WithTexcoord(m: Buffers, g: Geometry, texcoord: Option<nat>): Buffers
    requires texcoord.Some? ==> texcoord.value < |g.texs.values|
  {
    if texcoord.Some? then m.(texcoords := m.texcoords + [g.texs.values[texcoord.value]]) else m
  }

  predicate Indexes(g: Geometry, vertex: Option<nat>, normal: Option<nat>, texcoord: Option<nat>) {
    && (vertex.Some? ==> vertex.value < |g.verts.values| && (g.combined ==> vertex.value < |g.norms.values|))
    && (normal.Some? ==> normal.value < |g.norms.values|)
    && (texcoord.Some? ==> texcoord.value < |g.texs.values|)
  }

  function Records(b: Build, v: nat): seq<GeometryIndices> {
    if v in b.vertexIndexMap then b.vertexIndexMap[v] else []
  }

  /** A corner given by its merged indices: share a record of its position, or add a vertex. The
      list of a position is overwritten, so it only ever holds the latest record. */
  function Added(b: Build, g: Geometry, vertex: Option<nat>, normal: Option<nat>, texcoord: Option<nat>): Build
    requires Indexes(g, vertex, normal, texcoord)
  {
    if vertex.None? then b.(mesh := WithTexcoord(WithNormal(b.mesh, g, normal), g, texcoord))
    else
      var records := Records(b, vertex.value);
      var at := SharedAt(records, normal, texcoord, 0);
      if at < |records| then b.(mesh := b.mesh.(indices := b.mesh.indices + [records[at].mappedIndex]))
      else
        var m := WithVertex(b.mesh, g, vertex.value);
        Build(WithTexcoord(WithNormal(m, g, normal), g, texcoord),
          b.vertexIndexMap[vertex.value :=
            [GeometryIndices(vertex.value, OrZero(normal), OrZero(texcoord), |b.mesh.vertices|)]])
  }

  lemma MergedIndexes(g: Geometry, corner: seq<nat>)
    requires ValidGeometry(g) && ValidCorner(g, corner)
    ensures Indexes(g, Merged(g.verts, g.vertex, corner), Merged(g.norms, g.normal, corner),
      Merged(g.texs, g.texcoord, corner))
  {
    if g.vertex.Some? { MergedKeepsValue(g.verts, g.vertex, corner); }
    if g.normal.Some? { MergedKeepsValue(g.norms, g.normal, corner); }
    if g.texcoord.Some? { MergedKeepsValue(g.texs, g.texcoord, corner); }
  }

  ghost function AddedCorner(b: Build, g: Geometry, corner: seq<nat>): Build
    requires ValidGeometry(g) && ValidCorner(g, corner)
  {
    MergedIndexes(g, corner);
    Added(b, g, Merged(g.verts, g.vertex, corner), Merged(g.norms, g.normal, corner),
      Merged(g.texs, g.texcoord, corner))
  }

  method FindShared(records: seq<GeometryIndices>, normal: Option<nat>, texcoord: Option<nat>) returns (at: nat)
    ensures at == SharedAt(records, normal, texcoord, 0)
  {
    at := 0;
    while at < |records|
      invariant at <= |records|
      invariant SharedAt(records, normal, texcoord, 0) == SharedAt(records, normal, texcoord, at)
    {
      if Matches(records[at], normal, texcoord) {
        return;
      }
      at := at + 1;
    }
  }

  /** One assignment for each node of a position. */
  method AssignNodes(subMesh: SubMesh, vertex: nat, weights: seq<(nat, real)>)
    modifies subMesh
    ensures subMesh.State() ==
      old(subMesh.State()).(assignments := old(subMesh.assignments) + Assigned(vertex, weights))
  {
    ghost var before := subMesh.State();
    var i := 0;
    while i < |weights|
      invariant i <= |weights|
      invariant subMesh.State() == before.(assignments := before.assignments + Assigned(vertex, weights[..i]))
    {
      subMesh.AddNodeAssignment(vertex, weights[i].0, weights[i].1);
      assert weights[..i + 1][..i] == weights[..i];
      i := i + 1;
    }
    assert weights[..i] == weights;
  }

  /** A vertex of its own for position v. */
  method AddOwnVertex(subMesh: SubMesh, g: Geometry, v: nat)
    requires v < |g.verts.values| && (g.combined ==> v < |g.norms.values|)
    modifies subMesh
    ensures subMesh.State() == WithVertex(old(subMesh.State()), g, v)
  {
    subMesh.AddVertex(g.verts.values[v]);
    var newVertIndex := |subMesh.vertices| - 1;
    subMesh.AddIndex(newVertIndex);
    if g.combined {
      subMesh.AddNormal(g.norms.values[v]);
    }
    if g.skin.Some? {
      subMesh.SetVertex(newVertIndex, g.skin.value.bind(subMesh.vertices[newVertIndex]));
      AssignNodes(subMesh, |subMesh.vertices| - 1, WeightsOf(g, v));
    }
  }

  /** The body LoadPolylist and LoadTriangles share, but for the bind shape transform. */
  method AddCorner(subMesh: SubMesh, vertexIndexMap0: map<nat, seq<GeometryIndices>>, g: Geometry, values: seq<nat>)
    returns (vertexIndexMap: map<nat, seq<GeometryIndices>>)
    requires ValidGeometry(g) && ValidCorner(g, values)
    modifies subMesh
    ensures Build(subMesh.State(), vertexIndexMap)
      == AddedCorner(Build(old(subMesh.State()), vertexIndexMap0), g, values)
  {
    MergedIndexes(g, values);
    vertexIndexMap := vertexIndexMap0;
    var vertex := Merged(g.verts, g.vertex, values);
    var normal := Merged(g.norms, g.normal, values);
    var texcoord := Merged(g.texs, g.texcoord, values);
    if vertex.Some? {
      if vertex.value in vertexIndexMap {
        var inputValues := vertexIndexMap[vertex.value];
        var at := FindShared(inputValues, normal, texcoord);
        if at < |inputValues| {
          subMesh.AddIndex(inputValues[at].mappedIndex);
          return;
        }
      }
      var newVertIndex := |subMesh.vertices|;
      AddOwnVertex(subMesh, g, vertex.value);
      vertexIndexMap := vertexIndexMap[vertex.value :=
        [GeometryIndices(vertex.value, OrZero(normal), OrZero(texcoord), newVertIndex)]];
    }
    if normal.Some? {
      subMesh.AddNormal(g.norms.values[normal.value]);
    }
    if texcoord.Some? {
      subMesh.AddTexCoord(g.texs.values[texcoord.value]);
    }
  }

  // ----- the index stream -----

  /** c * size, where corner c begins. */
  function Start(c: nat, size: nat): nat {
    if c == 0 then 0 else Start(c - 1, size) + size
  }

  lemma {:induction false} StartAdds(a: nat, b: nat, size: nat)
    ensures Start(a + b, size) == Start(a, size) + Start(b, size)
  {
    if b > 0 {
      StartAdds(a, b - 1, size);
      assert a + b - 1 == a + (b - 1);
    }
  }

  function CornerAt(strs: seq<nat>, size: nat, c: nat): seq<nat> {
    var start := Start(c, size);
    if start + size <= |strs| then strs[start..start + size] else []
  }

  predicate ValidCornerAt(g: Geometry, strs: seq<nat>, c: nat) {
    Start(c, g.size) + g.size <= |strs| && ValidCorner(g, CornerAt(strs, g.size, c))
  }

  predicate ValidStream(g: Geometry, strs: seq<nat>, from: nat, to: nat) {
    forall c :: from <= c < to ==> ValidCornerAt(g, strs, c)
  }

  lemma {:induction false} StartIsProduct(c: nat, size: nat)
    ensures Start(c, size) == c * size
  {
    if c > 0 {
      StartIsProduct(c - 1, size);
    }
  }

  /** Corner c holds the numbers from c * size on. */
  lemma CornerNumbers(strs: seq<nat>, size: nat, c: nat, i: nat)
    requires c * size + size <= |strs| && i < size
    ensures |CornerAt(strs, size, c)| == size && CornerAt(strs, size, c)[i] == strs[c * size + i]
  {
    StartIsProduct(c, size);
  }

  /** Whether the index at an offset of a corner, if there is one, is that of a value. */
  predicate IsInside<T>(s: Source<T>, offset: Option<nat>, strs: seq<nat>, start: nat) {
    offset.Some? ==> start + offset.value < |strs| && strs[start + offset.value] < |s.values|
  }

  /** A corner is valid exactly when it is not cut off and its indices are those of values. */
  lemma ValidCornerIff(g: Geometry, strs: seq<nat>, c: nat)
    requires ValidGeometry(g)
    ensures ValidCornerAt(g, strs, c) <==>
      && c * g.size + g.size <= |strs|
      && IsInside(g.verts, g.vertex, strs, c * g.size) && IsInside(g.norms, g.normal, strs, c * g.size)
      && IsInside(g.texs, g.texcoord, strs, c * g.size)
  {
    StartIsProduct(c, g.size);
  }

  predicate ValidCorners(g: Geometry, corners: seq<seq<nat>>) {
    forall i :: 0 <= i < |corners| ==> ValidCorner(g, corners[i])
  }

  ghost function AddedAll(g: Geometry, corners: seq<seq<nat>>): Build
    requires ValidGeometry(g) && ValidCorners(g, corners)
  {
    if corners == [] then Build(EMPTY, map[])
    else AddedCorner(AddedAll(g, corners[..|corners| - 1]), g, corners[|corners| - 1])
  }

  /** The submesh and the map are what adding the corners one after the other gives. */
  ghost predicate HasAdded(mesh: Buffers, vertexIndexMap: map<nat, seq<GeometryIndices>>, g: Geometry,
      corners: seq<seq<nat>>)
  {
    ValidGeometry(g) && ValidCorners(g, corners) && Build(mesh, vertexIndexMap) == AddedAll(g, corners)
  }

  method ReadValues(strs: seq<nat>, start: nat, values: array<nat>)
    requires start + values.Length <= |strs|
    modifies values
    ensures values[..] == strs[start..start + values.Length]
  {
    var i := 0;
    while i < values.Length
      invariant i <= values.Length
      invariant values[..i] == strs[start..start + i]
    {
      values[i] := strs[start + i];
      i := i + 1;
    }
  }

  method ReadCorner(subMesh: SubMesh, vertexIndexMap0: map<nat, seq<GeometryIndices>>, g: Geometry, strs: seq<nat>,
                    start: nat, values: array<nat>, ghost c: nat, ghost corners: seq<seq<nat>>)
    returns (vertexIndexMap: map<nat, seq<GeometryIndices>>)
    requires HasAdded(subMesh.State(), vertexIndexMap0, g, corners)
    requires values.Length == g.size && start == Start(c, g.size) && ValidCornerAt(g, strs, c)
    modifies subMesh, values
    ensures HasAdded(subMesh.State(), vertexIndexMap, g, corners + [CornerAt(strs, g.size, c)])
  {
    hide Start, ValidGeometry, ValidCorner, AddedCorner;
    ReadValues(strs, start, values);
    vertexIndexMap := AddCorner(subMesh, vertexIndexMap0, g, values[..]);
    assert (corners + [CornerAt(strs, g.size, c)])[..|corners|] == corners;
  }

  // ----- LoadTriangles -----

  /** The corners of a triangle list. */
  function Corners(strs: seq<nat>, size: nat, n: nat): seq<seq<nat>> {
    if n == 0 then [] else Corners(strs, size, n - 1) + [CornerAt(strs, size, n - 1)]
  }

  lemma {:induction false} CornersValid(g: Geometry, strs: seq<nat>, n: nat)
    requires ValidStream(g, strs, 0, n)
    ensures |Corners(strs, g.size, n)| == n && ValidCorners(g, Corners(strs, g.size, n))
  {
    if n > 0 {
      CornersValid(g, strs, n - 1);
      assert ValidCornerAt(g, strs, n - 1);
    }
  }

  /** Unlike LoadPolylist it does not apply the bind shape transform of a skeleton. */
  method LoadTriangles(geometry: Geometry, strs: seq<nat>, ghost n: nat) returns (subMesh: SubMesh)
    requires ValidGeometry(geometry) && geometry.size > 0
    requires |strs| == Start(n, geometry.size) && ValidStream(geometry, strs, 0, n)
    ensures fresh(subMesh)
    ensures ValidCorners(Unbound(geometry), Corners(strs, geometry.size, n))
    ensures subMesh.State() == AddedAll(Unbound(geometry), Corners(strs, geometry.size, n)).mesh
  {
    hide ValidGeometry, ValidCorner, ValidCornerAt, Unbound, HasAdded, Corners, Start;
    var g := Unbound(geometry);
    UnboundIsValid(geometry, strs, n);
    NothingAdded(g, strs);
    subMesh := new SubMesh();
    var values := new nat[g.size];
    var vertexIndexMap: map<nat, seq<GeometryIndices>> := map[];
    var j := 0;
    ghost var c := 0;
    while j < |strs|
      invariant c <= n && j == Start(c, g.size) && fresh(subMesh) && fresh(values) && values.Length == g.size
      invariant HasAdded(subMesh.State(), vertexIndexMap, g, Corners(strs, g.size, c))
      decreases |strs| - j
    {
      BelowAll(c, n, g.size);
      vertexIndexMap := ReadCorner(subMesh, vertexIndexMap, g, strs, j, values, c, Corners(strs, g.size, c));
      CornersNext(strs, g.size, c);
      c := c + 1;
      j := j + g.size;
    }
    StartIsInjective(c, n, g.size);
    WhatWasAdded(subMesh.State(), vertexIndexMap, g, Corners(strs, g.size, n));
  }

  lemma NothingAdded(g: Geometry, strs: seq<nat>)
    requires ValidGeometry(g)
    ensures Start(0, g.size) == 0 && HasAdded(EMPTY, map[], g, Corners(strs, g.size, 0))
  {
  }

  lemma WhatWasAdded(mesh: Buffers, vertexIndexMap: map<nat, seq<GeometryIndices>>, g: Geometry,
      corners: seq<seq<nat>>)
    requires HasAdded(mesh, vertexIndexMap, g, corners)
    ensures ValidGeometry(g) && ValidCorners(g, corners) && mesh == AddedAll(g, corners).mesh
  {
  }

  lemma CornersNext(strs: seq<nat>, size: nat, c: nat)
    ensures Corners(strs, size, c + 1) == Corners(strs, size, c) + [CornerAt(strs, size, c)]
    ensures Start(c + 1, size) == Start(c, size) + size
  {
  }

  lemma BelowAll(c: nat, n: nat, size: nat)
    requires c <= n && size > 0 && Start(c, size) < Start(n, size)
    ensures c < n
  {
  }

  lemma UnboundIsValid(g: Geometry, strs: seq<nat>, n: nat)
    requires ValidGeometry(g) && ValidStream(g, strs, 0, n)
    ensures ValidGeometry(Unbound(g)) && ValidStream(Unbound(g), strs, 0, n) && Unbound(g).size == g.size
  {
    forall c | 0 <= c < n
      ensures ValidCornerAt(Unbound(g), strs, c)
    {
      assert ValidCornerAt(g, strs, c);
    }
  }

  lemma StartIsInjective(c: nat, n: nat, size: nat)
    requires c <= n && size > 0 && Start(c, size) >= Start(n, size)
    ensures c == n
  {
    StartAdds(c, n - c, size);
  }

  // ----- LoadPolylist -----

  function Total(vcounts: seq<nat>): nat {
    if vcounts == [] then 0 else Total(vcounts[..|vcounts| - 1]) + vcounts[|vcounts| - 1]
  }

  /** The corners of the polygons with at least three of them, the only ones that are read. */
  predicate ValidPolygons(g: Geometry, strs: seq<nat>, vcounts: seq<nat>) {
    if vcounts == [] then true
    else
      var front, last := vcounts[..|vcounts| - 1], vcounts[|vcounts| - 1];
      ValidPolygons(g, strs, front) && (last > 2 ==> ValidStream(g, strs, Total(front), Total(front) + last))
  }

  lemma {:induction false} ValidPolygon(g: Geometry, strs: seq<nat>, vcounts: seq<nat>, l: nat)
    requires ValidPolygons(g, strs, vcounts) && l < |vcounts|
    ensures vcounts[l] > 2 ==> ValidStream(g, strs, Total(vcounts[..l]), Total(vcounts[..l]) + vcounts[l])
  {
    if l < |vcounts| - 1 {
      ValidPolygon(g, strs, vcounts[..|vcounts| - 1], l);
      assert vcounts[..|vcounts| - 1][..l] == vcounts[..l];
    }
  }

  /** What is required of polygon l: nothing, unless it has three corners or more. */
  ghost predicate PolygonIsValid(g: Geometry, strs: seq<nat>, vcounts: seq<nat>, l: nat)
    requires l < |vcounts|
  {
    vcounts[l] >= 3 ==> ValidStream(g, strs, Total(vcounts[..l]), Total(vcounts[..l]) + vcounts[l])
  }

  lemma {:induction false} ValidPolygonsIff(g: Geometry, strs: seq<nat>, vcounts: seq<nat>)
    ensures ValidPolygons(g, strs, vcounts) <==>
      forall l :: 0 <= l < |vcounts| ==> PolygonIsValid(g, strs, vcounts, l)
  {
    if vcounts != [] {
      var n := |vcounts| - 1;
      var front := vcounts[..n];
      ValidPolygonsIff(g, strs, front);
      hide ValidStream;
      forall l | 0 <= l < n
        ensures PolygonIsValid(g, strs, front, l) == PolygonIsValid(g, strs, vcounts, l)
      {
        assert front[..l] == vcounts[..l];
      }
      assert PolygonIsValid(g, strs, vcounts, n) == (vcounts[n] > 2 ==>
        ValidStream(g, strs, Total(front), Total(front) + vcounts[n]));
      if forall l :: 0 <= l < n ==> PolygonIsValid(g, strs, vcounts, l) {
        assert forall l :: 0 <= l < n ==> PolygonIsValid(g, strs, front, l);
      }
    }
  }

  /** The j-th corner of the triangle that ends at corner k of the polygon. */
  function Anchored(j: nat, k: nat): nat
    requires k > 0
  {
    if j == 0 then 0 else if j == 1 then k - 1 else k
  }

  function Triangle(strs: seq<nat>, size: nat, base: nat, k: nat): seq<seq<nat>>
    requires k > 0
  {
    [CornerAt(strs, size, base + Anchored(0, k)), CornerAt(strs, size, base + Anchored(1, k)),
     CornerAt(strs, size, base + Anchored(2, k))]
  }

  /** The fan over the polygon of n corners that begins at corner base. */
  function Fan(strs: seq<nat>, size: nat, base: nat, n: nat): seq<seq<nat>> {
    if n <= 2 then []
    else Fan(strs, size, base, n - 1) + Triangle(strs, size, base, n - 1)
  }

  function PolygonCorners(strs: seq<nat>, size: nat, vcounts: seq<nat>): seq<seq<nat>> {
    if vcounts == [] then []
    else
      var front, last := vcounts[..|vcounts| - 1], vcounts[|vcounts| - 1];
      PolygonCorners(strs, size, front) + Fan(strs, size, Total(front), last)
  }

  lemma OneMore(cs: seq<seq<nat>>, t: seq<seq<nat>>, j: nat)
    requires j < |t|
    ensures cs + t[..j] + [t[j]] == cs + t[..j + 1]
  {
  }

  lemma CornerBegins(g: Geometry, strs: seq<nat>, base: nat, j: nat, k: nat)
    requires j < 3 && k > 0 && ValidStream(g, strs, base, base + k + 1)
    ensures var c := base + Anchored(j, k);
      && ValidCornerAt(g, strs, c) && Start(base, g.size) + Start(Anchored(j, k), g.size) == Start(c, g.size)
      && Triangle(strs, g.size, base, k)[j] == CornerAt(strs, g.size, c)
  {
    StartAdds(base, Anchored(j, k), g.size);
  }

  /** One triangle of a fan over the polygon that begins at strsIter. */
  method AddTriangle(subMesh: SubMesh, vertexIndexMap0: map<nat, seq<GeometryIndices>>, g: Geometry, strs: seq<nat>,
                     strsIter: nat, k: nat, values: array<nat>, ghost base: nat, ghost cs: seq<seq<nat>>)
    returns (vertexIndexMap: map<nat, seq<GeometryIndices>>)
    requires HasAdded(subMesh.State(), vertexIndexMap0, g, cs)
    requires values.Length == g.size && k >= 2 && strsIter == Start(base, g.size)
      && ValidStream(g, strs, base, base + k + 1)
    modifies subMesh, values
    ensures HasAdded(subMesh.State(), vertexIndexMap, g, cs + Triangle(strs, g.size, base, k))
  {
    vertexIndexMap := vertexIndexMap0;
    ghost var t := Triangle(strs, g.size, base, k);
    assert cs + t[..0] == cs;
    var j := 0;
    while j < 3
      invariant j <= 3
      invariant HasAdded(subMesh.State(), vertexIndexMap, g, cs + t[..j])
    {
      CornerBegins(g, strs, base, j, k);
      vertexIndexMap := ReadCorner(subMesh, vertexIndexMap, g, strs, strsIter + Start(Anchored(j, k), g.size), values,
        base + Anchored(j, k), cs + t[..j]);
      OneMore(cs, t, j);
      j := j + 1;
    }
    assert t[..j] == t;
  }

  method AddPolygon(subMesh: SubMesh, vertexIndexMap0: map<nat, seq<GeometryIndices>>, g: Geometry, strs: seq<nat>,
                    strsIter: nat, vcount: nat, values: array<nat>, ghost base: nat, ghost cs: seq<seq<nat>>)
    returns (vertexIndexMap: map<nat, seq<GeometryIndices>>)
    requires HasAdded(subMesh.State(), vertexIndexMap0, g, cs)
    requires values.Length == g.size && strsIter == Start(base, g.size)
      && (vcount > 2 ==> ValidStream(g, strs, base, base + vcount))
    modifies subMesh, values
    ensures HasAdded(subMesh.State(), vertexIndexMap, g, cs + Fan(strs, g.size, base, vcount))
  {
    hide HasAdded, Fan, ValidStream, Triangle, Start;
    vertexIndexMap := vertexIndexMap0;
    FanOfFew(strs, g.size, base, 2);
    FanOfFew(strs, g.size, base, vcount);
    assert cs + [] == cs;
    var k := 2;
    while k < vcount
      invariant 2 <= k && (k <= vcount || k == 2)
      invariant HasAdded(subMesh.State(), vertexIndexMap, g, cs + Fan(strs, g.size, base, k))
    {
      StreamInFront(g, strs, base, base + k + 1, base + vcount);
      FanNext(strs, g.size, base, k);
      vertexIndexMap := AddTriangle(subMesh, vertexIndexMap, g, strs, strsIter, k, values, base,
        cs + Fan(strs, g.size, base, k));
      Reassociate(cs, Fan(strs, g.size, base, k), Triangle(strs, g.size, base, k));
      k := k + 1;
    }
  }

  lemma FanOfFew(strs: seq<nat>, size: nat, base: nat, n: nat)
    ensures n <= 2 ==> Fan(strs, size, base, n) == []
  {
  }

  lemma FanNext(strs: seq<nat>, size: nat, base: nat, k: nat)
    requires k >= 2
    ensures Fan(strs, size, base, k + 1) == Fan(strs, size, base, k) + Triangle(strs, size, base, k)
  {
  }

  lemma StreamInFront(g: Geometry, strs: seq<nat>, from: nat, part: nat, to: nat)
    requires ValidStream(g, strs, from, to) && part <= to
    ensures ValidStream(g, strs, from, part)
  {
  }

  lemma PolygonNext(strs: seq<nat>, size: nat, vcounts: seq<nat>, l: nat)
    requires l < |vcounts|
    ensures Total(vcounts[..l + 1]) == Total(vcounts[..l]) + vcounts[l]
    ensures PolygonCorners(strs, size, vcounts[..l + 1])
      == PolygonCorners(strs, size, vcounts[..l]) + Fan(strs, size, Total(vcounts[..l]), vcounts[l])
  {
    assert vcounts[..l + 1][..l] == vcounts[..l];
  }

  /** Polygon l, behind those before it. */
  method AddNextPolygon(subMesh: SubMesh, vertexIndexMap0: map<nat, seq<GeometryIndices>>, g: Geometry,
                        vcounts: seq<nat>, strs: seq<nat>, strsIter: nat, l: nat, values: array<nat>)
    returns (vertexIndexMap: map<nat, seq<GeometryIndices>>)
    requires l < |vcounts| && values.Length == g.size && strsIter == Start(Total(vcounts[..l]), g.size)
    requires ValidPolygons(g, strs, vcounts)
    requires HasAdded(subMesh.State(), vertexIndexMap0, g, PolygonCorners(strs, g.size, vcounts[..l]))
    modifies subMesh, values
    ensures HasAdded(subMesh.State(), vertexIndexMap, g, PolygonCorners(strs, g.size, vcounts[..l + 1]))
  {
    ValidPolygon(g, strs, vcounts, l);
    PolygonNext(strs, g.size, vcounts, l);
    vertexIndexMap := AddPolygon(subMesh, vertexIndexMap0, g, strs, strsIter, vcounts[l], values,
      Total(vcounts[..l]), PolygonCorners(strs, g.size, vcounts[..l]));
  }

  /** The iterator at the beginning of polygon l, from that of the polygon before it. */
  function IterAt(vcounts: seq<nat>, l: nat, size: nat): nat
    requires l <= |vcounts|
  {
    Start(Total(vcounts[..l]), size)
  }

  lemma IterNext(strs: seq<nat>, vcounts: seq<nat>, l: nat, size: nat)
    requires 0 < l <= |vcounts|
    ensures IterAt(vcounts, l, size) == IterAt(vcounts, l - 1, size) + Start(vcounts[l - 1], size)
  {
    hide Total, Start;
    PolygonNext(strs, size, vcounts, l - 1);
    StartAdds(Total(vcounts[..l - 1]), vcounts[l - 1], size);
  }

  method LoadPolylist(g: Geometry, vcounts: seq<nat>, strs: seq<nat>) returns (subMesh: SubMesh)
    requires ValidGeometry(g) && ValidPolygons(g, strs, vcounts)
    ensures fresh(subMesh)
    ensures ValidCorners(g, PolygonCorners(strs, g.size, vcounts))
    ensures subMesh.State() == AddedAll(g, PolygonCorners(strs, g.size, vcounts)).mesh
  {
    subMesh := new SubMesh();
    var values := new nat[g.size];
    var vertexIndexMap: map<nat, seq<GeometryIndices>> := map[];
    var strsIter := 0;
    var l := 0;
    while l < |vcounts|
      invariant 0 <= l <= |vcounts| && fresh(subMesh) && fresh(values) && values.Length == g.size
      invariant strsIter == if l == 0 then 0 else IterAt(vcounts, l - 1, g.size)
      invariant HasAdded(subMesh.State(), vertexIndexMap, g, PolygonCorners(strs, g.size, vcounts[..l]))
    {
      if l > 0 {
        IterNext(strs, vcounts, l, g.size);
        strsIter := strsIter + Start(vcounts[l - 1], g.size);
      }
      vertexIndexMap := AddNextPolygon(subMesh, vertexIndexMap, g, vcounts, strs, strsIter, l, values);
      l := l + 1;
    }
    assert vcounts[..l] == vcounts;
  }
}
