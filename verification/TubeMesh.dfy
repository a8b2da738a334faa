/**
  The index buffer of MeshManager::CreateTube (graphics/src/MeshManager.cc).

  The tube's vertices form a grid of 2 * (rings + 1) rows of segments + 1 columns: rows
  0..rings are the outside from bottom to top, the others the inside from top to bottom.
  The buffer is shown to bound a closed, connected, consistently oriented surface that uses every
  vertex. Its Euler characteristic is that of a sphere when the arc is partial, and that of a torus
  when the first and last columns of a full arc are glued together.
*/
module TubeMesh {

  // ----- grid points and triangles -----

  datatype Point = Point(row: int, col: int)

  /** The triangles of the tube. Lower and Upper share the quad between rows row and row + 1
      (the last row is followed by row 0) and columns col and col + 1; the others close the
      two ends of a partial arc. */
  datatype Face =
    | Lower(row: nat, col: nat)
    | Upper(row: nat, col: nat)
    | BeginLow(ring: nat)
    | BeginHigh(ring: nat)
    | EndLow(ring: nat)
    | EndHigh(ring: nat)

  function Pick<T>(j: nat, x: T, y: T, z: T): T {
    if j == 0 then x else if j == 1 then y else z
  }

  /** The clamped parameters of a tube: at least one ring and three segments. */
  datatype Tube = Tube(rings: nat, segments: nat, partialArc: bool) {
    predicate Valid() {
      rings >= 1 && segments >= 3
    }

    function Rows(): nat {
      2 * rings + 2
    }

    function Columns(): nat {
      segments + 1
    }

    /** The number of vertices in the rows below row. */
    function RowStart(row: int): (r: int)
      ensures r >= 0
    {
      if row <= 0 then 0 else RowStart(row - 1) + Columns()
    }

    function VertexCount(): int {
      RowStart(Rows())
    }

    /** The column of the vertex with index v. */
    function ColumnOf(v: int): int {
      v % Columns()
    }

    predicate Has(f: Face) {
      match f
      case Lower(row, col) => row < Rows() && col < segments
      case Upper(row, col) => row < Rows() && col < segments
      case BeginLow(ring) => partialArc && ring < rings
      case BeginHigh(ring) => partialArc && ring < rings
      case EndLow(ring) => partialArc && ring < rings
      case EndHigh(ring) => partialArc && ring < rings
    }

    /** The corners of a face in the order in which they are written to the buffer. */
    function Corner(f: Face, j: nat): Point {
      match f
      case Lower(r, c) =>
        if r == rings then Pick(j, Point(r, c), Point(r + 1, c), Point(r, c + 1))
        else if r == 2 * rings + 1 then Pick(j, Point(0, c + 1), Point(r, c), Point(0, c))
        else Pick(j, Point(r + 1, c), Point(r, c + 1), Point(r, c))
      case Upper(r, c) =>
        if r == rings then Pick(j, Point(r, c + 1), Point(r + 1, c), Point(r + 1, c + 1))
        else if r == 2 * rings + 1 then Pick(j, Point(r, c + 1), Point(r, c), Point(0, c + 1))
        else Pick(j, Point(r + 1, c + 1), Point(r, c + 1), Point(r + 1, c))
      case BeginLow(i) => Pick(j, Point(i + 1, 0), Point(i, 0), Point(2 * rings - i, 0))
      case BeginHigh(i) => Pick(j, Point(2 * rings - i, 0), Point(i, 0), Point(2 * rings + 1 - i, 0))
      case EndLow(i) => Pick(j, Point(2 * rings - i, segments), Point(2 * rings + 1 - i, segments),
        Point(i + 1, segments))
      case EndHigh(i) => Pick(j, Point(i + 1, segments), Point(2 * rings + 1 - i, segments), Point(i, segments))
    }

    predicate Contains(p: Point) {
      0 <= p.row < Rows() && 0 <= p.col < Columns()
    }

    /** The place of a grid point in the vertex buffer. */
    function Index(p: Point): int {
      RowStart(p.row) + p.col
    }

    /** A full arc ends where it begins, so its last column is its first. */
    function Glue(p: Point): Point {
      if !partialArc && p.col == segments then Point(p.row, 0) else p
    }

    function GlueIndex(v: int): int {
      if !partialArc && ColumnOf(v) == segments then v - segments else v
    }

    /** Edge j of a face, from its corner j to the next. */
    function Edge(f: Face, j: nat): (Point, Point) {
      (Glue(Corner(f, j)), Glue(Corner(f, (j + 1) % 3)))
    }
  }

  // ----- the order in which CreateTube writes the triangles -----

  /** The triangles written while vertex (row, seg) is current: on the way up and down, ... */
  function StripFaces(t: Tube, row: nat, seg: nat): seq<Face> {
    (if seg != 0 then [Upper(row, seg - 1)] else []) + (if seg != t.segments then [Lower(row, seg)] else [])
  }

  /** ... and for the top and bottom caps. */
  function CapFaces(row: nat, seg: nat): seq<Face> {
    [Lower(row, seg), Upper(row, seg)]
  }

  function VertexFaces(t: Tube, row: nat, seg: nat): seq<Face> {
    (if row == t.rings then if seg < t.segments then CapFaces(row, seg) else []
     else if row == 2 * t.rings + 1 then []
     else StripFaces(t, row, seg))
    + (if row == 0 && seg < t.segments then CapFaces(2 * t.rings + 1, seg) else [])
  }

  /** The triangles written before vertex (row, seg) becomes current. */
  function GridFaces(t: Tube, row: nat, seg: nat): seq<Face>
    decreases row, seg
  {
    if seg > 0 then GridFaces(t, row, seg - 1) + VertexFaces(t, row, seg - 1)
    else if row > 0 then GridFaces(t, row - 1, t.Columns())
    else []
  }

  function EndFaces(t: Tube, ring: nat): seq<Face> {
    if ring == 0 then []
    else EndFaces(t, ring - 1) + [BeginLow(ring - 1), BeginHigh(ring - 1)] + [EndLow(ring - 1), EndHigh(ring - 1)]
  }

  function Faces(t: Tube): seq<Face> {
    GridFaces(t, t.Rows(), 0) + (if t.partialArc then EndFaces(t, t.rings) else [])
  }

  function TriangleIndices(t: Tube, f: Face): (r: seq<int>)
    ensures |r| == 3
  {
    [t.Index(t.Corner(f, 0)), t.Index(t.Corner(f, 1)), t.Index(t.Corner(f, 2))]
  }

  /** The index buffer of a list of triangles. */
  function IndicesOf(t: Tube, faces: seq<Face>): seq<int> {
    if faces == [] then [] else IndicesOf(t, faces[..|faces| - 1]) + TriangleIndices(t, faces[|faces| - 1])
  }

  lemma {:induction false} IndicesOfConcat(t: Tube, a: seq<Face>, b: seq<Face>)
    ensures IndicesOf(t, a + b) == IndicesOf(t, a) + IndicesOf(t, b)
  {
    hide TriangleIndices;
    if b == [] {
      assert a + b == a;
    } else {
      IndicesOfConcat(t, a, b[..|b| - 1]);
      assert (a + b)[..|a + b| - 1] == a + b[..|b| - 1];
    }
  }

  lemma {:induction false} IndicesOfAt(t: Tube, faces: seq<Face>)
    ensures |IndicesOf(t, faces)| == 3 * |faces|
    ensures forall i, j :: 0 <= i < |faces| && 0 <= j < 3 ==>
              IndicesOf(t, faces)[3 * i + j] == t.Index(t.Corner(faces[i], j))
  {
    if faces != [] {
      IndicesOfAt(t, faces[..|faces| - 1]);
    }
  }

  // ----- every triangle is written exactly once -----

  ghost predicate NoDuplicates<T>(s: seq<T>) {
    forall i, j :: 0 <= i < j < |s| ==> s[i] != s[j]
  }

  lemma NoDuplicatesConcat<T>(a: seq<T>, b: seq<T>)
    requires NoDuplicates(a) && NoDuplicates(b)
    requires forall x :: x in a ==> x !in b
    ensures NoDuplicates(a + b)
  {
    forall i, j | 0 <= i < j < |a + b|
      ensures (a + b)[i] != (a + b)[j]
    {
      if i < |a| <= j {
        assert a[i] in a && b[j - |a|] in b;
      }
    }
  }

  /** The grid vertex that is current when a quad's triangle is written. */
  function Site(t: Tube, f: Face): Point
    requires f.Lower? || f.Upper?
  {
    if f.row == 2 * t.rings + 1 then Point(0, f.col)
    else if f.Upper? && f.row != t.rings then Point(f.row, f.col + 1)
    else Point(f.row, f.col)
  }

  /** f is a quad triangle of the tube whose site comes before (row, seg). */
  ghost predicate InGrid(t: Tube, f: Face, row: nat, seg: nat) {
    (f.Lower? || f.Upper?) && t.Has(f) && (Site(t, f).row < row || (Site(t, f).row == row && Site(t, f).col < seg))
  }

  lemma VertexFacesExact(t: Tube, row: nat, seg: nat)
    requires t.Valid() && row < t.Rows() && seg < t.Columns()
    ensures NoDuplicates(VertexFaces(t, row, seg))
    ensures forall f :: f in VertexFaces(t, row, seg) <==> InGrid(t, f, row, seg + 1) && !InGrid(t, f, row, seg)
  {
    assert forall f :: f in VertexFaces(t, row, seg) <==>
      (f.Lower? || f.Upper?) && t.Has(f) && Site(t, f) == Point(row, seg);
  }

  lemma {:induction false} GridFacesExact(t: Tube, row: nat, seg: nat)
    requires t.Valid() && seg <= t.Columns() && if seg == 0 then row <= t.Rows() else row < t.Rows()
    ensures NoDuplicates(GridFaces(t, row, seg))
    ensures forall f :: f in GridFaces(t, row, seg) <==> InGrid(t, f, row, seg)
    decreases row, seg
  {
    if seg > 0 {
      GridFacesExact(t, row, seg - 1);
      VertexFacesExact(t, row, seg - 1);
      NoDuplicatesConcat(GridFaces(t, row, seg - 1), VertexFaces(t, row, seg - 1));
    } else if row > 0 {
      GridFacesExact(t, row - 1, t.Columns());
      assert forall f :: InGrid(t, f, row, 0) <==> InGrid(t, f, row - 1, t.Columns());
    }
  }

  lemma PairIsDistinct<T>(x: T, y: T)
    requires x != y
    ensures NoDuplicates([x, y])
  {
  }

  lemma InPairs<T>(a: seq<T>, x: T, y: T, z: T, w: T, e: T)
    ensures e in a + [x, y] + [z, w] <==> e in a || e == x || e == y || e == z || e == w
    ensures e in a + [x, y] <==> e in a || e == x || e == y
  {
  }

  predicate IsEndFace(f: Face) {
    f.BeginLow? || f.BeginHigh? || f.EndLow? || f.EndHigh?
  }

  lemma {:induction false} InEndFaces(t: Tube, ring: nat, f: Face)
    ensures f in EndFaces(t, ring) <==> IsEndFace(f) && f.ring < ring
  {
    if ring > 0 {
      InEndFaces(t, ring - 1, f);
      InPairs(EndFaces(t, ring - 1), BeginLow(ring - 1), BeginHigh(ring - 1), EndLow(ring - 1), EndHigh(ring - 1), f);
    }
  }

  lemma Distinct4(a: seq<Face>, x: Face, y: Face, z: Face, w: Face)
    requires NoDuplicates(a) && x != y && z != w && x !in a && y !in a && z !in a && w !in a
    requires z != x && z != y && w != x && w != y
    ensures NoDuplicates(a + [x, y] + [z, w])
  {
    PairIsDistinct(x, y);
    PairIsDistinct(z, w);
    hide NoDuplicates;
    NoDuplicatesConcat(a, [x, y]);
    forall e | e in a + [x, y]
      ensures e !in [z, w]
    {
      InPairs(a, x, y, z, w, e);
    }
    NoDuplicatesConcat(a + [x, y], [z, w]);
  }

  lemma {:induction false} EndFacesDistinct(t: Tube, ring: nat)
    ensures NoDuplicates(EndFaces(t, ring))
  {
    if ring > 0 {
      var a, r := EndFaces(t, ring - 1), ring - 1;
      EndFacesDistinct(t, r);
      InEndFaces(t, r, BeginLow(r));
      InEndFaces(t, r, BeginHigh(r));
      InEndFaces(t, r, EndLow(r));
      InEndFaces(t, r, EndHigh(r));
      Distinct4(a, BeginLow(r), BeginHigh(r), EndLow(r), EndHigh(r));
    }
  }

  lemma InFaces(t: Tube, f: Face)
    requires t.Valid()
    ensures f in Faces(t) <==> f in GridFaces(t, t.Rows(), 0) || (t.partialArc && f in EndFaces(t, t.rings))
  {
    hide GridFaces, EndFaces;
  }

  lemma HasFace(t: Tube, f: Face)
    requires t.Valid()
    ensures t.Has(f) <==> InGrid(t, f, t.Rows(), 0) || (t.partialArc && IsEndFace(f) && f.ring < t.rings)
  {
  }

  /** CreateTube writes every triangle of the tube, and writes it once. */
  lemma FacesExact(t: Tube)
    requires t.Valid()
    ensures NoDuplicates(Faces(t))
    ensures forall f :: f in Faces(t) <==> t.Has(f)
  {
    hide NoDuplicates, GridFaces, EndFaces, InGrid, IsEndFace;
    GridFacesExact(t, t.Rows(), 0);
    EndFacesDistinct(t, t.rings);
    forall f
      ensures f in Faces(t) <==> t.Has(f)
    {
      InFaces(t, f);
      InEndFaces(t, t.rings, f);
      HasFace(t, f);
    }
    FacesDistinct(t);
  }

  lemma FacesDistinct(t: Tube)
    requires t.Valid() && NoDuplicates(GridFaces(t, t.Rows(), 0)) && NoDuplicates(EndFaces(t, t.rings))
    requires forall f :: f in GridFaces(t, t.Rows(), 0) <==> InGrid(t, f, t.Rows(), 0)
    ensures NoDuplicates(Faces(t))
  {
    hide NoDuplicates, GridFaces, EndFaces;
    if t.partialArc {
      forall f | f in GridFaces(t, t.Rows(), 0)
        ensures f !in EndFaces(t, t.rings)
      {
        InEndFaces(t, t.rings, f);
      }
      NoDuplicatesConcat(GridFaces(t, t.Rows(), 0), EndFaces(t, t.rings));
    } else {
      assert GridFaces(t, t.Rows(), 0) + [] == GridFaces(t, t.Rows(), 0);
    }
  }

  // ----- orientation: edges are distinct and come in opposite pairs -----

  /** The sides of a quad. Every triangle edge of a quad is one of these. */
  datatype Side = Left | Right | Bottom | Top | DiagonalOfLower | DiagonalOfUpper

  function SideOf(t: Tube, f: Face, j: nat): Side
    requires (f.Lower? || f.Upper?) && t.Has(f) && j < 3
  {
    if f.row == t.rings then
      if f.Lower? then Pick(j, Left, DiagonalOfLower, Bottom) else Pick(j, DiagonalOfUpper, Top, Right)
    else if f.row == 2 * t.rings + 1 then
      if f.Lower? then Pick(j, DiagonalOfLower, Left, Top) else Pick(j, Bottom, DiagonalOfUpper, Right)
    else
      if f.Lower? then Pick(j, DiagonalOfLower, Bottom, Left) else Pick(j, Right, DiagonalOfUpper, Top)
  }

  function RowAfter(t: Tube, row: nat): nat {
    if row == 2 * t.rings + 1 then 0 else row + 1
  }

  /** The directed edge that a side of the quad at (row, col) is. */
  function SideEdge(t: Tube, row: nat, col: nat, side: Side): (Point, Point) {
    var a, b := t.Glue(Point(row, col)), t.Glue(Point(row, col + 1));
    var d, e := t.Glue(Point(RowAfter(t, row), col)), t.Glue(Point(RowAfter(t, row), col + 1));
    match side
    case Left => (a, d)
    case Right => (e, b)
    case Bottom => (b, a)
    case Top => (d, e)
    case DiagonalOfLower => if row == 2 * t.rings + 1 then (e, a) else (d, b)
    case DiagonalOfUpper => if row == 2 * t.rings + 1 then (a, e) else (b, d)
  }

  lemma EdgeIsSide(t: Tube, f: Face, j: nat)
    requires t.Valid() && (f.Lower? || f.Upper?) && t.Has(f) && j < 3
    ensures t.Edge(f, j) == SideEdge(t, f.row, f.col, SideOf(t, f, j))
  {
  }

  /** Which triangle of the quad at (row, col) carries a side, and as which of its edges. */
  function Carrier(t: Tube, row: nat, col: nat, side: Side): (r: (Face, nat))
    requires t.Valid() && row < t.Rows() && col < t.segments
    ensures t.Has(r.0) && r.1 < 3 && (r.0 == Lower(row, col) || r.0 == Upper(row, col))
    ensures SideOf(t, r.0, r.1) == side
  {
    var bottomRow := row == 2 * t.rings + 1;
    match side
    case Left => (Lower(row, col), if row == t.rings then 0 else if bottomRow then 1 else 2)
    case Right => (Upper(row, col), if row == t.rings || bottomRow then 2 else 0)
    case Top => if bottomRow then (Lower(row, col), 2) else (Upper(row, col), if row == t.rings then 1 else 2)
    case Bottom => if bottomRow then (Upper(row, col), 0) else (Lower(row, col), if row == t.rings then 2 else 1)
    case DiagonalOfLower => (Lower(row, col), if row == t.rings then 1 else 0)
    case DiagonalOfUpper => (Upper(row, col), if row == t.rings then 0 else 1)
  }

  /** SideOf and Carrier are inverse: a quad's two triangles have each side once. */
  lemma SidesOfQuadDistinct(t: Tube, f: Face, j: nat)
    requires t.Valid() && (f.Lower? || f.Upper?) && t.Has(f) && j < 3
    ensures Carrier(t, f.row, f.col, SideOf(t, f, j)) == (f, j)
  {
  }

  ghost predicate IsTwin(t: Tube, e: (Point, Point), f: Face, j: nat) {
    t.Has(f) && j < 3 && t.Edge(f, j) == (e.1, e.0)
  }

  lemma CarrierIsTwin(t: Tube, e: (Point, Point), row: nat, col: nat, side: Side)
    requires t.Valid() && row < t.Rows() && col < t.segments
    requires SideEdge(t, row, col, side) == (e.1, e.0)
    ensures IsTwin(t, e, Carrier(t, row, col, side).0, Carrier(t, row, col, side).1)
  {
    EdgeIsSide(t, Carrier(t, row, col, side).0, Carrier(t, row, col, side).1);
  }

  /** The opposite of an edge of an end cap. */
  lemma CapTwin(t: Tube, f: Face, j: nat) returns (g: Face, k: nat)
    requires t.Valid() && !f.Lower? && !f.Upper? && t.Has(f) && j < 3
    ensures IsTwin(t, t.Edge(f, j), g, k)
  {
    var e, last := t.Edge(f, j), t.segments - 1;
    var side := if f.BeginLow? || f.BeginHigh? then Left else Right;
    var col := if side == Left then 0 else last;
    var i := f.ring;
    var row := -1;
    match f {
      case BeginLow(_) =>
        if j == 0 { row := i; }
        else if j == 1 { g, k := BeginHigh(i), 0; }
        else if i + 1 < t.rings { g, k := BeginHigh(i + 1), 1; }
        else { row := t.rings; }
      case BeginHigh(_) =>
        if j == 0 { g, k := BeginLow(i), 1; }
        else if j == 2 { row := 2 * t.rings - i; }
        else if i > 0 { g, k := BeginLow(i - 1), 2; }
        else { row := 2 * t.rings + 1; }
      case EndLow(_) =>
        if j == 0 { row := 2 * t.rings - i; }
        else if j == 1 { g, k := EndHigh(i), 0; }
        else if i + 1 < t.rings { g, k := EndHigh(i + 1), 1; }
        else { row := t.rings; }
      case EndHigh(_) =>
        if j == 0 { g, k := EndLow(i), 1; }
        else if j == 2 { row := i; }
        else if i > 0 { g, k := EndLow(i - 1), 2; }
        else { row := 2 * t.rings + 1; }
    }
    if row >= 0 {
      CarrierIsTwin(t, e, row, col, side);
      g, k := Carrier(t, row, col, side).0, Carrier(t, row, col, side).1;
    }
  }

  /** The cap edge that runs opposite to the open side of an end quad. */
  lemma EndQuadTwin(t: Tube, row: nat, side: Side) returns (g: Face, k: nat)
    requires t.Valid() && t.partialArc && row < t.Rows() && (side == Left || side == Right)
    ensures IsTwin(t, SideEdge(t, row, if side == Left then 0 else t.segments - 1, side), g, k)
  {
    if row < t.rings {
      g, k := if side == Left then BeginLow(row) else EndHigh(row), if side == Left then 0 else 2;
    } else if row == t.rings {
      g, k := if side == Left then BeginLow(t.rings - 1) else EndLow(t.rings - 1), 2;
    } else if row == 2 * t.rings + 1 {
      g, k := if side == Left then BeginHigh(0) else EndHigh(0), 1;
    } else {
      g := if side == Left then BeginHigh(2 * t.rings - row) else EndLow(2 * t.rings - row);
      k := if side == Left then 2 else 0;
    }
  }

  /** The opposite of a side of a quad: inside the quad, in a neighbouring quad, or in an end cap. */
  lemma QuadTwin(t: Tube, row: nat, col: nat, side: Side) returns (g: Face, k: nat)
    requires t.Valid() && row < t.Rows() && col < t.segments
    ensures IsTwin(t, SideEdge(t, row, col, side), g, k)
  {
    var last := t.segments - 1;
    if t.partialArc && ((side == Left && col == 0) || (side == Right && col == last)) {
      g, k := EndQuadTwin(t, row, side);
    } else {
      var (r, c, s) :=
        match side
        case DiagonalOfLower => (row, col, DiagonalOfUpper)
        case DiagonalOfUpper => (row, col, DiagonalOfLower)
        case Top => (RowAfter(t, row), col, Bottom)
        case Bottom => (if row == 0 then 2 * t.rings + 1 else row - 1, col, Top)
        case Left => (row, if col > 0 then col - 1 else last, Right)
        case Right => (row, if col < last then col + 1 else 0, Left);
      CarrierIsTwin(t, SideEdge(t, row, col, side), r, c, s);
      g, k := Carrier(t, r, c, s).0, Carrier(t, r, c, s).1;
    }
  }

  /** Every edge of a triangle is run along in the opposite direction by some triangle. */
  lemma TwinExists(t: Tube, f: Face, j: nat) returns (g: Face, k: nat)
    requires t.Valid() && t.Has(f) && j < 3
    ensures IsTwin(t, t.Edge(f, j), g, k)
  {
    if f.Lower? || f.Upper? {
      EdgeIsSide(t, f, j);
      g, k := QuadTwin(t, f.row, f.col, SideOf(t, f, j));
    } else {
      g, k := CapTwin(t, f, j);
    }
  }

  lemma SidesDistinct(t: Tube, r: nat, c: nat, s: Side, r': nat, c': nat, s': Side)
    requires t.Valid() && r < t.Rows() && c < t.segments && r' < t.Rows() && c' < t.segments
    requires SideEdge(t, r, c, s) == SideEdge(t, r', c', s')
    ensures r == r' && c == c' && s == s'
  {
  }

  lemma CapsDistinct(t: Tube, f: Face, j: nat, g: Face, k: nat)
    requires t.Valid() && t.Has(f) && t.Has(g) && j < 3 && k < 3
    requires !f.Lower? && !f.Upper? && !g.Lower? && !g.Upper?
    requires t.Edge(f, j) == t.Edge(g, k)
    ensures f == g && j == k
  {
  }

  lemma CapIsNotSide(t: Tube, f: Face, j: nat, r: nat, c: nat, s: Side)
    requires t.Valid() && t.Has(f) && j < 3 && !f.Lower? && !f.Upper? && r < t.Rows() && c < t.segments
    ensures t.Edge(f, j) != SideEdge(t, r, c, s)
  {
  }

  /** No two triangles run along the same edge in the same direction. */
  lemma EdgesDistinct(t: Tube, f: Face, j: nat, g: Face, k: nat)
    requires t.Valid() && t.Has(f) && t.Has(g) && j < 3 && k < 3
    requires t.Edge(f, j) == t.Edge(g, k)
    ensures f == g && j == k
  {
    var fQuad, gQuad := f.Lower? || f.Upper?, g.Lower? || g.Upper?;
    if fQuad {
      EdgeIsSide(t, f, j);
      SidesOfQuadDistinct(t, f, j);
    }
    if gQuad {
      EdgeIsSide(t, g, k);
      SidesOfQuadDistinct(t, g, k);
    }
    if fQuad && gQuad {
      SidesDistinct(t, f.row, f.col, SideOf(t, f, j), g.row, g.col, SideOf(t, g, k));
    } else if fQuad {
      CapIsNotSide(t, g, k, f.row, f.col, SideOf(t, f, j));
    } else if gQuad {
      CapIsNotSide(t, f, j, g.row, g.col, SideOf(t, g, k));
    } else {
      CapsDistinct(t, f, j, g, k);
    }
  }

  // ----- the index buffer -----

  function Buffer(t: Tube): seq<int> {
    IndicesOf(t, Faces(t))
  }

  /** Edge j of triangle i of an index buffer. */
  function BufferEdge(b: seq<int>, i: nat, j: nat): (int, int)
    requires 3 * i + 2 < |b| && j < 3
  {
    (b[3 * i + j], b[3 * i + (j + 1) % 3])
  }

  /** Every directed edge occurs exactly once, and so does its reverse: the surface has no
      boundary and all triangles face the same side. */
  ghost predicate IsClosedOrientedSurface(b: seq<int>, triangles: nat)
    requires |b| == 3 * triangles
  {
    && (forall i: nat, j: nat, k: nat, l: nat ::
          i < triangles && j < 3 && k < triangles && l < 3 && BufferEdge(b, i, j) == BufferEdge(b, k, l) ==>
            i == k && j == l)
    && (forall i: nat, j: nat :: i < triangles && j < 3 ==> HasReverse(b, triangles, BufferEdge(b, i, j)))
  }

  ghost predicate HasReverse(b: seq<int>, triangles: nat, e: (int, int))
    requires |b| == 3 * triangles
  {
    exists k: nat, l: nat :: k < triangles && l < 3 && BufferEdge(b, k, l) == (e.1, e.0)
  }

  /** The buffer after the glueing of the first and last columns of a full arc. */
  function Glued(t: Tube, b: seq<int>): (r: seq<int>)
    ensures |r| == |b|
  {
    seq(|b|, i requires 0 <= i < |b| => t.GlueIndex(b[i]))
  }

  lemma {:induction false} RowStartIsProduct(t: Tube, row: nat)
    ensures t.RowStart(row) == row * t.Columns() == t.Columns() * row
  {
    if row > 0 {
      RowStartIsProduct(t, row - 1);
    }
  }

  lemma {:induction false} RowStartGrows(t: Tube, row: nat, later: nat)
    requires row < later
    ensures t.RowStart(row) + t.Columns() <= t.RowStart(later)
  {
    if row + 1 < later {
      RowStartGrows(t, row, later - 1);
    }
  }

  lemma IndexUnique(t: Tube, p: Point, q: Point)
    requires t.Contains(p) && t.Contains(q) && t.Index(p) == t.Index(q)
    ensures p == q
  {
    if p.row < q.row {
      RowStartGrows(t, p.row, q.row);
    } else if q.row < p.row {
      RowStartGrows(t, q.row, p.row);
    }
  }

  lemma IndexInRange(t: Tube, p: Point)
    requires t.Contains(p)
    ensures t.Index(p) < t.VertexCount()
  {
    RowStartGrows(t, p.row, t.Rows());
  }

  lemma ColumnOfIndex(t: Tube, row: nat, col: nat)
    requires col < t.Columns()
    ensures t.ColumnOf(t.RowStart(row) + col) == col
  {
    RowStartIsProduct(t, row);
    RemainderIsUnique(t.RowStart(row) + col, row, col, t.Columns());
  }

  lemma RemainderIsUnique(v: nat, q: nat, c: nat, n: nat)
    requires v == q * n + c && c < n
    ensures v % n == c
  {
    MultipleIsZero(v / n - q, n);
  }

  lemma MultipleIsZero(k: int, n: int)
    requires -n < k * n < n
    ensures k == 0
  {
  }

  lemma GlueOfIndex(t: Tube, p: Point)
    requires t.Contains(p)
    ensures t.GlueIndex(t.Index(p)) == t.Index(t.Glue(p))
  {
    ColumnOfIndex(t, p.row, p.col);
  }

  /** faces lists every triangle of the tube exactly once, and b is their index buffer. */
  ghost predicate IsBufferOf(t: Tube, faces: seq<Face>, b: seq<int>) {
    && NoDuplicates(faces)
    && (forall f :: f in faces <==> t.Has(f))
    && |b| == 3 * |faces|
    && (forall i, j :: 0 <= i < |faces| && 0 <= j < 3 ==> b[3 * i + j] == t.Index(t.Corner(faces[i], j)))
  }

  lemma CornersInRange(t: Tube, f: Face, j: nat)
    requires t.Valid() && t.Has(f) && j < 3
    ensures t.Contains(t.Corner(f, j)) && t.Contains(t.Edge(f, j).0) && t.Contains(t.Edge(f, j).1)
    ensures 0 <= t.Index(t.Corner(f, j)) < t.VertexCount()
    ensures t.GlueIndex(t.Index(t.Corner(f, j))) == t.Index(t.Edge(f, j).0)
  {
    IndexInRange(t, t.Corner(f, j));
    GlueOfIndex(t, t.Corner(f, j));
  }

  lemma GluedEdge(t: Tube, faces: seq<Face>, b: seq<int>, i: nat, j: nat)
    requires t.Valid() && IsBufferOf(t, faces, b) && i < |faces| && j < 3
    ensures t.Has(faces[i])
    ensures BufferEdge(Glued(t, b), i, j) == (t.Index(t.Edge(faces[i], j).0), t.Index(t.Edge(faces[i], j).1))
  {
    assert faces[i] in faces;
    CornersInRange(t, faces[i], j);
    CornersInRange(t, faces[i], (j + 1) % 3);
  }

  lemma GluedEdgeUnique(t: Tube, faces: seq<Face>, b: seq<int>, i: nat, j: nat, k: nat, l: nat)
    requires t.Valid() && IsBufferOf(t, faces, b) && i < |faces| && j < 3 && k < |faces| && l < 3
    requires BufferEdge(Glued(t, b), i, j) == BufferEdge(Glued(t, b), k, l)
    ensures i == k && j == l
  {
    GluedEdge(t, faces, b, i, j);
    GluedEdge(t, faces, b, k, l);
    var f, g := faces[i], faces[k];
    CornersInRange(t, f, j);
    CornersInRange(t, g, l);
    IndexUnique(t, t.Edge(f, j).0, t.Edge(g, l).0);
    IndexUnique(t, t.Edge(f, j).1, t.Edge(g, l).1);
    EdgesDistinct(t, f, j, g, l);
  }

  lemma GluedEdgeReversed(t: Tube, faces: seq<Face>, b: seq<int>, i: nat, j: nat)
    requires t.Valid() && IsBufferOf(t, faces, b) && i < |faces| && j < 3
    ensures HasReverse(Glued(t, b), |faces|, BufferEdge(Glued(t, b), i, j))
  {
    GluedEdge(t, faces, b, i, j);
    var g, l := TwinExists(t, faces[i], j);
    assert g in faces;
    var k: nat :| k < |faces| && faces[k] == g;
    GluedEdge(t, faces, b, k, l);
  }

  lemma BufferIsClosedSurface(t: Tube, faces: seq<Face>, b: seq<int>)
    requires t.Valid() && IsBufferOf(t, faces, b)
    ensures IsClosedOrientedSurface(Glued(t, b), |faces|)
  {
    var g := Glued(t, b);
    forall i: nat, j: nat, k: nat, l: nat |
        i < |faces| && j < 3 && k < |faces| && l < 3 && BufferEdge(g, i, j) == BufferEdge(g, k, l)
      ensures i == k && j == l
    {
      GluedEdgeUnique(t, faces, b, i, j, k, l);
    }
    forall i: nat, j: nat | i < |faces| && j < 3
      ensures HasReverse(g, |faces|, BufferEdge(g, i, j))
    {
      GluedEdgeReversed(t, faces, b, i, j);
    }
  }

  lemma IndicesInRange(t: Tube, faces: seq<Face>, b: seq<int>, n: nat)
    requires t.Valid() && IsBufferOf(t, faces, b) && n < |b|
    ensures 0 <= b[n] < t.VertexCount()
  {
    var i, j := n / 3, n % 3;
    assert faces[i] in faces;
    assert b[3 * i + j] == t.Index(t.Corner(faces[i], j));
    CornersInRange(t, faces[i], j);
  }

  /** How many triangles are written in a row before column seg, ... */
  function InRow(t: Tube, row: nat, seg: nat): int {
    (if row == 2 * t.rings + 1 || seg == 0 then 0
     else if row == t.rings then 2 * Min(seg, t.segments)
     else 2 * Min(seg, t.segments) - (if seg <= t.segments then 1 else 0))
    + (if row == 0 then 2 * Min(seg, t.segments) else 0)
  }

  /** ... and in the rows below row: two per quad, with the bottom cap in row 0. */
  function BelowRow(t: Tube, row: nat): int {
    if row == 0 then 0
    else if row == t.Rows() then 2 * t.RowStart(row) - 2 * row
    else 2 * (t.RowStart(row) + t.Columns()) - 2 * (row + 1)
  }

  lemma VertexFacesCount(t: Tube, row: nat, seg: nat)
    requires t.Valid() && row < t.Rows() && seg < t.Columns()
    ensures |VertexFaces(t, row, seg)| == InRow(t, row, seg + 1) - InRow(t, row, seg)
  {
  }

  lemma {:induction false} GridFacesCount(t: Tube, row: nat, seg: nat)
    requires t.Valid() && seg <= t.Columns() && if seg == 0 then row <= t.Rows() else row < t.Rows()
    ensures |GridFaces(t, row, seg)| == BelowRow(t, row) + InRow(t, row, seg)
    decreases row, seg
  {
    if seg > 0 {
      GridFacesCount(t, row, seg - 1);
      VertexFacesCount(t, row, seg - 1);
    } else if row > 0 {
      GridFacesCount(t, row - 1, t.Columns());
      assert t.RowStart(row) == t.RowStart(row - 1) + t.Columns();
    }
  }

  function Min(a: nat, b: nat): nat {
    if a < b then a else b
  }

  lemma {:induction false} EndFacesCount(t: Tube, ring: nat)
    ensures |EndFaces(t, ring)| == 4 * ring
  {
    if ring > 0 {
      EndFacesCount(t, ring - 1);
    }
  }

  lemma FacesCount(t: Tube)
    requires t.Valid()
    ensures |Faces(t)| == 2 * t.VertexCount() - 2 * t.Rows() + if t.partialArc then 4 * t.rings else 0
  {
    GridFacesCount(t, t.Rows(), 0);
    EndFacesCount(t, t.rings);
  }

  /** The buffer of every tube bounds a closed, consistently oriented surface: as it stands for
      a partial arc, and after glueing the seam for a full one. Its Euler characteristic,
      vertices - edges + faces with three edges for every two faces, is 2 for a partial arc,
      as for a sphere, and 0 for a full one, as for a torus, where each row loses its last
      vertex; doubled here to stay with whole numbers. */
  lemma TubeIsClosedSurface(t: Tube)
    requires t.Valid()
    ensures |Buffer(t)| == 3 * |Faces(t)|
    ensures forall n: nat :: n < |Buffer(t)| ==> 0 <= Buffer(t)[n] < t.VertexCount()
    ensures IsClosedOrientedSurface(Glued(t, Buffer(t)), |Faces(t)|)
    ensures t.partialArc ==> Glued(t, Buffer(t)) == Buffer(t)
    ensures 2 * (t.VertexCount() - if t.partialArc then 0 else t.Rows()) - 3 * |Faces(t)| + 2 * |Faces(t)|
         == if t.partialArc then 4 else 0
  {
    var faces, b := Faces(t), Buffer(t);
    BufferOfFaces(t);
    BufferIsClosedSurface(t, faces, b);
    FacesCount(t);
    forall n: nat | n < |b|
      ensures 0 <= b[n] < t.VertexCount()
    {
      IndicesInRange(t, faces, b, n);
    }
  }

  // ----- every vertex is used, and the surface is connected -----

  lemma {:induction false} PointOfIndex(t: Tube, v: nat, rows: nat) returns (p: Point)
    requires v < t.RowStart(rows) && rows <= t.Rows()
    ensures t.Contains(p) && p.row < rows && t.Index(p) == v
  {
    if v < t.RowStart(rows - 1) {
      p := PointOfIndex(t, v, rows - 1);
    } else {
      p := Point(rows - 1, v - t.RowStart(rows - 1));
    }
  }

  lemma PointIsCorner(t: Tube, p: Point) returns (f: Face, j: nat)
    requires t.Valid() && t.Contains(p)
    ensures t.Has(f) && j < 3 && t.Corner(f, j) == p
  {
    var row, col := p.row, p.col;
    if col < t.segments {
      f, j := Lower(row, col), if row == t.rings then 0 else if row == 2 * t.rings + 1 then 1 else 2;
    } else if row == 2 * t.rings + 1 {
      f, j := Upper(row, col - 1), 0;
    } else {
      f, j := Lower(row, col - 1), if row == t.rings then 2 else 1;
    }
  }

  /** No vertex is left out. */
  lemma EveryVertexIsUsed(t: Tube, v: nat) returns (n: nat)
    requires t.Valid() && v < t.VertexCount()
    ensures n < |Buffer(t)| && Buffer(t)[n] == v
  {
    var p := PointOfIndex(t, v, t.Rows());
    var f, j := PointIsCorner(t, p);
    FacesExact(t);
    IndicesOfAt(t, Faces(t));
    assert f in Faces(t);
    var i: nat :| i < |Faces(t)| && Faces(t)[i] == f;
    n := 3 * i + j;
  }

  /** Some triangle has this edge. */
  ghost predicate Joined(t: Tube, p: Point, q: Point) {
    exists f: Face, j: nat :: t.Has(f) && j < 3 && t.Edge(f, j) == (p, q)
  }

  /** A walk along edges. */
  ghost predicate IsWalk(t: Tube, walk: seq<Point>) {
    walk != [] && forall i :: 0 <= i < |walk| - 1 ==> Joined(t, walk[i], walk[i + 1])
  }

  lemma SideJoins(t: Tube, row: nat, col: nat, side: Side)
    requires t.Valid() && row < t.Rows() && col < t.segments
    ensures Joined(t, SideEdge(t, row, col, side).0, SideEdge(t, row, col, side).1)
  {
    var (f, j) := Carrier(t, row, col, side);
    EdgeIsSide(t, f, j);
  }

  lemma JoinedBothWays(t: Tube, p: Point, q: Point)
    requires t.Valid() && Joined(t, p, q)
    ensures Joined(t, q, p)
  {
    var f: Face, j: nat :| t.Has(f) && j < 3 && t.Edge(f, j) == (p, q);
    var g, k := TwinExists(t, f, j);
  }

  lemma WalkFrom(t: Tube, p: Point, walk: seq<Point>)
    requires IsWalk(t, walk) && Joined(t, p, walk[0])
    ensures IsWalk(t, [p] + walk)
  {
    hide Joined;
    var longer := [p] + walk;
    forall i | 0 <= i < |longer| - 1
      ensures Joined(t, longer[i], longer[i + 1])
    {
      assert i > 0 ==> longer[i] == walk[i - 1] && longer[i + 1] == walk[i];
    }
  }

  /** From every point along its row to the first column, and down that column. */
  lemma {:induction false} WalkToOrigin(t: Tube, row: nat, col: nat) returns (walk: seq<Point>)
    requires t.Valid() && row < t.Rows() && col <= t.segments
    ensures IsWalk(t, walk) && walk[0] == t.Glue(Point(row, col)) && walk[|walk| - 1] == Point(0, 0)
    decreases row, col
  {
    hide Joined, IsWalk;
    if col > 0 {
      var rest := WalkToOrigin(t, row, col - 1);
      SideJoins(t, row, col - 1, Bottom);
      StartsAnywhere(t, rest);
      WalkFrom(t, t.Glue(Point(row, col)), rest);
      walk := [t.Glue(Point(row, col))] + rest;
    } else if row > 0 {
      var rest := WalkToOrigin(t, row - 1, 0);
      SideJoins(t, row - 1, 0, Left);
      JoinedBothWays(t, t.Glue(Point(row - 1, 0)), t.Glue(Point(row, 0)));
      StartsAnywhere(t, rest);
      WalkFrom(t, t.Glue(Point(row, 0)), rest);
      walk := [t.Glue(Point(row, 0))] + rest;
    } else {
      walk := [Point(0, 0)];
      Standing(t, Point(0, 0));
    }
  }

  lemma StartsAnywhere(t: Tube, walk: seq<Point>)
    requires IsWalk(t, walk)
    ensures walk != []
  {
  }

  lemma Standing(t: Tube, p: Point)
    ensures IsWalk(t, [p])
  {
  }

  lemma {:induction false} WalkBack(t: Tube, walk: seq<Point>, end: seq<Point>) returns (whole: seq<Point>)
    requires t.Valid() && IsWalk(t, walk) && IsWalk(t, end) && walk[0] == end[0]
    ensures IsWalk(t, whole) && whole[0] == walk[|walk| - 1] && whole[|whole| - 1] == end[|end| - 1]
    decreases |walk|
  {
    hide Joined;
    if |walk| == 1 {
      whole := end;
    } else {
      JoinedBothWays(t, walk[0], walk[1]);
      WalkFrom(t, walk[1], end);
      TailIsWalk(t, walk);
      whole := WalkBack(t, walk[1..], [walk[1]] + end);
    }
  }

  lemma TailIsWalk(t: Tube, walk: seq<Point>)
    requires IsWalk(t, walk) && |walk| > 1
    ensures IsWalk(t, walk[1..])
  {
    hide Joined;
    assert forall i :: 0 <= i < |walk| - 1 ==> walk[1..][i] == walk[i + 1];
  }

  /** A walk along the edges of an index buffer. */
  ghost predicate IsEdgeWalk(b: seq<int>, triangles: nat, walk: seq<int>)
    requires |b| == 3 * triangles
  {
    walk != [] && forall i :: 0 <= i < |walk| - 1 ==> IsEdge(b, triangles, walk[i], walk[i + 1])
  }

  ghost predicate IsEdge(b: seq<int>, triangles: nat, v: int, w: int)
    requires |b| == 3 * triangles
  {
    exists k: nat, l: nat :: k < triangles && l < 3 && BufferEdge(b, k, l) == (v, w)
  }

  lemma JoinedByEdge(t: Tube, faces: seq<Face>, b: seq<int>, p: Point, q: Point)
    requires t.Valid() && IsBufferOf(t, faces, b) && Joined(t, p, q)
    ensures IsEdge(Glued(t, b), |faces|, t.Index(p), t.Index(q))
  {
    var f: Face, j: nat :| t.Has(f) && j < 3 && t.Edge(f, j) == (p, q);
    assert f in faces;
    var k: nat :| k < |faces| && faces[k] == f;
    GluedEdge(t, faces, b, k, j);
  }

  lemma WalkOfPoints(t: Tube, faces: seq<Face>, b: seq<int>, walk: seq<Point>) returns (w: seq<int>)
    requires t.Valid() && IsBufferOf(t, faces, b) && IsWalk(t, walk)
    ensures IsEdgeWalk(Glued(t, b), |faces|, w)
    ensures w[0] == t.Index(walk[0]) && w[|w| - 1] == t.Index(walk[|walk| - 1])
  {
    hide Joined, IsEdge, IsBufferOf;
    SameLength(t, faces, b);
    w := seq(|walk|, i requires 0 <= i < |walk| => t.Index(walk[i]));
    forall i | 0 <= i < |w| - 1
      ensures IsEdge(Glued(t, b), |faces|, w[i], w[i + 1])
    {
      JoinedByEdge(t, faces, b, walk[i], walk[i + 1]);
    }
  }

  lemma SameLength(t: Tube, faces: seq<Face>, b: seq<int>)
    requires IsBufferOf(t, faces, b)
    ensures |Glued(t, b)| == 3 * |faces|
  {
  }

  lemma BufferOfFaces(t: Tube)
    requires t.Valid()
    ensures IsBufferOf(t, Faces(t), Buffer(t))
  {
    FacesExact(t);
    IndicesOfAt(t, Faces(t));
  }

  /** A walk along edges leads from every vertex to every other one. */
  lemma TubeIsConnected(t: Tube, v: nat, w: nat) returns (walk: seq<int>)
    requires t.Valid() && v < t.VertexCount() && w < t.VertexCount()
    ensures |Glued(t, Buffer(t))| == 3 * |Faces(t)|
    ensures IsEdgeWalk(Glued(t, Buffer(t)), |Faces(t)|, walk)
    ensures walk[0] == t.GlueIndex(v) && walk[|walk| - 1] == t.GlueIndex(w)
  {
    hide Joined, IsEdgeWalk, Buffer, Faces, IsBufferOf, IsWalk;
    var p := PointOfIndex(t, v, t.Rows());
    var q := PointOfIndex(t, w, t.Rows());
    BufferOfFaces(t);
    SameLength(t, Faces(t), Buffer(t));
    var points := WalkBetween(t, p, q);
    walk := WalkOfPoints(t, Faces(t), Buffer(t), points);
    GlueOfIndex(t, p);
    GlueOfIndex(t, q);
  }

  lemma WalkBetween(t: Tube, p: Point, q: Point) returns (walk: seq<Point>)
    requires t.Valid() && t.Contains(p) && t.Contains(q)
    ensures IsWalk(t, walk) && walk[0] == t.Glue(p) && walk[|walk| - 1] == t.Glue(q)
  {
    hide Joined;
    var there := WalkToOrigin(t, p.row, p.col);
    var back := WalkToOrigin(t, q.row, q.col);
    var home := WalkBack(t, back, [back[0]]);
    walk := Through(t, there, home);
  }

  /** One walk behind another. */
  lemma Through(t: Tube, a: seq<Point>, b: seq<Point>) returns (walk: seq<Point>)
    requires IsWalk(t, a) && IsWalk(t, b) && a[|a| - 1] == b[0]
    ensures IsWalk(t, walk) && walk[0] == a[0] && walk[|walk| - 1] == b[|b| - 1]
  {
    hide Joined;
    walk := a + b[1..];
    forall i | 0 <= i < |walk| - 1
      ensures Joined(t, walk[i], walk[i + 1])
    {
      if i < |a| - 1 {
        assert walk[i] == a[i] && walk[i + 1] == a[i + 1];
      } else {
        assert walk[i] == b[i - |a| + 1] && walk[i + 1] == b[i - |a| + 2];
      }
    }
  }

  /** The size of the vertex buffer, and that of the index buffer, in the source's terms. */
  lemma BufferSizes(t: Tube)
    requires t.Valid()
    ensures t.VertexCount() == 2 * (t.rings + 1) * (t.segments + 1)
    ensures |Buffer(t)| == 3 * (4 * (t.rings + 1) * t.segments + if t.partialArc then 4 * t.rings else 0)
  {
    FacesCount(t);
    IndicesOfAt(t, Faces(t));
    RowStartIsProduct(t, t.Rows());
    Distribute(t.rings + 1, t.segments);
  }

  lemma Distribute(a: nat, b: nat)
    ensures (2 * a) * (b + 1) == 2 * a * (b + 1) == 2 * a * b + 2 * a
    ensures 4 * a * b == 2 * (2 * a * b)
  {
  }

  // ----- the buffer, triangle by triangle, in vertex numbers -----

  /** Triangle i of the buffer. */
  predicate IsTriangle(b: seq<int>, i: nat, x: int, y: int, z: int) {
    3 * i + 2 < |b| && b[3 * i] == x && b[3 * i + 1] == y && b[3 * i + 2] == z
  }

  lemma {:induction false} GridPrefix(t: Tube, row: nat, seg: nat, laterRow: nat, laterSeg: nat)
    requires row < laterRow || (row == laterRow && seg <= laterSeg)
    requires seg <= t.Columns() && laterSeg <= t.Columns()
    ensures GridFaces(t, row, seg) <= GridFaces(t, laterRow, laterSeg)
    decreases laterRow, laterSeg
  {
    if row < laterRow || seg < laterSeg {
      if laterSeg > 0 {
        GridPrefix(t, row, seg, laterRow, laterSeg - 1);
      } else {
        GridPrefix(t, row, seg, laterRow - 1, t.Columns());
      }
    }
  }

  lemma GridAt(t: Tube, row: nat, seg: nat, k: nat)
    requires t.Valid() && row < t.Rows() && seg <= t.segments && k < |VertexFaces(t, row, seg)|
    ensures var n := BelowRow(t, row) + InRow(t, row, seg) + k;
      0 <= n < |Faces(t)| && Faces(t)[n] == VertexFaces(t, row, seg)[k]
  {
    hide VertexFaces, BelowRow, InRow;
    GridFacesCount(t, row, seg);
    assert GridFaces(t, row, seg + 1) == GridFaces(t, row, seg) + VertexFaces(t, row, seg);
    GridPrefix(t, row, seg + 1, t.Rows(), 0);
  }

  lemma FaceAt(t: Tube, n: nat, f: Face)
    requires n < |Faces(t)| && Faces(t)[n] == f
    ensures IsTriangle(Buffer(t), n, t.Index(t.Corner(f, 0)), t.Index(t.Corner(f, 1)), t.Index(t.Corner(f, 2)))
  {
    IndicesOfAt(t, Faces(t));
    hide IndicesOf, Faces;
    assert forall j :: 0 <= j < 3 ==> Buffer(t)[3 * n + j] == t.Index(t.Corner(Faces(t)[n], j));
  }

  lemma WrittenAt(t: Tube, row: nat, seg: nat, k: nat)
    requires t.Valid() && row < t.Rows() && seg <= t.segments && k < |VertexFaces(t, row, seg)|
    ensures var n, f := BelowRow(t, row) + InRow(t, row, seg) + k, VertexFaces(t, row, seg)[k];
      n >= 0 && IsTriangle(Buffer(t), n, t.Index(t.Corner(f, 0)), t.Index(t.Corner(f, 1)), t.Index(t.Corner(f, 2)))
  {
    hide VertexFaces, BelowRow, InRow, Faces, Buffer;
    GridAt(t, row, seg, k);
    FaceAt(t, BelowRow(t, row) + InRow(t, row, seg) + k, VertexFaces(t, row, seg)[k]);
  }

  /** The triangles written for the vertex v of a row that has strips, the last of which is w behind it in
      the next row: they begin behind n others. */
  lemma StripIsWrittenAt(t: Tube, row: nat, seg: nat)
    requires t.Valid() && row < t.Rows() && row != t.rings && row != 2 * t.rings + 1 && seg <= t.segments
    ensures var v, w, n := t.RowStart(row) + seg, t.RowStart(row + 1) + seg, BelowRow(t, row) + InRow(t, row, seg);
      && n >= 0
      && (seg > 0 ==> IsTriangle(Buffer(t), n, w, v, w - 1))
      && (seg < t.segments ==> IsTriangle(Buffer(t), if seg > 0 then n + 1 else n, w, v + 1, v))
  {
    hide Buffer, BelowRow, InRow, IsTriangle, t.RowStart;
    FacesOfVertex(t, row, seg);
    WrittenAt(t, row, seg, 0);
    if 0 < seg < t.segments {
      WrittenAt(t, row, seg, 1);
    }
  }

  lemma TopCapIsWrittenAt(t: Tube, seg: nat)
    requires t.Valid() && seg < t.segments
    ensures var v, w, n := t.RowStart(t.rings) + seg, t.RowStart(t.rings + 1) + seg,
        BelowRow(t, t.rings) + InRow(t, t.rings, seg);
      n >= 0 && IsTriangle(Buffer(t), n, v, w, v + 1) && IsTriangle(Buffer(t), n + 1, v + 1, w, w + 1)
  {
    hide Buffer, BelowRow, InRow, IsTriangle, t.RowStart;
    FacesOfVertex(t, t.rings, seg);
    WrittenAt(t, t.rings, seg, 0);
    WrittenAt(t, t.rings, seg, 1);
  }

  /** Those of the bottom cap follow the strip of their vertex. */
  lemma BottomCapIsWrittenAt(t: Tube, seg: nat)
    requires t.Valid() && seg < t.segments
    ensures var v, w, n := seg, t.RowStart(2 * t.rings + 1) + seg, InRow(t, 0, seg) + if seg > 0 then 2 else 1;
      n >= 0 && IsTriangle(Buffer(t), n, v + 1, w, v) && IsTriangle(Buffer(t), n + 1, w + 1, w, v + 1)
  {
    hide Buffer, InRow, IsTriangle;
    FacesOfVertex(t, 0, seg);
    var k := if seg > 0 then 2 else 1;
    WrittenAt(t, 0, seg, k);
    WrittenAt(t, 0, seg, k + 1);
  }

  lemma {:induction false} EndFacesAt(t: Tube, rings: nat, ring: nat)
    requires ring < rings
    ensures var faces, at := EndFaces(t, rings), 4 * ring;
      && |faces| == 4 * rings && faces[at] == BeginLow(ring) && faces[at + 1] == BeginHigh(ring)
      && faces[at + 2] == EndLow(ring) && faces[at + 3] == EndHigh(ring)
  {
    EndFacesCount(t, rings - 1);
    if ring < rings - 1 {
      EndFacesAt(t, rings - 1, ring);
    }
  }

  lemma EndIsAt(t: Tube, ring: nat, k: nat)
    requires t.Valid() && t.partialArc && ring < t.rings && k < 4
    ensures var n := BelowRow(t, t.Rows()) + 4 * ring + k;
      0 <= n < |Faces(t)| && Faces(t)[n] == [BeginLow(ring), BeginHigh(ring), EndLow(ring), EndHigh(ring)][k]
  {
    hide BelowRow, GridFaces, EndFaces;
    GridFacesCount(t, t.Rows(), 0);
    assert InRow(t, t.Rows(), 0) == 0;
    EndFacesAt(t, t.rings, ring);
  }

  /** The triangles between the outside and the inside at both ends of a partial arc come last. */
  lemma BeginIsWrittenAt(t: Tube, ring: nat)
    requires t.Valid() && t.partialArc && ring < t.rings
    ensures var out, over := t.RowStart(ring), t.RowStart(ring + 1);
      var inside, under := t.RowStart(2 * t.rings + 1 - ring), t.RowStart(2 * t.rings - ring);
      var n := BelowRow(t, t.Rows()) + 4 * ring;
      n >= 0 && IsTriangle(Buffer(t), n, over, out, under) && IsTriangle(Buffer(t), n + 1, under, out, inside)
  {
    hide Buffer, Faces, BelowRow, IsTriangle, t.RowStart;
    var n := BelowRow(t, t.Rows()) + 4 * ring;
    EndIsAt(t, ring, 0);
    EndIsAt(t, ring, 1);
    FaceAt(t, n, BeginLow(ring));
    FaceAt(t, n + 1, BeginHigh(ring));
  }

  lemma EndIsWrittenAt(t: Tube, ring: nat)
    requires t.Valid() && t.partialArc && ring < t.rings
    ensures var s := t.segments;
      var out, over := t.RowStart(ring) + s, t.RowStart(ring + 1) + s;
      var inside, under := t.RowStart(2 * t.rings + 1 - ring) + s, t.RowStart(2 * t.rings - ring) + s;
      var n := BelowRow(t, t.Rows()) + 4 * ring + 2;
      n >= 0 && IsTriangle(Buffer(t), n, under, inside, over) && IsTriangle(Buffer(t), n + 1, over, inside, out)
  {
    hide Buffer, Faces, BelowRow, IsTriangle, t.RowStart;
    var n := BelowRow(t, t.Rows()) + 4 * ring + 2;
    EndIsAt(t, ring, 2);
    EndIsAt(t, ring, 3);
    FaceAt(t, n, EndLow(ring));
    FaceAt(t, n + 1, EndHigh(ring));
  }

  // ----- CreateTube -----

  lemma IndicesOfFew(t: Tube, f: Face, g: Face)
    ensures IndicesOf(t, []) == []
    ensures IndicesOf(t, [f]) == TriangleIndices(t, f)
    ensures IndicesOf(t, [f, g]) == TriangleIndices(t, f) + TriangleIndices(t, g)
  {
    assert [f, g] == [f] + [g];
    IndicesOfConcat(t, [f], [g]);
  }

  /** Two triangles for each vertex of a strip between two rows, but one at either end. */
  method WriteStripVertex(t: Tube, row: nat, seg: nat, verticeIndex: int) returns (added: seq<int>)
    requires t.Valid() && row != t.rings && row != 2 * t.rings + 1 && seg <= t.segments
    requires verticeIndex == t.Index(Point(row, seg))
    ensures added == IndicesOf(t, StripFaces(t, row, seg))
  {
    var segments := t.segments;
    var f, g := Upper(row, if seg == 0 then 0 else seg - 1), Lower(row, seg);
    IndicesOfFew(t, f, g);
    IndicesOfFew(t, g, g);
    StripTriangles(t, row, seg);
    hide IndicesOf, TriangleIndices;
    added := [];
    if seg != 0 {
      added := added + [verticeIndex + segments + 1, verticeIndex, verticeIndex + segments];
    }
    if seg != segments {
      added := added + [verticeIndex + segments + 1, verticeIndex + 1, verticeIndex];
    }
    assert StripFaces(t, row, seg) == if seg == 0 then [g] else if seg == segments then [f] else [f, g];
  }

  lemma StripTriangles(t: Tube, row: nat, seg: nat)
    requires t.Valid() && row != t.rings && row != 2 * t.rings + 1
    ensures var v := t.Index(Point(row, seg));
      && TriangleIndices(t, Lower(row, seg)) == [v + t.segments + 1, v + 1, v]
      && (seg > 0 ==> TriangleIndices(t, Upper(row, seg - 1)) == [v + t.segments + 1, v, v + t.segments])
  {
    assert t.RowStart(row + 1) == t.RowStart(row) + t.Columns();
  }

  method WriteTopCap(t: Tube, seg: nat, verticeIndex: int) returns (added: seq<int>)
    requires t.Valid() && seg < t.segments && verticeIndex == t.Index(Point(t.rings, seg))
    ensures added == IndicesOf(t, CapFaces(t.rings, seg))
  {
    var segments := t.segments;
    added := [verticeIndex, verticeIndex + segments + 1, verticeIndex + 1];
    added := added + [verticeIndex + 1, verticeIndex + segments + 1, verticeIndex + segments + 2];
    IndicesOfFew(t, Lower(t.rings, seg), Upper(t.rings, seg));
  }

  method WriteBottomCap(t: Tube, seg: nat, verticeIndex: int) returns (added: seq<int>)
    requires t.Valid() && seg < t.segments && verticeIndex == t.Index(Point(0, seg))
    ensures added == IndicesOf(t, CapFaces(2 * t.rings + 1, seg))
  {
    var far := verticeIndex + (t.segments + 1) * ((t.rings + 1) * 2 - 1);
    added := [verticeIndex + 1, far, verticeIndex];
    added := added + [far + 1, far, verticeIndex + 1];
    RowStartIsProduct(t, 2 * t.rings + 1);
    IndicesOfFew(t, Lower(2 * t.rings + 1, seg), Upper(2 * t.rings + 1, seg));
  }

  lemma FacesOfVertex(t: Tube, row: nat, seg: nat)
    requires t.Valid() && row < t.Rows()
    ensures VertexFaces(t, row, seg)
      == if row == t.rings then if seg < t.segments then CapFaces(row, seg) else []
         else if row == 2 * t.rings + 1 then []
         else if row == 0 && seg < t.segments then StripFaces(t, row, seg) + CapFaces(2 * t.rings + 1, seg)
         else StripFaces(t, row, seg)
  {
    hide StripFaces, CapFaces;
    assert StripFaces(t, row, seg) + [] == StripFaces(t, row, seg);
  }

  lemma IndicesOfNothing(t: Tube)
    ensures IndicesOf(t, []) == []
  {
  }

  /** The body of the inner loops, for a vertex of the outside or of the inside. */
  method WriteVertex(t: Tube, row: nat, seg: nat, verticeIndex: int) returns (added: seq<int>)
    requires t.Valid() && row < t.Rows() && seg <= t.segments && verticeIndex == t.Index(Point(row, seg))
    ensures added == IndicesOf(t, VertexFaces(t, row, seg))
  {
    var ring, outside := if row <= t.rings then row else row - t.rings - 1, row <= t.rings;
    IndicesOfNothing(t);
    FacesOfVertex(t, row, seg);
    hide IndicesOf, StripFaces, CapFaces, VertexFaces;
    added := [];
    if ring != t.rings {
      added := WriteStripVertex(t, row, seg, verticeIndex);
    } else if outside && seg != t.segments {
      added := WriteTopCap(t, seg, verticeIndex);
    }
    if outside && ring == 0 && seg < t.segments {
      IndicesOfConcat(t, StripFaces(t, row, seg), CapFaces(2 * t.rings + 1, seg));
      var cap := WriteBottomCap(t, seg, verticeIndex);
      added := added + cap;
    }
  }

  /** The index buffer before vertex (row, seg) becomes current. */
  function GridIndices(t: Tube, row: nat, seg: nat): seq<int>
    decreases row, seg
  {
    if seg > 0 then GridIndices(t, row, seg - 1) + IndicesOf(t, VertexFaces(t, row, seg - 1))
    else if row > 0 then GridIndices(t, row - 1, t.Columns())
    else []
  }

  lemma {:induction false} GridIndicesOfFaces(t: Tube, row: nat, seg: nat)
    ensures GridIndices(t, row, seg) == IndicesOf(t, GridFaces(t, row, seg))
    decreases row, seg
  {
    if seg > 0 {
      GridIndicesOfFaces(t, row, seg - 1);
      IndicesOfConcat(t, GridFaces(t, row, seg - 1), VertexFaces(t, row, seg - 1));
    } else if row > 0 {
      GridIndicesOfFaces(t, row - 1, t.Columns());
    }
  }

  /** The loop over the vertices of a row. */
  method WriteRow(t: Tube, row: nat, first: int, before: seq<int>) returns (indices: seq<int>, verticeIndex: int)
    requires t.Valid() && row < t.Rows() && first == t.RowStart(row) && before == GridIndices(t, row, 0)
    ensures indices == GridIndices(t, row + 1, 0) && verticeIndex == t.RowStart(row + 1)
  {
    indices, verticeIndex := before, first;
    var seg := 0;
    while seg <= t.segments
      invariant seg <= t.Columns() && verticeIndex == t.RowStart(row) + seg
      invariant indices == GridIndices(t, row, seg)
    {
      var added := WriteVertex(t, row, seg, verticeIndex);
      indices := indices + added;
      verticeIndex := verticeIndex + 1;
      seg := seg + 1;
    }
    assert seg == t.Columns();
  }

  /** The loop over the rings of one side, whose first row is the given one. */
  method WriteSide(t: Tube, row: nat, first: int, before: seq<int>) returns (indices: seq<int>, verticeIndex: int)
    requires t.Valid() && row + t.rings < t.Rows() && first == t.RowStart(row) && before == GridIndices(t, row, 0)
    ensures indices == GridIndices(t, row + t.rings + 1, 0) && verticeIndex == t.RowStart(row + t.rings + 1)
  {
    verticeIndex, indices := first, before;
    var current := row;
    for ring := 0 to t.rings + 1
      invariant current == row + ring
      invariant verticeIndex == t.RowStart(current) && indices == GridIndices(t, current, 0)
    {
      indices, verticeIndex := WriteRow(t, current, verticeIndex, indices);
      current := current + 1;
    }
  }

  /** One pass of the loop that closes both ends of a partial arc. */
  method WriteEnds(t: Tube, ring: nat) returns (added: seq<int>)
    requires ring < t.rings
    ensures added == IndicesOf(t, [BeginLow(ring), BeginHigh(ring)]) + IndicesOf(t, [EndLow(ring), EndHigh(ring)])
  {
    var segments := t.segments;
    var n, low, high := segments + 1, (t.rings + 1) * 2 - 2 - ring, (t.rings + 1) * 2 - 1 - ring;
    var begin := [n * (ring + 1), n * ring, n * low, n * low, n * ring, n * high];
    var end := [n * low + segments, n * high + segments, n * (ring + 1) + segments,
                n * (ring + 1) + segments, n * high + segments, n * ring + segments];
    EndTriangles(t, ring, n * ring, n * (ring + 1), n * low, n * high) by {
      RowStartIsProduct(t, ring);
      RowStartIsProduct(t, ring + 1);
      RowStartIsProduct(t, low);
      RowStartIsProduct(t, high);
    }
    hide IndicesOf;
    added := begin + end;
  }

  /** The four triangles between the starts of these rows. */
  lemma EndTriangles(t: Tube, ring: nat, here: int, above: int, low: int, high: int)
    requires ring < t.rings && here == t.RowStart(ring) && above == t.RowStart(ring + 1)
    requires low == t.RowStart(2 * t.rings - ring) && high == t.RowStart(2 * t.rings + 1 - ring)
    ensures IndicesOf(t, [BeginLow(ring), BeginHigh(ring)]) == [above, here, low, low, here, high]
    ensures var s := t.segments;
      IndicesOf(t, [EndLow(ring), EndHigh(ring)]) == [low + s, high + s, above + s, above + s, high + s, here + s]
  {
    hide IndicesOf;
    IndicesOfFew(t, BeginLow(ring), BeginHigh(ring));
    IndicesOfFew(t, EndLow(ring), EndHigh(ring));
  }

  method CloseEnds(t: Tube) returns (added: seq<int>)
    ensures added == IndicesOf(t, EndFaces(t, t.rings))
  {
    added := [];
    for ring := 0 to t.rings
      invariant added == IndicesOf(t, EndFaces(t, ring))
    {
      var here := WriteEnds(t, ring);
      IndicesOfConcat(t, EndFaces(t, ring), [BeginLow(ring), BeginHigh(ring)]);
      IndicesOfConcat(t, EndFaces(t, ring) + [BeginLow(ring), BeginHigh(ring)], [EndLow(ring), EndHigh(ring)]);
      added := added + here;
    }
  }

  method WriteTube(t: Tube) returns (indices: seq<int>, verticeIndex: int)
    requires t.Valid()
    ensures indices == Buffer(t) && verticeIndex == t.VertexCount()
  {
    indices, verticeIndex := WriteSide(t, 0, 0, []);
    indices, verticeIndex := WriteSide(t, t.rings + 1, verticeIndex, indices);
    BufferOfLoops(t, indices);
    if t.partialArc {
      var added := CloseEnds(t);
      indices := indices + added;
    }
  }

  lemma BufferOfLoops(t: Tube, grid: seq<int>)
    requires grid == GridIndices(t, t.Rows(), 0)
    ensures Buffer(t) == if t.partialArc then grid + IndicesOf(t, EndFaces(t, t.rings)) else grid
  {
    GridIndicesOfFaces(t, t.Rows(), 0);
    IndicesOfConcat(t, GridFaces(t, t.Rows(), 0), if t.partialArc then EndFaces(t, t.rings) else []);
  }

  function Max(a: int, b: int): (m: int)
    ensures m >= a && m >= b && (m == a || m == b)
  {
    if a < b then b else a
  }

  /** An index buffer with the last column of the grid glued to the first. */
  function Seamless(b: seq<int>, segments: nat): (r: seq<int>)
    ensures |r| == |b|
  {
    seq(|b|, i requires 0 <= i < |b| => if b[i] % (segments + 1) == segments then b[i] - segments else b[i])
  }

  lemma SurfaceOfTube(t: Tube)
    requires t.Valid()
    ensures |Buffer(t)| % 3 == 0
    ensures IsClosedOrientedSurface(if t.partialArc then Buffer(t) else Seamless(Buffer(t), t.segments),
      |Buffer(t)| / 3)
  {
    hide Buffer, Faces, IsClosedOrientedSurface;
    TubeIsClosedSurface(t);
    if !t.partialArc {
      SeamlessIsGlued(t, Buffer(t));
    }
  }

  lemma SeamlessIsGlued(t: Tube, b: seq<int>)
    requires !t.partialArc
    ensures Seamless(b, t.segments) == Glued(t, b)
  {
  }

  lemma FirstTriangle(t: Tube)
    requires t.Valid()
    ensures |Buffer(t)| >= 3 && Buffer(t)[..3] == [t.segments + 1, 1, 0]
  {
    hide Buffer;
    StripIsWrittenAt(t, 0, 0);
    assert t.RowStart(1) == t.segments + 1;
  }

  /** What a caller is promised of the index buffer b over so many vertices. The first triangle
      tells on which side of the surface the triangles run counter-clockwise. */
  ghost predicate IsTubeOf(b: seq<int>, vertices: int, rings: nat, segments: nat, fullArc: bool) {
    && |b| % 3 == 0
    && IsClosedOrientedSurface(if fullArc then Seamless(b, segments) else b, |b| / 3)
    && [segments + 1, 1, 0] <= b
    && (forall i :: 0 <= i < |b| ==> 0 <= b[i] < vertices)
    && vertices == 2 * (rings + 1) * (segments + 1)
    && |b| == 3 * (4 * (rings + 1) * segments + if fullArc then 0 else 4 * rings)
  }

  lemma TubeAsRequested(t: Tube)
    requires t.Valid()
    ensures IsTubeOf(Buffer(t), t.VertexCount(), t.rings, t.segments, !t.partialArc)
  {
    hide Buffer, IsClosedOrientedSurface, Seamless;
    BufferSizes(t);
    SurfaceOfTube(t);
    TubeIsClosedSurface(t);
    FirstTriangle(t);
  }

  /** There is at least one ring and there are three segments, whatever the caller asked for. */
  method CreateTube(requestedRings: int, requestedSegments: int, fullArc: bool)
    returns (indices: seq<int>, verticeIndex: int)
    ensures var rings, segments := Max(requestedRings, 1), Max(requestedSegments, 3);
      && indices == Buffer(Tube(rings, segments, !fullArc))
      && IsTubeOf(indices, verticeIndex, rings, segments, fullArc)
  {
    var rings := Max(requestedRings, 1);
    var segments := Max(requestedSegments, 3);
    hide Buffer, IsTubeOf;
    indices, verticeIndex := WriteTube(Tube(rings, segments, !fullArc));
    TubeAsRequested(Tube(rings, segments, !fullArc));
  }
}
