# Ignition Common: a verified model

This project models nine algorithmic cores of Ignition Common in Dafny 4.11 and proves what they
promise. Code that computes by changing things step by step is modelled by methods and classes with
loops and fields; each is proved equal to a function, and the lemmas say what that function means.

| file | what it models |
|---|---|
| `Common.dfy` | what several modules need |
| `WorkerPool.dfy` | the thread pool: workers, callers, queue, two condition variables and the destructor as a step relation over any number of threads |
| `TubeMesh.dfy` | the index buffer of `CreateTube`: a closed, consistently oriented surface |
| `PolylineWeld.dfy` | the welding of polylines into a vertex table and an edge list |
| `Collada.dfy`, `ColladaMeaning.dfy`, `ColladaSharing.dfy` | COLLADA re-indexing: duplicate maps, vertex sharing, fan triangulation; what the buffers mean, and which corners share a vertex |
| `Sha1.dfy`, `Sha1Vector.dfy` | the streaming SHA-1 digest against FIPS 180-4, and a known answer |
| `Base64.dfy` | Base64 against section 4 of RFC 4648 |
| `Strings.dfy` | `split`, `trimmed`, `replaceAll` |
| `UriParts.dfy`, `UriPrinting.dfy`, `UriQueryPrinting.dfy`, `UriAuthorityPrinting.dfy` | the four component parsers and printers of a URI, and their round trips |
| `UriAuthorityNormal.dfy`, `UriTakenAuthority.dfy` | exactly which authorities come back from their printed form |
| `Uri.dfy`, `UriValidity.dfy`, `UriRoundTrip.dfy`, `UriNormalForm.dfy` | the two splitters and the URI object; when `Parse` agrees with `Valid`; printing and parsing of whole URIs, and exactly when a parsed one comes back |
| `UriGrammar.dfy` | which texts of the grammar of RFC 3986 are accepted, and what they are parsed to |
| `SvgPath.dfy`, `SvgDrawing.dfy`, `SvgStrokes.dfy`, `SvgMeaning.dfy` | SVG subpaths, the expansion of commands, drawing, and what is drawn in the terms of the commands |
| `SvgStitch.dfy` | stitching segments to closed and open polylines |
| `KeyTimes.dfy`, `Animation.dfy`, `Trajectory.dfy`, `NodeAnimation.dfy` | key frame lookup across the wrap, distance along a trajectory, frames of a skeleton node |

`dafny verify dfyconfig.toml` checks the whole project.

## How the code is represented

- A double is a real number and an `int` or `size_t` a mathematical integer, except where a width
  decides the result: SHA-1 words are 32-bit vectors, its two bit counters have their limits written
  out, Base64 works on 8-bit vectors, and `std::stoi` fails outside the range of `int`.
- A distance compared with a bound is a squared distance compared with the square of the bound, so no
  square root is needed. `ignition::math::equal` is taken as a difference of at most 1e-6.
- `std::string::npos` is the length of the string, or one more when a string is searched for. Strings
  hold no NUL character. A test that reads behind the end of a string, as in `URIPath::Parse` and
  `URI::Parse`, counts as false.
- A `std::map` is a sequence in the order of its keys, except where only lookup matters.
- A stretch of code that runs with `queueMtx` held is one step of the thread pool. A timed wait may
  wake spuriously; the wait without a predicate (src/WorkerPool.cc:184) is assumed not to.
- The nodes and weights of a skeleton enter as a table by position, with the handle a node name stands
  for; the bind shape transform is a function on points.
- Three things are functions passed in, about which only what a lemma says is assumed: how an arc is
  sampled, how a curve is interpolated between its control points, and spherical interpolation of
  rotations.

## Where the code limits what can be promised

- `src/URI.cc:271` and `src/URI.cc:357` use the position of `]` as a length: a bracketed host comes
  back from printing and parsing exactly when it has no port
  (`UriAuthorityPrinting.BracketedRoundTripIffNoPort`).
- `URI::Parse` takes `scheme://host:/path` for the beginning of a Windows path, which `URI::Valid`
  does not. There `Parse` agrees with `Valid` exactly when what it takes for the path is one, and
  otherwise fails after clearing the object (`UriValidity.DriveFormParses`,
  `UriValidity.DriveFormCounterexample`).
- `URI::Valid` trims its argument and `URI::Parse` does not. Of the other strings `Parse` accepts
  exactly the valid ones whose text behind the colon is empty or not all white space, and, if there is
  white space in front, whose text is also valid behind another scheme: the scheme is then read with
  the white space and no longer is `file` (`UriValidity.ParseIffValid`,
  `UriValidity.UntrimmedCounterexample`, `UriValidity.LeadingSpaceCounterexample`).
- Not every parsed URI is printed to a text that parses to the same URI. It is, whatever its path,
  query and fragment, exactly when Parse took no authority from the string or all of this holds of the
  authority (`UriNormalForm.UriComesBackIff`, `UriTakenAuthority.TakenComesBack`); each family that
  fails has a witness:
  - something is printed for it (`file://:`, `UriNormalForm.EmptyHostIsLost`);
  - the host does not begin with `@` behind an empty user info (`x://@@`, `UriNormalForm.AtSignIsLost`);
  - the host is not white space alone without a port, unless the scheme is `file` (`x:// :`,
    `UriNormalForm.SpaceIsLost`);
  - a host that begins with `[` is not longer than the position of `]` in the printed text; with a port
    it has that very length and is made of host characters (`x://ab[c]def`,
    `UriNormalForm.BracketTextIsLost`);
  - it is not printed with a colon at the end in front of an absolute path, which is read as a Windows
    path (`x://[::1]:80/`, `UriNormalForm.PortIsLost`).
- Of the grammar of RFC 3986, `URI::Valid` refuses a colon in the user info and `~` or a delimiter in the
  host (but not as their first characters, which it does not look at), and a path that begins with one of
  the marks other than `:`, `%` and `+`; it accepts everything else (`UriGrammar.GrammarAcceptedIff`).
- A valid query comes back exactly when there is at most one character of white space in front of it,
  or nothing else (`UriQueryPrinting.QueryNormalForm`, `UriQueryPrinting.SpaceIsTooMuch`).
- `URIAuthority::Parse` throws `std::out_of_range` for one character of white space; its model
  requires another string, and `Uri.PieceIsNoSpace` shows that `URI::Parse` never passes that one.
- `graphics/src/SVGLoader.cc:577-606`: the case of `a` runs into the one that closes the path. So
  expanding an `a` with several groups adds the start point behind each of its groups that ends far
  from it, and dropping an `a` without numbers loses the one it would have added; whether the polyline
  is the same in the end is decided exactly (`SvgDrawing.ExpansionKeepsDrawing`,
  `SvgDrawing.StatusAfter`; `SvgStrokes.TwoArcsChange`, `SvgStrokes.BareArcChanges`).
- `graphics/src/SVGLoader.cc:668-697`: numbers behind `q` or `z` have group size 0 and the loop never
  ends; the model requires whole groups.
- `graphics/src/ColladaLoader.cc:2350-2366`: normals inside `<vertices>` and the nodes of a skeleton
  follow the position the corner's position was merged into, and are right exactly when they agree
  with those of the corner's own position (`ColladaMeaning.CombinedNormalFollowsMergedPosition`,
  `ColladaMeaning.NodesFollowMergedPosition`; `ColladaMeaning.CombinedNormalIsLost`,
  `ColladaMeaning.NodeIsLost`). With normals both inside `<vertices>` and in a `NORMAL` input read
  before it, vertex i has the normals 2i and 2i + 1, and normal i is that of another vertex
  (`ColladaMeaning.ReexpandsCorners`, `ColladaMeaning.BothNormalsAreShifted`).
- `LoadPolylist` moves each vertex by the bind shape transform of the skeleton
  (graphics/src/ColladaLoader.cc:2056) and `LoadTriangles` does not, so on the same triangles they
  agree exactly when the transform moves none of their positions
  (`ColladaMeaning.LoadersAgreeIffFixed`).
- With a tolerance of zero nothing is welded, not even the end of a segment to the start of the next
  (`PolylineWeld.EdgesChainIffTolerance`).
- An animation whose length is not positive is not wrapped, and the fraction may leave [0, 1]
  (`Animation.FractionInsideIff`, `Animation.FractionCanBeOutside`). `NodeAnimation::FrameAt` loops
  for ever when it has to wrap a time into a length of zero; the model requires a positive length
  there, and a key behind the reduced time, which there always is unless all keys are at negative
  times (`NodeAnimation.CanAlwaysBeAsked`).

## Model

| member | source | states |
|---|---|---|
| `WorkerPool.WorkerPoolPrivate.CheckForOrder` | src/WorkerPool.cc:92-107 | one test of a worker under the mutex: leave when done, sleep when the queue is empty, else take the oldest order and count it as active |
| `WorkerPool.WorkerPoolPrivate.ReportOrder` | src/WorkerPool.cc:116-121 | the active counter goes down; the waiting callers are to be woken exactly when the queue is empty and no order is active |
| `WorkerPool.StepKeepsInv` | src/WorkerPool.cc:83-196 | every step of every thread keeps the queue in order of arrival, each order with at most one holder, the counter exact, and both wake-up conditions |
| `WorkerPool.NoLostWakeups` | src/WorkerPool.cc:83-122 | in every state of every run: a worker sleeps only while the queue is covered by awake idle workers, a caller only while an order waits or is active |
| `WorkerPool.QueuedWorkHasAnAwakeWorker` | src/WorkerPool.cc:83-122 | while the pool is open and orders wait, some worker can take a step |
| `WorkerPool.OrdersAreConserved` | src/WorkerPool.cc:92-121 | every added order is in exactly one of the queue, one worker's hands, or finished; the counter is the number of holders and never negative |
| `WorkerPool.OrdersAreTakenInOrder` | src/WorkerPool.cc:103-106 | an order taken earlier in a run was added earlier |
| `WorkerPool.WaitForResultsIsSound` | src/WorkerPool.cc:167-196 | when it returns true there was an instant between call and return with an empty queue and no active order, so every order added before the call finished work and callback |
| `WorkerPool.TimedWaitReturnsInQuiet` | src/WorkerPool.cc:186-196 | for the timed wait that instant is the return |
| `WorkerPool.AnswerInRun` | src/WorkerPool.cc:167-196 | on every run, each look of a caller at the pool is answered true, false or by sleeping on exactly as stated: true when the pool is open and quiet, or when a caller without a timeout was woken; false when it is done or the time ran out while it was not quiet |
| `WorkerPool.UntimedCallReturnsTrue` | src/WorkerPool.cc:180-196 | while the pool is open, a call without a timeout that has returned has returned true |
| `WorkerPool.FalseHasAReason` | src/WorkerPool.cc:167-196 | a call returns false only in an instant in which the pool is done, or in which it is not quiet and the timer of the call, and not a notification, has ended the wait |
| `WorkerPool.NobodyIsBlocked` | src/WorkerPool.cc:83-196 | in every state work can be added and waited for, and every thread that neither sleeps nor has ended can take its next step |
| `WorkerPool.ShutdownStep` | src/WorkerPool.cc:140-156 | once the destructor has notified, no worker sleeps again, each worker step lowers a measure, no other step raises it, and no order leaves the queue |
| `WorkerPool.ShutdownIsBounded` | src/WorkerPool.cc:140-156 | on every run the workers take at most as many steps as the measure was when they were notified |
| `WorkerPool.ShutdownCompletes` | src/WorkerPool.cc:140-156 | while the destructor joins, some worker can step until all have ended; then the queue holds exactly the orders that were not finished; when the destructor has ended, no caller sleeps |
| `WorkerPool.CallersReturnAfterShutdown` | src/WorkerPool.cc:154-196 | when the destructor has ended, every call of WaitForResults has returned or returns false with its next step |
| `TubeMesh.CreateTube` | graphics/src/MeshManager.cc:1053-1213 | for any request, with r and s the larger of it and one ring and three segments: 2(r+1)(s+1) vertices; 3(4(r+1)s) indices, 12r more for a partial arc; all are in range; the buffer itself is a closed oriented surface for a partial arc, and for a full one after column s is glued to column 0; its first triangle is s+1, 1, 0 |
| `TubeMesh.WriteVertex` | graphics/src/MeshManager.cc:1100-1142 | the indices written for one vertex are those of the triangles of its strips and caps |
| `TubeMesh.WriteEnds` | graphics/src/MeshManager.cc:1195-1211 | the twelve indices of a ring of the closing loop are its four end triangles |
| `TubeMesh.FacesExact` | graphics/src/MeshManager.cc:1078-1213 | every triangle of the tube is written, and written once |
| `TubeMesh.TwinExists` | graphics/src/MeshManager.cc:1078-1213 | every edge of a triangle is run along in the opposite direction by some triangle |
| `TubeMesh.EdgesDistinct` | graphics/src/MeshManager.cc:1078-1213 | no two triangles run along the same edge in the same direction |
| `TubeMesh.TubeIsClosedSurface` | graphics/src/MeshManager.cc:1078-1213 | all indices are in range; every directed edge and its reverse occur exactly once, after gluing the last column to the first for a full arc; the Euler characteristic is that of a sphere for a partial arc and of a torus for a full one |
| `TubeMesh.EveryVertexIsUsed` | graphics/src/MeshManager.cc:1078-1213 | every vertex is a corner of some triangle |
| `TubeMesh.TubeIsConnected` | graphics/src/MeshManager.cc:1078-1213 | a walk along edges of the buffer, glued for a full arc, leads from every vertex to every other one |
| `TubeMesh.BufferSizes` | graphics/src/MeshManager.cc:1078-1213 | 2(rings+1)(segments+1) vertices, and four triangles for each ring row and segment, plus four for each ring of a partial arc |
| `TubeMesh.StripIsWrittenAt` | graphics/src/MeshManager.cc:1101-1115 | for every vertex of a strip row, in vertex numbers: at which place of the buffer its two triangles are, and in which order their corners are run around |
| `TubeMesh.TopCapIsWrittenAt` | graphics/src/MeshManager.cc:1117-1127 | the same for the top cap |
| `TubeMesh.BottomCapIsWrittenAt` | graphics/src/MeshManager.cc:1130-1140 | and for the bottom cap |
| `TubeMesh.BeginIsWrittenAt` | graphics/src/MeshManager.cc:1195-1202 | the two triangles of each ring where a partial arc begins come behind all others, ring after ring |
| `TubeMesh.EndIsWrittenAt` | graphics/src/MeshManager.cc:1204-1211 | and those where it ends |
| `PolylineWeld.VertexTable.AddUniquePoint` | graphics/src/MeshManager.cc:1301-1319 | returns the first vertex nearer than the tolerance, or appends the point |
| `PolylineWeld.ConvertPolylinesToVerticesAndEdges` | graphics/src/MeshManager.cc:1322-1350 | the loops compute the welding function on table and polylines |
| `PolylineWeld.FirstNearIsFirst` | graphics/src/MeshManager.cc:1306-1315 | a point's vertex is near it and no earlier vertex is |
| `PolylineWeld.FirstNearStable` | graphics/src/MeshManager.cc:1306-1318 | a point keeps its vertex when the table grows |
| `PolylineWeld.TableStaysSeparatedAll` | graphics/src/MeshManager.cc:1301-1350 | the table only grows and its vertices stay at least the tolerance apart |
| `PolylineWeld.ConvertedAllIsWelded` | graphics/src/MeshManager.cc:1322-1350 | for a non-zero tolerance every point is within it of its vertex, and the edges join the vertices of consecutive points in the final table |
| `PolylineWeld.PolyEdgesAreWalk` | graphics/src/MeshManager.cc:1328-1349 | the edges of a polyline chain from the vertex of its first point to that of its last; none is a self-loop |
| `PolylineWeld.WeldedLoopsBalance` | graphics/src/MeshManager.cc:1322-1350 | polylines that end where they start give every vertex as many edges in as out |
| `PolylineWeld.ZeroToleranceNeverWelds` | graphics/src/MeshManager.cc:1301-1319 | with a zero tolerance every segment gets two vertices of its own |
| `PolylineWeld.EdgesChainIffTolerance` | graphics/src/MeshManager.cc:1322-1350 | the edges of every polyline chain exactly when the tolerance is not zero |
| `Collada.SourceCache.Load` | graphics/src/ColladaLoader.cc:1285-1359 | a source that was read before replaces what there was, one that cannot be found or read changes nothing, another one is appended and cached; valid sources stay valid |
| `Collada.LoadSource` | graphics/src/ColladaLoader.cc:1336-1359 | the values read are placed and appended; the duplicate map gets, for each value that was read before, the index it was first at |
| `Collada.DuplicateAt` | graphics/src/ColladaLoader.cc:1352-1356 | an index is in the duplicate map exactly when its value occurs earlier, and is sent to the first occurrence |
| `Collada.RemapMergesEqualValues` | graphics/src/ColladaLoader.cc:1352-1356 | two indices are merged exactly when their values are equal; merging keeps the value and is idempotent |
| `Collada.LoadedSourceIsValid` | graphics/src/ColladaLoader.cc:1285-1359 | loading into vectors that hold something already, as a second TEXCOORD input does, keeps each duplicate index, and what it is sent to, in range and of equal value |
| `Collada.MergedKeepsValue` | graphics/src/ColladaLoader.cc:2276-2278 | what an index is merged into is in range and holds the same value |
| `Collada.FindShared` | graphics/src/ColladaLoader.cc:2291-2337 | the first record of a position with the same normal and texture coordinate |
| `Collada.AddCorner` | graphics/src/ColladaLoader.cc:2267-2396 | one corner: its vertex is shared, or a vertex with its values and its skeleton nodes is added and recorded, overwriting the position's list |
| `Collada.LoadTriangles` | graphics/src/ColladaLoader.cc:2262-2397 | the buffers are those of the corners of the stream, one after the other, without the bind shape transform |
| `Collada.LoadPolylist` | graphics/src/ColladaLoader.cc:1935-2113 | the buffers are those of the corners of the fans of all polygons |
| `Collada.CornerNumbers` | graphics/src/ColladaLoader.cc:2262-2265 | corner c of a stream holds the numbers from c times the number of inputs on |
| `Collada.ValidCornerIff` | graphics/src/ColladaLoader.cc:2262-2397 | what is required of a stream: every corner is whole, and its indices are those of values that were read |
| `Collada.ValidPolygonsIff` | graphics/src/ColladaLoader.cc:1935-1961 | of a polygon list only the corners of polygons of three or more are read, and have to be valid |
| `ColladaMeaning.ReexpandsCorners` | graphics/src/ColladaLoader.cc:2262-2397 | the k-th index leads to the position, normal, texture coordinate and skeleton nodes of the k-th corner; there is one texture coordinate for each vertex; with both kinds of normals vertex i has the one from the vertices at 2i and the other at 2i + 1; every vertex is used |
| `ColladaSharing.SharesWithLatest` | graphics/src/ColladaLoader.cc:2267-2396 | a corner and the latest one before it at the same merged position share a vertex exactly when their merged normals and texture coordinates are the same; otherwise no corner before it has its vertex |
| `ColladaSharing.NewPositionIsNewVertex` | graphics/src/ColladaLoader.cc:2281-2284 | a corner at a position that is new gets a new vertex |
| `ColladaMeaning.PolylistMeaning` | graphics/src/ColladaLoader.cc:1935-2113 | the index buffer has 3 sum(max(0, vcount - 2)) entries and re-expands to the fans, corner by corner |
| `ColladaMeaning.CombinedNormalFollowsMergedPosition` | graphics/src/ColladaLoader.cc:2350-2351 | a normal inside the vertices is the corner's own exactly when it equals the normal of the merged position |
| `ColladaMeaning.CombinedNormalIsLost` | graphics/src/ColladaLoader.cc:2350-2351 | two equal positions with different normals: the second corner shows the first one's |
| `ColladaMeaning.BothNormalsAreShifted` | graphics/src/ColladaLoader.cc:2350-2378 | two corners with both kinds of normals: one of them finds the normal of the other at its index |
| `ColladaMeaning.NodesFollowMergedPosition` | graphics/src/ColladaLoader.cc:2352-2366 | the vertex of a corner hangs on the nodes of its position exactly when these are those of the merged position |
| `ColladaMeaning.NodeIsLost` | graphics/src/ColladaLoader.cc:2352-2366 | two equal positions of which only the second has a node: the vertex of both has none |
| `ColladaMeaning.WithoutPositions` | graphics/src/ColladaLoader.cc:2267-2272 | without a VERTEX input there are no vertices and no indices, and the i-th normal and texture coordinate are those the i-th corner names |
| `ColladaMeaning.BindMovesVertices` | graphics/src/ColladaLoader.cc:2053-2058 | applying the bind shape transform to the vertices of LoadTriangles gives those of LoadPolylist; all else is the same |
| `ColladaMeaning.LoadersAgreeIffFixed` | graphics/src/ColladaLoader.cc:2053-2058 | behind the same corners the buffers are equal exactly when the transform moves no corner's position |
| `ColladaMeaning.TrianglesAreThreeSidedPolygons` | graphics/src/ColladaLoader.cc:1935-2113 | on polygons of three corners LoadPolylist builds what LoadTriangles builds, moved by the transform if there is a skeleton |
| `ColladaMeaning.FanKeepsOutline` | graphics/src/ColladaLoader.cc:1941-1956 | the edges of a fan are those of its polygon, once and the same way round, and each diagonal once in either direction |
| `ColladaMeaning.FanCorners` | graphics/src/ColladaLoader.cc:1941-1961 | triangle k - 2 of the fan over a polygon is made of its corners 0, k - 1 and k, in this order |
| `Sha1.RoundFunctionAgrees` | src/Util.cc:124-146 | the or-forms of the round functions are the xor-forms of section 4.1.1 of FIPS 180-4 |
| `Sha1.RoundAgrees` | src/Util.cc:122-154 | a round of the program is step 3 of section 6.1.2 |
| `Sha1.Sha1.BlockSchedule` | src/Util.cc:100-114 | the message schedule of the full block |
| `Sha1.Sha1.ProcessBlock` | src/Util.cc:99-161 | the compression of the full block into the hash |
| `Sha1.Sha1.Byte` | src/Util.cc:94-161 | after each byte the hash is the standard's value for the whole blocks fed so far, and the buffer holds the rest |
| `Sha1.Sha1.Pad` | src/Util.cc:198-218 | appends the byte 0x80 and the smallest number of zero bytes that leaves room for the length |
| `Sha1.Sha1.CountByte` | src/Util.cc:177-195 | both counters together count bits, and fail exactly when they would reach 2^64 |
| `Sha1.Sha1.Consume` | src/Util.cc:170-196 | after the loop the counters hold eight times the number of bytes; it fails exactly from 2^61 bytes on |
| `Sha1.Sha1.Digest` | src/Util.cc:165-240 | the digest of FIPS 180-4 of the message, or failure exactly from 2^61 bytes on; the buffer index ends at 0 |
| `Sha1.LengthBytes` | src/Util.cc:220-237 | the eight bytes taken from the two counters are the 64-bit big-endian length |
| `Sha1.Sha1Hex` | src/Util.cc:337-350 | forty digits 0-9 and a-f, of which each eight, read as a hexadecimal number, are the next word of the digest of FIPS 180-4; the empty string for a message that is too long |
| `Sha1.HexHashInjective` | src/Util.cc:343-347 | the printed digest has 40 characters and determines the digest |
| `Sha1Vector.EmptyMessage` | src/Util_TEST.cc:54-58 | the digest of the empty message is da39a3ee 5e6b4b0d 3255bfef 95601890 afd80709, followed through the message schedule and all eighty rounds |
| `Base64.Encode` | src/Base64.cc:62-105 | the loop over groups and the tail compute the encoding |
| `Base64.Decode` | src/Base64.cc:108-169 | the loop over characters computes the decoding of the text up to the first character outside the alphabet |
| `Base64.EncodedIsStandard` | src/Base64.cc:62-105 | for every byte sequence the encoding regroups the bits as section 4 of RFC 4648 prescribes, with its one- and two-byte tails, in 4 ceil(n/3) characters |
| `Base64.DecodeEncode` | src/Base64.cc:62-169 | decoding undoes encoding for every byte sequence |
| `Base64.EncodedIsCanonical` | src/Base64.cc:62-105 | the encoding is canonical text: whole groups, the last one padded, with zero bits where there are no bytes |
| `Base64.EncodeDecode` | src/Base64.cc:62-169 | for every string, encoding undoes decoding exactly when the string is canonical |
| `Base64.CanonicalTextsAreDistinct` | src/Base64.cc:108-169 | canonical texts decode to the same bytes exactly when they are the same |
| `Base64.WholeGroupsAreCanonical` | src/Base64.cc:108-169 | text of the alphabet alone is canonical exactly when its length is a multiple of four |
| `Base64.IncompleteGroupIsFilled` | src/Base64.cc:145-166 | text that ends inside a group decodes like the text filled with the character of value zero, without the bytes the filling takes part in |
| `Base64.DecodingStops` | src/Base64.cc:116-118 | from the first character outside the alphabet on nothing counts |
| `Strings.SplitTokens` | src/Util.cc:360-377 | the strtok loop computes the maximal runs of other characters |
| `Strings.SplitTokensExact` | src/Util.cc:360-377 | tokens are not empty, hold no delimiter, and together are the string without its delimiters |
| `Strings.SplitOfJoin` | src/Util.cc:360-377 | splitting undoes joining of parts that hold no delimiter |
| `Strings.TrimmedExact` | src/Util.cc:402-420 | trimming takes white space off at both ends, until there is none, and nothing else |
| `Strings.SpaceSet` | src/Util.cc:402-413 | white space is the space, the tabulators, line feed, form feed and carriage return |
| `Strings.ReplaceAll` | src/Util.cc:439-451 | the loop ends for every non-empty key |
| `Strings.ReplacedIsSubstituted` | src/Util.cc:439-451 | with a replacement at least as long as the key it is left-to-right substitution |
| `Strings.SubstitutedCharIsGone` | src/Util.cc:439-451 | a replaced character that is not in the replacement does not occur in the result |
| `Strings.NoDoubleSlash` | src/Filesystem.cc:216-216 | replacing two slashes by one leaves no two slashes in a row |
| `UriParts.StoiOfPrintInt` | src/URI.cc:191-206 | reading a port undoes printing it for every int and refuses larger numbers; it is printed without plus sign and leading zeros |
| `UriParts.StoiReads` | src/URI.cc:371-380 | `std::stoi`: white space, a sign, the digits behind it, whatever follows; nothing without a digit or outside the range of int |
| `UriParts.URIAuthority.Parse` | src/URI.cc:326-383 | the new state is a function of the string; a string that is not valid leaves the old one |
| `UriParts.URIPath.Parse` | src/URI.cc:603-620 | the same for the path, with its segments, leading and trailing slash |
| `UriParts.URIQuery.Parse` | src/URI.cc:735-755 | the same for the query and its pairs |
| `UriParts.URIFragment.Parse` | src/URI.cc:859-872 | the same for the fragment |
| `UriParts.URIPath.PushFront` | src/URI.cc:433-462 | a leading slash makes the path absolute, other slashes are encoded, an empty part changes nothing |
| `UriParts.URIPath.PushBack` | src/URI.cc:465-493 | the same behind the other segments; a leading slash counts only in an empty path |
| `UriParts.PushesKeepSegments` | src/URI.cc:433-493 | after any sequence of both no stored segment contains a slash |
| `UriPrinting.PathRoundTripIff` | src/URI.cc:511-532 | for every path whose segments are not empty and hold no slash: parsing the printed form gives it back, trailing slash included, whatever the object held, exactly when that form is valid and is not a trailing slash alone |
| `UriPrinting.PathPrintsCollapsed` | src/URI.cc:511-532 | for every string, printing the parsed path gives the string with its runs of slashes collapsed, or two slashes if there is nothing else |
| `UriPrinting.PathNormalForm` | src/URI.cc:603-620 | for every valid string, printing the parsed path is a normal form: it parses to the same structure |
| `UriPrinting.PathPrintsBack` | src/URI.cc:511-532 | for strings without an empty segment printing undoes parsing |
| `UriPrinting.PushFrontPrints` | src/URI.cc:433-462 | what is printed after a push to the front: the part with each slash as %2F, a slash, and what was printed before; its own first slash makes the path absolute instead |
| `UriPrinting.PushBackPrints` | src/URI.cc:465-493 | what is printed after a push to the back: what was printed before, a slash, and the part with each slash as %2F; only in an empty path its own first slash makes the path absolute |
| `UriQueryPrinting.QueryRoundTrip` | src/URI.cc:665-682 | parsing a printed query gives its pairs back |
| `UriQueryPrinting.QueryPrints` | src/URI.cc:665-755 | for every string, printing the parsed query gives the texts between the & again, those of two words with a single = between these, the others unchanged |
| `UriQueryPrinting.QueryNormalForm` | src/URI.cc:735-755 | for every valid query string: parsing the printed form of its pairs gives them again exactly when there is at most one character of white space in front, or nothing else |
| `UriQueryPrinting.SpaceIsTooMuch` | src/URI.cc:735-755 | two characters of white space in front of a mark are too many |
| `UriPrinting.FragmentRoundTrip` | src/URI.cc:801-806 | parsing a printed fragment gives it back |
| `UriAuthorityPrinting.AuthorityRoundTrip` | src/URI.cc:191-206 | parsing a printed authority without brackets gives back user info, host and port, and sets the two flags by how it was parsed; an empty host that is not allowed is refused and the old state stays |
| `UriAuthorityPrinting.BracketedRoundTripIffNoPort` | src/URI.cc:352-358 | a bracketed host comes back exactly when there is no port |
| `UriAuthorityPrinting.BracketedPortIsLost` | src/URI.cc:352-358 | [::1] with port 80 does not |
| `UriAuthorityPrinting.EmptyHostRoundTrip` | src/URI.cc:335-339 | the empty host of a file URI comes back |
| `UriAuthorityNormal.AuthorityComesBackIff` | src/URI.cc:191-383 | for every authority an object can hold, whatever its flags: parsing the printed form gives it back exactly when the user info has no @ and only its characters, the host none behind an empty one, and the host is a plain one or one in brackets of the right length |
| `UriTakenAuthority.TakenComesBackIff` | src/URI.cc:191-383 | for every valid text that begins with two slashes: the authority Parse makes of it comes back exactly when something is printed, no second @ leads the host, it is not trimmed away, and brackets stand where their position is the length |
| `Uri.URI.Parse` | src/URI.cc:1093-1177 | result and new state are a function of the old state and the string |
| `Uri.PieceIsNoSpace` | src/URI.cc:1118-1142 | the authority piece Parse hands on is never a single white space |
| `UriValidity.PiecesParse` | src/URI.cc:1165-1176 | the component parsers succeed exactly on valid pieces, and leave a state that depends on the pieces alone |
| `UriValidity.PiecesFail` | src/URI.cc:1165-1176 | when one fails, the components before it have been parsed and the others are as they were |
| `UriValidity.NoHostChangesNothing` | src/URI.cc:1111-1136 | a text without a host where one is needed is refused and changes nothing |
| `UriValidity.ParseIffPieces` | src/URI.cc:1093-1177 | for every string Parse succeeds exactly when it is valid and the pieces Parse cuts it into are; the new state depends on the string alone; a string that is not valid changes nothing |
| `UriValidity.ParseIffValid` | src/URI.cc:1010-1177 | for every string not of the drive-letter form: Parse succeeds exactly when Valid holds, the text behind the colon is empty or not all white space, and, with white space in front, the text is valid behind a scheme other than file too |
| `UriValidity.ParseMatchesValid` | src/URI.cc:1010-1177 | in particular for trimmed strings: Parse succeeds exactly when Valid holds, a failed Parse changes nothing, a successful one leaves a state that depends on the string alone |
| `UriValidity.DriveFormParses` | src/URI.cc:1119-1131 | in the drive-letter form Parse agrees with Valid exactly when the authority without its slashes and the path are a valid path; otherwise it fails after clearing |
| `UriValidity.DriveFormCounterexample` | src/URI.cc:1119-1131 | a valid string in that form which Parse refuses |
| `UriValidity.UntrimmedCounterexample` | src/URI.cc:1093-1109 | a valid string with white space behind it which Parse refuses |
| `UriValidity.LeadingSpaceCounterexample` | src/URI.cc:1093-1109 | a valid file URI with white space in front which Parse refuses |
| `UriRoundTrip.PrintedUriSplits` | src/URI.cc:1039-1163 | both splitters take a printed URI apart into the printed pieces |
| `UriRoundTrip.UriRoundTrip` | src/URI.cc:901-910 | for every well-formed URI, with no authority, a default one, a plain host or a bracketed one without port, the printed text is parsed, whatever the object held, to the same scheme, user info, host, port, path, query and fragment, with the two internal flags as stated |
| `UriRoundTrip.FullUriIsWellFormed` | src/URI.cc:901-910 | the round trip covers URIs with every component present |
| `UriGrammar.GrammarAcceptedIff` | src/URI.cc:1010-1090 | of the texts that follow the grammar of RFC 3986, Valid accepts exactly those without a colon in the user info and without tilde and delimiters in the host (their first characters aside), with a host unless the scheme is file, and whose path does not begin with most of the marks |
| `UriGrammar.GrammarParsed` | src/URI.cc:1093-1177 | Parse accepts the same ones, unless an empty port stands in front of a path, whatever the object held, and takes scheme, authority, path, query and fragment from their places |
| `UriGrammar.AuthorityRead` | src/URI.cc:316-383 | of such an authority user info, host and port are taken from their places; a bracketed host comes out whole without a port |
| `UriGrammar.AuthorityAcceptedIff` | src/URI.cc:230-310 | the part of the first statement that concerns the authority |
| `UriGrammar.AuthorityValidIff` | src/URI.cc:227-310 | any text of user info, name and port, in the grammar or not, is accepted exactly when its characters but the first of each part are allowed ones |
| `UriGrammar.NoAuthority` | src/URI.cc:227-272 | a text that does not begin with two slashes is refused, and so is one whose first bracket is not closed |
| `UriGrammar.ComponentsValidIff` | src/URI.cc:563-600 | exactly which texts are accepted as path, query or fragment, in terms of the characters of RFC 3986 |
| `UriGrammar.SameSets` | src/URI.cc:575-583 | the allowed characters of query and fragment are those of RFC 3986 and the percent sign, those of a path brackets and the space besides |
| `UriGrammar.UserInfoSet` | src/URI.cc:240-254 | those of user info are the ones of RFC 3986 without the colon |
| `UriGrammar.HostSet` | src/URI.cc:288-300 | those of a host are the unreserved ones without the tilde, percent sign, brackets, colon and space |
| `UriGrammar.StartSet` | src/URI.cc:587-597 | with which characters a path may begin |
| `UriNormalForm.UriComesBackIff` | src/URI.cc:901-1177 | for every string that is parsed, with white space or a drive letter too: the printed URI is parsed to the same URI, whatever the object held, exactly when no authority was taken from the string, or its authority comes back and is not printed with a colon at the end in front of an absolute path |
| `UriNormalForm.EmptyHostIsLost` | src/URI.cc:191-206 | file://: does not come back |
| `UriNormalForm.AtSignIsLost` | src/URI.cc:342-347 | x://@@ does not come back |
| `UriNormalForm.SpaceIsLost` | src/URI.cc:223-225 | x:// : does not come back |
| `UriNormalForm.BracketTextIsLost` | src/URI.cc:352-358 | x://ab[c]def does not come back |
| `UriNormalForm.PortIsLost` | src/URI.cc:1119-1131 | x://[::1]:80/ does not come back |
| `SvgPath.SplitSubpaths` | graphics/src/SVGLoader.cc:627-653 | the subpaths together are the commands; every added one starts with a move and holds no other |
| `SvgPath.ExpandCommand` | graphics/src/SVGLoader.cc:668-697 | the loop over the groups of a command appends its expansion |
| `SvgPath.ExpandCommands` | graphics/src/SVGLoader.cc:656-700 | every subpath is expanded |
| `SvgPath.ExpansionKeepsNumbers` | graphics/src/SVGLoader.cc:685-697 | expansion cuts the numbers into groups of the command's size, in order, and loses none |
| `SvgPath.ExpandedInGroups` | graphics/src/SVGLoader.cc:668-697 | an expanded command is made of commands with its letter and two, six, seven or one numbers each, by the letter, which together are its numbers; Z and z stay, other letters that take no number are dropped |
| `SvgPath.ExpandedInOrder` | graphics/src/SVGLoader.cc:667-698 | the commands of a subpath are expanded one after the other |
| `SvgDrawing.GroupsDrawTheSame` | graphics/src/SVGLoader.cc:493-576 | a command other than a draws the same as its groups |
| `SvgDrawing.ArcsRelated` | graphics/src/SVGLoader.cc:577-606 | an a with numbers against its groups, from drawings that were the same: the same end, and the same polyline exactly when it is near its start between the groups |
| `SvgDrawing.CommandRelated` | graphics/src/SVGLoader.cc:482-700 | every command takes the two drawings from the relation its status names to the one of the next status |
| `SvgDrawing.ExpansionKeepsDrawing` | graphics/src/SVGLoader.cc:482-700 | for every subpath of whole groups, drawing the expanded commands ends at the same point, and gives the same polyline exactly when the status computed along the compact drawing is Same at the end |
| `SvgDrawing.OneArcEachIsSame` | graphics/src/SVGLoader.cc:577-606 | in particular when every a has one group |
| `SvgStrokes.CubicBezier` | graphics/src/SVGLoader.cc:268-287 | the loop appends the samples of the curve |
| `SvgStrokes.BezierSamples` | graphics/src/SVGLoader.cc:268-287 | with n samples n points, the last the end point, the others at the multiples of 1/n |
| `SvgStrokes.BezierEnds` | graphics/src/SVGLoader.cc:246-264 | the interpolation starts and ends at the outer control points |
| `SvgStrokes.SubpathToPolyline` | graphics/src/SVGLoader.cc:482-612 | the loops compute the drawing of the subpath, which the rows of `SvgMeaning` describe; a polyline that is not empty is refused |
| `SvgMeaning.LinesDrawn` | graphics/src/SVGLoader.cc:500-526 | m, l, M and L draw one point for each pair of numbers: point i is pair i, counted from point i - 1 (at first from the last point) for lower-case letters and from the origin for the others; the drawing ends at the last point |
| `SvgMeaning.CurveAdded` | graphics/src/SVGLoader.cc:527-558 | each group of c and C draws n points, the last of which is the last pair of the group, the others the samples with the other pairs as control points; for c all pairs count from the point before the group |
| `SvgMeaning.ArcAdded` | graphics/src/SVGLoader.cc:559-595 | each group of a and A draws the arc with its first five numbers to its last pair, which counts from the point before the group for a |
| `SvgMeaning.CommandDrawn` | graphics/src/SVGLoader.cc:493-610 | Z and z, and a at its end, add the first point again unless the drawing is within 1e-5 of it; v, h and unknown letters draw nothing |
| `SvgMeaning.RelativeDrawingIsCarried` | graphics/src/SVGLoader.cc:482-612 | a subpath of lower-case commands that starts at a point moved by v draws the same polyline moved by v |
| `SvgMeaning.BezierIsDivision` | graphics/src/SVGLoader.cc:246-264 | the interpolated point is that of repeated division of the control polygon at t |
| `SvgMeaning.BezierCarries` | graphics/src/SVGLoader.cc:246-264 | moving the control points moves the curve |
| `SvgStrokes.ExpandedSubpathDrawsAlike` | graphics/src/SVGLoader.cc:482-700 | ExpansionKeepsDrawing for the strokes of the program and any arc sampling |
| `SvgStrokes.TwoArcsChange` | graphics/src/SVGLoader.cc:577-606 | an a with two groups, the first ending far from the start, draws another polyline when expanded |
| `SvgStrokes.BareArcChanges` | graphics/src/SVGLoader.cc:577-606 | so does an a without numbers behind a line that ends far from the start |
| `SvgStitch.CutHangsTogether` | graphics/src/SVGLoader.cc:1111-1126 | the segments cut from a polyline hang together from its first point on, none is short, and its last point is at or near their end |
| `SvgStitch.CutNext` | graphics/src/SVGLoader.cc:1112-1126 | one point more adds the segment to it from where the others end, unless it is too near that |
| `SvgStitch.CutAllInOrder` | graphics/src/SVGLoader.cc:1109-1128 | the segments of several polylines are those of each in order |
| `SvgStitch.SegmentsInOrder` | graphics/src/SVGLoader.cc:1107-1129 | and those of several paths |
| `SvgStitch.FindSegment` | graphics/src/SVGLoader.cc:1148-1164 | the first segment that touches the tail, and its other end; when both ends touch, the first one |
| `SvgStitch.GrowPolyline` | graphics/src/SVGLoader.cc:1133-1181 | the two inner loops grow one polyline |
| `SvgStitch.PathsToClosedPolylines` | graphics/src/SVGLoader.cc:1097-1195 | the loops end, and append the closed and the open polylines of the stitching |
| `SvgStitch.StitchingConserves` | graphics/src/SVGLoader.cc:1131-1195 | the segments used are those there were, each as often; every polyline is a chain of segments that meet within the tolerance and closes as soon as it can; nothing that was left touches the end of an open one |
| `SvgStitch.StitchingIsGreedy` | graphics/src/SVGLoader.cc:1131-1181 | each chain begins with the first segment no earlier chain used, and takes, point after point, the first of the segments left that touches its end |
| `SvgStitch.PolylinesInOrder` | graphics/src/SVGLoader.cc:1184-1193 | the closed polylines are in the order of their chains, and so are the open ones |
| `SvgStitch.LinesAreSegments` | graphics/src/SVGLoader.cc:1131-1195 | point counts minus one add up to the number of segments |
| `SvgStitch.ClosedPolylinesClose` | graphics/src/SVGLoader.cc:1170-1186 | a closed polyline has three points or more and ends within the tolerance of its start |
| `SvgStitch.ClosedWithinTolerance` | graphics/src/SVGLoader.cc:1086-1094 | in coordinates: the squares of the differences between its ends add up to less than that of the tolerance |
| `SvgStitch.CutAreLong` | graphics/src/SVGLoader.cc:1116-1121 | no segment is shorter than the tolerance |
| `SvgStitch.OpenPolylinesAreStuck` | graphics/src/SVGLoader.cc:1187-1193 | the end of an open polyline touches no segment that was still there |
| `KeyTimes.Wrap` | graphics/src/Animation.cc:163-164 | the loop that takes off whole lengths ends |
| `KeyTimes.WrappedIsInside` | graphics/src/Animation.cc:163-164 | a time behind the end becomes a positive one inside, whole lengths earlier; others stay |
| `KeyTimes.InterpolatedBetween` | graphics/src/Animation.cc:332-342 | linear interpolation at a fraction in [0, 1] stays between the values |
| `KeyTimes.PutStores` | graphics/src/NodeAnimation.cc:72-72 | an assignment to a map entry changes that entry and no other |
| `Animation.NumericAnimation.CreateKeyFrame` | graphics/src/Animation.cc:305-316 | the key frame is added and the list stays sorted |
| `Animation.CreationKeepsOrder` | graphics/src/Animation.cc:305-316 | after any creations the list is sorted, complete, and in order of creation for equal times |
| `Animation.NumericAnimation.KeyFramesAtTime` | graphics/src/Animation.cc:154-199 | computes the two key frames and the fraction |
| `Animation.LookupBrackets` | graphics/src/Animation.cc:163-193 | the key frames are around the reduced time: neighbours, or the last and the first across the wrap, or the first one before it |
| `Animation.FractionIsInside` | graphics/src/Animation.cc:190-199 | for a positive length and times not negative the fraction is in [0, 1] and tells where between the two times the reduced time is |
| `Animation.FractionInsideIff` | graphics/src/Animation.cc:154-199 | in general the fraction is in [0, 1] exactly when the reduced time is not behind the last key, or not behind the first key one length later, or those two count as equal |
| `Animation.FractionCanBeOutside` | graphics/src/Animation.cc:154-199 | with length 0 and keys at 0 and 1, time 2 has the fraction -1 |
| `Animation.NumericAnimation.InterpolatedKeyFrame` | graphics/src/Animation.cc:319-343 | computes the interpolated value, which `Animation.ValueInTime` places |
| `Animation.ReducedIsInside` | graphics/src/Animation.cc:163-164 | the time looked up is the given one less whole lengths, inside a positive length |
| `Animation.ValueInTime` | graphics/src/Animation.cc:154-343 | at a key frame's own time the value is that of the first key frame of this time; between two, and across the wrap, (value - v1)(t2 - t1) = (v2 - v1)(r - t1), unless the times or the fraction count as equal to each other or to 0, when it is v1; before all it is the first |
| `Animation.InterpolatedStaysBetween` | graphics/src/Animation.cc:319-343 | interpolated values stay between those of the two key frames |
| `Trajectory.TrajectoryInfo.SetWaypoints` | graphics/src/Animation.cc:492-527 | start, end, and for each waypoint, under its time from the start, the distance from the one before it and a key frame with its pose |
| `Trajectory.WaypointsGiveSegments` | graphics/src/Animation.cc:508-523 | that map has increasing times and distances that are not negative, the first at 0 and 0 |
| `Trajectory.TrajectoryInfo.DistanceSoFar` | graphics/src/Animation.cc:420-445 | the loop and the last part compute the distance |
| `Trajectory.DistanceGrows` | graphics/src/Animation.cc:420-445 | the distance never shrinks with time and lies between 0 and the total |
| `Trajectory.DistanceAtWaypoints` | graphics/src/Animation.cc:420-445 | at a waypoint it is the sum of the segments so far, from the last one on the total |
| `Trajectory.DistanceIsWay` | graphics/src/Animation.cc:420-523 | for what SetWaypoints stores: at a waypoint the distance is the sum of the distances of consecutive waypoints up to it, between two of them it grows with the time at an even pace, and from the last one on it is the total |
| `Trajectory.NothingBeforeTheStart` | graphics/src/Animation.cc:425-444 | up to the start it is 0 |
| `NodeAnimation.NodeAnimation.AddKeyFrame` | graphics/src/NodeAnimation.cc:66-73 | the entry is set and the length stays the last time, or 0 |
| `NodeAnimation.NodeAnimation.FrameAt` | graphics/src/NodeAnimation.cc:129-187 | computes the frame at a time |
| `NodeAnimation.FrameIsBetweenNeighbours` | graphics/src/NodeAnimation.cc:129-187 | the branch for an invalid time range is never taken; the frame is that of a key frame at the reduced time or before all, or lies between its two neighbours at the fraction of the time |
| `NodeAnimation.ReducedInside` | graphics/src/NodeAnimation.cc:131-143 | a time behind the end is the end, or in a loop less whole lengths; others stay |
| `NodeAnimation.FrameInTime` | graphics/src/NodeAnimation.cc:129-187 | which frame it is, exactly: the last one at the end, the first one before all, the next one when the time counts as its; else each coordinate of the translation is on the line in time between the two neighbours, and the rotation is interpolated at the same fraction |
| `NodeAnimation.CanAlwaysBeAsked` | graphics/src/NodeAnimation.cc:129-187 | the search never runs off the end when the last key is not at a negative time |
| `NodeAnimation.FrameAtKeyFrame` | graphics/src/NodeAnimation.cc:145-187 | at the time of a key frame, when the next one is further away than the tolerance, the translation is its own and the rotation is where spherical interpolation to the next one begins; the last one is found as it is |

## Left out

- WaitForResultsIsSound: assumes that the wait without a predicate is not woken spuriously.
- Base64.Encode: the length is a mathematical number; inputs longer than an `int` are not modelled.
- LoadSource: takes the values as already read from the file; it does not model the hash functions of vectors, and compares values exactly.
- SubpathToPolyline: an arc is sampled by a function passed in, so the trigonometry of `arcPath` is not modelled.
- UriRoundTrip: does not cover bracketed hosts with a port, which do not come back (`UriAuthorityPrinting.BracketedRoundTripIffNoPort`).
- FollowsGrammar: takes an IP literal by its characters, not by the structure of an IPv6 address.
- SplitSubpaths: requires a subpath to be there when the first command is not a move, since the program takes the last of an empty list.
- ReplaceAll: requires a non-empty key; with an empty one the loop of the program need not end.
- How the list of key frames is shared through pointers: a key frame is a value, set when it is created.
- `Animation::Time` and `AddTime`, and the splines of pose animations.
- Positions, normals and texture coordinates of the tube, the other procedural meshes, constructive solid geometry and the mesh exporter.
- Reading XML and text: COLLADA sources and index streams, SVG commands and paths enter as sequences.
- Fewest vertices of the COLLADA output: the list of a position is overwritten, so a corner shares with the latest one at its position only (`ColladaSharing.SharesWithLatest`).
- Rounding of doubles and floats, among it the accumulated step of `cubicBezier`.
- Comparison, copying and the plain setters of the URI classes; a port or host set by hand is covered by the round trips as far as it is well-formed.
- `Time` arithmetic, console, logging, file system, plugins, signals, profiler, audio, video and images: input and output.
