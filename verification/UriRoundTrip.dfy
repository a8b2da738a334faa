/**
  Printing and parsing of whole URIs, after src/URI.cc: parsing undoes printing.
*/
module UriRoundTrip {
  import opened Common
  import opened Strings
  import opened UriParts
  import opened UriPrinting
  import opened UriQueryPrinting
  import opened UriAuthorityPrinting
  import opened Uri
  import opened UriValidity

  // ----- printable URIs -----

  /** Either nothing is printed, and then there is nothing to lose, or the host is a plain one (empty
      in a file URI alone) or one in brackets without a port. The two flags may be as they are. */
  ghost predicate WellFormedAuthority(a: Authority, isFile: bool) {
    if PrintAuthority(a) == "" then a.userInfo == "" && a.port == None
    else (HasPlainHost(a) && (a.host == "" ==> isFile)) || (HasBracketedHost(a) && a.port == None)
  }

  /** A URI as section 3 of RFC 3986 has it: a path behind an authority is empty or absolute, and one
      without an authority does not begin with two slashes. */
  ghost predicate WellFormedUri(u: UriState) {
    && IsScheme(u.scheme)
    && WellFormedAuthority(u.authority, u.scheme == "file") && WellFormedPath(u.path) && WellFormedQuery(u.query)
    && AllFrom(u.fragment, IsQueryChar, 0)
    && (if PrintAuthority(u.authority) == "" then u.path.parts == [] ==> !u.path.trailingSlash
        else u.path.isAbsolute || u.path == Path([], false, false))
  }

  /** The URI with the two flags of its authority as Parse sets them; all else is the same. */
  function AsParsed(u: UriState): UriState {
    var a, isFile := u.authority, u.scheme == "file";
    u.(authority :=
      if PrintAuthority(a) == "" && isFile then a.(emptyHostValid := false, hasEmptyHost := false)
      else Reflagged(a, PrintAuthority(a), isFile))
  }

  // ----- the printed pieces -----

  /** A path that is not just slashes begins with at most one. */
  lemma PathHasOneSlash(p: Path)
    requires HasSegments(p) && (p.parts == [] ==> !p.trailingSlash)
    ensures !StartsWithSlashes(PrintPath(p))
  {
    if p.parts != [] {
      JoinEnds(p.parts, '/');
      assert p.parts[0] in p.parts && !Is('/')(p.parts[0][0]);
      var s := Join(p.parts, '/');
      if p.isAbsolute {
        assert PrintPath(p)[1] == s[0];
      } else {
        assert PrintPath(p)[0] == s[0];
      }
    }
  }

  lemma ValidPathIsFree(s: string)
    requires ValidPath(s)
    ensures Free(s, IsPathEnd)
  {
    var t := TrimmedLeft(s);
    var front := TrimmedLeftCuts(s);
    var back := TrimmedRightCuts(t);
    var core := TrimmedRight(t);
    assert s == front + (core + back);
    SpaceIsFree(front, '?');
    SpaceIsFree(back, '?');
    PathCharsFree(core);
    FreeConcat(core, back, IsPathEnd);
    FreeConcat(front, core + back, IsPathEnd);
  }

  lemma PathCharsFree(s: string)
    requires AllFrom(s, IsPathChar, 0)
    ensures Free(s, IsPathEnd)
  {
  }

  lemma QueryCharsFree(s: string)
    requires s == "" || (s[0] == '?' && AllFrom(s, IsQueryChar, 1))
    ensures Free(s, Is('#'))
  {
  }

  lemma PrintedQueryFree(q: Query)
    requires WellFormedQuery(q)
    ensures var s := PrintQuery(q); (s == "" || s[0] == '?') && Free(s, Is('#'))
  {
    PrintedQueryChars(q);
    QueryCharsFree(PrintQuery(q));
  }

  /** The printed pieces hold none of the characters that end them. */
  lemma PrintedPiecesFree(path: Path, query: Query, fragment: string)
    requires WellFormedPath(path) && WellFormedQuery(query)
    ensures Free(PrintPath(path), IsPathEnd)
    ensures var s := PrintQuery(query); (s == "" || s[0] == '?') && Free(s, Is('#'))
    ensures PrintFragment(fragment) == "" || PrintFragment(fragment)[0] == '#'
  {
    ValidPathIsFree(PrintPath(path));
    PrintedQueryFree(query);
  }

  /** The text behind the authority. */
  function Tail(u: UriState): string {
    PrintPath(u.path) + (PrintQuery(u.query) + PrintFragment(u.fragment))
  }

  /** The tail begins with one of the characters that end an authority, or does not look like one. */
  lemma TailBegins(u: UriState)
    requires WellFormedUri(u)
    ensures PrintAuthority(u.authority) != "" && Tail(u) != "" ==> IsAuthorityEnd(Tail(u)[0])
    ensures PrintAuthority(u.authority) == "" ==> !StartsWithSlashes(Tail(u))
  {
    PrintedPathEnds(u.path);
    PrintedPiecesFree(u.path, u.query, u.fragment);
    if PrintAuthority(u.authority) == "" {
      PathHasOneSlash(u.path);
    }
  }

  lemma PrintedAuthorityFree(a: Authority, isFile: bool)
    requires WellFormedAuthority(a, isFile) && PrintAuthority(a) != ""
    ensures var s := PrintAuthority(a);
      && StartsWithSlashes(s) && (|s| == 2 ==> isFile) && s[|s| - 1] != ':'
      && forall i :: 2 <= i < |s| ==> !IsAuthorityEnd(s[i])
  {
    PrintedAuthority(a);
    PrintedAuthorityEnds(a);
    PortTextChars(a);
    AuthorityChars(a);
  }

  lemma AuthorityChars(a: Authority)
    requires HasPlainHost(a) || HasBracketedHost(a)
    ensures forall i :: 2 <= i < |PrintAuthority(a)| ==> !IsAuthorityEnd(PrintAuthority(a)[i])
  {
    PrintedAuthority(a);
    PortTextChars(a);
  }

  lemma AuthorityEndFound(authority: string, tail: string)
    requires StartsWithSlashes(authority)
    requires forall i :: 2 <= i < |authority| ==> !IsAuthorityEnd(authority[i])
    requires tail == "" || IsAuthorityEnd(tail[0])
    ensures var s := authority + tail;
      FirstWhere(s, IsAuthorityEnd, 2) == |authority| && s[|authority|..] == tail && s[..|authority|] == authority
  {
    FirstWhereSkip(authority, tail, IsAuthorityEnd, 2);
  }

  lemma SplitsAtAuthority(s: string, authority: string, tail: string, isFile: bool)
    requires StartsWithSlashes(s) && FirstWhere(s, IsAuthorityEnd, 2) == |authority| <= |s|
    requires s[|authority|..] == tail && s[..|authority|] == authority
    requires 2 <= |authority| && (|authority| == 2 ==> isFile)
    requires authority[|authority| - 1] != ':' || tail == "" || tail[0] != '/'
    ensures var pieces := Some(SplitPath(authority, true, tail));
      SplitForValid(s, isFile) == pieces && SplitForParse(s, isFile) == pieces
  {
  }

  function PrintedPieces(u: UriState): Pieces {
    var authority := PrintAuthority(u.authority);
    Pieces(authority, authority != "", PrintPath(u.path), PrintQuery(u.query), PrintFragment(u.fragment))
  }

  lemma TailSplits(u: UriState)
    requires WellFormedUri(u)
    ensures var authority := PrintAuthority(u.authority);
      SplitPath(authority, authority != "", Tail(u)) == PrintedPieces(u)
  {
    var authority := PrintAuthority(u.authority);
    PrintedPiecesFree(u.path, u.query, u.fragment);
    SplitPathParts(authority, authority != "", PrintPath(u.path), PrintQuery(u.query), PrintFragment(u.fragment));
  }

  /** An authority, or none, in front of a text that does not look like part of it. */
  ghost predicate IsInFront(authority: string, tail: string, isFile: bool) {
    if authority == "" then !StartsWithSlashes(tail)
    else (
      && StartsWithSlashes(authority) && (|authority| == 2 ==> isFile)
      && (authority[|authority| - 1] != ':' || tail == "" || tail[0] != '/')
      && (forall i :: 2 <= i < |authority| ==> !IsAuthorityEnd(authority[i]))
      && (tail == "" || IsAuthorityEnd(tail[0])))
  }

  /** Both splitters cut a text behind its authority. */
  lemma TextSplits(authority: string, tail: string, isFile: bool)
    requires IsInFront(authority, tail, isFile)
    ensures var pieces := Some(SplitPath(authority, authority != "", tail));
      SplitForValid(authority + tail, isFile) == pieces && SplitForParse(authority + tail, isFile) == pieces
  {
    if authority == "" {
      assert authority + tail == tail;
    } else {
      AuthorityEndFound(authority, tail);
      SplitsAtAuthority(authority + tail, authority, tail, isFile);
    }
  }

  /** Both splitters take the printed text apart into the printed pieces. */
  lemma PrintedUriSplits(u: UriState)
    requires WellFormedUri(u)
    ensures var text, isFile := PrintAuthority(u.authority) + Tail(u), u.scheme == "file";
      SplitForValid(text, isFile) == Some(PrintedPieces(u)) == SplitForParse(text, isFile)
  {
    TailSplits(u);
    TailBegins(u);
    if PrintAuthority(u.authority) != "" {
      PrintedAuthorityFree(u.authority, u.scheme == "file");
    }
    TextSplits(PrintAuthority(u.authority), Tail(u), u.scheme == "file");
  }

  lemma Regrouped(a: string, b: string, c: string, d: string, e: string)
    ensures a + b + c + d + e == a + (b + (c + (d + e)))
  {
  }

  lemma PrintedUriText(u: UriState)
    requires u.scheme != ""
    ensures PrintUri(u) == u.scheme + ":" + (PrintAuthority(u.authority) + Tail(u))
  {
    Regrouped(u.scheme + ":", PrintAuthority(u.authority), PrintPath(u.path), PrintQuery(u.query),
      PrintFragment(u.fragment));
  }

  // ----- parsing undoes printing -----

  lemma PrintedAuthorityParses(a: Authority, before: Authority, isFile: bool)
    requires WellFormedAuthority(a, isFile) && (PrintAuthority(a) != "" || !isFile)
    ensures ParseAuthority(before, PrintAuthority(a), isFile) == (true, Reflagged(a, PrintAuthority(a), isFile))
  {
    if PrintAuthority(a) != "" {
      if HasPlainHost(a) && (a.host == "" ==> isFile) {
        AuthorityRoundTrip(a, before, isFile);
      } else {
        BracketedRoundTripIffNoPort(a, before, isFile);
      }
    }
  }

  lemma PrintedPiecesParse(u: UriState, v: UriState)
    requires WellFormedUri(u) && v == Cleared(v).(scheme := u.scheme)
    ensures ParsePieces(v, PrintedPieces(u), u.scheme == "file") == (true, AsParsed(u))
  {
    if PrintAuthority(u.authority) != "" || u.scheme != "file" {
      PrintedAuthorityParses(u.authority, v.authority, u.scheme == "file");
    }
    PathRoundTripIff(u.path, v.path);
    QueryRoundTrip(u.query, []);
    FragmentRoundTrip(u.fragment, "");
  }

  lemma PrintedPiecesFound(u: UriState)
    requires WellFormedUri(u)
    ensures PiecesToParse(PrintUri(u)) == Some((u.scheme, PrintedPieces(u)))
  {
    PrintedUriText(u);
    ColonOfText(u.scheme, PrintAuthority(u.authority) + Tail(u));
    PrintedUriSplits(u);
  }

  lemma PrintedUriIsValid(u: UriState)
    requires WellFormedUri(u) && ValidPieces(PrintedPieces(u), u.scheme == "file")
    ensures ValidUri(PrintUri(u))
  {
    PrintedUriText(u);
    PrintedUriSplits(u);
    ValidOfText(u.scheme, PrintAuthority(u.authority) + Tail(u));
  }

  /** Parsing undoes printing: for every well-formed URI the printed text is parsed, whatever the
      object held before, to the same scheme, user info, host, port, path with its trailing
      slash, query pairs and fragment. */
  lemma UriRoundTrip(u: UriState, before: UriState)
    requires WellFormedUri(u)
    ensures ParseUri(before, PrintUri(u)) == (true, AsParsed(u))
  {
    var v := Cleared(before).(scheme := u.scheme);
    PrintedPiecesFound(u);
    PrintedPiecesParse(u, v);
    PiecesParse(v, PrintedPieces(u), u.scheme == "file");
    PrintedUriIsValid(u);
  }

  /** Such URIs exist, with every component present: s://u@h:8/a/b/?k=v#f is one. */
  lemma FullUriIsWellFormed(u: UriState)
    requires u == UriState("s", Authority("u", "h", Some(8), false, false), Path(["a", "b"], true, true),
                           [("k", "v")], "f")
    ensures WellFormedUri(u)
  {
    FullAuthority(u.authority);
    FullPath(u.path);
    FullQuery(u.query);
  }

  lemma FullAuthority(a: Authority)
    requires a == Authority("u", "h", Some(8), false, false)
    ensures HasPlainHost(a) && PrintAuthority(a) != ""
  {
  }

  lemma FullPath(p: Path)
    requires p == Path(["a", "b"], true, true)
    ensures WellFormedPath(p)
  {
    assert !Is('/')('a') && !Is('/')('b');
    var s := "/a/b/";
    assert ["a", "b"][1..] == ["b"];
    assert PrintPath(p) == s;
    TrimmedFixed(s);
  }

  lemma FullQuery(q: Query)
    requires q == [("k", "v")]
    ensures WellFormedQuery(q)
  {
    assert !Is('&')('k') && !Is('&')('v') && !Is('=')('k') && !Is('=')('v');
  }
}
