/**
  Printing what was parsed, after src/URI.cc: exactly when the printed form of a parsed URI is parsed
  to the same URI again.
*/
module UriNormalForm {
  import opened Common
  import opened Strings
  import opened UriParts
  import opened UriPrinting
  import opened UriQueryPrinting
  import opened UriAuthorityPrinting
  import opened UriAuthorityNormal
  import opened UriTakenAuthority
  import opened Uri
  import opened UriValidity
  import opened UriRoundTrip

  // ----- what was parsed -----

  /** The URI made of a scheme and the pieces behind it. */
  function StateOf(scheme: string, p: Pieces): UriState {
    var isFile := scheme == "file";
    UriState(scheme, if !isFile || p.authorityPresent then AuthorityOf(p.authority, isFile) else NO_AUTHORITY,
      PathOf(p.path), QueryOf(p.query), FragmentOf(p.fragment))
  }

  lemma ParsedState(u: UriState, s: string)
    requires ParseUri(u, s).0
    ensures PiecesToParse(s).Some?
    ensures var (scheme, p) := PiecesToParse(s).value;
      ValidPieces(p, scheme == "file") && ParseUri(u, s).1 == StateOf(scheme, p)
  {
    hide ParsePieces, ValidPieces, ValidUri, PiecesToParse, AuthorityOf, PathOf, QueryOf, FragmentOf;
    ParseIffPieces(u, u, s);
    var (scheme, p) := PiecesToParse(s).value;
    PiecesParse(Cleared(u).(scheme := scheme), p, scheme == "file");
  }

  /** The pieces of an authority and a text behind it, or of a text without an authority. */
  ghost predicate AreParsed(p: Pieces) {
    && (p.query == "" || p.query[0] == '?') && (p.fragment == "" || p.fragment[0] == '#')
    && if p.authorityPresent then (
         && StartsWithSlashes(p.authority) && (forall i :: 2 <= i < |p.authority| ==> !IsAuthorityEnd(p.authority[i]))
         && (p.path == "" || p.path[0] == '/'))
       else p.authority == "" && !StartsWithSlashes(p.path)
  }

  lemma QueryShape(s: string)
    requires s == "" || IsPathEnd(s[0])
    ensures var (query, fragment) := SplitQuery(s);
      (query == "" || query[0] == '?') && (fragment == "" || fragment[0] == '#')
  {
    var mark, hash := FirstWhere(s, Is('?'), 0), FirstWhere(s, Is('#'), 0);
    FirstWhereIsFirst(s, Is('?'), 0);
    FirstWhereIsFirst(s, Is('#'), 0);
    if mark < |s| {
      SplitQueryAt(s, hash);
      assert hash < |s| ==> Is('#')(s[hash]);
    } else if s != "" {
      assert !Is('?')(s[0]);
      FragmentAlone(s);
    }
  }

  lemma PathShape(authority: string, present: bool, s: string)
    ensures var p := SplitPath(authority, present, s);
      && p.authority == authority && p.authorityPresent == present && p.path <= s
      && (p.query == "" || p.query[0] == '?') && (p.fragment == "" || p.fragment[0] == '#')
      && (s != "" && s[0] == '/' ==> p.path != "")
      && (s != "" && IsPathEnd(s[0]) ==> p.path == "")
  {
    var end := FirstWhere(s, IsPathEnd, 0);
    FirstWhereIsFirst(s, IsPathEnd, 0);
    QueryShape(s[end..]);
  }

  /** What is read behind two slashes. */
  lemma ShapeBehindSlashes(rest: string)
    requires StartsWithSlashes(rest)
    ensures var end := FirstWhere(rest, IsAuthorityEnd, 2);
      && (DriveAt(rest, end) ==> AreParsed(SplitPath("", false, rest[2..])))
      && AreParsed(SplitPath(rest[..end], true, rest[end..]))
  {
    var end := FirstWhere(rest, IsAuthorityEnd, 2);
    FirstWhereIsFirst(rest, IsAuthorityEnd, 2);
    PathShape("", false, rest[2..]);
    PathShape(rest[..end], true, rest[end..]);
    if DriveAt(rest, end) {
      assert end > 2 && !IsAuthorityEnd(rest[2]);
    }
  }

  /** Parse takes an authority from these strings. */
  predicate TakesAuthority(s: string) {
    StartsWithSlashes(Rest(s)) && !IsDriveForm(s)
  }

  lemma PiecesShape(s: string)
    requires PiecesToParse(s).Some?
    ensures var p := PiecesToParse(s).value.1; AreParsed(p) && p.authorityPresent == TakesAuthority(s)
  {
    hide AreParsed, SplitQuery, FirstWhere;
    if StartsWithSlashes(Rest(s)) {
      ShapeBehindSlashes(Rest(s));
    } else {
      ShapeWithoutSlashes(Rest(s));
    }
  }

  lemma ShapeWithoutSlashes(rest: string)
    requires !StartsWithSlashes(rest)
    ensures AreParsed(SplitPath("", false, rest))
  {
    PathShape("", false, rest);
  }

  // ----- what is printed -----

  /** Path, query and fragment come back. */
  ghost predicate RestComesBack(u: UriState) {
    && WellFormedPath(u.path) && StoredQuery(u.query) && ValidQuery(PrintQuery(u.query))
    && ValidFragment(PrintFragment(u.fragment))
  }

  lemma ParsedQueryComesBack(s: string)
    requires ValidQuery(s) && (s == "" || s[0] == '?')
    ensures StoredQuery(QueryOf(s)) && ValidQuery(PrintQuery(QueryOf(s)))
  {
    ParsedQueryStored(s);
    QueryNormalForm(s, []);
  }

  lemma ParsedFragmentComesBack(s: string)
    requires ValidFragment(s) && (s == "" || s[0] == '#')
    ensures ValidFragment(PrintFragment(FragmentOf(s)))
  {
    if s != "" {
      assert s == "#" + s[1..];
    }
  }

  lemma ParsedRestComesBack(scheme: string, p: Pieces)
    requires AreParsed(p) && ValidPieces(p, scheme == "file")
    ensures RestComesBack(StateOf(scheme, p))
  {
    hide AuthorityOf, PathOf, QueryOf, PrintQuery, ValidAuthority, ValidPath, ValidQuery, ValidFragment, PrintFragment;
    PathNormalForm(p.path, Path([], false, false));
    ParsedQueryComesBack(p.query);
    ParsedFragmentComesBack(p.fragment);
  }

  lemma PrintedQueryShape(q: Query)
    requires StoredQuery(q) && ValidQuery(PrintQuery(q))
    ensures var s := PrintQuery(q); (s == "" || s[0] == '?') && Free(s, Is('#')) && QueryOf(s) == q
  {
    hide Tidy, Join, Texts, ValidQuery, PrintQuery, QueryOf, StoredQuery;
    QueryReadAgain(q);
    if q == [] {
      NothingPrinted();
    } else {
      PrintedQuery(q);
      var text := Join(Texts(q), '&');
      ValidBehindMark(text);
      TidyIsFree(text);
      FreeConcat("?", text, Is('#'));
    }
  }

  lemma NothingPrinted()
    ensures PrintQuery([]) == ""
  {
  }

  lemma TidyIsFree(s: string)
    requires Tidy(s)
    ensures Free(s, Is('#'))
  {
  }

  /** The printed pieces behind the authority are cut apart and read again. */
  lemma PrintedRest(u: UriState, authority: string)
    requires RestComesBack(u)
    ensures SplitPath(authority, authority != "", Tail(u))
      == Pieces(authority, authority != "", PrintPath(u.path), PrintQuery(u.query), PrintFragment(u.fragment))
    ensures PathOf(PrintPath(u.path)) == u.path && QueryOf(PrintQuery(u.query)) == u.query
    ensures FragmentOf(PrintFragment(u.fragment)) == u.fragment
  {
    hide SplitPath, PathOf, QueryOf, PrintPath, PrintQuery, ValidPath, ValidQuery, ValidFragment, Free;
    ValidPathIsFree(PrintPath(u.path));
    PrintedQueryShape(u.query);
    PathRoundTripIff(u.path, Path([], false, false));
    SplitPathParts(authority, authority != "", PrintPath(u.path), PrintQuery(u.query), PrintFragment(u.fragment));
  }

  /** Behind a path: nothing, a query or a fragment. */
  lemma PathFollowed(u: UriState)
    requires RestComesBack(u)
    ensures var s := PrintQuery(u.query) + PrintFragment(u.fragment); s == "" || IsPathEnd(s[0])
  {
    hide PrintQuery, ValidQuery, ValidPath, ValidFragment;
    PrintedQueryShape(u.query);
  }

  lemma TailWithoutAuthority(u: UriState)
    requires RestComesBack(u) && (u.path.parts == [] ==> !u.path.trailingSlash)
    ensures !StartsWithSlashes(Tail(u))
  {
    hide PrintQuery, PrintFragment, ValidPath, ValidQuery, ValidFragment, PrintPath;
    PathFollowed(u);
    PathHasOneSlash(u.path);
  }

  lemma TailBehindAuthority(u: UriState)
    requires RestComesBack(u) && (u.path.isAbsolute || u.path == Path([], false, false))
    ensures Tail(u) == "" || IsAuthorityEnd(Tail(u)[0])
    ensures u.path.isAbsolute <==> Tail(u) != "" && Tail(u)[0] == '/'
  {
    hide PrintQuery, PrintFragment, ValidPath, ValidQuery, ValidFragment;
    PathFollowed(u);
    PrintedPathEnds(u.path);
  }

  /** A path of slashes alone is the only one that looks like an authority, and then like "//". */
  lemma TailOfSlashes(u: UriState)
    requires RestComesBack(u) && StartsWithSlashes(Tail(u))
    ensures FirstWhere(Tail(u), IsAuthorityEnd, 2) == 2 && Tail(u)[..2] == "//"
  {
    hide PrintQuery, PrintFragment, ValidPath, ValidQuery, ValidFragment;
    PathFollowed(u);
    if u.path.parts == [] ==> !u.path.trailingSlash {
      TailWithoutAuthority(u);
    } else {
      assert PrintPath(u.path) == "//";
      FirstWhereUnique(Tail(u), IsAuthorityEnd, 2, 2);
    }
  }

  // ----- parsing a printed text -----

  lemma ValidInFileMode(text: string, p: Pieces, isFile: bool)
    requires SplitForValid(text, isFile) == Some(p) && ValidPieces(p, isFile)
    ensures SplitForValid(text, true) == Some(p) && ValidPieces(p, true)
  {
    hide SplitPath, FirstWhere, HostText, HostStart, Trimmed, AllFrom, PortAt, ValidPath, ValidQuery, ValidFragment;
  }

  /** Valid accepts what Parse reads with this scheme, in front of which there may be white space. */
  lemma ValidWithScheme(space: string, scheme: string, text: string, p: Pieces)
    requires AllSpace(space) && IsScheme(scheme)
    requires var isFile := space + scheme == "file";
      SplitForValid(text, isFile) == Some(p) && ValidPieces(p, isFile)
    ensures ValidUri(space + scheme + ":" + text)
  {
    hide SplitForValid, ValidPieces, ValidUri, Trimmed, IsScheme;
    ValidOfText(scheme, text);
    if space == "" {
      assert space + scheme == scheme;
    } else {
      ValidInFileMode(text, p, space + scheme == "file");
      SchemeRead(space, scheme);
    }
    Regroup(space, scheme, ":", text);
    TrimmedPrepended(space, scheme + ":" + text);
    ValidSame(space + scheme + ":" + text, scheme + ":" + text);
  }

  /** A text both splitters cut into the same pieces is parsed exactly when these are valid. */
  lemma TextParses(before: UriState, space: string, scheme: string, text: string, p: Pieces)
    requires AllSpace(space) && IsScheme(scheme)
    requires var isFile := space + scheme == "file";
      SplitForValid(text, isFile) == Some(p) && SplitForParse(text, isFile) == Some(p)
    ensures var (ok, after) := ParseUri(before, space + scheme + ":" + text);
      (ok <==> ValidPieces(p, space + scheme == "file")) && (ok ==> after == StateOf(space + scheme, p))
  {
    hide SplitForValid, SplitForParse, ValidPieces, ValidUri, ParseUri, StateOf, AllSpace, FirstWhere;
    var s := space + scheme + ":" + text;
    SchemeIsRead(space, scheme, text);
    ParseIffPieces(before, before, s);
    if ValidPieces(p, space + scheme == "file") {
      ValidWithScheme(space, scheme, text, p);
    }
    if ParseUri(before, s).0 {
      ParsedState(before, s);
    }
  }

  lemma SchemeIsRead(space: string, scheme: string, text: string)
    requires AllSpace(space) && IsScheme(scheme)
    ensures var s := space + scheme + ":" + text; Colon(s) < |s| && s[..Colon(s)] == space + scheme && Rest(s) == text
  {
    SpaceIsFree(space, ':');
    FreeConcat(space, scheme, Is(':'));
    ColonOfText(space + scheme, text);
  }

  /** Of a text that Parse takes no authority from no authority is printed. */
  lemma NoAuthorityParsed(before: UriState, s: string)
    requires ParseUri(before, s).0 && !TakesAuthority(s)
    ensures PrintAuthority(ParseUri(before, s).1.authority) == ""
    ensures ParseUri(before, s).1.authority
      == if ParseUri(before, s).1.scheme == "file" then NO_AUTHORITY else Authority("", "", None, false, true)
  {
    hide ParseUri, PiecesToParse, TakesAuthority, ValidPieces, PathOf, QueryOf, FragmentOf;
    ParsedState(before, s);
    PiecesShape(s);
  }

  // ----- the authority of a parsed URI -----

  /** What is known of an authority that Parse took from a text. */
  ghost predicate IsTaken(a: Authority, isFile: bool) {
    && a.emptyHostValid == isFile && (a.port.Some? ==> IsInt(a.port.value))
    && (a.hasEmptyHost ==> isFile && a.host == "" && a.userInfo == "" && a.port == None)
    && Free(a.userInfo, IsAuthorityEnd) && Free(a.host, IsAuthorityEnd)
  }

  lemma SubstrFree(s: string, pos: nat, len: nat, p: char -> bool)
    requires pos >= 2 && forall i :: 2 <= i < |s| ==> !p(s[i])
    ensures Free(Substr(s, pos, len), p)
  {
  }

  lemma TakenHostFree(text: string, start: nat)
    requires start >= 2 && forall i :: 2 <= i < |text| ==> !IsAuthorityEnd(text[i])
    ensures Free(HostText(text, start), IsAuthorityEnd)
  {
    hide Substr;
    var open, colon := FirstWhere(text, Is('['), start), FirstWhere(text, Is(':'), start);
    SubstrFree(text, start, |text|, IsAuthorityEnd);
    if open < |text| {
      SubstrFree(text, open, FirstWhere(text, Is(']'), open), IsAuthorityEnd);
    }
  }

  lemma TakenUserFree(text: string)
    requires StartsWithSlashes(text) && forall i :: 2 <= i < |text| ==> !IsAuthorityEnd(text[i])
    ensures Free(UserInfoText(text), IsAuthorityEnd) && HostStart(text, 0) >= 2
  {
    hide Substr;
    var at := FirstWhere(text, Is('@'), 0);
    SlashesRead(text, at);
    if at < |text| {
      SubstrFree(text, 2, at - 2, IsAuthorityEnd);
    }
  }

  lemma PortIsInt(s: string, at: nat)
    ensures PortOf(s, at).Some? ==> IsInt(PortOf(s, at).value)
  {
    hide TrimmedLeft, ReadNat, LeadingDigits;
  }

  lemma EmptyHostIsFile(isFile: bool)
    requires ValidAuthority("//", isFile)
    ensures isFile
  {
    EmptyHostRoundTrip(NO_AUTHORITY);
    AuthorityRoundTrip(Authority("", "", None, true, true), NO_AUTHORITY, isFile);
  }

  lemma AuthorityIsTaken(text: string, isFile: bool)
    requires StartsWithSlashes(text) && (forall i :: 2 <= i < |text| ==> !IsAuthorityEnd(text[i]))
    requires ValidAuthority(text, isFile)
    ensures IsTaken(AuthorityOf(text, isFile), isFile)
  {
    hide ValidAuthority, HostText, HostStart, UserInfoText, PortOf, PortAt, FirstWhere, IsInt;
    if text == "//" {
      EmptyHostIsFile(isFile);
    } else {
      TakenUserFree(text);
      TakenHostFree(text, HostStart(text, 0));
      PortIsInt(text, PortAt(text, HostStart(text, 0)));
    }
  }

  /** The printed form of such an authority ends nowhere before its end. */
  lemma TakenIsFree(a: Authority, isFile: bool)
    requires IsTaken(a, isFile) && PrintAuthority(a) != ""
    ensures var s := PrintAuthority(a);
      && StartsWithSlashes(s) && (|s| == 2 ==> isFile) && forall i :: 2 <= i < |s| ==> !IsAuthorityEnd(s[i])
  {
    hide IsInt;
    PrintedAuthority(a);
    PortTextEnds(a);
    var user, rest := if a.userInfo == "" then "" else a.userInfo + "@", a.host + PortText(a);
    FreeConcat(a.userInfo, "@", IsAuthorityEnd);
    FreeConcat(a.host, PortText(a), IsAuthorityEnd);
    FreeConcat(user, rest, IsAuthorityEnd);
    assert PrintAuthority(a) == "//" + (user + rest);
    assert forall i :: 2 <= i < |PrintAuthority(a)| ==> PrintAuthority(a)[i] == (user + rest)[i - 2];
  }

  lemma PortTextEnds(a: Authority)
    requires a.port.Some? ==> IsInt(a.port.value)
    ensures Free(PortText(a), IsAuthorityEnd)
  {
    hide PrintInt;
    if a.port.Some? {
      IntText(a.port.value);
      assert PortText(a) == ":" + PrintInt(a.port.value);
    }
  }

  // ----- coming back -----

  /** A URI whose scheme is read and whose path, query and fragment come back. */
  ghost predicate IsPrintable(v: UriState, space: string, scheme: string) {
    AllSpace(space) && IsScheme(scheme) && v.scheme == space + scheme && RestComesBack(v)
  }

  lemma PrintedText(v: UriState, space: string, scheme: string)
    requires IsPrintable(v, space, scheme)
    ensures PrintUri(v) == space + scheme + ":" + (PrintAuthority(v.authority) + Tail(v))
    ensures Colon(PrintUri(v)) < |PrintUri(v)| && PrintUri(v)[..Colon(PrintUri(v))] == v.scheme
    ensures Rest(PrintUri(v)) == PrintAuthority(v.authority) + Tail(v)
  {
    hide PrintUri, Tail, PrintAuthority, RestComesBack, Colon, Rest;
    PrintedUriText(v);
    SchemeIsRead(space, scheme, PrintAuthority(v.authority) + Tail(v));
  }

  lemma WithoutAuthorityComesBack(v: UriState, before: UriState, space: string, scheme: string)
    requires IsPrintable(v, space, scheme) && (v.path.parts == [] ==> !v.path.trailingSlash)
    requires v.authority == if v.scheme == "file" then NO_AUTHORITY else Authority("", "", None, false, true)
    ensures ParseUri(before, PrintUri(v)) == (true, v)
  {
    hide PrintUri, Tail, RestComesBack, ParseUri, ValidPath, ValidQuery, ValidFragment, SplitForValid, SplitForParse,
      PathOf, QueryOf, FragmentOf, SplitPath, IsScheme;
    PrintedText(v, space, scheme);
    TailWithoutAuthority(v);
    TextSplits("", Tail(v), v.scheme == "file");
    PrintedRest(v, "");
    assert "" + Tail(v) == Tail(v);
    var p := Pieces("", false, PrintPath(v.path), PrintQuery(v.query), PrintFragment(v.fragment));
    RestIsValid(v);
    TextParses(before, space, scheme, Tail(v), p);
  }

  lemma RestIsValid(v: UriState)
    requires RestComesBack(v)
    ensures ValidPath(PrintPath(v.path)) && ValidQuery(PrintQuery(v.query)) && ValidFragment(PrintFragment(v.fragment))
  {
  }

  lemma SlashesOfTaken(s: string)
    ensures TakesAuthority(s) ==> StartsWithSlashes(Rest(s))
  {
  }

  lemma SlashesTaken(s: string)
    requires TakesAuthority(s) && PiecesToParse(s).Some?
    requires FirstWhere(Rest(s), IsAuthorityEnd, 2) == 2 && Rest(s)[..2] == "//"
    ensures PiecesToParse(s).value.1.authority == "//" && PiecesToParse(s).value.1.authorityPresent
  {
    hide FirstWhere, SplitQuery;
  }

  /** An authority of which nothing is printed does not come back. */
  lemma UnprintedIsLost(v: UriState, before: UriState, space: string, scheme: string)
    requires IsPrintable(v, space, scheme) && IsTaken(v.authority, v.scheme == "file")
    requires PrintAuthority(v.authority) == ""
    ensures !ComesBack(v.authority, v.scheme == "file") && ParseUri(before, PrintUri(v)) != (true, v)
  {
    hide PrintUri, Tail, RestComesBack, ParseUri, PathOf, QueryOf, FragmentOf, IsScheme, ValidPieces, IsInt,
      PiecesToParse, TakesAuthority;
    assert TakesAuthority(PrintUri(v)) ==> StartsWithSlashes(Rest(PrintUri(v))) by {
      SlashesOfTaken(PrintUri(v));
    }
    assert !v.authority.hasEmptyHost;
    PrintedText(v, space, scheme);
    assert "" + Tail(v) == Tail(v);
    var s := PrintUri(v);
    if ParseUri(before, s).0 {
      if TakesAuthority(s) {
        ParsedState(before, s);
        TailOfSlashes(v);
        SlashesTaken(s);
      } else {
        NoAuthorityParsed(before, s);
      }
    }
  }

  /** The printed form looks like the beginning of a Windows path. */
  predicate LooksLikeDrive(v: UriState) {
    var s := PrintAuthority(v.authority);
    s != "" && s[|s| - 1] == ':' && v.path.isAbsolute
  }

  lemma DriveIsLost(v: UriState, before: UriState, space: string, scheme: string)
    requires IsPrintable(v, space, scheme) && IsTaken(v.authority, v.scheme == "file") && LooksLikeDrive(v)
    requires v.path.isAbsolute || v.path == Path([], false, false)
    ensures ParseUri(before, PrintUri(v)) != (true, v)
  {
    hide PrintUri, Tail, RestComesBack, ParseUri, PathOf, QueryOf, FragmentOf, SplitPath, IsScheme, PrintAuthority,
      IsTaken, FirstWhere;
    PrintedText(v, space, scheme);
    var authority, s := PrintAuthority(v.authority), PrintUri(v);
    TakenIsFree(v.authority, v.scheme == "file");
    TailBehindAuthority(v);
    AuthorityEndFound(authority, Tail(v));
    assert (authority + Tail(v))[|authority| - 1] == ':' && (authority + Tail(v))[|authority|] == '/';
    if ParseUri(before, s).0 {
      NoAuthorityParsed(before, s);
    }
  }

  lemma PrintedComesBackIff(v: UriState, before: UriState, space: string, scheme: string)
    requires IsPrintable(v, space, scheme) && IsTaken(v.authority, v.scheme == "file") && !LooksLikeDrive(v)
    requires PrintAuthority(v.authority) != "" && (v.path.isAbsolute || v.path == Path([], false, false))
    ensures ParseUri(before, PrintUri(v)) == (true, v) <==> ComesBack(v.authority, v.scheme == "file")
  {
    hide PrintUri, Tail, RestComesBack, ParseUri, PathOf, QueryOf, FragmentOf, SplitPath, IsScheme, PrintAuthority,
      ValidPath, ValidQuery, ValidFragment, ValidAuthority, AuthorityOf, SplitForValid, SplitForParse, ComesBack;
    var authority, isFile := PrintAuthority(v.authority), v.scheme == "file";
    PrintedText(v, space, scheme);
    TakenIsFree(v.authority, isFile);
    TailBehindAuthority(v);
    TextSplits(authority, Tail(v), isFile);
    PrintedRest(v, authority);
    RestIsValid(v);
    var p := Pieces(authority, true, PrintPath(v.path), PrintQuery(v.query), PrintFragment(v.fragment));
    TextParses(before, space, scheme, authority + Tail(v), p);
    AuthorityComesBackIff(v.authority, before.authority, isFile);
  }

  lemma WithAuthorityComesBackIff(v: UriState, before: UriState, space: string, scheme: string)
    requires IsPrintable(v, space, scheme) && IsTaken(v.authority, v.scheme == "file")
    requires v.path.isAbsolute || v.path == Path([], false, false)
    ensures ParseUri(before, PrintUri(v)) == (true, v)
      <==> ComesBack(v.authority, v.scheme == "file") && !LooksLikeDrive(v)
  {
    hide IsPrintable, IsTaken, ComesBack, ParseUri, PrintUri, PrintAuthority;
    if PrintAuthority(v.authority) == "" {
      UnprintedIsLost(v, before, space, scheme);
    } else if LooksLikeDrive(v) {
      DriveIsLost(v, before, space, scheme);
    } else {
      PrintedComesBackIff(v, before, space, scheme);
    }
  }

  /** The scheme of a parsed string, with the white space in front of it. */
  lemma SchemeOfParsed(s: string) returns (space: string, scheme: string)
    requires ValidUri(s)
    ensures AllSpace(space) && IsScheme(scheme) && s[..Colon(s)] == space + scheme
  {
    hide ValidUri, Trimmed;
    ValidHasColon(s);
    var rest: string;
    space, scheme, rest := TextParts(s);
    SchemeIsRead(space, scheme, rest);
  }

  lemma ParsedPathShape(scheme: string, p: Pieces)
    requires AreParsed(p)
    ensures var path := StateOf(scheme, p).path;
      && (p.authorityPresent ==> path.isAbsolute || path == Path([], false, false))
      && (!p.authorityPresent ==> path.parts == [] ==> !path.trailingSlash)
  {
    if !p.authorityPresent && PathOf(p.path).parts == [] {
      OnlySlashes(p.path);
    }
  }

  /** For every string that is parsed: printing the URI and parsing that gives the same URI, whatever
      the object held, exactly when no authority was taken from the string, or its authority comes
      back and is not printed with a colon at the end in front of an absolute path. */
  lemma UriComesBackIff(u: UriState, s: string, before: UriState)
    requires ParseUri(u, s).0
    ensures var v := ParseUri(u, s).1;
      ParseUri(before, PrintUri(v)) == (true, v)
      <==> (TakesAuthority(s) ==> TakenComesBack(v.authority, v.scheme == "file") && !LooksLikeDrive(v))
  {
    hide ParseUri, PrintUri, ComesBack, TakenComesBack, LooksLikeDrive, RestComesBack, IsTaken, ValidPieces, IsScheme,
      AllSpace, PathOf, QueryOf, FragmentOf, TakesAuthority, PiecesToParse;
    var v := ParseUri(u, s).1;
    ParsedState(u, s);
    PiecesShape(s);
    var (name, p) := PiecesToParse(s).value;
    SchemeOfPieces(u, s);
    var space, scheme := SchemeOfParsed(s);
    ParsedRestComesBack(name, p);
    ParsedPathShape(name, p);
    if TakesAuthority(s) {
      TakenFromPieces(p, name == "file");
      WithAuthorityComesBackIff(v, before, space, scheme);
    } else {
      NoAuthorityParsed(u, s);
      WithoutAuthorityComesBack(v, before, space, scheme);
    }
  }

  lemma SchemeOfPieces(u: UriState, s: string)
    requires ParseUri(u, s).0
    ensures ValidUri(s) && PiecesToParse(s).Some? && PiecesToParse(s).value.0 == s[..Colon(s)]
  {
    hide ValidUri, SplitForParse, ParsePieces;
  }

  lemma TakenFromPieces(p: Pieces, isFile: bool)
    requires AreParsed(p) && p.authorityPresent && ValidPieces(p, isFile)
    ensures var a := AuthorityOf(p.authority, isFile);
      IsTaken(a, isFile) && (ComesBack(a, isFile) <==> TakenComesBack(a, isFile))
  {
    hide IsTaken, ComesBack, TakenComesBack, AuthorityOf, ValidAuthority, ValidPath, ValidQuery, ValidFragment;
    AuthorityIsTaken(p.authority, isFile);
    TakenComesBackIff(p.authority, isFile);
  }

  // ----- URIs that do not come back -----

  /** A string that is parsed to a URI whose printed form is not parsed to the same one. */
  ghost predicate IsLost(u: UriState, before: UriState, s: string) {
    ParseUri(u, s).0 && ParseUri(before, PrintUri(ParseUri(u, s).1)) != (true, ParseUri(u, s).1)
  }

  /** An authority, and behind it nothing or a slash. */
  ghost predicate IsExample(authority: string, path: string, isFile: bool) {
    && (path == "" || path == "/") && IsInFront(authority, path, isFile) && authority != ""
    && ValidAuthority(authority, isFile)
  }

  lemma ExampleParses(u: UriState, scheme: string, authority: string, path: string)
    requires IsScheme(scheme) && IsExample(authority, path, scheme == "file")
    ensures ParseUri(u, scheme + ":" + (authority + path))
      == (true, StateOf(scheme, Pieces(authority, true, path, "", "")))
  {
    hide FirstWhere, ValidAuthority, ValidPath, ParseUri, StateOf, SplitForValid, SplitForParse, SplitPath;
    TextSplits(authority, path, scheme == "file");
    SplitPathParts(authority, true, path, "", "");
    assert path + ("" + "") == path && "" + scheme == scheme;
    DashIsNoPath();
    NothingIsValid();
    TextParses(u, "", scheme, authority + path, Pieces(authority, true, path, "", ""));
  }

  lemma NothingIsValid()
    ensures ValidPath("") && ValidQuery("") && ValidFragment("")
  {
  }

  lemma ExampleTaken(scheme: string, authority: string, path: string)
    requires IsScheme(scheme) && IsExample(authority, path, scheme == "file")
    ensures TakesAuthority(scheme + ":" + (authority + path))
  {
    hide IsScheme, ValidAuthority, Colon;
    SchemeIsRead("", scheme, authority + path);
    assert "" + scheme == scheme;
    AuthorityEndFound(authority, path);
  }

  lemma ExampleIsLost(u: UriState, before: UriState, scheme: string, authority: string, path: string)
    requires IsScheme(scheme) && IsExample(authority, path, scheme == "file")
    requires var a := AuthorityOf(authority, scheme == "file");
      || !TakenComesBack(a, scheme == "file")
      || (path == "/" && LooksLikeDrive(StateOf(scheme, Pieces(authority, true, path, "", ""))))
    ensures IsLost(u, before, scheme + ":" + (authority + path))
  {
    hide ParseUri, PrintUri, TakesAuthority, IsScheme, TakenComesBack, LooksLikeDrive, AuthorityOf, PathOf, IsExample;
    ExampleParses(u, scheme, authority, path);
    ExampleTaken(scheme, authority, path);
    UriComesBackIff(u, scheme + ":" + (authority + path), before);
  }

  lemma BehindSlashes(rest: string, emptyHostValid: bool)
    requires Free(rest, Is('@')) && rest != "" && !IsSpace(rest[|rest| - 1])
    ensures var host := HostIn(rest, 2);
      AuthorityOf("//" + rest, emptyHostValid) == Authority("", host, PortIn(rest, |host|), emptyHostValid, false)
    ensures ValidAuthority("//" + rest, emptyHostValid) <==> ValidRest(rest, 2, emptyHostValid)
    ensures Lead(NO_AUTHORITY) == "//"
  {
    hide AuthorityOf, ValidAuthority, HostIn, PortIn, ValidRest, FirstWhere;
    assert |Lead(NO_AUTHORITY)| == 2 && Lead(NO_AUTHORITY) + rest == "//" + rest;
    AuthorityBehind(NO_AUTHORITY, rest, emptyHostValid);
    ValidTrimmedBehind(NO_AUTHORITY, rest, emptyHostValid);
  }

  lemma NoPort(rest: string, pos: nat)
    requires FirstWhere(rest, Is(':'), pos) >= |rest| - 1
    ensures PortIn(rest, pos) == None
  {
    if FirstWhere(rest, Is(':'), pos) == |rest| - 1 {
      assert rest[|rest|..] == "";
    }
  }

  lemma Schemes(scheme: string)
    requires scheme == "x" || scheme == "file"
    ensures IsScheme(scheme)
  {
  }

  lemma ColonExample(authority: string, rest: string)
    requires authority == "//" + rest && rest == ":"
    ensures IsExample(authority, "", true) && PrintAuthority(AuthorityOf(authority, true)) == ""
  {
    hide ValidAuthority, AuthorityOf, FirstWhere;
    BehindSlashes(rest, true);
    FirstWhereUnique(rest, Is('['), 0, 1);
    FirstWhereUnique(rest, Is(':'), 0, 0);
    NoPort(rest, 0);
  }

  lemma SpaceExample(authority: string, rest: string)
    requires authority == "//" + rest && rest == " :"
    ensures IsExample(authority, "", false)
    ensures AuthorityOf(authority, false) == Authority("", " ", None, false, false)
  {
    hide ValidAuthority, AuthorityOf, FirstWhere;
    BehindSlashes(rest, false);
    FirstWhereUnique(rest, Is('['), 0, 2);
    FirstWhereUnique(rest, Is(':'), 0, 1);
    FirstWhereUnique(rest, Is(':'), 1, 1);
    NoPort(rest, 1);
    assert rest[..1] == " " && rest[2..] == "";
  }

  lemma BracketExample(authority: string, rest: string)
    requires authority == "//" + rest && rest == "ab[c]def"
    ensures IsExample(authority, "", false)
    ensures AuthorityOf(authority, false) == Authority("", "[c]def", None, false, false)
  {
    hide ValidAuthority, AuthorityOf, FirstWhere, HostIn, PortIn;
    BehindSlashes(rest, false);
    BracketRead(rest);
    NoPort(rest, 6);
  }

  lemma BracketRead(rest: string)
    requires rest == "ab[c]def"
    ensures HostIn(rest, 2) == "[c]def" && FirstWhere(rest, Is('['), 0) == 2 && FirstWhere(rest, Is(']'), 2) == 4
    ensures FirstWhere(rest, Is(':'), 6) == 8
  {
    hide FirstWhere;
    FirstWhereUnique(rest, Is('['), 0, 2);
    FirstWhereUnique(rest, Is(']'), 2, 4);
    FirstWhereUnique(rest, Is(':'), 6, 8);
    assert rest[2..8] == "[c]def";
  }

  lemma DriveExample(authority: string, rest: string)
    requires authority == "//" + rest && rest == "[::1]:80"
    ensures IsExample(authority, "/", false)
    ensures AuthorityOf(authority, false) == Authority("", "[::1]:", None, false, false)
  {
    hide ValidAuthority, AuthorityOf, FirstWhere;
    BehindSlashes(rest, false);
    FirstWhereUnique(rest, Is('['), 0, 0);
    FirstWhereUnique(rest, Is(']'), 0, 4);
    FirstWhereUnique(rest, Is(':'), 6, 8);
    assert Substr(rest, 0, 6) == rest[0..6] == "[::1]:";
    NoPort(rest, 6);
  }

  /** Behind an empty user info a second '@' is the host. */
  lemma AtExample(s: string, host: string)
    requires s == "//@" + host && host == "@"
    ensures IsExample(s, "", false) && AuthorityOf(s, false) == Authority("", "@", None, false, false)
  {
    hide FirstWhere, Trimmed;
    TrimmedFixed(s);
    FirstWhereUnique(s, Is('@'), 0, 2);
    FirstWhereUnique(s, Is('@'), 2, 2);
    FirstWhereUnique(s, Is('['), 3, |s|);
    FirstWhereUnique(s, Is(':'), 3, |s|);
    FirstWhereUnique(s, Is(':'), 4, |s|);
    assert s[3..] == host && s[2..2] == "";
  }

  /** file://: is printed as "file:", without the host that may be empty. */
  lemma EmptyHostIsLost(u: UriState, before: UriState)
    ensures IsLost(u, before, "file" + ":" + ("//:" + ""))
  {
    hide IsLost, IsExample, AuthorityOf;
    ColonExample("//:", ":");
    Schemes("file");
    ExampleIsLost(u, before, "file", "//:", "");
  }

  /** x://@@ is printed as "x://@", which has no host. */
  lemma AtSignIsLost(u: UriState, before: UriState)
    ensures IsLost(u, before, "x" + ":" + ("//@@" + ""))
  {
    hide IsLost, IsExample, AuthorityOf;
    AtExample("//@@", "@");
    Schemes("x");
    ExampleIsLost(u, before, "x", "//@@", "");
  }

  /** x:// : is printed as "x:// ", of which Valid trims the host away. */
  lemma SpaceIsLost(u: UriState, before: UriState)
    ensures IsLost(u, before, "x" + ":" + ("// :" + ""))
  {
    hide IsLost, IsExample, AuthorityOf;
    SpaceExample("// :", " :");
    Schemes("x");
    ExampleIsLost(u, before, "x", "// :", "");
  }

  /** x://ab[c]def is printed as "x://[c]def", and of that the host is "[c]d". */
  lemma BracketTextIsLost(u: UriState, before: UriState)
    ensures IsLost(u, before, "x" + ":" + ("//ab[c]def" + ""))
  {
    hide IsLost, IsExample, AuthorityOf;
    BracketExample("//ab[c]def", "ab[c]def");
    Schemes("x");
    FirstWhereUnique("[c]def", Is(']'), 0, 2);
    ExampleIsLost(u, before, "x", "//ab[c]def", "");
  }

  /** x://[::1]:80/ is printed as "x://[::1]:/", which is read as a Windows path. */
  lemma PortIsLost(u: UriState, before: UriState)
    ensures IsLost(u, before, "x" + ":" + ("//[::1]:80" + "/"))
  {
    hide IsLost, IsExample, AuthorityOf;
    DriveExample("//[::1]:80", "[::1]:80");
    Schemes("x");
    ExampleIsLost(u, before, "x", "//[::1]:80", "/");
  }
}
