/**
  URI::Valid against URI::Parse of src/URI.cc: for every string, when Parse succeeds. Valid trims
  its argument and Parse does not, and Parse knows a form of Windows paths that Valid does not.
*/
module UriValidity {
  import opened Common
  import opened Strings
  import opened UriParts
  import opened UriPrinting
  import opened UriAuthorityPrinting
  import opened Uri

  lemma PiecesParse(u: UriState, p: Pieces, isFile: bool)
    ensures ParsePieces(u, p, isFile).0 <==> ValidPieces(p, isFile)
    ensures ParsePieces(u, p, isFile).0 ==>
      ParsePieces(u, p, isFile).1 == UriState(u.scheme,
        if !isFile || p.authorityPresent then AuthorityOf(p.authority, isFile) else u.authority,
        PathOf(p.path), QueryOf(p.query), FragmentOf(p.fragment))
  {
  }

  /** When a piece is not valid, those before it have been parsed and the others are as they were. */
  lemma PiecesFail(u: UriState, p: Pieces, isFile: bool)
    requires !ValidPieces(p, isFile)
    ensures var taken := !isFile || p.authorityPresent;
      var authorityOk := taken ==> ValidAuthority(p.authority, isFile);
      var pathOk, queryOk := authorityOk && ValidPath(p.path), authorityOk && ValidPath(p.path) && ValidQuery(p.query);
      ParsePieces(u, p, isFile) == (false, UriState(u.scheme,
        if taken && authorityOk then AuthorityOf(p.authority, isFile) else u.authority,
        if pathOk then PathOf(p.path) else u.path, if queryOk then QueryOf(p.query) else u.query, u.fragment))
  {
  }

  /** Without a host where one is needed, Parse changes nothing; it looks for the scheme in the string as it
      is, and Valid in the trimmed one. */
  lemma NoHostChangesNothing(u: UriState, s: string)
    requires var rest := Rest(s);
      Colon(s) < |s| && s[..Colon(s)] != "file" && |rest| > 2 && StartsWithSlashes(rest) && rest[2] in {'/', '?', '#'}
    ensures ParseUri(u, s) == (false, u)
  {
    FirstWhereUnique(Rest(s), IsAuthorityEnd, 2, 2);
  }

  /** For every string: Parse succeeds exactly when Valid holds and the pieces it takes the string
      apart into are valid; then the state depends on the string alone, although Clear keeps the
      trailing slash of the earlier path. A string that is not valid changes nothing. */
  lemma ParseIffPieces(u: UriState, v: UriState, s: string)
    ensures var found := PiecesToParse(s);
      ParseUri(u, s).0 <==> ValidUri(s) && found.Some? && ValidPieces(found.value.1, found.value.0 == "file")
    ensures ParseUri(u, s).0 ==> ParseUri(v, s) == ParseUri(u, s)
    ensures !ValidUri(s) ==> ParseUri(u, s) == (false, u)
  {
    if ValidUri(s) && PiecesToParse(s).Some? {
      var (scheme, pieces) := PiecesToParse(s).value;
      PiecesParse(Cleared(u).(scheme := scheme), pieces, scheme == "file");
      PiecesParse(Cleared(v).(scheme := scheme), pieces, scheme == "file");
    }
  }

  // ----- white space behind the text -----

  lemma FoundInFront(s: string, w: string, p: char -> bool, pos: nat)
    requires Free(w, p) && pos <= |s|
    ensures FirstWhere(s + w, p, pos) == if FirstWhere(s, p, pos) < |s| then FirstWhere(s, p, pos) else |s + w|
  {
    var r := FirstWhere(s, p, pos);
    FirstWhereIsFirst(s, p, pos);
    if r < |s| {
      forall i | pos <= i < r
        ensures !p((s + w)[i])
      {
        assert !p(s[i]);
      }
      FirstWhereUnique(s + w, p, pos, r);
    } else {
      forall i | pos <= i < |s + w|
        ensures !p((s + w)[i])
      {
        if i >= |s| {
          assert !p(w[i - |s|]);
        }
      }
      FirstWhereUnique(s + w, p, pos, |s + w|);
    }
  }

  lemma SpaceIsFree(w: string, c: char)
    requires AllSpace(w) && !IsSpace(c)
    ensures Free(w, Is(c)) && Free(w, IsPathEnd) && Free(w, IsAuthorityEnd)
  {
  }

  /** The cuts of a text with white space behind it. */
  lemma CutAppended(s: string, w: string, n: nat)
    requires n <= |s|
    ensures (s + w)[n..] == s[n..] + w && (s + w)[..n] == s[..n]
    ensures (s + w)[..|s + w|] == s + w && (s + w)[|s + w|..] == ""
  {
  }

  lemma SplitQueryAppended(s: string, w: string)
    requires AllSpace(w) && s != "" && IsPathEnd(s[0])
    ensures var (query, fragment) := SplitQuery(s);
      && (query != "" || fragment != "")
      && SplitQuery(s + w) == if fragment != "" then (query, fragment + w) else (query + w, "")
  {
    if FirstWhere(s, Is('?'), 0) < |s| {
      QueryAppended(s, w);
    } else {
      SpaceIsFree(w, '#');
      SpaceIsFree(w, '?');
      FoundInFront(s, w, Is('?'), 0);
      FirstWhereIsFirst(s, Is('?'), 0);
      assert s[0] == '#';
      FragmentAlone(s);
      FragmentAlone(s + w);
    }
  }

  /** A text that is one fragment. */
  lemma FragmentAlone(s: string)
    requires s != "" && s[0] == '#' && FirstWhere(s, Is('?'), 0) == |s|
    ensures SplitQuery(s) == ("", s)
  {
    assert s[0..] == s && s[..0] == "";
  }

  lemma QueryAppended(s: string, w: string)
    requires AllSpace(w) && FirstWhere(s, Is('?'), 0) < |s|
    requires s != "" && IsPathEnd(s[0])
    ensures var (query, fragment) := SplitQuery(s);
      && (query != "" || fragment != "")
      && SplitQuery(s + w) == if fragment != "" then (query, fragment + w) else (query + w, "")
  {
    SpaceIsFree(w, '#');
    SpaceIsFree(w, '?');
    FoundInFront(s, w, Is('?'), 0);
    FoundInFront(s, w, Is('#'), 0);
    FirstWhereIsFirst(s, Is('#'), 0);
    var hash := FirstWhere(s, Is('#'), 0);
    CutAppended(s, w, hash);
    SplitQueryAt(s, hash);
    SplitQueryAt(s + w, if hash < |s| then hash else |s + w|);
  }

  /** A text with a query, cut at the hash. */
  lemma SplitQueryAt(s: string, hash: nat)
    requires FirstWhere(s, Is('?'), 0) < |s| && FirstWhere(s, Is('#'), 0) == hash <= |s|
    ensures SplitQuery(s) == (s[..hash], s[hash..])
  {
    FirstWhereIsFirst(s, Is('#'), 0);
    if hash < |s| {
      assert Is('#')(s[hash..][0]);
    }
  }

  /** The pieces of a text with white space behind it: the last piece gets it. */
  function Appended(p: Pieces, w: string): Pieces {
    if p.fragment != "" then p.(fragment := p.fragment + w)
    else if p.query != "" then p.(query := p.query + w)
    else if p.path != "" || !p.authorityPresent then p.(path := p.path + w)
    else p.(authority := p.authority + w)
  }

  lemma SplitPathAppended(authority: string, present: bool, s: string, w: string)
    requires AllSpace(w) && (s != "" || !present)
    ensures SplitPath(authority, present, s + w) == Appended(SplitPath(authority, present, s), w)
  {
    SpaceIsFree(w, '?');
    FoundInFront(s, w, IsPathEnd, 0);
    FirstWhereIsFirst(s, IsPathEnd, 0);
    var pathEnd := FirstWhere(s, IsPathEnd, 0);
    CutAppended(s, w, pathEnd);
    if pathEnd < |s| {
      SplitQueryAppended(s[pathEnd..], w);
    }
  }

  lemma SlashesAppended(s: string, w: string)
    requires AllSpace(w)
    ensures StartsWithSlashes(s + w) <==> StartsWithSlashes(s)
  {
    assert forall i :: 0 <= i < |w| ==> w[i] != '/';
  }

  lemma AuthorityAppended(s: string, w: string, isFile: bool)
    requires AllSpace(w) && StartsWithSlashes(s)
    ensures var split, all := SplitForValid(s, isFile), SplitForValid(s + w, isFile);
      (all.Some? <==> split.Some?) && (split.Some? ==> all.value == Appended(split.value, w))
  {
    SlashesAppended(s, w);
    SpaceIsFree(w, '?');
    FoundInFront(s, w, IsAuthorityEnd, 2);
    var end := FirstWhere(s, IsAuthorityEnd, 2);
    CutAppended(s, w, end);
    if end < |s| {
      SplitPathAppended(s[..end], true, s[end..], w);
    }
  }

  lemma SplitAppended(s: string, w: string, isFile: bool)
    requires AllSpace(w)
    ensures var split, all := SplitForValid(s, isFile), SplitForValid(s + w, isFile);
      (all.Some? <==> split.Some?) && (split.Some? ==> all.value == Appended(split.value, w))
  {
    SlashesAppended(s, w);
    if StartsWithSlashes(s) {
      AuthorityAppended(s, w, isFile);
    } else {
      SplitPathAppended("", false, s, w);
    }
  }

  lemma ValidAppended(p: Pieces, w: string, isFile: bool)
    requires AllSpace(w)
    ensures ValidPieces(Appended(p, w), isFile) <==>
      ValidPieces(p, isFile) && (w == "" || p.authorityPresent || p.path != "" || p.query != "" || p.fragment != "")
  {
    TrimmedAppended(p.fragment, w);
    TrimmedAppended(p.query, w);
    TrimmedAppended(p.path, w);
    TrimmedAppended(p.authority, w);
    if w == "" {
      assert Appended(p, w) == p;
    }
  }

  // ----- valid texts -----

  /** A search stops where the text free of its characters stops. */
  lemma FoundBehind(front: string, tail: string, p: char -> bool)
    requires Free(front, p) && (tail == "" || p(tail[0]))
    ensures FirstWhere(front + tail, p, 0) == |front|
    ensures (front + tail)[|front|..] == tail && (front + tail)[..|front|] == front
  {
    FirstWhereSkip(front, tail, p, 0);
  }

  /** The text scheme:rest, where the scheme begins with no white space and holds no colon. */
  ghost predicate IsScheme(scheme: string) {
    scheme != "" && !IsSpace(scheme[0]) && Free(scheme, Is(':'))
  }

  lemma TextTrimmed(scheme: string, rest: string)
    requires IsScheme(scheme)
    ensures Trimmed(scheme + ":" + rest) == scheme + ":" + TrimmedRight(rest)
  {
    TrimmedRightBehind(scheme + ":", rest);
  }

  lemma ColonOfText(scheme: string, rest: string)
    requires Free(scheme, Is(':'))
    ensures var s := scheme + ":" + rest; Colon(s) == |scheme| < |s| && s[..|scheme|] == scheme && Rest(s) == rest
  {
    assert scheme + ":" + rest == scheme + (":" + rest);
    FoundBehind(scheme, ":" + rest, Is(':'));
  }

  lemma ValidOfTrimmed(text: string, scheme: string, rest: string)
    requires IsScheme(scheme) && Trimmed(text) == scheme + ":" + rest
    ensures var p := SplitForValid(rest, scheme == "file");
      ValidUri(text) <==> p.Some? && ValidPieces(p.value, scheme == "file")
  {
    ColonOfText(scheme, rest);
  }

  lemma SpaceHasNoPieces(rest: string, isFile: bool)
    requires AllSpace(rest)
    ensures SplitForValid(rest, isFile) == Some(Pieces("", false, rest, "", ""))
    ensures ValidPieces(Pieces("", false, "", "", ""), isFile)
    ensures ValidPieces(Pieces("", false, rest, "", ""), isFile) <==> rest == ""
  {
    SplitAppended("", rest, isFile);
    ValidAppended(Pieces("", false, "", "", ""), rest, isFile);
    assert "" + rest == rest;
  }

  /** Valid accepts a text exactly when the pieces of what is behind its colon are valid, or that is
      nothing but white space. */
  lemma ValidOfText(scheme: string, rest: string)
    requires IsScheme(scheme)
    ensures var p := SplitForValid(rest, scheme == "file");
      ValidUri(scheme + ":" + rest) <==> p.Some? && (ValidPieces(p.value, scheme == "file") || AllSpace(rest))
  {
    var isFile := scheme == "file";
    var r := TrimmedRight(rest);
    var w := TrimmedRightCuts(rest);
    TextTrimmed(scheme, rest);
    ValidOfTrimmed(scheme + ":" + rest, scheme, r);
    SplitAppended(r, w, isFile);
    if AllSpace(rest) {
      SpaceHasNoPieces(rest, isFile);
      SpaceHasNoPieces("", isFile);
    } else if SplitForValid(r, isFile).Some? {
      SplitHasPieces(r, isFile);
      ValidAppended(SplitForValid(r, isFile).value, w, isFile);
    }
  }

  lemma SplitHasPieces(r: string, isFile: bool)
    requires r != "" && SplitForValid(r, isFile).Some?
    ensures var p := SplitForValid(r, isFile).value;
      p.authorityPresent || p.path != "" || p.query != "" || p.fragment != ""
  {
    if !StartsWithSlashes(r) {
      var pathEnd := FirstWhere(r, IsPathEnd, 0);
      FirstWhereIsFirst(r, IsPathEnd, 0);
      if pathEnd == 0 {
        assert r[0..] == r;
        SplitQueryAppended(r, "");
      }
    }
  }

  // ----- when Parse succeeds -----

  lemma ValidSame(s: string, t: string)
    requires Trimmed(s) == Trimmed(t)
    ensures ValidUri(s) <==> ValidUri(t)
  {
  }

  lemma ValidHasColon(s: string)
    requires ValidUri(s)
    ensures 0 < Colon(Trimmed(s)) < |Trimmed(s)|
  {
  }

  /** Where the scheme of a text without white space in front ends. */
  lemma SchemeOf(t: string) returns (scheme: string, rest: string)
    requires t != "" && !IsSpace(t[0]) && 0 < Colon(TrimmedRight(t)) < |TrimmedRight(t)|
    ensures IsScheme(scheme) && t == scheme + ":" + rest
  {
    var tr := TrimmedRight(t);
    var w := TrimmedRightCuts(t);
    FirstWhereIsFirst(tr, Is(':'), 0);
    scheme, rest := t[..Colon(tr)], t[Colon(tr) + 1..];
    assert tr == t[..|tr|];
    assert Is(':')(tr[Colon(tr)]);
    forall i | 0 <= i < |scheme|
      ensures !Is(':')(scheme[i])
    {
      assert scheme[i] == tr[i];
    }
  }

  /** The scheme and the rest of a string that may begin with white space. */
  lemma TextParts(s: string) returns (space: string, scheme: string, rest: string)
    requires 0 < Colon(Trimmed(s)) < |Trimmed(s)|
    ensures AllSpace(space) && IsScheme(scheme) && s == space + scheme + ":" + rest
    ensures Trimmed(scheme + ":" + rest) == Trimmed(s)
  {
    var t := TrimmedLeft(s);
    space := TrimmedLeftCuts(s);
    scheme, rest := SchemeOf(t);
    assert TrimmedLeft(t) == t;
    Regroup(space, scheme, ":", rest);
  }

  /** Whether Parse reads the scheme as "file". */
  lemma SchemeRead(space: string, scheme: string)
    requires AllSpace(space) && space != ""
    ensures space + scheme != "file"
  {
    assert (space + scheme)[0] == space[0];
  }

  lemma ParseIffValidPieces(u: UriState, s: string, scheme: string, rest: string)
    requires ValidUri(s) && Colon(s) == |scheme| < |s| && s[..Colon(s)] == scheme && Rest(s) == rest && !IsDriveForm(s)
    ensures var p := SplitForValid(rest, scheme == "file");
      ParseUri(u, s).0 <==> p.Some? && ValidPieces(p.value, scheme == "file")
  {
    ParseIffPieces(u, u, s);
  }

  /** Not to be all white space, unless empty. */
  predicate HasText(rest: string) {
    rest == "" || !AllSpace(rest)
  }

  lemma ParseIffText(u: UriState, scheme: string, rest: string)
    requires var s := scheme + ":" + rest; IsScheme(scheme) && ValidUri(s) && !IsDriveForm(s)
    ensures ParseUri(u, scheme + ":" + rest).0 <==> HasText(rest)
  {
    ColonOfText(scheme, rest);
    ParseIffValidPieces(u, scheme + ":" + rest, scheme, rest);
    ValidOfText(scheme, rest);
    if AllSpace(rest) {
      SpaceHasNoPieces(rest, scheme == "file");
    }
  }

  lemma ParseIffOtherScheme(u: UriState, space: string, scheme: string, rest: string)
    requires AllSpace(space) && space != "" && IsScheme(scheme)
    requires ValidUri(space + scheme + ":" + rest) && !IsDriveForm(space + scheme + ":" + rest)
    ensures ParseUri(u, space + scheme + ":" + rest).0 <==> HasText(rest) && ValidUri("x" + ":" + rest)
  {
    SpaceIsFree(space, ':');
    ColonOfText(space + scheme, rest);
    SchemeRead(space, scheme);
    ParseIffValidPieces(u, space + scheme + ":" + rest, space + scheme, rest);
    ValidOfText("x", rest);
    if AllSpace(rest) {
      SpaceHasNoPieces(rest, false);
    }
  }

  /** For every string not of the drive-letter form: Parse succeeds exactly when Valid holds, there
      is not white space alone behind the colon, and, if there is white space in front, so that the
      scheme Parse reads is not "file", the string is valid with another scheme. */
  lemma ParseIffValid(u: UriState, s: string)
    requires !IsDriveForm(s)
    ensures ParseUri(u, s).0 <==>
      ValidUri(s) && HasText(Rest(s)) && (s != "" && IsSpace(s[0]) ==> ValidUri("x" + ":" + Rest(s)))
  {
    if ValidUri(s) {
      ValidHasColon(s);
      var space, scheme, rest := TextParts(s);
      SpaceIsFree(space, ':');
      ColonOfText(space + scheme, rest);
      if space == "" {
        assert space + scheme == scheme;
        ParseIffText(u, scheme, rest);
      } else {
        ParseIffOtherScheme(u, space, scheme, rest);
      }
    }
  }

  /** For trimmed strings not of that form: Parse succeeds exactly when Valid holds, a failed Parse
      leaves the object as it was, and a successful one leaves a state that depends on the string
      alone. */
  lemma ParseMatchesValid(u: UriState, v: UriState, s: string)
    requires Trimmed(s) == s && !IsDriveForm(s)
    ensures ParseUri(u, s).0 <==> ValidUri(s)
    ensures !ParseUri(u, s).0 ==> ParseUri(u, s).1 == u
    ensures ParseUri(u, s).0 ==> ParseUri(v, s) == ParseUri(u, s)
  {
    ParseIffPieces(u, v, s);
  }

  // ----- the drive-letter form -----

  /** Text without '?' and '#' in front goes to the path. */
  lemma SplitPathShift(authority: string, present: bool, front: string, tail: string)
    requires Free(front, IsPathEnd)
    ensures var p := SplitPath(authority, present, tail);
      SplitPath(authority, present, front + tail) == p.(path := front + p.path)
  {
    FirstWhereSkip(front, tail, IsPathEnd, 0);
    var pathEnd := FirstWhere(tail, IsPathEnd, 0);
    assert (front + tail)[|front| + pathEnd..] == tail[pathEnd..];
    assert (front + tail)[..|front| + pathEnd] == front + tail[..pathEnd];
  }

  lemma DriveFormPieces(rest: string, isFile: bool)
    requires StartsWithSlashes(rest) && DriveAt(rest, FirstWhere(rest, IsAuthorityEnd, 2))
    requires SplitForValid(rest, isFile).Some?
    ensures var p := SplitForValid(rest, isFile).value;
      SplitForParse(rest, isFile) == Some(Pieces("", false, p.authority[2..] + p.path, p.query, p.fragment))
  {
    var end := FirstWhere(rest, IsAuthorityEnd, 2);
    FirstWhereIsFirst(rest, IsAuthorityEnd, 2);
    var front, tail := rest[2..end], rest[end..];
    assert rest[2..] == front + tail && rest[..end][2..] == front;
    forall i | 0 <= i < |front|
      ensures !IsPathEnd(front[i])
    {
      assert !IsAuthorityEnd(rest[2 + i]);
    }
    SplitPathShift("", false, front, tail);
  }

  /** The form does not depend on how the scheme is read. */
  lemma DriveFormSplits(rest: string, isFile: bool)
    requires StartsWithSlashes(rest) && DriveAt(rest, FirstWhere(rest, IsAuthorityEnd, 2))
    ensures SplitForValid(rest, isFile).Some? && SplitForValid(rest, isFile) == SplitForValid(rest, !isFile)
  {
  }

  lemma DriveFormIsValid(s: string)
    requires IsDriveForm(s) && ValidUri(s)
    ensures var split := SplitForValid(Rest(s), s[..Colon(s)] == "file");
      split.Some? && ValidQuery(split.value.query) && ValidFragment(split.value.fragment)
  {
    ValidHasColon(s);
    var space, scheme, rest := TextParts(s);
    SpaceIsFree(space, ':');
    ColonOfText(space + scheme, rest);
    ValidSame(s, scheme + ":" + rest);
    ValidOfText(scheme, rest);
    DriveFormSplits(rest, scheme == "file");
    DriveFormSplits(rest, s[..Colon(s)] == "file");
    assert !IsSpace(rest[0]);
  }

  lemma DriveFormPiecesToParse(s: string)
    requires IsDriveForm(s) && ValidUri(s)
    ensures var scheme := s[..Colon(s)];
      var split := SplitForValid(Rest(s), scheme == "file");
      split.Some? &&
      var p := split.value;
      && PiecesToParse(s) == Some((scheme, Pieces("", false, p.authority[2..] + p.path, p.query, p.fragment)))
      && ValidQuery(p.query) && ValidFragment(p.fragment)
  {
    DriveFormIsValid(s);
    DriveFormPieces(Rest(s), s[..Colon(s)] == "file");
  }

  lemma NoAuthorityParses(u: UriState, path: string, query: string, fragment: string, isFile: bool)
    requires ValidQuery(query) && ValidFragment(fragment)
    ensures var (ok, after) := ParsePieces(u, Pieces("", false, path, query, fragment), isFile);
      && (ok <==> ValidPath(path))
      && (!ok ==> after == u.(authority := if isFile then u.authority else Authority("", "", None, false, true)))
  {
  }

  /** For every string in the drive-letter form: Parse agrees with Valid exactly when the authority
      without its slashes and the path together are a valid path; when they are not, Parse fails
      after it has cleared the object. */
  lemma DriveFormParses(u: UriState, s: string)
    requires IsDriveForm(s) && ValidUri(s)
    ensures var scheme := s[..Colon(s)];
      var split := SplitForValid(Rest(s), scheme == "file");
      var (ok, after) := ParseUri(u, s);
      && split.Some?
      && (ok <==> ValidPath(split.value.authority[2..] + split.value.path))
      && (!ok ==> after == UriState(scheme, Authority("", "", None, false, scheme != "file"),
            Path([], false, u.path.trailingSlash), [], ""))
  {
    DriveFormPiecesToParse(s);
    var (scheme, p) := PiecesToParse(s).value;
    NoAuthorityParses(Cleared(u).(scheme := scheme), p.path, p.query, p.fragment, scheme == "file");
  }

  // ----- strings on which Valid and Parse differ -----

  lemma SplitQueryParts(query: string, fragment: string)
    requires query == "" || query[0] == '?'
    requires Free(query, Is('#')) && (fragment == "" || fragment[0] == '#')
    ensures SplitQuery(query + fragment) == (query, fragment)
  {
    if query == "" {
      assert query + fragment == fragment;
      SplitFragment(fragment);
    } else {
      FoundBehind(query, fragment, Is('#'));
      QueryMarkFound(query, fragment);
      SplitQueryAt(query + fragment, |query|);
    }
  }

  lemma SplitFragment(fragment: string)
    requires fragment == "" || fragment[0] == '#'
    ensures SplitQuery(fragment) == ("", fragment)
  {
    if fragment != "" {
      FirstWhereUnique(fragment, Is('#'), 0, 0);
      assert fragment[0..] == fragment && fragment[..0] == "";
    }
  }

  lemma QueryMarkFound(query: string, fragment: string)
    requires query != "" && query[0] == '?'
    ensures FirstWhere(query + fragment, Is('?'), 0) < |query + fragment|
  {
    FirstWhereUnique(query + fragment, Is('?'), 0, 0);
  }

  lemma SplitPathParts(authority: string, present: bool, path: string, query: string, fragment: string)
    requires Free(path, IsPathEnd)
    requires query == "" || query[0] == '?'
    requires Free(query, Is('#')) && (fragment == "" || fragment[0] == '#')
    ensures SplitPath(authority, present, path + (query + fragment))
      == Pieces(authority, present, path, query, fragment)
  {
    var tail := query + fragment;
    assert tail == "" || IsPathEnd(tail[0]) by {
      assert query == "" ==> tail == fragment;
    }
    FoundBehind(path, tail, IsPathEnd);
    SplitQueryParts(query, fragment);
    SplitPathAt(authority, present, path + tail, path, query, fragment);
  }

  lemma SplitPathAt(authority: string, present: bool, s: string, path: string, query: string, fragment: string)
    requires FirstWhere(s, IsPathEnd, 0) == |path| && s[..|path|] == path
    requires SplitQuery(s[|path|..]) == (query, fragment)
    ensures SplitPath(authority, present, s) == Pieces(authority, present, path, query, fragment)
  {
  }

  lemma DashSplits()
    ensures var s := "//-:/";
      && StartsWithSlashes(s) && DriveAt(s, FirstWhere(s, IsAuthorityEnd, 2))
      && SplitForValid(s, false) == Some(Pieces("//-:", true, "/", "", ""))
      && SplitForParse(s, false) == Some(Pieces("", false, "-:/", "", ""))
  {
    var s := "//-:/";
    FirstWhereUnique(s, IsAuthorityEnd, 2, 4);
    assert s[..4] == "//-:" && s[4..] == "/" && "//-:"[2..] == "-:" && "-:" + "/" == "-:/";
    SplitPathParts("//-:", true, "/", "", "");
    assert "/" + ("" + "") == "/";
    DriveFormPieces(s, false);
  }

  lemma DashIsValidHost()
    ensures ValidAuthority("//-:", false)
  {
    var s := "//-:";
    TrimmedFixed(s);
    FirstWhereUnique(s, Is('@'), 2, 4);
    FirstWhereUnique(s, Is('['), 2, 4);
    FirstWhereUnique(s, Is(':'), 2, 3);
    assert s[2..3] == "-" && s[4..] == "";
  }

  lemma DashIsNoPath()
    ensures !ValidPath("-:/") && ValidPath("/")
  {
    TrimmedFixed("-:/");
    TrimmedFixed("/");
  }

  lemma DriveFormRefused(u: UriState, scheme: string, rest: string, p: Pieces)
    requires IsScheme(scheme) && StartsWithSlashes(rest) && DriveAt(rest, FirstWhere(rest, IsAuthorityEnd, 2))
    requires SplitForValid(rest, scheme == "file") == Some(p) && ValidPieces(p, scheme == "file")
    requires |p.authority| >= 2 && !ValidPath(p.authority[2..] + p.path)
    ensures var s := scheme + ":" + rest; IsDriveForm(s) && ValidUri(s) && !ParseUri(u, s).0
  {
    ColonOfText(scheme, rest);
    ValidOfText(scheme, rest);
    DriveFormParses(u, scheme + ":" + rest);
  }

  lemma DashPiecesAreValid()
    ensures ValidPieces(Pieces("//-:", true, "/", "", ""), false)
  {
    DashIsValidHost();
    DashIsNoPath();
  }

  lemma DashIsScheme() returns (scheme: string)
    ensures IsScheme(scheme) && scheme != "file"
  {
    scheme := "x";
  }

  lemma Dash() returns (rest: string, p: Pieces)
    ensures StartsWithSlashes(rest) && DriveAt(rest, FirstWhere(rest, IsAuthorityEnd, 2))
    ensures SplitForValid(rest, false) == Some(p)
    ensures p == Pieces("//-:", true, "/", "", "")
  {
    rest, p := "//-:/", Pieces("//-:", true, "/", "", "");
    DashSplits();
  }

  /** Of a string in the drive-letter form, "x://-:/", Valid holds, but Parse fails. */
  lemma DriveFormCounterexample(u: UriState) returns (s: string)
    ensures IsDriveForm(s) && ValidUri(s) && !ParseUri(u, s).0
  {
    var scheme := DashIsScheme();
    var rest, p := Dash();
    DashPiecesAreValid();
    DashIsNoPath();
    assert p.authority[2..] + p.path == "-:/";
    DriveFormRefused(u, scheme, rest, p);
    s := scheme + ":" + rest;
  }

  lemma SpaceRefused(u: UriState, scheme: string, rest: string)
    requires IsScheme(scheme) && AllSpace(rest) && rest != ""
    ensures var s := scheme + ":" + rest; !IsDriveForm(s) && ValidUri(s) && !ParseUri(u, s).0
  {
    ColonOfText(scheme, rest);
    SpaceHasNoPieces(rest, scheme == "file");
    ValidOfText(scheme, rest);
    assert rest[0] != '/';
    ParseIffText(u, scheme, rest);
  }

  /** And of this string with white space alone behind the colon. */
  lemma UntrimmedCounterexample(u: UriState)
    ensures var s := "x" + ":" + " "; !IsDriveForm(s) && ValidUri(s) && !ParseUri(u, s).0
  {
    SpaceRefused(u, "x", " ");
  }

  /** A text without a host. */
  ghost predicate NeedsNoHost(rest: string) {
    && SplitForValid(rest, false) == None
    && SplitForValid(rest, true).Some? && ValidPieces(SplitForValid(rest, true).value, true)
    && StartsWithSlashes(rest) && !DriveAt(rest, FirstWhere(rest, IsAuthorityEnd, 2))
  }

  lemma SpacedFileIsValid(space: string, rest: string)
    requires AllSpace(space) && NeedsNoHost(rest)
    ensures ValidUri(space + "file" + ":" + rest)
  {
    ValidOfText("file", rest);
    TrimmedPrepended(space, "file" + ":" + rest);
    Regroup(space, "file", ":", rest);
    ValidSame(space + "file" + ":" + rest, "file" + ":" + rest);
  }

  lemma SpacedFileIsRefused(u: UriState, space: string, scheme: string, rest: string)
    requires AllSpace(space) && space != "" && NeedsNoHost(rest) && IsScheme(scheme)
      && ValidUri(space + scheme + ":" + rest)
    ensures var s := space + scheme + ":" + rest; !IsDriveForm(s) && !ParseUri(u, s).0
  {
    SpaceIsFree(space, ':');
    ColonOfText(space + scheme, rest);
    ValidOfText("x", rest);
    assert !IsSpace(rest[0]);
    ParseIffOtherScheme(u, space, scheme, rest);
  }

  lemma NoHost() returns (space: string, rest: string)
    ensures AllSpace(space) && space != "" && NeedsNoHost(rest)
  {
    space, rest := " ", "///";
    NoHostSplits();
  }

  lemma FileIsScheme() returns (scheme: string)
    ensures IsScheme(scheme) && scheme == "file"
  {
    scheme := "file";
  }

  /** And of one with white space in front, " file:///": a file URI may do without a host, but the
      scheme Parse reads is another. */
  lemma LeadingSpaceCounterexample(u: UriState) returns (s: string)
    ensures !IsDriveForm(s) && ValidUri(s) && !ParseUri(u, s).0
  {
    var space, rest := NoHost();
    var scheme := FileIsScheme();
    SpacedFileIsValid(space, rest);
    SpacedFileIsRefused(u, space, scheme, rest);
    s := space + scheme + ":" + rest;
  }

  lemma NoHostSplits()
    ensures StartsWithSlashes("///") && !DriveAt("///", FirstWhere("///", IsAuthorityEnd, 2))
    ensures SplitForValid("///", true) == Some(Pieces("//", true, "/", "", "")) && SplitForValid("///", false) == None
    ensures ValidPieces(Pieces("//", true, "/", "", ""), true)
  {
    var s := "///";
    FirstWhereUnique(s, IsAuthorityEnd, 2, 2);
    assert s[..2] == "//" && s[2..] == "/";
    SplitPathParts("//", true, "/", "", "");
    assert "/" + ("" + "") == "/";
    EmptyHostRoundTrip(NO_AUTHORITY);
    DashIsNoPath();
  }
}
