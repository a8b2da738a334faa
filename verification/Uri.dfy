/**
  The whole URI of src/URI.cc: the splitter, written once in Valid and once in Parse, the
  printer, and the class that holds the components.
*/
module Uri {
  import opened Common
  import opened Strings
  import opened UriParts

  datatype UriState = UriState(scheme: string, authority: Authority, path: Path, query: Query, fragment: string)

  /** Clear leaves the trailing slash of the path alone. */
  function Cleared(u: UriState): UriState {
    UriState("", NO_AUTHORITY, Path([], false, u.path.trailingSlash), [], "")
  }

  // ----- splitting -----

  datatype Pieces = Pieces(authority: string, authorityPresent: bool, path: string, query: string, fragment: string)

  predicate IsAuthorityEnd(c: char) {
    c in {'/', '?', '#'}
  }

  predicate IsPathEnd(c: char) {
    c in {'?', '#'}
  }

  /** The text behind the path: the query up to '#' if there is a '?' anywhere, then the fragment. */
  function SplitQuery(s: string): (string, string) {
    var queryEnd := if FirstWhere(s, Is('?'), 0) < |s| then FirstWhere(s, Is('#'), 0) else 0;
    var rest := s[queryEnd..];
    (s[..queryEnd], if FirstWhere(rest, Is('#'), 0) < |rest| then rest else "")
  }

  function SplitPath(authority: string, present: bool, s: string): Pieces {
    var pathEnd := FirstWhere(s, IsPathEnd, 0);
    var (query, fragment) := SplitQuery(s[pathEnd..]);
    Pieces(authority, present, s[..pathEnd], query, fragment)
  }

  /** The splitter in Valid, on the text behind the scheme. */
  function SplitForValid(s: string, isFile: bool): Option<Pieces> {
    if StartsWithSlashes(s) then
      var end := FirstWhere(s, IsAuthorityEnd, 2);
      if !isFile && end == 2 && end < |s| then None
      else Some(SplitPath(s[..end], true, s[end..]))
    else Some(SplitPath("", false, s))
  }

  /** A colon right before the slash that ends the authority, as in file://D:/path. When the
      authority ends the string the program reads behind it; the test then counts as false. */
  predicate DriveAt(s: string, end: nat) {
    1 <= end < |s| && s[end - 1] == ':' && s[end] == '/'
  }

  /** The splitter in Parse. */
  function SplitForParse(s: string, isFile: bool): Option<Pieces> {
    if StartsWithSlashes(s) then
      var end := FirstWhere(s, IsAuthorityEnd, 2);
      if DriveAt(s, end) then Some(SplitPath("", false, s[2..]))
      else if !isFile && end == 2 && end < |s| then None
      else Some(SplitPath(s[..end], true, s[end..]))
    else Some(SplitPath("", false, s))
  }

  function Colon(s: string): nat {
    FirstWhere(s, Is(':'), 0)
  }

  /** What Valid checks of the pieces. */
  predicate ValidPieces(p: Pieces, isFile: bool) {
    && (!isFile || p.authorityPresent ==> ValidAuthority(p.authority, isFile))
    && ValidPath(p.path) && ValidQuery(p.query) && ValidFragment(p.fragment)
  }

  predicate ValidUri(text: string) {
    var s := Trimmed(text);
    var colon := Colon(s);
    && 0 < colon < |s|
    && var isFile := s[..colon] == "file";
       var pieces := SplitForValid(s[colon + 1..], isFile);
       pieces.Some? && ValidPieces(pieces.value, isFile)
  }

  /** The component parsers one after the other, up to the first failure. */
  function ParsePieces(u: UriState, p: Pieces, isFile: bool): (bool, UriState) {
    var (authorityOk, authority) :=
      if !isFile || p.authorityPresent then ParseAuthority(u.authority, p.authority, isFile) else (true, u.authority);
    if !authorityOk then (false, u)
    else
      var (pathOk, path) := ParsePath(u.path, p.path);
      var u1 := u.(authority := authority, path := path);
      if !pathOk then (false, u1)
      else
        var (queryOk, query) := ParseQuery(u.query, p.query);
        var u2 := u1.(query := query);
        if !queryOk then (false, u2)
        else
          var (fragmentOk, fragment) := ParseFragment(u.fragment, p.fragment);
          (fragmentOk, u2.(fragment := fragment))
  }

  /** The scheme and the pieces Parse works on once Valid has accepted the string. */
  function PiecesToParse(s: string): Option<(string, Pieces)> {
    var colon := Colon(s);
    var pieces := SplitForParse(Rest(s), s[..colon] == "file");
    if pieces.None? then None else Some((s[..colon], pieces.value))
  }

  function ParseUri(u: UriState, s: string): (bool, UriState) {
    if !ValidUri(s) then (false, u)
    else match PiecesToParse(s)
      case None => (false, u)
      case Some((scheme, pieces)) => ParsePieces(Cleared(u).(scheme := scheme), pieces, scheme == "file")
  }

  function PrintUri(u: UriState): string {
    (if u.scheme == "" then "" else u.scheme + ":")
    + PrintAuthority(u.authority) + PrintPath(u.path) + PrintQuery(u.query) + PrintFragment(u.fragment)
  }

  // ----- the class -----

  class URI {
    var scheme: string
    const authority: URIAuthority
    const path: URIPath
    const query: URIQuery
    const fragment: URIFragment

    function State(): UriState
      reads this, authority, path, query, fragment
    {
      UriState(scheme, authority.State(), path.State(), query.values, fragment.value)
    }

    constructor ()
      ensures State() == UriState("", NO_AUTHORITY, Path([], false, false), [], "")
      ensures fresh(authority) && fresh(path) && fresh(query) && fresh(fragment)
    {
      scheme := "";
      authority := new URIAuthority();
      path := new URIPath();
      query := new URIQuery();
      fragment := new URIFragment();
    }

    method Clear()
      modifies this, authority, path, query, fragment
      ensures State() == Cleared(old(State()))
    {
      scheme := "";
      authority.Clear();
      path.Clear();
      query.Clear();
      fragment.Clear();
    }

    method Parse(text: string) returns (ok: bool)
      modifies this, authority, path, query, fragment
      ensures (ok, State()) == ParseUri(old(State()), text)
    {
      if !ValidUri(text) {
        return false;
      }
      var found := PiecesToParse(text);
      if found.None? {
        return false;
      }
      var (localScheme, pieces) := found.value;
      PieceIsNoSpace(text);
      Clear();
      scheme := localScheme;
      ok := ParseParts(pieces, localScheme == "file");
    }

    method ParseParts(p: Pieces, emptyHostValid: bool) returns (ok: bool)
      requires !(|p.authority| == 1 && IsSpace(p.authority[0]))
      modifies this, authority, path, query, fragment
      ensures (ok, State()) == ParsePieces(old(State()), p, emptyHostValid)
    {
      if !emptyHostValid || p.authorityPresent {
        ok := authority.Parse(p.authority, emptyHostValid);
        if !ok {
          return;
        }
      }
      ok := path.Parse(p.path);
      if ok {
        ok := query.Parse(p.query);
        if ok {
          ok := fragment.Parse(p.fragment);
        }
      }
    }
  }

  lemma PieceIsNoSpace(s: string)
    ensures var found := PiecesToParse(s);
      found.Some? ==> !(|found.value.1.authority| == 1 && IsSpace(found.value.1.authority[0]))
  {
  }

  /** The form of URI whose authority Parse takes for the beginning of a Windows path. */
  predicate IsDriveForm(s: string) {
    var rest := Rest(s);
    StartsWithSlashes(rest) && DriveAt(rest, FirstWhere(rest, IsAuthorityEnd, 2))
  }

  /** The text behind the first colon. */
  function Rest(s: string): string {
    if Colon(s) < |s| then s[Colon(s) + 1..] else ""
  }
}
