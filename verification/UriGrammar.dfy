/**
  URI::Valid and URI::Parse of src/URI.cc against the grammar of RFC 3986: exactly which texts that
  follow the grammar are accepted, and what they are parsed to.
*/
module UriGrammar {
  import opened Common
  import opened Strings
  import opened UriParts
  import opened UriPrinting
  import opened UriAuthorityPrinting
  import opened Uri
  import opened UriValidity
  import opened UriRoundTrip

  // ----- the grammar -----

  predicate IsLetter(c: char) {
    'a' <= c <= 'z' || 'A' <= c <= 'Z'
  }

  predicate IsHexDigit(c: char) {
    '0' <= c <= '9' || 'a' <= c <= 'f' || 'A' <= c <= 'F'
  }

  /** RFC 3986, section 2.3. */
  predicate Unreserved(c: char) {
    IsLetter(c) || '0' <= c <= '9' || c in "-._~"
  }

  /** Section 2.2. */
  predicate SubDelim(c: char) {
    c in "!$&'()*+,;="
  }

  /** Characters of a set and, of section 2.1, bytes in percent-encoding. */
  predicate IsText(s: string, p: char -> bool) {
    || s == ""
    || (p(s[0]) && IsText(s[1..], p))
    || (|s| >= 3 && s[0] == '%' && IsHexDigit(s[1]) && IsHexDigit(s[2]) && IsText(s[3..], p))
  }

  /** Section 3.3. */
  predicate PathChar(c: char) {
    Unreserved(c) || SubDelim(c) || c == ':' || c == '@' || c == '/'
  }

  /** Sections 3.4 and 3.5. */
  predicate QueryChar(c: char) {
    PathChar(c) || c == '?'
  }

  /** Section 3.2.1. */
  predicate UserInfoChar(c: char) {
    Unreserved(c) || SubDelim(c) || c == ':'
  }

  /** Section 3.2.2: a registered name or an IPv4 address. */
  predicate NameChar(c: char) {
    Unreserved(c) || SubDelim(c)
  }

  /** An IP literal, by its characters. */
  predicate IsLiteral(host: string) {
    && |host| >= 3 && host[0] == '[' && host[|host| - 1] == ']'
    && (forall i :: 0 < i < |host| - 1 ==> UserInfoChar(host[i]))
  }

  datatype AuthorityText = AuthorityText(userInfo: Option<string>, host: string, port: Option<string>)

  datatype UriText = UriText(scheme: string, authority: Option<AuthorityText>, path: string, query: Option<string>,
    fragment: Option<string>)

  predicate FollowsAuthority(a: AuthorityText) {
    && (a.userInfo.Some? ==> IsText(a.userInfo.value, UserInfoChar))
    && (IsText(a.host, NameChar) || IsLiteral(a.host))
    && (a.port.Some? ==> AllFrom(a.port.value, IsDigit, 0))
  }

  /** Section 3: a path behind an authority is empty or begins with a slash, another one does not begin
      with two. */
  predicate FollowsGrammar(u: UriText) {
    && u.scheme != "" && IsLetter(u.scheme[0])
    && (forall i :: 0 < i < |u.scheme| ==>
          IsLetter(u.scheme[i]) || IsDigit(u.scheme[i]) || u.scheme[i] in {'+', '-', '.'})
    && (u.authority.Some? ==> FollowsAuthority(u.authority.value))
    && IsText(u.path, PathChar)
    && (if u.authority.Some? then u.path == "" || u.path[0] == '/' else !StartsWithSlashes(u.path))
    && (u.query.Some? ==> IsText(u.query.value, QueryChar))
    && (u.fragment.Some? ==> IsText(u.fragment.value, QueryChar))
  }

  function LeadText(userInfo: Option<string>): string {
    "//" + if userInfo.Some? then userInfo.value + "@" else ""
  }

  function Marked(mark: char, text: Option<string>): string {
    if text.Some? then [mark] + text.value else ""
  }

  function AuthorityWritten(a: AuthorityText): string {
    LeadText(a.userInfo) + (a.host + Marked(':', a.port))
  }

  function AuthorityPiece(u: UriText): string {
    if u.authority.Some? then AuthorityWritten(u.authority.value) else ""
  }

  function TailWritten(u: UriText): string {
    u.path + (Marked('?', u.query) + Marked('#', u.fragment))
  }

  function Written(u: UriText): string {
    u.scheme + ":" + (AuthorityPiece(u) + TailWritten(u))
  }

  // ----- what is accepted -----

  /** Of the first character of user info and host nothing is asked. */
  predicate IsSupportedAuthority(a: AuthorityText, isFile: bool) {
    && (a.userInfo.Some? ==> forall i :: 0 < i < |a.userInfo.value| ==> a.userInfo.value[i] != ':')
    && (forall i :: 0 < i < |a.host| ==> a.host[i] != '~' && !SubDelim(a.host[i]))
    && (a.host == "" ==> isFile)
  }

  /** User info without a colon, a host without tilde and delimiters, empty in a file URI alone, and a
      path that does not begin with most of the marks. */
  predicate IsSupported(u: UriText) {
    && (u.authority.Some? ==> IsSupportedAuthority(u.authority.value, u.scheme == "file"))
    && (u.path != "" ==> u.path[0] !in "-._~!$&'()*,;=@")
  }

  // ----- characters -----

  lemma SameMarks(c: char)
    ensures Unreserved(c) <==> IsUnreserved(c)
    ensures SubDelim(c) <==> IsSubDelim(c)
    ensures IsSpace(c) ==> !Unreserved(c) && !SubDelim(c)
  {
  }

  lemma SameSets(c: char)
    ensures QueryChar(c) || c == '%' <==> IsQueryChar(c)
    ensures PathChar(c) || c == '%' || c in {'[', ']', ' '} <==> IsPathChar(c)
  {
    SameMarks(c);
    hide Unreserved, SubDelim, IsUnreserved, IsSubDelim;
  }

  lemma UserInfoSet(c: char)
    ensures (UserInfoChar(c) && c != ':') || c == '%' <==> IsUserInfoChar(c)
  {
  }

  lemma HostSet(c: char)
    ensures (Unreserved(c) && c != '~') || c in {'%', '[', ']', ':', ' '} <==> IsHostChar(c)
  {
  }

  lemma HexIsUnreserved(c: char)
    requires IsHexDigit(c)
    ensures Unreserved(c)
  {
  }

  predicate OrPercent(p: char -> bool, c: char) {
    p(c) || c == '%'
  }

  lemma {:induction false} TextChars(s: string, p: char -> bool)
    requires IsText(s, p) && forall c :: IsHexDigit(c) ==> p(c)
    ensures forall i :: 0 <= i < |s| ==> OrPercent(p, s[i])
  {
    if s != "" {
      var k := if p(s[0]) && IsText(s[1..], p) then 1 else 3;
      TextChars(s[k..], p);
      forall i | 0 <= i < |s|
        ensures OrPercent(p, s[i])
      {
        if i >= k {
          assert s[k..][i - k] == s[i];
        }
      }
    }
  }

  lemma HexInSets(c: char)
    requires IsHexDigit(c)
    ensures QueryChar(c) && PathChar(c) && UserInfoChar(c) && NameChar(c)
  {
    HexIsUnreserved(c);
    hide Unreserved, SubDelim, IsHexDigit;
  }

  /** Texts over these sets hold no other characters than those and percent signs. */
  lemma TextHolds(s: string, p: char -> bool)
    requires IsText(s, p) && (p == QueryChar || p == PathChar || p == UserInfoChar || p == NameChar)
    ensures forall i :: 0 <= i < |s| ==> OrPercent(p, s[i])
  {
    hide QueryChar, PathChar, UserInfoChar, NameChar, IsHexDigit, IsText, OrPercent;
    forall c | IsHexDigit(c)
      ensures p(c)
    {
      HexInSets(c);
    }
    TextChars(s, p);
  }

  lemma NoSpace(c: char)
    requires OrPercent(QueryChar, c) || OrPercent(PathChar, c) || OrPercent(UserInfoChar, c) || OrPercent(NameChar, c)
    ensures !IsSpace(c)
  {
    SameMarks(c);
    hide Unreserved, SubDelim, IsUnreserved, IsSubDelim;
  }

  // ----- path, query and fragment -----

  lemma QueryTextValid(s: string)
    requires IsText(s, QueryChar)
    ensures AllFrom(s, IsQueryChar, 0) && ValidQuery("?" + s) && ValidFragment("#" + s) && Free(s, Is('#'))
  {
    TextHolds(s, QueryChar);
    hide QueryChar, IsText;
    forall i | 0 <= i < |s|
      ensures IsQueryChar(s[i])
    {
      assert OrPercent(QueryChar, s[i]);
      SameSets(s[i]);
    }
    TrimmedChars("?" + s, IsQueryChar, 1);
    TrimmedChars("#" + s, IsQueryChar, 1);
  }

  lemma StartSet(c: char)
    ensures IsPathStart(c) <==> c == '[' || (OrPercent(PathChar, c) && c !in "-._~!$&'()*,;=@")
  {
  }

  lemma PathTextValid(s: string)
    requires IsText(s, PathChar)
    ensures AllFrom(s, IsPathChar, 0) && Free(s, IsPathEnd)
    ensures ValidPath(s) <==> s == "" || s[0] !in "-._~!$&'()*,;=@"
  {
    TextHolds(s, PathChar);
    hide PathChar, IsText, IsPathStart;
    forall i | 0 <= i < |s|
      ensures IsPathChar(s[i]) && !IsSpace(s[i])
    {
      assert OrPercent(PathChar, s[i]);
      SameSets(s[i]);
      NoSpace(s[i]);
    }
    PathCharsFree(s);
    hide IsPathChar;
    if s != "" {
      TrimmedFixed(s);
      StartSet(s[0]);
    }
  }

  /** Any text, valid or not: which characters it may hold once it is trimmed. */
  lemma ComponentsValidIff(text: string)
    ensures var s := Trimmed(text);
      && (ValidQuery(text) <==>
            s == "" || (s[0] == '?' && forall i :: 0 < i < |s| ==> QueryChar(s[i]) || s[i] == '%'))
      && (ValidFragment(text) <==>
            s == "" || (s[0] == '#' && forall i :: 0 < i < |s| ==> QueryChar(s[i]) || s[i] == '%'))
      && (ValidPath(text) <==>
            && (s == "" ==> text == "")
            && (s != "" ==> s[0] == '[' || (OrPercent(PathChar, s[0]) && s[0] !in "-._~!$&'()*,;=@"))
            && forall i :: 0 < i < |s| ==> PathChar(s[i]) || s[i] in {'%', '[', ']', ' '})
  {
    var s := Trimmed(text);
    hide QueryChar, PathChar, IsQueryChar, IsPathChar, IsPathStart;
    forall i | 0 <= i < |s|
      ensures QueryChar(s[i]) || s[i] == '%' <==> IsQueryChar(s[i])
      ensures PathChar(s[i]) || s[i] in {'%', '[', ']', ' '} <==> IsPathChar(s[i])
    {
      SameSets(s[i]);
    }
    if s != "" {
      StartSet(s[0]);
    }
  }

  // ----- authority -----

  lemma UserInfoTextChars(s: string)
    requires IsText(s, UserInfoChar)
    ensures Free(s, Is('@'))
    ensures forall i :: 0 <= i < |s| ==> !IsSpace(s[i]) && (IsUserInfoChar(s[i]) <==> s[i] != ':')
  {
    TextHolds(s, UserInfoChar);
    hide IsText;
    forall i | 0 <= i < |s|
      ensures !IsSpace(s[i]) && (IsUserInfoChar(s[i]) <==> s[i] != ':') && s[i] != '@'
    {
      assert OrPercent(UserInfoChar, s[i]);
      UserInfoSet(s[i]);
      NoSpace(s[i]);
    }
  }

  /** Characters between the lead and the port. */
  ghost predicate HasHostChars(host: string) {
    forall i :: 0 <= i < |host| ==>
      !IsSpace(host[i]) && !IsAuthorityEnd(host[i]) && host[i] != '@'
      && (IsHostChar(host[i]) <==> host[i] != '~' && !SubDelim(host[i]))
  }

  lemma HostCharOf(c: char)
    requires OrPercent(UserInfoChar, c) || c in {'[', ']'}
    ensures !IsSpace(c) && !IsAuthorityEnd(c) && c != '@' && (IsHostChar(c) <==> c != '~' && !SubDelim(c))
  {
    HostSet(c);
  }

  lemma NameInUserInfo(c: char)
    requires OrPercent(NameChar, c)
    ensures OrPercent(UserInfoChar, c) && c !in {'[', ']', ':'}
  {
  }

  lemma NameTextChars(host: string)
    requires IsText(host, NameChar)
    ensures HasHostChars(host) && Free(host, Is('[')) && Free(host, Is(':'))
  {
    TextHolds(host, NameChar);
    hide IsText, NameChar, UserInfoChar, SubDelim, IsHostChar, IsAuthorityEnd, OrPercent;
    forall i | 0 <= i < |host|
      ensures OrPercent(UserInfoChar, host[i]) && host[i] !in {'[', ']', ':'}
    {
      assert OrPercent(NameChar, host[i]);
      NameInUserInfo(host[i]);
    }
    forall i | 0 <= i < |host|
      ensures !IsSpace(host[i]) && !IsAuthorityEnd(host[i]) && host[i] != '@'
      ensures IsHostChar(host[i]) <==> host[i] != '~' && !SubDelim(host[i])
    {
      HostCharOf(host[i]);
    }
  }

  lemma LiteralChars(host: string)
    requires IsLiteral(host)
    ensures HasHostChars(host) && forall i :: 0 <= i < |host| - 1 ==> host[i] != ']'
  {
    hide SubDelim, IsHostChar, IsAuthorityEnd;
    forall i | 0 <= i < |host|
      ensures !IsSpace(host[i]) && !IsAuthorityEnd(host[i]) && host[i] != '@'
      ensures IsHostChar(host[i]) <==> host[i] != '~' && !SubDelim(host[i])
      ensures i < |host| - 1 ==> host[i] != ']'
    {
      LiteralChar(host, i);
      HostCharOf(host[i]);
    }
  }

  lemma LiteralChar(host: string, i: nat)
    requires IsLiteral(host) && i < |host|
    ensures OrPercent(UserInfoChar, host[i]) || host[i] in {'[', ']'}
    ensures i < |host| - 1 ==> host[i] != ']'
  {
    if 0 < i < |host| - 1 {
      assert UserInfoChar(host[i]);
    }
  }

  /** The user info ends at the first at sign. */
  lemma LeadFound(userInfo: Option<string>, rest: string, pos: nat)
    requires pos <= 2 && Free(rest, Is('@')) && (userInfo.Some? ==> Free(userInfo.value, Is('@')))
    ensures var s, lead := LeadText(userInfo) + rest, LeadText(userInfo);
      && HostStart(s, pos) == |lead| && s[|lead|..] == rest
      && (userInfo.Some? ==> |lead| == |userInfo.value| + 3 && s[2..|lead| - 1] == userInfo.value)
      && UserInfoText(s) == if userInfo.Some? then userInfo.value else ""
  {
    var s := LeadText(userInfo) + rest;
    if userInfo.Some? {
      var front := "//" + userInfo.value;
      assert s == front + ("@" + rest);
      FirstWhereSkip(front, "@" + rest, Is('@'), pos);
      FirstWhereSkip(front, "@" + rest, Is('@'), 0);
    } else {
      assert s == "//" + rest;
      FirstWhereSkip("//", rest, Is('@'), pos);
      FirstWhereSkip("//", rest, Is('@'), 0);
      FirstWhereNone(rest, Is('@'), 0);
    }
  }

  lemma PortChars(port: Option<string>)
    requires port.Some? ==> AllFrom(port.value, IsDigit, 0)
    ensures var t := Marked(':', port);
      && Free(t, Is('@')) && Free(t, Is('[')) && Free(t, Is(']')) && (t != "" ==> t[0] == ':')
      && (forall i :: 0 <= i < |t| ==> !IsSpace(t[i]) && !IsAuthorityEnd(t[i]) && IsHostChar(t[i]))
      && (forall i :: 0 < i < |t| ==> IsDigit(t[i]))
  {
  }

  /** A name as host is cut out as it is, and the port begins behind it. */
  lemma NameFound(lead: string, host: string, port: string)
    requires Free(host, Is('[')) && Free(host, Is(':')) && Free(port, Is('[')) && (port != "" ==> port[0] == ':')
    ensures var s, start := lead + (host + port), |lead|;
      && FirstWhere(s, Is('['), start) == |s| && HostText(s, start) == host
      && PortAt(s, start) == start + |host|
  {
    hide FirstWhere;
    var s, start := lead + (host + port), |lead|;
    FirstWhereShift(lead, host + port, Is('['), 0);
    FreeConcat(host, port, Is('['));
    FirstWhereNone(host + port, Is('['), 0);
    FirstWhereShift(lead, host + port, Is(':'), 0);
    FirstWhereUnique(port, Is(':'), 0, 0);
    FirstWhereSkip(host, port, Is(':'), 0);
    assert s[start..start + |host|] == host && (port == "" ==> s[start..] == host);
    FirstWhereUnique(s, Is(':'), start + |host|, start + |host|);
  }

  /** For a literal with a port more is cut out: all that follows, or as many characters as there are in
      front of the closing bracket; the port is then not found. */
  lemma LiteralFound(lead: string, host: string, port: string)
    requires IsLiteral(host) && (forall i :: 0 <= i < |host| - 1 ==> host[i] != ']') && |lead| >= 2
    requires port != "" ==> port[0] == ':'
    requires forall i :: 0 < i < |port| ==> IsDigit(port[i])
    ensures var s, start := lead + (host + port), |lead|;
      && FirstWhere(s, Is('['), start) == start && FirstWhere(s, Is(']'), start) == start + |host| - 1 < |s|
      && host <= HostText(s, start) <= host + port && PortAt(s, start) == |s|
  {
    var s, start := lead + (host + port), |lead|;
    assert s[start] == host[0] && s[start + |host| - 1] == host[|host| - 1] && s[start..] == host + port;
    FirstWhereUnique(s, Is(']'), start, start + |host| - 1);
    var text := HostText(s, start);
    assert |text| == if start + |host| - 1 <= |host + port| then start + |host| - 1 else |host + port|;
    assert text == (host + port)[..|text|];
    FirstWhereUnique(s, Is(':'), start + |text|, |s|);
  }

  // ----- authority, accepted -----

  /** What is checked of the user info. */
  lemma UserInfoValid(userInfo: Option<string>)
    requires userInfo.Some? ==> IsText(userInfo.value, UserInfoChar)
    ensures userInfo.Some? ==> Free(userInfo.value, Is('@'))
    ensures userInfo.Some? ==> (AllFrom(userInfo.value, IsUserInfoChar, 1)
      <==> forall i :: 0 < i < |userInfo.value| ==> userInfo.value[i] != ':')
  {
    if userInfo.Some? {
      UserInfoTextChars(userInfo.value);
    }
  }

  /** What is checked of the text cut out for the host: that of a host alone decides. */
  lemma HostValid(host: string, text: string, port: string)
    requires HasHostChars(host) && host <= text <= host + port
    requires forall i :: 0 <= i < |port| ==> IsHostChar(port[i])
    ensures AllFrom(text, IsHostChar, 1) <==> forall i :: 0 < i < |host| ==> host[i] != '~' && !SubDelim(host[i])
  {
    hide IsHostChar, SubDelim, IsAuthorityEnd;
    if AllFrom(text, IsHostChar, 1) {
      assert forall i :: 0 < i < |host| ==> text[i] == host[i];
    } else {
      var i :| 1 <= i < |text| && !IsHostChar(text[i]);
      assert text[i] == (host + port)[i];
    }
  }

  lemma AuthorityChecked(s: string, start: nat, emptyHostValid: bool)
    requires StartsWithSlashes(s) && Trimmed(s) == s && HostStart(s, 2) == start
    requires PortAt(s, start) < |s| ==> AllFrom(s[PortAt(s, start) + 1..], IsDigit, 1)
    requires FirstWhere(s, Is('['), start) < |s| ==> FirstWhere(s, Is(']'), FirstWhere(s, Is('['), start)) < |s|
    ensures ValidAuthority(s, emptyHostValid) <==> (
      && (2 < start <= |s| ==> AllFrom(s[2..start - 1], IsUserInfoChar, 1))
      && (HostText(s, start) != "" || emptyHostValid) && AllFrom(HostText(s, start), IsHostChar, 1))
  {
  }

  /** A name or a literal behind any lead: what is cut out for it, and what is checked of the port. */
  ghost predicate IsHostFound(s: string, start: nat, host: string, port: string) {
    && host <= HostText(s, start) <= host + port && (host == "" ==> HostText(s, start) == "")
    && (PortAt(s, start) < |s| ==> AllFrom(s[PortAt(s, start) + 1..], IsDigit, 1))
    && (FirstWhere(s, Is('['), start) < |s| ==> FirstWhere(s, Is(']'), FirstWhere(s, Is('['), start)) < |s|)
  }

  /** The host is exactly what is cut out, no bracket is found, and the port begins behind it. */
  lemma ExactlyFound(s: string, start: nat, host: string, port: string)
    requires FirstWhere(s, Is('['), start) == |s| && HostText(s, start) == host && PortAt(s, start) == start + |host|
    requires start + |host| <= |s| && s[start + |host|..] == port && forall i :: 0 < i < |port| ==> IsDigit(port[i])
    ensures IsHostFound(s, start, host, port)
  {
    hide HostText, PortAt, FirstWhere, IsDigit;
    if start + |host| < |s| {
      assert s[start + |host| + 1..] == port[1..];
    }
  }

  lemma NameIsFound(lead: string, host: string, port: string)
    requires IsText(host, NameChar) && Free(port, Is('[')) && (port != "" ==> port[0] == ':')
    requires forall i :: 0 < i < |port| ==> IsDigit(port[i])
    ensures IsHostFound(lead + (host + port), |lead|, host, port)
    ensures var s, start := lead + (host + port), |lead|;
      HostText(s, start) == host && PortAt(s, start) == start + |host|
  {
    hide IsText, NameChar, HasHostChars, PortAt, HostText, FirstWhere, Free, IsDigit, IsHostFound;
    NameTextChars(host);
    NameFound(lead, host, port);
    assert (lead + (host + port))[|lead| + |host|..] == port;
    ExactlyFound(lead + (host + port), |lead|, host, port);
  }

  lemma LiteralIsFound(lead: string, host: string, port: string)
    requires IsLiteral(host) && |lead| >= 2 && (port != "" ==> port[0] == ':')
    requires forall i :: 0 < i < |port| ==> IsDigit(port[i])
    ensures IsHostFound(lead + (host + port), |lead|, host, port)
  {
    LiteralChars(host);
    hide HasHostChars, PortAt, HostText;
    LiteralFound(lead, host, port);
    hide IsLiteral;
  }

  lemma HostIsFound(lead: string, a: AuthorityText)
    requires FollowsAuthority(a) && |lead| >= 2
    ensures HasHostChars(a.host) && Free(a.host, Is('@'))
    ensures IsHostFound(lead + (a.host + Marked(':', a.port)), |lead|, a.host, Marked(':', a.port))
  {
    PortChars(a.port);
    if IsText(a.host, NameChar) {
      NameTextChars(a.host);
      hide IsText, IsLiteral, HasHostChars, IsHostFound, Marked;
      NameIsFound(lead, a.host, Marked(':', a.port));
    } else {
      LiteralChars(a.host);
      hide IsText, IsLiteral, HasHostChars, IsHostFound, Marked;
      LiteralIsFound(lead, a.host, Marked(':', a.port));
    }
  }

  lemma LeadBegins(userInfo: Option<string>)
    ensures var lead := LeadText(userInfo);
      && StartsWithSlashes(lead) && !IsSpace(lead[0]) && !IsSpace(lead[|lead| - 1])
      && (|lead| > 2 <==> userInfo.Some?)
  {
  }

  lemma AuthorityTrimmed(a: AuthorityText)
    requires FollowsAuthority(a)
    ensures var s := AuthorityWritten(a); StartsWithSlashes(s) && Trimmed(s) == s
  {
    hide IsText, IsLiteral, IsHostFound, SubDelim, IsHostChar, IsAuthorityEnd, LeadText, IsSpace, Trimmed, Marked;
    var s, lead, port := AuthorityWritten(a), LeadText(a.userInfo), Marked(':', a.port);
    LeadBegins(a.userInfo);
    PortChars(a.port);
    HostIsFound(lead, a);
    assert s[|s| - 1] == if port != "" then port[|port| - 1] else if a.host != "" then a.host[|a.host| - 1]
      else lead[|lead| - 1];
    TrimmedFixed(s);
  }

  /** What is checked of the user info in a written authority. */
  lemma UserInfoFound(a: AuthorityText)
    requires FollowsAuthority(a) && Free(a.host, Is('@'))
    ensures var s, start := AuthorityWritten(a), |LeadText(a.userInfo)|;
      && HostStart(s, 0) == HostStart(s, 2) == start <= |s| && (start > 2 <==> a.userInfo.Some?)
      && (start > 2 ==> (AllFrom(s[2..start - 1], IsUserInfoChar, 1)
            <==> forall i :: 0 < i < |a.userInfo.value| ==> a.userInfo.value[i] != ':'))
      && UserInfoText(s) == if a.userInfo.Some? then a.userInfo.value else ""
  {
    PortChars(a.port);
    UserInfoValid(a.userInfo);
    hide IsText, IsLiteral, IsHostChar, IsAuthorityEnd, IsUserInfoChar;
    FreeConcat(a.host, Marked(':', a.port), Is('@'));
    LeadFound(a.userInfo, a.host + Marked(':', a.port), 0);
    LeadFound(a.userInfo, a.host + Marked(':', a.port), 2);
  }

  /** An authority of the grammar is accepted exactly when the program supports it. */
  lemma AuthorityAcceptedIff(a: AuthorityText, emptyHostValid: bool)
    requires FollowsAuthority(a)
    ensures ValidAuthority(AuthorityWritten(a), emptyHostValid) <==> IsSupportedAuthority(a, emptyHostValid)
  {
    var lead := LeadText(a.userInfo);
    var s, start, port := AuthorityWritten(a), |lead|, Marked(':', a.port);
    PortChars(a.port);
    hide FollowsAuthority;
    HostIsFound(lead, a);
    AuthorityTrimmed(a);
    hide HasHostChars, SubDelim, IsHostChar, IsAuthorityEnd, IsUserInfoChar;
    UserInfoFound(a);
    HostValid(a.host, HostText(s, start), port);
    hide HostText, PortAt, ValidAuthority, Trimmed, StartsWithSlashes, HostStart;
    AuthorityChecked(s, start, emptyHostValid);
  }

  /** The parts of an authority without brackets. */
  ghost predicate HasParts(s: string, userInfo: Option<string>, host: string, port: Option<string>) {
    var start := |LeadText(userInfo)|;
    && StartsWithSlashes(s) && Trimmed(s) == s
    && HostStart(s, 2) == start <= |s| && HostText(s, start) == host && FirstWhere(s, Is('['), start) == |s|
    && (userInfo.Some? <==> start > 2) && (userInfo.Some? ==> s[2..start - 1] == userInfo.value)
    && (port.Some? <==> PortAt(s, start) < |s|) && (port.Some? ==> s[PortAt(s, start) + 1..] == port.value)
  }

  lemma PartsFound(userInfo: Option<string>, host: string, port: Option<string>)
    requires userInfo.Some? ==> Free(userInfo.value, Is('@'))
    requires Free(host, Is('@')) && Free(host, Is('[')) && Free(host, Is(':'))
    requires Free(Marked(':', port), Is('@')) && Free(Marked(':', port), Is('['))
    requires var s := LeadText(userInfo) + (host + Marked(':', port)); !IsSpace(s[|s| - 1])
    ensures HasParts(LeadText(userInfo) + (host + Marked(':', port)), userInfo, host, port)
  {
    hide HostText, PortAt, FirstWhere, Trimmed, HostStart, Free, IsSpace, LeadText, Marked;
    var lead, tail := LeadText(userInfo), Marked(':', port);
    var s := lead + (host + tail);
    LeadBegins(userInfo);
    TrimmedFixed(s);
    FreeConcat(host, tail, Is('@'));
    LeadFound(userInfo, host + tail, 2);
    MarkBegins(port);
    NameFound(lead, host, tail);
    assert s[|lead| + |host|..] == tail;
    PortBehind(s, |lead| + |host|, port);
  }

  lemma MarkBegins(port: Option<string>)
    ensures Marked(':', port) != "" ==> Marked(':', port)[0] == ':'
  {
  }

  lemma PortBehind(s: string, at: nat, port: Option<string>)
    requires at <= |s| && s[at..] == Marked(':', port)
    ensures (port.Some? <==> at < |s|) && (port.Some? ==> s[at + 1..] == port.value)
  {
    if port.Some? {
      assert s[at + 1..] == (":" + port.value)[1..];
    }
  }

  /** Any text of user info, a name and a port, valid or not: which characters it may hold. Of the first
      character of each part nothing is asked. */
  lemma AuthorityValidIff(userInfo: Option<string>, host: string, port: Option<string>, emptyHostValid: bool)
    requires userInfo.Some? ==> Free(userInfo.value, Is('@'))
    requires Free(host, Is('@')) && Free(host, Is('[')) && Free(host, Is(':'))
    requires Free(Marked(':', port), Is('@')) && Free(Marked(':', port), Is('['))
    requires var s := LeadText(userInfo) + (host + Marked(':', port)); !IsSpace(s[|s| - 1])
    ensures ValidAuthority(LeadText(userInfo) + (host + Marked(':', port)), emptyHostValid) <==>
      && (userInfo.Some? ==> AllFrom(userInfo.value, IsUserInfoChar, 1))
      && (host != "" || emptyHostValid) && AllFrom(host, IsHostChar, 1)
      && (port.Some? ==> AllFrom(port.value, IsDigit, 1))
  {
    hide HostText, PortAt, FirstWhere, Trimmed, HostStart, AllFrom, Free, LeadText, Marked;
    PartsFound(userInfo, host, port);
  }

  /** A text that does not begin with two slashes is refused, and so is one whose first bracket is not
      closed. */
  lemma NoAuthority(text: string, emptyHostValid: bool, i: nat)
    ensures var s := Trimmed(text);
      && (s == "" ==> ValidAuthority(text, emptyHostValid))
      && (s != "" && !StartsWithSlashes(s) ==> !ValidAuthority(text, emptyHostValid))
      && (i < |s| && s[i] == '[' && Free(s[..i], Is('[')) && Free(s, Is('@')) && Free(s[i..], Is(']')) ==>
            !ValidAuthority(text, emptyHostValid))
  {
    var s := Trimmed(text);
    if i < |s| && s[i] == '[' && Free(s[..i], Is('[')) && Free(s, Is('@')) && Free(s[i..], Is(']')) {
      hide Trimmed, Free;
      if StartsWithSlashes(s) {
        UnclosedBracket(s, i);
      }
    }
  }

  lemma UnclosedBracket(s: string, i: nat)
    requires i < |s| && s[i] == '[' && Free(s[..i], Is('[')) && Free(s, Is('@')) && Free(s[i..], Is(']'))
    requires StartsWithSlashes(s)
    ensures HostStart(s, 2) == 2 && FirstWhere(s, Is('['), 2) == i && FirstWhere(s, Is(']'), i) == |s|
  {
    hide FirstWhere;
    FirstWhereNone(s, Is('@'), 2);
    BracketFound(s[..i], s[i..]);
    assert s[..i] + s[i..] == s;
  }

  lemma BracketFound(front: string, back: string)
    requires StartsWithSlashes(front + back) && Free(front, Is('[')) && Free(back, Is(']'))
    requires back != "" && back[0] == '['
    ensures var s := front + back; FirstWhere(s, Is('['), 2) == |front| && FirstWhere(s, Is(']'), |front|) == |s|
  {
    hide FirstWhere;
    assert |front| >= 2 by {
      assert (front + back)[|front|] == '[';
    }
    FirstWhereSkip(front, back, Is('['), 2);
    FirstWhereUnique(back, Is('['), 0, 0);
    FirstWhereShift(front, back, Is(']'), 0);
    FirstWhereNone(back, Is(']'), 0);
  }

  // ----- whole URIs -----

  function PiecesWritten(u: UriText): Pieces {
    Pieces(AuthorityPiece(u), u.authority.Some?, u.path, Marked('?', u.query), Marked('#', u.fragment))
  }

  lemma MarkedValid(u: UriText)
    requires FollowsGrammar(u)
    ensures var query, fragment := Marked('?', u.query), Marked('#', u.fragment);
      && ValidQuery(query) && ValidFragment(fragment) && Free(query, Is('#'))
      && (query == "" || query[0] == '?') && (fragment == "" || fragment[0] == '#')
  {
    hide IsText, FollowsAuthority, PathChar;
    if u.query.Some? {
      QueryTextValid(u.query.value);
      FreeConcat("?", u.query.value, Is('#'));
    }
    if u.fragment.Some? {
      QueryTextValid(u.fragment.value);
    }
  }

  lemma TailWrittenSplits(u: UriText)
    requires FollowsGrammar(u)
    ensures SplitPath(AuthorityPiece(u), u.authority.Some?, TailWritten(u)) == PiecesWritten(u)
    ensures var tail := TailWritten(u);
      if u.authority.Some? then tail == "" || IsAuthorityEnd(tail[0]) else !StartsWithSlashes(tail)
  {
    PathTextValid(u.path);
    MarkedValid(u);
    hide IsText, FollowsAuthority, PathChar, ValidPath, ValidQuery, ValidFragment;
    var query, fragment := Marked('?', u.query), Marked('#', u.fragment);
    SplitPathParts(AuthorityPiece(u), u.authority.Some?, u.path, query, fragment);
  }

  lemma LeadEnds(userInfo: Option<string>)
    requires userInfo.Some? ==> IsText(userInfo.value, UserInfoChar)
    ensures var lead := LeadText(userInfo);
      && StartsWithSlashes(lead) && (|lead| == 2 <==> userInfo == None) && lead[|lead| - 1] != ':'
      && forall i :: 2 <= i < |lead| ==> !IsAuthorityEnd(lead[i])
  {
    if userInfo.Some? {
      var s := userInfo.value;
      TextHolds(s, UserInfoChar);
      hide IsText, UserInfoChar, OrPercent;
      forall i | 0 <= i < |s|
        ensures !IsAuthorityEnd(s[i])
      {
        HostCharOf(s[i]);
      }
    }
  }

  lemma HostEnds(host: string)
    requires IsText(host, NameChar) || IsLiteral(host)
    ensures host != "" ==> host[|host| - 1] != ':'
  {
    if !IsLiteral(host) {
      hide IsText, NameChar;
      NameTextChars(host);
    }
  }

  lemma AuthorityWrittenEnds(a: AuthorityText)
    requires FollowsAuthority(a)
    ensures var s := AuthorityWritten(a);
      && StartsWithSlashes(s) && (forall i :: 2 <= i < |s| ==> !IsAuthorityEnd(s[i]))
      && (s[|s| - 1] == ':' <==> a.port == Some("")) && (|s| == 2 <==> a == AuthorityText(None, "", None))
  {
    hide IsText, IsLiteral, IsAuthorityEnd, IsHostFound, SubDelim, IsHostChar, LeadText;
    var lead, port := LeadText(a.userInfo), Marked(':', a.port);
    PortChars(a.port);
    LeadEnds(a.userInfo);
    HostIsFound(lead, a);
    HostEnds(a.host);
    var s := lead + (a.host + port);
    forall i | 2 <= i < |s|
      ensures !IsAuthorityEnd(s[i])
    {
      if i >= |lead| + |a.host| {
        assert s[i] == port[i - |lead| - |a.host|];
      } else if i >= |lead| {
        assert s[i] == a.host[i - |lead|];
      }
    }
    assert s[|s| - 1] == if port != "" then port[|port| - 1] else if a.host != "" then a.host[|a.host| - 1]
      else lead[|lead| - 1];
  }

  /** An empty port in front of a path is read as a drive letter, whatever the rest. */
  predicate IsDriveText(u: UriText) {
    u.authority.Some? && u.authority.value.port == Some("") && u.path != ""
  }

  lemma WrittenSplits(u: UriText)
    requires FollowsGrammar(u)
    ensures var isFile, rest := u.scheme == "file", AuthorityPiece(u) + TailWritten(u);
      && (IsSupported(u) ==> SplitForValid(rest, isFile) == Some(PiecesWritten(u)))
      && (SplitForValid(rest, isFile).Some? ==> SplitForValid(rest, isFile) == Some(PiecesWritten(u)))
      && (IsSupported(u) && !IsDriveText(u) ==> SplitForParse(rest, isFile) == Some(PiecesWritten(u)))
  {
    hide IsText, IsLiteral, FollowsAuthority, IsAuthorityEnd, SubDelim, PathChar, AuthorityWritten, TailWritten;
    var authority, tail := AuthorityPiece(u), TailWritten(u);
    TailWrittenSplits(u);
    if u.authority.Some? {
      AuthorityWrittenEnds(u.authority.value);
      AuthorityEndFound(authority, tail);
      DriveEnds(u);
    } else {
      assert authority + tail == tail;
    }
  }

  lemma DriveEnds(u: UriText)
    requires FollowsGrammar(u) && u.authority.Some?
    ensures DriveAt(AuthorityPiece(u) + TailWritten(u), |AuthorityPiece(u)|) <==> IsDriveText(u)
  {
    hide IsText, IsLiteral, FollowsAuthority, IsAuthorityEnd, SubDelim, PathChar, AuthorityWritten;
    AuthorityWrittenEnds(u.authority.value);
    var s, end := AuthorityPiece(u) + TailWritten(u), |AuthorityPiece(u)|;
    assert s[end..] == TailWritten(u) && s[end - 1] == AuthorityPiece(u)[end - 1];
  }

  lemma PiecesValidIff(u: UriText)
    requires FollowsGrammar(u)
    ensures ValidPieces(PiecesWritten(u), u.scheme == "file") <==> IsSupported(u)
  {
    hide IsText, IsLiteral, FollowsAuthority, SubDelim, PathChar, ValidPath, ValidQuery, ValidFragment;
    PathTextValid(u.path);
    MarkedValid(u);
    if u.authority.Some? {
      hide ValidAuthority, IsSupportedAuthority;
      AuthorityAcceptedIff(u.authority.value, u.scheme == "file");
    }
  }

  lemma SchemeIsScheme(u: UriText)
    requires FollowsGrammar(u)
    ensures IsScheme(u.scheme)
  {
  }

  /** A URI of the grammar holds no white space. */
  lemma NoSpaceBehindColon(u: UriText)
    requires FollowsGrammar(u)
    ensures var rest := AuthorityPiece(u) + TailWritten(u); rest != "" ==> !IsSpace(rest[0])
  {
    hide IsText, IsLiteral, FollowsAuthority, SubDelim, AuthorityWritten;
    if u.authority.Some? {
      AuthorityWrittenEnds(u.authority.value);
    } else if u.path != "" {
      TextHolds(u.path, PathChar);
      NoSpace(u.path[0]);
    }
  }

  /** Of the texts that follow the grammar of RFC 3986, URI::Valid accepts exactly the supported ones. */
  lemma GrammarAcceptedIff(u: UriText)
    requires FollowsGrammar(u)
    ensures ValidUri(Written(u)) <==> IsSupported(u)
  {
    var rest := AuthorityPiece(u) + TailWritten(u);
    SchemeIsScheme(u);
    WrittenSplits(u);
    PiecesValidIff(u);
    NoSpaceBehindColon(u);
    hide FollowsGrammar, IsSupported, ValidPieces, AuthorityPiece, TailWritten, SplitForValid;
    ValidOfText(u.scheme, rest);
    if AllSpace(rest) {
      SpaceHasNoPieces(rest, u.scheme == "file");
    }
  }

  lemma PortReadBehind(s: string, at: nat, port: Option<string>)
    requires at <= |s| && s[at..] == Marked(':', port)
    ensures PortOf(s, at) == if port.Some? then Stoi(port.value) else None
  {
    if port.Some? {
      assert s[at + 1..] == (":" + port.value)[1..] == port.value;
    }
  }

  lemma NameRead(lead: string, host: string, port: Option<string>)
    requires IsText(host, NameChar) && (port.Some? ==> AllFrom(port.value, IsDigit, 0))
    ensures var s, start := lead + (host + Marked(':', port)), |lead|;
      HostText(s, start) == host && PortOf(s, PortAt(s, start)) == if port.Some? then Stoi(port.value) else None
  {
    hide IsText, NameChar, IsHostFound, Stoi, HostText, PortAt, PortOf, Marked;
    PortChars(port);
    NameIsFound(lead, host, Marked(':', port));
    assert (lead + (host + Marked(':', port)))[|lead| + |host|..] == Marked(':', port);
    PortReadBehind(lead + (host + Marked(':', port)), |lead| + |host|, port);
  }

  lemma LiteralRead(lead: string, host: string, port: Option<string>)
    requires IsLiteral(host) && |lead| >= 2 && (port.Some? ==> AllFrom(port.value, IsDigit, 0))
    ensures var s, start := lead + (host + Marked(':', port)), |lead|;
      (port == None ==> HostText(s, start) == host) && PortOf(s, PortAt(s, start)) == None
  {
    hide HostText, PortAt;
    PortChars(port);
    LiteralChars(host);
    LiteralFound(lead, host, Marked(':', port));
  }

  /** What such an authority is parsed to: a literal host comes out right without a port. */
  lemma AuthorityRead(a: AuthorityText, isFile: bool)
    requires FollowsAuthority(a)
    ensures var r := AuthorityOf(AuthorityWritten(a), isFile);
      && r.userInfo == (if a.userInfo.Some? then a.userInfo.value else "")
      && (!IsLiteral(a.host) || a.port == None ==> r.host == a.host)
      && (!IsLiteral(a.host) ==> r.port == if a.port.Some? then Stoi(a.port.value) else None)
      && (IsLiteral(a.host) ==> r.port == None)
  {
    hide IsText, IsAuthorityEnd, HostText, PortAt, PortOf, Stoi, LeadText, HostStart, UserInfoText, SubDelim;
    var lead := LeadText(a.userInfo);
    LeadEnds(a.userInfo);
    HostIsFound(lead, a);
    UserInfoFound(a);
    AuthorityWrittenEnds(a);
    if IsLiteral(a.host) {
      LiteralRead(lead, a.host, a.port);
    } else {
      hide IsLiteral;
      NameRead(lead, a.host, a.port);
    }
  }

  lemma WrittenPieces(u: UriText)
    requires FollowsGrammar(u) && IsSupported(u) && !IsDriveText(u)
    ensures PiecesToParse(Written(u)) == Some((u.scheme, PiecesWritten(u)))
  {
    SchemeIsScheme(u);
    WrittenSplits(u);
    hide FollowsGrammar, IsSupported, AuthorityPiece, TailWritten, SplitForParse;
    ColonOfText(u.scheme, AuthorityPiece(u) + TailWritten(u));
  }

  /** URI::Parse takes them apart, whatever the object held, as long as no empty port stands in front of a
      path. */
  lemma GrammarParsed(u: UriText, before: UriState)
    requires FollowsGrammar(u) && !IsDriveText(u)
    ensures ParseUri(before, Written(u)).0 <==> IsSupported(u)
    ensures IsSupported(u) ==>
      ParseUri(before, Written(u)).1 == UriState(u.scheme,
        if u.authority.Some? || u.scheme != "file" then AuthorityOf(AuthorityPiece(u), u.scheme == "file")
        else NO_AUTHORITY,
        PathOf(u.path), QueryOf(Marked('?', u.query)), FragmentOf(Marked('#', u.fragment)))
  {
    GrammarAcceptedIff(u);
    if IsSupported(u) {
      WrittenPieces(u);
      PiecesValidIff(u);
      hide FollowsGrammar, IsSupported, ValidPieces, ParsePieces, Written, ValidUri;
      PiecesParse(Cleared(before).(scheme := u.scheme), PiecesWritten(u), u.scheme == "file");
    }
  }
}
