/**
  Parsing undoes printing for the authority component of src/URI.cc: for every plain host, and
  for a bracketed one exactly when no port follows it.
*/
module UriAuthorityPrinting {
  import opened Common
  import opened Strings
  import opened UriParts

  // ----- searching in concatenations -----

  lemma {:induction false} FirstWhereShift(a: string, b: string, p: char -> bool, pos: nat)
    ensures FirstWhere(a + b, p, |a| + pos) == |a| + FirstWhere(b, p, pos)
    decreases |b| - pos
  {
    if pos < |b| {
      assert (a + b)[|a| + pos] == b[pos];
      FirstWhereShift(a, b, p, pos + 1);
    }
  }

  lemma {:induction false} FirstWhereSkip(a: string, b: string, p: char -> bool, pos: nat)
    requires pos <= |a| && forall i :: pos <= i < |a| ==> !p(a[i])
    ensures FirstWhere(a + b, p, pos) == |a| + FirstWhere(b, p, 0)
    decreases |a| - pos
  {
    if pos < |a| {
      assert (a + b)[pos] == a[pos];
      FirstWhereSkip(a, b, p, pos + 1);
    } else {
      FirstWhereShift(a, b, p, 0);
    }
  }

  lemma {:induction false} FirstWhereNone(s: string, p: char -> bool, pos: nat)
    requires Free(s, p)
    ensures FirstWhere(s, p, pos) == |s|
    decreases |s| - pos
  {
    if pos < |s| {
      FirstWhereNone(s, p, pos + 1);
    }
  }

  // ----- the printed authority -----

  predicate IsPlainHostChar(c: char) {
    IsAlnum(c) || c in {'%', '-', '.', '_'}
  }

  /** A printable authority, whatever its host. */
  ghost predicate WellFormedExceptHost(a: Authority) {
    && AllFrom(a.userInfo, IsUserInfoChar, 0)
    && PrintAuthority(a) != ""
    && (a.port.Some? ==> IsInt(a.port.value))
  }

  /** A host without brackets; it may be empty, when the two flags say so. */
  ghost predicate HasPlainHost(a: Authority) {
    WellFormedExceptHost(a) && AllFrom(a.host, IsPlainHostChar, 0)
  }

  /** An IP literal in brackets. */
  ghost predicate HasBracketedHost(a: Authority) {
    && WellFormedExceptHost(a)
    && |a.host| >= 2 && a.host[0] == '[' && a.host[|a.host| - 1] == ']'
    && AllFrom(a.host, IsHostChar, 0)
    && (forall i :: 0 < i < |a.host| - 1 ==> a.host[i] != ']')
  }

  /** The authority with the two flags as Parse sets them when it reads this text. */
  function Reflagged(a: Authority, text: string, emptyHostValid: bool): Authority {
    a.(emptyHostValid := emptyHostValid, hasEmptyHost := text == "" || text == "//")
  }

  function Lead(a: Authority): string {
    "//" + (if a.userInfo == "" then "" else a.userInfo + "@")
  }

  function PortText(a: Authority): string {
    if a.port.Some? then ":" + PrintInt(a.port.value) else ""
  }

  lemma PrintedAuthority(a: Authority)
    requires PrintAuthority(a) != ""
    ensures PrintAuthority(a) == Lead(a) + (a.host + PortText(a))
    ensures PrintAuthority(a) == Lead(a) + a.host + PortText(a)
  {
    hide PrintInt;
    Reassociate(Lead(a), a.host, PortText(a));
  }

  lemma PortTextChars(a: Authority)
    requires WellFormedExceptHost(a)
    ensures PortText(a) != "" ==> PortText(a)[0] == ':' && PortText(a)[|PortText(a)| - 1] != ':'
    ensures forall i :: 0 < i < |PortText(a)| ==> IsDigit(PortText(a)[i]) || (i == 1 && PortText(a)[i] == '-')
    ensures PortText(a) != "" ==> |PortText(a)| >= 2 && AllFrom(PortText(a)[1..], IsDigit, 1)
    ensures a.port.Some? ==> PortText(a)[1..] == PrintInt(a.port.value)
  {
    if a.port.Some? {
      var n := a.port.value;
      PrintNatRoundTrip(if n < 0 then -n else n);
    }
  }

  lemma PortTextHasNone(a: Authority, c: char)
    requires WellFormedExceptHost(a) && (c == '@' || c == '[' || c == ']')
    ensures Free(PortText(a), Is(c))
  {
    PortTextChars(a);
  }

  /** The user info ends at the '@', which is found from position 0 and from position 2 alike. */
  lemma UserInfoFound(a: Authority, rest: string, pos: nat)
    requires Free(a.userInfo, Is('@')) && (a.userInfo == "" ==> Free(rest, Is('@'))) && pos <= 2
    ensures FirstWhere(Lead(a) + rest, Is('@'), pos) == if a.userInfo == "" then |Lead(a) + rest| else |Lead(a)| - 1
  {
    if a.userInfo == "" {
      assert Lead(a) + rest == "//" + rest;
      FirstWhereSkip("//", rest, Is('@'), pos);
      FirstWhereNone(rest, Is('@'), 0);
    } else {
      var front := "//" + a.userInfo;
      assert Lead(a) + rest == front + ("@" + rest);
      FirstWhereSkip(front, "@" + rest, Is('@'), pos);
    }
  }

  /** Where the host starts and what the user info is, for any text behind the lead. */
  lemma LeadParsed(a: Authority, rest: string)
    requires Free(a.userInfo, Is('@')) && (a.userInfo == "" ==> Free(rest, Is('@')))
    ensures var s := Lead(a) + rest;
      && HostStart(s, 0) == HostStart(s, 2) == |Lead(a)|
      && UserInfoText(s) == a.userInfo
      && (|Lead(a)| > 2 ==> s[2..|Lead(a)| - 1] == a.userInfo)
  {
    UserInfoFound(a, rest, 0);
    UserInfoFound(a, rest, 2);
    if a.userInfo != "" {
      assert (Lead(a) + rest)[2..|Lead(a)| - 1] == a.userInfo;
    }
  }

  lemma HostIsFree(a: Authority)
    requires HasPlainHost(a) || HasBracketedHost(a)
    ensures Free(a.host + PortText(a), Is('@')) && Free(a.userInfo, Is('@'))
  {
    PortTextHasNone(a, '@');
  }

  lemma PortFound(a: Authority, front: string)
    requires WellFormedExceptHost(a)
    ensures FirstWhere(front + PortText(a), Is(':'), |front|) == |front|
  {
    PortTextChars(a);
    FirstWhereShift(front, PortText(a), Is(':'), 0);
  }

  lemma PortRead(a: Authority, front: string, s: string)
    requires WellFormedExceptHost(a) && s == front + PortText(a)
    ensures PortOf(s, |front|) == a.port
  {
    PortTextChars(a);
    if a.port.Some? {
      StoiOfPrintInt(a.port.value);
      assert s[|front| + 1..] == PortText(a)[1..];
    }
  }

  lemma NoBracket(a: Authority)
    requires HasPlainHost(a)
    ensures FirstWhere(PrintAuthority(a), Is('['), |Lead(a)|) == |PrintAuthority(a)|
  {
    PrintedAuthority(a);
    PortTextHasNone(a, '[');
    FirstWhereShift(Lead(a), a.host + PortText(a), Is('['), 0);
    FirstWhereNone(a.host + PortText(a), Is('['), 0);
  }

  /** The first colon behind the lead is that of the port. */
  lemma PortColon(a: Authority)
    requires HasPlainHost(a)
    ensures FirstWhere(PrintAuthority(a), Is(':'), |Lead(a)|) == |Lead(a)| + |a.host|
  {
    PrintedAuthority(a);
    PortTextChars(a);
    FirstWhereShift(Lead(a), a.host + PortText(a), Is(':'), 0);
    FirstWhereSkip(a.host, PortText(a), Is(':'), 0);
  }

  lemma PlainHostParsed(a: Authority)
    requires HasPlainHost(a)
    ensures var s, start := PrintAuthority(a), |Lead(a)|;
      && FirstWhere(s, Is('['), start) == |s|
      && HostText(s, start) == a.host
  {
    PrintedAuthority(a);
    NoBracket(a);
    PortColon(a);
    var s, lead := PrintAuthority(a), Lead(a);
    assert s[|lead|..|lead| + |a.host|] == a.host;
  }

  lemma PrintedAuthorityEnds(a: Authority)
    requires HasPlainHost(a) || HasBracketedHost(a)
    ensures var s := PrintAuthority(a);
      && StartsWithSlashes(s) && s[|s| - 1] != ':' && Trimmed(s) == s
      && (|s| == 2 <==> a.userInfo == "" && a.host == "" && a.port == None)
  {
    PrintedAuthority(a);
    PortTextChars(a);
    var s := PrintAuthority(a);
    assert s[|s| - 1] == if a.port.Some? then PortText(a)[|PortText(a)| - 1]
      else if a.host != "" then a.host[|a.host| - 1] else Lead(a)[|Lead(a)| - 1];
    TrimmedFixed(s);
  }

  lemma PlainPortFound(a: Authority)
    requires HasPlainHost(a)
    ensures PortAt(PrintAuthority(a), |Lead(a)|) == |Lead(a) + a.host|
  {
    PrintedAuthority(a);
    PlainHostParsed(a);
    PortFound(a, Lead(a) + a.host);
  }

  lemma PlainLeadParsed(a: Authority)
    requires HasPlainHost(a)
    ensures var s, start := PrintAuthority(a), |Lead(a)|;
      && HostStart(s, 0) == HostStart(s, 2) == start
      && UserInfoText(s) == a.userInfo
      && (start > 2 ==> s[2..start - 1] == a.userInfo)
  {
    PrintedAuthority(a);
    HostIsFree(a);
    LeadParsed(a, a.host + PortText(a));
  }

  lemma PlainHostState(a: Authority, emptyHostValid: bool)
    requires HasPlainHost(a)
    ensures AuthorityOf(PrintAuthority(a), emptyHostValid) == Reflagged(a, PrintAuthority(a), emptyHostValid)
  {
    PlainLeadParsed(a);
    PlainHostParsed(a);
    PlainPortFound(a);
    PrintedAuthority(a);
    PrintedAuthorityEnds(a);
    PortRead(a, Lead(a) + a.host, PrintAuthority(a));
  }

  lemma PlainHostValid(a: Authority, emptyHostValid: bool)
    requires HasPlainHost(a)
    ensures ValidAuthority(PrintAuthority(a), emptyHostValid) <==> a.host != "" || emptyHostValid
  {
    hide HostText, HostStart, Lead, Trimmed, PrintInt, PrintAuthority;
    var s, start := PrintAuthority(a), |Lead(a)|;
    PrintedAuthority(a);
    PrintedAuthorityEnds(a);
    PlainLeadParsed(a);
    PlainHostParsed(a);
    PlainPortFound(a);
    PortTextChars(a);
    assert s[start + |a.host|..] == PortText(a);
    if a.port.Some? {
      assert s[start + |a.host| + 1..] == PortText(a)[1..];
    }
  }

  /** For every authority with a plain host, parsing the printed form gives user info, host and port
      back, unless the host is empty and may not be; the two flags say how it was parsed. */
  lemma AuthorityRoundTrip(a: Authority, before: Authority, emptyHostValid: bool)
    requires HasPlainHost(a)
    ensures ParseAuthority(before, PrintAuthority(a), emptyHostValid)
      == if a.host != "" || emptyHostValid then (true, Reflagged(a, PrintAuthority(a), emptyHostValid))
        else (false, before)
  {
    PlainHostValid(a, emptyHostValid);
    PlainHostState(a, emptyHostValid);
  }

  /** The empty host of a file URI. */
  lemma EmptyHostRoundTrip(before: Authority)
    ensures var a := Authority("", "", None, true, true);
      PrintAuthority(a) == "//" && ParseAuthority(before, "//", true) == (true, a)
  {
    AuthorityRoundTrip(Authority("", "", None, true, true), before, true);
  }

  /** The substring that is cut out for a bracketed host: what is left of the authority, or more
      than the host when a port follows. */
  lemma BracketedHostParsed(a: Authority)
    requires HasBracketedHost(a)
    ensures var s, start := PrintAuthority(a), |Lead(a)|;
      && FirstWhere(s, Is('['), start) == start
      && FirstWhere(s, Is(']'), start) == start + |a.host| - 1
      && (a.port == None ==> HostText(s, start) == a.host)
      && (a.port.Some? ==> |HostText(s, start)| > |a.host|)
  {
    PrintedAuthority(a);
    var lead, host, port := Lead(a), a.host, PortText(a);
    var s, start := PrintAuthority(a), |lead|;
    FirstWhereShift(lead, host + port, Is('['), 0);
    FirstWhereShift(lead, host + port, Is(']'), 0);
    FirstWhereUnique(host + port, Is(']'), 0, |host| - 1);
    if a.port == None {
      assert s[start..] == host;
    }
  }

  lemma BracketedLeadParsed(a: Authority)
    requires HasBracketedHost(a)
    ensures var s, start := PrintAuthority(a), |Lead(a)|;
      && HostStart(s, 0) == HostStart(s, 2) == start
      && UserInfoText(s) == a.userInfo
      && (start > 2 ==> s[2..start - 1] == a.userInfo)
      && |s| > 2
  {
    PrintedAuthority(a);
    HostIsFree(a);
    LeadParsed(a, a.host + PortText(a));
  }

  lemma BracketedHostWithoutPort(a: Authority, emptyHostValid: bool)
    requires HasBracketedHost(a) && a.port == None
    ensures ValidAuthority(PrintAuthority(a), emptyHostValid)
    ensures AuthorityOf(PrintAuthority(a), emptyHostValid) == Reflagged(a, PrintAuthority(a), emptyHostValid)
  {
    PrintedAuthority(a);
    PrintedAuthorityEnds(a);
    BracketedLeadParsed(a);
    BracketedHostParsed(a);
    PortFound(a, Lead(a) + a.host);
  }

  /** A bracketed host survives printing and parsing exactly when it has no port: the program
      takes the position of ']' for the length of the host. */
  lemma BracketedRoundTripIffNoPort(a: Authority, before: Authority, emptyHostValid: bool)
    requires HasBracketedHost(a)
    ensures ParseAuthority(before, PrintAuthority(a), emptyHostValid)
      == (true, Reflagged(a, PrintAuthority(a), emptyHostValid))
      <==> a.port == None
  {
    if a.port == None {
      BracketedHostWithoutPort(a, emptyHostValid);
    } else {
      BracketedLeadParsed(a);
      BracketedHostParsed(a);
    }
  }

  /** Such a host with a port exists. */
  lemma BracketedPortIsLost(before: Authority)
    ensures var a := Authority("", "[::1]", Some(80), false, false);
      && HasBracketedHost(a)
      && ParseAuthority(before, PrintAuthority(a), false) != (true, Reflagged(a, PrintAuthority(a), false))
  {
    var a := Authority("", "[::1]", Some(80), false, false);
    BracketedRoundTripIffNoPort(a, before, false);
  }
}
