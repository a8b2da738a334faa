/**
  Exactly when parsing the printed form of an authority of src/URI.cc gives the authority back, for
  every authority an object can hold.
*/
module UriAuthorityNormal {
  import opened Common
  import opened Strings
  import opened UriParts
  import opened UriAuthorityPrinting

  // ----- the condition -----

  /** A host behind a lead of this length. A host without '[' must have no ':' and must not be white
      space alone where that is trimmed away. A host with '[' must begin with it, and the program
      takes the position of ']' in the authority for the length of the host: without a port the
      host must not be longer, with one it must have that very length. */
  ghost predicate HostComesBack(host: string, hasPort: bool, lead: nat, emptyHostValid: bool) {
    var text := if hasPort then host else TrimmedRight(host);
    && AllFrom(text, IsHostChar, 1)
    && if Free(host, Is('[')) then Free(host, Is(':')) && (text != "" || emptyHostValid)
       else
         var close := FirstWhere(host, Is(']'), 0);
         && host[0] == '[' && close < |host|
         && if hasPort then |host| == lead + close else |host| <= lead + close
  }

  /** The user info has no '@', nor has the host in front of which there is none; the two flags are as
      Parse sets them. */
  ghost predicate ComesBack(a: Authority, emptyHostValid: bool) {
    var s := PrintAuthority(a);
    && a.emptyHostValid == emptyHostValid && a.hasEmptyHost == (s == "" || s == "//")
    && if s == "" then a.userInfo == "" && a.port == None
       else (
         && LeadIsRead(a, a.host) && AllFrom(a.userInfo, IsUserInfoChar, 1)
         && HostComesBack(a.host, a.port.Some?, |Lead(a)|, emptyHostValid))
  }

  /** The first '@' of the text, if there is one, is that behind the user info. */
  ghost predicate LeadIsRead(a: Authority, rest: string) {
    Free(a.userInfo, Is('@')) && (a.userInfo == "" ==> Free(rest, Is('@')))
  }

  // ----- what is read behind the lead -----

  /** The host that is cut out of the text behind a lead of this length. */
  function HostIn(rest: string, lead: nat): string {
    var open := FirstWhere(rest, Is('['), 0);
    var colon := FirstWhere(rest, Is(':'), 0);
    if open < |rest| then Substr(rest, open, lead + FirstWhere(rest, Is(']'), open))
    else if colon < |rest| then rest[..colon] else rest
  }

  function PortIn(rest: string, pos: nat): Option<int> {
    PortOf(rest, FirstWhere(rest, Is(':'), pos))
  }

  lemma SubstrBehind(lead: string, rest: string, pos: nat, len: nat)
    ensures Substr(lead + rest, |lead| + pos, len) == Substr(rest, pos, len)
  {
    if pos + len <= |rest| {
      assert (lead + rest)[|lead| + pos..|lead| + pos + len] == rest[pos..pos + len];
    } else if pos <= |rest| {
      assert (lead + rest)[|lead| + pos..] == rest[pos..];
    }
  }

  lemma SubstrAll(s: string, len: nat)
    requires len >= |s|
    ensures Substr(s, 0, len) == s
  {
  }

  lemma HostBehind(lead: string, rest: string)
    ensures HostText(lead + rest, |lead|) == HostIn(rest, |lead|)
  {
    hide FirstWhere, Substr;
    var open, colon := FirstWhere(rest, Is('['), 0), FirstWhere(rest, Is(':'), 0);
    FirstWhereShift(lead, rest, Is('['), 0);
    FirstWhereShift(lead, rest, Is(':'), 0);
    FirstWhereShift(lead, rest, Is(']'), open);
    SubstrBehind(lead, rest, open, |lead| + FirstWhere(rest, Is(']'), open));
    SubstrBehind(lead, rest, 0, |lead + rest|);
    SubstrAll(rest, |lead + rest|);
    assert (lead + rest)[|lead|..|lead| + colon] == rest[..colon];
  }

  lemma PortBehind(lead: string, rest: string, pos: nat)
    ensures PortOf(lead + rest, FirstWhere(lead + rest, Is(':'), |lead| + pos)) == PortIn(rest, pos)
  {
    hide FirstWhere, Stoi;
    FirstWhereShift(lead, rest, Is(':'), pos);
    var at := FirstWhere(rest, Is(':'), pos);
    if at < |rest| {
      assert (lead + rest)[|lead| + at + 1..] == rest[at + 1..];
    }
  }

  /** What Parse makes of a text behind a lead. */
  lemma AuthorityBehind(a: Authority, rest: string, emptyHostValid: bool)
    requires LeadIsRead(a, rest)
    ensures var host := HostIn(rest, |Lead(a)|);
      AuthorityOf(Lead(a) + rest, emptyHostValid)
        == Authority(a.userInfo, host, PortIn(rest, |host|), emptyHostValid, Lead(a) + rest == "//")
  {
    hide FirstWhere, Stoi, HostText, UserInfoText, HostStart;
    LeadParsed(a, rest);
    HostBehind(Lead(a), rest);
    PortBehind(Lead(a), rest, |HostIn(rest, |Lead(a)|)|);
    if Lead(a) + rest == "//" {
      assert a.userInfo == "" && rest == "";
    }
  }

  /** What Valid asks of a trimmed text behind a lead. */
  ghost predicate ValidRest(rest: string, lead: nat, emptyHostValid: bool) {
    var open := FirstWhere(rest, Is('['), 0);
    var host := HostIn(rest, lead);
    var portAt := FirstWhere(rest, Is(':'), |host|);
    && (open < |rest| ==> FirstWhere(rest, Is(']'), open) < |rest|)
    && (host != "" || emptyHostValid)
    && AllFrom(host, IsHostChar, 1)
    && (portAt < |rest| ==> AllFrom(rest[portAt + 1..], IsDigit, 1))
  }

  lemma TrimmedBehind(a: Authority, rest: string)
    ensures Trimmed(Lead(a) + rest) == Lead(a) + TrimmedRight(rest) && StartsWithSlashes(Lead(a) + rest)
  {
    TrimmedRightBehind(Lead(a), rest);
  }

  /** What Valid asks of a trimmed text whose host starts behind this lead. */
  lemma ValidAt(lead: string, rest: string, emptyHostValid: bool)
    requires StartsWithSlashes(lead) && HostStart(lead + rest, 2) == |lead| && Trimmed(lead + rest) == lead + rest
    ensures ValidAuthority(lead + rest, emptyHostValid)
      <==> (|lead| > 2 ==> AllFrom(lead[2..|lead| - 1], IsUserInfoChar, 1)) && ValidRest(rest, |lead|, emptyHostValid)
  {
    hide FirstWhere, Trimmed, TrimmedRight, HostText, HostIn, HostStart;
    HostBehind(lead, rest);
    var s := lead + rest;
    var open, host := FirstWhere(rest, Is('['), 0), HostIn(rest, |lead|);
    FirstWhereShift(lead, rest, Is('['), 0);
    FirstWhereShift(lead, rest, Is(']'), open);
    FirstWhereShift(lead, rest, Is(':'), |host|);
    assert |lead| > 2 ==> s[2..|lead| - 1] == lead[2..|lead| - 1];
    var portAt := FirstWhere(rest, Is(':'), |host|);
    if portAt < |rest| {
      assert s[|lead| + portAt + 1..] == rest[portAt + 1..];
    }
  }

  lemma LeadUser(a: Authority)
    ensures StartsWithSlashes(Lead(a)) && (|Lead(a)| > 2 <==> a.userInfo != "")
    ensures |Lead(a)| > 2 ==> Lead(a)[2..|Lead(a)| - 1] == a.userInfo
  {
  }

  lemma ValidTrimmedBehind(a: Authority, rest: string, emptyHostValid: bool)
    requires LeadIsRead(a, rest) && TrimmedRight(rest) == rest
    ensures ValidAuthority(Lead(a) + rest, emptyHostValid)
      <==> AllFrom(a.userInfo, IsUserInfoChar, 1) && ValidRest(rest, |Lead(a)|, emptyHostValid)
  {
    hide ValidAuthority, ValidRest, HostStart, UserInfoText, Trimmed, TrimmedRight, Lead;
    LeadUser(a);
    TrimmedBehind(a, rest);
    LeadParsed(a, rest);
    ValidAt(Lead(a), rest, emptyHostValid);
  }

  lemma ValidBehind(a: Authority, rest: string, emptyHostValid: bool)
    requires LeadIsRead(a, rest)
    ensures ValidAuthority(Lead(a) + rest, emptyHostValid)
      <==> AllFrom(a.userInfo, IsUserInfoChar, 1) && ValidRest(TrimmedRight(rest), |Lead(a)|, emptyHostValid)
  {
    hide TrimmedRight, ValidRest, AllFrom, ValidAuthority, Trimmed, Lead;
    var t := TrimmedRight(rest);
    TrimmedRightPrefix(rest);
    TrimmedTwice(rest);
    TrimmedBehind(a, rest);
    TrimmedBehind(a, t);
    LeadIsReadInFront(a, rest, t);
    SameTrimmed(Lead(a) + rest, Lead(a) + t, emptyHostValid);
    ValidTrimmedBehind(a, t, emptyHostValid);
  }

  lemma LeadIsReadInFront(a: Authority, s: string, t: string)
    requires t <= s && LeadIsRead(a, s)
    ensures LeadIsRead(a, t)
  {
    assert forall i :: 0 <= i < |t| ==> t[i] == s[i];
  }

  lemma SameTrimmed(s: string, t: string, emptyHostValid: bool)
    requires Trimmed(s) == Trimmed(t)
    ensures ValidAuthority(s, emptyHostValid) <==> ValidAuthority(t, emptyHostValid)
  {
    hide Trimmed, HostStart, HostText, FirstWhere, AllFrom, PortAt;
  }

  lemma {:induction false} TrimmedTwice(s: string)
    ensures TrimmedRight(TrimmedRight(s)) == TrimmedRight(s)
  {
    if s != "" && IsSpace(s[|s| - 1]) {
      TrimmedTwice(s[..|s| - 1]);
    }
  }

  // ----- the host -----

  /** The text of a port, or none. */
  ghost predicate IsPortText(port: string) {
    port == "" || (
      && |port| >= 2 && port[0] == ':' && AllFrom(port[1..], IsDigit, 1) && !IsSpace(port[|port| - 1])
      && Free(port, Is('[')) && Free(port, Is(']')))
  }

  lemma RestTrimmed(host: string, port: string)
    requires IsPortText(port)
    ensures TrimmedRight(host + port) == if port == "" then TrimmedRight(host) else host + port
  {
    if port == "" {
      assert host + port == host;
    }
  }

  lemma PlainHostIn(host: string, port: string, lead: nat)
    requires IsPortText(port) && Free(host, Is('['))
    ensures HostIn(host + port, lead) == host <==> Free(host, Is(':'))
  {
    FreeConcat(host, port, Is('['));
    FirstWhereNone(host + port, Is('['), 0);
    FirstWhereIsFirst(host + port, Is(':'), 0);
    if Free(host, Is(':')) {
      FirstWhereSkip(host, port, Is(':'), 0);
      assert (host + port)[..|host|] == host;
    } else {
      var i :| 0 <= i < |host| && Is(':')(host[i]);
      assert Is(':')((host + port)[i]);
    }
  }

  /** A trimmed text that is a host without '[' and ':', alone or with a port. */
  lemma PlainRestValid(host: string, port: string, lead: nat, emptyHostValid: bool)
    requires IsPortText(port) && Free(host, Is('[')) && Free(host, Is(':'))
    ensures ValidRest(host + port, lead, emptyHostValid)
      <==> (host != "" || emptyHostValid) && AllFrom(host, IsHostChar, 1)
  {
    PlainHostIn(host, port, lead);
    FreeConcat(host, port, Is('['));
    FirstWhereNone(host + port, Is('['), 0);
    PortDigits(host, port);
  }

  /** Behind the host the first colon is that of the port, and digits follow. */
  lemma PortDigits(host: string, port: string)
    requires IsPortText(port)
    ensures var rest := host + port;
      var portAt := FirstWhere(rest, Is(':'), |host|);
      && portAt == |host|
      && (portAt < |rest| ==> rest[portAt + 1..] == port[1..] && AllFrom(rest[portAt + 1..], IsDigit, 1))
  {
    FirstWhereShift(host, port, Is(':'), 0);
    if port != "" {
      assert (host + port)[|host| + 1..] == port[1..];
    }
  }

  lemma FreePrefix(s: string, t: string, p: char -> bool)
    requires t <= s && Free(s, p)
    ensures Free(t, p)
  {
    assert forall i :: 0 <= i < |t| ==> t[i] == s[i];
  }

  lemma PlainComesBack(host: string, port: string, lead: nat, emptyHostValid: bool)
    requires IsPortText(port) && Free(host, Is('['))
    ensures HostIn(host + port, lead) == host && ValidRest(TrimmedRight(host + port), lead, emptyHostValid)
      <==> HostComesBack(host, port != "", lead, emptyHostValid)
  {
    PlainHostIn(host, port, lead);
    RestTrimmed(host, port);
    if Free(host, Is(':')) {
      if port == "" {
        var t := TrimmedRight(host);
        TrimmedRightPrefix(host);
        FreePrefix(host, t, Is('['));
        FreePrefix(host, t, Is(':'));
        assert t + "" == t;
        PlainRestValid(t, "", lead, emptyHostValid);
      } else {
        PlainRestValid(host, port, lead, emptyHostValid);
      }
    }
  }

  /** The text of a host in brackets begins with the first '['. */
  lemma BracketFirst(host: string, port: string, lead: nat)
    requires !Free(host, Is('[')) && HostIn(host + port, lead) == host
    ensures host[0] == '['
  {
    var rest := host + port;
    var i :| 0 <= i < |host| && Is('[')(host[i]);
    var open := FirstWhere(rest, Is('['), 0);
    FirstWhereIsFirst(rest, Is('['), 0);
    assert Is('[')(rest[i]) && rest[i] == host[i];
    assert Is('[')(rest[open]);
    assert host[0] == Substr(rest, open, lead + FirstWhere(rest, Is(']'), open))[0] == rest[open];
  }

  /** What is cut out of a text that begins with '[' and has its first ']' here. */
  lemma BracketHostIn(rest: string, lead: nat, close: nat)
    requires rest != "" && rest[0] == '[' && FirstWhere(rest, Is(']'), 0) == close < |rest|
    ensures HostIn(rest, lead) == if lead + close > |rest| then rest else rest[..lead + close]
    ensures FirstWhere(rest, Is('['), 0) == 0
  {
    FirstWhereUnique(rest, Is('['), 0, 0);
    assert rest[0..] == rest;
  }

  lemma ClosingFound(host: string, port: string)
    requires IsPortText(port)
    ensures var close := FirstWhere(host, Is(']'), 0);
      FirstWhere(host + port, Is(']'), 0) == if close < |host| then close else |host + port|
  {
    FoundInside(host, port, Is(']'));
  }

  lemma FoundInside(s: string, t: string, p: char -> bool)
    requires Free(t, p)
    ensures FirstWhere(s + t, p, 0) == if FirstWhere(s, p, 0) < |s| then FirstWhere(s, p, 0) else |s + t|
  {
    var r := FirstWhere(s, p, 0);
    FirstWhereIsFirst(s, p, 0);
    if r < |s| {
      assert forall i :: 0 <= i < r ==> (s + t)[i] == s[i];
      FirstWhereUnique(s + t, p, 0, r);
    } else {
      FreeConcat(s, t, p);
      FirstWhereNone(s + t, p, 0);
    }
  }

  lemma BracketLength(host: string, port: string, lead: nat, close: nat)
    requires IsPortText(port) && host != "" && host[0] == '[' && FirstWhere(host, Is(']'), 0) == close < |host|
    ensures HostIn(host + port, lead) == host
      <==> if port != "" then |host| == lead + close else |host| <= lead + close
  {
    ClosingFound(host, port);
    BracketHostIn(host + port, lead, close);
    assert (host + port)[..|host|] == host;
    if port == "" {
      assert host + port == host;
    }
  }

  lemma {:induction false} TrimmingKeeps(s: string, i: nat)
    requires i < |s| && !IsSpace(s[i])
    ensures i < |TrimmedRight(s)|
  {
    if i < |s| - 1 && IsSpace(s[|s| - 1]) {
      TrimmingKeeps(s[..|s| - 1], i);
    }
  }

  /** Trimming a host leaves its brackets. */
  lemma BracketTrimmed(host: string, close: nat)
    requires host != "" && host[0] == '[' && FirstWhere(host, Is(']'), 0) == close < |host|
    ensures var t := TrimmedRight(host);
      t != "" && t[0] == '[' && FirstWhere(t, Is(']'), 0) == close < |t| && t <= host
  {
    var t := TrimmedRight(host);
    TrimmedRightPrefix(host);
    FirstWhereIsFirst(host, Is(']'), 0);
    assert Is(']')(host[close]);
    TrimmingKeeps(host, close);
    forall i | 0 <= i < close
      ensures !Is(']')(t[i])
    {
      assert t[i] == host[i];
    }
    FirstWhereUnique(t, Is(']'), 0, close);
  }

  lemma BracketRestValid(host: string, port: string, lead: nat, close: nat, emptyHostValid: bool)
    requires IsPortText(port) && host != "" && host[0] == '[' && FirstWhere(host, Is(']'), 0) == close < |host|
    requires HostIn(host + port, lead) == host
    ensures ValidRest(host + port, lead, emptyHostValid) <==> AllFrom(host, IsHostChar, 1)
  {
    ClosingFound(host, port);
    BracketHostIn(host + port, lead, close);
    PortDigits(host, port);
  }

  /** Without ']' the text is not valid. */
  lemma OpenBracketRefused(host: string, port: string, lead: nat, emptyHostValid: bool)
    requires IsPortText(port) && host != "" && host[0] == '[' && FirstWhere(host, Is(']'), 0) >= |host|
    ensures !ValidRest(TrimmedRight(host + port), lead, emptyHostValid)
  {
    var rest := host + port;
    var t := TrimmedRight(rest);
    var w := TrimmedRightCuts(rest);
    assert rest[0] == '[';
    TrimmedRightPrefix(rest);
    FirstWhereUnique(t, Is('['), 0, 0);
    FirstWhereIsFirst(host, Is(']'), 0);
    assert Free(host, Is(']'));
    FreeConcat(host, port, Is(']'));
    FreePrefix(rest, t, Is(']'));
    FirstWhereNone(t, Is(']'), 0);
  }

  lemma ClosedComesBack(host: string, port: string, lead: nat, close: nat, emptyHostValid: bool)
    requires IsPortText(port) && host != "" && host[0] == '[' && FirstWhere(host, Is(']'), 0) == close < |host|
    ensures HostIn(host + port, lead) == host && ValidRest(TrimmedRight(host + port), lead, emptyHostValid)
      <==> HostComesBack(host, port != "", lead, emptyHostValid)
  {
    assert Is('[')(host[0]);
    BracketLength(host, port, lead, close);
    RestTrimmed(host, port);
    if HostIn(host + port, lead) == host {
      if port == "" {
        var t := TrimmedRight(host);
        BracketTrimmed(host, close);
        BracketLength(t, "", lead, close);
        BracketRestValid(t, "", lead, close, emptyHostValid);
        assert t + "" == t;
      } else {
        BracketRestValid(host, port, lead, close, emptyHostValid);
      }
    }
  }

  lemma BracketComesBack(host: string, port: string, lead: nat, emptyHostValid: bool)
    requires IsPortText(port) && !Free(host, Is('['))
    ensures HostIn(host + port, lead) == host && ValidRest(TrimmedRight(host + port), lead, emptyHostValid)
      <==> HostComesBack(host, port != "", lead, emptyHostValid)
  {
    var i :| 0 <= i < |host| && Is('[')(host[i]);
    if host[0] != '[' {
      if HostIn(host + port, lead) == host {
        BracketFirst(host, port, lead);
      }
    } else if FirstWhere(host, Is(']'), 0) < |host| {
      ClosedComesBack(host, port, lead, FirstWhere(host, Is(']'), 0), emptyHostValid);
    } else {
      OpenBracketRefused(host, port, lead, emptyHostValid);
    }
  }

  lemma HostComesBackIff(host: string, port: string, lead: nat, emptyHostValid: bool)
    requires IsPortText(port)
    ensures HostIn(host + port, lead) == host && ValidRest(TrimmedRight(host + port), lead, emptyHostValid)
      <==> HostComesBack(host, port != "", lead, emptyHostValid)
  {
    if Free(host, Is('[')) {
      PlainComesBack(host, port, lead, emptyHostValid);
    } else {
      BracketComesBack(host, port, lead, emptyHostValid);
    }
  }

  // ----- the lead -----

  /** A text of two slashes is read as one behind the slashes. */
  lemma SlashesRead(s: string, at: nat)
    requires StartsWithSlashes(s) && FirstWhere(s, Is('@'), 0) == at
    ensures at < |s| ==> at >= 2 && UserInfoText(s) == s[2..at] && HostStart(s, 0) == at + 1
    ensures at == |s| ==> UserInfoText(s) == "" && HostStart(s, 0) == 2
    ensures at < |s| ==> Free(s[2..at], Is('@'))
    ensures at == |s| ==> Free(s, Is('@'))
  {
    FirstWhereIsFirst(s, Is('@'), 0);
    if at < |s| {
      assert Is('@')(s[at]);
      forall i | 0 <= i < at - 2
        ensures !Is('@')(s[2..at][i])
      {
        assert !Is('@')(s[i + 2]);
      }
    }
  }

  lemma {:induction false} FirstWhereAtMost(s: string, p: char -> bool, pos: nat, i: nat)
    requires pos <= i < |s| && p(s[i])
    ensures FirstWhere(s, p, pos) <= i
    decreases i - pos
  {
    if !p(s[pos]) {
      FirstWhereAtMost(s, p, pos + 1, i);
    }
  }

  /** A host that begins with '@' is not cut out of the text behind that. */
  lemma HostBehindAt(host: string, port: string, rest: string)
    requires IsPortText(port) && host != "" && host[0] == '@' && rest == (host + port)[1..]
    ensures HostIn(rest, 3) != host
  {
    var open := FirstWhere(rest, Is('['), 0);
    FirstWhereIsFirst(rest, Is('['), 0);
    if open < |rest| {
      assert Is('[')(rest[open]);
      assert HostIn(rest, 3)[0] == rest[open];
    } else if port != "" {
      var n := |host| - 1;
      assert rest[n] == (host + port)[n + 1] == port[0];
      assert Is(':')(rest[n]);
      FirstWhereAtMost(rest, Is(':'), 0, n);
    }
  }

  /** A host that begins with '@' behind two slashes is not read again. */
  lemma SecondAtIsLost(host: string, port: string)
    requires IsPortText(port) && host + port != "" && (host + port)[0] == '@'
    ensures HostText("//" + (host + port), 3) != host
  {
    var s := "//" + (host + port);
    assert host != "" && host[0] == '@';
    var front, rest := s[..3], s[3..];
    assert s == front + rest && rest == (host + port)[1..];
    HostBehind(front, rest);
    HostBehindAt(host, port, rest);
  }

  lemma LeadNeeded(a: Authority, port: string, s: string)
    requires IsPortText(port) && s == Lead(a) + (a.host + port)
    requires UserInfoText(s) == a.userInfo && HostText(s, HostStart(s, 0)) == a.host
    ensures LeadIsRead(a, a.host + port)
  {
    var at := FirstWhere(s, Is('@'), 0);
    SlashesRead(s, at);
    if a.userInfo == "" {
      assert s == "//" + (a.host + port);
      if at < |s| {
        assert at == 2;
        FirstWhereIsFirst(s, Is('@'), 0);
        assert Is('@')(s[2]) && s[2] == (a.host + port)[0];
        SecondAtIsLost(a.host, port);
        assert false;
      }
      forall i | 0 <= i < |a.host + port|
        ensures !Is('@')((a.host + port)[i])
      {
        assert !Is('@')(s[i + 2]);
      }
    }
  }

  /** The text of an int: digits, behind a sign if it is negative. */
  lemma IntText(n: int)
    ensures var t := PrintInt(n);
      && t != "" && AllFrom(t, IsDigit, 1) && (IsDigit(t[0]) || t[0] == '-')
      && IsPortText(":" + t) && Free(":" + t, Is('@'))
  {
    hide PrintNat;
    var m: nat := if n < 0 then -n else n;
    PrintNatRoundTrip(m);
    DigitsAreText(PrintInt(n));
  }

  lemma DigitsAreText(t: string)
    requires t != "" && AllFrom(t, IsDigit, 1) && (IsDigit(t[0]) || t[0] == '-') && (|t| == 1 ==> IsDigit(t[0]))
    ensures IsPortText(":" + t) && (":" + t)[1..] == t && Free(":" + t, Is('@'))
  {
  }

  lemma PortTextRead(t: string)
    ensures PortOf(":" + t, 0) == Stoi(t)
  {
    hide Stoi;
    assert (":" + t)[1..] == t;
  }

  lemma PortTextIs(a: Authority)
    requires a.port.Some? ==> IsInt(a.port.value)
    ensures IsPortText(PortText(a)) && (PortText(a) != "" <==> a.port.Some?) && Free(PortText(a), Is('@'))
    ensures a.port.Some? ==> PortOf(PortText(a), 0) == a.port
  {
    hide Stoi, PrintInt, PortOf;
    if a.port.Some? {
      var n := a.port.value;
      IntText(n);
      StoiOfPrintInt(n);
      PortTextRead(PrintInt(n));
    }
  }

  lemma PortComesBack(a: Authority, port: string)
    requires IsPortText(port) && (port == "" ==> a.port == None) && (port != "" ==> PortOf(port, 0) == a.port)
    ensures PortIn(a.host + port, |a.host|) == a.port
  {
    PortBehind(a.host, port, 0);
    PortDigits(a.host, port);
    if port != "" {
      FirstWhereUnique(port, Is(':'), 0, 0);
    }
  }

  /** Both directions behind a lead that is read. */
  lemma BehindLeadComesBack(a: Authority, before: Authority, s: string, port: string, emptyHostValid: bool)
    requires IsPortText(port) && (port == "" ==> a.port == None) && (port != "" ==> PortOf(port, 0) == a.port)
    requires s == Lead(a) + (a.host + port) && LeadIsRead(a, a.host + port)
    ensures ParseAuthority(before, s, emptyHostValid) == (true, a)
      <==> (
        && a.emptyHostValid == emptyHostValid && a.hasEmptyHost == (s == "//")
        && AllFrom(a.userInfo, IsUserInfoChar, 1) && HostComesBack(a.host, port != "", |Lead(a)|, emptyHostValid))
  {
    ValidBehind(a, a.host + port, emptyHostValid);
    AuthorityBehind(a, a.host + port, emptyHostValid);
    HostComesBackIff(a.host, port, |Lead(a)|, emptyHostValid);
    if HostIn(a.host + port, |Lead(a)|) == a.host {
      PortComesBack(a, port);
    }
  }

  /** For every authority: parsing its printed form gives it back, the two flags included, exactly
      when ComesBack holds. */
  lemma AuthorityComesBackIff(a: Authority, before: Authority, emptyHostValid: bool)
    requires a.port.Some? ==> IsInt(a.port.value)
    ensures ParseAuthority(before, PrintAuthority(a), emptyHostValid) == (true, a) <==> ComesBack(a, emptyHostValid)
  {
    if PrintAuthority(a) != "" {
      var s, port := PrintAuthority(a), PortText(a);
      PrintedAuthority(a);
      PortTextIs(a);
      if LeadIsRead(a, a.host) {
        LeadIsReadInSum(a, port);
        BehindLeadComesBack(a, before, s, port, emptyHostValid);
      } else if ParseAuthority(before, s, emptyHostValid) == (true, a) {
        HostOfParsed(s, a, emptyHostValid);
        LeadNeeded(a, port, s);
        FreePrefix(a.host + port, a.host, Is('@'));
      }
    }
  }

  lemma LeadIsReadInSum(a: Authority, port: string)
    requires LeadIsRead(a, a.host) && Free(port, Is('@'))
    ensures LeadIsRead(a, a.host + port)
  {
    if a.userInfo == "" {
      FreeConcat(a.host, port, Is('@'));
    }
  }

  lemma HostOfParsed(s: string, a: Authority, emptyHostValid: bool)
    requires StartsWithSlashes(s) && AuthorityOf(s, emptyHostValid) == a
    ensures UserInfoText(s) == a.userInfo && HostText(s, HostStart(s, 0)) == a.host
  {
  }
}
