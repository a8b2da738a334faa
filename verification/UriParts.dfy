/**
  The four components of a URI in src/URI.cc: validation, parsing and printing of authority,
  path, query and fragment, after RFC 3986.

  A static Valid function, a parse function from the old state and the string to the outcome
  and the new state, and a print function per component; the classes hold the mutable state.
*/
module UriParts {
  import opened Common
  import opened Strings

  // ----- characters -----

  predicate IsDigit(c: char) {
    '0' <= c <= '9'
  }

  predicate IsAlnum(c: char) {
    'a' <= c <= 'z' || 'A' <= c <= 'Z' || IsDigit(c)
  }

  predicate IsSubDelim(c: char) {
    c in {'!', '$', '&', '\'', '(', ')', '*', '+', ',', ';', '='}
  }

  predicate IsUnreserved(c: char) {
    IsAlnum(c) || c in {'-', '.', '_', '~'}
  }

  predicate IsUserInfoChar(c: char) {
    IsUnreserved(c) || c == '%' || IsSubDelim(c)
  }

  predicate IsHostChar(c: char) {
    IsAlnum(c) || c in {'%', '-', '.', '_', '[', ']', ' ', ':'}
  }

  predicate IsPathChar(c: char) {
    IsUnreserved(c) || IsSubDelim(c) || c in {'/', ':', '@', '%', '[', ']', ' '}
  }

  predicate IsPathStart(c: char) {
    IsAlnum(c) || c in {':', '%', '+', '[', '/'}
  }

  predicate IsQueryChar(c: char) {
    IsUnreserved(c) || IsSubDelim(c) || c in {'/', '?', ':', '@', '%'}
  }

  /** find_first_not_of(allowed, pos) == npos. */
  predicate AllFrom(s: string, p: char -> bool, pos: nat) {
    forall i :: pos <= i < |s| ==> p(s[i])
  }

  // ----- decimal numbers -----

  const INT_MAX: int := 0x7fff_ffff

  predicate IsInt(n: int) {
    -INT_MAX - 1 <= n <= INT_MAX
  }

  function DigitChar(d: nat): char
    requires d < 10
  {
    "0123456789"[d]
  }

  function PrintNat(n: nat): (s: string)
    ensures s != ""
  {
    if n < 10 then [DigitChar(n)] else PrintNat(n / 10) + [DigitChar(n % 10)]
  }

  /** std::to_string. */
  function PrintInt(n: int): string {
    if n < 0 then "-" + PrintNat(-n) else PrintNat(n)
  }

  function DigitValue(c: char): nat
    requires IsDigit(c)
  {
    c as nat - '0' as nat
  }

  /** The digits at the start of a string, and the number they denote. */
  function LeadingDigits(s: string): (n: nat)
    ensures n <= |s| && forall i :: 0 <= i < n ==> IsDigit(s[i])
  {
    if s == "" || !IsDigit(s[0]) then 0 else 1 + LeadingDigits(s[1..])
  }

  function ReadNat(s: string): nat
    requires forall i :: 0 <= i < |s| ==> IsDigit(s[i])
  {
    if s == "" then 0 else 10 * ReadNat(s[..|s| - 1]) + DigitValue(s[|s| - 1])
  }

  /** std::stoi; None for the two exceptions it throws, both of which Parse swallows. */
  function Stoi(s: string): Option<int> {
    var t := TrimmedLeft(s);
    var signed := t != "" && (t[0] == '-' || t[0] == '+');
    var digits := if signed then t[1..] else t;
    ReadSigned(digits, signed && t[0] == '-')
  }

  function ReadSigned(digits: string, negative: bool): Option<int> {
    var n := LeadingDigits(digits);
    var number: int := ReadNat(digits[..n]);
    var value := if negative then -number else number;
    if n == 0 || !IsInt(value) then None else Some(value)
  }

  lemma DigitRoundTrip(d: nat)
    requires d < 10
    ensures IsDigit(DigitChar(d)) && DigitValue(DigitChar(d)) == d
  {
  }

  lemma LastDigit(n: nat) returns (q: nat, d: nat)
    ensures q == n / 10 && d == n % 10 && n == 10 * q + d && d < 10 && (n >= 10 ==> q < n)
    ensures n >= 10 ==> PrintNat(n) == PrintNat(q) + [DigitChar(d)]
  {
    q, d := n / 10, n % 10;
  }

  lemma {:induction false} PrintNatRoundTrip(n: nat)
    ensures forall i :: 0 <= i < |PrintNat(n)| ==> IsDigit(PrintNat(n)[i])
    ensures ReadNat(PrintNat(n)) == n
  {
    if n >= 10 {
      var q, d := LastDigit(n);
      DigitRoundTrip(d);
      PrintNatRoundTrip(q);
      ReadNatAppend(PrintNat(q), DigitChar(d));
    } else {
      DigitRoundTrip(n);
      ReadNatAppend("", DigitChar(n));
      assert "" + [DigitChar(n)] == [DigitChar(n)];
    }
  }

  lemma ReadNatAppend(s: string, c: char)
    requires IsDigit(c) && forall i :: 0 <= i < |s| ==> IsDigit(s[i])
    ensures ReadNat(s + [c]) == 10 * ReadNat(s) + DigitValue(c)
  {
    assert (s + [c])[..|s|] == s;
  }

  /** Printed without a leading zero. */
  lemma {:induction false} PrintNatIsPlain(n: nat)
    ensures PrintNat(n)[0] == '0' ==> n == 0 && PrintNat(n) == "0"
  {
    if n >= 10 {
      var q, d := LastDigit(n);
      PrintNatIsPlain(q);
    }
  }

  lemma {:induction false} DigitsLead(d: string, rest: string)
    requires (forall i :: 0 <= i < |d| ==> IsDigit(d[i])) && (rest == "" || !IsDigit(rest[0]))
    ensures LeadingDigits(d + rest) == |d|
  {
    if d != "" {
      assert (d + rest)[1..] == d[1..] + rest;
      DigitsLead(d[1..], rest);
    } else {
      assert d + rest == rest;
    }
  }

  lemma {:induction false} TrimmedLeftOf(space: string, s: string)
    requires AllSpace(space) && (s == "" || !IsSpace(s[0]))
    ensures TrimmedLeft(space + s) == s
  {
    if space != "" {
      assert (space + s)[1..] == space[1..] + s;
      TrimmedLeftOf(space[1..], s);
    } else {
      assert space + s == s;
    }
  }

  lemma SignRead(sign: string, d: string, rest: string)
    requires sign in {"", "+", "-"} && (forall i :: 0 <= i < |d| ==> IsDigit(d[i]))
    requires rest == "" || !IsDigit(rest[0])
    requires sign == "" && d == "" && rest != "" ==> rest[0] != '+' && rest[0] != '-' && !IsSpace(rest[0])
    ensures var t := sign + (d + rest);
      && (t == "" || !IsSpace(t[0]))
      && (t != "" && (t[0] == '-' || t[0] == '+') <==> sign != "")
      && (t != "" && t[0] == '-' <==> sign == "-")
      && (if sign == "" then t == d + rest else t[1..] == d + rest)
  {
    if sign == "" {
      assert sign + (d + rest) == d + rest;
    }
  }

  lemma SignedReads(d: string, rest: string, negative: bool)
    requires (forall i :: 0 <= i < |d| ==> IsDigit(d[i])) && (rest == "" || !IsDigit(rest[0]))
    ensures var m: int := ReadNat(d);
      var n := if negative then -m else m;
      ReadSigned(d + rest, negative) == if d != "" && -0x8000_0000 <= n <= 0x7fff_ffff then Some(n) else None
  {
    hide ReadNat, LeadingDigits;
    DigitsLead(d, rest);
    assert (d + rest)[..|d|] == d;
  }

  /** std::stoi skips white space, takes a sign and the digits behind it, and ignores the rest; it throws
      without a digit, and when the number is outside the range of int. */
  lemma StoiReads(space: string, sign: string, d: string, rest: string)
    requires AllSpace(space) && sign in {"", "+", "-"} && (forall i :: 0 <= i < |d| ==> IsDigit(d[i]))
    requires rest == "" || !IsDigit(rest[0])
    requires sign == "" && d == "" && rest != "" ==> rest[0] != '+' && rest[0] != '-' && !IsSpace(rest[0])
    ensures var m: int := ReadNat(d);
      var n := if sign == "-" then -m else m;
      Stoi(space + (sign + (d + rest))) == if d != "" && -0x8000_0000 <= n <= 0x7fff_ffff then Some(n) else None
  {
    hide ReadNat, ReadSigned, LeadingDigits, TrimmedLeft, IsSpace, IsDigit, AllSpace;
    SignRead(sign, d, rest);
    TrimmedLeftOf(space, sign + (d + rest));
    SignedReads(d, rest, sign == "-");
  }

  /** Reading undoes printing for every int, negative ones included; larger numbers are refused. Numbers are
      printed without a plus sign and without leading zeros. */
  lemma StoiOfPrintInt(n: int)
    ensures Stoi(PrintInt(n)) == if -0x8000_0000 <= n <= 0x7fff_ffff then Some(n) else None
    ensures var s, digits := PrintInt(n), PrintNat(if n < 0 then -n else n);
      (n < 0 <==> s[0] == '-') && s == (if n < 0 then "-" else "") + digits && (digits[0] == '0' ==> digits == "0")
  {
    hide PrintNat, ReadNat, Stoi, IsDigit;
    var m: nat := if n < 0 then -n else n;
    var sign, digits := if n < 0 then "-" else "", PrintNat(m);
    PrintNatRoundTrip(m);
    PrintNatIsPlain(m);
    DigitIsNoSign(digits);
    StoiReads("", sign, digits, "");
    assert "" + (sign + (digits + "")) == PrintInt(n);
  }

  lemma DigitIsNoSign(s: string)
    requires s != "" && IsDigit(s[0])
    ensures s[0] != '-' && s[0] != '+'
  {
  }

  // ----- authority -----

  datatype Authority = Authority(userInfo: string, host: string, port: Option<int>, emptyHostValid: bool,
    hasEmptyHost: bool)

  const NO_AUTHORITY := Authority("", "", None, false, false)

  predicate StartsWithSlashes(s: string) {
    |s| >= 2 && s[0] == '/' && s[1] == '/'
  }

  function HostStart(s: string, pos: nat): nat {
    var at := FirstWhere(s, Is('@'), pos);
    if at < |s| then at + 1 else 2
  }

  /** The host as both Valid and Parse cut it out; for a bracketed host the position of the
      closing bracket is used as the length of the substring. */
  function HostText(s: string, start: nat): string {
    var open := FirstWhere(s, Is('['), start);
    var colon := FirstWhere(s, Is(':'), start);
    if open < |s| then Substr(s, open, FirstWhere(s, Is(']'), open))
    else if colon < |s| then s[start..colon]
    else Substr(s, start, |s|)
  }

  function UserInfoText(s: string): string {
    var at := FirstWhere(s, Is('@'), 0);
    if at < |s| then Substr(s, 2, if at >= 2 then at - 2 else |s|) else ""
  }

  function PortAt(s: string, start: nat): nat {
    FirstWhere(s, Is(':'), start + |HostText(s, start)|)
  }

  function PortOf(s: string, portAt: nat): Option<int> {
    if portAt < |s| then Stoi(s[portAt + 1..]) else None
  }

  predicate ValidAuthority(text: string, emptyHostValid: bool) {
    var s := Trimmed(text);
    if s == "" then true
    else if !StartsWithSlashes(s) then false
    else
      var start := HostStart(s, 2);
      var open := FirstWhere(s, Is('['), start);
      var host := HostText(s, start);
      var portAt := PortAt(s, start);
      && (start > 2 ==> AllFrom(s[2..start - 1], IsUserInfoChar, 1))
      && (open < |s| ==> FirstWhere(s, Is(']'), open) < |s|)
      && (host != "" || emptyHostValid)
      && AllFrom(host, IsHostChar, 1)
      && (portAt < |s| ==> AllFrom(s[portAt + 1..], IsDigit, 1))
  }

  /** The state after Parse was given a valid string. A one-character string of white space makes
      the program throw std::out_of_range; URI::Parse never passes one. */
  function AuthorityOf(s: string, emptyHostValid: bool): Authority {
    if s == "" || s == "//" then Authority("", "", None, emptyHostValid, true)
    else
      var start := HostStart(s, 0);
      Authority(UserInfoText(s), HostText(s, start), PortOf(s, PortAt(s, start)), emptyHostValid, false)
  }

  function ParseAuthority(old_: Authority, s: string, emptyHostValid: bool): (bool, Authority) {
    if ValidAuthority(s, emptyHostValid) then (true, AuthorityOf(s, emptyHostValid)) else (false, old_)
  }

  function PrintAuthority(a: Authority): string {
    if a.host != "" || (a.emptyHostValid && a.hasEmptyHost) then
      "//" + (if a.userInfo == "" then "" else a.userInfo + "@") + a.host
      + (if a.port.Some? then ":" + PrintInt(a.port.value) else "")
    else ""
  }

  // ----- path -----

  datatype Path = Path(parts: seq<string>, isAbsolute: bool, trailingSlash: bool)

  predicate ValidPath(text: string) {
    var s := Trimmed(text);
    && (s == "" ==> text == "")
    && AllFrom(s, IsPathChar, 0)
    && (s != "" ==> IsPathStart(s[0]))
  }

  /** _str.back() of an empty string is undefined; the test counts as false. */
  function PathOf(s: string): Path {
    Path(Split(s, Is('/')), s != "" && s[0] == '/', |s| > 1 && s[|s| - 1] == '/')
  }

  function ParsePath(old_: Path, s: string): (bool, Path) {
    if ValidPath(s) then (true, PathOf(s)) else (false, old_)
  }

  function PrintPath(p: Path): string {
    (if p.isAbsolute then "/" else "") + Join(p.parts, '/') + (if p.trailingSlash then "/" else "")
  }

  // ----- query -----

  type Query = seq<(string, string)>

  predicate ValidQuery(text: string) {
    var s := Trimmed(text);
    s == "" || (s[0] == '?' && AllFrom(s, IsQueryChar, 1))
  }

  /** One key-value pair of the text between two '&'. */
  function PairOf(s: string): (string, string) {
    var values := Split(s, Is('='));
    if |values| == 2 then (values[0], values[1]) else (s, "")
  }

  function PairsOf(texts: seq<string>): Query {
    if texts == [] then [] else [PairOf(texts[0])] + PairsOf(texts[1..])
  }

  function QueryOf(s: string): Query {
    if s == "" then [] else PairsOf(Split(s[1..], Is('&')))
  }

  function ParseQuery(old_: Query, s: string): (bool, Query) {
    if ValidQuery(s) then (true, QueryOf(s)) else (false, old_)
  }

  function PairText(pair: (string, string)): string {
    if pair.1 == "" then pair.0 else pair.0 + "=" + pair.1
  }

  function Texts(q: Query): (t: seq<string>)
    ensures |t| == |q|
  {
    if q == [] then [] else [PairText(q[0])] + Texts(q[1..])
  }

  /** The loop of Str puts the delimiter before a pair unless the text so far is "?". */
  function PrintedPairs(q: Query, result: string): string {
    if q == [] then result
    else PrintedPairs(q[1..], (if result != "?" then result + "&" else result) + PairText(q[0]))
  }

  function PrintQuery(q: Query): string {
    if q == [] then "" else PrintedPairs(q, "?")
  }

  // ----- fragment -----

  predicate ValidFragment(text: string) {
    var s := Trimmed(text);
    s == "" || (s[0] == '#' && AllFrom(s, IsQueryChar, 1))
  }

  function FragmentOf(s: string): string {
    if s == "" then "" else s[1..]
  }

  function ParseFragment(old_: string, s: string): (bool, string) {
    if ValidFragment(s) then (true, FragmentOf(s)) else (false, old_)
  }

  function PrintFragment(f: string): string {
    if f == "" then "" else "#" + f
  }

  // ----- the classes -----

  class URIAuthority {
    var userInfo: string
    var host: string
    var port: Option<int>
    var emptyHostValid: bool
    var hasEmptyHost: bool

    function State(): Authority
      reads this
    {
      Authority(userInfo, host, port, emptyHostValid, hasEmptyHost)
    }

    constructor ()
      ensures State() == NO_AUTHORITY
    {
      userInfo, host, port, emptyHostValid, hasEmptyHost := "", "", None, false, false;
    }

    method Clear()
      modifies this
      ensures State() == NO_AUTHORITY
    {
      userInfo, host, port, emptyHostValid, hasEmptyHost := "", "", None, false, false;
    }

    method Parse(s: string, emptyValid: bool) returns (ok: bool)
      requires !(|s| == 1 && IsSpace(s[0]))
      modifies this
      ensures (ok, State()) == ParseAuthority(old(State()), s, emptyValid)
    {
      if !ValidAuthority(s, emptyValid) {
        return false;
      }
      Clear();
      Assign(s, emptyValid);
      ok := true;
    }

    /** The part of Parse after Clear. */
    method Assign(s: string, emptyValid: bool)
      requires State() == NO_AUTHORITY
      modifies this
      ensures State() == AuthorityOf(s, emptyValid)
    {
      emptyHostValid := emptyValid;
      if s == "" || s == "//" {
        hasEmptyHost := true;
        return;
      }
      var start := SetUserInfo(s);
      host := HostText(s, start);
      SetPort(s, PortAt(s, start));
    }

    /** The part of Parse behind the host. */
    method SetPort(s: string, portAt: nat)
      requires port == None
      modifies this`port
      ensures port == PortOf(s, portAt)
    {
      if portAt < |s| {
        port := Stoi(s[portAt + 1..]);
      }
    }

    /** The part of Parse up to the host. */
    method SetUserInfo(s: string) returns (start: nat)
      requires userInfo == ""
      modifies this`userInfo
      ensures start == HostStart(s, 0)
      ensures userInfo == UserInfoText(s)
    {
      var at := FirstWhere(s, Is('@'), 0);
      start := 2;
      if at < |s| {
        userInfo := Substr(s, 2, if at >= 2 then at - 2 else |s|);
        start := at + 1;
      }
    }
  }

  class URIPath {
    var parts: seq<string>
    var isAbsolute: bool
    var trailingSlash: bool

    function State(): Path
      reads this
    {
      Path(parts, isAbsolute, trailingSlash)
    }

    constructor ()
      ensures State() == Path([], false, false)
    {
      parts, isAbsolute, trailingSlash := [], false, false;
    }

    /** Does not touch the trailing slash. */
    method Clear()
      modifies this
      ensures State() == Path([], false, old(trailingSlash))
    {
      parts, isAbsolute := [], false;
    }

    method PushFront(part: string)
      modifies this
      ensures State() == PushedFront(old(State()), part)
    {
      if part == "" {
        return;
      }
      var text := part;
      if part[0] == '/' {
        text := part[1..];
        isAbsolute := true;
      }
      if '/' in text {
        text := ReplaceAll(text, "/", "%2F");
      }
      if text != "" {
        parts := [text] + parts;
      }
    }

    method PushBack(part: string)
      modifies this
      ensures State() == PushedBack(old(State()), part)
    {
      if part == "" {
        return;
      }
      var text := part;
      if parts == [] && part[0] == '/' {
        text := part[1..];
        isAbsolute := true;
      }
      if '/' in text {
        text := ReplaceAll(text, "/", "%2F");
      }
      parts := parts + [text];
    }

    method Parse(s: string) returns (ok: bool)
      modifies this
      ensures (ok, State()) == ParsePath(old(State()), s)
    {
      if !ValidPath(s) {
        return false;
      }
      Clear();
      PushTokens(s);
      isAbsolute := s != "" && s[0] == '/';
      trailingSlash := s != "" && s[|s| - 1] == '/' && |s| != 1;
      ok := true;
    }

    /** The loop of Parse. */
    method PushTokens(s: string)
      requires parts == [] && !isAbsolute
      modifies this
      ensures State() == Path(Split(s, Is('/')), false, old(trailingSlash))
    {
      hide Split, PushedBack, Free, Flatten, Without;
      var tokens := SplitTokens(s, Is('/'));
      SplitTokensExact(s, Is('/'));
      for i := 0 to |tokens|
        invariant State() == Path(tokens[..i], false, old(trailingSlash))
      {
        assert tokens[i] in tokens;
        TokenIsPushed(State(), tokens[i]);
        PushBack(tokens[i]);
        assert tokens[..i + 1] == tokens[..i] + [tokens[i]];
      }
      assert tokens[..|tokens|] == tokens;
    }
  }

  function Encoded(text: string): string {
    if '/' in text then ReplacedFrom(text, "/", "%2F", 0) else text
  }

  function PushedFront(p: Path, part: string): Path {
    if part == "" then p
    else
      var absolute := part[0] == '/';
      var text := Encoded(if absolute then part[1..] else part);
      Path(if text == "" then p.parts else [text] + p.parts, p.isAbsolute || absolute, p.trailingSlash)
  }

  function PushedBack(p: Path, part: string): Path {
    if part == "" then p
    else
      var absolute := p.parts == [] && part[0] == '/';
      Path(p.parts + [Encoded(if absolute then part[1..] else part)], p.isAbsolute || absolute, p.trailingSlash)
  }

  lemma TokenIsPushed(p: Path, token: string)
    requires token != "" && Free(token, Is('/'))
    ensures PushedBack(p, token) == p.(parts := p.parts + [token])
  {
    assert Is('/')(token[0]) == (token[0] == '/');
    assert '/' !in token;
  }

  ghost predicate NoSlashInside(p: Path) {
    forall t :: t in p.parts ==> '/' !in t
  }

  lemma EncodedHasNoSlash(text: string)
    ensures '/' !in Encoded(text)
  {
    if '/' in text {
      ReplacedIsSubstituted(text, "/", "%2F");
      SubstitutedCharIsGone(text, '/', "%2F");
      assert "/" == ['/'];
    }
  }

  /** A sequence of pushes: true for PushBack, false for PushFront. */
  function Pushed(p: Path, pushes: seq<(bool, string)>): Path {
    if pushes == [] then p
    else
      var q := Pushed(p, pushes[..|pushes| - 1]);
      var (back, part) := pushes[|pushes| - 1];
      if back then PushedBack(q, part) else PushedFront(q, part)
  }

  /** After any sequence of PushFront and PushBack no stored path segment contains a slash. */
  lemma {:induction false} PushesKeepSegments(p: Path, pushes: seq<(bool, string)>)
    requires NoSlashInside(p)
    ensures NoSlashInside(Pushed(p, pushes))
  {
    if pushes != [] {
      PushesKeepSegments(p, pushes[..|pushes| - 1]);
      var part := pushes[|pushes| - 1].1;
      if part != "" {
        EncodedHasNoSlash(part);
        EncodedHasNoSlash(part[1..]);
      }
    }
  }

  class URIQuery {
    var values: Query

    constructor ()
      ensures values == []
    {
      values := [];
    }

    method Clear()
      modifies this
      ensures values == []
    {
      values := [];
    }

    method Insert(key: string, value: string)
      modifies this
      ensures values == old(values) + [(key, value)]
    {
      values := values + [(key, value)];
    }

    method Parse(s: string) returns (ok: bool)
      modifies this
      ensures (ok, values) == ParseQuery(old(values), s)
    {
      if !ValidQuery(s) {
        return false;
      }
      Clear();
      if s != "" {
        InsertPairs(s[1..]);
      }
      ok := true;
    }

    /** The loop of Parse. */
    method InsertPairs(text: string)
      requires values == []
      modifies this
      ensures values == PairsOf(Split(text, Is('&')))
    {
      var queries := SplitTokens(text, Is('&'));
      for i := 0 to |queries|
        invariant values + PairsOf(queries[i..]) == PairsOf(queries)
      {
        PairsNext(values, queries, i);
        InsertPair(queries[i]);
      }
      assert queries[|queries|..] == [];
    }

    method InsertPair(query: string)
      modifies this
      ensures values == old(values) + [PairOf(query)]
    {
      var pair := SplitTokens(query, Is('='));
      if |pair| == 2 {
        Insert(pair[0], pair[1]);
      } else {
        Insert(query, "");
      }
    }
  }

  lemma PairsNext(before: Query, queries: seq<string>, i: nat)
    requires i < |queries|
    ensures before + PairsOf(queries[i..]) == before + [PairOf(queries[i])] + PairsOf(queries[i + 1..])
  {
    assert queries[i..][1..] == queries[i + 1..];
  }

  class URIFragment {
    var value: string

    constructor ()
      ensures value == ""
    {
      value := "";
    }

    method Clear()
      modifies this
      ensures value == ""
    {
      value := "";
    }

    method Parse(s: string) returns (ok: bool)
      modifies this
      ensures (ok, value) == ParseFragment(old(value), s)
    {
      if !ValidFragment(s) {
        return false;
      }
      Clear();
      if s != "" {
        value := s[1..];
      }
      ok := true;
    }
  }
}
