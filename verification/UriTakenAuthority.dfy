/**
  The authorities that URI::Parse of src/URI.cc takes from a text: exactly which of them come back
  from their printed form, in terms of what can go wrong.
*/
module UriTakenAuthority {
  import opened Common
  import opened Strings
  import opened UriParts
  import opened UriAuthorityPrinting
  import opened UriAuthorityNormal

  // ----- the condition -----

  /** What an authority that was taken from a text needs to come back. Something is printed for it;
      the host does not begin with a second '@' behind an empty user info; it is not white space alone,
      which is trimmed away, unless it may be empty; and a host that begins with '[' is not longer
      than the position of ']' in the printed form, and just that long with a port behind it. */
  ghost predicate TakenComesBack(a: Authority, emptyHostValid: bool) {
    && PrintAuthority(a) != ""
    && !(a.userInfo == "" && a.host != "" && a.host[0] == '@')
    && (AllSpace(a.host) && a.port == None ==> emptyHostValid)
    && (a.host != "" && a.host[0] == '[' ==>
          var close := |Lead(a)| + FirstWhere(a.host, Is(']'), 0);
          if a.port == None then |a.host| <= close else |a.host| == close && AllFrom(a.host, IsHostChar, 1))
  }

  // ----- the host of a valid text -----

  /** What a host has that was cut out of a valid text. */
  ghost predicate IsHostOf(host: string, hasPort: bool) {
    && AllFrom(TrimmedRight(host), IsHostChar, 1)
    && if Free(host, Is('[')) then Free(host, Is(':')) && (hasPort ==> AllFrom(host, IsHostChar, 1))
       else host[0] == '[' && FirstWhere(host, Is(']'), 0) < |host|
  }

  lemma PrefixChars(s: string, t: string, p: char -> bool)
    requires t <= s && AllFrom(s, p, 1)
    ensures AllFrom(t, p, 1)
  {
    assert forall i :: 1 <= i < |t| ==> t[i] == s[i];
  }

  /** A text without '['. */
  lemma PlainHostOf(rest: string, lead: nat, emptyHostValid: bool)
    requires Free(rest, Is('[')) && ValidRest(TrimmedRight(rest), lead, emptyHostValid)
    ensures var host := HostIn(rest, lead); IsHostOf(host, PortIn(rest, |host|).Some?)
  {
    var x, host := TrimmedRight(rest), HostIn(rest, lead);
    var colon := FirstWhere(rest, Is(':'), 0);
    FirstWhereNone(rest, Is('['), 0);
    FirstWhereIsFirst(rest, Is(':'), 0);
    TrimmedRightPrefix(rest);
    FreeInFront(rest, x, Is('['));
    FirstWhereNone(x, Is('['), 0);
    if colon < |rest| {
      assert Is(':')(rest[colon]);
      TrimmingKeeps(rest, colon);
      FoundInPrefix(rest, x, Is(':'), 0, colon);
      assert host == rest[..colon] == x[..colon];
      TrimmedHostChars(host);
      FreeInFront(rest, host, Is('['));
      assert Free(host, Is(':')) by {
        assert forall i :: 0 <= i < colon ==> !Is(':')(rest[i]);
      }
    } else {
      assert Free(rest, Is(':'));
      FreeInFront(rest, x, Is(':'));
      FirstWhereNone(x, Is(':'), 0);
      FirstWhereNone(rest, Is(':'), |rest|);
    }
  }

  lemma FoundInPrefix(s: string, t: string, p: char -> bool, pos: nat, at: nat)
    requires t <= s && FirstWhere(s, p, pos) == at < |t| && pos <= at
    ensures FirstWhere(t, p, pos) == at
  {
    FirstWhereIsFirst(s, p, pos);
    assert forall i :: 0 <= i < |t| ==> t[i] == s[i];
    FirstWhereUnique(t, p, pos, at);
  }

  lemma TrimmedHostChars(s: string)
    requires AllFrom(s, IsHostChar, 1)
    ensures AllFrom(TrimmedRight(s), IsHostChar, 1)
  {
    hide TrimmedRight, AllFrom;
    TrimmedRightPrefix(s);
    PrefixChars(s, TrimmedRight(s), IsHostChar);
  }

  lemma SliceInside(x: string, w: string, open: nat, end: nat)
    requires open <= end <= |x|
    ensures (x + w)[open..end] == x[open..end]
  {
  }

  lemma SliceBehind(x: string, w: string, open: nat, end: nat)
    requires open <= |x| <= end <= |x + w|
    ensures (x + w)[open..end] == x[open..] + w[..end - |x|]
  {
  }

  /** What is cut out of a text is what is cut out of the trimmed one, and then white space. */
  lemma CutBehind(rest: string, x: string, w: string, open: nat, len: nat) returns (v: string)
    requires rest == x + w && AllSpace(w) && open < |x|
    ensures AllSpace(v) && Substr(rest, open, len) == Substr(x, open, len) + v
  {
    var end := if open + len > |rest| then |rest| else open + len;
    assert Substr(rest, open, len) == rest[open..end];
    if end <= |x| {
      v := "";
      SliceInside(x, w, open, end);
      assert x[open..end] + "" == x[open..end];
    } else {
      v := w[..end - |x|];
      SliceBehind(x, w, open, end);
    }
  }

  /** What is cut out behind a '[' of a text and of the trimmed one. */
  lemma BracketChars(rest: string, open: nat, len: nat)
    requires open < |TrimmedRight(rest)| && AllFrom(Substr(TrimmedRight(rest), open, len), IsHostChar, 1)
    ensures AllFrom(TrimmedRight(Substr(rest, open, len)), IsHostChar, 1)
  {
    hide TrimmedRight, AllFrom, Substr, AllSpace;
    var x := TrimmedRight(rest);
    var w := TrimmedRightCuts(rest);
    var v := CutBehind(rest, x, w, open, len);
    var part := Substr(x, open, len);
    TrimmedRightAppended(part, v);
    TrimmedHostChars(part);
  }

  /** A text with '['. */
  lemma BracketHostOf(rest: string, lead: nat, hasPort: bool, emptyHostValid: bool)
    requires !Free(rest, Is('[')) && lead > 0 && ValidRest(TrimmedRight(rest), lead, emptyHostValid)
    ensures IsHostOf(HostIn(rest, lead), hasPort)
  {
    hide FirstWhere, Substr, TrimmedRight, AllFrom;
    var x, open := TrimmedRight(rest), FirstWhere(rest, Is('['), 0);
    var i :| 0 <= i < |rest| && Is('[')(rest[i]);
    FirstWhereAtMost(rest, Is('['), 0, i);
    FirstWhereIsFirst(rest, Is('['), 0);
    assert Is('[')(rest[open]);
    TrimmedRightPrefix(rest);
    TrimmingKeeps(rest, open);
    FoundInPrefix(rest, x, Is('['), 0, open);
    var close := FirstWhere(x, Is(']'), open);
    FoundInWhole(rest, x, Is(']'), open, close);
    BracketChars(rest, open, lead + close);
    BracketsInside(rest, open, close, lead);
  }

  lemma FoundInWhole(s: string, t: string, p: char -> bool, pos: nat, at: nat)
    requires t <= s && pos <= |t| && FirstWhere(t, p, pos) == at < |t|
    ensures FirstWhere(s, p, pos) == at
  {
    FirstWhereIsFirst(t, p, pos);
    assert forall i :: 0 <= i < |t| ==> t[i] == s[i];
    FirstWhereUnique(s, p, pos, at);
  }

  lemma BracketsInside(rest: string, open: nat, close: nat, lead: nat)
    requires open < |rest| && rest[open] == '[' && FirstWhere(rest, Is(']'), open) == close < |rest| && lead > 0
    ensures var host := Substr(rest, open, lead + close);
      host != "" && host[0] == '[' && !Free(host, Is('[')) && FirstWhere(host, Is(']'), 0) < |host|
  {
    var host := Substr(rest, open, lead + close);
    FirstWhereIsFirst(rest, Is(']'), open);
    assert Is(']')(rest[close]) && host[close - open] == rest[close];
    assert Is('[')(host[0]);
    FirstWhereAtMost(host, Is(']'), 0, close - open);
  }

  lemma FreeInFront(s: string, t: string, p: char -> bool)
    requires t <= s && Free(s, p)
    ensures Free(t, p)
  {
    assert forall i :: 0 <= i < |t| ==> t[i] == s[i];
  }

  lemma HostOfValid(rest: string, lead: nat, emptyHostValid: bool)
    requires lead > 0 && ValidRest(TrimmedRight(rest), lead, emptyHostValid)
    ensures var host := HostIn(rest, lead); IsHostOf(host, PortIn(rest, |host|).Some?)
  {
    hide ValidRest, TrimmedRight, HostIn, PortIn, IsHostOf;
    if Free(rest, Is('[')) {
      PlainHostOf(rest, lead, emptyHostValid);
    } else {
      BracketHostOf(rest, lead, PortIn(rest, |HostIn(rest, lead)|).Some?, emptyHostValid);
    }
  }

  // ----- the lead of a valid text -----

  /** Where the host of the text and of the trimmed text begins, and what the user info is. */
  lemma LeadOfText(text: string) returns (lead: string, rest: string)
    requires StartsWithSlashes(text)
    ensures text == lead + rest && StartsWithSlashes(lead) && HostStart(text, 0) == |lead|
    ensures HostStart(lead + TrimmedRight(rest), 2) == |lead|
    ensures Trimmed(text) == lead + TrimmedRight(rest)
    ensures |lead| > 2 ==> UserInfoText(text) == lead[2..|lead| - 1]
    ensures |lead| == 2 ==> UserInfoText(text) == "" && Free(text, Is('@'))
    ensures Free(UserInfoText(text), Is('@'))
  {
    var at := FirstWhere(text, Is('@'), 0);
    SlashesRead(text, at);
    var start := HostStart(text, 0);
    lead, rest := text[..start], text[start..];
    FirstWhereIsFirst(text, Is('@'), 0);
    assert at < |text| ==> Is('@')(text[at]);
    TrimmedRightBehind(lead, rest);
    TrimmedRightPrefix(rest);
    var t := lead + TrimmedRight(rest);
    assert t <= text by {
      assert text == lead + rest;
    }
    if at < |text| {
      assert text[2..at] == lead[2..|lead| - 1];
      FoundFrom(text, at);
      FoundInPrefix(text, t, Is('@'), 2, at);
    } else {
      FreeInFront(text, t, Is('@'));
      FirstWhereNone(t, Is('@'), 2);
    }
  }

  lemma FoundFrom(text: string, at: nat)
    requires StartsWithSlashes(text) && FirstWhere(text, Is('@'), 0) == at < |text|
    ensures FirstWhere(text, Is('@'), 2) == at && at >= 2
  {
    FirstWhereIsFirst(text, Is('@'), 0);
    assert Is('@')(text[at]);
    FirstWhereUnique(text, Is('@'), 2, at);
  }

  /** User info and host of a valid text. */
  lemma PartsOfValid(text: string, emptyHostValid: bool)
    requires StartsWithSlashes(text) && ValidAuthority(text, emptyHostValid)
    ensures var a := AuthorityOf(text, emptyHostValid);
      && Free(a.userInfo, Is('@')) && AllFrom(a.userInfo, IsUserInfoChar, 1)
      && IsHostOf(a.host, a.port.Some?)
      && a.emptyHostValid == emptyHostValid && a.hasEmptyHost == (text == "//")
  {
    hide FirstWhere, ValidRest, HostText, HostIn, HostStart, UserInfoText, IsHostOf, Trimmed, TrimmedRight,
      ValidAuthority, Stoi;
    if text == "//" {
      EmptyHostIsHost();
    } else {
      var lead, rest := LeadOfText(text);
      TrimmedAgain(text);
      SameTrimmed(text, lead + TrimmedRight(rest), emptyHostValid);
      ValidAt(lead, TrimmedRight(rest), emptyHostValid);
      HostOfValid(rest, |lead|, emptyHostValid);
      HostBehind(lead, rest);
      PortBehind(lead, rest, |HostIn(rest, |lead|)|);
    }
  }

  lemma EmptyHostIsHost()
    ensures IsHostOf("", false)
  {
  }

  lemma TrimmedAgain(text: string)
    requires StartsWithSlashes(text)
    ensures Trimmed(Trimmed(text)) == Trimmed(text)
  {
    TrimmedTwice(text);
    TrimmedRightPrefix(text);
  }

  /** Behind its first character such a host has no '@'. */
  lemma NoAtInside(host: string, hasPort: bool)
    requires IsHostOf(host, hasPort)
    ensures Free(host, Is('@')) <==> host == "" || host[0] != '@'
  {
    hide FirstWhere;
    var w := TrimmedRightCuts(host);
    var x := TrimmedRight(host);
    forall i | 1 <= i < |host|
      ensures !Is('@')(host[i])
    {
      assert host[i] == if i < |x| then x[i] else w[i - |x|];
    }
    if host != "" && host[0] == '@' {
      assert Is('@')(host[0]);
    }
  }

  lemma TrimmedToNothing(host: string)
    ensures TrimmedRight(host) == "" <==> AllSpace(host)
  {
    var w := TrimmedRightCuts(host);
  }

  lemma HostComesBackSimply(a: Authority, emptyHostValid: bool)
    requires IsHostOf(a.host, a.port.Some?) && (a.port.Some? ==> a.host != "")
    ensures HostComesBack(a.host, a.port.Some?, |Lead(a)|, emptyHostValid)
      <==> (
        && (AllSpace(a.host) && a.port == None ==> emptyHostValid)
        && (a.host != "" && a.host[0] == '[' ==>
              var close := |Lead(a)| + FirstWhere(a.host, Is(']'), 0);
              if a.port == None then |a.host| <= close else |a.host| == close && AllFrom(a.host, IsHostChar, 1)))
  {
    hide FirstWhere, TrimmedRight, Lead;
    TrimmedToNothing(a.host);
    if a.host != "" && a.host[0] == '[' {
      assert Is('[')(a.host[0]) && !IsSpace(a.host[0]);
    }
  }

  /** For every text that begins with two slashes and is valid: the authority Parse makes of it comes
      back exactly when TakenComesBack holds. */
  lemma TakenComesBackIff(text: string, emptyHostValid: bool)
    requires StartsWithSlashes(text) && ValidAuthority(text, emptyHostValid)
    ensures var a := AuthorityOf(text, emptyHostValid);
      ComesBack(a, emptyHostValid) <==> TakenComesBack(a, emptyHostValid)
  {
    hide HostComesBack, AuthorityOf, ValidAuthority, FirstWhere, IsHostOf, AllFrom;
    var a := AuthorityOf(text, emptyHostValid);
    PartsOfValid(text, emptyHostValid);
    NoAtInside(a.host, a.port.Some?);
    EmptyTaken(text, emptyHostValid);
    if PrintAuthority(a) != "" {
      PrintedAuthority(a);
      HostComesBackSimply(a, emptyHostValid);
    }
  }

  lemma EmptyTaken(text: string, emptyHostValid: bool)
    requires StartsWithSlashes(text) && ValidAuthority(text, emptyHostValid)
    ensures text == "//" ==> emptyHostValid && AuthorityOf(text, emptyHostValid) == Authority("", "", None, true, true)
  {
    if text == "//" && !emptyHostValid {
      NoHostRefused();
    }
  }

  lemma NoHostRefused()
    ensures !ValidAuthority("//", false)
  {
    AuthorityRoundTrip(Authority("", "", None, true, true), NO_AUTHORITY, false);
  }
}
