/**
  Parsing undoes printing for each URI component of src/URI.cc, and printing what was parsed is
  a normal form.
*/
module UriPrinting {
  import opened Common
  import opened Strings
  import opened UriParts

  // ----- characters of joined and split strings -----

  lemma {:induction false} JoinChars(parts: seq<string>, c: char, p: char -> bool)
    requires p(c) && forall t :: t in parts ==> AllFrom(t, p, 0)
    ensures AllFrom(Join(parts, c), p, 0)
  {
    if |parts| > 0 {
      assert parts[0] in parts;
      if |parts| > 1 {
        JoinChars(parts[1..], c, p);
      }
    }
  }

  ghost predicate NonEmptyParts(parts: seq<string>) {
    forall t :: t in parts ==> t != ""
  }

  lemma PartsOfNonEmpty(parts: seq<string>)
    requires parts != [] && NonEmptyParts(parts)
    ensures parts[0] != "" && NonEmptyParts(parts[1..])
  {
    assert parts[0] in parts;
    assert forall t :: t in parts[1..] ==> t in parts;
  }

  lemma JoinNext(parts: seq<string>, c: char)
    requires parts != []
    ensures Join(parts, c) == if |parts| == 1 then parts[0] else parts[0] + [c] + Join(parts[1..], c)
  {
  }

  /** A join of non-empty parts begins and ends like its first and last part. */
  lemma {:induction false} JoinEnds(parts: seq<string>, c: char)
    requires parts != [] && NonEmptyParts(parts)
    ensures var s, last := Join(parts, c), parts[|parts| - 1];
      parts[0] != "" && last != "" && s != "" && s[0] == parts[0][0] && s[|s| - 1] == last[|last| - 1]
  {
    hide NonEmptyParts, Join;
    PartsOfNonEmpty(parts);
    JoinNext(parts, c);
    if |parts| > 1 {
      JoinEnds(parts[1..], c);
      EndsOfJoined(parts[0], c, Join(parts[1..], c));
    }
  }

  lemma EndsOfJoined(a: string, c: char, b: string)
    requires a != "" && b != ""
    ensures var s := a + [c] + b; s != "" && s[0] == a[0] && s[|s| - 1] == b[|b| - 1]
  {
  }

  lemma {:induction false} SplitChars(s: string, p: char -> bool, q: char -> bool)
    requires AllFrom(s, q, 0)
    ensures forall t :: t in Split(s, p) ==> AllFrom(t, q, 0)
    decreases |s|
  {
    if s != "" {
      if p(s[0]) {
        SplitChars(s[1..], p, q);
      } else {
        var end := FirstWhere(s, p, 0);
        SplitChars(s[end..], p, q);
        assert AllFrom(s[..end], q, 0);
      }
    }
  }

  /** A string that does not begin with white space loses at most its end by trimming. */
  lemma TrimmedChars(s: string, p: char -> bool, from: nat)
    requires s != "" && !IsSpace(s[0]) && AllFrom(s, p, from)
    ensures Trimmed(s) != "" && Trimmed(s)[0] == s[0] && AllFrom(Trimmed(s), p, from)
  {
    TrimmedRightPrefix(s);
  }

  // ----- path -----

  /** Segments as the program stores them: not empty and without a slash. */
  ghost predicate HasSegments(p: Path) {
    forall t :: t in p.parts ==> t != "" && Free(t, Is('/'))
  }

  /** A path whose printed form is valid. Without segments and slashes there is no trailing slash. */
  ghost predicate WellFormedPath(p: Path) {
    HasSegments(p) && (p.isAbsolute || p.parts != [] || !p.trailingSlash) && ValidPath(PrintPath(p))
  }

  lemma PrintedPathSplits(p: Path)
    requires HasSegments(p)
    ensures Split(PrintPath(p), Is('/')) == p.parts
  {
    var tail := if p.trailingSlash then "/" else "";
    assert Split("/", Is('/')) == Split("/"[1..], Is('/')) == [];
    SplitOfJoin(p.parts, '/', tail);
    var relative := Join(p.parts, '/') + tail;
    if p.isAbsolute {
      SplitDelimiter("/" + relative, Is('/'));
      assert ("/" + relative)[1..] == relative;
      assert PrintPath(p) == "/" + relative;
    } else {
      assert PrintPath(p) == relative;
    }
  }

  lemma PrintedPathEnds(p: Path)
    requires HasSegments(p) && (p.isAbsolute || p.parts != [] || !p.trailingSlash)
    ensures var s := PrintPath(p);
      && (p.isAbsolute <==> s != "" && s[0] == '/')
      && (p.trailingSlash <==> |s| > 1 && s[|s| - 1] == '/')
      && (s == "" ==> p == Path([], false, false))
  {
    if p.parts != [] {
      JoinEnds(p.parts, '/');
      var first, last := p.parts[0], p.parts[|p.parts| - 1];
      assert first in p.parts && last in p.parts;
      assert !Is('/')(first[0]) && !Is('/')(last[|last| - 1]);
    }
  }

  /** Parsing the printed form of a path gives the path back, trailing slash included, exactly when
      the printed form is valid, and there is something printed if there is a trailing slash alone. */
  lemma PathRoundTripIff(p: Path, before: Path)
    requires HasSegments(p)
    ensures ParsePath(before, PrintPath(p)) == (true, p) <==> WellFormedPath(p)
  {
    PrintedPathSplits(p);
    if p.isAbsolute || p.parts != [] || !p.trailingSlash {
      PrintedPathEnds(p);
    } else {
      assert PrintPath(p) == "/";
    }
  }

  // ----- collapsing slashes -----

  /** Each run of slashes becomes a single one. */
  function Collapsed(s: string): string {
    if s == "" then ""
    else if |s| > 1 && s[0] == '/' && s[1] == '/' then Collapsed(s[1..])
    else [s[0]] + Collapsed(s[1..])
  }

  lemma {:induction false} CollapsedEnds(s: string)
    ensures Collapsed(s) == "" <==> s == ""
    ensures s != "" ==> Collapsed(s)[0] == s[0] && Collapsed(s)[|Collapsed(s)| - 1] == s[|s| - 1]
    ensures NoEmptySegment(Collapsed(s))
  {
    if s != "" {
      var tail := s[1..];
      CollapsedEnds(tail);
      if tail != "" {
        assert tail[0] == s[1] && tail[|tail| - 1] == s[|s| - 1];
        PrependedEnds(s[0], Collapsed(tail));
      }
    }
  }

  lemma PrependedEnds(c: char, t: string)
    requires t != "" && NoEmptySegment(t)
    ensures ([c] + t)[|[c] + t| - 1] == t[|t| - 1]
    ensures !(c == '/' && t[0] == '/') ==> NoEmptySegment([c] + t)
  {
    var s := [c] + t;
    forall i | 0 < i < |s| - 1
      ensures !(s[i] == '/' && s[i + 1] == '/')
    {
      assert s[i] == t[i - 1] && s[i + 1] == t[i];
    }
  }

  lemma {:induction false} CollapsedSplits(s: string)
    ensures Split(Collapsed(s), Is('/')) == Split(s, Is('/'))
    decreases |s|
  {
    if s == "" {
    } else if s[0] == '/' {
      CollapsedSplits(s[1..]);
      SplitDelimiter(s, Is('/'));
      if !(|s| > 1 && s[1] == '/') {
        SplitDelimiter(Collapsed(s), Is('/'));
        assert Collapsed(s)[1..] == Collapsed(s[1..]);
      }
    } else {
      assert !Is('/')(s[0]);
      var end := FirstWhere(s, Is('/'), 0);
      FirstWhereIsFirst(s, Is('/'), 0);
      CollapsedSplits(s[end..]);
      CollapsedBehind(s[..end], s[end..]);
      CollapsedEnds(s[end..]);
      assert s[..end] + s[end..] == s;
      SplitToken(s[..end], s[end..], Is('/'));
      SplitToken(s[..end], Collapsed(s[end..]), Is('/'));
    }
  }

  lemma {:induction false} CollapsedBehind(a: string, b: string)
    requires Free(a, Is('/'))
    ensures Collapsed(a + b) == a + Collapsed(b)
  {
    if a == "" {
      assert a + b == b;
    } else {
      assert !Is('/')(a[0]) && (a + b)[1..] == a[1..] + b;
      CollapsedBehind(a[1..], b);
      assert a == [a[0]] + a[1..];
    }
  }

  lemma {:induction false} CollapsedBefore(s: string, c: char)
    requires c != '/'
    ensures Collapsed(s + [c]) == Collapsed(s) + [c]
  {
    if s == "" {
      assert s + [c] == [c] && [c][1..] == "";
    } else {
      assert (s + [c])[1..] == s[1..] + [c];
      CollapsedBefore(s[1..], c);
    }
  }

  lemma {:induction false} CollapsedTrimsLeft(s: string)
    ensures TrimmedLeft(Collapsed(s)) == Collapsed(TrimmedLeft(s))
  {
    CollapsedEnds(s);
    if s != "" && IsSpace(s[0]) {
      CollapsedTrimsLeft(s[1..]);
      assert Collapsed(s)[1..] == Collapsed(s[1..]);
    }
  }

  lemma {:induction false} CollapsedTrimsRight(s: string)
    ensures TrimmedRight(Collapsed(s)) == Collapsed(TrimmedRight(s))
  {
    CollapsedEnds(s);
    if s != "" && IsSpace(s[|s| - 1]) {
      var front, c := s[..|s| - 1], s[|s| - 1];
      assert s == front + [c];
      CollapsedBefore(front, c);
      CollapsedTrimsRight(front);
      assert Collapsed(s)[..|Collapsed(s)| - 1] == Collapsed(front);
    }
  }

  lemma {:induction false} CollapsedChars(s: string, p: char -> bool)
    requires AllFrom(s, p, 0)
    ensures AllFrom(Collapsed(s), p, 0)
  {
    if s != "" {
      CollapsedChars(s[1..], p);
    }
  }

  lemma CollapsedValid(s: string)
    requires ValidPath(s)
    ensures ValidPath(Collapsed(s))
  {
    CollapsedTrimsLeft(s);
    CollapsedTrimsRight(TrimmedLeft(s));
    CollapsedEnds(s);
    CollapsedEnds(Trimmed(s));
    CollapsedChars(Trimmed(s), IsPathChar);
  }

  lemma {:induction false} OnlySlashes(s: string)
    requires Split(s, Is('/')) == []
    ensures forall i :: 0 <= i < |s| ==> s[i] == '/'
  {
    if s != "" && s[0] == '/' {
      OnlySlashes(s[1..]);
    }
  }

  lemma {:induction false} CollapsedSlashes(s: string)
    requires s != "" && forall i :: 0 <= i < |s| ==> s[i] == '/'
    ensures Collapsed(s) == "/"
  {
    if |s| > 1 {
      CollapsedSlashes(s[1..]);
    }
  }

  /** Strings with the same segments and the same ends are parsed alike. */
  lemma SamePath(s: string, t: string)
    requires Split(s, Is('/')) == Split(t, Is('/')) && (s == "" <==> t == "")
    requires s != "" ==> s[0] == t[0] && s[|s| - 1] == t[|t| - 1]
    requires Split(s, Is('/')) == [] ==> |s| <= 1 && |t| <= 1
    ensures PathOf(t) == PathOf(s)
  {
    if |s| == 1 && s[0] == '/' {
      SingleSplits(s);
    }
    if |t| == 1 && t[0] == '/' {
      SingleSplits(t);
    }
  }

  lemma CollapsedPath(s: string)
    requires |s| <= 1 || Split(s, Is('/')) != []
    ensures PathOf(Collapsed(s)) == PathOf(s)
  {
    CollapsedSplits(s);
    CollapsedEnds(s);
    SamePath(s, Collapsed(s));
  }

  /** Printing a parsed path gives the string with each run of slashes collapsed; a string of
      nothing but slashes, two at least, gives two. */
  lemma PathPrintsCollapsed(s: string)
    ensures PrintPath(PathOf(s)) == if |s| > 1 && Split(s, Is('/')) == [] then "//" else Collapsed(s)
  {
    if |s| > 1 && Split(s, Is('/')) == [] {
      OnlySlashes(s);
    } else {
      CollapsedPath(s);
      CollapsedEnds(s);
      PathPrintsBack(Collapsed(s));
    }
  }

  lemma SingleSplits(t: string)
    requires |t| == 1 && t[0] == '/'
    ensures Split(t, Is('/')) == []
  {
    assert t[1..] == "";
  }

  lemma PrintedPathIsValid(s: string)
    requires ValidPath(s)
    ensures ValidPath(PrintPath(PathOf(s)))
  {
    PathPrintsCollapsed(s);
    CollapsedValid(s);
    TrimmedFixed("//");
  }

  lemma ParsedPathHasSegments(s: string)
    ensures HasSegments(PathOf(s))
    ensures PathOf(s).isAbsolute || PathOf(s).parts != [] || !PathOf(s).trailingSlash
  {
    SplitTokensExact(s, Is('/'));
    if Split(s, Is('/')) == [] {
      OnlySlashes(s);
    }
  }

  /** Printing a parsed path is a normal form: parsing it again gives the same structure. */
  lemma PathNormalForm(s: string, before: Path)
    requires ValidPath(s)
    ensures ParsePath(before, PrintPath(PathOf(s))) == (true, PathOf(s))
    ensures WellFormedPath(PathOf(s))
  {
    PrintedPathIsValid(s);
    ParsedPathHasSegments(s);
    PathRoundTripIff(PathOf(s), before);
  }

  ghost predicate NoEmptySegment(s: string) {
    forall i :: 0 <= i < |s| - 1 ==> !(s[i] == '/' && s[i + 1] == '/')
  }

  lemma FirstToken(s: string) returns (token: string, rest: string)
    requires s != "" && s[0] != '/'
    ensures token != "" && s == token + rest && Split(s, Is('/')) == [token] + Split(rest, Is('/'))
    ensures if rest == "" then s[|s| - 1] != '/' else rest[0] == '/' && rest[|rest| - 1] == s[|s| - 1]
    ensures NoEmptySegment(s) && |rest| > 1 ==> rest[1] != '/' && NoEmptySegment(rest[1..])
  {
    assert !Is('/')(s[0]);
    var end := FirstWhere(s, Is('/'), 0);
    FirstWhereIsFirst(s, Is('/'), 0);
    token, rest := s[..end], s[end..];
    hide FirstWhere, Split;
    TokenCut(s, end);
    if rest == "" {
      assert !Is('/')(s[|s| - 1]);
    } else if |rest| > 1 && NoEmptySegment(s) {
      SuffixHasNoEmptySegment(s, end + 1);
      assert rest[1..] == s[end + 1..];
    }
  }

  lemma TokenCut(s: string, end: nat)
    requires s != "" && s[0] != '/' && FirstWhere(s, Is('/'), 0) == end
    ensures end > 0 && s == s[..end] + s[end..] && Split(s, Is('/')) == [s[..end]] + Split(s[end..], Is('/'))
  {
    assert !Is('/')(s[0]);
  }

  lemma SuffixHasNoEmptySegment(s: string, from: nat)
    requires NoEmptySegment(s) && from <= |s|
    ensures NoEmptySegment(s[from..])
  {
  }

  lemma {:induction false} JoinOfSplit(s: string)
    requires s != "" && s[0] != '/' && NoEmptySegment(s)
    ensures Split(s, Is('/')) != []
    ensures s == Join(Split(s, Is('/')), '/') + (if s[|s| - 1] == '/' then "/" else "")
    decreases |s|
  {
    var token, rest := FirstToken(s);
    if |rest| <= 1 {
      assert rest == "" || rest == "/";
      assert Split("/", Is('/')) == Split("/"[1..], Is('/'));
    } else {
      var next := rest[1..];
      JoinOfSplit(next);
      SplitDelimiter(rest, Is('/'));
      JoinStep(s, token, next, Split(next, Is('/')), if s[|s| - 1] == '/' then "/" else "");
    }
  }

  lemma JoinStep(s: string, token: string, next: string, parts: seq<string>, tail: string)
    requires |s| == |token| + 1 + |next| && s[..|token|] == token && s[|token|] == '/' && s[|token| + 1..] == next
    requires parts != [] && next == Join(parts, '/') + tail
    ensures s == Join([token] + parts, '/') + tail
  {
    JoinCons(token, parts);
    Regroup(token, "/", Join(parts, '/'), tail);
    assert s == token + "/" + next;
  }

  lemma JoinCons(token: string, parts: seq<string>)
    requires parts != []
    ensures Join([token] + parts, '/') == token + "/" + Join(parts, '/')
  {
    assert ([token] + parts)[1..] == parts;
  }

  lemma SplitOfNothing()
    ensures Split("", Is('/')) == []
  {
  }

  /** For strings without an empty segment, printing undoes parsing. */
  lemma PathPrintsBack(s: string)
    requires NoEmptySegment(s)
    ensures PrintPath(PathOf(s)) == s
  {
    SplitOfNothing();
    if s != "" && s[0] != '/' {
      hide Split, Join;
      JoinOfSplit(s);
      if |s| == 1 {
        assert s[|s| - 1] != '/';
      }
    } else if |s| == 1 {
      hide Split;
      SingleSplits(s);
      assert s == "/";
    } else if |s| > 1 {
      AbsolutePrintsBack(s);
    }
  }

  lemma AbsolutePrintsBack(s: string)
    requires NoEmptySegment(s) && |s| > 1 && s[0] == '/'
    ensures PrintPath(PathOf(s)) == s
  {
    hide Split, Join;
    var next := s[1..];
    assert s[1] != '/' && s == "/" + next;
    SuffixHasNoEmptySegment(s, 1);
    JoinOfSplit(next);
    SplitDelimiter(s, Is('/'));
    hide NoEmptySegment;
    Reassociate("/", Join(Split(next, Is('/')), '/'), if s[|s| - 1] == '/' then "/" else "");
  }

  // ----- pushes -----

  /** A part as it is stored, each slash as %2F. */
  lemma EncodedIsSubstituted(text: string)
    ensures Encoded(text) == Substituted(text, "/", "%2F")
  {
    if '/' in text {
      ReplacedIsSubstituted(text, "/", "%2F");
    } else {
      NothingSubstituted(text, '/', "%2F");
      assert ['/'] == "/";
    }
  }

  lemma {:induction false} NothingSubstituted(s: string, c: char, replacement: string)
    requires c !in s
    ensures Substituted(s, [c], replacement) == s
  {
    if s != "" {
      assert s[0] in s && !OccursAt(s, [c], 0);
      NothingSubstituted(s[1..], c, replacement);
    }
  }

  lemma PrintedFront(absolute: bool, text: string, parts: seq<string>, trailingSlash: bool)
    ensures PrintPath(Path(if text == "" then parts else [text] + parts, absolute, trailingSlash))
      == (if absolute then "/" else "")
        + (text + (if text != "" && parts != [] then "/" else "") + PrintPath(Path(parts, false, trailingSlash)))
  {
    if text != "" && parts != [] {
      JoinCons(text, parts);
    }
  }

  /** A part pushed to the front is printed in front of what there was, with a slash between; its own
      first slash makes the path absolute instead. */
  lemma PushFrontPrints(p: Path, part: string)
    requires part != ""
    ensures var absolute, rest := part[0] == '/', PrintPath(p.(isAbsolute := false));
      var text := Substituted(if absolute then part[1..] else part, "/", "%2F");
      PrintPath(PushedFront(p, part)) == (if p.isAbsolute || absolute then "/" else "")
        + (text + (if text != "" && p.parts != [] then "/" else "") + rest)
  {
    var absolute := part[0] == '/';
    var text := Encoded(if absolute then part[1..] else part);
    EncodedIsSubstituted(if absolute then part[1..] else part);
    hide Encoded, Substituted, PrintPath;
    PrintedFront(p.isAbsolute || absolute, text, p.parts, p.trailingSlash);
  }

  lemma {:induction false} JoinAppend(parts: seq<string>, text: string)
    requires parts != []
    ensures Join(parts + [text], '/') == Join(parts, '/') + "/" + text
  {
    if |parts| == 1 {
      assert (parts + [text])[1..] == [text];
    } else {
      JoinAppend(parts[1..], text);
      assert (parts + [text])[1..] == parts[1..] + [text];
    }
  }

  lemma PrintedBack(absolute: bool, parts: seq<string>, text: string, trailingSlash: bool)
    ensures PrintPath(Path(parts + [text], absolute, trailingSlash)) == PrintPath(Path(parts, absolute, false))
      + (if parts == [] then "" else "/") + text + if trailingSlash then "/" else ""
  {
    if parts != [] {
      JoinAppend(parts, text);
    }
  }

  /** A part pushed to the back is printed behind what there was and a slash, in front of the trailing
      one; only in an empty path its own first slash makes the path absolute instead. */
  lemma PushBackPrints(p: Path, part: string)
    requires part != ""
    ensures var absolute, front := p.parts == [] && part[0] == '/', PrintPath(p.(trailingSlash := false));
      var text := Substituted(if absolute then part[1..] else part, "/", "%2F");
      PrintPath(PushedBack(p, part)) == (if absolute then "/" else front + if p.parts == [] then "" else "/")
        + text + if p.trailingSlash then "/" else ""
  {
    var absolute := p.parts == [] && part[0] == '/';
    EncodedIsSubstituted(if absolute then part[1..] else part);
    hide Encoded, Substituted;
    PrintedBack(p.isAbsolute || absolute, p.parts, Encoded(if absolute then part[1..] else part), p.trailingSlash);
  }

  // ----- fragment -----

  lemma FragmentRoundTrip(f: string, before: string)
    requires AllFrom(f, IsQueryChar, 0)
    ensures ParseFragment(before, PrintFragment(f)) == (true, f)
  {
    if f != "" {
      TrimmedChars("#" + f, IsQueryChar, 1);
    }
  }
}
