/**
  String helpers of src/Util.cc and the std::string searches that the URI code relies on.
  Strings hold no NUL characters; std::string::npos is modelled by the length of the string.
*/
module Strings {

  // ----- searching -----

  /** The first position from pos on whose character satisfies p; |s| if there is none. */
  function FirstWhere(s: string, p: char -> bool, pos: nat): (r: nat)
    ensures r <= |s|
    ensures pos <= |s| ==> pos <= r
    decreases |s| - pos
  {
    if pos >= |s| then |s| else if p(s[pos]) then pos else FirstWhere(s, p, pos + 1)
  }

  lemma {:induction false} FirstWhereIsFirst(s: string, p: char -> bool, pos: nat)
    ensures var r := FirstWhere(s, p, pos);
      && (r < |s| ==> p(s[r]))
      && (forall i :: pos <= i < r ==> !p(s[i]))
    decreases |s| - pos
  {
    if pos < |s| && !p(s[pos]) {
      FirstWhereIsFirst(s, p, pos + 1);
    }
  }

  lemma {:induction false} FirstWhereUnique(s: string, p: char -> bool, pos: nat, r: nat)
    requires pos <= r <= |s| && (r < |s| ==> p(s[r]))
    requires forall i :: pos <= i < r ==> !p(s[i])
    ensures FirstWhere(s, p, pos) == r
    decreases r - pos
  {
    if pos < r {
      assert !p(s[pos]);
      FirstWhereUnique(s, p, pos + 1, r);
    }
  }

  function Is(c: char): char -> bool {
    d => d == c
  }

  /** std::string::substr. */
  function Substr(s: string, pos: nat, len: nat): string {
    if pos > |s| then "" else if pos + len > |s| then s[pos..] else s[pos..pos + len]
  }

  // ----- trimming -----

  /** std::isspace in the C locale. */
  predicate IsSpace(c: char) {
    c == ' ' || '\t' <= c <= '\r'
  }

  function TrimmedLeft(s: string): string {
    if s != "" && IsSpace(s[0]) then TrimmedLeft(s[1..]) else s
  }

  function TrimmedRight(s: string): string {
    if s != "" && IsSpace(s[|s| - 1]) then TrimmedRight(s[..|s| - 1]) else s
  }

  function Trimmed(s: string): string {
    TrimmedRight(TrimmedLeft(s))
  }

  lemma TrimmedFixed(s: string)
    requires s != "" && !IsSpace(s[0]) && !IsSpace(s[|s| - 1])
    ensures Trimmed(s) == s
  {
  }

  /** Only the right end is cut when the left end is not a space. */
  lemma {:induction false} TrimmedRightPrefix(s: string)
    ensures TrimmedRight(s) <= s
    ensures s != "" && !IsSpace(s[0]) ==> TrimmedRight(s) != ""
  {
    if s != "" && IsSpace(s[|s| - 1]) {
      TrimmedRightPrefix(s[..|s| - 1]);
    }
  }

  predicate AllSpace(s: string) {
    forall i :: 0 <= i < |s| ==> IsSpace(s[i])
  }

  /** What TrimmedRight cuts off. */
  lemma {:induction false} TrimmedRightCuts(s: string) returns (w: string)
    ensures s == TrimmedRight(s) + w && AllSpace(w)
    ensures TrimmedRight(s) == "" <==> AllSpace(s)
  {
    if s != "" && IsSpace(s[|s| - 1]) {
      var front, last := s[..|s| - 1], s[|s| - 1];
      var v := TrimmedRightCuts(front);
      w := v + [last];
      assert s == front + [last] && TrimmedRight(s) == TrimmedRight(front);
    } else {
      w := "";
    }
  }

  /** What TrimmedLeft cuts off. */
  lemma {:induction false} TrimmedLeftCuts(s: string) returns (w: string)
    ensures s == w + TrimmedLeft(s) && AllSpace(w)
    ensures TrimmedLeft(s) != "" ==> !IsSpace(TrimmedLeft(s)[0])
    ensures TrimmedLeft(s) == "" <==> AllSpace(s)
  {
    hide AllSpace;
    if s != "" && IsSpace(s[0]) {
      var v := TrimmedLeftCuts(s[1..]);
      w := [s[0]] + v;
      SpaceInFront(s, v, TrimmedLeft(s[1..]));
    } else {
      w := "";
      NoSpaceInFront(s);
    }
  }

  lemma SpaceInFront(s: string, v: string, rest: string)
    requires s != "" && IsSpace(s[0]) && s[1..] == v + rest && AllSpace(v)
    ensures s == [s[0]] + v + rest && AllSpace([s[0]] + v)
    ensures AllSpace(s) <==> AllSpace(s[1..])
  {
    assert s == [s[0]] + s[1..];
    if AllSpace(s[1..]) {
      forall i | 0 <= i < |s|
        ensures IsSpace(s[i])
      {
        assert i > 0 ==> s[i] == s[1..][i - 1];
      }
    }
  }

  lemma NoSpaceInFront(s: string)
    requires s == "" || !IsSpace(s[0])
    ensures s == "" + s && AllSpace("") && (AllSpace(s) <==> s == "")
  {
  }

  /** Space, tabulators, line feed, form feed and carriage return. */
  lemma SpaceSet(c: char)
    ensures IsSpace(c) <==> c in " \t\n\U{000B}\U{000C}\r"
  {
  }

  /** Trimming takes off white space at both ends and nothing else. */
  lemma TrimmedExact(s: string) returns (front: string, back: string)
    ensures s == front + Trimmed(s) + back && AllSpace(front) && AllSpace(back)
    ensures var t := Trimmed(s); t != "" ==> !IsSpace(t[0]) && !IsSpace(t[|t| - 1])
  {
    hide TrimmedLeft, TrimmedRight;
    front := TrimmedLeftCuts(s);
    back := TrimmedRightCuts(TrimmedLeft(s));
    TrimmedRightEnds(TrimmedLeft(s));
    TrimmedRightPrefix(TrimmedLeft(s));
  }

  lemma {:induction false} TrimmedRightEnds(s: string)
    ensures var t := TrimmedRight(s); t != "" ==> !IsSpace(t[|t| - 1])
  {
    if s != "" && IsSpace(s[|s| - 1]) {
      TrimmedRightEnds(s[..|s| - 1]);
    }
  }

  lemma {:induction false} TrimmedRightAppended(s: string, w: string)
    requires AllSpace(w)
    ensures TrimmedRight(s + w) == TrimmedRight(s)
  {
    if w == "" {
      assert s + w == s;
    } else {
      var n := |w| - 1;
      assert (s + w)[..|s + w| - 1] == s + w[..n];
      TrimmedRightAppended(s, w[..n]);
    }
  }

  /** White space behind a string is trimmed away. */
  lemma {:induction false} TrimmedAppended(s: string, w: string)
    requires AllSpace(w)
    ensures Trimmed(s + w) == Trimmed(s)
  {
    if s == "" {
      assert s + w == w;
      var v := TrimmedLeftCuts(w);
    } else if IsSpace(s[0]) {
      assert (s + w)[1..] == s[1..] + w;
      TrimmedAppended(s[1..], w);
    } else {
      TrimmedRightAppended(s, w);
    }
  }

  /** And white space in front. */
  lemma {:induction false} TrimmedPrepended(w: string, s: string)
    requires AllSpace(w)
    ensures Trimmed(w + s) == Trimmed(s)
  {
    if w == "" {
      assert w + s == s;
    } else {
      assert (w + s)[1..] == w[1..] + s;
      TrimmedPrepended(w[1..], s);
    }
  }

  lemma {:induction false} TrimmedRightBehind(front: string, s: string)
    requires front != "" && !IsSpace(front[|front| - 1])
    ensures TrimmedRight(front + s) == front + TrimmedRight(s)
  {
    if s == "" {
      assert front + s == front;
    } else if IsSpace(s[|s| - 1]) {
      assert (front + s)[..|front + s| - 1] == front + s[..|s| - 1];
      TrimmedRightBehind(front, s[..|s| - 1]);
    }
  }

  // ----- joining and splitting -----

  function Join(parts: seq<string>, c: char): string {
    if parts == [] then "" else if |parts| == 1 then parts[0] else parts[0] + [c] + Join(parts[1..], c)
  }

  /** common::split with the delimiters of p: strtok's maximal runs of other characters. */
  function Split(s: string, p: char -> bool): seq<string> {
    if s == "" then []
    else if p(s[0]) then Split(s[1..], p)
    else
      var end := FirstWhere(s, p, 0);
      [s[..end]] + Split(s[end..], p)
  }

  /** The loop over strtok: skip delimiters, cut off a token. */
  method SplitTokens(s: string, p: char -> bool) returns (tokens: seq<string>)
    ensures tokens == Split(s, p)
  {
    tokens := [];
    var rest := s;
    while rest != ""
      invariant tokens + Split(rest, p) == Split(s, p)
      decreases |rest|
    {
      if p(rest[0]) {
        rest := rest[1..];
      } else {
        var end := FirstWhere(rest, p, 0);
        tokens := tokens + [rest[..end]];
        rest := rest[end..];
      }
    }
  }

  ghost predicate Free(s: string, p: char -> bool) {
    forall i :: 0 <= i < |s| ==> !p(s[i])
  }

  lemma FreeConcat(a: string, b: string, p: char -> bool)
    requires Free(a, p) && Free(b, p)
    ensures Free(a + b, p)
  {
  }

  function Flatten(parts: seq<string>): string {
    if parts == [] then "" else parts[0] + Flatten(parts[1..])
  }

  function Without(s: string, p: char -> bool): string {
    if s == "" then "" else (if p(s[0]) then "" else [s[0]]) + Without(s[1..], p)
  }

  /** The tokens are non-empty, hold no delimiter, and together are the string without its delimiters. */
  lemma {:induction false} SplitTokensExact(s: string, p: char -> bool)
    ensures forall t :: t in Split(s, p) ==> t != "" && Free(t, p)
    ensures Flatten(Split(s, p)) == Without(s, p)
    decreases |s|
  {
    if s != "" {
      if p(s[0]) {
        SplitTokensExact(s[1..], p);
      } else {
        var end := FirstWhere(s, p, 0);
        FirstWhereIsFirst(s, p, 0);
        SplitTokensExact(s[end..], p);
        WithoutOfFree(s[..end], s[end..], p);
        assert s[..end] + s[end..] == s;
      }
    }
  }

  lemma {:induction false} WithoutOfFree(a: string, b: string, p: char -> bool)
    requires Free(a, p)
    ensures Without(a + b, p) == a + Without(b, p)
  {
    if a == "" {
      assert a + b == b;
    } else {
      WithoutOfFree(a[1..], b, p);
      assert (a + b)[1..] == a[1..] + b && !p(a[0]);
    }
  }

  /** Cutting off the first token. */
  lemma SplitToken(a: string, b: string, p: char -> bool)
    requires a != "" && Free(a, p) && (b != "" ==> p(b[0]))
    ensures Split(a + b, p) == [a] + Split(b, p)
  {
    FirstWhereUnique(a + b, p, 0, |a|);
    assert (a + b)[..|a|] == a && (a + b)[|a|..] == b;
  }

  lemma SplitDelimiter(s: string, p: char -> bool)
    requires s != "" && p(s[0])
    ensures Split(s, p) == Split(s[1..], p)
  {
  }

  /** Splitting undoes joining of non-empty parts without the delimiter, whatever delimiters follow. */
  lemma {:induction false} SplitOfJoin(parts: seq<string>, c: char, tail: string)
    requires forall t :: t in parts ==> t != "" && Free(t, Is(c))
    requires Split(tail, Is(c)) == [] && (tail != "" ==> tail[0] == c)
    ensures Split(Join(parts, c) + tail, Is(c)) == parts
  {
    hide Free, Split;
    if parts == [] {
      assert Join(parts, c) + tail == tail;
      return;
    }
    assert parts[0] in parts;
    if |parts| == 1 {
      SplitToken(parts[0], tail, Is(c));
    } else {
      assert forall t :: t in parts[1..] ==> t in parts;
      SplitOfJoin(parts[1..], c, tail);
      SplitTwo(parts[0], Join(parts[1..], c) + tail, c);
      Regroup(parts[0], [c], Join(parts[1..], c), tail);
    }
  }

  lemma Regroup(a: string, b: string, c: string, d: string)
    ensures a + b + c + d == a + b + (c + d)
    ensures a + (b + c + d) == a + b + c + d
  {
  }

  lemma SplitTwo(a: string, b: string, c: char)
    requires a != "" && Free(a, Is(c))
    ensures Split(a + [c] + b, Is(c)) == [a] + Split(b, Is(c))
  {
    SplitToken(a, [c] + b, Is(c));
    SplitDelimiter([c] + b, Is(c));
    assert ([c] + b)[1..] == b && a + [c] + b == a + ([c] + b);
  }

  // ----- replaceAll -----

  predicate OccursAt(s: string, key: string, i: nat) {
    i + |key| <= |s| && s[i..i + |key|] == key
  }

  /** std::string::find of a string; |s| + 1 stands for npos. */
  function Find(s: string, key: string, pos: nat): (r: nat)
    ensures r == |s| + 1 || (pos <= r && OccursAt(s, key, r))
    decreases |s| + 1 - pos
  {
    if pos > |s| then |s| + 1 else if OccursAt(s, key, pos) then pos else Find(s, key, pos + 1)
  }

  lemma {:induction false} FindIsFirst(s: string, key: string, pos: nat, i: nat)
    requires pos <= i < Find(s, key, pos)
    ensures !OccursAt(s, key, i)
    decreases |s| + 1 - pos
  {
    if pos < i {
      FindIsFirst(s, key, pos + 1, i);
    }
  }

  /** One replacement, and where the search goes on after it. */
  function Spliced(s: string, key: string, replacement: string, i: nat): string
    requires i + |key| <= |s|
  {
    s[..i] + replacement + s[i + |key|..]
  }

  function NextPos(key: string, replacement: string, i: nat): nat {
    i + if |key| > |replacement| then 0 else |replacement|
  }

  /** The string after the loop of replaceAll has started at position pos. */
  function ReplacedFrom(s: string, key: string, replacement: string, pos: nat): string
    requires key != ""
    decreases if |key| > |replacement| then |s| else |s| + 1 - pos
  {
    var i := Find(s, key, pos);
    if i > |s| then s else ReplacedFrom(Spliced(s, key, replacement, i), key, replacement, NextPos(key, replacement, i))
  }

  /** With an empty key the loop of the program need not end. */
  method ReplaceAll(orig: string, key: string, replacement: string) returns (result: string)
    requires key != ""
    ensures result == ReplacedFrom(orig, key, replacement, 0)
  {
    result := orig;
    var pos: nat := 0;
    while true
      invariant ReplacedFrom(result, key, replacement, pos) == ReplacedFrom(orig, key, replacement, 0)
      decreases if |key| > |replacement| then |result| else |result| + 1 - pos
    {
      var found := Find(result, key, pos);
      if found > |result| {
        break;
      }
      result := Spliced(result, key, replacement, found);
      pos := NextPos(key, replacement, found);
    }
  }

  /** Reference: scan from left to right and replace every occurrence that is met. */
  function Substituted(s: string, key: string, replacement: string): string
    requires key != ""
    decreases |s|
  {
    if s == "" then ""
    else if OccursAt(s, key, 0) then replacement + Substituted(s[|key|..], key, replacement)
    else [s[0]] + Substituted(s[1..], key, replacement)
  }

  /** Up to the first occurrence nothing changes. */
  lemma {:induction false} SubstitutedFirst(s: string, key: string, replacement: string, i: nat)
    requires key != "" && i <= |s| && forall k: nat :: k < i ==> !OccursAt(s, key, k)
    ensures Substituted(s, key, replacement) == s[..i] + Substituted(s[i..], key, replacement)
  {
    if i > 0 {
      forall k: nat | k < i - 1
        ensures !OccursAt(s[1..], key, k)
      {
        OccursShift(s[..1], s[1..], key, k);
        assert s[..1] + s[1..] == s && !OccursAt(s, key, k + 1);
      }
      SubstitutedFirst(s[1..], key, replacement, i - 1);
      assert s[1..][i - 1..] == s[i..];
      assert [s[0]] + s[1..][..i - 1] == s[..i];
    }
  }

  lemma OccursShift(a: string, b: string, key: string, k: nat)
    ensures OccursAt(a + b, key, |a| + k) <==> OccursAt(b, key, k)
  {
    if k + |key| <= |b| {
      assert (a + b)[|a| + k..|a| + k + |key|] == b[k..k + |key|];
    }
  }

  /** The search of the program, seen from the part of the string that is still to be scanned. */
  lemma FindShift(a: string, b: string, key: string)
    requires key != ""
    ensures var i := Find(a + b, key, |a|) - |a|;
      && 0 <= i
      && (i <= |b| ==> OccursAt(b, key, i))
      && (forall k: nat :: k < i && k <= |b| ==> !OccursAt(b, key, k))
  {
    var i := Find(a + b, key, |a|) - |a|;
    if i <= |b| {
      OccursShift(a, b, key, i);
    }
    forall k: nat | k < i && k <= |b|
      ensures !OccursAt(b, key, k)
    {
      OccursShift(a, b, key, k);
      FindIsFirst(a + b, key, |a|, |a| + k);
    }
  }

  /** One round of the loop against one match of the scan. */
  lemma ScanOnce(s: string, a: string, b: string, key: string, replacement: string) returns (i: nat)
    requires key != "" && s == a + b
    ensures Find(s, key, |a|) == |a| + i
    ensures i > |b| ==> Substituted(b, key, replacement) == b
    ensures i <= |b| ==> i + |key| <= |b|
    ensures i <= |b| ==>
      Substituted(b, key, replacement) == b[..i] + replacement + Substituted(b[i + |key|..], key, replacement)
  {
    i := Find(s, key, |a|) - |a|;
    FindShift(a, b, key);
    if i > |b| {
      SubstitutedFirst(b, key, replacement, |b|);
    } else {
      SubstitutedSecond(b, key, replacement, i);
    }
  }

  lemma {:induction false} ReplacedIsSubstitutedFrom(s: string, a: string, b: string, key: string, replacement: string)
    requires key != "" && |replacement| >= |key| && s == a + b
    ensures ReplacedFrom(s, key, replacement, |a|) == a + Substituted(b, key, replacement)
    decreases |b|
  {
    hide Substituted, Spliced;
    var i := ScanOnce(s, a, b, key, replacement);
    if i <= |b| {
      var before, after := a + b[..i] + replacement, b[i + |key|..];
      var next := Spliced(s, key, replacement, |a| + i);
      SplicedConcat(a, b, key, replacement, i);
      ReplacedOnce(s, key, replacement, |a|, |a| + i, next, |before|);
      ReplacedIsSubstitutedFrom(next, before, after, key, replacement);
      Regroup(a, b[..i], replacement, Substituted(after, key, replacement));
    }
  }

  lemma ReplacedOnce(s: string, key: string, replacement: string, pos: nat, i: nat, next: string, nextPos: nat)
    requires key != "" && |replacement| >= |key| && Find(s, key, pos) == i <= |s|
    requires next == Spliced(s, key, replacement, i) && nextPos == i + |replacement|
    ensures ReplacedFrom(s, key, replacement, pos) == ReplacedFrom(next, key, replacement, nextPos)
  {
  }

  lemma SplicedConcat(a: string, b: string, key: string, replacement: string, i: nat)
    requires i + |key| <= |b|
    ensures Spliced(a + b, key, replacement, |a| + i) == a + b[..i] + replacement + b[i + |key|..]
  {
    assert (a + b)[..|a| + i] == a + b[..i];
    assert (a + b)[|a| + i + |key|..] == b[i + |key|..];
  }

  lemma SubstitutedSecond(s: string, key: string, replacement: string, i: nat)
    requires key != "" && OccursAt(s, key, i) && forall k: nat :: k < i ==> !OccursAt(s, key, k)
    ensures Substituted(s, key, replacement) == s[..i] + replacement + Substituted(s[i + |key|..], key, replacement)
  {
    hide Substituted;
    SubstitutedFirst(s, key, replacement, i);
    OccursDrop(s, key, i);
    SubstituteStep(s[i..], key, replacement);
    hide OccursAt;
    Regroup("", s[..i], replacement, Substituted(s[i + |key|..], key, replacement));
  }

  lemma OccursDrop(s: string, key: string, i: nat)
    requires OccursAt(s, key, i)
    ensures OccursAt(s[i..], key, 0) && s[i..][|key|..] == s[i + |key|..]
  {
  }

  lemma SubstituteStep(s: string, key: string, replacement: string)
    requires key != "" && OccursAt(s, key, 0)
    ensures Substituted(s, key, replacement) == replacement + Substituted(s[|key|..], key, replacement)
  {
  }

  /** When the replacement is at least as long as the key, replaceAll is left-to-right substitution. */
  lemma ReplacedIsSubstituted(s: string, key: string, replacement: string)
    requires key != "" && |replacement| >= |key|
    ensures ReplacedFrom(s, key, replacement, 0) == Substituted(s, key, replacement)
  {
    ReplacedIsSubstitutedFrom(s, "", s, key, replacement);
    assert "" + s == s;
  }

  /** A replaced character that does not come back in the replacement is gone. */
  lemma {:induction false} SubstitutedCharIsGone(s: string, c: char, replacement: string)
    requires c !in replacement
    ensures c !in Substituted(s, [c], replacement)
  {
    if s != "" {
      if OccursAt(s, [c], 0) {
        SubstitutedCharIsGone(s[1..], c, replacement);
      } else {
        assert s[0..1] == [s[0]];
        SubstitutedCharIsGone(s[1..], c, replacement);
      }
    }
  }

  /** When the replacement is the key without its last character, as in "//" to "/", no
      occurrence of the key is left. */
  lemma {:induction false} ShorteningLeavesNoKey(s: string, key: string, pos: nat, k: nat)
    requires key != "" && forall i: nat :: i < pos ==> !OccursAt(s, key, i)
    ensures !OccursAt(ReplacedFrom(s, key, key[..|key| - 1], pos), key, k)
    decreases |s|
  {
    var replacement := key[..|key| - 1];
    var i := Find(s, key, pos);
    forall j: nat | j < i
      ensures !OccursAt(s, key, j)
    {
      if j >= pos {
        FindIsFirst(s, key, pos, j);
      }
    }
    if i <= |s| {
      var next := Spliced(s, key, replacement, i);
      forall j: nat | j < i
        ensures !OccursAt(next, key, j)
      {
        NothingNewBefore(s, key, i, j);
      }
      ShorteningLeavesNoKey(next, key, i, k);
    }
  }

  lemma NothingNewBefore(s: string, key: string, i: nat, j: nat)
    requires key != "" && OccursAt(s, key, i) && j < i && !OccursAt(s, key, j)
    ensures !OccursAt(Spliced(s, key, key[..|key| - 1], i), key, j)
  {
    var next := Spliced(s, key, key[..|key| - 1], i);
    var same := i + |key| - 1;
    assert next[..same] == s[..same] by {
      assert s[i..same] == s[i..i + |key|][..|key| - 1];
    }
    SliceOfPrefix(next, same, j, j + |key|);
    SliceOfPrefix(s, same, j, j + |key|);
  }

  lemma SliceOfPrefix(s: string, n: nat, from: nat, to: nat)
    requires from <= to <= n <= |s|
    ensures s[..n][from..to] == s[from..to]
  {
  }

  lemma NoDoubleSlash(s: string, k: nat)
    ensures !OccursAt(ReplacedFrom(s, "//", "/", 0), "//", k)
  {
    assert "//"[..1] == "/";
    ShorteningLeavesNoKey(s, "//", 0, k);
  }
}
