/**
  Printing and parsing of the query of a URI in src/URI.cc: pairs come back from their printed form,
  and exactly which query strings are printed to a text that parses to the same pairs.
*/
module UriQueryPrinting {
  import opened Common
  import opened Strings
  import opened UriParts
  import opened UriPrinting

  // ----- pairs that come back -----

  /** A pair as the program takes one from a text between two '&'. */
  ghost predicate StoredPair(pair: (string, string)) {
    && pair.0 != "" && Free(pair.0, Is('&')) && Free(pair.1, Is('&'))
    && (if pair.1 == "" then |Split(pair.0, Is('='))| != 2 else Free(pair.0, Is('=')) && Free(pair.1, Is('=')))
  }

  ghost predicate StoredQuery(q: Query) {
    forall pair :: pair in q ==> StoredPair(pair)
  }

  ghost predicate WellFormedPair(pair: (string, string)) {
    StoredPair(pair) && AllFrom(pair.0, IsQueryChar, 0) && AllFrom(pair.1, IsQueryChar, 0)
  }

  ghost predicate WellFormedQuery(q: Query) {
    forall pair :: pair in q ==> WellFormedPair(pair)
  }

  lemma PairRoundTrip(pair: (string, string))
    requires StoredPair(pair)
    ensures PairOf(PairText(pair)) == pair
    ensures PairText(pair) != "" && Free(PairText(pair), Is('&'))
  {
    if pair.1 != "" {
      SplitTwo(pair.0, pair.1, '=');
      SplitToken(pair.1, "", Is('='));
      assert pair.1 + "" == pair.1;
    }
  }

  lemma {:induction false} TextsRoundTrip(q: Query)
    requires StoredQuery(q)
    ensures PairsOf(Texts(q)) == q
    ensures forall t :: t in Texts(q) ==> t != "" && Free(t, Is('&'))
  {
    if q != [] {
      assert q[0] in q;
      PairRoundTrip(q[0]);
      TextsRoundTrip(q[1..]);
    }
  }

  lemma {:induction false} TextsChars(q: Query)
    requires WellFormedQuery(q)
    ensures forall t :: t in Texts(q) ==> AllFrom(t, IsQueryChar, 0)
  {
    if q != [] {
      assert q[0] in q;
      TextsChars(q[1..]);
    }
  }

  lemma {:induction false} PrintedPairsJoin(q: Query, result: string)
    requires result != "" && q != [] && StoredQuery(q)
    ensures PrintedPairs(q, result) == (if result == "?" then "?" else result + "&") + Join(Texts(q), '&')
  {
    assert q[0] in q;
    PairRoundTrip(q[0]);
    var text := PairText(q[0]);
    var next := (if result != "?" then result + "&" else result) + text;
    if |q| == 1 {
      assert Texts(q) == [text];
      assert PrintedPairs(q, result) == PrintedPairs([], next);
    } else {
      assert next != "?";
      PrintedPairsJoin(q[1..], next);
      assert Texts(q)[1..] == Texts(q[1..]);
      assert Join(Texts(q), '&') == text + "&" + Join(Texts(q[1..]), '&');
    }
  }

  lemma PrintedQuery(q: Query)
    requires StoredQuery(q) && q != []
    ensures PrintQuery(q) == "?" + Join(Texts(q), '&')
  {
    PrintedPairsJoin(q, "?");
  }

  /** The pairs are read again from their printed form. */
  lemma QueryReadAgain(q: Query)
    requires StoredQuery(q)
    ensures QueryOf(PrintQuery(q)) == q
  {
    if q != [] {
      PrintedQuery(q);
      TextsRoundTrip(q);
      var text := Join(Texts(q), '&');
      assert PrintQuery(q)[1..] == text;
      SplitOfJoin(Texts(q), '&', "");
      assert text + "" == text;
    }
  }

  lemma PrintedQueryChars(q: Query)
    requires WellFormedQuery(q)
    ensures AllFrom(PrintQuery(q), IsQueryChar, 1) && ValidQuery(PrintQuery(q))
    ensures PrintQuery(q) == "" || PrintQuery(q)[0] == '?'
  {
    if q != [] {
      PrintedQuery(q);
      TextsChars(q);
      JoinChars(Texts(q), '&', IsQueryChar);
      TrimmedChars(PrintQuery(q), IsQueryChar, 1);
    }
  }

  /** Parsing the printed form of a well-formed query gives the pairs back. */
  lemma QueryRoundTrip(q: Query, before: Query)
    requires WellFormedQuery(q)
    ensures ParseQuery(before, PrintQuery(q)) == (true, q)
  {
    QueryReadAgain(q);
    PrintedQueryChars(q);
  }

  // ----- parsed pairs -----

  lemma ParsedPairStored(t: string)
    requires t != "" && Free(t, Is('&'))
    ensures StoredPair(PairOf(t))
  {
    var values := Split(t, Is('='));
    if |values| == 2 {
      SplitTokensExact(t, Is('='));
      SplitChars(t, Is('='), c => !Is('&')(c));
      assert values[0] in values && values[1] in values;
    }
  }

  lemma {:induction false} ParsedPairsStored(texts: seq<string>)
    requires forall t :: t in texts ==> t != "" && Free(t, Is('&'))
    ensures StoredQuery(PairsOf(texts))
  {
    if texts != [] {
      assert texts[0] in texts;
      ParsedPairStored(texts[0]);
      assert forall t :: t in texts[1..] ==> t in texts;
      ParsedPairsStored(texts[1..]);
    }
  }

  lemma ParsedQueryStored(s: string)
    ensures StoredQuery(QueryOf(s))
  {
    if s != "" {
      SplitTokensExact(s[1..], Is('&'));
      ParsedPairsStored(Split(s[1..], Is('&')));
    }
  }

  /** The text of a pair that was taken from this one. */
  function PairAgain(t: string): string {
    PairText(PairOf(t))
  }

  lemma {:induction false} TextsAgain(texts: seq<string>)
    ensures |Texts(PairsOf(texts))| == |texts|
    ensures forall i :: 0 <= i < |texts| ==> Texts(PairsOf(texts))[i] == PairAgain(texts[i])
  {
    if texts != [] {
      TextsAgain(texts[1..]);
    }
  }

  /** What is printed behind the '?' for the pairs of a text. */
  function QueryAgain(t: string): string {
    Join(Texts(PairsOf(Split(t, Is('&')))), '&')
  }

  lemma PrintedAgain(s: string)
    requires s != ""
    ensures PrintQuery(QueryOf(s)) == if Split(s[1..], Is('&')) == [] then "" else "?" + QueryAgain(s[1..])
  {
    ParsedQueryStored(s);
    if Split(s[1..], Is('&')) != [] {
      PrintedQuery(QueryOf(s));
    }
  }

  /** The text of a pair without needless marks: two words around a single '='; any other text, with
      fewer words or more, stays as it is. */
  function Tidied(t: string): string {
    var words := Split(t, Is('='));
    if |words| == 2 then words[0] + "=" + words[1] else t
  }

  lemma TidiedAgain(t: string)
    ensures PairAgain(t) == Tidied(t)
  {
    SplitTokensExact(t, Is('='));
    if |Split(t, Is('='))| == 2 {
      assert Split(t, Is('='))[1] in Split(t, Is('='));
    }
  }

  /** What printing the parsed query gives, for every string: behind the mark the texts between the '&',
      each of them tidied, with a single '&' between them. */
  lemma QueryPrints(s: string)
    requires s != ""
    ensures var parts := Split(s[1..], Is('&'));
      PrintQuery(QueryOf(s)) == if parts == [] then ""
        else "?" + Join(seq(|parts|, i requires 0 <= i < |parts| => Tidied(parts[i])), '&')
  {
    var parts := Split(s[1..], Is('&'));
    PrintedAgain(s);
    TextsAgain(parts);
    forall i | 0 <= i < |parts|
      ensures Texts(PairsOf(parts))[i] == Tidied(parts[i])
    {
      TidiedAgain(parts[i]);
    }
    assert Texts(PairsOf(parts)) == seq(|parts|, i requires 0 <= i < |parts| => Tidied(parts[i]));
  }

  lemma PairAgainChars(t: string, p: char -> bool)
    requires AllFrom(t, p, 0) && p('=')
    ensures AllFrom(PairAgain(t), p, 0)
  {
    var values := Split(t, Is('='));
    SplitChars(t, Is('='), p);
    if |values| == 2 {
      assert values[0] in values && values[1] in values;
    }
  }

  // ----- white space at the end -----

  /** Query characters, and then white space. */
  ghost predicate Tidy(s: string) {
    && (forall i :: 0 <= i < |s| ==> IsQueryChar(s[i]) || IsSpace(s[i]))
    && (forall i, j :: 0 <= i < j < |s| && IsSpace(s[i]) ==> IsSpace(s[j]))
  }

  lemma {:induction false} TidyIff(s: string)
    ensures Tidy(s) <==> AllFrom(TrimmedRight(s), IsQueryChar, 0)
  {
    if s != "" {
      var front, last := s[..|s| - 1], s[|s| - 1];
      if IsSpace(last) {
        TidyIff(front);
        TidyFront(front, last);
        assert s == front + [last];
      } else {
        if Tidy(s) {
          TidyToken(s, |s| - 1);
          assert s == front + [last];
        }
        if AllFrom(s, IsQueryChar, 0) {
          AllIsTidy(s);
        }
      }
    }
  }

  lemma TidyFront(front: string, last: char)
    requires IsSpace(last)
    ensures Tidy(front + [last]) <==> Tidy(front)
  {
    var s := front + [last];
    if Tidy(s) {
      assert forall i :: 0 <= i < |front| ==> s[i] == front[i];
    }
  }

  lemma TidySlice(s: string, from: nat, to: nat)
    requires Tidy(s) && from <= to <= |s|
    ensures Tidy(s[from..to])
  {
  }

  lemma TidyBehind(a: string, b: string)
    requires AllFrom(a, IsQueryChar, 0) && Tidy(b)
    ensures Tidy(a + b)
  {
    assert forall i :: 0 <= i < |a| ==> !IsSpace(a[i]);
  }

  /** All but the last one hold query characters alone. */
  ghost predicate LastTidy(parts: seq<string>) {
    && (forall i :: 0 <= i < |parts| - 1 ==> AllFrom(parts[i], IsQueryChar, 0))
    && (parts != [] ==> Tidy(parts[|parts| - 1]))
  }

  lemma LastTidyCons(part: string, parts: seq<string>)
    requires LastTidy(parts) && if parts == [] then Tidy(part) else AllFrom(part, IsQueryChar, 0)
    ensures LastTidy([part] + parts)
  {
  }

  /** What is in front of a character that is no white space. */
  lemma TidyToken(s: string, end: nat)
    requires Tidy(s) && end < |s| && !IsSpace(s[end])
    ensures AllFrom(s[..end], IsQueryChar, 0)
  {
    assert forall i :: 0 <= i < end && IsSpace(s[i]) ==> IsSpace(s[end]);
  }

  lemma {:induction false} SplitTidy(s: string, c: char)
    requires Tidy(s) && !IsSpace(c)
    ensures LastTidy(Split(s, Is(c)))
    decreases |s|
  {
    if s != "" {
      if s[0] == c {
        TidySlice(s, 1, |s|);
        SplitTidy(s[1..], c);
      } else {
        var end := FirstWhere(s, Is(c), 0);
        assert !Is(c)(s[0]);
        FirstWhereIsFirst(s, Is(c), 0);
        TidySlice(s, 0, end);
        TidySlice(s, end, |s|);
        SplitTidy(s[end..], c);
        if end < |s| {
          TidyToken(s, end);
          AllIsTidy(s[..end]);
        }
        LastTidyCons(s[..end], Split(s[end..], Is(c)));
      }
    }
  }

  lemma AllIsTidy(s: string)
    requires AllFrom(s, IsQueryChar, 0)
    ensures Tidy(s)
  {
    assert forall i :: 0 <= i < |s| ==> !IsSpace(s[i]);
  }

  lemma PairAgainTidy(t: string)
    requires Tidy(t)
    ensures Tidy(PairAgain(t))
  {
    var values := Split(t, Is('='));
    SplitTidy(t, '=');
    if |values| == 2 {
      assert AllFrom(values[0] + "=", IsQueryChar, 0);
      TidyBehind(values[0] + "=", values[1]);
    }
  }

  lemma {:induction false} JoinTidy(parts: seq<string>)
    requires LastTidy(parts)
    ensures Tidy(Join(parts, '&'))
  {
    if |parts| > 1 {
      LastTidyTail(parts);
      JoinTidy(parts[1..]);
      assert AllFrom(parts[0] + ['&'], IsQueryChar, 0);
      TidyBehind(parts[0] + ['&'], Join(parts[1..], '&'));
    }
  }

  lemma LastTidyTail(parts: seq<string>)
    requires LastTidy(parts) && |parts| > 1
    ensures LastTidy(parts[1..])
  {
  }

  lemma QueryAgainTidy(t: string)
    requires Tidy(t)
    ensures Tidy(QueryAgain(t))
  {
    var texts := Split(t, Is('&'));
    var again := Texts(PairsOf(texts));
    SplitTidy(t, '&');
    TextsAgain(texts);
    forall i | 0 <= i < |again|
      ensures if i < |again| - 1 then AllFrom(again[i], IsQueryChar, 0) else Tidy(again[i])
    {
      if i < |again| - 1 {
        PairAgainChars(texts[i], IsQueryChar);
      } else {
        PairAgainTidy(texts[i]);
      }
    }
    JoinTidy(again);
  }

  lemma ValidBehindMark(t: string)
    ensures ValidQuery("?" + t) <==> Tidy(t)
  {
    TrimmedRightBehind("?", t);
    TidyIff(t);
    var s := "?" + TrimmedRight(t);
    assert Trimmed("?" + t) == s;
    assert AllFrom(s, IsQueryChar, 1) <==> AllFrom(TrimmedRight(t), IsQueryChar, 0) by {
      assert s[1..] == TrimmedRight(t);
    }
  }

  /** For every string: its pairs come back from their printed form if the text behind the first
      character is tidy. */
  lemma TidyQueryComesBack(s: string, before: Query)
    requires s != "" && Tidy(s[1..])
    ensures ParseQuery(before, PrintQuery(QueryOf(s))) == (true, QueryOf(s))
  {
    ParsedQueryStored(s);
    QueryReadAgain(QueryOf(s));
    PrintedAgain(s);
    QueryAgainTidy(s[1..]);
    ValidBehindMark(QueryAgain(s[1..]));
  }

  // ----- white space in front -----

  lemma FirstTokenPrefix(t: string, n: nat, c: char)
    requires n < |t| && forall i :: 0 <= i <= n ==> t[i] != c
    ensures var parts := Split(t, Is(c)); parts != [] && |parts[0]| > n && parts[0][..n + 1] == t[..n + 1]
  {
    var end := FirstWhere(t, Is(c), 0);
    FirstWhereIsFirst(t, Is(c), 0);
    assert end < |t| ==> Is(c)(t[end]);
    assert !Is(c)(t[0]);
  }

  lemma PairAgainPrefix(t: string, n: nat)
    requires n < |t| && forall i :: 0 <= i <= n ==> t[i] != '='
    ensures |PairAgain(t)| > n && PairAgain(t)[..n + 1] == t[..n + 1]
  {
    FirstTokenPrefix(t, n, '=');
  }

  lemma JoinPrefix(parts: seq<string>, n: nat)
    requires parts != [] && n < |parts[0]|
    ensures |Join(parts, '&')| > n && Join(parts, '&')[..n + 1] == parts[0][..n + 1]
  {
  }

  /** White space and the mark behind it stay at the beginning. */
  lemma QueryAgainPrefix(t: string, n: nat)
    requires n < |t| && forall i :: 0 <= i <= n ==> t[i] != '=' && t[i] != '&'
    ensures Split(t, Is('&')) != [] && |QueryAgain(t)| > n && QueryAgain(t)[..n + 1] == t[..n + 1]
  {
    var texts := Split(t, Is('&'));
    FirstTokenPrefix(t, n, '&');
    TextsAgain(texts);
    forall i | 0 <= i <= n
      ensures texts[0][i] != '='
    {
      assert texts[0][..n + 1][i] == t[..n + 1][i];
    }
    PairAgainPrefix(texts[0], n);
    JoinPrefix(Texts(PairsOf(texts)), n);
  }

  lemma SpaceInFrontStays(t: string, n: nat)
    requires 0 < n < |t| && AllSpace(t[..n]) && t[n] == '?'
    ensures Split(t, Is('&')) != [] && !Tidy(QueryAgain(t))
  {
    forall i | 0 <= i < n
      ensures IsSpace(t[i])
    {
      assert t[..n][i] == t[i];
    }
    QueryAgainPrefix(t, n);
    var again := QueryAgain(t);
    assert again[..n + 1][0] == t[0] && again[..n + 1][n] == t[n];
  }

  /** At most one character of white space in front of the mark. */
  predicate OneSpaceInFront(s: string) {
    AllSpace(s) || !(|s| >= 2 && IsSpace(s[0]) && IsSpace(s[1]))
  }

  /** The white space of a valid query and its mark. */
  lemma QueryParts(s: string) returns (n: nat)
    requires ValidQuery(s) && !AllSpace(s)
    ensures n < |s| && AllSpace(s[..n]) && s[n] == '?' && Tidy(s[n + 1..])
  {
    var t := TrimmedLeft(s);
    var w := TrimmedLeftCuts(s);
    n := |w|;
    TrimmedRightPrefix(t);
    assert TrimmedRight(t)[0] == t[0] == s[n] && s[..n] == w;
    assert t == "?" + t[1..] && s[n + 1..] == t[1..];
    assert Trimmed(t) == Trimmed(s);
    ValidBehindMark(t[1..]);
  }

  lemma ValidQueryTidy(s: string)
    requires ValidQuery(s) && s != "" && OneSpaceInFront(s)
    ensures Tidy(s[1..])
  {
    if !AllSpace(s) {
      var n := QueryParts(s);
      assert forall i :: 0 <= i < n ==> s[..n][i] == s[i];
      assert n <= 1;
      if n == 1 {
        TidyBehind("?", s[2..]);
        assert s[1..] == "?" + s[2..];
      }
    }
  }

  lemma AllSpaceTail(w: string)
    requires AllSpace(w) && w != ""
    ensures AllSpace(w[1..])
  {
  }

  lemma ValidQueryNotTidy(s: string)
    requires ValidQuery(s) && !OneSpaceInFront(s)
    ensures s != "" && Split(s[1..], Is('&')) != [] && !Tidy(QueryAgain(s[1..]))
  {
    var n := QueryParts(s);
    assert n >= 2;
    AllSpaceTail(s[..n]);
    assert s[1..][..n - 1] == s[..n][1..];
    SpaceInFrontStays(s[1..], n - 1);
  }

  /** Printing a parsed query is a normal form, that is parsing it again gives the same pairs,
      exactly when there is at most one character of white space in front, or nothing else. */
  lemma QueryNormalForm(s: string, before: Query)
    requires ValidQuery(s)
    ensures ParseQuery(before, PrintQuery(QueryOf(s))) == (true, QueryOf(s)) <==> OneSpaceInFront(s)
  {
    if OneSpaceInFront(s) {
      if s != "" {
        ValidQueryTidy(s);
        TidyQueryComesBack(s, before);
      }
    } else {
      ValidQueryNotTidy(s);
      PrintedAgain(s);
      ValidBehindMark(QueryAgain(s[1..]));
    }
  }

  /** Two characters of white space are too many: of this query the printed form is refused. */
  lemma SpaceIsTooMuch(before: Query)
    ensures ValidQuery("  ?") && ParseQuery(before, PrintQuery(QueryOf("  ?"))) == (false, before)
  {
    SpacedMark("  ?", before);
  }

  lemma SpacedMark(s: string, before: Query)
    requires s == "  " + "?"
    ensures ValidQuery(s) && ParseQuery(before, PrintQuery(QueryOf(s))) == (false, before)
  {
    assert AllSpace("  ");
    TrimmedPrepended("  ", "?");
    TrimmedFixed("?");
    assert s[2] == '?' && !AllSpace(s);
    ValidQueryNotTidy(s);
    PrintedAgain(s);
    ValidBehindMark(QueryAgain(s[1..]));
  }
}
