/** `match_score`: how well a file name matches a query, in five tiers
    checked from the most to the least specific; the first tier that
    applies decides. */
module Scorer {
  import opened Text
  import opened Fuzzy

  const Exact := 100
  const Prefix := 80
  const Contains := 60
  const InOrder := 40
  const NoMatch := 0

  /** The inclusion filter of the search: the query's pattern, compiled
      with IGNORECASE, is found somewhere in the name. */
  predicate FuzzyHit(name: string, query: string)
  {
    PatternFound(Lower(name), Lower(query))
  }

  /** The score is one of the five tier values, and it is positive exactly
      for the names the inclusion filter lets through. */
  function MatchScore(name: string, query: string): (r: int)
    ensures r in {NoMatch, InOrder, Contains, Prefix, Exact}
    ensures r > NoMatch <==> FuzzyHit(name, query)
  {
    var n := Lower(name);
    var l := Lower(query);
    if n == l then
      InfixFound(l, n);
      Exact
    else if l <= n then
      InfixFound(l, n);
      Prefix
    else if IsInfix(l, n) then
      InfixFound(l, n);
      Contains
    else if PatternFound(n, l) then InOrder
    else NoMatch
  }

  /** What each tier means, compared case-insensitively: 100 for equal
      names, 80 for a proper prefix, 60 for an occurrence anywhere but at
      the start, 40 for a pattern hit with no contiguous occurrence, 0 when
      the pattern is not found at all. */
  lemma {:induction false} ScoreTiers(name: string, query: string)
    ensures var n, l, r := Lower(name), Lower(query), MatchScore(name, query);
            && (r == Exact <==> n == l)
            && (r == Prefix <==> l < n)
            && (r == Contains <==> !(l <= n) && exists i :: OccursAt(l, n, i))
            && (r == InOrder <==> PatternFound(n, l) && !exists i :: OccursAt(l, n, i))
            && (r == NoMatch <==> !PatternFound(n, l))
  {
    var n, l := Lower(name), Lower(query);
    IsInfixIffOccurs(l, n);
    if l <= n {
      assert IsInfix(l, n);
    }
  }

  /** For a name without line feeds the fuzzy tier is the subsequence
      test: the score is at least 40 exactly when the query's characters
      occur in the name in order, and exactly 40 when they do so without
      forming a contiguous run. */
  lemma ScoreOnSingleLine(name: string, query: string)
    requires '\n' !in name
    ensures var n, l, r := Lower(name), Lower(query), MatchScore(name, query);
            && (r >= InOrder <==> IsSubsequence(l, n))
            && (r == InOrder <==> IsSubsequence(l, n) && !exists i :: OccursAt(l, n, i))
  {
    var n, l := Lower(name), Lower(query);
    LowerKeepsNewlines(name);
    FoundIffSubsequence(n, l);
    ScoreTiers(name, query);
  }

  /** A query holding a character the name lacks, ignoring case, scores
      nothing, whatever the order of the other characters. */
  lemma MissingCharScoresNothing(name: string, query: string, c: char)
    requires c in Lower(query) && c !in Lower(name)
    ensures MatchScore(name, query) == NoMatch
  {
    var n, l := Lower(name), Lower(query);
    if PatternFound(n, l) {
      FoundIsSubsequence(n, l);
      var i :| 0 <= i < |l| && l[i] == c;
      SubsequenceChars(l, n, i);
    }
  }

  /** On a single line, a query that occurs in order but never as one
      run scores exactly the fuzzy tier. */
  lemma ScatteredScoresInOrder(name: string, query: string)
    requires '\n' !in name
    requires IsSubsequence(Lower(query), Lower(name))
    requires !exists i :: OccursAt(Lower(query), Lower(name), i)
    ensures MatchScore(name, query) == InOrder
  {
    ScoreOnSingleLine(name, query);
  }

  /** A query that is a proper prefix of the name, ignoring case, scores
      the prefix tier. */
  lemma {:induction false} ProperPrefixScores(name: string, query: string)
    requires Lower(query) < Lower(name)
    ensures MatchScore(name, query) == Prefix
  {
    ScoreTiers(name, query);
  }

  /** Two names that both start with the query tie at the prefix tier. */
  lemma {:induction false} PrefixExample(a: string, b: string, q: string)
    requires a == "report.pdf" && b == "report_final.pdf" && q == "report"
    ensures MatchScore(a, q) == Prefix && MatchScore(b, q) == Prefix
  {
    PrefixExampleLower(a, b, q);
    ProperPrefixScores(a, q);
    ProperPrefixScores(b, q);
  }

  lemma PrefixExampleLower(a: string, b: string, q: string)
    requires a == "report.pdf" && b == "report_final.pdf" && q == "report"
    ensures Lower(q) < Lower(a) && Lower(q) < Lower(b)
  {
    assert q < a && q < b;
    LowerKeepsPrefix(q, a);
    LowerKeepsPrefix(q, b);
  }

  /** A query whose characters are scattered through the name. */
  lemma ScatteredExample(n: string, q: string)
    requires n == "report.pdf" && q == "rpt"
    ensures MatchScore(n, q) == InOrder
  {
    LowerOfLower(n);
    LowerOfLower(q);
    ScatteredInOrder(n, q);
    ScatteredNotContiguous(n, q);
    ScatteredScoresInOrder(n, q);
  }

  lemma ScatteredInOrder(n: string, q: string)
    requires n == "report.pdf" && q == "rpt"
    ensures IsSubsequence(q, n)
  {
    assert IsSubsequence(q[2..], n[5..]);
    assert IsSubsequence(q[2..], n[3..]);
    assert IsSubsequence(q[1..], n[2..]);
  }

  lemma ScatteredNotContiguous(n: string, q: string)
    requires n == "report.pdf" && q == "rpt"
    ensures '\n' !in n
    ensures !exists i :: OccursAt(q, n, i)
  {
    forall i ensures !OccursAt(q, n, i) {
      if 0 <= i && i + 3 <= |n| {
        assert n[i..i + 3][0] == n[i] && n[i..i + 3][1] == n[i + 1];
      }
    }
  }

  /** A query with a character the name lacks scores nothing. */
  lemma AbsentExample(n: string, q: string)
    requires n == "report.pdf" && q == "xyz"
    ensures MatchScore(n, q) == NoMatch
  {
    assert Lower(q)[0] == 'x';
    forall i | 0 <= i < |n| ensures Lower(n)[i] != 'x' {
      assert n[i] != 'x' && n[i] != 'X';
    }
    MissingCharScoresNothing(n, q, 'x');
  }
}
