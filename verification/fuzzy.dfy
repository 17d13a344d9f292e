/** The fuzzy inclusion test of the launcher. A query `q` is turned into the
    regular expression `q0.*?q1.*?...` (every character escaped, so each one
    stands for itself) and searched for in a candidate name. This module
    states what that search decides without any regular-expression engine,
    and relates it to the plain in-order subsequence test. Both strings are
    taken as already case-folded. */
module Fuzzy {
  import opened Text

  /** In-order subsequence, decided greedily: each character of `q` is
      matched with the earliest remaining character of `t` equal to it. */
  predicate IsSubsequence(q: string, t: string)
    decreases |t|
  {
    if q == [] then true
    else if t == [] then false
    else if t[0] == q[0] then IsSubsequence(q[1..], t[1..])
    else IsSubsequence(q, t[1..])
  }

  /** The pattern matched at the very start of `s`: the first character of
      `s` is `q[0]` and the rest of the pattern matches after it. */
  predicate MatchHere(s: string, q: string)
    decreases |s|, 0
  {
    q == [] || (|s| > 0 && s[0] == q[0] && MatchAfterGap(s[1..], q[1..]))
  }

  /** The pattern `.*?q0.*?q1...` matched at the start of `s`: some
      characters may be skipped first, but `.` does not match a line feed,
      so the skipped run holds no '\n'. */
  predicate MatchAfterGap(s: string, q: string)
    decreases |s|, 1
  {
    q == [] || MatchHere(s, q) || (|s| > 0 && s[0] != '\n' && MatchAfterGap(s[1..], q))
  }

  /** `re.search`: the pattern matches starting at some position of `t`,
      the end of `t` included. */
  predicate PatternFound(t: string, q: string)
    decreases |t|
  {
    MatchHere(t, q) || (|t| > 0 && PatternFound(t[1..], q))
  }

  lemma {:induction false} SubsequenceDropFirst(q: string, t: string)
    requires q != [] && IsSubsequence(q, t)
    ensures IsSubsequence(q[1..], t)
    decreases |t|
  {
    if q[1..] != [] {
      if t[0] != q[0] {
        SubsequenceDropFirst(q, t[1..]);
      }
      if t[0] == q[1] {
        SubsequenceDropFirst(q[1..], t[1..]);
      }
    }
  }

  lemma {:induction false} SubsequenceHeadOccurs(q: string, t: string)
    requires q != [] && IsSubsequence(q, t)
    ensures q[0] in t
    decreases |t|
  {
    if t[0] != q[0] {
      SubsequenceHeadOccurs(q, t[1..]);
    }
  }

  /** Every character of a subsequence occurs in the text. */
  lemma {:induction false} SubsequenceChars(q: string, t: string, i: int)
    requires IsSubsequence(q, t) && 0 <= i < |q|
    ensures q[i] in t
    decreases i
  {
    if i == 0 {
      SubsequenceHeadOccurs(q, t);
    } else {
      SubsequenceDropFirst(q, t);
      SubsequenceChars(q[1..], t, i - 1);
    }
  }

  /** Putting any character in front of the text keeps a subsequence one. */
  lemma {:induction false} SubsequenceExtend(c: char, q: string, t: string)
    requires IsSubsequence(q, t)
    ensures IsSubsequence(q, [c] + t)
  {
    assert ([c] + t)[1..] == t;
    if q != [] && c == q[0] {
      SubsequenceDropFirst(q, t);
    }
  }

  lemma {:induction false} MatchHereIsSubsequence(s: string, q: string)
    requires MatchHere(s, q)
    ensures IsSubsequence(q, s)
    decreases |s|, 0
  {
    if q != [] {
      MatchAfterGapIsSubsequence(s[1..], q[1..]);
    }
  }

  lemma {:induction false} MatchAfterGapIsSubsequence(s: string, q: string)
    requires MatchAfterGap(s, q)
    ensures IsSubsequence(q, s)
    decreases |s|, 1
  {
    if q == [] {
    } else if MatchHere(s, q) {
      MatchHereIsSubsequence(s, q);
    } else {
      MatchAfterGapIsSubsequence(s[1..], q);
      SubsequenceExtend(s[0], q, s[1..]);
      assert [s[0]] + s[1..] == s;
    }
  }

  /** Whatever the pattern finds, the query is a subsequence of the text. */
  lemma {:induction false} FoundIsSubsequence(t: string, q: string)
    requires PatternFound(t, q)
    ensures IsSubsequence(q, t)
    decreases |t|
  {
    if MatchHere(t, q) {
      MatchHereIsSubsequence(t, q);
    } else {
      FoundIsSubsequence(t[1..], q);
      SubsequenceExtend(t[0], q, t[1..]);
      assert [t[0]] + t[1..] == t;
    }
  }

  lemma {:induction false} SubsequenceMatchesAfterGap(q: string, t: string)
    requires IsSubsequence(q, t) && '\n' !in t
    ensures MatchAfterGap(t, q)
    decreases |t|
  {
    if q != [] {
      assert '\n' !in t[1..];
      if t[0] == q[0] {
        SubsequenceMatchesAfterGap(q[1..], t[1..]);
        assert MatchHere(t, q);
      } else {
        SubsequenceMatchesAfterGap(q, t[1..]);
      }
    }
  }

  lemma {:induction false} MatchAfterGapFound(t: string, q: string)
    requires MatchAfterGap(t, q)
    ensures PatternFound(t, q)
    decreases |t|
  {
    if !MatchHere(t, q) {
      MatchAfterGapFound(t[1..], q);
    }
  }

  /** On a name without line feeds the pattern search is exactly the
      subsequence test. */
  lemma FoundIffSubsequence(t: string, q: string)
    requires '\n' !in t
    ensures PatternFound(t, q) <==> IsSubsequence(q, t)
  {
    if PatternFound(t, q) {
      FoundIsSubsequence(t, q);
    }
    if IsSubsequence(q, t) {
      SubsequenceMatchesAfterGap(q, t);
      MatchAfterGapFound(t, q);
    }
  }

  /** A line feed between two query characters defeats the pattern even
      though the query is still a subsequence of the name. */
  lemma {:induction false} NewlineBreaksPattern(t: string, q: string)
    requires t == "a\nb" && q == "ab"
    ensures IsSubsequence(q, t)
    ensures !PatternFound(t, q)
  {
    var t1, t2 := t[1..], t[1..][1..];
    assert t2 == q[1..] && t2[1..] == [] && q[1..][1..] == [];
    assert IsSubsequence(q[1..], t2);
    assert !MatchHere(t1, q[1..]) && t1[0] == '\n';
    assert !MatchAfterGap(t1, q[1..]);
    assert !PatternFound(t2[1..], q);
    assert !MatchHere(t2, q);
    assert !PatternFound(t2, q);
    assert !MatchHere(t1, q);
    assert !PatternFound(t1, q);
  }

  lemma {:induction false} PrefixMatchesHere(q: string, s: string)
    requires q <= s
    ensures MatchHere(s, q)
    decreases |s|
  {
    if q != [] {
      assert q[1..] <= s[1..];
      PrefixMatchesHere(q[1..], s[1..]);
    }
  }

  /** A contiguous occurrence is always found by the pattern. */
  lemma {:induction false} InfixFound(q: string, t: string)
    requires IsInfix(q, t)
    ensures PatternFound(t, q)
    decreases |t|
  {
    if q <= t {
      PrefixMatchesHere(q, t);
    } else {
      InfixFound(q, t[1..]);
    }
  }
}
