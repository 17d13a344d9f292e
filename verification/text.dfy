/** Character and string helpers with the meaning Python gives them in the
    launcher: `str.lower`, `str.strip`, `str.startswith`, the `in` operator
    on strings and `os.path.splitext`. */
module Text {

  /** Case folding of one character. Only the ASCII letters are folded. */
  function LowerChar(c: char): char
  {
    if 'A' <= c <= 'Z' then (c as int + 32) as char else c
  }

  /** `s.lower()`, one character at a time. */
  function Lower(s: string): (r: string)
    ensures |r| == |s|
    ensures forall i :: 0 <= i < |s| ==> r[i] == LowerChar(s[i])
  {
    if s == [] then [] else [LowerChar(s[0])] + Lower(s[1..])
  }

  /** A string without upper-case letters is its own lower-case form. */
  lemma LowerOfLower(s: string)
    requires forall i :: 0 <= i < |s| ==> !('A' <= s[i] <= 'Z')
    ensures Lower(s) == s
  {
  }

  /** Case folding keeps a proper prefix a proper prefix. */
  lemma LowerKeepsPrefix(p: string, s: string)
    requires p < s
    ensures Lower(p) < Lower(s)
  {
    assert forall i :: 0 <= i < |p| ==> Lower(p)[i] == Lower(s)[i];
  }

  lemma LowerKeepsNewlines(s: string)
    ensures '\n' in Lower(s) <==> '\n' in s
  {
    var r := Lower(s);
    if '\n' in r {
      var i :| 0 <= i < |r| && r[i] == '\n';
      assert s[i] == '\n';
    }
    if '\n' in s {
      var i :| 0 <= i < |s| && s[i] == '\n';
      assert r[i] == '\n';
    }
  }

  /** The characters Python's `str.isspace` accepts, which are the ones
      `str.strip()` removes when called without arguments. */
  predicate IsSpace(c: char)
  {
    || c == ' '
    || '\t' <= c <= '\r'
    || '\U{1C}' <= c <= '\U{1F}'
    || c == '\U{85}'
    || c == '\U{A0}'
    || c == '\U{1680}'
    || '\U{2000}' <= c <= '\U{200A}'
    || c == '\U{2028}'
    || c == '\U{2029}'
    || c == '\U{202F}'
    || c == '\U{205F}'
    || c == '\U{3000}'
  }

  predicate AllSpace(s: string)
  {
    forall i :: 0 <= i < |s| ==> IsSpace(s[i])
  }

  /** The first position at or after `from` that holds no white space,
      or `|s|`. */
  function SkipSpaces(s: string, from: nat): (n: nat)
    requires from <= |s|
    ensures from <= n <= |s|
    ensures forall k :: from <= k < n ==> IsSpace(s[k])
    ensures n == |s| || !IsSpace(s[n])
    decreases |s| - from
  {
    if from < |s| && IsSpace(s[from]) then SkipSpaces(s, from + 1) else from
  }

  /** The end of `s[lo..hi]` once its trailing white space is cut off. */
  function SkipSpacesBack(s: string, lo: nat, hi: nat): (n: nat)
    requires lo <= hi <= |s|
    ensures lo <= n <= hi
    ensures forall k :: n <= k < hi ==> IsSpace(s[k])
    ensures n == lo || !IsSpace(s[n - 1])
    decreases hi
  {
    if lo < hi && IsSpace(s[hi - 1]) then SkipSpacesBack(s, lo, hi - 1) else hi
  }

  /** `s` is `r` with only white space before it (the first `i`
      characters) and after it. */
  ghost predicate PaddedAt(s: string, r: string, i: int)
  {
    && 0 <= i <= |s| - |r|
    && r == s[i..i + |r|]
    && (forall k :: 0 <= k < i ==> IsSpace(s[k]))
    && (forall k :: i + |r| <= k < |s| ==> IsSpace(s[k]))
  }

  /** `s.strip()`: the longest slice of `s` that neither starts nor ends
      with white space; everything cut off on either side is white space. */
  function Strip(s: string): (r: string)
    ensures r == [] <==> AllSpace(s)
    ensures r != [] ==> !IsSpace(r[0]) && !IsSpace(r[|r| - 1])
    ensures exists i :: PaddedAt(s, r, i)
  {
    var i := SkipSpaces(s, 0);
    var j := SkipSpacesBack(s, i, |s|);
    assert PaddedAt(s, s[i..j], i);
    s[i..j]
  }

  /** Python's `p in s` for strings: `p` occurs contiguously in `s`. */
  predicate IsInfix(p: string, s: string)
  {
    p <= s || (|s| > 0 && IsInfix(p, s[1..]))
  }

  ghost predicate OccursAt(p: string, s: string, i: int)
  {
    0 <= i && i + |p| <= |s| && s[i..i + |p|] == p
  }

  /** The contiguous-occurrence test means what it says: some window of
      `s` equals `p`. */
  lemma {:induction false} IsInfixIffOccurs(p: string, s: string)
    ensures IsInfix(p, s) <==> exists i :: OccursAt(p, s, i)
  {
    if p <= s {
      assert OccursAt(p, s, 0);
    } else if |s| == 0 {
    } else {
      IsInfixIffOccurs(p, s[1..]);
      if IsInfix(p, s[1..]) {
        var i :| OccursAt(p, s[1..], i);
        assert s[1..][i..i + |p|] == s[i + 1..i + 1 + |p|];
        assert OccursAt(p, s, i + 1);
      }
      if exists i :: OccursAt(p, s, i) {
        var i :| OccursAt(p, s, i);
        assert i != 0;
        assert s[1..][i - 1..i - 1 + |p|] == s[i..i + |p|];
        assert OccursAt(p, s[1..], i - 1);
      }
    }
  }

  /** Index of the last occurrence of `c` in `s`, or -1 (`str.rfind`). */
  function LastIndexOf(s: string, c: char): (r: int)
    ensures -1 <= r < |s|
    ensures r >= 0 ==> s[r] == c
    ensures forall k :: r < k < |s| ==> s[k] != c
  {
    if s == [] then -1
    else if s[|s| - 1] == c then |s| - 1
    else LastIndexOf(s[..|s| - 1], c)
  }

  /** The extension part of `os.path.splitext(name)` for a base name (one
      that holds no path separator): from the last dot to the end, unless
      every character before that dot is itself a dot, in which case there
      is no extension (".bashrc" and "..x" have none, "a.tar.gz" has ".gz"). */
  function Extension(name: string): (ext: string)
    ensures ext == [] <==>
              !exists d, k :: 0 <= k < d < |name| && name[d] == '.' && name[k] != '.'
    ensures |ext| <= |name|
    ensures ext != [] ==> ext[0] == '.' && ext == name[|name| - |ext|..]
                          && forall k :: 1 <= k < |ext| ==> ext[k] != '.'
  {
    var d := LastIndexOf(name, '.');
    if d >= 0 && exists k :: 0 <= k < d && name[k] != '.' then name[d..] else []
  }
}
