/** The search history: past queries, most recent last, at most
    `MaxHistory` of them. */
module History {
  import opened Seqs

  const MaxHistory: nat := 20

  /** `h.remove(q)`: drops the first occurrence of `q` only. */
  function RemoveFirst(h: seq<string>, q: string): seq<string>
  {
    if h == [] then []
    else if h[0] == q then h[1..]
    else [h[0]] + RemoveFirst(h[1..], q)
  }

  /** Every occurrence of `q` removed, the rest in order. */
  function Without(h: seq<string>, q: string): (r: seq<string>)
    ensures q !in r
    ensures forall x :: x in r <==> x in h && x != q
  {
    if h == [] then []
    else (if h[0] == q then [] else [h[0]]) + Without(h[1..], q)
  }

  /** The history update at the start of a search: an existing equal entry
      is removed, the query is appended, and only the newest `MaxHistory`
      entries are kept. */
  function Record(h: seq<string>, q: string): (r: seq<string>)
    ensures 0 < |r| <= MaxHistory && r[|r| - 1] == q
    ensures q in h ==> |r| <= |h|
    ensures |r| == if q in h then Min(|h|, MaxHistory) else Min(|h| + 1, MaxHistory)
    ensures forall x :: x in r && x != q ==> x in h
  {
    RemoveFirstFacts(h, q);
    Newest(RemoveFirst(h, q) + [q], MaxHistory)
  }

  /** `s[-n:]` for a positive `n`: the last `n` elements, or all of `s`. */
  function Newest(s: seq<string>, n: nat): seq<string>
  {
    if |s| > n then s[|s| - n..] else s
  }

  function Min(a: int, b: int): int
  {
    if a < b then a else b
  }

  lemma {:induction false} RemoveFirstFacts(h: seq<string>, q: string)
    ensures |RemoveFirst(h, q)| == if q in h then |h| - 1 else |h|
    ensures forall x :: x in RemoveFirst(h, q) ==> x in h
    decreases |h|
  {
    if h != [] && h[0] != q {
      RemoveFirstFacts(h[1..], q);
      assert h == [h[0]] + h[1..];
    }
  }

  /** On a history without repeats, removing the first occurrence removes
      them all. */
  lemma {:induction false} RemoveFirstIsWithout(h: seq<string>, q: string)
    requires Distinct(h)
    ensures RemoveFirst(h, q) == Without(h, q)
    decreases |h|
  {
    if h != [] {
      RemoveFirstIsWithout(h[1..], q);
      if h[0] == q {
        assert q !in h[1..];
        WithoutAbsent(h[1..], q);
      }
    }
  }

  lemma {:induction false} WithoutAbsent(h: seq<string>, q: string)
    requires q !in h
    ensures Without(h, q) == h
    decreases |h|
  {
    if h != [] {
      WithoutAbsent(h[1..], q);
    }
  }

  lemma {:induction false} WithoutDistinct(h: seq<string>, q: string)
    requires Distinct(h)
    ensures Distinct(Without(h, q))
    decreases |h|
  {
    if h != [] {
      WithoutDistinct(h[1..], q);
      var rest := Without(h[1..], q);
      assert h[0] !in h[1..];
      assert h[0] !in rest;
    }
  }

  /** Recording a query into a history without repeats: the result has no
      repeats, the query appears once, at the end, and what precedes it is
      the newest part of the old history with the query taken out. */
  lemma RecordWithoutRepeats(h: seq<string>, q: string)
    requires Distinct(h)
    ensures var r, w := Record(h, q), Without(h, q);
            && Distinct(r)
            && (forall i :: 0 <= i < |r| - 1 ==> r[i] != q)
            && |r| == Min(|w| + 1, MaxHistory)
            && r[..|r| - 1] == w[|w| - (|r| - 1)..]
  {
    RecordIsNewest(h, q);
    WithoutDistinct(h, q);
    NewestWithQuery(Without(h, q), q, Record(h, q));
  }

  lemma {:induction false} RecordIsNewest(h: seq<string>, q: string)
    requires Distinct(h)
    ensures Record(h, q) == Newest(Without(h, q) + [q], MaxHistory)
  {
    RemoveFirstIsWithout(h, q);
  }

  lemma NewestWithQuery(w: seq<string>, q: string, r: seq<string>)
    requires Distinct(w) && q !in w
    requires r == Newest(w + [q], MaxHistory)
    ensures Distinct(r)
    ensures forall i :: 0 <= i < |r| - 1 ==> r[i] != q
    ensures |r| == Min(|w| + 1, MaxHistory)
    ensures r[..|r| - 1] == w[|w| - (|r| - 1)..]
  {
    var kept := w + [q];
    var off := |kept| - |r|;
    assert forall i :: 0 <= i < |r| ==> r[i] == kept[i + off];
    assert r[..|r| - 1] == w[off..];
    forall i, j | 0 <= i < j < |r| ensures r[i] != r[j] {
      if j < |r| - 1 {
        assert r[i] == w[i + off] && r[j] == w[j + off];
      } else {
        assert r[i] == w[i + off] && w[i + off] in w;
      }
    }
    forall i | 0 <= i < |r| - 1 ensures r[i] != q {
      assert r[i] == w[i + off] && w[i + off] in w;
    }
  }
}
