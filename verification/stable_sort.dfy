/** Stable sorting by an integer key, largest key first: the behaviour of
    Python's `list.sort(key=..., reverse=True)`, which keeps elements with
    equal keys in their original relative order. The sort is specified by
    two properties, and any two sequences that have both are equal, so the
    insertion sort defined here is the only possible outcome. */
module StableSort {
  import opened Seqs

  /** Keys never increase from left to right. */
  ghost predicate SortedDesc<T>(s: seq<T>, key: T -> int)
  {
    forall i, j :: 0 <= i < j < |s| ==> key(s[i]) >= key(s[j])
  }

  /** The elements of `s` whose key is `k`, in their order in `s`. */
  function KeyClass<T>(s: seq<T>, key: T -> int, k: int): (r: seq<T>)
    ensures |r| <= |s|
  {
    if s == [] then []
    else (if key(s[0]) == k then [s[0]] else []) + KeyClass(s[1..], key, k)
  }

  /** For every key, `s` and `t` hold the same elements with that key in
      the same order: `t` is a rearrangement of `s` that is stable. */
  ghost predicate SameKeyOrder<T>(s: seq<T>, t: seq<T>, key: T -> int)
  {
    forall k :: KeyClass(s, key, k) == KeyClass(t, key, k)
  }

  /** `x` placed in front of the first element whose key is not larger. */
  function InsertDesc<T>(x: T, s: seq<T>, key: T -> int): (r: seq<T>)
    ensures |r| == |s| + 1
    ensures r[0] == x || (s != [] && r[0] == s[0])
  {
    if s == [] || key(s[0]) <= key(x) then [x] + s
    else [s[0]] + InsertDesc(x, s[1..], key)
  }

  /** Insertion sort, inserting from the back so that of two elements with
      equal keys the earlier one ends up first. */
  function SortDesc<T>(s: seq<T>, key: T -> int): (r: seq<T>)
    ensures SortedDesc(r, key)
    ensures SameKeyOrder(s, r, key)
    ensures multiset(r) == multiset(s)
  {
    if s == [] then []
    else
      var t := SortDesc(s[1..], key);
      InsertKeepsOrder(s[0], t, key);
      SortStep(s, t, key);
      assert s == [s[0]] + s[1..];
      InsertDesc(s[0], t, key)
  }

  /** A sequence whose elements all share one key is already sorted. */
  lemma OneKeySorted<T>(s: seq<T>, key: T -> int, k: int)
    requires forall i :: 0 <= i < |s| ==> key(s[i]) == k
    ensures SortedDesc(s, key)
  {
  }

  lemma KeyClassCons<T>(x: T, s: seq<T>, key: T -> int, k: int)
    ensures KeyClass([x] + s, key, k) == (if key(x) == k then [x] else []) + KeyClass(s, key, k)
  {
    assert ([x] + s)[1..] == s;
  }

  lemma InsertKeepsOrder<T>(x: T, s: seq<T>, key: T -> int)
    requires SortedDesc(s, key)
    ensures SortedDesc(InsertDesc(x, s, key), key)
    ensures multiset(InsertDesc(x, s, key)) == multiset(s) + multiset{x}
    ensures SameKeyOrder(InsertDesc(x, s, key), [x] + s, key)
  {
    InsertMultiset(x, s, key);
    InsertSorted(x, s, key);
    InsertStable(x, s, key);
  }

  lemma {:induction false} InsertMultiset<T>(x: T, s: seq<T>, key: T -> int)
    ensures multiset(InsertDesc(x, s, key)) == multiset(s) + multiset{x}
    decreases |s|
  {
    if !(s == [] || key(s[0]) <= key(x)) {
      InsertMultiset(x, s[1..], key);
      assert s == [s[0]] + s[1..];
    }
  }

  lemma {:induction false} InsertSorted<T>(x: T, s: seq<T>, key: T -> int)
    requires SortedDesc(s, key)
    ensures SortedDesc(InsertDesc(x, s, key), key)
    decreases |s|
  {
    if s == [] || key(s[0]) <= key(x) {
      ConsSorted(x, s, key);
    } else {
      var t := InsertDesc(x, s[1..], key);
      InsertSorted(x, s[1..], key);
      assert s[1..] != [] ==> key(s[1]) <= key(s[0]);
      ConsSorted(s[0], t, key);
    }
  }

  /** Putting an element in front of a sorted sequence keeps it sorted
      when its key is at least that of the old first element. */
  lemma ConsSorted<T>(a: T, t: seq<T>, key: T -> int)
    requires SortedDesc(t, key)
    requires t == [] || key(a) >= key(t[0])
    ensures SortedDesc([a] + t, key)
  {
    var r := [a] + t;
    forall i, j | 0 <= i < j < |r| ensures key(r[i]) >= key(r[j]) {
      assert r[j] == t[j - 1];
      if i > 0 {
        assert r[i] == t[i - 1];
      } else if j > 1 {
        assert key(t[0]) >= key(t[j - 1]);
      }
    }
  }

  lemma {:induction false} InsertStable<T>(x: T, s: seq<T>, key: T -> int)
    ensures SameKeyOrder(InsertDesc(x, s, key), [x] + s, key)
    decreases |s|
  {
    if !(s == [] || key(s[0]) <= key(x)) {
      var t := InsertDesc(x, s[1..], key);
      InsertStable(x, s[1..], key);
      assert InsertDesc(x, s, key) == [s[0]] + t;
      forall k ensures KeyClass([s[0]] + t, key, k) == KeyClass([x] + s, key, k) {
        InsertStableStep(x, s, t, key, k);
      }
    }
  }

  lemma InsertStableStep<T>(x: T, s: seq<T>, t: seq<T>, key: T -> int, k: int)
    requires s != [] && key(s[0]) > key(x)
    requires KeyClass(t, key, k) == KeyClass([x] + s[1..], key, k)
    ensures KeyClass([s[0]] + t, key, k) == KeyClass([x] + s, key, k)
  {
    var hx := if key(x) == k then [x] else [];
    var h0 := if key(s[0]) == k then [s[0]] else [];
    KeyClassCons(s[0], t, key, k);
    KeyClassCons(x, s[1..], key, k);
    KeyClassCons(x, s, key, k);
    KeyClassCons(s[0], s[1..], key, k);
    assert s == [s[0]] + s[1..];
    SwapDisjointHeads(h0, hx, KeyClass(s[1..], key, k));
  }

  lemma SortStep<T>(s: seq<T>, t: seq<T>, key: T -> int)
    requires s != [] && SameKeyOrder(s[1..], t, key)
    requires SameKeyOrder(InsertDesc(s[0], t, key), [s[0]] + t, key)
    ensures SameKeyOrder(s, InsertDesc(s[0], t, key), key)
  {
    forall k ensures KeyClass(s, key, k) == KeyClass(InsertDesc(s[0], t, key), key, k) {
      KeyClassCons(s[0], t, key, k);
      KeyClassCons(s[0], s[1..], key, k);
      assert s == [s[0]] + s[1..];
    }
  }

  lemma {:induction false} KeyClassFirst<T>(s: seq<T>, key: T -> int, k: int)
    requires KeyClass(s, key, k) != []
    ensures KeyClass(s, key, k)[0] in s && key(KeyClass(s, key, k)[0]) == k
    decreases |s|
  {
    if key(s[0]) != k {
      KeyClassFirst(s[1..], key, k);
    }
  }

  lemma KeyClassHead<T>(s: seq<T>, key: T -> int)
    requires s != []
    ensures KeyClass(s, key, key(s[0])) != []
    ensures KeyClass(s, key, key(s[0]))[0] == s[0]
  {
  }

  /** A stable descending rearrangement is unique: any two sequences that
      are sorted by key, largest first, and keep every key's elements in
      the same order are the same sequence. */
  lemma {:induction false} SortedUnique<T>(a: seq<T>, b: seq<T>, key: T -> int)
    requires SortedDesc(a, key) && SortedDesc(b, key)
    requires SameKeyOrder(a, b, key)
    ensures a == b
    decreases |a|
  {
    EmptyTogether(a, b, key);
    if a != [] {
      HeadsAgree(a, b, key);
      TailsAgree(a, b, key);
      SortedUnique(a[1..], b[1..], key);
      assert a == [a[0]] + a[1..] && b == [b[0]] + b[1..];
    }
  }

  lemma EmptyTogether<T>(a: seq<T>, b: seq<T>, key: T -> int)
    requires SameKeyOrder(a, b, key)
    ensures a == [] <==> b == []
  {
    if a != [] {
      KeyClassHead(a, key);
      assert KeyClass(b, key, key(a[0])) != [];
    }
    if b != [] {
      KeyClassHead(b, key);
      assert KeyClass(a, key, key(b[0])) != [];
    }
  }

  /** Both sequences start with an element of the largest key, and it is
      the first element of that key in either. */
  lemma HeadsAgree<T>(a: seq<T>, b: seq<T>, key: T -> int)
    requires a != [] && b != []
    requires SortedDesc(a, key) && SortedDesc(b, key)
    requires SameKeyOrder(a, b, key)
    ensures a[0] == b[0]
  {
    var ka, kb := key(a[0]), key(b[0]);
    KeyClassHead(a, key);
    KeyClassHead(b, key);
    assert KeyClass(b, key, ka) != [] && KeyClass(a, key, kb) != [];
    KeyClassFirst(b, key, ka);
    KeyClassFirst(a, key, kb);
    assert ka <= kb && kb <= ka;
  }

  lemma TailsAgree<T>(a: seq<T>, b: seq<T>, key: T -> int)
    requires a != [] && b != [] && a[0] == b[0]
    requires SameKeyOrder(a, b, key)
    ensures SameKeyOrder(a[1..], b[1..], key)
  {
    forall k ensures KeyClass(a[1..], key, k) == KeyClass(b[1..], key, k) {
      KeyClassCons(a[0], a[1..], key, k);
      KeyClassCons(b[0], b[1..], key, k);
      assert a == [a[0]] + a[1..] && b == [b[0]] + b[1..];
      var h := if key(a[0]) == k then [a[0]] else [];
      assert h + KeyClass(a[1..], key, k) == h + KeyClass(b[1..], key, k);
      assert KeyClass(a[1..], key, k) == (h + KeyClass(a[1..], key, k))[|h|..];
      assert KeyClass(b[1..], key, k) == (h + KeyClass(b[1..], key, k))[|h|..];
    }
  }
}
