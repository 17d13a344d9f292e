/** The search of `on_search`: every index entry whose name passes the
    fuzzy filter contributes one row per stored path whose `os.stat` still
    succeeds, and the rows are then stably sorted by match score, best
    first. */
module SearchEngine {
  import opened Wrappers
  import opened Text
  import opened Scorer
  import opened StableSort
  import opened FileIndex

  /** The part of an `os.stat` result the launcher shows. */
  datatype Meta = Meta(size: nat, mtime: int)

  /** One result row: the indexed name, the path and its metadata. */
  datatype Row = Row(name: string, path: string, meta: Meta)

  /** The metadata of a path at the time of the search: `None` when any
      step of the per-path `try` body raises `OSError` or
      `PermissionError`, whether `os.stat`, `format_size` or
      `datetime.fromtimestamp`. */
  type Stat = string -> Option<Meta>

  /** The rows one index entry yields: one per path that still resolves,
      in the entry's order; the others are skipped without error. */
  function EntryRows(name: string, paths: seq<string>, stat: Stat): seq<Row>
  {
    if paths == [] then []
    else
      (match stat(paths[0])
       case Some(m) => [Row(name, paths[0], m)]
       case None => [])
      + EntryRows(name, paths[1..], stat)
  }

  /** The rows one entry contributes: none unless its name passes the
      fuzzy filter. */
  function Contribution(e: Entry, query: string, stat: Stat): seq<Row>
  {
    if FuzzyHit(e.name, query) then EntryRows(e.name, e.paths, stat) else []
  }

  /** The rows before sorting, in index iteration order. */
  function Collect(idx: Index, query: string, stat: Stat): seq<Row>
  {
    if idx == [] then []
    else Contribution(idx[0], query, stat) + Collect(idx[1..], query, stat)
  }

  /** The sort key: the row name's match score against the query. */
  function Rank(query: string): Row -> int
  {
    (row: Row) => MatchScore(row.name, query)
  }

  /** `row` is owed to the search: its name is an index key the fuzzy
      filter accepts, its path is stored under that key, and `os.stat`
      of the path succeeds with its metadata. */
  ghost predicate Owed(idx: Index, query: string, stat: Stat, row: Row)
  {
    exists e :: e in idx && e.name == row.name && FuzzyHit(e.name, query)
                && row.path in e.paths && stat(row.path) == Some(row.meta)
  }

  /** The search result: exactly the owed rows, as often as the index
      yields them, sorted by score from best to worst, with rows of equal
      score in index order; every row scores at least the fuzzy tier. */
  function Search(idx: Index, query: string, stat: Stat): (r: seq<Row>)
    ensures SortedDesc(r, Rank(query))
    ensures SameKeyOrder(Collect(idx, query, stat), r, Rank(query))
    ensures multiset(r) == multiset(Collect(idx, query, stat))
    ensures forall row :: row in r <==> Owed(idx, query, stat, row)
    ensures forall row :: row in r ==> MatchScore(row.name, query) >= InOrder
  {
    var rows := Collect(idx, query, stat);
    var r := SortDesc(rows, Rank(query));
    forall row ensures row in r <==> row in rows {
      assert row in r <==> row in multiset(r);
    }
    forall row ensures row in rows <==> Owed(idx, query, stat, row) {
      CollectExactly(idx, query, stat, row);
    }
    r
  }

  lemma {:induction false} EntryRowsExactly(name: string, paths: seq<string>, stat: Stat, row: Row)
    ensures row in EntryRows(name, paths, stat) <==>
              row.name == name && row.path in paths && stat(row.path) == Some(row.meta)
    decreases |paths|
  {
    if paths != [] {
      EntryRowsExactly(name, paths[1..], stat, row);
      assert paths == [paths[0]] + paths[1..];
    }
  }

  /** Collecting keeps exactly the owed rows: a row whose path no longer
      resolves is dropped, and no other row is lost. */
  lemma {:induction false} CollectExactly(idx: Index, query: string, stat: Stat, row: Row)
    ensures row in Collect(idx, query, stat) <==> Owed(idx, query, stat, row)
    decreases |idx|
  {
    if idx != [] {
      var e := idx[0];
      EntryRowsExactly(e.name, e.paths, stat, row);
      CollectExactly(idx[1..], query, stat, row);
      assert idx == [e] + idx[1..];
      if Owed(idx, query, stat, row) {
        var e' :| e' in idx && e'.name == row.name && FuzzyHit(e'.name, query)
                  && row.path in e'.paths && stat(row.path) == Some(row.meta);
        if e' != e {
          assert e' in idx[1..];
        }
      }
    }
  }

  /** Rows of earlier index entries come before rows of later ones. */
  lemma {:induction false} CollectAppend(a: Index, b: Index, query: string, stat: Stat)
    ensures Collect(a + b, query, stat) == Collect(a, query, stat) + Collect(b, query, stat)
    decreases |a|
  {
    if a == [] {
      assert a + b == b;
    } else {
      var c := a + b;
      assert c[0] == a[0] && c[1..] == a[1..] + b;
      var head := Contribution(a[0], query, stat);
      CollectAppend(a[1..], b, query, stat);
      var x, y := Collect(a[1..], query, stat), Collect(b, query, stat);
      assert Collect(c, query, stat) == head + (x + y);
      assert head + (x + y) == (head + x) + y;
    }
  }

  /** When the collected rows are already in score order (for instance
      when they all score the same), the search returns them unchanged:
      ties keep the index order. */
  lemma {:induction false} SearchKeepsSortedRows(idx: Index, query: string, stat: Stat)
    requires SortedDesc(Collect(idx, query, stat), Rank(query))
    ensures Search(idx, query, stat) == Collect(idx, query, stat)
  {
    var rows := Collect(idx, query, stat);
    SortedUnique(rows, Search(idx, query, stat), Rank(query));
  }

  lemma EntryRowsSingle(name: string, p: string, stat: Stat)
    ensures EntryRows(name, [p], stat)
            == if stat(p).Some? then [Row(name, p, stat(p).value)] else []
  {
    assert [p][1..] == [];
  }

  lemma CollectPair(e1: Entry, e2: Entry, query: string, stat: Stat)
    ensures Collect([e1, e2], query, stat)
            == Contribution(e1, query, stat) + Contribution(e2, query, stat)
  {
    var idx := [e1, e2];
    var h2 := Contribution(e2, query, stat);
    assert idx[1..] == [e2] && [e2][1..] == [];
    assert Collect([e2], query, stat) == h2 + [];
    assert h2 + [] == h2;
  }

  /** Two names that both start with the query score the same and keep
      their index order; a path deleted since the crawl simply drops out. */
  lemma {:induction false} ReportExample(a: string, b: string, q: string, p1: string, p2: string,
                      stat: Stat, m1: Meta)
    requires a == "report.pdf" && b == "report_final.pdf" && q == "report"
    requires stat(p1) == Some(m1)
    ensures stat(p2).Some? ==>
              Search([Entry(a, [p1]), Entry(b, [p2])], q, stat)
              == [Row(a, p1, m1), Row(b, p2, stat(p2).value)]
    ensures stat(p2) == None ==>
              Search([Entry(a, [p1]), Entry(b, [p2])], q, stat) == [Row(a, p1, m1)]
  {
    PrefixExample(a, b, q);
    TwoPrefixRows(a, b, q, p1, p2, stat);
    EntryRowsSingle(a, p1, stat);
    EntryRowsSingle(b, p2, stat);
    if stat(p2) == None {
      assert EntryRows(b, [p2], stat) == [];
      assert [Row(a, p1, m1)] + [] == [Row(a, p1, m1)];
    }
  }

  /** Two entries of one path each whose names score the prefix tier
      come back in index order, less the path that no longer resolves. */
  lemma {:induction false} TwoPrefixRows(a: string, b: string, q: string, p1: string, p2: string, stat: Stat)
    requires MatchScore(a, q) == Prefix && MatchScore(b, q) == Prefix
    ensures Search([Entry(a, [p1]), Entry(b, [p2])], q, stat)
            == EntryRows(a, [p1], stat) + EntryRows(b, [p2], stat)
  {
    var idx := [Entry(a, [p1]), Entry(b, [p2])];
    CollectPair(idx[0], idx[1], q, stat);
    EntryRowsSingle(a, p1, stat);
    EntryRowsSingle(b, p2, stat);
    var rows := Collect(idx, q, stat);
    assert rows == EntryRows(a, [p1], stat) + EntryRows(b, [p2], stat);
    forall i | 0 <= i < |rows| ensures Rank(q)(rows[i]) == Prefix {
      assert rows[i].name == a || rows[i].name == b;
    }
    OneKeySorted(rows, Rank(q), Prefix);
    SearchKeepsSortedRows(idx, q, stat);
  }
}
