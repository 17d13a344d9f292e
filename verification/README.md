# File launcher search core, in Dafny

A model of the search core of a desktop file launcher, `file_launcher.py`.
The launcher crawls every volume once into an index from base name to full
paths. It then answers queries typed into a search box. The modelled core:

- **Crawl.** `build_index` walks each volume top-down. It prunes excluded
  and hidden directories before descending. It skips files by extension
  and files whose size is unreadable or above 100 MiB. Every other file is
  appended to the list stored under its base name.
- **Fuzzy filter.** A query `q` becomes the regular expression
  `q0.*?q1.*?…` with every character escaped. It is compiled
  case-insensitively and searched for in each indexed name.
- **`match_score`.** Five tiers: 100 for an equal name, 80 for a prefix,
  60 for a contiguous occurrence, 40 for a fuzzy hit, 0 otherwise. Names
  are compared in lower case.
- **`on_search`.**
  - The query is stripped; an empty query does nothing.
  - The query becomes the newest history entry. A previous equal entry is
    removed, and only the newest 20 entries are kept.
  - The fuzzy filter yields one row per stored path that `os.stat` still
    resolves.
  - The rows are sorted by score, best first, with Python's stable sort.
- **`clear_history`** empties the history.
- **`format_size`** divides by 1024 while the size is at least 1024 and a
  larger unit remains.

The modules:

| module | models |
|---|---|
| `Seqs` | general sequence facts: distinct elements, mapping, membership |
| `Text` | `str.lower`, `str.strip`, `in` on strings, `os.path.splitext` |
| `Fuzzy` | the escaped lazy-gap pattern and `re.search`, without a regex engine |
| `Scorer` | `match_score` |
| `StableSort` | `list.sort(key=…, reverse=True)` |
| `FileIndex` | the index dictionary: distinct keys, insertion order, path lists |
| `Crawler` | `os.walk` with pruning, the file filters, `build_index` |
| `SearchEngine` | row collection and ranking in `on_search` |
| `History` | the history update and its bound |
| `SizeFormat` | the unit loop of `format_size` |
| `Launcher` | `on_search` and `clear_history` as state transitions |

How the environment appears in the model:

- **Directory tree.** The file system is a `Dir` tree given as a parameter.
  A directory whose listing fails is `Unlisted`, and `os.walk` skips it.
- **File sizes.** `os.path.getsize` is the `Option` size stored with each
  file. `None` means it raised.
- **Per-path metadata.** At search time it is a function parameter
  `string -> Option<Meta>`. `None` stands for the whole per-path `try`
  body failing with `OSError` or `PermissionError`: `os.stat`,
  `format_size` or `datetime.fromtimestamp`.

Deviations from the code and its documentation:

- **Line feeds in names.** In the pattern, `.` does not match a line feed,
  because the pattern is compiled without DOTALL. So the filter equals the
  "characters in order" subsequence test only for names without a line
  feed. `Fuzzy.FoundIffSubsequence` proves the equivalence for such names.
  `Fuzzy.NewlineBreaksPattern` shows a name containing a line feed that
  the subsequence test accepts and the pattern rejects. The model follows
  the pattern.
- **Duplicate history entries.** `list.remove` drops only the first equal
  entry. A history loaded from disk may hold repeats, and the model keeps
  that behaviour. "The query appears once" is proved only for a history
  without repeats (`History.RecordWithoutRepeats`).

## Model

| member | source | states |
|---|---|---|
| Text.Strip | file_launcher.py:259-261 | the stripped query is empty exactly when the box holds only white space; otherwise it starts and ends with a non-space character, and everything cut off on either side is white space |
| Text.IsInfixIffOccurs | file_launcher.py:314 | `query in name` holds exactly when some window of the name equals the query |
| Text.Extension | file_launcher.py:229 | the extension is empty exactly when no dot follows a non-dot character; otherwise it is the suffix from the last dot, starting with a dot and holding no other dot |
| Fuzzy.FoundIsSubsequence | file_launcher.py:278-282 | whenever the pattern is found in a name, the query's characters occur in the name in order |
| Fuzzy.FoundIffSubsequence | file_launcher.py:278-282 | on a name without a line feed, the pattern is found exactly when the query is an in-order subsequence of the name |
| Fuzzy.NewlineBreaksPattern | file_launcher.py:318-319 | the name "a\nb" holds "ab" in order, yet the pattern is not found, because `.` does not match a line feed |
| Fuzzy.InfixFound | file_launcher.py:314-320 | a contiguous occurrence is also a pattern hit, so the higher tiers never bypass the filter |
| Fuzzy.SubsequenceChars | file_launcher.py:318-319 | every character of an in-order match occurs in the name |
| Scorer.MatchScore | file_launcher.py:300-322 | the score is one of 0, 40, 60, 80, 100, and it is positive exactly when the search's case-insensitive filter accepts the name |
| Scorer.ScoreTiers | file_launcher.py:300-322 | case-insensitively: 100 iff equal, 80 iff a proper prefix, 60 iff a contiguous occurrence that is not a prefix, 40 iff a pattern hit with no contiguous occurrence, 0 iff no pattern hit |
| Scorer.ScoreOnSingleLine | file_launcher.py:314-320 | on a name without a line feed, the score is at least 40 iff the query is an in-order subsequence, and exactly 40 iff it is one but not contiguous |
| Scorer.MissingCharScoresNothing | file_launcher.py:318-322 | a query holding a character the name lacks, ignoring case, scores 0 |
| Scorer.ProperPrefixScores | file_launcher.py:306-311 | a query that is a proper prefix of the name, ignoring case, scores 80 |
| Scorer.ScatteredScoresInOrder | file_launcher.py:314-320 | on one line, an in-order but non-contiguous query scores exactly 40 |
| Scorer.PrefixExample | file_launcher.py:310-311 | "report.pdf" and "report_final.pdf" both score 80 for "report" |
| Scorer.ScatteredExample | file_launcher.py:318-320 | "rpt" scores 40 against "report.pdf" |
| Scorer.AbsentExample | file_launcher.py:322 | "xyz" scores 0 against "report.pdf" |
| StableSort.SortDesc | file_launcher.py:294 | the result is sorted by key, largest first; it holds the same elements as often; elements with equal keys keep their order |
| StableSort.SortedUnique | file_launcher.py:294 | two sequences that are both sorted largest first and keep each key's elements in the same order are equal, so the sorted result is unique |
| FileIndex.Add | file_launcher.py:242-244 | the path goes to the end of the name's list and every other name's list is unchanged |
| FileIndex.AddKeys | file_launcher.py:242-243 | a known name keeps its place among the keys, a new name goes last, and keys stay distinct |
| FileIndex.BuildLookup | file_launcher.py:241-244 | after the crawl, each name's list holds exactly the paths found under it, in discovery order, duplicates kept |
| FileIndex.BuildKeys | file_launcher.py:241-244 | the keys of the built index are distinct and are exactly the discovered names |
| FileIndex.BuildKeyOrder | file_launcher.py:241-244 | the keys are ordered by where each name was first discovered |
| Crawler.FileHitsExactly | file_launcher.py:227-244 | a file of one directory is indexed, under the joined path, exactly when its extension is not excluded and its size is readable and at most 100 MiB |
| Crawler.WalkExactly | file_launcher.py:223-244 | the walk of a directory indexes a file exactly when it lies in a listable directory below no excluded or hidden subdirectory and passes the file filters; its path joins the directory names on the way down |
| Crawler.CrawlExactly | file_launcher.py:221-244 | the crawl of all volumes yields exactly what some volume's walk may index |
| Crawler.IndexedExactly | file_launcher.py:207-244 | the built index lists a path under a name exactly when some volume holds a file of that name at that path that the walk may index |
| Crawler.IndexInDiscoveryOrder | file_launcher.py:207-244 | the built index lists each name's paths in crawl order, and its keys are distinct and in first-discovery order |
| Crawler.SizeLimitExample | file_launcher.py:234-239 | a 150,000,000-byte "report.pdf" is left out and a 100 MiB one is indexed |
| SearchEngine.EntryRowsExactly | file_launcher.py:283-291 | an entry yields a row for a path exactly when the path is stored under the name and `os.stat` of it succeeds with that metadata |
| SearchEngine.CollectExactly | file_launcher.py:281-291 | the collected rows are exactly the owed ones: an index key the filter accepts, a path stored under it, a successful `os.stat` |
| SearchEngine.CollectAppend | file_launcher.py:281-291 | rows of earlier index entries come before rows of later ones |
| SearchEngine.Search | file_launcher.py:278-294 | the result holds exactly the owed rows, as many times as collected; it is sorted by score, best first; equal scores keep index order; every row scores at least 40 |
| SearchEngine.SearchKeepsSortedRows | file_launcher.py:294 | rows already in score order are returned unchanged |
| SearchEngine.ReportExample | file_launcher.py:281-294 | two prefix hits keep their index order, and a path that no longer resolves drops out |
| History.Record | file_launcher.py:264-268 | the new history is non-empty, holds at most 20 entries and ends with the query; its length is known exactly; it does not grow when the query was already present; its other entries come from the old history |
| History.RemoveFirstIsWithout | file_launcher.py:264-265 | on a history without repeats, removing the first equal entry removes them all |
| History.RecordWithoutRepeats | file_launcher.py:264-268 | on a history without repeats, the new history has no repeats, holds the query only at the end, and before it holds the newest entries of the old history minus the query |
| SizeFormat.UnitIndex | file_launcher.py:324-330 | the unit is at most TB; the whole part is the floor of the scaled size; the size reaches the chosen unit; the scaled size stays below 1024 unless the unit is TB |
| SizeFormat.UnitDetermined | file_launcher.py:326-330 | any two units that satisfy the contract of `UnitIndex` are equal, so that contract pins down the unit |
| Launcher.OnSearch | file_launcher.py:257-294 | white-space-only text changes nothing; otherwise the stripped query ends the bounded history, the index is untouched, and the results are the owed rows, best first, equal scores in index order |
| Launcher.ClearHistory | file_launcher.py:376-381 | the history becomes empty and the index and the results are unchanged |

## Left out

- The Tk user interface: widgets, key bindings, the result list display,
  `on_history_select` and `on_double_click`.
- The data race between the indexing thread and searches. `build_index`
  runs on its own thread. It resets the index to an empty dictionary and
  then inserts into it while `on_search` may be iterating over the same
  dictionary. A search during indexing can therefore see an empty or
  partial index. It can also fail with "dictionary changed size during
  iteration", outside the per-path `try`, after the history was already
  updated and saved. The model gives each search one complete index value,
  the `index` of the state passed to `Launcher.OnSearch`.
- Nested searches. After updating and saving the history, `on_search`
  calls `self.root.update()` before it clears the results. That call runs
  pending Tk events, so a second Return press or a history double-click
  can run a whole nested `on_search` for another query at that point. The
  outer call then overwrites the results with the rows of its own query,
  leaving a history that ends with the inner query beside results for the
  outer one. The model drops this path and treats each search as one
  atomic step, `Launcher.OnSearch`.
- The progress bar and the status messages, including the count of
  indexed files. They only display progress.
- An `OverflowError` or `ValueError` from `datetime.fromtimestamp` on an
  out-of-range modification time. The per-path `try` does not catch it,
  so it escapes `on_search`; the model has no such failure.
- JSON persistence of the history and the index (`load_*`, `save_*`). This
  is file I/O. A loaded history is taken as any sequence of strings.
- `open_file`. It hands the path to the operating system.
- Windows drive enumeration. The volumes are a parameter, and paths are
  joined with `/` as on POSIX.
- Symbolic links. `os.walk` does not follow directory links by default.
  The tree parameter is taken to be the tree the walk sees.
- The outer `try/except` around each volume's walk. An exception there
  would stop that volume part-way. The model takes the listing errors that
  `os.walk` itself swallows as `Unlisted` directories. It does not model an
  error in the middle of a volume.
- Unicode case folding. `str.lower` and `re.IGNORECASE` are modelled as
  folding ASCII letters only. Under that folding, lowering both sides is
  the same as a case-insensitive match.
- Regular-expression escaping is taken as exact: each escaped query
  character matches only itself.
- The float formatting of sizes (`:.2f`) and the modification-time
  rendering.
- SizeFormat.UnitIndex: models the unit choice with whole numbers, not the
  float quotient. Dividing by 1024 repeatedly gives the same comparisons
  with 1024. The printed two-decimal value is not modelled.
