/** `build_index`: the crawl of every volume with `os.walk`, pruning
    excluded and hidden directories before descending into them and
    skipping files by extension, by unreadable size and by size. */
module Crawler {
  import opened Wrappers
  import opened Text
  import opened FileIndex
  import opened Seqs

  /** A non-directory entry with what `os.path.getsize` gave for it:
      `None` when it raised `OSError` (or `PermissionError`). */
  datatype FileInfo = FileInfo(name: string, size: Option<nat>)

  /** A directory as `os.walk` sees it: its name, its files and its
      subdirectories in listing order; or a directory whose listing failed,
      which `os.walk` skips without a word. */
  datatype Dir =
    | Dir(name: string, files: seq<FileInfo>, subdirs: seq<Dir>)
    | Unlisted(name: string)

  /** A volume to crawl: the path `os.walk` starts from and its top
      directory. The top directory itself is never pruned. */
  datatype Drive = Drive(root: string, top: Dir)

  /** One indexed file: the names of the directories between the volume
      root and the file, the file, and the full path the index stores. */
  datatype Hit = Hit(dirs: seq<string>, file: FileInfo, path: string)

  const ExcludedDirs: set<string> := {
    "System Volume Information", "$Recycle.Bin", "Windows",
    "Program Files", "Program Files (x86)", "AppData"
  }

  const ExcludedExtensions: set<string> := {
    ".sys", ".dll", ".exe", ".com", ".tmp", ".log", ".bin",
    ".msi", ".cab", ".dat", ".ini", ".db", ".sqlite"
  }

  /** 100 MiB: larger files are not indexed. */
  const MaxFileSize: nat := 1024 * 1024 * 100

  /** A subdirectory the crawl does not descend into. */
  predicate Pruned(dirName: string)
  {
    dirName in ExcludedDirs || (|dirName| > 0 && dirName[0] == '.')
  }

  /** A file the crawl indexes: its lower-cased extension is not excluded
      and its size could be read and is at most 100 MiB. */
  predicate Admitted(f: FileInfo)
  {
    && Lower(Extension(f.name)) !in ExcludedExtensions
    && f.size.Some?
    && f.size.value <= MaxFileSize
  }

  /** `os.path.join(dir, name)` on POSIX, for a name without separators. */
  function Join(dir: string, name: string): string
  {
    if dir == [] || dir[|dir| - 1] == '/' then dir + name else dir + "/" + name
  }

  /** The full path of a file `dirs` levels below the directory at `path`. */
  function PathOf(path: string, dirs: seq<string>, name: string): string
    decreases |dirs|
  {
    if dirs == [] then Join(path, name) else PathOf(Join(path, dirs[0]), dirs[1..], name)
  }

  /** None of the directories on the way down is pruned. */
  predicate NonePruned(dirs: seq<string>)
  {
    forall k :: 0 <= k < |dirs| ==> !Pruned(dirs[k])
  }

  /** `f` is listed in the directory reached from `d` through the
      subdirectories named `dirs`, each of them listable. */
  ghost predicate Located(d: Dir, dirs: seq<string>, f: FileInfo)
    decreases d
  {
    && d.Dir?
    && if dirs == [] then f in d.files
       else exists s :: s in d.subdirs && s.name == dirs[0] && Located(s, dirs[1..], f)
  }

  /** What the crawl of the directory at `path` indexes, and in which
      order: the admitted files of the directory itself in listing order,
      then everything below each subdirectory that is not pruned, one
      subdirectory after the other. */
  function Walk(path: string, d: Dir): seq<Hit>
    decreases d
  {
    match d
    case Unlisted(_) => []
    case Dir(_, files, subdirs) => FileHits(path, files) + WalkSubdirs(path, subdirs)
  }

  function FileHits(path: string, files: seq<FileInfo>): seq<Hit>
  {
    if files == [] then []
    else
      (if Admitted(files[0]) then [Hit([], files[0], Join(path, files[0].name))] else [])
      + FileHits(path, files[1..])
  }

  function WalkSubdirs(path: string, subdirs: seq<Dir>): seq<Hit>
    decreases subdirs
  {
    if subdirs == [] then []
    else
      var s := subdirs[0];
      (if Pruned(s.name) then [] else Under(s.name, Walk(Join(path, s.name), s)))
      + WalkSubdirs(path, subdirs[1..])
  }

  /** The hits of a subdirectory, seen from its parent. */
  function Under(dirName: string, hits: seq<Hit>): seq<Hit>
  {
    Map(hits, (h: Hit) => Hit([dirName] + h.dirs, h.file, h.path))
  }

  /** Every volume in turn. */
  function Crawl(drives: seq<Drive>): seq<Hit>
  {
    if drives == [] then []
    else Walk(drives[0].root, drives[0].top) + Crawl(drives[1..])
  }

  /** The `(name, path)` pairs of the hits, in crawl order. */
  function Discovered(hits: seq<Hit>): seq<Found>
  {
    Map(hits, (h: Hit) => Found(h.file.name, h.path))
  }

  /** `build_index`: a fresh index holding every crawled file under its
      base name. */
  function BuildIndex(drives: seq<Drive>): Index
  {
    Build(Discovered(Crawl(drives)))
  }

  /** A hit the crawl of `d` at `path` may produce. */
  ghost predicate Indexable(path: string, d: Dir, h: Hit)
  {
    && Located(d, h.dirs, h.file)
    && NonePruned(h.dirs)
    && Admitted(h.file)
    && h.path == PathOf(path, h.dirs, h.file.name)
  }

  lemma {:induction false} FileHitsExactly(path: string, files: seq<FileInfo>, h: Hit)
    ensures h in FileHits(path, files) <==>
              h.dirs == [] && h.file in files && Admitted(h.file) && h.path == Join(path, h.file.name)
    decreases |files|
  {
    if files != [] {
      FileHitsCons(path, files, h);
      FileHitsExactly(path, files[1..], h);
      InCons(h.file, files);
    }
  }

  lemma FileHitsCons(path: string, files: seq<FileInfo>, h: Hit)
    requires files != []
    ensures h in FileHits(path, files) <==>
              (Admitted(files[0]) && h == Hit([], files[0], Join(path, files[0].name)))
              || h in FileHits(path, files[1..])
  {
    var f := files[0];
    var head := if Admitted(f) then [Hit([], f, Join(path, f.name))] else [];
    var tail := FileHits(path, files[1..]);
    assert FileHits(path, files) == head + tail;
    assert h in head + tail <==> h in head || h in tail;
  }

  lemma UnderMember(dirName: string, hits: seq<Hit>, h: Hit)
    ensures h in Under(dirName, hits) <==>
              |h.dirs| > 0 && h.dirs[0] == dirName && Hit(h.dirs[1..], h.file, h.path) in hits
  {
    if h in Under(dirName, hits) {
      var i :| 0 <= i < |hits| && Under(dirName, hits)[i] == h;
      assert h.dirs[1..] == hits[i].dirs;
    }
    if |h.dirs| > 0 && h.dirs[0] == dirName && Hit(h.dirs[1..], h.file, h.path) in hits {
      var i :| 0 <= i < |hits| && hits[i] == Hit(h.dirs[1..], h.file, h.path);
      assert [dirName] + h.dirs[1..] == h.dirs;
      assert Under(dirName, hits)[i] == h;
    }
  }

  /** `h` is indexed through the subdirectory `s` of the directory at
      `path`. */
  ghost predicate ViaSubdir(path: string, s: Dir, h: Hit)
  {
    && |h.dirs| > 0
    && s.name == h.dirs[0]
    && Located(s, h.dirs[1..], h.file)
    && NonePruned(h.dirs)
    && Admitted(h.file)
    && h.path == PathOf(path, h.dirs, h.file.name)
  }

  lemma NonePrunedCons(dirs: seq<string>)
    requires |dirs| > 0
    ensures NonePruned(dirs) <==> !Pruned(dirs[0]) && NonePruned(dirs[1..])
  {
    assert forall k :: 0 <= k < |dirs[1..]| ==> dirs[1..][k] == dirs[k + 1];
  }

  /** The crawl of a directory produces exactly the files it may index:
      a file is indexed, under the path built from the directory names on
      the way down, if and only if it lies below no pruned directory, its
      extension is not excluded and its size is known and small enough. */
  lemma {:induction false} WalkExactly(path: string, d: Dir, h: Hit)
    ensures h in Walk(path, d) <==> Indexable(path, d, h)
    decreases d, 0
  {
    match d
    case Unlisted(_) =>
    case Dir(_, files, subdirs) =>
      FileHitsExactly(path, files, h);
      WalkSubdirsExactly(path, subdirs, h);
  }

  lemma {:induction false} WalkSubdirsExactly(path: string, subdirs: seq<Dir>, h: Hit)
    ensures h in WalkSubdirs(path, subdirs) <==> exists s :: s in subdirs && ViaSubdir(path, s, h)
    decreases subdirs, 2
  {
    if subdirs != [] {
      var s := subdirs[0];
      var head := if Pruned(s.name) then [] else Under(s.name, Walk(Join(path, s.name), s));
      assert WalkSubdirs(path, subdirs) == head + WalkSubdirs(path, subdirs[1..]);
      InConcat(h, head, WalkSubdirs(path, subdirs[1..]));
      WalkSubdirsExactly(path, subdirs[1..], h);
      SubdirExactly(path, s, h);
      forall t ensures t in subdirs <==> t == s || t in subdirs[1..] {
        InCons(t, subdirs);
      }
    }
  }

  lemma {:induction false} SubdirExactly(path: string, s: Dir, h: Hit)
    ensures h in (if Pruned(s.name) then [] else Under(s.name, Walk(Join(path, s.name), s)))
            <==> ViaSubdir(path, s, h)
    decreases s, 1
  {
    var inner := Hit(if |h.dirs| > 0 then h.dirs[1..] else [], h.file, h.path);
    UnderMember(s.name, Walk(Join(path, s.name), s), h);
    WalkExactly(Join(path, s.name), s, inner);
    if |h.dirs| > 0 {
      NonePrunedCons(h.dirs);
    }
  }

  /** A file is crawled exactly when some volume's walk may index it. */
  lemma {:induction false} CrawlExactly(drives: seq<Drive>, h: Hit)
    ensures h in Crawl(drives) <==>
              exists i :: 0 <= i < |drives| && Indexable(drives[i].root, drives[i].top, h)
    decreases |drives|
  {
    if drives != [] {
      WalkExactly(drives[0].root, drives[0].top, h);
      CrawlExactly(drives[1..], h);
      if exists i :: 0 <= i < |drives| && Indexable(drives[i].root, drives[i].top, h) {
        var i :| 0 <= i < |drives| && Indexable(drives[i].root, drives[i].top, h);
        if i > 0 {
          assert drives[1..][i - 1] == drives[i];
        }
      }
      if exists i :: 0 <= i < |drives[1..]| && Indexable(drives[1..][i].root, drives[1..][i].top, h) {
        var i :| 0 <= i < |drives[1..]| && Indexable(drives[1..][i].root, drives[1..][i].top, h);
        assert drives[1..][i] == drives[i + 1];
      }
    }
  }

  lemma DiscoveredMember(hits: seq<Hit>, name: string, path: string)
    ensures Found(name, path) in Discovered(hits) <==>
              exists h :: h in hits && h.file.name == name && h.path == path
  {
    if Found(name, path) in Discovered(hits) {
      var i :| 0 <= i < |hits| && Discovered(hits)[i] == Found(name, path);
      assert hits[i] in hits;
    }
    if exists h :: h in hits && h.file.name == name && h.path == path {
      var h :| h in hits && h.file.name == name && h.path == path;
      var i :| 0 <= i < |hits| && hits[i] == h;
      assert Discovered(hits)[i] == Found(name, path);
    }
  }

  /** The index built by the crawl lists `path` under `name` exactly when
      some volume holds, below no excluded or hidden directory, a file
      called `name` at that path whose extension is not excluded and whose
      size is known and at most 100 MiB. */
  lemma IndexedExactly(drives: seq<Drive>, name: string, path: string)
    ensures path in Lookup(BuildIndex(drives), name) <==>
              exists i, h: Hit :: 0 <= i < |drives| && h.file.name == name && h.path == path
                             && Indexable(drives[i].root, drives[i].top, h)
  {
    var hits := Crawl(drives);
    BuildLookup(Discovered(hits), name);
    PathsNamedMember(Discovered(hits), name, path);
    DiscoveredMember(hits, name, path);
    forall h: Hit | h.file.name == name && h.path == path
      ensures h in hits <==>
                exists i :: 0 <= i < |drives| && Indexable(drives[i].root, drives[i].top, h)
    {
      CrawlExactly(drives, h);
    }
  }

  /** The index keeps the crawl's order: every name lists its paths in
      discovery order with duplicates kept, and the names themselves are
      distinct and ordered by first discovery. */
  lemma IndexInDiscoveryOrder(drives: seq<Drive>)
    ensures forall name :: Lookup(BuildIndex(drives), name) == PathsNamed(Discovered(Crawl(drives)), name)
    ensures Distinct(Names(BuildIndex(drives)))
    ensures InDiscoveryOrder(Names(BuildIndex(drives)), Discovered(Crawl(drives)))
  {
    var found := Discovered(Crawl(drives));
    forall name ensures Lookup(Build(found), name) == PathsNamed(found, name) {
      BuildLookup(found, name);
    }
    BuildKeys(found);
    BuildKeyOrder(found);
  }

  /** A 150 MB file is left out of the index; the same name at 100 MiB is
      indexed. */
  lemma {:induction false} SizeLimitExample(name: string, big: nat, small: nat)
    requires name == "report.pdf" && big == 150 * 1000 * 1000 && small == 100 * 1024 * 1024
    ensures !Admitted(FileInfo(name, Some(big)))
    ensures Admitted(FileInfo(name, Some(small)))
  {
    PdfExtension(name);
    PdfNotExcluded(Lower(Extension(name)));
    assert big > MaxFileSize && small <= MaxFileSize;
  }

  lemma PdfNotExcluded(ext: string)
    requires ext == ".pdf"
    ensures ext !in ExcludedExtensions
  {
    assert ext[1] == 'p' && |ext| == 4;
  }

  lemma PdfExtension(name: string)
    requires name == "report.pdf"
    ensures Lower(Extension(name)) == ".pdf"
  {
    var ext := Extension(name);
    assert name[6] == '.' && name[0] != '.';
    assert ext == name[|name| - |ext|..];
    assert |ext| == 4 by {
      assert LastIndexOf(name, '.') >= 6;
    }
    assert ext == ".pdf";
    LowerOfLower(ext);
  }
}
