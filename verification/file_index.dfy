/** The file index: a dictionary from a base name to the list of full paths
    found under that name. A Python dictionary keeps its keys distinct and
    iterates them in the order they were first inserted, so it is modelled
    as a sequence of entries with distinct names, in insertion order. */
module FileIndex {
  import opened Seqs

  datatype Entry = Entry(name: string, paths: seq<string>)

  type Index = seq<Entry>

  /** One discovered file: its base name and its full path. */
  datatype Found = Found(name: string, path: string)

  /** The keys of the dictionary, in iteration order. */
  function Names(idx: Index): (r: seq<string>)
    ensures |r| == |idx|
    ensures forall i :: 0 <= i < |idx| ==> r[i] == idx[i].name
  {
    Map(idx, (e: Entry) => e.name)
  }

  /** `index.get(name, [])`. */
  function Lookup(idx: Index, name: string): seq<string>
  {
    if idx == [] then []
    else if idx[0].name == name then idx[0].paths
    else Lookup(idx[1..], name)
  }

  /** `if name not in index: index[name] = []` followed by
      `index[name].append(path)`: the path goes to the end of the name's
      list and no other name's list changes. */
  function Add(idx: Index, name: string, path: string): (r: Index)
    ensures Lookup(r, name) == Lookup(idx, name) + [path]
    ensures forall n :: n != name ==> Lookup(r, n) == Lookup(idx, n)
  {
    if idx == [] then [Entry(name, [path])]
    else if idx[0].name == name then [Entry(name, idx[0].paths + [path])] + idx[1..]
    else [idx[0]] + Add(idx[1..], name, path)
  }

  /** Adding keeps the keys of the dictionary: a known name keeps its
      place, a new name goes to the end of the key order, and keys stay
      distinct. */
  lemma {:induction false} AddKeys(idx: Index, name: string, path: string)
    ensures name in Names(idx) ==> Names(Add(idx, name, path)) == Names(idx)
    ensures name !in Names(idx) ==> Names(Add(idx, name, path)) == Names(idx) + [name]
    ensures Distinct(Names(idx)) ==> Distinct(Names(Add(idx, name, path)))
  {
    AddKeyOrder(idx, name, path);
    var ns, rs := Names(idx), Names(Add(idx, name, path));
    if Distinct(ns) && name !in ns {
      forall i, j | 0 <= i < j < |rs| ensures rs[i] != rs[j] {
        assert rs[i] == ns[i];
        if j < |ns| {
          assert rs[j] == ns[j];
        } else {
          assert ns[i] in ns;
        }
      }
    }
  }

  lemma {:induction false} AddKeyOrder(idx: Index, name: string, path: string)
    ensures name in Names(idx) ==> Names(Add(idx, name, path)) == Names(idx)
    ensures name !in Names(idx) ==> Names(Add(idx, name, path)) == Names(idx) + [name]
    decreases |idx|
  {
    if idx != [] && idx[0].name != name {
      var ns, rest := Names(idx[1..]), Add(idx[1..], name, path);
      AddKeyOrder(idx[1..], name, path);
      assert Names(idx) == [idx[0].name] + ns;
      assert Names(Add(idx, name, path)) == [idx[0].name] + Names(rest);
      InCons(name, Names(idx));
      assert Names(idx)[1..] == ns;
      if name !in ns {
        assert [idx[0].name] + (ns + [name]) == ([idx[0].name] + ns) + [name];
      }
    }
  }

  /** Adds every discovered file in turn, as the crawl loop does. */
  function AddAll(idx: Index, found: seq<Found>): Index
    decreases found
  {
    if found == [] then idx
    else AddAll(Add(idx, found[0].name, found[0].path), found[1..])
  }

  /** The crawl result: a fresh index filled with the discovered files. */
  function Build(found: seq<Found>): Index
  {
    AddAll([], found)
  }

  /** The paths discovered under `name`, in discovery order. */
  function PathsNamed(found: seq<Found>, name: string): seq<string>
  {
    if found == [] then []
    else (if found[0].name == name then [found[0].path] else []) + PathsNamed(found[1..], name)
  }

  /** The base names of the discovered files, repeats included. */
  function FoundNames(found: seq<Found>): seq<string>
  {
    Map(found, (f: Found) => f.name)
  }

  /** Position of the first discovered file called `name`. */
  function FirstIndex(found: seq<Found>, name: string): (r: nat)
    requires name in FoundNames(found)
    ensures r < |found| && found[r].name == name
    ensures forall i :: 0 <= i < r ==> found[i].name != name
  {
    if found[0].name == name then 0 else 1 + FirstIndex(found[1..], name)
  }

  /** Every name's list grows by exactly the paths discovered under that
      name, in discovery order, duplicates kept. */
  lemma {:induction false} AddAllLookup(idx: Index, found: seq<Found>, name: string)
    ensures Lookup(AddAll(idx, found), name) == Lookup(idx, name) + PathsNamed(found, name)
    decreases |found|
  {
    if found != [] {
      var next := Add(idx, found[0].name, found[0].path);
      AddAllLookup(next, found[1..], name);
    }
  }

  lemma {:induction false} AddAllSnoc(idx: Index, found: seq<Found>, f: Found)
    ensures AddAll(idx, found + [f]) == Add(AddAll(idx, found), f.name, f.path)
    decreases |found|
  {
    if found == [] {
      assert [] + [f] == [f];
    } else {
      assert (found + [f])[1..] == found[1..] + [f];
      AddAllSnoc(Add(idx, found[0].name, found[0].path), found[1..], f);
    }
  }

  lemma {:induction false} FirstIndexSnoc(found: seq<Found>, f: Found, name: string)
    requires name in FoundNames(found)
    ensures name in FoundNames(found + [f])
    ensures FirstIndex(found + [f], name) == FirstIndex(found, name)
  {
    var i := FirstIndex(found, name);
    assert (found + [f])[i] == found[i];
    assert FoundNames(found + [f])[i] == name;
    var j := FirstIndex(found + [f], name);
    assert j <= i;
    assert j < |found| && (found + [f])[j] == found[j];
  }

  lemma BuildSnoc(init: seq<Found>, f: Found)
    ensures Build(init + [f]) == Add(Build(init), f.name, f.path)
    ensures FoundNames(init + [f]) == FoundNames(init) + [f.name]
  {
    AddAllSnoc([], init, f);
    FoundNamesSnoc(init, f);
  }

  lemma FoundNamesSnoc(init: seq<Found>, f: Found)
    ensures FoundNames(init + [f]) == FoundNames(init) + [f.name]
  {
  }

  /** A freshly built index has exactly the discovered names as keys, each
      once. */
  lemma {:induction false} BuildKeys(found: seq<Found>)
    ensures Distinct(Names(Build(found)))
    ensures forall n :: n in Names(Build(found)) <==> n in FoundNames(found)
    decreases |found|
  {
    if found != [] {
      var init, f := found[..|found| - 1], found[|found| - 1];
      assert found == init + [f];
      BuildKeys(init);
      BuildSnoc(init, f);
      AddKeys(Build(init), f.name, f.path);
    }
  }

  /** `ns` lists discovered names ordered by their first discovery. */
  ghost predicate InDiscoveryOrder(ns: seq<string>, found: seq<Found>)
  {
    && (forall i :: 0 <= i < |ns| ==> ns[i] in FoundNames(found))
    && forall i, j :: 0 <= i < j < |ns| ==> FirstIndex(found, ns[i]) < FirstIndex(found, ns[j])
  }

  /** The keys of a freshly built index are ordered by where each name was
      first discovered. */
  lemma {:induction false} BuildKeyOrder(found: seq<Found>)
    ensures InDiscoveryOrder(Names(Build(found)), found)
    decreases |found|
  {
    if found != [] {
      var init, f := found[..|found| - 1], found[|found| - 1];
      assert found == init + [f];
      BuildKeyOrder(init);
      BuildKeys(init);
      BuildSnoc(init, f);
      AddKeys(Build(init), f.name, f.path);
      OrderExtends(init, f, Names(Build(init)), Names(Build(found)));
    }
  }

  lemma {:induction false} OrderExtends(init: seq<Found>, f: Found, before: seq<string>, after: seq<string>)
    requires InDiscoveryOrder(before, init)
    requires forall n :: n in before <==> n in FoundNames(init)
    requires f.name in before ==> after == before
    requires f.name !in before ==> after == before + [f.name]
    ensures InDiscoveryOrder(after, init + [f])
  {
    var found := init + [f];
    FoundNamesSnoc(init, f);
    forall n | n in FoundNames(init) ensures FirstIndex(found, n) == FirstIndex(init, n) {
      FirstIndexSnoc(init, f, n);
    }
    if f.name !in before {
      assert FirstIndex(found, f.name) == |init|;
      forall i, j | 0 <= i < j < |after|
        ensures FirstIndex(found, after[i]) < FirstIndex(found, after[j])
      {
        assert after[i] == before[i];
        if j < |before| {
          assert after[j] == before[j];
        }
      }
    }
  }

  /** The built index maps every name to the paths discovered under it. */
  lemma BuildLookup(found: seq<Found>, name: string)
    ensures Lookup(Build(found), name) == PathsNamed(found, name)
  {
    AddAllLookup([], found, name);
  }

  /** A path is listed under a name exactly when a file of that name was
      discovered at that path. */
  lemma {:induction false} PathsNamedMember(found: seq<Found>, name: string, path: string)
    ensures path in PathsNamed(found, name) <==> Found(name, path) in found
    decreases |found|
  {
    if found != [] {
      PathsNamedMember(found[1..], name, path);
      assert found == [found[0]] + found[1..];
    }
  }
}
