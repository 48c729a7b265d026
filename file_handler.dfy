/**
 * `get_paths` and `IndexDataPair`: the entries of the WordNet directory are sorted into
 * index files and data files by name, and every index file is paired with every data
 * file whose path has the same extension.
 */
module FileHandler {
  import opened Wrappers
  import opened Text

  /**
   * A `PathBuf` as `DirEntry::path` returns it: the directory joined with the entry's
   * file name. Its `extension()` depends on the file name only.
   */
  datatype FilePath = FilePath(dir: string, fileName: string)

  /** An index file and the data file paired with it; nothing else is stored. */
  datatype IndexDataPair = IndexDataPair(indexPath: FilePath, dataPath: FilePath)

  /** One entry of `read_dir`: its file name, or `None` when reading the entry failed. */
  type DirEntry = Option<string>

  // ----- IndexDataPair -----

  function New(indexPath: FilePath, dataPath: FilePath): IndexDataPair {
    IndexDataPair(indexPath, dataPath)
  }

  function GetIndexPath(p: IndexDataPair): FilePath {
    p.indexPath
  }

  function GetDataPath(p: IndexDataPair): FilePath {
    p.dataPath
  }

  /** The getters give back exactly the paths passed to `new`. */
  lemma GettersOfNew(indexPath: FilePath, dataPath: FilePath)
    ensures GetIndexPath(New(indexPath, dataPath)) == indexPath
    ensures GetDataPath(New(indexPath, dataPath)) == dataPath
  {}

  /** A pair holds nothing but its two paths: it is rebuilt from its getters. */
  lemma NewOfGetters(p: IndexDataPair)
    ensures New(GetIndexPath(p), GetDataPath(p)) == p
  {}

  // ----- Path::extension -----

  /** Position of the last `.` of `s`. */
  function LastDot(s: string): (r: Option<nat>)
    ensures r.Some? ==> r.value < |s| && s[r.value] == '.' && forall k :: r.value < k < |s| ==> s[k] != '.'
    ensures r.None? ==> forall k :: 0 <= k < |s| ==> s[k] != '.'
  {
    if |s| == 0 then None
    else if s[|s| - 1] == '.' then Some(|s| - 1)
    else LastDot(s[..|s| - 1])
  }

  /**
   * `Path::extension` of a path whose last component is `name`: the text after the last
   * `.`, unless there is no `.`, the only `.` starts the name, or the name is `..`.
   */
  function FileExtension(name: string): Option<string> {
    if name == ".." then None
    else match LastDot(name)
      case None => None
      case Some(d) => if d == 0 then None else Some(name[d + 1..])
  }

  function Extension(p: FilePath): Option<string> {
    FileExtension(p.fileName)
  }

  /** An extension is what follows a non-empty stem and a `.`, and holds no `.` itself. */
  lemma FileExtensionShape(name: string)
    requires FileExtension(name).Some?
    ensures var e := FileExtension(name).value; var d := |name| - |e| - 1;
      && 0 < d && name == name[..d] + "." + e
      && forall k :: 0 <= k < |e| ==> e[k] != '.'
  {
    var d := LastDot(name).value;
    assert name == name[..d] + "." + name[d + 1..];
  }

  /** Conversely, a non-empty stem, a `.` and a dot-free `e` make a name with extension `e`. */
  lemma FileExtensionOfStem(stem: string, e: string)
    requires |stem| > 0 && forall k :: 0 <= k < |e| ==> e[k] != '.'
    requires stem + "." + e != ".."
    ensures FileExtension(stem + "." + e) == Some(e)
  {
    var name := stem + "." + e;
    assert name[|stem|] == '.';
    assert forall k :: |stem| < k < |name| ==> name[k] == e[k - |stem| - 1];
    assert LastDot(name) == Some(|stem|);
    assert name[|stem| + 1..] == e;
  }

  /** A name has no extension exactly when it is `..` or has no `.` after its first character. */
  lemma FileExtensionNone(name: string)
    ensures FileExtension(name) == None <==> name == ".." || forall k :: 0 < k < |name| ==> name[k] != '.'
  {
    var r := LastDot(name);
  }

  // ----- Classification of the directory entries -----

  /** The one index file of WordNet that `get_paths` skips. */
  const IgnoredIndex: string := "index.sense"

  /** An entry named `name` goes into the list for `part` (`"index"` or `"data"`). */
  predicate Listed(name: string, part: string) {
    name != IgnoredIndex && Contains(name, part)
  }

  /**
   * The list the classification loop builds for `part`: the paths of the readable
   * entries whose names are listed for it, in directory-entry order.
   */
  function PathsContaining(dir: string, entries: seq<DirEntry>, part: string): (r: seq<FilePath>)
    ensures |r| <= |entries|
  {
    if |entries| == 0 then []
    else
      var e := entries[|entries| - 1];
      PathsContaining(dir, entries[..|entries| - 1], part)
        + (if e.Some? && Listed(e.value, part) then [FilePath(dir, e.value)] else [])
  }

  /** A path is in a list exactly when it belongs to a readable entry listed for that part. */
  lemma {:induction false} PathsContainingMembers(dir: string, entries: seq<DirEntry>, part: string, p: FilePath)
    ensures p in PathsContaining(dir, entries, part) <==>
      p.dir == dir && Some(p.fileName) in entries && Listed(p.fileName, part)
    decreases |entries|
  {
    if |entries| > 0 {
      var init := entries[..|entries| - 1];
      PathsContainingMembers(dir, init, part, p);
      assert entries == init + [entries[|entries| - 1]];
    }
  }

  /** `index.sense` lands in neither list, although its name contains `index`. */
  lemma IgnoredIndexInNeither(dir: string, entries: seq<DirEntry>)
    ensures FilePath(dir, IgnoredIndex) !in PathsContaining(dir, entries, "index")
    ensures FilePath(dir, IgnoredIndex) !in PathsContaining(dir, entries, "data")
  {
    PathsContainingMembers(dir, entries, "index", FilePath(dir, IgnoredIndex));
    PathsContainingMembers(dir, entries, "data", FilePath(dir, IgnoredIndex));
  }

  /** The two tests are independent: a name containing both words lands in both lists. */
  lemma ListedInBoth(dir: string, entries: seq<DirEntry>, name: string)
    requires Some(name) in entries && name != IgnoredIndex
    requires Contains(name, "index") && Contains(name, "data")
    ensures FilePath(dir, name) in PathsContaining(dir, entries, "index")
    ensures FilePath(dir, name) in PathsContaining(dir, entries, "data")
  {
    PathsContainingMembers(dir, entries, "index", FilePath(dir, name));
    PathsContainingMembers(dir, entries, "data", FilePath(dir, name));
  }

  /** Classifying two runs of entries one after the other concatenates their lists. */
  lemma {:induction false} PathsContainingAppend(dir: string, a: seq<DirEntry>, b: seq<DirEntry>, part: string)
    ensures PathsContaining(dir, a + b, part) == PathsContaining(dir, a, part) + PathsContaining(dir, b, part)
    decreases |b|
  {
    if |b| > 0 {
      var b' := b[..|b| - 1];
      assert (a + b)[..|a + b| - 1] == a + b';
      PathsContainingAppend(dir, a, b', part);
    } else {
      assert a + b == a;
    }
  }

  /** Each list keeps directory-entry order: an earlier entry's path comes earlier. */
  lemma PathsInEntryOrder(dir: string, entries: seq<DirEntry>, part: string, j: nat, k: nat)
    requires j < k < |entries|
    requires entries[j].Some? && Listed(entries[j].value, part)
    requires entries[k].Some? && Listed(entries[k].value, part)
    ensures exists u, v :: (0 <= u < v < |PathsContaining(dir, entries, part)|
      && PathsContaining(dir, entries, part)[u] == FilePath(dir, entries[j].value)
      && PathsContaining(dir, entries, part)[v] == FilePath(dir, entries[k].value))
  {
    var front, back := entries[..k], entries[k..];
    assert entries == front + back;
    PathsContainingAppend(dir, front, back, part);
    assert back == [entries[k]] + back[1..];
    PathsContainingAppend(dir, [entries[k]], back[1..], part);
    assert [entries[k]][..0] == [];
    assert PathsContaining(dir, [entries[k]], part) == [FilePath(dir, entries[k].value)];
    assert front[j] == entries[j];
    PathsContainingMembers(dir, front, part, FilePath(dir, entries[j].value));
    var firsts := PathsContaining(dir, front, part);
    var u :| 0 <= u < |firsts| && firsts[u] == FilePath(dir, entries[j].value);
    var all := PathsContaining(dir, entries, part);
    assert all[u] == firsts[u];
    assert all[|firsts|] == FilePath(dir, entries[k].value);
  }

  // ----- Pairing by extension -----

  predicate SameExtension(indexPath: FilePath, dataPath: FilePath) {
    Extension(dataPath) == Extension(indexPath)
  }

  /** The inner loop for one index file: a pair for each data file with its extension. */
  function Matches(indexPath: FilePath, dataPaths: seq<FilePath>): (r: seq<IndexDataPair>)
    ensures |r| <= |dataPaths|
  {
    if |dataPaths| == 0 then []
    else
      var d := dataPaths[|dataPaths| - 1];
      Matches(indexPath, dataPaths[..|dataPaths| - 1])
        + (if SameExtension(indexPath, d) then [New(indexPath, d)] else [])
  }

  /** Both loops: the inner loop's pairs for each index file in turn. */
  function Pairing(indexPaths: seq<FilePath>, dataPaths: seq<FilePath>): seq<IndexDataPair> {
    if |indexPaths| == 0 then []
    else
      Pairing(indexPaths[..|indexPaths| - 1], dataPaths)
        + Matches(indexPaths[|indexPaths| - 1], dataPaths)
  }

  /** The first loop of `get_paths`: the index list and the data list, in entry order. */
  method Classify(dir: string, entries: seq<DirEntry>) returns (indexPaths: seq<FilePath>, dataPaths: seq<FilePath>)
    ensures indexPaths == PathsContaining(dir, entries, "index")
    ensures dataPaths == PathsContaining(dir, entries, "data")
  {
    indexPaths, dataPaths := [], [];
    for k := 0 to |entries|
      invariant indexPaths == PathsContaining(dir, entries[..k], "index")
      invariant dataPaths == PathsContaining(dir, entries[..k], "data")
    {
      assert entries[..k + 1][..k] == entries[..k];
      if entries[k].None? {
        continue;
      }
      var fileName := entries[k].value;
      if fileName == IgnoredIndex {
        continue;
      }
      if Contains(fileName, "index") {
        indexPaths := indexPaths + [FilePath(dir, fileName)];
      }
      if Contains(fileName, "data") {
        dataPaths := dataPaths + [FilePath(dir, fileName)];
      }
    }
    assert entries[..|entries|] == entries;
  }

  /** The inner loop of the pairing for one index file, appending to `pairs0`. */
  method PairWith(indexPath: FilePath, dataPaths: seq<FilePath>, pairs0: seq<IndexDataPair>)
    returns (pairs: seq<IndexDataPair>)
    ensures pairs == pairs0 + Matches(indexPath, dataPaths)
  {
    pairs := pairs0;
    for b := 0 to |dataPaths|
      invariant pairs == pairs0 + Matches(indexPath, dataPaths[..b])
    {
      assert dataPaths[..b + 1][..b] == dataPaths[..b];
      var dataPath := dataPaths[b];
      if Extension(dataPath) == Extension(indexPath) {
        pairs := pairs + [New(indexPath, dataPath)];
        continue;  // ends this pass only: the index file may pair with later data files too
      }
    }
    assert dataPaths[..|dataPaths|] == dataPaths;
  }

  /** The nested loops of `get_paths`: every index file against every data file. */
  method PairPaths(indexPaths: seq<FilePath>, dataPaths: seq<FilePath>) returns (pairs: seq<IndexDataPair>)
    ensures pairs == Pairing(indexPaths, dataPaths)
  {
    pairs := [];
    for a := 0 to |indexPaths|
      invariant pairs == Pairing(indexPaths[..a], dataPaths)
    {
      assert indexPaths[..a + 1][..a] == indexPaths[..a];
      pairs := PairWith(indexPaths[a], dataPaths, pairs);
    }
    assert indexPaths[..|indexPaths|] == indexPaths;
  }

  /**
   * `get_paths` on the entries `read_dir` lists (`IoError` when the directory cannot be
   * read). Entries that cannot be read are skipped; so is `index.sense`.
   */
  method GetPaths(dir: string, listing: Result<seq<DirEntry>>) returns (r: Result<seq<IndexDataPair>>)
    ensures listing.IoError? <==> r.IoError?
    ensures listing.Ok? ==> r == Ok(Pairing(PathsContaining(dir, listing.value, "index"),
                                            PathsContaining(dir, listing.value, "data")))
  {
    if listing.IoError? {
      return IoError;
    }
    var indexPaths, dataPaths := Classify(dir, listing.value);
    var pairs := PairPaths(indexPaths, dataPaths);
    return Ok(pairs);
  }

  // ----- What the pairing promises -----

  lemma {:induction false} MatchesMembers(indexPath: FilePath, dataPaths: seq<FilePath>, p: IndexDataPair)
    ensures p in Matches(indexPath, dataPaths) <==>
      p.indexPath == indexPath && p.dataPath in dataPaths && SameExtension(indexPath, p.dataPath)
    decreases |dataPaths|
  {
    if |dataPaths| > 0 {
      var init := dataPaths[..|dataPaths| - 1];
      MatchesMembers(indexPath, init, p);
      assert dataPaths == init + [dataPaths[|dataPaths| - 1]];
    }
  }

  /** A pair is emitted exactly for an index file and a data file with equal extensions. */
  lemma {:induction false} PairingMembers(indexPaths: seq<FilePath>, dataPaths: seq<FilePath>, p: IndexDataPair)
    ensures p in Pairing(indexPaths, dataPaths) <==>
      p.indexPath in indexPaths && p.dataPath in dataPaths && SameExtension(p.indexPath, p.dataPath)
    decreases |indexPaths|
  {
    if |indexPaths| > 0 {
      var init := indexPaths[..|indexPaths| - 1];
      PairingMembers(init, dataPaths, p);
      MatchesMembers(indexPaths[|indexPaths| - 1], dataPaths, p);
      assert indexPaths == init + [indexPaths[|indexPaths| - 1]];
    }
  }

  /**
   * What `get_paths` returns, by name: a pair for every readable index-file entry and
   * data-file entry of the directory whose paths have equal extensions, and no other.
   */
  lemma GetPathsMembers(dir: string, entries: seq<DirEntry>, p: IndexDataPair)
    ensures p in Pairing(PathsContaining(dir, entries, "index"), PathsContaining(dir, entries, "data")) <==>
      && p.indexPath.dir == dir && Some(p.indexPath.fileName) in entries && Listed(p.indexPath.fileName, "index")
      && p.dataPath.dir == dir && Some(p.dataPath.fileName) in entries && Listed(p.dataPath.fileName, "data")
      && SameExtension(p.indexPath, p.dataPath)
  {
    PairingMembers(PathsContaining(dir, entries, "index"), PathsContaining(dir, entries, "data"), p);
    PathsContainingMembers(dir, entries, "index", p.indexPath);
    PathsContainingMembers(dir, entries, "data", p.dataPath);
  }

  /** The grid cell (index position, data position) `x` comes before `y` in row-major order. */
  predicate RowMajorBefore(x: (nat, nat), y: (nat, nat)) {
    x.0 < y.0 || (x.0 == y.0 && x.1 < y.1)
  }

  /** The cells `(a, b)` of one grid row whose files have equal extensions, in data order. */
  function RowCells(a: nat, indexPath: FilePath, dataPaths: seq<FilePath>): (r: seq<(nat, nat)>)
    ensures forall k :: 0 <= k < |r| ==> r[k].0 == a && r[k].1 < |dataPaths|
  {
    if |dataPaths| == 0 then []
    else
      var b := |dataPaths| - 1;
      RowCells(a, indexPath, dataPaths[..b]) + (if SameExtension(indexPath, dataPaths[b]) then [(a, b)] else [])
  }

  /** The cells of the whole grid whose files have equal extensions, in row-major order. */
  function Cells(indexPaths: seq<FilePath>, dataPaths: seq<FilePath>): (r: seq<(nat, nat)>)
    ensures forall k :: 0 <= k < |r| ==> r[k].0 < |indexPaths| && r[k].1 < |dataPaths|
  {
    if |indexPaths| == 0 then []
    else
      var a := |indexPaths| - 1;
      Cells(indexPaths[..a], dataPaths) + RowCells(a, indexPaths[a], dataPaths)
  }

  lemma {:induction false} RowCellsSorted(a: nat, indexPath: FilePath, dataPaths: seq<FilePath>)
    ensures forall k :: 0 <= k < |RowCells(a, indexPath, dataPaths)| - 1 ==>
      RowMajorBefore(RowCells(a, indexPath, dataPaths)[k], RowCells(a, indexPath, dataPaths)[k + 1])
    decreases |dataPaths|
  {
    if |dataPaths| > 0 {
      RowCellsSorted(a, indexPath, dataPaths[..|dataPaths| - 1]);
    }
  }

  /** The cells are listed in strictly increasing row-major order. */
  lemma {:induction false} CellsSorted(indexPaths: seq<FilePath>, dataPaths: seq<FilePath>)
    ensures forall k :: 0 <= k < |Cells(indexPaths, dataPaths)| - 1 ==>
      RowMajorBefore(Cells(indexPaths, dataPaths)[k], Cells(indexPaths, dataPaths)[k + 1])
    decreases |indexPaths|
  {
    if |indexPaths| > 0 {
      var a := |indexPaths| - 1;
      CellsSorted(indexPaths[..a], dataPaths);
      RowCellsSorted(a, indexPaths[a], dataPaths);
    }
  }

  lemma {:induction false} RowCellsExact(a: nat, indexPath: FilePath, dataPaths: seq<FilePath>, b: nat)
    ensures (a, b) in RowCells(a, indexPath, dataPaths) <==> b < |dataPaths| && SameExtension(indexPath, dataPaths[b])
    decreases |dataPaths|
  {
    if |dataPaths| > 0 {
      var init := dataPaths[..|dataPaths| - 1];
      RowCellsExact(a, indexPath, init, b);
    }
  }

  /** The cells are exactly the grid cells whose two files have equal extensions. */
  lemma {:induction false} CellsExact(indexPaths: seq<FilePath>, dataPaths: seq<FilePath>, a: nat, b: nat)
    ensures (a, b) in Cells(indexPaths, dataPaths) <==>
      a < |indexPaths| && b < |dataPaths| && SameExtension(indexPaths[a], dataPaths[b])
    decreases |indexPaths|
  {
    if |indexPaths| > 0 {
      var last := |indexPaths| - 1;
      var init := indexPaths[..last];
      CellsExact(init, dataPaths, a, b);
      RowCellsExact(last, indexPaths[last], dataPaths, b);
      if a == last {
        assert (a, b) !in Cells(init, dataPaths);
      } else {
        assert (a, b) !in RowCells(last, indexPaths[last], dataPaths);
      }
    }
  }

  lemma {:induction false} MatchesByCells(a: nat, indexPath: FilePath, dataPaths: seq<FilePath>)
    ensures |Matches(indexPath, dataPaths)| == |RowCells(a, indexPath, dataPaths)|
    ensures forall k :: 0 <= k < |Matches(indexPath, dataPaths)| ==>
      Matches(indexPath, dataPaths)[k] == New(indexPath, dataPaths[RowCells(a, indexPath, dataPaths)[k].1])
    decreases |dataPaths|
  {
    if |dataPaths| > 0 {
      var b := |dataPaths| - 1;
      var init := dataPaths[..b];
      MatchesByCells(a, indexPath, init);
      var ms, cs := Matches(indexPath, dataPaths), RowCells(a, indexPath, dataPaths);
      forall k | 0 <= k < |ms|
        ensures ms[k] == New(indexPath, dataPaths[cs[k].1])
      {
        if k < |Matches(indexPath, init)| {
          assert ms[k] == Matches(indexPath, init)[k];
          assert cs[k] == RowCells(a, indexPath, init)[k];
          assert init[cs[k].1] == dataPaths[cs[k].1];
        }
      }
    }
  }

  /**
   * Pairs come out index-major, data-minor: the k-th pair is made of the files of the
   * k-th cell, and the cells are the matching ones in row-major order (CellsSorted,
   * CellsExact).
   */
  lemma {:induction false} PairingByCells(indexPaths: seq<FilePath>, dataPaths: seq<FilePath>)
    ensures |Pairing(indexPaths, dataPaths)| == |Cells(indexPaths, dataPaths)|
    ensures forall k :: 0 <= k < |Pairing(indexPaths, dataPaths)| ==>
      Pairing(indexPaths, dataPaths)[k]
        == New(indexPaths[Cells(indexPaths, dataPaths)[k].0], dataPaths[Cells(indexPaths, dataPaths)[k].1])
    decreases |indexPaths|
  {
    if |indexPaths| > 0 {
      var a := |indexPaths| - 1;
      var init := indexPaths[..a];
      PairingByCells(init, dataPaths);
      MatchesByCells(a, indexPaths[a], dataPaths);
      var ps, cs := Pairing(indexPaths, dataPaths), Cells(indexPaths, dataPaths);
      var n := |Pairing(init, dataPaths)|;
      forall k | 0 <= k < |ps|
        ensures ps[k] == New(indexPaths[cs[k].0], dataPaths[cs[k].1])
      {
        if k < n {
          assert ps[k] == Pairing(init, dataPaths)[k];
          assert cs[k] == Cells(init, dataPaths)[k];
          assert init[cs[k].0] == indexPaths[cs[k].0];
        } else {
          assert ps[k] == Matches(indexPaths[a], dataPaths)[k - n];
          assert cs[k] == RowCells(a, indexPaths[a], dataPaths)[k - n];
        }
      }
    }
  }

  // ----- How many pairs -----

  /** The positions of the data files with the same extension as `indexPath`. */
  function SameExtensionData(indexPath: FilePath, dataPaths: seq<FilePath>): set<nat> {
    set b | 0 <= b < |dataPaths| && SameExtension(indexPath, dataPaths[b])
  }

  /** The sum, over the index files, of the number of data files with the same extension. */
  function TotalSameExtension(indexPaths: seq<FilePath>, dataPaths: seq<FilePath>): nat {
    if |indexPaths| == 0 then 0
    else
      TotalSameExtension(indexPaths[..|indexPaths| - 1], dataPaths)
        + |SameExtensionData(indexPaths[|indexPaths| - 1], dataPaths)|
  }

  lemma SameExtensionDataSplit(indexPath: FilePath, dataPaths: seq<FilePath>)
    requires |dataPaths| > 0
    ensures SameExtensionData(indexPath, dataPaths) == SameExtensionData(indexPath, dataPaths[..|dataPaths| - 1])
      + (if SameExtension(indexPath, dataPaths[|dataPaths| - 1]) then {|dataPaths| - 1} else {})
  {
    var b := |dataPaths| - 1;
    var init := dataPaths[..b];
    forall x: nat | x < b
      ensures SameExtension(indexPath, init[x]) == SameExtension(indexPath, dataPaths[x])
    {
      assert init[x] == dataPaths[x];
    }
  }

  lemma SameExtensionDataSnoc(indexPath: FilePath, dataPaths: seq<FilePath>)
    requires |dataPaths| > 0
    ensures |SameExtensionData(indexPath, dataPaths)| == |SameExtensionData(indexPath, dataPaths[..|dataPaths| - 1])|
      + (if SameExtension(indexPath, dataPaths[|dataPaths| - 1]) then 1 else 0)
  {
    var b := |dataPaths| - 1;
    var before := SameExtensionData(indexPath, dataPaths[..b]);
    SameExtensionDataSplit(indexPath, dataPaths);
    assert b !in before;
  }

  lemma {:induction false} MatchesCount(indexPath: FilePath, dataPaths: seq<FilePath>)
    ensures |Matches(indexPath, dataPaths)| == |SameExtensionData(indexPath, dataPaths)|
    decreases |dataPaths|
  {
    if |dataPaths| > 0 {
      var b := |dataPaths| - 1;
      var init := dataPaths[..b];
      MatchesCount(indexPath, init);
      SameExtensionDataSnoc(indexPath, dataPaths);
    }
  }

  /** The number of pairs is the sum, over the index files, of their same-extension data files. */
  lemma {:induction false} PairingCount(indexPaths: seq<FilePath>, dataPaths: seq<FilePath>)
    ensures |Pairing(indexPaths, dataPaths)| == TotalSameExtension(indexPaths, dataPaths)
    decreases |indexPaths|
  {
    if |indexPaths| > 0 {
      PairingCount(indexPaths[..|indexPaths| - 1], dataPaths);
      MatchesCount(indexPaths[|indexPaths| - 1], dataPaths);
    }
  }
}
