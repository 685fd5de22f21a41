/** The multi-node testnet files (cmd/mrphglobald/cmd/testnet_multi_node.go): paths, the
    distribution of genesis transactions, and ports. */
module Testnet {
  import opened Wrappers
  import opened Text

  // ---------- paths ----------

  /** An absolute, cleaned path as its components. */
  type Path = seq<string>

  function JoinSlash(parts: seq<string>): string {
    if parts == [] then ""
    else if |parts| == 1 then parts[0]
    else parts[0] + "/" + JoinSlash(parts[1..])
  }

  function CommonLength(a: Path, b: Path): (k: nat)
    ensures k <= |a| && k <= |b| && a[..k] == b[..k]
    ensures k < |a| && k < |b| ==> a[k] != b[k]
    ensures k == |a| <==> a <= b
  {
    if a == [] || b == [] || a[0] != b[0] then 0
    else
      var k := 1 + CommonLength(a[1..], b[1..]);
      assert a[..k] == [a[0]] + a[1..][..k - 1] && b[..k] == [b[0]] + b[1..][..k - 1];
      k
  }

  /** `filepath.Rel(dir, target)` */
  function Rel(dir: Path, target: Path): string {
    var k := CommonLength(dir, target);
    var ups := seq(|dir| - k, _ => "..");
    if ups == [] && k == |target| then "." else JoinSlash(ups + target[k..])
  }

  /** `isSubDir` */
  predicate IsSubDir(src: Path, dstDir: Path) {
    var rel := Rel(dstDir, src);
    !HasPrefix(rel, "..") && !HasPrefix(rel, "/")
  }

  /** A component of a cleaned path. */
  predicate Component(s: string) {
    s != "" && '/' !in s
  }

  lemma JoinSlashHead(parts: seq<string>)
    requires parts != []
    ensures HasPrefix(JoinSlash(parts), parts[0])
    ensures |parts[0]| < 2 && |parts| > 1 ==> JoinSlash(parts)[|parts[0]|] == '/'
    ensures |parts| == 1 ==> JoinSlash(parts) == parts[0]
  {
  }

  /** The test finds the files below a directory, except those whose path continues with a name
      that begins with two dots. */
  lemma IsSubDirIff(src: Path, dstDir: Path)
    requires forall i :: 0 <= i < |src| ==> Component(src[i])
    ensures IsSubDir(src, dstDir) <==>
            && dstDir <= src
            && (|dstDir| < |src| ==> !HasPrefix(src[|dstDir|], ".."))
  {
    var k := CommonLength(dstDir, src);
    var ups := seq(|dstDir| - k, _ => "..");
    var parts := ups + src[k..];
    if k < |dstDir| {
      assert parts[0] == "..";
      JoinSlashHead(parts);
    } else {
      assert ups == [] && parts == src[k..];
      if k < |src| {
        JoinSlashHead(parts);
        HeadDecides(JoinSlash(parts), src[k]);
      } else {
        assert dstDir == src;
        assert Rel(dstDir, src) == ".";
        assert "."[..1] == "." && "." != "/";
      }
    }
  }

  lemma HeadDecides(s: string, head: string)
    requires Component(head) && HasPrefix(s, head)
    requires |head| < 2 && |head| < |s| ==> s[|head|] == '/'
    ensures HasPrefix(s, "..") <==> HasPrefix(head, "..")
    ensures !HasPrefix(s, "/")
  {
    assert s[0] == s[..|head|][0] == head[0];
    if |head| >= 2 {
      assert s[1] == s[..|head|][1] == head[1];
      assert s[..2] == [s[0], s[1]] && head[..2] == [head[0], head[1]];
    } else if |s| >= 2 {
      assert s[..2][1] == '/';
    }
    assert head[0] != '/';
  }

  // ---------- the nodes' directories ----------

  /** The node directories share a parent and a name before the index. */
  datatype Layout = Layout(parent: Path, stem: string) {
    function NodeDir(i: nat): Path {
      parent + [stem + Dec(i)]
    }

    function GentxDir(i: nat): Path {
      NodeDir(i) + ["config", "gentx"]
    }

    function GentxFile(i: nat, id: string): Path {
      GentxDir(i) + [GentxName(id)]
    }
  }

  function GentxName(id: string): string {
    "gentx-" + id + ".json"
  }

  lemma GentxNameInjective(a: string, b: string)
    requires GentxName(a) == GentxName(b)
    ensures a == b
  {
    assert GentxName(a)[6..|GentxName(a)| - 5] == a;
    assert GentxName(b)[6..|GentxName(b)| - 5] == b;
  }

  lemma GentxDirInjective(layout: Layout, i: nat, j: nat)
    ensures layout.GentxDir(i) == layout.GentxDir(j) <==> i == j
  {
    if layout.GentxDir(i) == layout.GentxDir(j) {
      assert layout.GentxDir(i)[|layout.parent|] == layout.stem + Dec(i);
      assert layout.GentxDir(j)[|layout.parent|] == layout.stem + Dec(j);
      IndexedNameInjective(layout.stem, i, j);
    }
  }

  lemma GentxFileInjective(layout: Layout, i: nat, a: string, j: nat, b: string)
    ensures layout.GentxFile(i, a) == layout.GentxFile(j, b) <==> i == j && a == b
  {
    if layout.GentxFile(i, a) == layout.GentxFile(j, b) {
      var n := |layout.parent| + 3;
      assert layout.GentxFile(i, a)[..n] == layout.GentxDir(i) && layout.GentxFile(j, b)[..n] == layout.GentxDir(j);
      assert layout.GentxFile(i, a)[n] == GentxName(a) && layout.GentxFile(j, b)[n] == GentxName(b);
      GentxDirInjective(layout, i, j);
      GentxNameInjective(a, b);
    }
  }

  /** A node's own genesis transaction is recognised as lying in its directory, and only there. */
  lemma OwnGentxOnly(layout: Layout, i: nat, id: string, j: nat)
    ensures IsSubDir(layout.GentxFile(i, id), layout.GentxDir(j)) <==> i == j
  {
    var src, dst := layout.GentxFile(i, id), layout.GentxDir(j);
    var k := CommonLength(dst, src);
    var ups := seq(|dst| - k, _ => "..");
    var parts := ups + src[k..];
    JoinSlashHead(parts);
    GentxDirInjective(layout, i, j);
    assert src[..|dst|] == layout.GentxDir(i);
    if i == j {
      assert dst <= src;
      assert parts == [GentxName(id)];
      assert GentxName(id)[0] == 'g';
    } else {
      assert k < |dst|;
      assert parts[0] == "..";
    }
  }

  // ---------- files ----------

  /** A directory and all directories above it. */
  function Ancestors(dir: Path): (r: set<Path>)
    ensures dir in r
  {
    assert dir[..|dir|] == dir;
    set k | 0 <= k <= |dir| :: dir[..k]
  }

  lemma AncestorsExact(dir: Path)
    ensures forall p :: p in Ancestors(dir) <==> p <= dir
  {
    forall p: Path | p <= dir
      ensures p in Ancestors(dir)
    {
      assert dir[..|p|] == p;
    }
  }

  class FileSystem {
    var files: map<Path, string>
    var dirs: set<Path>

    constructor (files: map<Path, string>, dirs: set<Path>)
      ensures this.files == files && this.dirs == dirs
    {
      this.files, this.dirs := files, dirs;
    }

    /** `writeFile`: the directory and its parents are made if they do not exist. */
    method WriteFile(file: Path, dir: Path, contents: string)
      modifies this
      ensures files == old(files)[file := contents] && dirs == old(dirs) + Ancestors(dir)
      ensures forall p :: p in dirs <==> p in old(dirs) || p <= dir
    {
      AncestorsExact(dir);
      dirs := dirs + Ancestors(dir);
      files := files[file := contents];
    }

    /** `copyFile`: the source is opened, the destination created empty, then the source is read. */
    method CopyFile(src: Path, dstDir: Path) returns (ok: bool)
      modifies this`files
      ensures ok <==> src != [] && src in old(files) && dstDir in dirs
      ensures ok ==> files == old(files)[dstDir + [src[|src| - 1]] :=
                                         if dstDir + [src[|src| - 1]] == src then "" else old(files)[src]]
      ensures !ok ==> files == old(files)
    {
      if src == [] || src !in files || dstDir !in dirs {
        return false;
      }
      var dst := dstDir + [src[|src| - 1]];
      files := files[dst := ""];
      files := files[dst := files[src]];
      return true;
    }
  }

  // ---------- genesis transactions for every node ----------

  predicate DistinctIds(ids: seq<string>) {
    forall i, j :: 0 <= i < j < |ids| ==> ids[i] != ids[j]
  }

  /** Where the j-th node's transaction lies in the i-th node's directory. */
  function At(layout: Layout, ids: seq<string>, i: nat, j: nat): Path
    requires j < |ids|
  {
    layout.GentxFile(i, ids[j])
  }

  /** Every place outside the gentx files of the n nodes holds what it held before. */
  ghost predicate OthersKept(layout: Layout, ids: seq<string>, before: map<Path, string>, after: map<Path, string>) {
    forall p :: (forall i, j :: 0 <= i < |ids| && 0 <= j < |ids| ==> p != At(layout, ids, i, j)) ==>
      (p in before <==> p in after) && (p in before ==> before[p] == after[p])
  }

  /** The files that are in place when the copying loops have reached file k of node i. */
  predicate Copied(i: nat, k: nat, a: nat, j: nat) {
    j == a || a < i || (a == i && j < k)
  }

  ghost predicate Placed(layout: Layout, ids: seq<string>, txs: seq<string>, files: map<Path, string>, i: nat, k: nat)
    requires |ids| == |txs|
  {
    forall a, j :: 0 <= a < |ids| && 0 <= j < |ids| && Copied(i, k, a, j) ==>
      At(layout, ids, a, j) in files && files[At(layout, ids, a, j)] == txs[j]
  }

  lemma {:induction false} AtInjective(layout: Layout, ids: seq<string>)
    requires DistinctIds(ids)
    ensures forall i: nat, j: nat, a: nat, b: nat :: j < |ids| && b < |ids| ==>
              (At(layout, ids, i, j) == At(layout, ids, a, b) <==> i == a && j == b)
  {
    hide Layout.GentxFile;
    forall i: nat, j: nat, a: nat, b: nat | j < |ids| && b < |ids|
      ensures At(layout, ids, i, j) == At(layout, ids, a, b) <==> i == a && j == b
    {
      GentxFileInjective(layout, i, ids[j], a, ids[b]);
    }
  }

  /** One place of the n * n is written. */
  lemma {:induction false} PlaceOne(layout: Layout, ids: seq<string>, txs: seq<string>, start: map<Path, string>,
                                    files: map<Path, string>, a: nat, j: nat)
    requires DistinctIds(ids) && |ids| == |txs| && a < |ids| && j < |ids|
    requires OthersKept(layout, ids, start, files)
    ensures OthersKept(layout, ids, start, files[At(layout, ids, a, j) := txs[j]])
    ensures forall i: nat, k: nat :: Placed(layout, ids, txs, files, i, k) ==>
              Placed(layout, ids, txs, files[At(layout, ids, a, j) := txs[j]], i, k)
  {
    hide At;
    AtInjective(layout, ids);
  }

  lemma OthersKeptAtFirst(layout: Layout, ids: seq<string>, files: map<Path, string>)
    ensures OthersKept(layout, ids, files, files)
  {
  }

  /** The first loop's part: every node's own transaction is written to its own directory. */
  method WriteGentxs(fs: FileSystem, layout: Layout, ids: seq<string>, txs: seq<string>) returns (gentxsFiles: seq<Path>)
    requires DistinctIds(ids) && |ids| == |txs|
    modifies fs
    ensures |gentxsFiles| == |ids| && forall j :: 0 <= j < |ids| ==> gentxsFiles[j] == At(layout, ids, j, j)
    ensures forall i :: 0 <= i < |ids| ==> layout.GentxDir(i) in fs.dirs
    ensures Placed(layout, ids, txs, fs.files, 0, 0)
    ensures OthersKept(layout, ids, old(fs.files), fs.files)
  {
    hide Layout.GentxFile, Layout.GentxDir, OthersKept;
    AtInjective(layout, ids);
    OthersKeptAtFirst(layout, ids, fs.files);
    gentxsFiles := [];
    for i := 0 to |ids|
      invariant |gentxsFiles| == i && forall j :: 0 <= j < i ==> gentxsFiles[j] == At(layout, ids, j, j)
      invariant forall j :: 0 <= j < i ==> layout.GentxDir(j) in fs.dirs
      invariant forall j :: 0 <= j < i ==>
                  At(layout, ids, j, j) in fs.files && fs.files[At(layout, ids, j, j)] == txs[j]
      invariant OthersKept(layout, ids, old(fs.files), fs.files)
    {
      var gentxsDir := layout.GentxDir(i);
      var file := layout.GentxFile(i, ids[i]);
      assert file == At(layout, ids, i, i);
      PlaceOne(layout, ids, txs, old(fs.files), fs.files, i, i);
      hide At;
      gentxsFiles := gentxsFiles + [file];
      fs.WriteFile(file, gentxsDir, txs[i]);
    }
  }

  /** The place of a transaction, written out. */
  lemma GentxPath(layout: Layout, ids: seq<string>, i: nat, j: nat)
    requires j < |ids|
    ensures At(layout, ids, i, j) == layout.parent + [layout.stem + Dec(i), "config", "gentx", "gentx-" + ids[j] + ".json"]
  {
  }

  /** The nested copying loops of `initTestnetFiles` after the first loop: every node's gentx
      directory ends up with the transactions of all nodes, and nothing else changes. */
  method DistributeGentxs(fs: FileSystem, layout: Layout, ids: seq<string>, txs: seq<string>) returns (ok: bool)
    requires DistinctIds(ids) && |ids| == |txs|
    modifies fs
    ensures ok
    ensures forall i, j :: 0 <= i < |ids| && 0 <= j < |ids| ==>
              At(layout, ids, i, j) in fs.files && fs.files[At(layout, ids, i, j)] == txs[j]
    ensures OthersKept(layout, ids, old(fs.files), fs.files)
  {
    hide Layout.GentxFile, Layout.GentxDir, OthersKept, IsSubDir;
    var gentxsFiles := WriteGentxs(fs, layout, ids, txs);
    for i := 0 to |ids|
      invariant forall j :: 0 <= j < |ids| ==> layout.GentxDir(j) in fs.dirs
      invariant Placed(layout, ids, txs, fs.files, i, 0)
      invariant OthersKept(layout, ids, old(fs.files), fs.files)
    {
      for k := 0 to |gentxsFiles|
        invariant forall j :: 0 <= j < |ids| ==> layout.GentxDir(j) in fs.dirs
        invariant Placed(layout, ids, txs, fs.files, i, k)
        invariant OthersKept(layout, ids, old(fs.files), fs.files)
      {
        var file := gentxsFiles[k];
        var gentxsDir := layout.GentxDir(i);
        OwnGentxOnly(layout, k, ids[k], i);
        assert file == layout.GentxFile(k, ids[k]);
        if IsSubDir(file, gentxsDir) {
          continue;
        }
        GentxPaths(layout, ids, i, k);
        PlaceOne(layout, ids, txs, old(fs.files), fs.files, i, k);
        AtInjective(layout, ids);
        assert Copied(i, k, k, k);
        hide At;
        var copied := fs.CopyFile(file, gentxsDir);
        if !copied {
          return false;
        }
      }
    }
    return true;
  }

  lemma GentxPaths(layout: Layout, ids: seq<string>, i: nat, k: nat)
    requires k < |ids|
    ensures var file := At(layout, ids, k, k);
            file != [] && layout.GentxDir(i) + [file[|file| - 1]] == At(layout, ids, i, k)
  {
  }

  /** The files below a directory. */
  ghost function Listing(files: map<Path, string>, dir: Path): set<Path> {
    set p | p in files && dir < p
  }

  /** A gentx directory that was empty holds exactly the n transactions. */
  lemma GentxDirHoldsExactly(layout: Layout, ids: seq<string>, before: map<Path, string>,
                                                after: map<Path, string>, i: nat)
    requires DistinctIds(ids) && i < |ids|
    requires OthersKept(layout, ids, before, after)
    requires forall j :: 0 <= j < |ids| ==> At(layout, ids, i, j) in after
    requires Listing(before, layout.GentxDir(i)) == {}
    ensures Listing(after, layout.GentxDir(i)) == set j | 0 <= j < |ids| :: At(layout, ids, i, j)
    ensures |Listing(after, layout.GentxDir(i))| == |ids|
  {
    var dir := layout.GentxDir(i);
    var places := set j | 0 <= j < |ids| :: At(layout, ids, i, j);
    forall p | p in Listing(after, dir)
      ensures p in places
    {
      assert p in before ==> p in Listing(before, dir);
      if p !in places {
        forall a, j | 0 <= a < |ids| && 0 <= j < |ids|
          ensures p != At(layout, ids, a, j)
        {
          if p == At(layout, ids, a, j) {
            assert layout.GentxDir(a) == p[..|dir|] == dir;
            GentxDirInjective(layout, a, i);
          }
        }
        assert false;
      }
    }
    assert forall p :: p in places ==> p in Listing(after, dir);
    assert Listing(after, dir) == places;
    PlacesCount(layout, ids, i, |ids|);
  }

  lemma {:induction false} PlacesCount(layout: Layout, ids: seq<string>, i: nat, n: nat)
    requires DistinctIds(ids) && n <= |ids|
    ensures |set j | 0 <= j < n :: At(layout, ids, i, j)| == n
  {
    hide At;
    var places := set j | 0 <= j < n :: At(layout, ids, i, j);
    if n > 0 {
      AtInjective(layout, ids);
      PlacesCount(layout, ids, i, n - 1);
      var last := At(layout, ids, i, n - 1);
      assert places == (set j | 0 <= j < n - 1 :: At(layout, ids, i, j)) + {last};
    } else {
      assert places == {};
    }
  }
}
