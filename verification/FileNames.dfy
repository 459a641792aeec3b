/**
  The tree of files for paths that are given as lists of names with slashes in between
  (FileViewModel.cpp:444-473, 518-575): which nodes there are, and how large a folder is.
*/
module FileNames {
  import opened QtText
  import opened TreeShape
  import opened FileTree
  import opened FileTreeSums

  datatype NamedFile = NamedFile(names: seq<string>, entry: FileEntry)

  /** Every file has a name, and no name holds a slash. */
  predicate CleanNames(fs: seq<NamedFile>) {
    forall k :: 0 <= k < |fs| ==> fs[k].names != [] && forall i :: 0 <= i < |fs[k].names| ==> '/' !in fs[k].names[i]
  }

  /** The files as the program gets them. */
  function Listed(fs: seq<NamedFile>): (r: seq<(string, FileEntry)>)
    ensures |r| == |fs| && forall k :: 0 <= k < |fs| ==> r[k] == (Join(fs[k].names, '/'), fs[k].entry)
  {
    seq(|fs|, k requires 0 <= k < |fs| => (Join(fs[k].names, '/'), fs[k].entry))
  }

  /** The nodes from the root down along the names p. */
  ghost predicate Leads(t: Tree, ks: seq<int>, p: seq<string>) {
    && |ks| == |p| + 1 && ks[0] == 0
    && forall j :: 0 <= j < |p| ==> IsChild(t, ks[j], p[j], ks[j + 1])
  }

  ghost predicate IsChild(t: Tree, k: int, name: string, c: int) {
    0 < c < |t.par| && c < |t.items| && t.par[c] == k && t.items[c].name == name
  }

  /** Going down from the root along p one comes to node i. */
  ghost predicate ComesTo(t: Tree, p: seq<string>, i: int) {
    exists ks :: Leads(t, ks, p) && |ks| == |p| + 1 && ks[|p|] == i
  }

  lemma {:induction false} LeadsToPath(t: Tree, ks: seq<int>, p: seq<string>)
    requires Ok(t) && Leads(t, ks, p)
    ensures 0 <= ks[|p|] < |t.par| && Path(t, ks[|p|]) == p
    decreases |p|
  {
    if p != [] {
      var n := |p| - 1;
      assert Leads(t, ks[..n + 1], p[..n]);
      LeadsToPath(t, ks[..n + 1], p[..n]);
      assert p == p[..n] + [p[n]];
    }
  }

  lemma {:induction false} PathLeads(t: Tree, i: int) returns (ks: seq<int>)
    requires Ok(t) && 0 <= i < |t.par|
    ensures Leads(t, ks, Path(t, i)) && ks[|Path(t, i)|] == i
    decreases i
  {
    if i == 0 {
      ks := [0];
    } else {
      var up := PathLeads(t, t.par[i]);
      ks := up + [i];
    }
  }

  lemma LeadsSize(t: Tree, ks: seq<int>, p: seq<string>)
    requires Leads(t, ks, p)
    ensures |ks| == |p| + 1
  {
  }

  lemma ComesToItsPath(t: Tree, p: seq<string>, i: int)
    requires Ok(t)
    ensures ComesTo(t, p, i) <==> 0 <= i < |t.par| && Path(t, i) == p
  {
    hide Leads, Path;
    if 0 <= i < |t.par| && Path(t, i) == p {
      var ks := PathLeads(t, i);
      LeadsSize(t, ks, p);
    }
    if ComesTo(t, p, i) {
      var ks :| Leads(t, ks, p) && |ks| == |p| + 1 && ks[|p|] == i;
      LeadsToPath(t, ks, p);
    }
  }

  lemma PartsAreNames(fs: seq<NamedFile>, k: int)
    requires CleanNames(fs) && 0 <= k < |fs|
    ensures Parts(Listed(fs)[k]) == fs[k].names && Listed(fs)[k].1 == fs[k].entry
  {
    JoinThenSplit(fs[k].names, '/');
  }

  /** File k is the first one whose names begin with p. */
  ghost predicate IsFirst(fs: seq<NamedFile>, p: seq<string>, k: int) {
    && 0 <= k < |fs| && p <= fs[k].names
    && forall j :: 0 <= j < k ==> !(p <= fs[j].names)
  }

  lemma FirstIs(fs: seq<NamedFile>, p: seq<string>)
    requires CleanNames(fs)
    ensures var f := First(Listed(fs), p);
            && (f < |fs| ==> IsFirst(fs, p, f))
            && forall k :: IsFirst(fs, p, k) ==> k == f
  {
    hide First, Parts, CleanNames;
    forall k | 0 <= k < |fs| ensures Parts(Listed(fs)[k]) == fs[k].names { PartsAreNames(fs, k); }
    var f := First(Listed(fs), p);
    forall k | IsFirst(fs, p, k) ensures k == f {
      assert p <= Parts(Listed(fs)[k]);
    }
  }

  /** Down along p there is a file exactly when the first file whose names begin with p has just these
      names, and then it is that file. */
  lemma FilesAreWhereTheirNamesSay(fs: seq<NamedFile>, p: seq<string>, fe: FileEntry)
    requires CleanNames(fs) && p != []
    ensures var t := Build(Listed(fs));
            (exists i :: ComesTo(t, p, i) && 0 <= i < |t.items| && t.items[i].kind == File &&
                t.items[i].entry == fe) <==>
            (exists k :: IsFirst(fs, p, k) && fs[k].names == p && fs[k].entry == fe)
  {
    hide *;
    var t := Build(Listed(fs));
    FileNodes(Listed(fs), p, fe);
    FileAtIs(t, p, fe);
    forall i ensures ComesTo(t, p, i) <==> 0 <= i < |t.par| && Path(t, i) == p { ComesToItsPath(t, p, i); }
    FirstIs(fs, p);
    ListedSize(fs);
    var f := First(Listed(fs), p);
    if f < |fs| { PartsAreNames(fs, f); }
    forall k | IsFirst(fs, p, k) ensures k == f < |fs| { InRange(fs, p, k); }
    RootIsFirst(t);
  }

  lemma RootIsFirst(t: Tree)
    requires Ok(t)
    ensures Path(t, 0) == [] && |t.par| == |t.items| > 0
  {
  }

  lemma ListedSize(fs: seq<NamedFile>)
    ensures |Listed(fs)| == |fs|
  {
  }

  lemma InRange(fs: seq<NamedFile>, p: seq<string>, k: int)
    requires IsFirst(fs, p, k)
    ensures 0 <= k < |fs|
  {
  }

  lemma FileAtIs(t: Tree, p: seq<string>, fe: FileEntry)
    requires Ok(t)
    ensures IsFileAt(t, p, fe) <==>
            exists i :: 0 < i < |t.par| && Path(t, i) == p && t.items[i].kind == File && t.items[i].entry == fe
  {
  }

  /** There is a folder exactly when the first file whose names begin with p has more of them. */
  lemma FoldersAreOnTheWay(fs: seq<NamedFile>, p: seq<string>)
    requires CleanNames(fs) && p != []
    ensures var t := Build(Listed(fs));
            (exists i :: ComesTo(t, p, i) && 0 <= i < |t.items| && t.items[i].kind == Folder) <==>
            (exists k :: IsFirst(fs, p, k) && fs[k].names != p)
  {
    hide *;
    var t, files := Build(Listed(fs)), Listed(fs);
    BuildIsThePaths(files);
    FirstIs(fs, p);
    ListedSize(fs);
    RootIsFirst(t);
    forall i ensures ComesTo(t, p, i) <==> 0 <= i < |t.par| && Path(t, i) == p { ComesToItsPath(t, p, i); }
    var f := First(files, p);
    forall k | IsFirst(fs, p, k) ensures k == f < |fs| { InRange(fs, p, k); }
    if f < |fs| {
      PartsAreNames(fs, f);
      NodeForFirst(files, p);
      var i :| 0 < i < |t.par| && Path(t, i) == p;
      NodeKind(files, i);
    }
    forall i | 0 < i < |t.par| && Path(t, i) == p
      ensures f < |fs| && (t.items[i].kind == Folder <==> fs[f].names != p) {
      NodeKind(files, i);
      PartsAreNames(fs, f);
    }
  }

  lemma NodeKind(files: seq<(string, FileEntry)>, i: int)
    requires var t := Build(files); 0 < i < |t.par| && NodesExplained(files, t)
    ensures var t := Build(files); var p := Path(t, i);
            && First(files, p) < |files|
            && (t.items[i].kind == Folder <==> Parts(files[First(files, p)]) != p)
  {
    hide Build, First, Path, Parts;
    var t := Build(files);
    assert Explained(files, t.items[i], Path(t, i));
    var q := Parts(files[First(files, Path(t, i))]);
    assert |q| == |Path(t, i)| ==> q == Path(t, i);
  }

  lemma NodeForFirst(files: seq<(string, FileEntry)>, p: seq<string>)
    requires PathsPresent(files, Build(files)) && p != [] && First(files, p) < |files|
    ensures var t := Build(files); exists i :: 0 < i < |t.par| && Path(t, i) == p
  {
    hide Build, First, Parts, PathsPresent, HasPath;
    var t, f := Build(files), First(files, p);
    assert Parts(files[f])[..|p|] == p;
    PresentAt(files, t, f, |p|);
    PathAt(t, p);
    RootIsFirst(t);
    var i :| 0 <= i < |t.par| && Path(t, i) == p;
  }

  // ----- sizes

  /** No list of names begins with another. */
  predicate NoneContinues(fs: seq<NamedFile>) {
    forall j, k :: 0 <= j < |fs| && 0 <= k < |fs| && j != k ==> !(fs[j].names <= fs[k].names)
  }

  /** The size of all files whose names go on behind p. */
  function SizeBelow(fs: seq<NamedFile>, p: seq<string>): int
    decreases |fs|
  {
    if fs == [] then 0
    else SizeBelow(fs[..|fs| - 1], p) + if p < fs[|fs| - 1].names then fs[|fs| - 1].entry.size else 0
  }

  lemma NoneContinuesIsPrefixFree(fs: seq<NamedFile>)
    requires CleanNames(fs) && NoneContinues(fs)
    ensures PrefixFree(Listed(fs))
  {
    hide Parts, CleanNames;
    forall k | 0 <= k < |fs| ensures Parts(Listed(fs)[k]) == fs[k].names { PartsAreNames(fs, k); }
  }

  lemma FrontListed(fs: seq<NamedFile>)
    requires fs != [] && CleanNames(fs) && NoneContinues(fs)
    ensures CleanNames(fs[..|fs| - 1]) && NoneContinues(fs[..|fs| - 1])
    ensures Listed(fs)[..|fs| - 1] == Listed(fs[..|fs| - 1])
  {
    var a, b := Listed(fs)[..|fs| - 1], Listed(fs[..|fs| - 1]);
    assert |a| == |b| && forall k :: 0 <= k < |a| ==> a[k] == b[k];
  }

  lemma {:induction false} SizesAgree(fs: seq<NamedFile>, p: seq<string>)
    requires CleanNames(fs) && NoneContinues(fs)
    ensures SizeUnder(Listed(fs), p) == SizeBelow(fs, p)
    decreases |fs|
  {
    hide CleanNames, NoneContinues, PrefixFree, Parts, Listed, CountsFor;
    ListedSize(fs);
    if fs != [] {
      var n := |fs| - 1;
      FrontListed(fs);
      SizesAgree(fs[..n], p);
      NoneContinuesIsPrefixFree(fs);
      AllCount(Listed(fs), p, n);
      PartsAreNames(fs, n);
    }
  }

  /** The size that the program computes for a folder is the sum of the sizes of the files in it, at
      any depth. */
  lemma FolderSizeIsSizeBelow(fs: seq<NamedFile>, p: seq<string>, i: int)
    requires CleanNames(fs) && NoneContinues(fs) && ComesTo(Build(Listed(fs)), p, i)
    ensures var t := Build(Listed(fs)); 0 <= i < |t.par| && Weigh(t, SizeOf(t), i) == SizeBelow(fs, p)
  {
    hide *;
    ComesToItsPath(Build(Listed(fs)), p, i);
    FolderSizeIsSizeUnder(Listed(fs), i);
    SizesAgree(fs, p);
  }

  // ----- the paths of folders

  lemma {:induction false} JoinSnoc(p: seq<string>, name: string, c: char)
    requires p != []
    ensures Join(p + [name], c) == Join(p, c) + [c] + name
    decreases |p|
  {
    if |p| == 1 {
      assert (p + [name])[1..] == [name];
    } else {
      JoinSnoc(p[1..], name, c);
      assert (p + [name])[1..] == p[1..] + [name];
    }
  }

  lemma {:induction false} SlashedIs(p: seq<string>)
    requires p != []
    ensures Slashed(p) == "/" + Join(p, '/')
    decreases |p|
  {
    hide Join;
    var n := |p| - 1;
    if n == 0 {
      OneName(p[0]);
      assert p == [p[0]];
    } else {
      SlashedIs(p[..n]);
      JoinSnoc(p[..n], p[n], '/');
      assert p == p[..n] + [p[n]];
      OneMoreName(Join(p[..n], '/'), p[n]);
    }
  }

  lemma OneName(name: string)
    ensures Slashed([name]) == "/" + name && Join([name], '/') == name
  {
    assert [name][..0] == [] && Slashed([]) == "" && "" + "/" + name == "/" + name;
  }

  lemma OneMoreName(front: string, name: string)
    ensures ("/" + front) + "/" + name == "/" + (front + ['/'] + name)
  {
  }

  /** A folder carries its path, and neither a size nor a file. */
  lemma FolderEntries(fs: seq<NamedFile>, p: seq<string>, i: int)
    requires CleanNames(fs) && NoneContinues(fs) && p != [] && ComesTo(Build(Listed(fs)), p, i)
    ensures var t := Build(Listed(fs));
            && 0 <= i < |t.items|
            && (t.items[i].kind != File ==> t.items[i].entry == FileEntry("/" + Join(p, '/'), 0, -1, false))
  {
    hide *;
    var t, files := Build(Listed(fs)), Listed(fs);
    ComesToItsPath(t, p, i);
    RootIsFirst(t);
    NoneContinuesIsPrefixFree(fs);
    PrefixFreeIsLeafy(files);
    BuiltFolders(files);
    if t.items[i].kind != File {
      FolderEntryIsPath(t, i);
      SlashedIs(p);
      FolderIsFake(t, i);
    }
  }

  lemma FolderIsFake(t: Tree, i: int)
    requires Ok(t) && FoldersContinue(t) && 0 < i < |t.par| && t.items[i].kind != File
    ensures var e := t.items[i].entry; e == FileEntry(e.path, 0, -1, false)
  {
  }
}
