/**
  The tree of the files of a torrent as a value (FileViewModel.cpp:365-575): nodes in the order of
  their creation, with the index of the parent of each; node 0 is the root.
*/
module FileTree {
  import opened QtText
  import opened TreeShape

  datatype ItemType = NoType | Folder | File

  /** A file_entry; `number` is the file that the look-up by its offset finds, which empty files
      share with others. */
  datatype FileEntry = FileEntry(path: string, size: int, number: int, pad: bool)

  /** The entry of a folder. */
  function FakeEntry(path: string): FileEntry { FileEntry(path, 0, -1, false) }

  const NO_ENTRY := FakeEntry("")

  datatype Item = Item(name: string, kind: ItemType, entry: FileEntry)

  datatype Tree = Tree(par: Shape, items: seq<Item>)

  const EMPTY_TREE := Tree([-1], [Item("", NoType, NO_ENTRY)])

  /** Every node but the root has an older node as its parent. */
  ghost predicate Ok(t: Tree) {
    && |t.par| == |t.items| > 0 && t.par[0] == -1
    && (forall i :: 0 < i < |t.par| ==> 0 <= t.par[i] < i)
    && t.items[0] == Item("", NoType, NO_ENTRY)
  }

  // ----- adding a path

  /** The first of the nodes ks with that name, or -1. */
  function FindIn(t: Tree, ks: seq<int>, name: string): (c: int)
    requires |t.par| == |t.items| && forall k :: k in ks ==> 0 <= k < |t.par|
    ensures c != -1 ==> c in ks && t.items[c].name == name
    ensures c == -1 ==> forall k :: k in ks ==> t.items[k].name != name
    decreases |ks|
  {
    if ks == [] then -1
    else
      assert ks[0] in ks;
      assert forall k :: k in ks[1..] ==> k in ks;
      if t.items[ks[0]].name == name then ks[0] else FindIn(t, ks[1..], name)
  }

  function FindChild(t: Tree, p: int, name: string): (c: int)
    requires Ok(t) && 0 <= p < |t.par|
    ensures c != -1 ==> p < c < |t.par| && t.par[c] == p && t.items[c].name == name
    ensures c == -1 ==> forall k :: 0 < k < |t.par| && t.par[k] == p ==> t.items[k].name != name
  {
    var c := FindIn(t, Kids(t.par, p), name);
    assert c == -1 ==> forall k :: 0 < k < |t.par| && t.par[k] == p ==> t.items[k].name != name by {
      forall k | 0 < k < |t.par| && t.par[k] == p ensures c == -1 ==> t.items[k].name != name {
        KidsComplete(t.par, p, k);
      }
    }
    c
  }

  function Snoc(t: Tree, p: int, x: Item): Tree { Tree(t.par + [p], t.items + [x]) }

  /** The node for part i of a path, below node it. */
  function NewItem(t: Tree, it: int, parts: seq<string>, i: nat, fe: FileEntry): Item
    requires 0 <= it < |t.items| && i < |parts|
  {
    if i == |parts| - 1 then Item(parts[i], File, fe)
    else Item(parts[i], Folder, FakeEntry(t.items[it].entry.path + "/" + parts[i]))
  }

  /** Follow the parts from part i on, from node it, and add the nodes that are missing. */
  function AddFrom(t: Tree, it: int, parts: seq<string>, i: nat, fe: FileEntry): (r: Tree)
    requires Ok(t) && 0 <= it < |t.par| && i <= |parts|
    ensures Ok(r) && t.par <= r.par && t.items <= r.items
    decreases |parts| - i
  {
    if i == |parts| then t
    else
      var c := FindChild(t, it, parts[i]);
      if c != -1 then AddFrom(t, c, parts, i + 1, fe)
      else AddFrom(Snoc(t, it, NewItem(t, it, parts, i, fe)), |t.par|, parts, i + 1, fe)
  }

  function AddPath(t: Tree, path: string, fe: FileEntry): (r: Tree)
    requires Ok(t)
    ensures Ok(r)
  {
    AddFrom(t, 0, Split(path, '/'), 0, fe)
  }

  /** The tree for a list of files. */
  function Build(files: seq<(string, FileEntry)>): (t: Tree)
    ensures Ok(t)
    decreases |files|
  {
    if files == [] then EMPTY_TREE
    else
      var n := |files| - 1;
      AddPath(Build(files[..n]), files[n].0, files[n].1)
  }

  /** The files that are not padding, in order. */
  function Unpadded(files: seq<(string, FileEntry)>): seq<(string, FileEntry)> {
    if files == [] then []
    else
      var n := |files| - 1;
      Unpadded(files[..n]) + if files[n].1.pad then [] else [files[n]]
  }

  /** The indices ks, in ascending order, of the files that are in r. */
  ghost predicate Chosen(files: seq<(string, FileEntry)>, r: seq<(string, FileEntry)>, ks: seq<int>) {
    && |ks| == |r| && (forall i :: 0 <= i < |ks| ==> 0 <= ks[i] < |files| && r[i] == files[ks[i]])
    && (forall i, j :: 0 <= i < j < |ks| ==> ks[i] < ks[j])
    && (forall k :: 0 <= k < |files| ==> (k in ks <==> !files[k].1.pad))
  }

  lemma ChooseNext(files: seq<(string, FileEntry)>, r: seq<(string, FileEntry)>, ks: seq<int>)
    requires files != [] && Chosen(files[..|files| - 1], r, ks)
    ensures var n := |files| - 1;
            if files[n].1.pad then Chosen(files, r, ks) else Chosen(files, r + [files[n]], ks + [n])
  {
    var n := |files| - 1;
    assert n !in ks && forall k :: 0 <= k < n ==> files[..n][k] == files[k];
    assert forall k :: k in ks + [n] <==> k in ks || k == n;
  }

  /** The files that are left out are exactly the padding; the others keep their order. */
  lemma {:induction false} UnpaddedAre(files: seq<(string, FileEntry)>) returns (ks: seq<int>)
    ensures Chosen(files, Unpadded(files), ks)
    decreases |files|
  {
    hide Chosen;
    if files == [] {
      ks := [];
      NoneChosen();
    } else {
      var n := |files| - 1;
      ks := UnpaddedAre(files[..n]);
      ChooseNext(files, Unpadded(files[..n]), ks);
      assert Unpadded(files[..n]) + [] == Unpadded(files[..n]);
      if !files[n].1.pad { ks := ks + [n]; }
    }
  }

  lemma NoneChosen()
    ensures Chosen([], [], [])
  {
  }

  // ----- paths

  /** The names from the root to node i. */
  function Path(t: Tree, i: int): seq<string>
    requires Ok(t) && 0 <= i < |t.par|
    decreases i
  {
    if i == 0 then [] else Path(t, t.par[i]) + [t.items[i].name]
  }

  /** Siblings have different names. */
  ghost predicate Unique(t: Tree)
    requires Ok(t)
  {
    forall i, j :: 0 < i < j < |t.par| && t.par[i] == t.par[j] ==> t.items[i].name != t.items[j].name
  }

  lemma {:induction false} PathInjective(t: Tree, i: int, j: int)
    requires Ok(t) && Unique(t) && 0 <= i < |t.par| && 0 <= j < |t.par| && Path(t, i) == Path(t, j)
    ensures i == j
    decreases i
  {
    if i > 0 && j > 0 {
      var a, b := Path(t, i), Path(t, j);
      assert a[..|a| - 1] == Path(t, t.par[i]) && b[..|b| - 1] == Path(t, t.par[j]);
      assert a[|a| - 1] == t.items[i].name && b[|b| - 1] == t.items[j].name;
      PathInjective(t, t.par[i], t.par[j]);
    }
  }

  lemma {:induction false} PathKept(t: Tree, r: Tree, i: int)
    requires Ok(t) && Ok(r) && t.par <= r.par && t.items <= r.items && 0 <= i < |t.par|
    ensures Path(r, i) == Path(t, i)
    decreases i
  {
    if i > 0 { PathKept(t, r, t.par[i]); }
  }

  ghost predicate HasPath(t: Tree, p: seq<string>)
    requires Ok(t)
  {
    exists i :: 0 <= i < |t.par| && Path(t, i) == p
  }

  lemma SnocUnique(t: Tree, p: int, x: Item)
    requires Ok(t) && Unique(t) && 0 <= p < |t.par|
    requires forall k :: 0 < k < |t.par| && t.par[k] == p ==> t.items[k].name != x.name
    ensures Ok(Snoc(t, p, x)) && Unique(Snoc(t, p, x))
  {
  }

  /** The kind and the entry of a node that was made for the first k parts. */
  ghost predicate MadeFor(x: Item, parts: seq<string>, k: int, fe: FileEntry) {
    if k == |parts| then x.kind == File && x.entry == fe else x.kind == Folder
  }

  /** The nodes that a path adds: for each of its last m prefixes, in order. */
  ghost predicate Added(t: Tree, r: Tree, parts: seq<string>, fe: FileEntry)
    requires Ok(r)
  {
    var n := |t.par|;
    var m := |r.par| - n;
    && 0 <= m <= |parts|
    && forall j :: n <= j < n + m ==>
         && Path(r, j) == parts[..|parts| - m + 1 + (j - n)]
         && MadeFor(r.items[j], parts, |parts| - m + 1 + (j - n), fe)
  }

  ghost predicate NoChild(t: Tree, p: int) {
    forall k :: 0 < k < |t.par| ==> t.par[k] != p
  }

  /** What adding the parts from i on does. */
  ghost predicate Extends(t: Tree, r: Tree, it: int, parts: seq<string>, i: nat, fe: FileEntry)
    requires Ok(r) && i <= |parts|
  {
    && Unique(r) && Added(t, r, parts, fe) && |r.par| - |t.par| <= |parts| - i
    && (NoChild(t, it) ==> |r.par| - |t.par| == |parts| - i)
    && (forall k :: i <= k <= |parts| ==> HasPath(r, parts[..k]))
  }

  /** Adding a path keeps siblings apart and adds exactly the prefixes that are missing. */
  lemma {:induction false} AddsPrefixes(t: Tree, it: int, parts: seq<string>, i: nat, fe: FileEntry)
    requires Ok(t) && Unique(t) && 0 <= it < |t.par| && i <= |parts| && Path(t, it) == parts[..i]
    ensures Extends(t, AddFrom(t, it, parts, i, fe), it, parts, i, fe)
    decreases |parts| - i
  {
    hide FindChild, Unique, Added, HasPath, NewItem;
    var r := AddFrom(t, it, parts, i, fe);
    if i == |parts| {
      assert parts[..i] == parts;
      NothingAdded(t, it, parts, fe);
    } else {
      var c := FindChild(t, it, parts[i]);
      assert parts[..i + 1] == parts[..i] + [parts[i]];
      if c != -1 {
        AddsPrefixes(t, c, parts, i + 1, fe);
        HasThisPath(t, r, it, parts, i);
      } else {
        var x := NewItem(t, it, parts, i, fe);
        var t1 := Snoc(t, it, x);
        NewItemIs(t, it, parts, i, fe);
        SnocUnique(t, it, x);
        PathKept(t, t1, it);
        AddsPrefixes(t1, |t.par|, parts, i + 1, fe);
        assert NoChild(t1, |t.par|);
        OneMoreAdded(t, t1, r, parts, i, fe);
        HasThisPath(t, r, it, parts, i);
      }
    }
  }

  lemma NewItemIs(t: Tree, it: int, parts: seq<string>, i: nat, fe: FileEntry)
    requires 0 <= it < |t.items| && i < |parts|
    ensures var x := NewItem(t, it, parts, i, fe); x.name == parts[i] && MadeFor(x, parts, i + 1, fe)
  {
  }

  lemma NothingAdded(t: Tree, it: int, parts: seq<string>, fe: FileEntry)
    requires Ok(t) && Unique(t) && 0 <= it < |t.par| && Path(t, it) == parts
    ensures Extends(t, t, it, parts, |parts|, fe)
  {
    assert parts[..|parts|] == parts;
  }

  lemma HasThisPath(t: Tree, r: Tree, it: int, parts: seq<string>, i: nat)
    requires Ok(t) && Ok(r) && t.par <= r.par && t.items <= r.items && 0 <= it < |t.par|
    requires i <= |parts| && Path(t, it) == parts[..i]
    ensures HasPath(r, parts[..i])
  {
    PathKept(t, r, it);
    assert Path(r, it) == parts[..i];
  }

  /** The first new node, in front of those that the rest of the path adds. */
  lemma OneMoreAdded(t: Tree, t1: Tree, r: Tree, parts: seq<string>, i: nat, fe: FileEntry)
    requires Ok(t) && Ok(t1) && Ok(r) && i < |parts|
    requires |t1.par| == |t.par| + 1 && t1.par <= r.par && t1.items <= r.items
    requires Path(t1, |t.par|) == parts[..i + 1] && MadeFor(t1.items[|t.par|], parts, i + 1, fe)
    requires Added(t1, r, parts, fe) && |r.par| - |t1.par| == |parts| - (i + 1)
    ensures Added(t, r, parts, fe)
  {
    hide MadeFor;
    PathKept(t1, r, |t.par|);
  }

  // ----- the tree of a list of files

  function Parts(f: (string, FileEntry)): seq<string> { Split(f.0, '/') }

  /** The first file whose path starts with p, or the number of files. */
  function First(files: seq<(string, FileEntry)>, p: seq<string>): (k: nat)
    ensures k <= |files| && (k < |files| ==> p <= Parts(files[k]))
    ensures forall j :: 0 <= j < k ==> !(p <= Parts(files[j]))
    decreases |files|
  {
    if files == [] then 0
    else
      var n := |files| - 1;
      var k := First(files[..n], p);
      if k < n then k else if p <= Parts(files[n]) then n else n + 1
  }

  /** The node for p belongs to the first file whose path starts with p: it is that file, or a
      folder on the way to it. */
  ghost predicate Explained(files: seq<(string, FileEntry)>, x: Item, p: seq<string>) {
    var k := First(files, p);
    k < |files| && MadeFor(x, Parts(files[k]), |p|, files[k].1)
  }

  ghost predicate NodesExplained(files: seq<(string, FileEntry)>, t: Tree)
    requires Ok(t)
  {
    forall i :: 0 < i < |t.par| ==> Explained(files, t.items[i], Path(t, i))
  }

  ghost predicate PathsPresent(files: seq<(string, FileEntry)>, t: Tree)
    requires Ok(t)
  {
    forall k, j :: 0 <= k < |files| && 0 <= j <= |Parts(files[k])| ==> HasPath(t, Parts(files[k])[..j])
  }

  /** The nodes of the tree are the prefixes of the paths, each once, and the first file that
      starts with a prefix decides whether it is a folder or which file it is. */
  lemma {:induction false} BuildIsThePaths(files: seq<(string, FileEntry)>)
    ensures var t := Build(files); Unique(t) && NodesExplained(files, t) && PathsPresent(files, t)
    decreases |files|
  {
    hide *;
    if files == [] {
      NoFiles(files);
    } else {
      var n := |files| - 1;
      BuildIsThePaths(files[..n]);
      OneMoreFile(files, Build(files[..n]));
    }
  }

  lemma NoFiles(files: seq<(string, FileEntry)>)
    requires files == []
    ensures var t := Build(files); Unique(t) && NodesExplained(files, t) && PathsPresent(files, t)
  {
  }

  lemma OneMoreFile(files: seq<(string, FileEntry)>, t: Tree)
    requires files != [] && Ok(t) && t == Build(files[..|files| - 1])
    requires Unique(t) && NodesExplained(files[..|files| - 1], t) && PathsPresent(files[..|files| - 1], t)
    ensures var r := Build(files); Unique(r) && NodesExplained(files, r) && PathsPresent(files, r)
  {
    hide *;
    var n := |files| - 1;
    var parts, fe := Parts(files[n]), files[n].1;
    StartsAtRoot(t, parts);
    AddsPrefixes(t, 0, parts, 0, fe);
    BuildStep(files);
    var r := Build(files);
    ExtendsFacts(t, r, parts, fe);
    NodesAfter(files, t, r);
    PathsAfter(files, t, r);
  }

  lemma StartsAtRoot(t: Tree, parts: seq<string>)
    requires Ok(t)
    ensures |t.par| > 0 && Path(t, 0) == parts[..0]
  {
    assert parts[..0] == [];
  }

  lemma ExtendsFacts(t: Tree, r: Tree, parts: seq<string>, fe: FileEntry)
    requires Ok(r) && Extends(t, r, 0, parts, 0, fe)
    ensures Unique(r) && Added(t, r, parts, fe)
    ensures forall k :: 0 <= k <= |parts| ==> HasPath(r, parts[..k])
  {
    hide Unique, Added, HasPath;
  }

  lemma NodesAfter(files: seq<(string, FileEntry)>, t: Tree, r: Tree)
    requires files != [] && Ok(t) && Ok(r) && Unique(r) && t.par <= r.par && t.items <= r.items
    requires NodesExplained(files[..|files| - 1], t) && PathsPresent(files[..|files| - 1], t)
    requires Added(t, r, Parts(files[|files| - 1]), files[|files| - 1].1)
    ensures NodesExplained(files, r)
  {
    hide Unique, Added, Parts, PathsPresent, Explained;
    forall i | 0 < i < |r.par| ensures Explained(files, r.items[i], Path(r, i)) {
      if i < |t.par| { OldNode(files, t, r, i); } else { NewNode(files, t, r, i); }
    }
  }

  lemma PathsAfter(files: seq<(string, FileEntry)>, t: Tree, r: Tree)
    requires files != [] && Ok(t) && Ok(r) && t.par <= r.par && t.items <= r.items
    requires PathsPresent(files[..|files| - 1], t)
    requires var parts := Parts(files[|files| - 1]); forall k :: 0 <= k <= |parts| ==> HasPath(r, parts[..k])
    ensures PathsPresent(files, r)
  {
    hide Parts, HasPath;
    var n := |files| - 1;
    forall k, j | 0 <= k < |files| && 0 <= j <= |Parts(files[k])| ensures HasPath(r, Parts(files[k])[..j]) {
      if k < n {
        assert files[..n][k] == files[k];
        PathStays(t, r, Parts(files[k])[..j]);
      }
    }
  }

  lemma BuildStep(files: seq<(string, FileEntry)>)
    requires files != []
    ensures Build(files) == AddFrom(Build(files[..|files| - 1]), 0, Parts(files[|files| - 1]), 0, files[|files| - 1].1)
  {
  }

  lemma PathStays(t: Tree, r: Tree, p: seq<string>)
    requires Ok(t) && Ok(r) && t.par <= r.par && t.items <= r.items && HasPath(t, p)
    ensures HasPath(r, p)
  {
    var i :| 0 <= i < |t.par| && Path(t, i) == p;
    PathKept(t, r, i);
  }

  lemma OldNode(files: seq<(string, FileEntry)>, t: Tree, r: Tree, i: int)
    requires files != [] && Ok(t) && Ok(r) && t.par <= r.par && t.items <= r.items && 0 < i < |t.par|
    requires NodesExplained(files[..|files| - 1], t)
    ensures Explained(files, r.items[i], Path(r, i))
  {
    hide MadeFor;
    PathKept(t, r, i);
    assert Explained(files[..|files| - 1], t.items[i], Path(t, i));
  }

  /** A node that the last file adds has a path that no earlier file starts with. */
  lemma NewNode(files: seq<(string, FileEntry)>, t: Tree, r: Tree, i: int)
    requires files != [] && Ok(t) && Ok(r) && Unique(r) && t.par <= r.par && t.items <= r.items &&
             |t.par| <= i < |r.par|
    requires PathsPresent(files[..|files| - 1], t)
    requires Added(t, r, Parts(files[|files| - 1]), files[|files| - 1].1)
    ensures Explained(files, r.items[i], Path(r, i))
  {
    hide MadeFor, Unique, Parts;
    var n, p := |files| - 1, Path(r, i);
    var parts := Parts(files[n]);
    var k := |parts| - (|r.par| - |t.par|) + 1 + (i - |t.par|);
    assert p == parts[..k];
    var f := First(files[..n], p);
    if f < n {
      var q := Parts(files[..n][f]);
      assert q[..|p|] == p;
      assert HasPath(t, p);
      var o :| 0 <= o < |t.par| && Path(t, o) == p;
      PathKept(t, r, o);
      PathInjective(r, o, i);
    }
    assert First(files, p) == n;
  }

  // ----- files and folders

  ghost predicate IsFileAt(t: Tree, p: seq<string>, fe: FileEntry)
    requires Ok(t)
  {
    exists i :: 0 < i < |t.par| && Path(t, i) == p && t.items[i].kind == File && t.items[i].entry == fe
  }

  lemma SplitIsSome(f: (string, FileEntry))
    ensures Parts(f) != []
  {
  }

  /** A path has a file node exactly when the first file that starts with it is that path itself, and
      then the node is that first file.  So a file is lost exactly when an earlier file has a longer
      path or the same path. */
  lemma FileNodes(files: seq<(string, FileEntry)>, p: seq<string>, fe: FileEntry)
    requires p != []
    ensures IsFileAt(Build(files), p, fe) <==>
            First(files, p) < |files| && Parts(files[First(files, p)]) == p && files[First(files, p)].1 == fe
  {
    hide Build, First, Split, Unique, PathsPresent, HasPath;
    BuildIsThePaths(files);
    var t, k := Build(files), First(files, p);
    if k < |files| && Parts(files[k]) == p && files[k].1 == fe {
      assert p[..|p|] == p;
      PresentAt(files, t, k, |p|);
      PathAt(t, p);
      var i :| 0 <= i < |t.par| && Path(t, i) == p;
      assert i != 0;
      assert Explained(files, t.items[i], p);
    }
    if IsFileAt(t, p, fe) {
      var i :| 0 < i < |t.par| && Path(t, i) == p && t.items[i].kind == File && t.items[i].entry == fe;
      assert Explained(files, t.items[i], p);
    }
  }

  lemma PresentAt(files: seq<(string, FileEntry)>, t: Tree, k: int, j: int)
    requires Ok(t) && PathsPresent(files, t) && 0 <= k < |files| && 0 <= j <= |Parts(files[k])|
    ensures HasPath(t, Parts(files[k])[..j])
  {
  }

  lemma PathAt(t: Tree, p: seq<string>)
    requires Ok(t) && HasPath(t, p)
    ensures exists i :: 0 <= i < |t.par| && Path(t, i) == p
  {
  }

  /** No path starts with another. */
  ghost predicate PrefixFree(files: seq<(string, FileEntry)>) {
    forall j, k :: 0 <= j < |files| && 0 <= k < |files| && j != k ==> !(Parts(files[j]) <= Parts(files[k]))
  }

  /** Without such clashes the file nodes are exactly the files. */
  lemma PrefixFreeFiles(files: seq<(string, FileEntry)>, p: seq<string>, fe: FileEntry)
    requires PrefixFree(files) && p != []
    ensures IsFileAt(Build(files), p, fe) <==> exists k :: 0 <= k < |files| && Parts(files[k]) == p && files[k].1 == fe
  {
    hide Build, IsFileAt, First, Parts;
    FileNodes(files, p, fe);
    var f := First(files, p);
    if k :| 0 <= k < |files| && Parts(files[k]) == p && files[k].1 == fe {
      assert p <= Parts(files[k]);
      assert f <= k && Parts(files[k]) <= Parts(files[f]);
    }
  }

  /** No file has nodes below it. */
  ghost predicate Leafy(t: Tree)
    requires Ok(t)
  {
    forall c :: 0 < c < |t.par| ==> t.items[t.par[c]].kind != File
  }

  lemma PrefixFreeIsLeafy(files: seq<(string, FileEntry)>)
    requires PrefixFree(files)
    ensures Leafy(Build(files))
  {
    hide Build, First, Split, Unique, PathsPresent;
    BuildIsThePaths(files);
    var t := Build(files);
    forall c | 0 < c < |t.par| ensures t.items[t.par[c]].kind != File {
      var p := t.par[c];
      if p > 0 {
        assert Explained(files, t.items[p], Path(t, p)) && Explained(files, t.items[c], Path(t, c));
        var j, k := First(files, Path(t, p)), First(files, Path(t, c));
        assert Path(t, p) <= Path(t, c) && |Path(t, p)| < |Path(t, c)|;
        assert Parts(files[j])[..|Path(t, p)|] == Path(t, p);
      }
    }
  }

  // ----- the entries of folders

  /** Every folder's entry continues that of its parent. */
  ghost predicate FoldersContinue(t: Tree)
    requires Ok(t)
  {
    forall i :: 0 < i < |t.par| && t.items[i].kind != File ==>
      t.items[i] == Item(t.items[i].name, Folder, FakeEntry(t.items[t.par[i]].entry.path + "/" + t.items[i].name))
  }

  lemma {:induction false} AddKeepsFolders(t: Tree, it: int, parts: seq<string>, i: nat, fe: FileEntry)
    requires Ok(t) && FoldersContinue(t) && 0 <= it < |t.par| && i <= |parts|
    ensures FoldersContinue(AddFrom(t, it, parts, i, fe))
    decreases |parts| - i
  {
    hide FindChild;
    if i < |parts| {
      var c := FindChild(t, it, parts[i]);
      if c != -1 {
        AddKeepsFolders(t, c, parts, i + 1, fe);
      } else {
        AddKeepsFolders(Snoc(t, it, NewItem(t, it, parts, i, fe)), |t.par|, parts, i + 1, fe);
      }
    }
  }

  lemma {:induction false} BuiltFolders(files: seq<(string, FileEntry)>)
    ensures FoldersContinue(Build(files))
    decreases |files|
  {
    hide FoldersContinue;
    if files == [] {
      NoFolders();
    } else {
      var n := |files| - 1;
      BuiltFolders(files[..n]);
      AddKeepsFolders(Build(files[..n]), 0, Parts(files[n]), 0, files[n].1);
    }
  }

  lemma NoFolders()
    ensures FoldersContinue(EMPTY_TREE)
  {
  }

  function Slashed(p: seq<string>): string {
    if p == [] then "" else Slashed(p[..|p| - 1]) + "/" + p[|p| - 1]
  }

  /** The path that a folder's entry carries, with which its directory is opened, is that of its node,
      as long as no path of the torrent starts with another. */
  lemma {:induction false} FolderEntryIsPath(t: Tree, i: int)
    requires Ok(t) && Leafy(t) && FoldersContinue(t) && 0 <= i < |t.par| && t.items[i].kind != File
    ensures t.items[i].entry.path == Slashed(Path(t, i))
    decreases i
  {
    if i > 0 {
      var a := Path(t, i);
      assert a[..|a| - 1] == Path(t, t.par[i]);
      FolderEntryIsPath(t, t.par[i]);
    }
  }
}
