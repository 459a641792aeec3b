/**
  The tree items and the model over them (FileViewTreeItem.cpp, FileViewModel.cpp:365-575).  The
  objects represent a tree of FileTree: `nodes` lists them in the order of their creation.
*/
module FileViewModels {
  import opened Sequences
  import opened QtText
  import opened TreeShape
  import opened FileTree
  import opened FileTreeSums

  class FileViewTreeItem {
    const fileEntry: FileEntry
    const kind: ItemType
    const name: string
    const parent: FileViewTreeItem?
    var children: seq<FileViewTreeItem>

    constructor (fe: FileEntry, kind: ItemType, name: string, parent: FileViewTreeItem?)
      ensures fileEntry == fe && this.kind == kind && this.name == name && this.parent == parent && children == []
    {
      fileEntry, this.kind, this.name, this.parent, children := fe, kind, name, parent, [];
    }

    ghost function Fields(): Item { Item(name, kind, fileEntry) }

    method AddChild(child: FileViewTreeItem)
      modifies `children
      ensures children == old(children) + [child]
    {
      children := children + [child];
    }

    /** The child n, or null behind the last. */
    method GetNthChild(n: nat) returns (r: FileViewTreeItem?)
      ensures r == null <==> n >= |children|
      ensures r != null ==> r == children[n]
    {
      if |children| > n {
        r := children[n];
      } else {
        r := null;
      }
    }
  }

  // ----- what the objects represent

  ghost predicate ChildrenOk(nodes: seq<FileViewTreeItem>, par: Shape)
    reads nodes`children
  {
    |nodes| == |par| && forall i :: 0 <= i < |nodes| ==> nodes[i].children == KidsOf(nodes, par, i)
  }

  ghost predicate FieldsOk(nodes: seq<FileViewTreeItem>, t: Tree) {
    && Ok(t) && |nodes| == |t.par|
    && nodes[0].parent == null
    && (forall i :: 0 < i < |nodes| ==> nodes[i].parent == nodes[t.par[i]])
    && (forall i :: 0 <= i < |nodes| ==> nodes[i].Fields() == t.items[i])
  }

  lemma KidNodeAt(nodes: seq<FileViewTreeItem>, par: Shape, p: int, m: int)
    requires ChildrenOk(nodes, par) && 0 <= p < |nodes| && 0 <= m < |Kids(par, p)|
    ensures |nodes[p].children| == |Kids(par, p)| && 0 <= Kids(par, p)[m] < |nodes|
    ensures nodes[p].children[m] == nodes[Kids(par, p)[m]]
  {
    KidsInRange(par, p);
  }

  lemma ChildCount(nodes: seq<FileViewTreeItem>, par: Shape, p: int)
    requires ChildrenOk(nodes, par) && 0 <= p < |nodes|
    ensures |nodes[p].children| == |Kids(par, p)|
  {
  }

  lemma KidNodesSnoc(nodes: seq<FileViewTreeItem>, par: Shape, x: FileViewTreeItem, q: int, p: int)
    requires |nodes| == |par|
    ensures KidsOf(nodes + [x], par + [q], p) == KidsOf(nodes, par, p) + if p == q then [x] else []
  {
    KidsSnocIs(par, q, p);
    KidsInRange(par, p);
    hide Kids;
    var a := KidsOf(nodes, par, p) + if p == q then [x] else [];
    var b := KidsOf(nodes + [x], par + [q], p);
    assert |a| == |b|;
    forall m | 0 <= m < |a| ensures a[m] == b[m] {}
  }

  lemma ChildrenSnoc(nodes: seq<FileViewTreeItem>, par: Shape, x: FileViewTreeItem, q: int,
                     lists: seq<seq<FileViewTreeItem>>)
    requires |nodes| == |par| == |lists| && 0 <= q < |par| && x.children == []
    requires forall i :: 0 <= i < |nodes| ==> lists[i] == KidsOf(nodes, par, i)
    requires forall i :: 0 <= i < |nodes| ==> nodes[i].children == if i == q then lists[i] + [x] else lists[i]
    requires forall i :: 0 <= i < |par| ==> par[i] < |par|
    ensures ChildrenOk(nodes + [x], par + [q])
  {
    hide KidsOf;
    var nodes1, par1 := nodes + [x], par + [q];
    forall i | 0 <= i < |nodes1| ensures nodes1[i].children == KidsOf(nodes1, par1, i) {
      KidNodesSnoc(nodes, par, x, q, i);
      if i == |nodes| {
        NoKidNodes(nodes, par);
      } else if i != q {
        assert KidsOf(nodes, par, i) + [] == KidsOf(nodes, par, i);
      }
    }
  }

  lemma NoKidNodes(nodes: seq<FileViewTreeItem>, par: Shape)
    requires |nodes| == |par| && forall i :: 0 <= i < |par| ==> par[i] < |par|
    ensures KidsOf(nodes, par, |par|) == []
  {
    KidsNone(par, |par|);
  }

  lemma FieldsSnoc(nodes: seq<FileViewTreeItem>, t: Tree, x: FileViewTreeItem, q: int)
    requires FieldsOk(nodes, t) && 0 <= q < |nodes| && x.parent == nodes[q]
    ensures FieldsOk(nodes + [x], Snoc(t, q, x.Fields()))
  {
  }

  ghost function Lists(nodes: seq<FileViewTreeItem>): (r: seq<seq<FileViewTreeItem>>)
    reads nodes
    ensures |r| == |nodes| && forall i :: 0 <= i < |nodes| ==> r[i] == nodes[i].children
  {
    seq(|nodes|, i requires 0 <= i < |nodes| reads nodes => nodes[i].children)
  }

  lemma OthersDiffer(nodes: seq<FileViewTreeItem>, q: int)
    requires Distinct(nodes) && 0 <= q < |nodes|
    ensures forall i :: 0 <= i < |nodes| && i != q ==> nodes[i] != nodes[q]
  {
  }

  // ----- rows and indices

  datatype ModelIndex<T> = NoIndex | Index(row: int, column: int, item: T)

  const COLUMN_COUNT := 4

  /** The position of node i among its siblings. */
  function RowIn(ks: seq<int>, i: int): (m: int)
    ensures i in ks ==> 0 <= m < |ks| && ks[m] == i
    ensures i !in ks ==> m == -1
    ensures forall j :: 0 <= j < m ==> ks[j] != i
  {
    if ks == [] then -1
    else if ks[0] == i then 0
    else
      var m := RowIn(ks[1..], i);
      if m == -1 then -1 else m + 1
  }

  function RowOf(t: Tree, i: int): int
    requires Ok(t) && 0 <= i < |t.par|
  {
    if i == 0 then 0 else RowIn(Kids(t.par, t.par[i]), i)
  }

  /** The node behind an index; no index stands for the root. */
  function NodeOf(x: ModelIndex<int>): int { if x.Index? then x.item else 0 }

  predicate GoodIndex(t: Tree, x: ModelIndex<int>) { x.Index? ==> 0 < x.item < |t.par| }

  function IndexAt(t: Tree, row: int, column: int, parent: ModelIndex<int>): ModelIndex<int>
    requires Ok(t) && GoodIndex(t, parent)
  {
    var ks := Kids(t.par, NodeOf(parent));
    var rows := if parent.Index? && parent.column > 0 then 0 else |ks|;
    if 0 <= row < rows && 0 <= column < COLUMN_COUNT then Index(row, column, ks[row]) else NoIndex
  }

  function ParentAt(t: Tree, child: ModelIndex<int>): ModelIndex<int>
    requires Ok(t) && GoodIndex(t, child)
  {
    if child.NoIndex? then NoIndex
    else
      var p := t.par[child.item];
      if p == 0 then NoIndex else Index(RowOf(t, p), 0, p)
  }

  /** The index under which a view knows node p in the first column. */
  function Canonical(t: Tree, p: int): ModelIndex<int>
    requires Ok(t) && 0 <= p < |t.par|
  {
    if p == 0 then NoIndex else Index(RowOf(t, p), 0, p)
  }

  /** Going to a child and back comes back, with the row that the child was fetched with. */
  lemma ParentUndoesIndex(t: Tree, p: int, row: int, column: int)
    requires Ok(t) && 0 <= p < |t.par|
    ensures var x := IndexAt(t, row, column, Canonical(t, p));
            && (x.Index? <==> 0 <= row < |Kids(t.par, p)| && 0 <= column < COLUMN_COUNT)
            && (x.Index? ==> x == Index(row, column, Kids(t.par, p)[row]))
            && (x.Index? ==> GoodIndex(t, x) && ParentAt(t, x) == Canonical(t, p) && RowOf(t, x.item) == row)
  {
    hide RowOf, Kids;
    var ks := Kids(t.par, p);
    if 0 <= row < |ks| { RowOfKid(t, p, row); }
  }

  lemma RowOfKid(t: Tree, p: int, row: int)
    requires Ok(t) && 0 <= p < |t.par| && 0 <= row < |Kids(t.par, p)|
    ensures var i := Kids(t.par, p)[row]; 0 < i < |t.par| && t.par[i] == p && RowOf(t, i) == row
  {
    hide Kids;
    var ks := Kids(t.par, p);
    assert ks[row] in ks;
    KidsIncreasing(t.par, p);
    RowIsUnique(ks, row);
  }

  lemma RowIsUnique(ks: seq<int>, m: int)
    requires 0 <= m < |ks| && Increasing(ks)
    ensures RowIn(ks, ks[m]) == m
  {
    var j := RowIn(ks, ks[m]);
    assert ks[m] in ks;
    if j < m { IncreasingAt(ks, j, m); }
    if m < j { IncreasingAt(ks, m, j); }
  }

  /** Going to the parent and back to the row of the node comes back to the node. */
  lemma IndexUndoesParent(t: Tree, i: int, column: int)
    requires Ok(t) && 0 < i < |t.par| && 0 <= column < COLUMN_COUNT
    ensures var x := Index(RowOf(t, i), column, i); IndexAt(t, x.row, x.column, ParentAt(t, x)) == x
  {
    KidsComplete(t.par, t.par[i], i);
  }

  // ----- priorities

  predicate NodesOf(t: Tree, ns: seq<int>) {
    forall n :: n in ns ==> 0 <= n < |t.items|
  }

  lemma NodesTail(t: Tree, ns: seq<int>)
    requires NodesOf(t, ns) && ns != []
    ensures 0 <= ns[0] < |t.items| && NodesOf(t, ns[1..])
  {
    assert ns[0] in ns;
    assert forall n :: n in ns[1..] ==> n in ns;
  }

  /** The priorities after the files ns of the tree have been given one. */
  function Assigned(m: map<int, int>, t: Tree, ns: seq<int>, priority: int): map<int, int>
    requires NodesOf(t, ns)
    decreases |ns|
  {
    if ns == [] then m
    else
      NodesTail(t, ns);
      Assigned(m[t.items[ns[0]].entry.number := priority], t, ns[1..], priority)
  }

  ghost predicate Reached(t: Tree, ns: seq<int>, f: int) {
    exists n :: n in ns && 0 <= n < |t.items| && t.items[n].entry.number == f
  }

  lemma {:induction false} AssignedIs(m: map<int, int>, t: Tree, ns: seq<int>, priority: int, f: int)
    requires NodesOf(t, ns)
    ensures var r := Assigned(m, t, ns, priority);
            && (Reached(t, ns, f) ==> f in r && r[f] == priority)
            && (!Reached(t, ns, f) ==> (f in r <==> f in m) && (f in m ==> r[f] == m[f]))
    decreases |ns|
  {
    if ns != [] {
      NodesTail(t, ns);
      var m1 := m[t.items[ns[0]].entry.number := priority];
      AssignedIs(m1, t, ns[1..], priority, f);
      if Reached(t, ns[1..], f) {
        var n :| n in ns[1..] && 0 <= n < |t.items| && t.items[n].entry.number == f;
        assert n in ns;
      }
    }
  }

  lemma {:induction false} AssignedAppend(m: map<int, int>, t: Tree, a: seq<int>, b: seq<int>, priority: int)
    requires NodesOf(t, a + b)
    ensures NodesOf(t, a) && NodesOf(t, b)
    ensures Assigned(m, t, a + b, priority) == Assigned(Assigned(m, t, a, priority), t, b, priority)
    decreases |a|
  {
    assert forall n :: n in a ==> n in a + b;
    assert forall n :: n in b ==> n in a + b;
    if a == [] {
      assert a + b == b;
    } else {
      assert (a + b)[1..] == a[1..] + b && (a + b)[0] == a[0];
      NodesTail(t, a + b);
      AssignedAppend(m[t.items[a[0]].entry.number := priority], t, a[1..], b, priority);
    }
  }

  lemma {:induction false} VisitInRange(t: Tree, p: int)
    requires Ok(t) && 0 <= p < |t.par|
    ensures NodesOf(t, Visit(t, p))
    decreases |t.par| - p, 1
  {
    KidsBelow(t, p);
    if t.items[p].kind != File { VisitAllInRange(t, p, Kids(t.par, p)); }
  }

  lemma {:induction false} VisitAllInRange(t: Tree, p: int, ks: seq<int>)
    requires Ok(t) && 0 <= p < |t.par| && Below(t, p, ks)
    ensures NodesOf(t, VisitAll(t, p, ks))
    decreases |t.par| - p, 0, |ks|
  {
    hide Visit;
    if ks != [] {
      assert ks[0] in ks;
      assert forall k :: k in ks[1..] ==> k in ks;
      VisitInRange(t, ks[0]);
      VisitAllInRange(t, p, ks[1..]);
    }
  }

  /** A file of the torrent gets the priority exactly when the look-up finds it for some file node at
      or below the item with no other file in between; the other priorities stay as they are. */
  lemma PriorityReachesFilesBelow(m: map<int, int>, t: Tree, p: int, priority: int, f: int)
    requires Ok(t) && 0 <= p < |t.par|
    ensures NodesOf(t, Visit(t, p))
    ensures var r := Assigned(m, t, Visit(t, p), priority);
            if exists x :: 0 <= x < |t.par| && Visited(t, p, x) && t.items[x].entry.number == f
            then f in r && r[f] == priority
            else (f in r <==> f in m) && (f in m ==> r[f] == m[f])
  {
    hide Visit, Assigned, Visited;
    var ns := Visit(t, p);
    VisitInRange(t, p);
    AssignedIs(m, t, ns, priority, f);
    forall x | 0 <= x < |t.par| ensures x in ns <==> Visited(t, p, x) {
      VisitsEachFileOnce(t, p, x);
      assert x in ns <==> multiset(ns)[x] > 0;
    }
  }

  // ----- the model

  class FileViewModel {
    const root: FileViewTreeItem
    var priorities: map<int, int>
    ghost var nodes: seq<FileViewTreeItem>
    ghost var tree: Tree

    ghost predicate Valid()
      reads this, nodes`children
    {
      Distinct(nodes) && FieldsOk(nodes, tree) && ChildrenOk(nodes, tree.par) && nodes[0] == root
    }

    constructor ()
      ensures Valid() && tree == EMPTY_TREE && fresh(nodes)
    {
      var r := new FileViewTreeItem(NO_ENTRY, NoType, "", null);
      root := r;
      priorities := map[];
      nodes := [r];
      tree := EMPTY_TREE;
      new;
      KidsNone([-1], 0);
    }

    lemma RootFacts()
      requires Valid()
      ensures Ok(tree) && 0 < |nodes| == |tree.par| == |tree.items| && nodes[0] == root && ChildrenOk(nodes, tree.par)
    {
      hide Kids;
    }

    lemma Facts(i: int)
      requires Valid() && 0 <= i < |nodes|
      ensures Ok(tree) && |nodes| == |tree.par| == |tree.items| && nodes[0] == root && ChildrenOk(nodes, tree.par)
      ensures nodes[i].Fields() == tree.items[i]
      ensures nodes[i].parent == if i == 0 then null else nodes[tree.par[i]]
    {
      hide Kids;
    }

    /** Append a new item to the children of `it`. */
    method AddItem(it: FileViewTreeItem, ghost at: int, fe: FileEntry, kind: ItemType, name: string)
      returns (item: FileViewTreeItem)
      requires Valid() && 0 <= at < |nodes| && it == nodes[at]
      modifies `nodes, `tree, it`children
      ensures Valid() && fresh(item) && nodes == old(nodes) + [item]
      ensures tree == Snoc(old(tree), at, Item(name, kind, fe))
      ensures it.children == old(it.children) + [item]
    {
      hide FieldsOk, ChildrenOk, Kids, KidsOf, Ok;
      Facts(at);
      TreeIsDownward();
      OthersDiffer(nodes, at);
      ghost var lists := Lists(nodes);
      ListsAreKids(nodes, tree.par, lists);
      item := new FileViewTreeItem(fe, kind, name, it);
      it.AddChild(item);
      ChildrenSnoc(nodes, tree.par, item, at, lists);
      FieldsSnoc(nodes, tree, item, at);
      nodes, tree := nodes + [item], Snoc(tree, at, item.Fields());
    }

    lemma TreeIsDownward()
      requires Valid()
      ensures forall i :: 0 <= i < |tree.par| ==> tree.par[i] < |tree.par|
    {
      hide Kids, ChildrenOk;
    }

    /** The number of the first child with that name, or -1. */
    method FindNumber(it: FileViewTreeItem, name: string, ghost at: int) returns (foundnum: int)
      requires Valid() && 0 <= at < |nodes| && it == nodes[at]
      ensures -1 <= foundnum < |Kids(tree.par, at)|
      ensures FindChild(tree, at, name) == if foundnum == -1 then -1 else Kids(tree.par, at)[foundnum]
    {
      hide FieldsOk, ChildrenOk, Kids, KidsOf, Ok, FindChild, FindIn;
      Facts(at);
      ChildCount(nodes, tree.par, at);
      ghost var ks := Kids(tree.par, at);
      var j := 0;
      assert ks[0..] == ks;
      FindChildIs(tree, at, name);
      while j < |it.children|
        invariant 0 <= j <= |it.children|
        invariant |tree.par| == |tree.items| && Listed(tree, ks[j..])
        invariant FindIn(tree, ks[j..], name) == FindIn(tree, ks, name)
      {
        KidNodeAt(nodes, tree.par, at, j);
        Facts(ks[j]);
        FindInNext(tree, ks, j, name);
        var child := it.GetNthChild(j);
        if child.name == name {
          return j;
        }
        j := j + 1;
      }
      NoneFound(tree, ks, name);
      return -1;
    }

    method AddPath(path: string, fe: FileEntry)
      requires Valid()
      modifies `nodes, `tree, nodes`children
      ensures Valid() && tree == FileTree.AddPath(old(tree), path, fe)
      ensures forall x :: x in nodes ==> x in old(nodes) || fresh(x)
    {
      hide FieldsOk, ChildrenOk, Kids, KidsOf, Ok, Distinct, FindChild, NewItem, AddFrom;
      var pathparts := Split(path, '/');
      RootFacts();
      ChildCount(nodes, tree.par, 0);
      if |root.children| == 0 {
        AddFirstPath(pathparts, fe);
        return;
      }
      var current := root;
      ghost var at, before := 0, tree;
      var i := 0;
      while i < |pathparts|
        invariant 0 <= i <= |pathparts| && Valid() && 0 <= at < |nodes| && current == nodes[at] && Ok(tree) &&
                  |nodes| == |tree.par|
        invariant forall x :: x in nodes ==> x in old(nodes) || fresh(x)
        invariant AddFrom(tree, at, pathparts, i, fe) == AddFrom(before, 0, pathparts, 0, fe)
      {
        assert forall k :: 0 <= k < |nodes| ==> nodes[k] in nodes;
        current, at := FollowPart(current, at, pathparts, i, fe);
        i := i + 1;
      }
      AddNothing(tree, at, pathparts, fe);
    }

    /** Go to the child with the name of part i, which is added if it is missing. */
    method FollowPart(current: FileViewTreeItem, ghost at: int, pathparts: seq<string>, i: int, fe: FileEntry)
      returns (next: FileViewTreeItem, ghost there: int)
      requires Valid() && 0 <= at < |nodes| && current == nodes[at] && 0 <= i < |pathparts|
      requires Ok(tree) && |nodes| == |tree.par|
      modifies `nodes, `tree, nodes`children
      ensures Valid() && Ok(tree) && |nodes| == |tree.par| && 0 <= there < |nodes| && next == nodes[there]
      ensures forall x :: x in nodes ==> x in old(nodes) || fresh(x)
      ensures AddFrom(tree, there, pathparts, i + 1, fe) == AddFrom(old(tree), at, pathparts, i, fe)
    {
      hide FieldsOk, ChildrenOk, Kids, KidsOf, Ok, Distinct, FindChild, NewItem, AddFrom;
      Facts(at);
      assert current in nodes;
      AddStep(tree, at, pathparts, i, fe);
      var foundnum := FindNumber(current, pathparts[i], at);
      if foundnum >= 0 {
        KidNodeAt(nodes, tree.par, at, foundnum);
        next := current.GetNthChild(foundnum);
        there := Kids(tree.par, at)[foundnum];
      } else {
        next := AddMissing(current, at, pathparts, i, fe);
        there := |nodes| - 1;
        RootFacts();
      }
    }

    /** Add the missing item for part i. */
    method AddMissing(current: FileViewTreeItem, ghost at: int, pathparts: seq<string>, i: int, fe: FileEntry)
      returns (next: FileViewTreeItem)
      requires Valid() && 0 <= at < |nodes| && current == nodes[at] && 0 <= i < |pathparts|
      modifies `nodes, `tree, current`children
      ensures Valid() && fresh(next) && nodes == old(nodes) + [next]
      ensures |old(tree).items| == |old(tree).par| == |old(nodes)| && at < |old(tree).items|
      ensures tree == Snoc(old(tree), at, NewItem(old(tree), at, pathparts, i, fe))
    {
      hide FieldsOk, ChildrenOk, Kids, KidsOf, Ok, Distinct;
      Facts(at);
      if i != |pathparts| - 1 {
        var fake := FakeEntry(current.fileEntry.path + "/" + pathparts[i]);
        next := AddItem(current, at, fake, Folder, pathparts[i]);
      } else {
        next := AddItem(current, at, fe, File, pathparts[i]);
      }
      next := current.GetNthChild(|current.children| - 1);
    }

    /** The case of an empty tree: every part of the path is new. */
    method AddFirstPath(pathparts: seq<string>, fe: FileEntry)
      requires Valid() && root.children == []
      modifies `nodes, `tree, nodes`children
      ensures Valid() && Ok(old(tree)) && Ok(tree) && |old(tree).par| > 0
      ensures tree == AddFrom(old(tree), 0, pathparts, 0, fe)
      ensures forall x :: x in nodes ==> x in old(nodes) || fresh(x)
    {
      hide FieldsOk, ChildrenOk, Kids, KidsOf, Ok, Distinct, FindChild, Snoc, AddFrom;
      var curitem := root;
      ghost var at, before := 0, tree;
      var fakePath := "";
      var i := 0;
      RootFacts();
      RootHasNoPath(tree);
      while i < |pathparts|
        invariant 0 <= i <= |pathparts| && Valid() && 0 <= at < |nodes| && curitem == nodes[at] && Ok(tree) &&
                  |nodes| == |tree.par| == |tree.items|
        invariant curitem.children == [] && (i < |pathparts| ==> tree.items[at].entry.path == fakePath)
        invariant forall x :: x in nodes ==> x in old(nodes) || fresh(x)
        invariant AddFrom(tree, at, pathparts, i, fe) == AddFrom(before, 0, pathparts, 0, fe)
      {
        Facts(at);
        assert curitem in nodes;
        ghost var t := tree;
        AddStep(t, at, pathparts, i, fe);
        ChildCount(nodes, tree.par, at);
        NoChildFound(tree, at, pathparts[i]);
        var item;
        if i != |pathparts| - 1 {
          fakePath := fakePath + "/" + pathparts[i];
          item := AddItem(curitem, at, FakeEntry(fakePath), Folder, pathparts[i]);
        } else {
          item := AddItem(curitem, at, fe, File, pathparts[i]);
        }
        assert tree == Snoc(t, at, NewItem(t, at, pathparts, i, fe));
        SnocLast(t, at, NewItem(t, at, pathparts, i, fe));
        curitem := curitem.GetNthChild(0);
        at := |t.par|;
        Facts(at);
        NewIsLeaf();
        i := i + 1;
      }
      AddNothing(tree, at, pathparts, fe);
    }

    /** The item added last has no children. */
    lemma NewIsLeaf()
      requires Valid()
      ensures |nodes| > 0 && nodes[|nodes| - 1].children == []
    {
      NoKids(tree, |tree.par| - 1);
    }

    /** Padding files get no node. */
    method BuildTree(files: seq<(string, FileEntry)>)
      requires Valid() && tree == EMPTY_TREE
      modifies `nodes, `tree, nodes`children
      ensures Valid() && tree == Build(Unpadded(files))
    {
      hide Valid, FileTree.AddPath, AddFrom, Split, Build, Unpadded;
      NothingBuilt();
      var i := 0;
      assert files[..0] == [];
      while i < |files|
        invariant 0 <= i <= |files| && Valid() && tree == Build(Unpadded(files[..i]))
        invariant forall x :: x in nodes ==> x in old(nodes) || fresh(x)
      {
        OneMoreBuilt(files, i);
        if !files[i].1.pad {
          assert forall k :: 0 <= k < |nodes| ==> nodes[k] in nodes;
          AddPath(files[i].0, files[i].1);
        }
        i := i + 1;
      }
      assert files[..i] == files;
    }

    method CalculateFolderSize(item: FileViewTreeItem, ghost p: int) returns (result: int)
      requires Valid() && 0 <= p < |nodes| && item == nodes[p]
      ensures Ok(tree) && |nodes| == |tree.par| && result == Weigh(tree, SizeOf(tree), p)
      decreases |nodes| - p
    {
      hide FieldsOk, ChildrenOk, Kids, KidsOf, Ok, Distinct, WeighAll, Below;
      Facts(p);
      KidsBelow(tree, p);
      ChildCount(nodes, tree.par, p);
      ghost var ks, w := Kids(tree.par, p), SizeOf(tree);
      result := 0;
      var i := 0;
      NothingWeighs(tree, w, p);
      assert ks[..0] == [];
      while i < |item.children|
        invariant 0 <= i <= |item.children|
        invariant Below(tree, p, ks[..i]) && result == WeighAll(tree, w, p, ks[..i])
      {
        KidNodeAt(nodes, tree.par, p, i);
        KidIsBelow(tree, p, ks, i);
        Facts(ks[i]);
        OneMoreWeighs(tree, w, p, ks, i);
        var child := item.GetNthChild(i);
        if child.kind == File {
          result := result + child.fileEntry.size;
        } else {
          var size := CalculateFolderSize(child, ks[i]);
          result := result + size;
        }
        i := i + 1;
      }
      assert ks[..i] == ks;
    }

    method SetItemPriority(item: FileViewTreeItem, priority: int, ghost p: int)
      requires Valid() && 0 <= p < |nodes| && item == nodes[p]
      modifies `priorities
      ensures Valid() && Ok(tree) && p < |tree.par| && NodesOf(tree, Visit(tree, p))
      ensures priorities == Assigned(old(priorities), tree, Visit(tree, p), priority)
      decreases |nodes| - p
    {
      hide FieldsOk, ChildrenOk, Kids, KidsOf, Ok, Distinct, VisitAll, Below;
      Facts(p);
      KidsBelow(tree, p);
      VisitInRange(tree, p);
      if item.kind == File {
        assert [p][1..] == [];
        priorities := priorities[item.fileEntry.number := priority];
      } else {
        ghost var ks := Kids(tree.par, p);
        ChildCount(nodes, tree.par, p);
        NothingVisited(tree, p);
        assert ks[..0] == [];
        var i := 0;
        while i < |item.children|
          invariant 0 <= i <= |item.children| && Valid()
          invariant Below(tree, p, ks[..i]) && NodesOf(tree, VisitAll(tree, p, ks[..i]))
          invariant priorities == Assigned(old(priorities), tree, VisitAll(tree, p, ks[..i]), priority)
        {
          KidNodeAt(nodes, tree.par, p, i);
          KidIsBelow(tree, p, ks, i);
          OneMoreVisited(tree, p, ks, i, old(priorities), priority);
          var child := item.GetNthChild(i);
          SetItemPriority(child, priority, ks[i]);
          i := i + 1;
        }
        assert ks[..i] == ks;
      }
    }

    method GetRow(item: FileViewTreeItem, ghost i: int) returns (row: int)
      requires Valid() && 0 <= i < |nodes| && item == nodes[i]
      ensures Ok(tree) && i < |tree.par| && row == RowOf(tree, i)
    {
      hide FieldsOk, ChildrenOk, Kids, KidsOf, RowIn;
      Facts(i);
      var parent := item.parent;
      if parent == null {
        return 0;
      }
      ghost var p := tree.par[i];
      ghost var ks := Kids(tree.par, p);
      ChildCount(nodes, tree.par, p);
      KidsComplete(tree.par, p, i);
      row := 0;
      while row < |parent.children| && parent.children[row] != item
        invariant 0 <= row <= |parent.children|
        invariant forall j :: 0 <= j < row ==> ks[j] != i
      {
        KidNodeAt(nodes, tree.par, p, row);
        row := row + 1;
      }
      if row < |parent.children| {
        KidNodeAt(nodes, tree.par, p, row);
        SameNode(ks[row], i);
      }
      RowFound(ks, i, row);
    }

    lemma SameNode(i: int, j: int)
      requires Valid() && 0 <= i < |nodes| && 0 <= j < |nodes| && nodes[i] == nodes[j]
      ensures i == j
    {
    }

    /** The objects' index for an index of the tree. */
    ghost predicate Stands(x: ModelIndex<FileViewTreeItem>, y: ModelIndex<int>)
      reads this
    {
      match (x, y)
      case (NoIndex, NoIndex) => true
      case (Index(r, c, item), Index(r1, c1, i)) => r == r1 && c == c1 && 0 < i < |nodes| && item == nodes[i]
      case (_, _) => false
    }

    method IndexOf(row: int, column: int, parent: ModelIndex<FileViewTreeItem>, ghost p: ModelIndex<int>)
      returns (x: ModelIndex<FileViewTreeItem>)
      requires Valid() && Stands(parent, p)
      ensures Ok(tree) && GoodIndex(tree, p) && Stands(x, IndexAt(tree, row, column, p))
    {
      hide FieldsOk, ChildrenOk, Kids, KidsOf;
      RootFacts();
      ghost var at := NodeOf(p);
      var parentItem := root;
      if parent.Index? {
        parentItem := parent.item;
      }
      ChildCount(nodes, tree.par, at);
      var rows := |parentItem.children|;
      if parent.Index? && parent.column > 0 {
        rows := 0;
      }
      if !(0 <= row < rows && 0 <= column < COLUMN_COUNT) {
        return NoIndex;
      }
      KidNodeAt(nodes, tree.par, at, row);
      KidsBelow(tree, at);
      assert Kids(tree.par, at)[row] in Kids(tree.par, at);
      var child := parentItem.GetNthChild(row);
      x := Index(row, column, child);
    }

    method ParentOf(child: ModelIndex<FileViewTreeItem>, ghost y: ModelIndex<int>)
      returns (x: ModelIndex<FileViewTreeItem>)
      requires Valid() && Stands(child, y)
      ensures Ok(tree) && GoodIndex(tree, y) && Stands(x, ParentAt(tree, y))
    {
      hide FieldsOk, ChildrenOk, RowOf;
      RootFacts();
      if child.NoIndex? {
        return NoIndex;
      }
      Facts(y.item);
      var parentItem := child.item.parent;
      ghost var p := tree.par[y.item];
      if parentItem == root {
        SameNode(p, 0);
        return NoIndex;
      }
      var row := GetRow(parentItem, p);
      x := Index(row, 0, parentItem);
    }
  }

  lemma NothingBuilt()
    ensures Build(Unpadded([])) == EMPTY_TREE
  {
  }

  lemma OneMoreBuilt(files: seq<(string, FileEntry)>, i: int)
    requires 0 <= i < |files|
    ensures var before := Unpadded(files[..i]);
            Build(Unpadded(files[..i + 1])) ==
            if files[i].1.pad then Build(before) else FileTree.AddPath(Build(before), files[i].0, files[i].1)
  {
    hide FileTree.AddPath;
    assert files[..i + 1][..i] == files[..i];
    var before := Unpadded(files[..i]);
    assert before + [] == before && (before + [files[i]])[..|before|] == before;
  }

  lemma ListsAreKids(nodes: seq<FileViewTreeItem>, par: Shape, lists: seq<seq<FileViewTreeItem>>)
    requires ChildrenOk(nodes, par) && lists == Lists(nodes)
    ensures forall i :: 0 <= i < |nodes| ==> lists[i] == KidsOf(nodes, par, i)
  {
  }

  /** One part of a path. */
  lemma AddStep(t: Tree, at: int, parts: seq<string>, i: nat, fe: FileEntry)
    requires Ok(t) && 0 <= at < |t.par| && i < |parts|
    ensures |t.items| == |t.par|
    ensures FindChild(t, at, parts[i]) != -1 ==>
      0 <= FindChild(t, at, parts[i]) < |t.par| &&
      AddFrom(t, at, parts, i, fe) == AddFrom(t, FindChild(t, at, parts[i]), parts, i + 1, fe)
    ensures FindChild(t, at, parts[i]) == -1 ==>
      var r := Snoc(t, at, NewItem(t, at, parts, i, fe));
      Ok(r) && |r.par| == |t.par| + 1 && AddFrom(t, at, parts, i, fe) == AddFrom(r, |t.par|, parts, i + 1, fe)
  {
  }

  lemma AddNothing(t: Tree, at: int, parts: seq<string>, fe: FileEntry)
    requires Ok(t) && 0 <= at < |t.par|
    ensures AddFrom(t, at, parts, |parts|, fe) == t
  {
  }

  ghost predicate Listed(t: Tree, ks: seq<int>) {
    forall k :: k in ks ==> 0 <= k < |t.par|
  }

  lemma FindChildIs(t: Tree, p: int, name: string)
    requires Ok(t) && 0 <= p < |t.par|
    ensures |t.par| == |t.items| && Listed(t, Kids(t.par, p))
    ensures FindChild(t, p, name) == FindIn(t, Kids(t.par, p), name)
  {
  }

  lemma NoneFound(t: Tree, ks: seq<int>, name: string)
    requires |t.par| == |t.items|
    ensures ks[|ks|..] == [] && FindIn(t, [], name) == -1
  {
  }

  lemma FindInNext(t: Tree, ks: seq<int>, j: int, name: string)
    requires |t.par| == |t.items| && 0 <= j < |ks| && Listed(t, ks[j..]) && 0 <= ks[j] < |t.items|
    ensures Listed(t, ks[j + 1..])
    ensures FindIn(t, ks[j..], name) == if t.items[ks[j]].name == name then ks[j] else FindIn(t, ks[j + 1..], name)
  {
    var rest := ks[j + 1..];
    assert ks[j..][1..] == rest;
    forall k | k in rest ensures 0 <= k < |t.par| {
      var m :| 0 <= m < |rest| && rest[m] == k;
      assert ks[j..][m + 1] == k && k in ks[j..];
    }
  }

  lemma SnocLast(t: Tree, p: int, x: Item)
    ensures var r := Snoc(t, p, x); |r.par| == |t.par| + 1 && |r.items| == |t.items| + 1 && r.items[|t.items|] == x
  {
  }

  lemma RootHasNoPath(t: Tree)
    requires Ok(t)
    ensures |t.par| == |t.items| > 0 && t.items[0].entry.path == ""
  {
  }

  lemma NoChildFound(t: Tree, p: int, name: string)
    requires Ok(t) && 0 <= p < |t.par| && |Kids(t.par, p)| == 0
    ensures FindChild(t, p, name) == -1
  {
  }

  lemma NothingWeighs(t: Tree, w: int -> int, p: int)
    requires Ok(t) && 0 <= p < |t.par|
    ensures Below(t, p, []) && WeighAll(t, w, p, []) == 0
  {
  }

  lemma NothingVisited(t: Tree, p: int)
    requires Ok(t) && 0 <= p < |t.par|
    ensures Below(t, p, []) && VisitAll(t, p, []) == []
  {
  }

  lemma KidIsBelow(t: Tree, p: int, ks: seq<int>, i: int)
    requires Below(t, p, ks) && 0 <= i < |ks|
    ensures p < ks[i] < |t.par|
  {
    assert ks[i] in ks;
  }

  lemma OneMoreWeighs(t: Tree, w: int -> int, p: int, ks: seq<int>, i: int)
    requires Ok(t) && 0 <= p < |t.par| && Below(t, p, ks) && 0 <= i < |ks|
    ensures Below(t, p, ks[..i]) && Below(t, p, ks[..i + 1]) && 0 <= ks[i] < |t.par|
    ensures WeighAll(t, w, p, ks[..i + 1]) == WeighAll(t, w, p, ks[..i]) + WeighOne(t, w, ks[i])
  {
    assert ks[i] in ks && forall k :: k in ks[..i] ==> k in ks;
    assert ks[..i + 1] == ks[..i] + [ks[i]];
    assert [ks[i]][1..] == [];
    assert Below(t, p, [ks[i]]);
    hide WeighOne;
    assert WeighAll(t, w, p, [ks[i]]) == WeighOne(t, w, ks[i]) + WeighAll(t, w, p, []);
    WeighAppend(t, w, p, ks[..i], [ks[i]]);
  }

  lemma {:induction false} VisitAppend(t: Tree, p: int, a: seq<int>, b: seq<int>)
    requires Ok(t) && 0 <= p < |t.par| && Below(t, p, a) && Below(t, p, b)
    ensures Below(t, p, a + b) && VisitAll(t, p, a + b) == VisitAll(t, p, a) + VisitAll(t, p, b)
    decreases |a|
  {
    hide Visit;
    if a == [] {
      assert a + b == b;
    } else {
      assert a[0] in a;
      assert forall k :: k in a[1..] ==> k in a;
      assert (a + b)[1..] == a[1..] + b;
      VisitAppend(t, p, a[1..], b);
    }
  }

  lemma OneMoreVisited(t: Tree, p: int, ks: seq<int>, i: int, m: map<int, int>, priority: int)
    requires Ok(t) && 0 <= p < |t.par| && Below(t, p, ks) && 0 <= i < |ks|
    ensures Below(t, p, ks[..i]) && Below(t, p, ks[..i + 1]) && 0 <= ks[i] < |t.par|
    ensures NodesOf(t, VisitAll(t, p, ks[..i]))
    ensures NodesOf(t, Visit(t, ks[i]))
    ensures NodesOf(t, VisitAll(t, p, ks[..i + 1]))
    ensures Assigned(m, t, VisitAll(t, p, ks[..i + 1]), priority) ==
            Assigned(Assigned(m, t, VisitAll(t, p, ks[..i]), priority), t, Visit(t, ks[i]), priority)
  {
    assert ks[i] in ks && forall k :: k in ks[..i] ==> k in ks;
    assert ks[..i + 1] == ks[..i] + [ks[i]];
    assert [ks[i]][1..] == [];
    assert Below(t, p, [ks[i]]);
    hide Visit, Assigned;
    assert VisitAll(t, p, [ks[i]]) == Visit(t, ks[i]) + [] == Visit(t, ks[i]);
    VisitAppend(t, p, ks[..i], [ks[i]]);
    VisitAllInRange(t, p, ks[..i + 1]);
    AssignedAppend(m, t, VisitAll(t, p, ks[..i]), Visit(t, ks[i]), priority);
  }

  lemma RowFound(ks: seq<int>, i: int, row: int)
    requires i in ks && 0 <= row <= |ks| && (forall j :: 0 <= j < row ==> ks[j] != i) && (row < |ks| ==> ks[row] == i)
    ensures RowIn(ks, i) == row
  {
  }
}
