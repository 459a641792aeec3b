/**
  Walks over the tree of files (FileViewModel.cpp:511-575): the size of a folder and the files that
  a priority reaches.  Both add up something over the children of a node; `Weigh` is that sum for an
  arbitrary weight of the files.
*/
module FileTreeSums {
  import opened QtText
  import opened TreeShape
  import opened FileTree

  ghost predicate Below(t: Tree, p: int, ks: seq<int>) {
    forall k :: k in ks ==> p < k < |t.par|
  }

  lemma KidsBelow(t: Tree, p: int)
    requires Ok(t) && 0 <= p < |t.par|
    ensures Below(t, p, Kids(t.par, p))
  {
  }

  /** The sum that CalculateFolderSize forms: weights of files, and sums of everything else. */
  function Weigh(t: Tree, w: int -> int, p: int): int
    requires Ok(t) && 0 <= p < |t.par|
    decreases |t.par| - p, 0
  {
    KidsBelow(t, p);
    WeighAll(t, w, p, Kids(t.par, p))
  }

  function WeighAll(t: Tree, w: int -> int, p: int, ks: seq<int>): int
    requires Ok(t) && 0 <= p < |t.par| && Below(t, p, ks)
    decreases |t.par| - p, 0, |ks|
  {
    if ks == [] then 0
    else
      assert ks[0] in ks;
      assert forall k :: k in ks[1..] ==> k in ks;
      WeighOne(t, w, ks[0]) + WeighAll(t, w, p, ks[1..])
  }

  function WeighOne(t: Tree, w: int -> int, c: int): int
    requires Ok(t) && 0 <= c < |t.par|
    decreases |t.par| - c, 1
  {
    if t.items[c].kind == File then w(c) else Weigh(t, w, c)
  }

  /** Node q is p, or a folder below it with no file on the way: the walk from p goes through it. */
  predicate Open(t: Tree, p: int, q: int)
    decreases q
  {
    q == p || (0 < q < |t.par| && q < |t.items| && t.items[q].kind != File && t.par[q] < q && Open(t, p, t.par[q]))
  }

  /** File i counts for p: it lies below p, with no other file on the way. */
  predicate Counted(t: Tree, p: int, i: int) {
    0 < i < |t.par| && i < |t.items| && t.items[i].kind == File && Open(t, p, t.par[i])
  }

  /** The sum over all files that count for p, in the order of their creation. */
  function Total(t: Tree, w: int -> int, p: int, n: nat): int
    requires n <= |t.par|
  {
    if n == 0 then 0 else Total(t, w, p, n - 1) + if Counted(t, p, n - 1) then w(n - 1) else 0
  }

  lemma {:induction false} OpenIsBelow(t: Tree, p: int, q: int)
    requires Ok(t) && 0 <= q < |t.par| && Open(t, p, q)
    ensures Anc(t.par, p, q) && 0 <= p <= q
    decreases q
  {
    if q != p { OpenIsBelow(t, p, t.par[q]); }
  }

  lemma {:induction false} OpenKept(t: Tree, q: int, x: Item, p: int, i: int)
    requires Ok(t) && i < |t.par|
    ensures Open(Snoc(t, q, x), p, i) <==> Open(t, p, i)
    decreases i
  {
    if 0 < i && i != p { OpenKept(t, q, x, p, t.par[i]); }
  }

  // ----- one more node

  lemma {:induction false} WeighAppend(t: Tree, w: int -> int, p: int, a: seq<int>, b: seq<int>)
    requires Ok(t) && 0 <= p < |t.par| && Below(t, p, a) && Below(t, p, b)
    ensures Below(t, p, a + b) && WeighAll(t, w, p, a + b) == WeighAll(t, w, p, a) + WeighAll(t, w, p, b)
    decreases |a|
  {
    hide WeighOne;
    if a == [] {
      assert a + b == b;
    } else {
      assert a[0] in a;
      assert forall k :: k in a[1..] ==> k in a;
      assert (a + b)[1..] == a[1..] + b;
      WeighAppend(t, w, p, a[1..], b);
    }
  }

  lemma SiblingsApart(t: Tree, p: int, c: int, d: int, q: int)
    requires Ok(t) && 0 <= q < |t.par| && c in Kids(t.par, p) && d in Kids(t.par, p) && 0 <= p
    requires Open(t, c, q) && Open(t, d, q)
    ensures c == d
  {
    hide Open;
    OpenIsBelow(t, c, q);
    OpenIsBelow(t, d, q);
    if c < d { AncChain(t.par, c, d, q); }
    if d < c { AncChain(t.par, d, c, q); }
    if c < d { AncOfParent(t.par, c, d); }
    if d < c { AncOfParent(t.par, d, c); }
  }

  /** The walk from a node goes through its child k on to q. */
  ghost predicate Through(t: Tree, k: int, q: int) {
    0 <= k < |t.items| && t.items[k].kind != File && Open(t, k, q)
  }

  ghost predicate SomeThrough(t: Tree, ks: seq<int>, q: int) {
    exists k :: k in ks && Through(t, k, q)
  }

  /** The weight that a new last node x below q adds. */
  function Extra(x: Item, w: int -> int, n: int): int {
    if x.kind == File then w(n) else 0
  }

  lemma {:induction false} WeighSnoc(t: Tree, w: int -> int, q: int, x: Item, p: int)
    requires Ok(t) && 0 <= q < |t.par| && 0 <= p < |t.par| && Ok(Snoc(t, q, x))
    ensures Weigh(Snoc(t, q, x), w, p) == Weigh(t, w, p) + if Open(t, p, q) then Extra(x, w, |t.par|) else 0
    decreases |t.par| - p, 0
  {
    assert Open(t, p, p);
    hide WeighOne, WeighAll, Extra, Open;
    var t1, n := Snoc(t, q, x), |t.par|;
    var ks := Kids(t.par, p);
    KidsBelow(t, p);
    KidsBelow(t1, p);
    KidsSnocIs(t.par, q, p);
    KidsIncreasing(t.par, p);
    WeighAllSnoc(t, w, q, x, p, ks);
    SomeKidThrough(t, p, q);
    if q == p {
      WeighAppend(t1, w, p, ks, [n]);
      NewWeight(t, w, q, x, p);
    }
  }

  lemma KidsSnocIs(par: Shape, q: int, p: int)
    ensures Kids(par + [q], p) == Kids(par, p) + if q == p then [|par|] else []
  {
    assert (par + [q])[..|par|] == par;
    if q != p { assert Kids(par, p) + [] == Kids(par, p); }
  }

  lemma NewWeight(t: Tree, w: int -> int, q: int, x: Item, p: int)
    requires Ok(t) && 0 <= q < |t.par| && 0 <= p < |t.par| && Ok(Snoc(t, q, x))
    ensures Below(Snoc(t, q, x), p, [|t.par|]) && WeighAll(Snoc(t, q, x), w, p, [|t.par|]) == Extra(x, w, |t.par|)
  {
    var t1, n := Snoc(t, q, x), |t.par|;
    assert [n][1..] == [];
    NoKids(t1, n);
    assert Weigh(t1, w, n) == WeighAll(t1, w, n, []) == 0;
    assert WeighAll(t1, w, p, [n]) == WeighOne(t1, w, n) + WeighAll(t1, w, p, []);
  }

  lemma NoKids(t: Tree, n: int)
    requires Ok(t) && n == |t.par| - 1
    ensures Kids(t.par, n) == []
  {
    KidsNone(t.par, n);
  }

  lemma {:induction false} SomeKidThrough(t: Tree, p: int, q: int)
    requires Ok(t) && 0 <= p < |t.par| && 0 <= q < |t.par|
    ensures SomeThrough(t, Kids(t.par, p), q) <==> Open(t, p, q) && p != q
    decreases q
  {
    hide Kids;
    if Open(t, p, q) && p != q {
      if t.par[q] == p {
        KidsComplete(t.par, p, q);
        assert Through(t, q, q);
      } else {
        SomeKidThrough(t, p, t.par[q]);
        var k :| k in Kids(t.par, p) && Through(t, k, t.par[q]);
        assert Through(t, k, q);
      }
    }
    if k :| k in Kids(t.par, p) && Through(t, k, q) {
      assert 0 <= k < |t.par| && t.par[k] == p;
      OpenFromKid(t, p, k, q);
    }
  }

  lemma {:induction false} OpenFromKid(t: Tree, p: int, k: int, q: int)
    requires Ok(t) && 0 <= p && 0 < k < |t.par| && t.par[k] == p && Through(t, k, q) && 0 <= q < |t.par|
    ensures Open(t, p, q) && p < q
    decreases q
  {
    if q != k { OpenFromKid(t, p, k, t.par[q]); }
  }

  lemma {:induction false} WeighAllSnoc(t: Tree, w: int -> int, q: int, x: Item, p: int, ks: seq<int>)
    requires Ok(t) && 0 <= q < |t.par| && 0 <= p < |t.par|
    requires Ok(Snoc(t, q, x)) && Below(t, p, ks) && Increasing(ks) && forall k :: k in ks ==> k in Kids(t.par, p)
    ensures Below(Snoc(t, q, x), p, ks)
    ensures WeighAll(Snoc(t, q, x), w, p, ks) ==
            WeighAll(t, w, p, ks) + if SomeThrough(t, ks, q) then Extra(x, w, |t.par|) else 0
    decreases |t.par| - p, 0, |ks|
  {
    hide Kids, Extra, Open, WeighOne;
    if ks != [] {
      var c, rest := ks[0], ks[1..];
      assert c in ks && forall k :: k in rest ==> k in ks;
      IncreasingTail(ks);
      WeighAllSnoc(t, w, q, x, p, rest);
      WeighOneSnoc(t, w, q, x, c);
      if Through(t, c, q) {
        forall k | k in rest ensures !Through(t, k, q) {
          if Through(t, k, q) { SiblingsApart(t, p, c, k, q); }
        }
        assert SomeThrough(t, ks, q) && !SomeThrough(t, rest, q);
      } else {
        SomeInTail(t, ks, q);
      }
    }
  }

  lemma IncreasingTail(ks: seq<int>)
    requires ks != [] && Increasing(ks)
    ensures Increasing(ks[1..]) && forall k :: k in ks[1..] ==> k > ks[0]
  {
  }

  lemma SomeInTail(t: Tree, ks: seq<int>, q: int)
    requires ks != [] && !Through(t, ks[0], q)
    ensures SomeThrough(t, ks, q) <==> SomeThrough(t, ks[1..], q)
  {
    hide Through;
    if k :| k in ks && Through(t, k, q) { assert k in ks[1..]; }
  }

  lemma {:induction false} WeighOneSnoc(t: Tree, w: int -> int, q: int, x: Item, c: int)
    requires Ok(t) && 0 <= q < |t.par| && 0 <= c < |t.par| && Ok(Snoc(t, q, x))
    ensures WeighOne(Snoc(t, q, x), w, c) == WeighOne(t, w, c) + if Through(t, c, q) then Extra(x, w, |t.par|) else 0
    decreases |t.par| - c, 1
  {
    hide Extra, Weigh, Open;
    if t.items[c].kind != File { WeighSnoc(t, w, q, x, c); }
  }

  // ----- the whole tree

  lemma {:induction false} TotalKept(t: Tree, w: int -> int, q: int, x: Item, p: int, n: nat)
    requires Ok(t) && n <= |t.par|
    ensures Total(Snoc(t, q, x), w, p, n) == Total(t, w, p, n)
    decreases n
  {
    hide Open;
    if n > 0 {
      TotalKept(t, w, q, x, p, n - 1);
      if n > 1 { OpenKept(t, q, x, p, t.par[n - 1]); }
    }
  }

  lemma {:induction false} NothingBelowYet(t: Tree, w: int -> int, p: int, n: nat)
    requires Ok(t) && n <= |t.par| && n <= p + 1
    ensures Total(t, w, p, n) == 0
    decreases n
  {
    hide Open;
    if n > 0 {
      NothingBelowYet(t, w, p, n - 1);
      if Counted(t, p, n - 1) { OpenIsBelow(t, p, t.par[n - 1]); }
    }
  }

  lemma WithoutLast(t: Tree) returns (t0: Tree)
    requires Ok(t) && |t.par| > 1
    ensures var n := |t.par| - 1;
            && Ok(t0) && |t0.par| == n && t == Snoc(t0, t.par[n], t.items[n]) && 0 <= t.par[n] < n
  {
    var n := |t.par| - 1;
    t0 := Tree(t.par[..n], t.items[..n]);
    assert t.par == t.par[..n] + [t.par[n]] && t.items == t.items[..n] + [t.items[n]];
  }

  /** The walk adds up every file below p that has no other file above it on the way, once, and
      nothing else; a file that has come to stand below another file is left out. */
  lemma {:induction false} WeighIsTotal(t: Tree, w: int -> int, p: int)
    requires Ok(t) && 0 <= p < |t.par|
    ensures Weigh(t, w, p) == Total(t, w, p, |t.par|)
    decreases |t.par|
  {
    hide WeighAll, Ok, Counted, Open;
    var n := |t.par| - 1;
    if p == n {
      NoKids(t, n);
      NothingBelowYet(t, w, p, |t.par|);
      EmptyWeigh(t, w, n);
    } else {
      var t0 := WithoutLast(t);
      var q, x := t.par[n], t.items[n];
      WeighIsTotal(t0, w, p);
      WeighSnoc(t0, w, q, x, p);
      TotalKept(t0, w, q, x, p, n);
      LastBelow(t0, w, q, x, p);
    }
  }

  lemma EmptyWeigh(t: Tree, w: int -> int, p: int)
    requires Ok(t) && 0 <= p < |t.par| && Kids(t.par, p) == []
    ensures Weigh(t, w, p) == 0
  {
  }

  lemma LastBelow(t0: Tree, w: int -> int, q: int, x: Item, p: int)
    requires Ok(t0) && 0 <= q < |t0.par| && 0 <= p < |t0.par|
    ensures Total(Snoc(t0, q, x), w, p, |t0.par| + 1) ==
            Total(Snoc(t0, q, x), w, p, |t0.par|) + if Open(t0, p, q) then Extra(x, w, |t0.par|) else 0
  {
    hide Open;
    OpenKept(t0, q, x, p, q);
  }

  // ----- the size of a folder

  function SizeOf(t: Tree): int -> int {
    (i: int) => if 0 <= i < |t.items| then t.items[i].entry.size else 0
  }

  /** No file has a path strictly between q and p. */
  ghost predicate Clear(t: Tree, q: seq<string>, p: seq<string>)
    requires Ok(t)
  {
    forall k :: 0 <= k < |t.par| && q < Path(t, k) < p ==> t.items[k].kind != File
  }

  /** The size of the files whose path continues q, with no other file on the way, among the first n
      nodes. */
  ghost function PathTotal(t: Tree, q: seq<string>, n: nat): int
    requires Ok(t) && n <= |t.par|
  {
    if n == 0 then 0
    else
      PathTotal(t, q, n - 1) +
      if t.items[n - 1].kind == File && q < Path(t, n - 1) && Clear(t, q, Path(t, n - 1)) then t.items[n - 1].entry.size
      else 0
  }

  /** File k of the torrent counts for the folder q: no earlier file is the same or longer, and no
      file that is shown lies on the way from q to it. */
  predicate CountsFor(files: seq<(string, FileEntry)>, q: seq<string>, k: nat)
    requires k < |files|
  {
    && q < Parts(files[k]) && First(files, Parts(files[k])) == k
    && forall j :: 0 <= j < k && q < Parts(files[j]) < Parts(files[k]) ==> First(files, Parts(files[j])) != j
  }

  /** The size of the files of the torrent that count for q. */
  function SizeUnder(files: seq<(string, FileEntry)>, q: seq<string>): int {
    if files == [] then 0
    else
      var n := |files| - 1;
      SizeUnder(files[..n], q) + if CountsFor(files, q, n) then files[n].1.size else 0
  }

  ghost predicate ClearTo(t: Tree, q: seq<string>, p: seq<string>)
    requires Ok(t)
  {
    forall k :: 0 <= k < |t.par| && q < Path(t, k) <= p ==> t.items[k].kind != File
  }

  lemma {:induction false} OpenIsClear(t: Tree, p: int, i: int)
    requires Ok(t) && Unique(t) && 0 <= p < |t.par| && 0 <= i < |t.par|
    ensures Open(t, p, i) <==> Path(t, p) <= Path(t, i) && ClearTo(t, Path(t, p), Path(t, i))
    decreases i
  {
    hide Unique, Path, ClearTo;
    if i == p {
      NothingBetween(t, Path(t, p));
    } else if i == 0 {
      RootPath(t, p);
    } else {
      OpenIsClear(t, p, t.par[i]);
      PathStep(t, i);
      if Path(t, p) == Path(t, i) { PathInjective(t, p, i); }
      if Path(t, p) <= Path(t, i) {
        ShorterPrefix(Path(t, p), Path(t, i));
        ClearStep(t, Path(t, p), i);
      }
    }
  }

  lemma NothingBetween(t: Tree, q: seq<string>)
    requires Ok(t)
    ensures ClearTo(t, q, q)
  {
  }

  lemma RootPath(t: Tree, p: int)
    requires Ok(t) && 0 <= p < |t.par|
    ensures Path(t, 0) == [] && (p != 0 ==> Path(t, p) != [])
  {
  }

  lemma PathStep(t: Tree, i: int)
    requires Ok(t) && 0 < i < |t.par|
    ensures Path(t, i) == Path(t, t.par[i]) + [t.items[i].name]
  {
  }

  /** The paths up to that of node i are those up to its parent's, and its own. */
  lemma ClearStep(t: Tree, q: seq<string>, i: int)
    requires Ok(t) && Unique(t) && 0 < i < |t.par| && q <= Path(t, t.par[i])
    ensures ClearTo(t, q, Path(t, i)) <==> t.items[i].kind != File && ClearTo(t, q, Path(t, t.par[i]))
  {
    hide Unique, Path;
    var a, b := Path(t, t.par[i]), Path(t, i);
    PathStep(t, i);
    forall k | 0 <= k < |t.par| ensures Path(t, k) <= b <==> k == i || Path(t, k) <= a {
      if Path(t, k) == b { PathInjective(t, k, i); }
      if Path(t, k) <= b && Path(t, k) != b { ShorterPrefix(Path(t, k), b); }
    }
  }

  lemma ShorterPrefix(a: seq<string>, b: seq<string>)
    requires a <= b && a != b
    ensures |b| > 0 && a <= b[..|b| - 1]
  {
  }

  lemma CountedIsClear(t: Tree, p: int, i: int)
    requires Ok(t) && Unique(t) && 0 <= p < |t.par| && 0 < i < |t.par|
    ensures Open(t, p, t.par[i]) <==> Path(t, p) < Path(t, i) && Clear(t, Path(t, p), Path(t, i))
  {
    hide Unique, Path, Open;
    OpenIsClear(t, p, t.par[i]);
    PathStep(t, i);
    var q, a, b := Path(t, p), Path(t, t.par[i]), Path(t, i);
    assert b[..|b| - 1] == a;
    forall k | 0 <= k < |t.par| ensures Path(t, k) < b <==> Path(t, k) <= a {
      if Path(t, k) < b { ShorterPrefix(Path(t, k), b); }
    }
  }

  lemma {:induction false} TotalIsPathTotal(t: Tree, p: int, n: nat)
    requires Ok(t) && Unique(t) && 0 <= p < |t.par| && n <= |t.par|
    ensures Total(t, SizeOf(t), p, n) == PathTotal(t, Path(t, p), n)
    decreases n
  {
    hide Unique, Path, Clear, Open;
    if n > 0 {
      TotalIsPathTotal(t, p, n - 1);
      if n > 1 { CountedIsClear(t, p, n - 1); }
    }
  }

  /** All prefixes of the path of a node have nodes. */
  lemma {:induction false} PrefixHasPath(t: Tree, i: int, q: seq<string>)
    requires Ok(t) && 0 <= i < |t.par| && q <= Path(t, i)
    ensures HasPath(t, q)
    decreases i
  {
    hide Path;
    if q != Path(t, i) {
      RootPath(t, i);
      ShorterPrefix(q, Path(t, i));
      PathStep(t, i);
      assert Path(t, i)[..|Path(t, i)| - 1] == Path(t, t.par[i]);
      PrefixHasPath(t, t.par[i], q);
    }
  }

  /** Nodes that are added later do not lie on the way to an older one. */
  lemma ClearKept(t: Tree, r: Tree, q: seq<string>, i: int)
    requires Ok(t) && Ok(r) && Unique(r) && t.par <= r.par && t.items <= r.items && 0 <= i < |t.par|
    ensures Path(r, i) == Path(t, i) && (Clear(r, q, Path(t, i)) <==> Clear(t, q, Path(t, i)))
  {
    hide Unique, Path;
    var b := Path(t, i);
    PathKept(t, r, i);
    forall k | 0 <= k < |t.par| ensures Path(r, k) == Path(t, k) { PathKept(t, r, k); }
    forall k | |t.par| <= k < |r.par| ensures !(Path(r, k) < b) {
      if Path(r, k) < b {
        PrefixHasPath(t, i, Path(r, k));
        var o :| 0 <= o < |t.par| && Path(t, o) == Path(r, k);
        PathInjective(r, o, k);
      }
    }
  }

  lemma {:induction false} PathTotalKept(t: Tree, r: Tree, q: seq<string>, n: nat)
    requires Ok(t) && Ok(r) && Unique(r) && t.par <= r.par && t.items <= r.items && n <= |t.par|
    ensures PathTotal(r, q, n) == PathTotal(t, q, n)
    decreases n
  {
    hide Unique, Path, Clear;
    if n > 0 {
      PathTotalKept(t, r, q, n - 1);
      ClearKept(t, r, q, n - 1);
    }
  }

  /** Only the last new node is a file. */
  lemma {:induction false} PathTotalAdded(t: Tree, r: Tree, parts: seq<string>, fe: FileEntry, q: seq<string>, n: nat)
    requires Ok(t) && Ok(r) && Unique(r) && t.par <= r.par && t.items <= r.items && Added(t, r, parts, fe)
    requires |t.par| <= n <= |r.par|
    ensures PathTotal(r, q, n) ==
            PathTotal(t, q, |t.par|) + if n == |r.par| > |t.par| && q < parts && Clear(r, q, parts) then fe.size else 0
    decreases n
  {
    hide Clear, Unique;
    if n == |t.par| {
      PathTotalKept(t, r, q, n);
    } else {
      hide Path;
      PathTotalAdded(t, r, parts, fe, q, n - 1);
      if n == |r.par| { assert parts[..|parts|] == parts; }
    }
  }

  /** The last file adds nodes exactly when no earlier file starts with its path, and the files on the
      way to it are those that are shown. */
  lemma LastFile(files: seq<(string, FileEntry)>)
    requires files != []
    ensures var n := |files| - 1;
            var t, r := Build(files[..n]), Build(files);
            && t.par <= r.par && t.items <= r.items && Added(t, r, Parts(files[n]), files[n].1) && Unique(r)
            && NodesExplained(files, r) && PathsPresent(files, r)
            && (|r.par| > |t.par| <==> First(files, Parts(files[n])) == n)
  {
    hide *;
    var n := |files| - 1;
    var t, r, parts := Build(files[..n]), Build(files), Parts(files[n]);
    BuildIsThePaths(files[..n]);
    BuildIsThePaths(files);
    BuildStep(files);
    StartsAtRoot(t, parts);
    AddsPrefixes(t, 0, parts, 0, files[n].1);
    ExtendsFacts(t, r, parts, files[n].1);
    SplitIsSome(files[n]);
    assert parts[..|parts|] == parts;
    FirstOfLast(files);
    SomeNodeAdded(files[..n], t, r, parts, files[n].1);
  }

  lemma FirstOfLast(files: seq<(string, FileEntry)>)
    requires files != []
    ensures var n := |files| - 1; First(files, Parts(files[n])) == First(files[..n], Parts(files[n]))
  {
    hide Parts;
  }

  lemma SomeNodeAdded(files: seq<(string, FileEntry)>, t: Tree, r: Tree, p: seq<string>, fe: FileEntry)
    requires Ok(t) && Ok(r) && Unique(r) && t.par <= r.par && t.items <= r.items && HasPath(r, p) && p != []
    requires NodesExplained(files, t) && PathsPresent(files, t) && Added(t, r, p, fe)
    ensures |r.par| > |t.par| <==> First(files, p) == |files|
  {
    hide HasPath, NodesExplained, First, Unique, PathsPresent, Parts, Path;
    if |r.par| == |t.par| {
      assert r == t;
      PresentIsStarted(files, t, p);
    } else if First(files, p) < |files| {
      var k := First(files, p);
      assert Parts(files[k])[..|p|] == p && p[..|p|] == p;
      PresentAt(files, t, k, |p|);
      PathAt(t, p);
      var o :| 0 <= o < |t.par| && Path(t, o) == p;
      PathKept(t, r, o);
      PathInjective(r, o, |r.par| - 1);
    }
  }

  lemma PresentIsStarted(files: seq<(string, FileEntry)>, t: Tree, p: seq<string>)
    requires Ok(t) && NodesExplained(files, t) && HasPath(t, p) && p != []
    ensures First(files, p) < |files|
  {
    hide First, MadeFor;
    PathAt(t, p);
    var i :| 0 <= i < |t.par| && Path(t, i) == p;
    assert i != 0;
    assert Explained(files, t.items[i], p);
  }

  /** The files on the way from q to p. */
  lemma ClearIsFiles(files: seq<(string, FileEntry)>, q: seq<string>, p: seq<string>)
    ensures Clear(Build(files), q, p) <==>
            forall j :: 0 <= j < |files| && q < Parts(files[j]) < p ==> First(files, Parts(files[j])) != j
  {
    hide Build, First, Path, Unique, PathsPresent, NodesExplained, Parts, HasPath;
    BuildIsThePaths(files);
    var t := Build(files);
    forall j | 0 <= j < |files| && q < Parts(files[j]) < p && First(files, Parts(files[j])) == j
        ensures !Clear(t, q, p) {
      var a := Parts(files[j]);
      assert a[..|a|] == a;
      PresentAt(files, t, j, |a|);
      PathAt(t, a);
      var k :| 0 <= k < |t.par| && Path(t, k) == a;
      RootPath(t, k);
      NodeIsFile(files, t, k);
    }
    forall k | 0 <= k < |t.par| && q < Path(t, k) < p && t.items[k].kind == File
      ensures exists j :: 0 <= j < |files| && q < Parts(files[j]) < p && First(files, Parts(files[j])) == j
    {
      RootPath(t, k);
      NodeIsFile(files, t, k);
      var j := First(files, Path(t, k));
      assert Parts(files[j]) == Path(t, k);
    }
  }

  /** A node is a file exactly when the first file that starts with its path has that path. */
  lemma NodeIsFile(files: seq<(string, FileEntry)>, t: Tree, k: int)
    requires Ok(t) && NodesExplained(files, t) && 0 <= k < |t.par|
    ensures var j := First(files, Path(t, k));
            k > 0 ==> j < |files| && (t.items[k].kind == File <==> Parts(files[j]) == Path(t, k))
    ensures k == 0 ==> t.items[k].kind != File
  {
    hide First, Path, Parts;
    if k > 0 { assert Explained(files, t.items[k], Path(t, k)); }
  }

  lemma {:induction false} PathTotalIsSizeUnder(files: seq<(string, FileEntry)>, q: seq<string>)
    ensures PathTotal(Build(files), q, |Build(files).par|) == SizeUnder(files, q)
    decreases |files|
  {
    hide *;
    if files == [] {
      NoFileTotal(files, q);
    } else {
      var n := |files| - 1;
      LastFile(files);
      PathTotalIsSizeUnder(files[..n], q);
      PathTotalAdded(Build(files[..n]), Build(files), Parts(files[n]), files[n].1, q, |Build(files).par|);
      ClearIsFiles(files, q, Parts(files[n]));
      LastCounts(files, q);
    }
  }

  lemma LastCounts(files: seq<(string, FileEntry)>, q: seq<string>)
    requires files != []
    ensures var n := |files| - 1; var p := Parts(files[n]);
            && (CountsFor(files, q, n) <==>
                 && q < p && First(files, p) == n
                 && forall j :: 0 <= j < |files| && q < Parts(files[j]) < p ==> First(files, Parts(files[j])) != j)
            && SizeUnder(files, q) == SizeUnder(files[..n], q) + if CountsFor(files, q, n) then files[n].1.size else 0
  {
    hide First, Parts;
  }

  lemma NoFileTotal(files: seq<(string, FileEntry)>, q: seq<string>)
    requires files == []
    ensures PathTotal(Build(files), q, |Build(files).par|) == SizeUnder(files, q)
  {
    var t := EMPTY_TREE;
    assert PathTotal(t, q, 1) == PathTotal(t, q, 0) + 0;
  }

  /** For every list of files the size that the program computes for a folder is the sum of the sizes
      of the files that count for it. */
  lemma FolderSizeIsSizeUnder(files: seq<(string, FileEntry)>, p: int)
    requires 0 <= p < |Build(files).par|
    ensures var t := Build(files); Weigh(t, SizeOf(t), p) == SizeUnder(files, Path(t, p))
  {
    hide Build, Unique, SizeOf, Clear;
    var t := Build(files);
    BuildIsThePaths(files);
    WeighIsTotal(t, SizeOf(t), p);
    TotalIsPathTotal(t, p, |t.par|);
    PathTotalIsSizeUnder(files, Path(t, p));
  }

  /** When no path starts with another, every file in a folder counts for it, at any depth. */
  lemma AllCount(files: seq<(string, FileEntry)>, q: seq<string>, k: nat)
    requires PrefixFree(files) && k < |files|
    ensures CountsFor(files, q, k) <==> q < Parts(files[k])
  {
    hide First, Parts;
    assert First(files, Parts(files[k])) == k;
  }

  // ----- the files that a priority reaches

  /** The file nodes in the order in which SetItemPriority comes to them. */
  function Visit(t: Tree, p: int): seq<int>
    requires Ok(t) && 0 <= p < |t.par|
    decreases |t.par| - p, 0
  {
    KidsBelow(t, p);
    if t.items[p].kind == File then [p] else VisitAll(t, p, Kids(t.par, p))
  }

  function VisitAll(t: Tree, p: int, ks: seq<int>): seq<int>
    requires Ok(t) && 0 <= p < |t.par| && Below(t, p, ks)
    decreases |t.par| - p, 0, |ks|
  {
    if ks == [] then []
    else
      assert ks[0] in ks;
      assert forall k :: k in ks[1..] ==> k in ks;
      Visit(t, ks[0]) + VisitAll(t, p, ks[1..])
  }

  function Indicator(x: int): int -> int { (i: int) => if i == x then 1 else 0 }

  lemma {:induction false} VisitCount(t: Tree, p: int, x: int)
    requires Ok(t) && 0 <= p < |t.par|
    ensures multiset(Visit(t, p))[x] == WeighOne(t, Indicator(x), p)
    decreases |t.par| - p, 1
  {
    KidsBelow(t, p);
    if t.items[p].kind != File { VisitAllCount(t, p, Kids(t.par, p), x); }
  }

  lemma {:induction false} VisitAllCount(t: Tree, p: int, ks: seq<int>, x: int)
    requires Ok(t) && 0 <= p < |t.par| && Below(t, p, ks)
    ensures multiset(VisitAll(t, p, ks))[x] == WeighAll(t, Indicator(x), p, ks)
    decreases |t.par| - p, 0, |ks|
  {
    hide Visit, WeighOne;
    if ks != [] {
      assert ks[0] in ks;
      assert forall k :: k in ks[1..] ==> k in ks;
      VisitCount(t, ks[0], x);
      VisitAllCount(t, p, ks[1..], x);
    }
  }

  lemma {:induction false} IndicatorTotal(t: Tree, p: int, x: int, n: nat)
    requires n <= |t.par| && 0 <= x < |t.par|
    ensures Total(t, Indicator(x), p, n) == if x < n && Counted(t, p, x) then 1 else 0
    decreases n
  {
    hide Counted;
    if n > 0 { IndicatorTotal(t, p, x, n - 1); }
  }

  /** Node x is a file that setting a priority at p comes to: p itself, or, when p is a folder, a
      file that counts for p. */
  predicate Visited(t: Tree, p: int, x: int)
    requires Ok(t) && 0 <= p < |t.par|
  {
    if t.items[p].kind == File then x == p else Counted(t, p, x)
  }

  /** Setting a priority comes to exactly those files, and to each once. */
  lemma VisitsEachFileOnce(t: Tree, p: int, x: int)
    requires Ok(t) && 0 <= p < |t.par| && 0 <= x < |t.par|
    ensures multiset(Visit(t, p))[x] == if Visited(t, p, x) then 1 else 0
  {
    hide Visit, Weigh, Counted;
    VisitCount(t, p, x);
    if t.items[p].kind != File {
      WeighIsTotal(t, Indicator(x), p);
      IndicatorTotal(t, p, x, |t.par|);
    }
  }
}
