/**
  The tree of tag objects and how the parser changes it (QSgml.cpp:213-372).  `TreeOf` says that
  the objects represent a document of SgmlModel; every method changes the objects as the
  corresponding function of the model changes the document.
*/
module SgmlTree {
  import opened Sequences
  import opened QtText
  import opened TreeShape
  import opened SgmlModel
  import opened SgmlAttributes
  import opened SgmlTags

  ghost predicate RecordsOk(order: seq<SgmlTag>, info: seq<Info>)
    reads order`kind, order`name, order`attributes, order`value
    reads order`startTagPos, order`startTagLength, order`endTagPos, order`endTagLength
  {
    |order| == |info| && forall i :: 0 <= i < |order| ==> order[i].Record() == info[i]
  }

  /** Child lists, parent pointers and levels all describe the parent vector par. */
  ghost predicate PointersOk(order: seq<SgmlTag>, par: Shape)
    reads order`children, order`parent, order`level
  {
    && |order| == |par|
    && ChildrenOk(order, par)
    && ParentsOk(order, par, |order|)
    && LevelsOk(order, par)
  }

  ghost predicate TreeOf(order: seq<SgmlTag>, d: Doc)
    reads order
  {
    && Valid(d)
    && Distinct(order)
    && PointersOk(order, d.par)
    && RecordsOk(order, d.info)
  }

  // ----- moving children one at a time

  /** Part of the way from par to Lift(par, c): some children of c have gone to d. */
  ghost predicate Moving(par: Shape, p: Shape, c: int, d: int) {
    && |p| == |par| && 0 < d < c < |par|
    && Downward(p) && KidsBehind(p, d, c) && p[c] == d
    && forall i :: 0 <= i < |par| ==> p[i] == par[i] || (par[i] == c && p[i] == d)
  }

  lemma {:induction false} MoveOneKid(p: Shape, c: int, d: int, j: int)
    requires c != d && KidsBehind(p, d, c) && 0 <= j < |p| && p[j] == c
    requires forall k :: 0 <= k < j ==> p[k] != c
    ensures Kids(p, c) == [j] + Kids(p[j := d], c)
    ensures Kids(p[j := d], d) == Kids(p, d) + [j]
    ensures forall x {:trigger Kids(p[j := d], x)} :: x != c && x != d ==> Kids(p[j := d], x) == Kids(p, x)
  {
    var n := |p| - 1;
    var q := p[j := d];
    forall x | x != c && x != d ensures Kids(q, x) == Kids(p, x) { KidsSame(p, q, x); }
    if j == n {
      assert q[..n] == p[..n];
      KidsNone(p[..n], c);
    } else {
      assert q[..n] == p[..n][j := d];
      MoveOneKid(p[..n], c, d, j);
    }
  }

  lemma FirstKidIsFirst(p: Shape, c: int)
    requires Kids(p, c) != []
    ensures var j := Kids(p, c)[0]; 0 <= j < |p| && p[j] == c && forall k :: 0 <= k < j ==> p[k] != c
  {
    var ks := Kids(p, c);
    assert ks[0] in ks;
    forall k | 0 <= k < ks[0] ensures p[k] != c {
      if p[k] == c { KidsFirst(p, c, k); }
    }
  }

  lemma StillMoving(par: Shape, p: Shape, c: int, d: int)
    requires Moving(par, p, c, d) && Kids(p, c) != []
    ensures var j := Kids(p, c)[0]; c < j < |p| && p[j] == c && Moving(par, p[j := d], c, d)
  {
    FirstKidIsFirst(p, c);
  }

  /** Levels outside the moved subtree stay the same. */
  lemma {:induction false} LevelUnmoved(p: Shape, j: int, d: int, x: int)
    requires Downward(p) && 0 < d < j < |p| && 0 <= x < |p| && !Anc(p, j, x)
    ensures Level(p[j := d], x) == Level(p, x)
    decreases x
  {
    if x > 0 {
      LevelUnmoved(p, j, d, p[x]);
    }
  }

  lemma MovedSubtree(p: Shape, c: int, d: int, j: int, x: int)
    requires Downward(p) && 0 < d < c < j < |p| && p[c] == d && p[j] == c && Anc(p, j, x)
    ensures Anc(p, d, x)
  {
    assert Anc(p, c, j);
    AncTrans(p, c, j, x);
    assert Anc(p, d, c);
    AncTrans(p, d, c, x);
  }

  /** resetLevel may run before the moved child j has left the list of its old parent c. */
  lemma ReadyToReset(order: seq<SgmlTag>, p: Shape, c: int, d: int, j: int)
    requires |order| == |p| && Downward(p) && 0 < d < c < j < |p| && p[c] == d && p[j] == c
    requires LevelsOk(order, p)
    ensures LevelSet(order, p[j := d], p[d]) && ReadyBelow(Levels(order), p, p[j := d], d)
  {
    LevelUnmoved(p, j, d, p[d]);
    LevelUnmoved(p, j, d, d);
  }

  lemma LevelsAfterReset(order: seq<SgmlTag>, before: seq<int>, p: Shape, c: int, d: int, j: int)
    requires |order| == |p| == |before| && Downward(p) && 0 < d < c < j < |p| && p[c] == d && p[j] == c
    requires forall x :: 0 <= x < |p| ==> before[x] == Level(p, x)
    requires forall x :: 0 <= x < |p| ==> order[x].level == if Anc(p, d, x) then Level(p[j := d], x) else before[x]
    ensures LevelsOk(order, p[j := d])
  {
    forall x | 0 <= x < |p| ensures order[x].level == Level(p[j := d], x) {
      if !Anc(p, d, x) {
        if Anc(p, j, x) { MovedSubtree(p, c, d, j, x); }
        LevelUnmoved(p, j, d, x);
      }
    }
  }

  /** The child lists after the first child j of c has gone to the end of the list of d. */
  lemma ListsAfterMove(order: seq<SgmlTag>, p: Shape, c: int, d: int, lists: seq<seq<SgmlTag>>)
    requires |order| == |p| == |lists| && KidsBehind(p, d, c) && 0 < d < c < |p| && Kids(p, c) != []
    requires forall i :: 0 <= i < |p| ==> lists[i] == KidsOf(order, p, i)
    ensures 0 <= Kids(p, c)[0] < |p|
    ensures var q := p[Kids(p, c)[0] := d];
            && |lists[c]| > 0
            && lists[c][1..] == KidsOf(order, q, c)
            && lists[d] + [order[Kids(p, c)[0]]] == KidsOf(order, q, d)
            && forall i :: 0 <= i < |p| && i != c && i != d ==> lists[i] == KidsOf(order, q, i)
  {
    FirstKidIsFirst(p, c);
    var j := Kids(p, c)[0];
    MoveOneKid(p, c, d, j);
    var q := p[j := d];
    TagsTail(order, p, q, c, j);
    TagsSnoc(order, p, q, d, j);
    forall i | 0 <= i < |p| && i != c && i != d ensures lists[i] == KidsOf(order, q, i) {
      assert Kids(q, i) == Kids(p, i);
      TagsSame(order, p, q, i);
    }
  }

  lemma TagsTail(order: seq<SgmlTag>, p: Shape, q: Shape, c: int, j: int)
    requires |order| == |p| == |q| && Kids(p, c) == [j] + Kids(q, c)
    ensures |KidsOf(order, p, c)| > 0 && KidsOf(order, p, c)[1..] == KidsOf(order, q, c)
  {
    hide Kids;
    var a, b := KidsOf(order, p, c), KidsOf(order, q, c);
    forall m | 0 <= m < |b| ensures a[1..][m] == b[m] { ChildTagAt(order, p, c, m + 1); ChildTagAt(order, q, c, m); }
  }

  lemma TagsSnoc(order: seq<SgmlTag>, p: Shape, q: Shape, d: int, j: int)
    requires |order| == |p| == |q| && Kids(q, d) == Kids(p, d) + [j] && 0 <= j < |p|
    ensures KidsOf(order, q, d) == KidsOf(order, p, d) + [order[j]]
  {
    hide Kids;
    var a, b := KidsOf(order, p, d) + [order[j]], KidsOf(order, q, d);
    forall m | 0 <= m < |b| ensures a[m] == b[m] {
      ChildTagAt(order, q, d, m);
      if m < |b| - 1 { ChildTagAt(order, p, d, m); }
    }
  }

  lemma TagsSame(order: seq<SgmlTag>, p: Shape, q: Shape, i: int)
    requires |order| == |p| == |q| && Kids(q, i) == Kids(p, i)
    ensures KidsOf(order, q, i) == KidsOf(order, p, i)
  {
    hide Kids;
    var a, b := KidsOf(order, p, i), KidsOf(order, q, i);
    forall m | 0 <= m < |b| ensures a[m] == b[m] { ChildTagAt(order, q, i, m); ChildTagAt(order, p, i, m); }
  }

  ghost function Lists(order: seq<SgmlTag>): (r: seq<seq<SgmlTag>>)
    reads order
    ensures |r| == |order| && forall i :: 0 <= i < |order| ==> r[i] == order[i].children
  {
    seq(|order|, i requires 0 <= i < |order| reads order => order[i].children)
  }

  ghost function Records(order: seq<SgmlTag>): (r: seq<Info>)
    reads order
    ensures |r| == |order| && forall i :: 0 <= i < |order| ==> r[i] == order[i].Record()
  {
    seq(|order|, i requires 0 <= i < |order| reads order => order[i].Record())
  }

  /** One record has changed. */
  lemma OneRecord(order: seq<SgmlTag>, info: seq<Info>, records: seq<Info>, j: int, x: Info)
    requires |records| == |order| == |info| && records == info && 0 <= j < |order| && order[j].Record() == x
    requires forall i :: 0 <= i < |order| && i != j ==> order[i].Record() == records[i]
    ensures RecordsOk(order, info[j := x])
  {
  }

  lemma RecordsAre(order: seq<SgmlTag>, info: seq<Info>)
    requires RecordsOk(order, info)
    ensures Records(order) == info
  {
  }

  /** The objects that one turn of MoveChildren touches. */
  lemma MovingTags(order: seq<SgmlTag>, par: Shape, p: Shape, c: int, d: int)
    requires Distinct(order) && Moving(par, p, c, d) && PointersOk(order, p) && Kids(p, c) != []
    ensures var j := Kids(p, c)[0];
            && 0 < d < c < j < |order| == |p| && p[c] == d && p[j] == c
            && Downward(p) && Downward(p[j := d])
            && order[c] != order[d]
            && |order[c].children| > 0 && order[c].children[0] == order[j]
    ensures forall i :: 0 <= i < |p| ==> Levels(order)[i] == Level(p, i)
    ensures forall i :: 0 <= i < |p| ==> Lists(order)[i] == KidsOf(order, p, i)
    ensures LevelsOk(order, p) && ChildrenOk(order, p) && ParentsOk(order, p, |order|)
  {
    hide Kids, Level;
    StillMoving(par, p, c, d);
    KidTags(order, p, c);
    SameTag(order, c, d);
  }

  /** Give the child j of c the new parent d and repair the levels below d. */
  method Reparent(child: SgmlTag, dest: SgmlTag, ghost order: seq<SgmlTag>, ghost p: Shape, ghost c: int, ghost d: int,
                  ghost j: int)
    requires Distinct(order) && |order| == |p| && 0 < d < c < j < |p| && p[c] == d && p[j] == c
    requires Downward(p) && Downward(p[j := d])
    requires child == order[j] && dest == order[d]
    requires LevelsOk(order, p) && ChildrenOk(order, p) && ParentsOk(order, p, |order|)
    modifies order`parent, order`level
    ensures ParentsOk(order, p[j := d], |order|) && LevelsOk(order, p[j := d])
  {
    hide Kids, Anc, Level, Distinct;
    AllOther(order, j);
    child.parent := dest;
    assert ParentsOk(order, p[j := d], |order|);
    hide ParentsOk, ChildrenOk;
    ghost var before := Levels(order);
    ReadyToReset(order, p, c, d, j);
    dest.ResetLevel(order, p, p[j := d], d);
    LevelsAfterReset(order, before, p, c, d, j);
  }

  /** One turn of the loop of MoveChildren: the first child of source becomes the last of dest. */
  method MoveFirstChild(source: SgmlTag, dest: SgmlTag, ghost order: seq<SgmlTag>, ghost par: Shape, ghost p: Shape,
                        ghost c: int, ghost d: int)
    requires Distinct(order) && Moving(par, p, c, d) && PointersOk(order, p) && |order| == |p|
    requires 0 <= d < |order| && 0 <= c < |order| && source == order[c] && dest == order[d] && Kids(p, c) != []
    modifies order`parent, order`level, order`children
    ensures 0 <= Kids(p, c)[0] < |p| && PointersOk(order, p[Kids(p, c)[0] := d])
  {
    hide *;
    MovingTags(order, par, p, c, d);
    ghost var j := Kids(p, c)[0];
    ghost var lists := Lists(order);
    MovingIsBehind(par, p, c, d);
    ListsAfterMove(order, p, c, d, lists);
    var child := source.children[0];
    Reparent(child, dest, order, p, c, d, j);
    dest.children := dest.children + [child];
    source.children := source.children[1..];
    AllOther(order, c);
    AllOther(order, d);
    PointersAfterMove(order, p[j := d], lists, c, d);
  }

  lemma MovingIsBehind(par: Shape, p: Shape, c: int, d: int)
    requires Moving(par, p, c, d)
    ensures KidsBehind(p, d, c)
  {
  }

  lemma PointersAfterMove(order: seq<SgmlTag>, q: Shape, lists: seq<seq<SgmlTag>>, c: int, d: int)
    requires |order| == |q| == |lists| && 0 <= c < |q| && 0 <= d < |q|
    requires order[c].children == KidsOf(order, q, c) && order[d].children == KidsOf(order, q, d)
    requires forall i :: 0 <= i < |q| && i != c && i != d ==>
             lists[i] == KidsOf(order, q, i) && order[i].children == lists[i]
    requires ParentsOk(order, q, |order|) && LevelsOk(order, q)
    ensures PointersOk(order, q)
  {
    hide Kids, Level;
  }

  lemma AllOther(order: seq<SgmlTag>, j: int)
    requires Distinct(order) && 0 <= j < |order|
    ensures forall i :: 0 <= i < |order| && i != j ==> order[i] != order[j]
  {
  }

  /** Move all children of source to dest, the parent of source. */
  method MoveChildren(source: SgmlTag, dest: SgmlTag, ghost order: seq<SgmlTag>, ghost par: Shape, ghost c: int)
    requires Distinct(order) && PointersOk(order, par) && Preorder(par)
    requires 0 < c < |par| && Anc(par, c, |par| - 1) && 0 < par[c]
    requires source == order[c] && dest == order[par[c]]
    modifies order`parent, order`level, order`children
    ensures PointersOk(order, Lift(par, c))
  {
    hide Kids, Anc, Level, KidsBehind, Distinct, PointersOk;
    ghost var d := par[c];
    ghost var p := par;
    StartMoving(par, c);
    PointersCount(order, par, c);
    var count := |source.children|;
    var i := 0;
    while i < count
      invariant 0 <= i <= count && |Kids(p, c)| == count - i
      invariant Moving(par, p, c, d) && PointersOk(order, p)
    {
      ghost var j := Kids(p, c)[0];
      StillMoving(par, p, c, d);
      OneKidLess(p, c, d);
      MoveFirstChild(source, dest, order, par, p, c, d);
      p := p[j := d];
      i := i + 1;
    }
    AllMoved(par, p, c, d);
  }

  lemma PointersCount(order: seq<SgmlTag>, par: Shape, c: int)
    requires PointersOk(order, par) && 0 <= c < |par|
    ensures |order| == |par| && |order[c].children| == |Kids(par, c)|
  {
  }

  lemma OneKidLess(p: Shape, c: int, d: int)
    requires c != d && KidsBehind(p, d, c) && Kids(p, c) != []
    ensures var j := Kids(p, c)[0]; 0 <= j < |p| && |Kids(p[j := d], c)| == |Kids(p, c)| - 1
  {
    FirstKidIsFirst(p, c);
    MoveOneKid(p, c, d, Kids(p, c)[0]);
  }

  lemma StartMoving(par: Shape, c: int)
    requires Preorder(par) && 0 < c < |par| && Anc(par, c, |par| - 1) && 0 < par[c]
    ensures Moving(par, par, c, par[c])
  {
    var d := par[c];
    SpineIsLastChild(par, c);
    forall k, j | 0 <= k <= j < |par| && par[k] == c ensures par[j] != d {
      if par[j] == d { KidsLast(par, d, j); }
    }
  }

  lemma AllMoved(par: Shape, p: Shape, c: int, d: int)
    requires Moving(par, p, c, d) && Kids(p, c) == [] && par[c] == d
    ensures p == Lift(par, c)
  {
    forall i | 0 <= i < |p| ensures p[i] == Lift(par, c)[i] {
      if p[i] == c { KidsComplete(p, c, i); }
    }
  }
}
