/**
  The shape of a tree as a parent vector.

  Node 0 is the root; `par[i]` is the index of the parent of node i, and -1 for node 0.  The tag
  trees of the parser and the tree of files both have such a shape.  `Preorder` says that the
  indices are a preorder numbering of one tree: the parent of node i lies on the path from node
  i-1 to the root.  All tree facts needed by the parser, the walkers and the printer (contiguous
  subtrees, last children, order of siblings) are lemmas about such vectors, so that no proof needs
  recursion over the heap.
*/
module TreeShape {

  type Shape = seq<int>

  /** Node a is node i or one of its ancestors. */
  ghost predicate Anc(par: Shape, a: int, i: int)
    decreases i
  {
    a == i || (0 <= a < i < |par| && par[i] < i && Anc(par, a, par[i]))
  }

  ghost predicate Preorder(par: Shape) {
    && |par| > 0
    && par[0] == -1
    && (forall i :: 0 < i < |par| ==> 0 <= par[i] < i)
    && (forall i :: 0 < i < |par| ==> HangsOnSpine(par, i))
  }

  /** The parent of i lies on the path from i - 1 to the root. */
  ghost predicate HangsOnSpine(par: Shape, i: int)
    requires 0 < i < |par|
  {
    Anc(par, par[i], i - 1)
  }

  /** InRange of the children of p, in order. */
  function Kids(par: Shape, p: int): (ks: seq<int>)
    ensures forall k :: k in ks ==> 0 <= k < |par| && par[k] == p
  {
    if par == [] then []
    else
      var n := |par| - 1;
      var front := Kids(par[..n], p);
      if par[n] == p then front + [n] else front
  }

  ghost predicate InRange(ks: seq<int>, n: int) {
    forall m :: 0 <= m < |ks| ==> 0 <= ks[m] < n
  }

  lemma KidsInRange(par: Shape, p: int)
    ensures InRange(Kids(par, p), |par|)
  {
    var ks := Kids(par, p);
    assert forall m :: 0 <= m < |ks| ==> ks[m] in ks;
  }

  ghost function Pick<T>(nodes: seq<T>, ks: seq<int>): (r: seq<T>)
    requires InRange(ks, |nodes|)
    ensures |r| == |ks|
  {
    seq(|ks|, m requires 0 <= m < |ks| => nodes[ks[m]])
  }

  /** The objects of the children of p, when `nodes` lists the objects. */
  ghost function KidsOf<T>(nodes: seq<T>, par: Shape, p: int): (r: seq<T>)
    requires |nodes| == |par|
    ensures |r| == |Kids(par, p)|
  {
    KidsInRange(par, p);
    Pick(nodes, Kids(par, p))
  }

  lemma {:induction false} KidsIncreasing(par: Shape, p: int)
    ensures Increasing(Kids(par, p))
  {
    if par != [] {
      var n := |par| - 1;
      KidsIncreasing(par[..n], p);
      var front := Kids(par[..n], p);
      forall i | 0 <= i < |front| ensures front[i] < n { assert front[i] in front; }
    }
  }

  lemma {:induction false} KidsComplete(par: Shape, p: int, k: int)
    requires 0 <= k < |par| && par[k] == p
    ensures k in Kids(par, p)
  {
    var n := |par| - 1;
    if k < n { KidsComplete(par[..n], p, k); }
  }

  /** The last child is the greatest. */
  lemma KidsLast(par: Shape, p: int, k: int)
    requires 0 <= k < |par| && par[k] == p
    ensures var ks := Kids(par, p); |ks| > 0 && k <= ks[|ks| - 1]
  {
    KidsComplete(par, p, k);
    KidsIncreasing(par, p);
    var ks := Kids(par, p);
    var j :| 0 <= j < |ks| && ks[j] == k;
    if j < |ks| - 1 { assert ks[j] < ks[|ks| - 1]; }
  }

  /** The first child is the least. */
  lemma KidsFirst(par: Shape, p: int, k: int)
    requires 0 <= k < |par| && par[k] == p
    ensures var ks := Kids(par, p); |ks| > 0 && ks[0] <= k
  {
    KidsComplete(par, p, k);
    KidsIncreasing(par, p);
    var ks := Kids(par, p);
    var j :| 0 <= j < |ks| && ks[j] == k;
    if 0 < j { assert ks[0] < ks[j]; }
  }

  /** No child lies between two consecutive ones. */
  lemma KidsNext(par: Shape, p: int, m: nat, k: int)
    requires 0 <= k < |par| && par[k] == p
    requires m < |Kids(par, p)| && Kids(par, p)[m] < k
    ensures m + 1 < |Kids(par, p)| && Kids(par, p)[m + 1] <= k
  {
    KidsComplete(par, p, k);
    KidsIncreasing(par, p);
    var ks := Kids(par, p);
    var j :| 0 <= j < |ks| && ks[j] == k;
    if j < m { IncreasingAt(ks, j, m); }
    if m + 1 < j { assert ks[m + 1] < ks[j]; }
  }

  lemma KidsStep(par: Shape, p: int, m: nat)
    requires m + 1 < |Kids(par, p)|
    ensures Kids(par, p)[m] < Kids(par, p)[m + 1]
    ensures var k := Kids(par, p)[m + 1]; 0 <= k < |par| && par[k] == p
    ensures var k := Kids(par, p)[m]; 0 <= k < |par| && par[k] == p
  {
    KidsIncreasing(par, p);
    var ks := Kids(par, p);
    assert ks[m] in ks && ks[m + 1] in ks;
  }

  predicate Increasing(ks: seq<int>) {
    forall i, j :: 0 <= i < j < |ks| ==> ks[i] < ks[j]
  }

  lemma IncreasingAt(ks: seq<int>, i: int, j: int)
    requires Increasing(ks) && 0 <= i < j < |ks|
    ensures ks[i] < ks[j]
  {
  }

  // ----- ancestors

  lemma {:induction false} AncTrans(par: Shape, a: int, b: int, c: int)
    requires Anc(par, a, b) && Anc(par, b, c)
    ensures Anc(par, a, c)
    decreases c
  {
    if b != c { AncTrans(par, a, b, par[c]); }
  }

  lemma AncOfParent(par: Shape, a: int, i: int)
    requires Anc(par, a, i) && a != i
    ensures 0 <= a < i < |par| && Anc(par, a, par[i]) && a <= par[i]
  {
  }

  lemma {:induction false} RootIsAnc(par: Shape, i: int)
    requires Preorder(par) && 0 <= i < |par|
    ensures Anc(par, 0, i)
    decreases i
  {
    if i > 0 { RootIsAnc(par, par[i]); }
  }

  /** Two ancestors of one node lie on one path. */
  lemma {:induction false} AncChain(par: Shape, a: int, b: int, c: int)
    requires Anc(par, a, c) && Anc(par, b, c) && a <= b
    ensures Anc(par, a, b)
    decreases c
  {
    if b != c { AncChain(par, a, b, par[c]); }
  }

  /** Subtrees are intervals: everything between a and a descendant i of a is below a. */
  lemma {:induction false} SubtreeInterval(par: Shape, a: int, k: int, i: int)
    requires Preorder(par) && Anc(par, a, i) && a <= k <= i && 0 <= a && i < |par|
    ensures Anc(par, a, k)
    decreases i
  {
    if k == i || a == k {
    } else if par[i] >= k {
      SubtreeInterval(par, a, k, par[i]);
    } else {
      assert HangsOnSpine(par, i);
      SubtreeInterval(par, par[i], k, i - 1);
      AncTrans(par, a, par[i], k);
    }
  }

  /** Appending one node does not change the ancestors of the others. */
  lemma {:induction false} AncPrefix(par: Shape, q: int, a: int, i: int)
    requires i < |par|
    ensures Anc(par + [q], a, i) <==> Anc(par, a, i)
    decreases i
  {
    if 0 <= a < i && par[i] < i { AncPrefix(par, q, a, par[i]); }
  }

  /** A new last node may hang below any node of the right-hand spine. */
  lemma {:induction false} PreorderSnoc(par: Shape, q: int)
    requires Preorder(par) && 0 <= q < |par| && Anc(par, q, |par| - 1)
    ensures Preorder(par + [q])
    ensures Anc(par + [q], q, |par|) && Anc(par + [q], |par|, |par|)
  {
    var ext := par + [q];
    forall i | 0 < i < |ext| ensures HangsOnSpine(ext, i) {
      assert i < |par| ==> HangsOnSpine(par, i);
      AncPrefix(par, q, ext[i], i - 1);
    }
  }

  // ----- the right-hand spine

  /** A node on the right-hand spine is the last child of its parent. */
  lemma {:induction false} SpineIsLastChild(par: Shape, c: int)
    requires Preorder(par) && 0 < c < |par| && Anc(par, c, |par| - 1)
    ensures var ks := Kids(par, par[c]); |ks| > 0 && ks[|ks| - 1] == c
  {
    KidsLast(par, par[c], c);
    var ks := Kids(par, par[c]);
    var last := ks[|ks| - 1];
    assert last in ks;
    if last > c {
      SubtreeInterval(par, c, last, |par| - 1);
      AncOfParent(par, c, last);
    }
  }

  // ----- merging a spine node into its parent

  /** The shape after every child of c has been handed to the parent of c. */
  function Lift(par: Shape, c: int): (r: Shape)
    requires 0 <= c < |par|
    ensures |r| == |par|
  {
    seq(|par|, i requires 0 <= i < |par| => if par[i] == c then par[c] else par[i])
  }

  lemma {:induction false} AncLift(par: Shape, c: int, a: int, i: int)
    requires Preorder(par) && 0 < c < |par| && 0 <= i < |par| && a != c
    requires Anc(par, a, i)
    ensures Anc(Lift(par, c), a, i)
    decreases i
  {
    if a != i {
      if par[i] == c {
        AncLift(par, c, a, par[c]);
      } else {
        AncLift(par, c, a, par[i]);
      }
    }
  }

  lemma {:induction false} AncUnlift(par: Shape, c: int, a: int, i: int)
    requires Preorder(par) && 0 < c < |par| && 0 <= i < |par|
    requires Anc(Lift(par, c), a, i)
    ensures Anc(par, a, i)
    decreases i
  {
    if a != i {
      AncUnlift(par, c, a, Lift(par, c)[i]);
      if par[i] == c {
        assert Anc(par, par[c], c);
        AncTrans(par, a, par[c], c);
      }
    }
  }

  lemma {:induction false} LiftPreorder(par: Shape, c: int)
    requires Preorder(par) && 0 < c < |par|
    ensures Preorder(Lift(par, c))
  {
    var r := Lift(par, c);
    forall i | 0 < i < |r| ensures HangsOnSpine(r, i) {
      assert HangsOnSpine(par, i);
      if par[i] == c {
        AncTrans(par, par[c], c, i - 1);
      }
      AncLift(par, c, r[i], i - 1);
    }
  }

  lemma KidsNone(par: Shape, p: int)
    requires forall k :: 0 <= k < |par| ==> par[k] != p
    ensures Kids(par, p) == []
  {
  }

  lemma KidsSame(par: Shape, r: Shape, p: int)
    requires |r| == |par|
    requires forall k :: 0 <= k < |par| ==> (r[k] == p <==> par[k] == p)
    ensures Kids(r, p) == Kids(par, p)
  {
    if par != [] { KidsSame(par[..|par| - 1], r[..|par| - 1], p); }
  }

  /** No child of c stands before a child of its parent d. */
  ghost predicate KidsBehind(par: Shape, d: int, c: int) {
    forall k, j :: 0 <= k <= j < |par| && par[k] == c ==> par[j] != d
  }

  lemma {:induction false} JoinKids(par: Shape, r: Shape, d: int, c: int)
    requires c != d && |r| == |par| && KidsBehind(par, d, c)
    requires forall i :: 0 <= i < |par| ==> r[i] == if par[i] == c then d else par[i]
    ensures Kids(r, d) == Kids(par, d) + Kids(par, c)
  {
    if par != [] {
      var n := |par| - 1;
      JoinKids(par[..n], r[..n], d, c);
      if par[n] == d { KidsNone(par[..n], c); }
    }
  }

  lemma {:induction false} LiftedKids(par: Shape, c: int)
    requires Preorder(par) && 0 < c < |par| && Anc(par, c, |par| - 1)
    ensures Kids(Lift(par, c), par[c]) == Kids(par, par[c]) + Kids(par, c)
  {
    var d := par[c];
    SpineIsLastChild(par, c);
    forall k, j | 0 <= k <= j < |par| && par[k] == c ensures par[j] != d {
      if par[j] == d { KidsLast(par, d, j); }
    }
    JoinKids(par, Lift(par, c), d, c);
  }

  /** Handing over the children of the last child keeps the order of all of them. */
  lemma {:induction false} LiftKids(par: Shape, c: int)
    requires Preorder(par) && 0 < c < |par| && Anc(par, c, |par| - 1)
    ensures Kids(Lift(par, c), c) == []
    ensures Kids(Lift(par, c), par[c]) == Kids(par, par[c]) + Kids(par, c)
    ensures forall p {:trigger Kids(Lift(par, c), p)} :: p != c && p != par[c] ==> Kids(Lift(par, c), p) == Kids(par, p)
  {
    var r := Lift(par, c);
    KidsNone(r, c);
    LiftedKids(par, c);
    forall p | p != c && p != par[c] ensures Kids(r, p) == Kids(par, p) {
      KidsSame(par, r, p);
    }
  }

  // ----- preorder successor and predecessor

  /** The successor of a node with children is its first child. */
  lemma {:induction false} FirstKid(par: Shape, i: int)
    requires Preorder(par) && 0 <= i < |par| && Kids(par, i) != []
    ensures Kids(par, i)[0] == i + 1
  {
    var ks := Kids(par, i);
    var k := ks[0];
    assert k in ks;
    assert Anc(par, i, k);
    SubtreeInterval(par, i, i + 1, k);
    AncOfParent(par, i, i + 1);
    KidsComplete(par, i, i + 1);
    KidsIncreasing(par, i);
    var m :| 0 <= m < |ks| && ks[m] == i + 1;
    if m > 0 { IncreasingAt(ks, 0, m); }
  }

  /** i is the last node of the subtree of r. */
  ghost predicate EndsAt(par: Shape, r: int, i: int) {
    && 0 <= r <= i < |par|
    && Anc(par, r, i)
    && (i + 1 < |par| ==> !Anc(par, r, i + 1))
  }

  lemma {:induction false} LeafEnds(par: Shape, i: int)
    requires Preorder(par) && 0 <= i < |par| && Kids(par, i) == []
    ensures EndsAt(par, i, i)
  {
    if i + 1 < |par| && Anc(par, i, i + 1) {
      AncOfParent(par, i, i + 1);
      KidsComplete(par, i, i + 1);
    }
  }

  lemma {:induction false} NextIsSibling(par: Shape, r: int, i: int)
    requires Preorder(par) && 0 < r && EndsAt(par, r, i) && i + 1 < |par|
    requires Anc(par, par[r], i + 1)
    ensures par[i + 1] == par[r]
  {
    var p, q := par[r], par[i + 1];
    assert HangsOnSpine(par, i + 1);
    AncOfParent(par, p, i + 1);
    if r <= q {
      AncChain(par, r, q, i);
    } else if p < q {
      AncChain(par, q, r, i);
      AncOfParent(par, q, r);
    }
  }

  /** After the last node i of the subtree of r comes the next sibling of r, if r has one. */
  lemma {:induction false} NextSiblingFollows(par: Shape, r: int, i: int, m: nat)
    requires Preorder(par) && 0 < r && EndsAt(par, r, i)
    requires m + 1 < |Kids(par, par[r])| && Kids(par, par[r])[m] == r
    ensures i + 1 < |par| && Kids(par, par[r])[m + 1] == i + 1
  {
    var p := par[r];
    KidsStep(par, p, m);
    var s := Kids(par, p)[m + 1];
    if s <= i {
      SubtreeInterval(par, r, s, i);
      AncOfParent(par, r, s);
    } else {
      assert Anc(par, p, s);
      SubtreeInterval(par, p, i + 1, s);
      NextIsSibling(par, r, i);
      KidsNext(par, p, m, i + 1);
    }
  }

  /** If r is a last child, the subtree of its parent ends where the subtree of r ends. */
  lemma {:induction false} LastSiblingEnds(par: Shape, r: int, i: int)
    requires Preorder(par) && 0 < r && EndsAt(par, r, i)
    requires var ks := Kids(par, par[r]); |ks| > 0 && ks[|ks| - 1] == r
    ensures EndsAt(par, par[r], i)
  {
    var p := par[r];
    assert Anc(par, p, r);
    AncTrans(par, p, r, i);
    if i + 1 < |par| && Anc(par, p, i + 1) {
      NextIsSibling(par, r, i);
      KidsLast(par, p, i + 1);
    }
  }

  /** The child of p on the path from p down to i. */
  lemma {:induction false} BranchBelow(par: Shape, p: int, i: int) returns (b: int)
    requires Preorder(par) && 0 <= p < i < |par| && Anc(par, p, i)
    ensures p < b <= i && par[b] == p && Anc(par, b, i)
    decreases i
  {
    if par[i] == p {
      b := i;
    } else {
      b := BranchBelow(par, p, par[i]);
      AncTrans(par, b, par[i], i);
    }
  }

  /** The subtree of the previous sibling of i ends just before i. */
  lemma {:induction false} PreviousSiblingEnds(par: Shape, i: int, m: nat)
    requires Preorder(par) && 0 < i < |par|
    requires m + 1 < |Kids(par, par[i])| && Kids(par, par[i])[m + 1] == i
    ensures EndsAt(par, Kids(par, par[i])[m], i - 1)
  {
    var p := par[i];
    KidsStep(par, p, m);
    var r := Kids(par, p)[m];
    if Anc(par, r, i) { AncOfParent(par, r, i); }
    assert HangsOnSpine(par, i);
    var b := BranchBelow(par, p, i - 1);
    if b < r {
      SubtreeInterval(par, b, r, i - 1);
      AncOfParent(par, b, r);
    } else if r < b {
      KidsNext(par, p, m, b);
    }
  }

  /** The last child of a node whose subtree ends at i also ends at i. */
  lemma {:induction false} LastKidEnds(par: Shape, r: int, i: int)
    requires Preorder(par) && EndsAt(par, r, i) && Kids(par, r) != []
    ensures var ks := Kids(par, r); EndsAt(par, ks[|ks| - 1], i) && ks[|ks| - 1] > r
  {
    var ks := Kids(par, r);
    var last := ks[|ks| - 1];
    assert last in ks;
    assert Anc(par, r, last);
    if i < last { SubtreeInterval(par, r, i + 1, last); }
    var b := BranchBelow(par, r, i);
    KidsLast(par, r, b);
    if b < last {
      SubtreeInterval(par, b, last, i);
      AncOfParent(par, b, last);
    }
    if i + 1 < |par| && Anc(par, last, i + 1) {
      AncTrans(par, r, last, i + 1);
    }
  }

  // ----- levels

  function Level(par: Shape, i: int): (l: nat)
    decreases i
  {
    if 0 < i < |par| && par[i] < i then 1 + Level(par, par[i]) else 0
  }

  lemma {:induction false} LevelPrefix(par: Shape, q: int, i: int)
    requires i < |par|
    ensures Level(par + [q], i) == Level(par, i)
    decreases i
  {
    if 0 < i && par[i] < i { LevelPrefix(par, q, par[i]); }
  }
}
