/**
  Documents that were read as forests: a document whose tags are all closed is the layout of a forest,
  so that what the round trip says of printed forests holds of it.
*/
module SgmlParsedForest {
  import opened QtText
  import opened Sequences
  import opened TreeShape
  import opened SgmlModel
  import opened SgmlScan
  import opened SgmlPrint
  import opened SgmlForest
  import opened SgmlOpenTags
  import opened SgmlPositions
  import opened SgmlRoundTrip

  // ----- the forest of a document

  /** The first node from m on that does not lie below node i, or j. */
  function Behind(par: Shape, i: int, m: int, j: int): (k: int)
    requires 0 <= m <= j <= |par|
    ensures m <= k <= j && (k < j ==> par[k] < i)
    ensures forall x :: m <= x < k ==> par[x] >= i
    decreases j - m
  {
    if m == j || par[m] < i then m else Behind(par, i, m + 1, j)
  }

  function NodeOf(x: Info, kids: seq<Node>): Node {
    match x.kind
    case Cdata => TextNode(x.value)
    case Comment => CommentNode(x.value)
    case Doctype => DoctypeNode(x.value)
    case Standalone => SingleNode(x.name, x.attributes)
    case _ => Element(x.name, x.attributes, kids)
  }

  /** The nodes from i up to j as a forest. */
  function ForestIn(par: Shape, info: seq<Info>, i: int, j: int): (fs: seq<Node>)
    requires |par| == |info| && 0 <= i <= j <= |par|
    ensures i < j <==> fs != []
    decreases j - i
  {
    if i == j then []
    else
      var k := Behind(par, i, i + 1, j);
      [NodeOf(info[i], ForestIn(par, info, i + 1, k))] + ForestIn(par, info, k, j)
  }

  function ForestOf(d: Doc): seq<Node>
    requires |d.par| == |d.info| > 0
  {
    ForestIn(d.par, d.info, 1, |d.par|)
  }

  /** A record of a text holds a text only, and one of a tag no text. */
  predicate RecordOk(x: Info) {
    match x.kind
    case Cdata => x.name == "" && x.attributes == []
    case Comment => x.name == "" && x.attributes == []
    case Doctype => x.name == "" && x.attributes == []
    case Standalone => x.value == ""
    case StartTag => x.value == ""
    case StartEmpty => x.value == ""
    case _ => false
  }

  ghost predicate RecordsFit(d: Doc) {
    Valid(d) && d.info[0] == DOC_INFO && forall i :: 0 < i < |d.info| ==> RecordOk(d.info[i])
  }

  // ----- the layout of the forest is the document

  /** The nodes from i up to j hang below p or below each other. */
  ghost predicate Interval(par: Shape, p: int, i: int, j: int) {
    && Preorder(par) && 0 <= p < i <= j <= |par|
    && (forall m :: i <= m < j ==> par[m] == p || i <= par[m] < m)
    && (j < |par| ==> par[j] < i)
  }

  lemma KidsInterval(par: Shape, p: int, i: int, j: int)
    requires Interval(par, p, i, j) && i < j
    ensures var k := Behind(par, i, i + 1, j);
            && par[i] == p && Interval(par, i, i + 1, k) && Interval(par, p, k, j)
            && (k > i + 1 <==> i + 1 < |par| && par[i + 1] == i)
  {
    hide HangsOnSpine;
    var k := Behind(par, i, i + 1, j);
    if i + 1 < |par| { FirstBehind(par, i); }
    forall m | k <= m < j ensures par[m] == p || k <= par[m] < m { NotBack(par, i, k, m); }
  }

  lemma FirstBehind(par: Shape, i: int)
    requires Preorder(par) && 0 <= i && i + 1 < |par|
    ensures par[i + 1] <= i
  {
    hide HangsOnSpine;
  }

  /** Behind the subtree of i nothing hangs in it any more. */
  lemma NotBack(par: Shape, i: int, k: int, m: int)
    requires Preorder(par) && 0 <= i < k <= m < |par| && par[k] < i
    ensures !(i <= par[m] < k)
  {
    if m > k {
      assert HangsOnSpine(par, m);
      hide HangsOnSpine;
      var a := par[m];
      if i <= a < k {
        SubtreeInterval(par, a, k, m - 1);
        AncOfParent(par, a, k);
      }
    }
  }

  /** The kinds fit the children: what is not a start tag has none. */
  ghost predicate KindsFit(par: Shape, info: seq<Info>, i: int, j: int)
    requires |par| == |info| && 0 <= i <= j <= |par|
  {
    forall m :: i <= m < j ==> RecordOk(info[m]) && (info[m].kind == StartTag <==> HasKid(par, m))
  }

  function BareInfo(info: seq<Info>): seq<Info> {
    seq(|info|, i requires 0 <= i < |info| => Bare(info[i]))
  }

  lemma NodeIs(x: Info, kids: seq<Node>)
    requires RecordOk(x) && (x.kind == StartTag <==> kids != [])
    ensures NodeInfo(NodeOf(x, kids)) == Bare(x) && NodeKids(NodeOf(x, kids)) == kids
  {
  }

  lemma OneBare(info: seq<Info>, i: int, k: int, j: int)
    requires 0 <= i < k <= j <= |info|
    ensures BareInfo(info[i..j]) == [Bare(info[i])] + BareInfo(info[i + 1..k]) + BareInfo(info[k..j])
  {
  }

  lemma OneParent(par: Shape, i: int, k: int, j: int)
    requires 0 <= i < k <= j <= |par|
    ensures par[i..j] == [par[i]] + par[i + 1..k] + par[k..j]
  {
  }

  lemma HasKidAtOnce(par: Shape, i: int)
    requires Preorder(par) && 0 <= i < |par|
    ensures HasKid(par, i) <==> i + 1 < |par| && par[i + 1] == i
  {
    hide HangsOnSpine;
    if HasKid(par, i) {
      var m :| 0 <= m < |par| && par[m] == i;
      SpineOfKid(par, i, m);
    }
  }

  lemma SpineOfKid(par: Shape, i: int, m: int)
    requires Preorder(par) && 0 <= i < m < |par| && par[m] == i
    ensures par[i + 1] == i
  {
    if m > i + 1 {
      assert HangsOnSpine(par, m);
      SubtreeInterval(par, i, i + 1, m - 1);
      AncOfParent(par, i, i + 1);
      assert HangsOnSpine(par, i + 1);
    }
  }

  lemma {:induction false} ForestIsLayout(par: Shape, info: seq<Info>, p: int, i: int, j: int)
    requires |par| == |info| && Interval(par, p, i, j) && KindsFit(par, info, i, j)
    ensures var fs := ForestIn(par, info, i, j);
            LayoutPar(fs, p, i) == par[i..j] && LayoutInfo(fs) == BareInfo(info[i..j])
    decreases j - i
  {
    hide *;
    IntervalFacts(par, p, i, j);
    if i == j {
      NothingLaid(par, info, p, i);
    } else {
      KidsInterval(par, p, i, j);
      HasKidAtOnce(par, i);
      var k := Behind(par, i, i + 1, j);
      var kids, rest := ForestIn(par, info, i + 1, k), ForestIn(par, info, k, j);
      ForestStep(par, info, i, j);
      PartsFit(par, info, i, k, j);
      NodeIs(info[i], kids);
      ForestIsLayout(par, info, i, i + 1, k);
      ForestIsLayout(par, info, p, k, j);
      OneBare(info, i, k, j);
      OneParent(par, i, k, j);
      OneTreeLaid(NodeOf(info[i], kids), rest, p, i);
    }
  }

  lemma ForestStep(par: Shape, info: seq<Info>, i: int, j: int)
    requires |par| == |info| && 0 <= i < j <= |par|
    ensures var k := Behind(par, i, i + 1, j);
            ForestIn(par, info, i, j) == [NodeOf(info[i], ForestIn(par, info, i + 1, k))] + ForestIn(par, info, k, j)
  {
  }

  lemma PartsFit(par: Shape, info: seq<Info>, i: int, k: int, j: int)
    requires |par| == |info| && 0 <= i < k <= j <= |par| && KindsFit(par, info, i, j)
    ensures KindsFit(par, info, i + 1, k) && KindsFit(par, info, k, j)
    ensures RecordOk(info[i]) && (info[i].kind == StartTag <==> HasKid(par, i))
  {
    hide RecordOk, HasKid;
  }

  lemma IntervalFacts(par: Shape, p: int, i: int, j: int)
    requires Interval(par, p, i, j)
    ensures 0 <= p < i <= j <= |par| && Preorder(par)
  {
  }

  lemma NothingLaid(par: Shape, info: seq<Info>, p: int, i: int)
    requires |par| == |info| && 0 <= i <= |par|
    ensures var fs := ForestIn(par, info, i, i);
            LayoutPar(fs, p, i) == par[i..i] && LayoutInfo(fs) == BareInfo(info[i..i])
  {
  }

  lemma OneTreeLaid(n: Node, rest: seq<Node>, p: int, i: int)
    ensures var fs, kids := [n] + rest, NodeKids(n);
            && |LayoutPar(kids, i, i + 1)| == Size(kids)
            && LayoutPar(fs, p, i) == [p] + LayoutPar(kids, i, i + 1) + LayoutPar(rest, p, i + 1 + Size(kids))
            && LayoutInfo(fs) == [NodeInfo(n)] + LayoutInfo(kids) + LayoutInfo(rest)
  {
    var fs := [n] + rest;
    assert fs[1..] == rest;
    LayoutCons(fs, p, i, 0);
  }

  /** A document whose tags are all closed, without its virtual end tag, is the layout of its forest. */
  lemma ClosedIsLayout(d: Doc)
    requires KindsOk(d) && RecordsFit(d) && d.cur == 0
    ensures Layout(ForestOf(d)) == BareDoc(d)
  {
    hide LayoutPar, LayoutInfo, ForestIn, Anc, HangsOnSpine, RecordOk, HasKid;
    forall i | 0 < i < |d.info| ensures d.info[i].kind == StartTag <==> HasKid(d.par, i) {
      assert KindOk(d, i);
      AncOfRoot(d.par, i);
    }
    ForestIsLayout(d.par, d.info, 0, 1, |d.par|);
    assert BareDoc(d).info == BareInfo(d.info);
    assert BareInfo(d.info) == [Bare(d.info[0])] + BareInfo(d.info[1..]);
    assert d.par == [d.par[0]] + d.par[1..] && d.info[1..|d.par|] == d.info[1..] && d.par[1..|d.par|] == d.par[1..];
  }

  // ----- what every run reads

  lemma AddKeepsRecords(d: Doc, x: Info)
    requires RecordsFit(d)
    ensures RecordOk(x) ==> RecordsFit(AddLeaf(d, x)) && RecordsFit(AddOpen(d, x))
  {
    hide RecordOk, Preorder, Anc;
    AddKeepsValid(d, x);
  }

  /** An open tag, written standalone or closed, keeps a record of a tag. */
  lemma ReadEndKeepsRecords(d: Doc, name: string, pos: int, len: int)
    requires KindsOk(d) && RecordsFit(d) && ReadEnd(d, name, pos, len).Ended?
    ensures RecordsFit(ReadEnd(d, name, pos, len).doc)
  {
    hide Preorder, Anc, DemoteTo, MatchUp, HasKid;
    var t := MatchUp(d, name, d.cur);
    DemoteToIsDemoted(d, t);
    forall m | 0 < m < |d.info| && Anc(d.par, m, d.cur) ensures d.info[m].kind == StartTag { assert KindOk(d, m); }
    var r := ReadEnd(d, name, pos, len).doc;
    forall i | 0 < i < |d.info| ensures RecordOk(r.info[i]) { assert RecordOk(d.info[i]); }
  }

  ghost predicate Fits(d: Doc) { KindsOk(d) && RecordsFit(d) }

  lemma FitsIsInductive()
    ensures Inductive((d: Doc) => Fits(d))
  {
    hide ReadEnd, Valid, KindsOk, RecordsFit, AddLeaf, AddOpen;
    forall d: Doc, x: Info | Fits(d) && IsLeaf(x) ensures Fits(AddLeaf(d, x)) {
      AddKeepsKinds(d, x);
      AddKeepsRecords(d, x);
    }
    forall d: Doc, x: Info | Fits(d) && IsStart(x) ensures Fits(AddOpen(d, x)) {
      AddKeepsKinds(d, x);
      AddKeepsRecords(d, x);
    }
    forall d: Doc, name: string, pos: int, len: int | Valid(d) && Fits(d) && ReadEnd(d, name, pos, len).Ended?
      ensures Fits(ReadEnd(d, name, pos, len).doc)
    {
      ReadEndKeepsKinds(d, name, pos, len);
      ReadEndKeepsRecords(d, name, pos, len);
    }
  }

  /** The forest of a document with its virtual end tag. */
  function ReadForest(d: Doc): seq<Node> {
    if |d.par| == |d.info| > 1 then ForestOf(BeforeEnd(d)) else []
  }

  /** In whatever document a run leaves: all tags are closed exactly when the document, but for its
      positions, is the layout of its forest with the virtual end tag behind it. */
  lemma ParsedIsForest(s: string, n: nat, d: Doc)
    requires Passes(s, EMPTY_DOC, 0, -1, n) == Over(Parsed(d))
    ensures d.cur == 0 <==> BareDoc(d) == Finish(Layout(ReadForest(d)))
  {
    hide Passes, Inductive, Fits, ReadForest, BareDoc, Layout, Finish;
    FitsIsInductive();
    EmptyFits();
    PassesKeep((d: Doc) => Fits(d), s, EMPTY_DOC, 0, -1, n);
    var e :| Fits(e) && Valid(e) && d == Finish(e);
    FinishedForest(e);
  }

  lemma EmptyFits()
    ensures Fits(EMPTY_DOC)
  {
  }

  lemma FinishedForest(e: Doc)
    requires Fits(e)
    ensures Finish(e).cur == 0 <==> BareDoc(Finish(e)) == Finish(Layout(ReadForest(Finish(e))))
  {
    hide Preorder, Anc, HasKid, LayoutPar, LayoutInfo, ForestIn, RecordOk;
    BareFinish(e);
    BeforeFinish(e);
    if e.cur == 0 { ClosedIsLayout(e); }
  }

  /** What was read can be printed and read again: when the forest of the document is printable, the
      second reading gives the same document, but for its positions and a text behind the last tag,
      and both print the same text in any format when there is no such text. */
  lemma RereadsTheSame(f: Format, g: Format, d: Doc, fs: seq<Node>)
    requires |d.info| == |d.par| > 1 && BareDoc(d) == Finish(Layout(fs)) && WhiteFormat(f) && GoodForest(fs)
    ensures var r := ParseText(Export(f, d));
            && r.Parsed? && |r.doc.info| == |r.doc.par| > 1
            && BareDoc(r.doc) == Finish(Layout(Kept(fs)))
            && (BareDoc(r.doc) == BareDoc(d) <==> !EndsWithText(fs))
            && (!EndsWithText(fs) ==> Export(g, r.doc) == Export(g, d))
  {
    hide *;
    ParseUndoesExport(f, fs);
    ExportBare(f, d);
    var r := ParseText(Export(f, d));
    SameSize(r.doc, Kept(fs));
    ExportBare(g, r.doc);
    ExportBare(g, d);
  }

  /** For the document of a run: once it has been printed and read again, printing and reading change
      nothing any more. */
  lemma PrintingIsStable(f: Format, g: Format, s: string, n: nat, d: Doc)
    requires Passes(s, EMPTY_DOC, 0, -1, n) == Over(Parsed(d)) && d.cur == 0
    requires WhiteFormat(f) && GoodForest(ReadForest(d))
    ensures |d.info| == |d.par| > 1
    ensures var r := ParseText(Export(f, d));
            && r.Parsed? && |r.doc.info| == |r.doc.par| > 1
            && (BareDoc(r.doc) == BareDoc(d) <==> !EndsWithText(ReadForest(d)))
            && (!EndsWithText(ReadForest(d)) ==> Export(g, r.doc) == Export(g, d))
  {
    hide *;
    ParsedIsForest(s, n, d);
    SameSize(d, ReadForest(d));
    RereadsTheSame(f, g, d, ReadForest(d));
  }
}
