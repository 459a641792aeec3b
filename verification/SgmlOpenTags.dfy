/**
  The stack of the printer (QSgml.cpp:71-211): in a document whose tags are all closed, the open
  start tags are at every step exactly the ancestors of the tag that is printed next.
*/
module SgmlOpenTags {
  import opened TreeShape
  import opened SgmlModel
  import opened SgmlPrint
  import opened SgmlForest
  import opened SgmlScan

  /** The printer when it comes to tag i. */
  function PrinterAt(f: Format, d: Doc, i: int): PrintState
    requires |d.info| == |d.par| && 0 < i < |d.par|
    decreases i
  {
    if i == 1 then PrintState("", "", [])
    else PrintTag(f, d.info[i - 1], TagLevel(d, i - 1), TagLevel(d, i), PrinterAt(f, d, i - 1))
  }

  /** The printer's text is that of the loop. */
  lemma {:induction false} PrinterAtIsTheLoop(f: Format, d: Doc, i: int)
    requires |d.info| == |d.par| && 0 < i < |d.par|
    ensures ExportFrom(f, d, i, PrinterAt(f, d, i)) == Export(f, d)
    decreases i
  {
    hide PrintTag, TagLevel;
    if i > 1 { PrinterAtIsTheLoop(f, d, i - 1); }
  }

  /** The ancestors of tag i below the document tag, the outermost first. */
  function Chain(par: Shape, i: int): seq<int>
    decreases i
  {
    if 0 < i < |par| && 0 < par[i] < i then Chain(par, par[i]) + [par[i]] else []
  }

  /** Every tag with children is a start tag and has been closed. */
  ghost predicate AllClosed(d: Doc) {
    && |d.info| == |d.par| > 1 && Preorder(d.par) && d.par[|d.par| - 1] == 0
    && forall i :: 0 < i < |d.par| - 1 ==> (d.info[i].kind == StartTag <==> Kids(d.par, i) != [])
  }

  ghost predicate OpenAre(d: Doc, open: seq<(string, int)>, ks: seq<int>) {
    && |open| == |ks|
    && forall m :: 0 <= m < |ks| ==> 0 <= ks[m] < |d.info| && open[m] == (d.info[ks[m]].name, Level(d.par, ks[m]))
  }

  function DropLast<T>(s: seq<T>, n: int): seq<T> {
    if n <= 0 then s else if n >= |s| then [] else s[..|s| - n]
  }

  lemma {:induction false} CloseTagsDrops(f: Format, n: int, afterText: bool, st: PrintState)
    ensures CloseTags(f, n, afterText, st).open == DropLast(st.open, n)
    decreases n
  {
    hide CloseText;
    if n > 0 && st.open != [] {
      var (name, level) := st.open[|st.open| - 1];
      var front := st.open[..|st.open| - 1];
      CloseTagsDrops(f, n - 1, false, PrintState(st.out + CloseText(f, name, level, afterText), st.spc, front));
    }
  }

  lemma {:induction false} ChainLength(par: Shape, i: int)
    requires Preorder(par) && 0 < i < |par|
    ensures |Chain(par, i)| == Level(par, i) - 1
    ensures forall m :: 0 <= m < |Chain(par, i)| ==> 0 <= Chain(par, i)[m] < i
    decreases i
  {
    hide HangsOnSpine;
    if par[i] > 0 { ChainLength(par, par[i]); }
  }

  /** The chain of an ancestor comes first. */
  lemma {:induction false} ChainOfAncestor(par: Shape, a: int, i: int)
    requires Preorder(par) && 0 < a < i < |par| && Anc(par, a, i)
    ensures Chain(par, a) + [a] <= Chain(par, i)
    decreases i
  {
    hide HangsOnSpine;
    AncOfParent(par, a, i);
    if par[i] != a { ChainOfAncestor(par, a, par[i]); }
  }

  lemma NextChain(par: Shape, i: int)
    requires Preorder(par) && 0 < i < |par| - 1
    ensures Kids(par, i) != [] ==>
            par[i + 1] == i && Chain(par, i + 1) == Chain(par, i) + [i] &&
            Level(par, i + 1) == Level(par, i) + 1
    ensures Kids(par, i) == [] ==>
            Level(par, i + 1) <= Level(par, i) &&
            Chain(par, i + 1) == DropLast(Chain(par, i), Level(par, i) - Level(par, i + 1))
  {
    assert HangsOnSpine(par, i + 1);
    hide Kids;
    if Kids(par, i) != [] {
      FirstKid(par, i);
      assert Kids(par, i)[0] in Kids(par, i);
      assert par[i + 1] == i;
    } else {
      var p := par[i + 1];
      if p == i { KidsComplete(par, i, i + 1); }
      ChainLength(par, i);
      ChainLength(par, i + 1);
      if p > 0 {
        ChainOfAncestor(par, p, i);
        assert Chain(par, i + 1) <= Chain(par, i);
      }
    }
  }

  lemma LevelsAreTagLevels(d: Doc, i: int)
    requires AllClosed(d) && 0 < i < |d.par|
    ensures TagLevel(d, i) == Level(d.par, i)
  {
    hide Kids, HangsOnSpine;
  }

  /** One tag: it is pushed when it has children, and the tags that end behind it are popped. */
  lemma PrintTagOpen(f: Format, x: Info, level: int, next: int, st: PrintState)
    ensures PrintTag(f, x, level, next, st).open ==
            DropLast(if x.kind == StartTag then st.open + [(x.name, level)] else st.open, level - next)
  {
    hide CloseTags, TagText, Repeat;
    var spc := st.spc + Repeat(f.tab, level - 1);
    var open := if x.kind == StartTag then st.open + [(x.name, level)] else st.open;
    CloseTagsDrops(f, level - next, x.kind == Cdata, PrintState(st.out + TagText(x, spc), st.spc, open));
  }

  lemma OpenAreDropped(d: Doc, open: seq<(string, int)>, ks: seq<int>, n: int)
    requires OpenAre(d, open, ks)
    ensures OpenAre(d, DropLast(open, n), DropLast(ks, n))
  {
    hide Level;
  }

  /** At every step the open start tags are the ancestors of the next tag, with their levels; at
      the end none is left. */
  lemma {:induction false} OpenTagsAreTheAncestors(f: Format, d: Doc, i: int)
    requires AllClosed(d) && 0 < i < |d.par|
    ensures OpenAre(d, PrinterAt(f, d, i).open, Chain(d.par, i))
    ensures i == |d.par| - 1 ==> PrinterAt(f, d, i).open == []
    decreases i
  {
    hide *;
    if i == 1 {
      FirstChain(f, d);
    } else {
      OpenTagsAreTheAncestors(f, d, i - 1);
      NextOpen(f, d, i);
    }
    if i == |d.par| - 1 {
      LastHasNone(d, i);
    }
  }

  /** One tag further. */
  lemma NextOpen(f: Format, d: Doc, i: int)
    requires AllClosed(d) && 1 < i < |d.par|
    requires OpenAre(d, PrinterAt(f, d, i - 1).open, Chain(d.par, i - 1))
    ensures OpenAre(d, PrinterAt(f, d, i).open, Chain(d.par, i))
  {
    hide PrintTag, TagLevel, Kids, Level, Preorder, Chain;
    NextChain(d.par, i - 1);
    LevelsAreTagLevels(d, i - 1);
    LevelsAreTagLevels(d, i);
    var st, x := PrinterAt(f, d, i - 1), d.info[i - 1];
    PrintTagOpen(f, x, TagLevel(d, i - 1), TagLevel(d, i), st);
    if x.kind != StartTag {
      OpenAreDropped(d, st.open, Chain(d.par, i - 1), Level(d.par, i - 1) - Level(d.par, i));
    }
  }

  lemma LastHasNone(d: Doc, i: int)
    requires AllClosed(d) && i == |d.par| - 1
    ensures forall open :: OpenAre(d, open, Chain(d.par, i)) ==> open == []
  {
    hide Preorder, Kids, Level;
  }

  lemma FirstChain(f: Format, d: Doc)
    requires AllClosed(d)
    ensures |d.par| > 1 && PrinterAt(f, d, 1).open == [] && OpenAre(d, [], Chain(d.par, 1))
  {
    hide HangsOnSpine, Kids, Level;
  }

  // ----- documents whose tags are all closed

  ghost predicate HasKid(par: Shape, i: int) { exists k :: 0 <= k < |par| && par[k] == i }

  /** Tag i is an open start tag, or it is a start tag exactly when it has children. */
  ghost predicate KindOk(d: Doc, i: int)
    requires 0 <= i < |d.info|
  {
    if Anc(d.par, i, d.cur) then d.info[i].kind == StartTag
    else d.info[i].kind == StartTag <==> HasKid(d.par, i)
  }

  ghost predicate KindsOk(d: Doc) {
    Valid(d) && forall i :: 0 < i < |d.info| ==> KindOk(d, i)
  }

  lemma KidsHasKid(par: Shape, i: int)
    ensures Kids(par, i) != [] <==> HasKid(par, i)
  {
    if HasKid(par, i) {
      var k :| 0 <= k < |par| && par[k] == i;
      KidsComplete(par, i, k);
    }
    if Kids(par, i) != [] { assert Kids(par, i)[0] in Kids(par, i); }
  }

  lemma HasKidSnoc(par: Shape, q: int, i: int)
    ensures HasKid(par + [q], i) <==> HasKid(par, i) || q == i
  {
    if q == i { assert (par + [q])[|par|] == i; }
    if HasKid(par, i) {
      var k :| 0 <= k < |par| && par[k] == i;
      assert (par + [q])[k] == i;
    }
  }

  lemma AddKeepsKinds(d: Doc, x: Info)
    requires KindsOk(d)
    ensures x.kind != StartTag ==> KindsOk(AddLeaf(d, x))
    ensures x.kind == StartTag ==> KindsOk(AddOpen(d, x))
  {
    hide HasKid, Preorder, Anc;
    AddKeepsValid(d, x);
    var n := |d.par|;
    NoKid(d);
    AncOfNew(d);
    forall i | 0 < i < n
      ensures Anc(d.par + [d.cur], i, d.cur) <==> Anc(d.par, i, d.cur)
      ensures HasKid(d.par + [d.cur], i) <==> HasKid(d.par, i) || d.cur == i
      ensures KindOk(d, i)
    {
      AncPrefix(d.par, d.cur, i, d.cur);
      HasKidSnoc(d.par, d.cur, i);
    }
    HasKidSnoc(d.par, d.cur, n);
  }

  /** The ancestors of a new child of the current tag. */
  lemma AncOfNew(d: Doc)
    requires Valid(d)
    ensures forall i :: Anc(d.par + [d.cur], i, |d.par|) <==> i == |d.par| || (0 <= i && Anc(d.par, i, d.cur))
    ensures !Anc(d.par + [d.cur], |d.par|, d.cur)
    ensures Anc(d.par, d.cur, d.cur)
  {
    hide HangsOnSpine;
    forall i ensures Anc(d.par + [d.cur], i, |d.par|) <==> i == |d.par| || (0 <= i && Anc(d.par, i, d.cur)) {
      AncPrefix(d.par, d.cur, i, d.cur);
    }
  }

  lemma NoKid(d: Doc)
    requires Valid(d)
    ensures !HasKid(d.par, |d.par|)
  {
    hide HangsOnSpine, Anc;
  }

  lemma CloseKeepsKinds(d: Doc, pos: int, len: int)
    requires KindsOk(d) && d.cur > 0
    ensures KindsOk(CloseTop(d, pos, len))
  {
    hide HasKid, Preorder, Anc;
    ParentOfCur(d);
    KidsHasKid(d.par, d.cur);
    var r := CloseTop(d, pos, len);
    forall i | 0 < i < |d.info| ensures KindOk(r, i) {
      assert KindOk(d, i);
      AncUp(d, i);
    }
  }

  lemma ParentOfCur(d: Doc)
    requires Valid(d) && d.cur > 0
    ensures 0 <= d.par[d.cur] < d.cur && Anc(d.par, d.cur, d.cur) && Anc(d.par, d.par[d.cur], d.par[d.cur])
  {
    hide HangsOnSpine;
  }

  lemma AncUp(d: Doc, i: int)
    requires Valid(d) && d.cur > 0 && 0 < i < |d.par|
    ensures Anc(d.par, i, d.par[d.cur]) <==> Anc(d.par, i, d.cur) && i != d.cur
  {
    hide HangsOnSpine;
    if Anc(d.par, i, d.cur) && i != d.cur { AncOfParent(d.par, i, d.cur); }
  }

  lemma DemoteKeepsKinds(d: Doc)
    requires KindsOk(d) && d.cur > 0
    ensures KindsOk(Demote(d))
  {
    hide Preorder, HasKid, Anc, Lift;
    ParentOfCur(d);
    var r := Demote(d);
    forall i | 0 < i < |d.info| ensures KindOk(r, i) {
      assert KindOk(d, i);
      AncUp(d, i);
      if Anc(d.par, i, d.par[d.cur]) {
        AncLift(d.par, d.cur, i, d.par[d.cur]);
      } else {
        if Anc(r.par, i, d.par[d.cur]) { AncUnlift(d.par, d.cur, i, d.par[d.cur]); }
        LiftedHasKid(d.par, d.cur, i);
      }
    }
  }

  /** The children of the demoted tag hang on its parent; no other tag gains or loses any. */
  lemma LiftedHasKid(par: Shape, c: int, i: int)
    requires 0 < c < |par| && 0 <= par[c] < c && i != par[c]
    ensures HasKid(Lift(par, c), i) <==> i != c && HasKid(par, i)
  {
    var r := Lift(par, c);
    if i != c && HasKid(par, i) {
      var k :| 0 <= k < |par| && par[k] == i;
      assert r[k] == i;
    }
  }

  lemma {:induction false} DemoteToKeepsKinds(d: Doc, t: int)
    requires KindsOk(d) && 0 <= t && Anc(d.par, t, d.cur)
    ensures KindsOk(DemoteTo(d, t))
    decreases d.cur
  {
    hide Preorder, KindOk;
    if d.cur != t {
      DemoteKeepsKinds(d);
      AncLift(d.par, d.cur, t, d.par[d.cur]);
      DemoteToKeepsKinds(Demote(d), t);
    }
  }

  lemma KindsOkIsInductive()
    ensures Inductive((d: Doc) => KindsOk(d))
  {
    hide ReadEnd, Valid, KindsOk, AddLeaf, AddOpen;
    forall d: Doc, x: Info | KindsOk(d) && IsLeaf(x) ensures KindsOk(AddLeaf(d, x)) { AddKeepsKinds(d, x); }
    forall d: Doc, x: Info | KindsOk(d) && IsStart(x) ensures KindsOk(AddOpen(d, x)) { AddKeepsKinds(d, x); }
    forall d: Doc, name: string, pos: int, len: int | Valid(d) && KindsOk(d) && ReadEnd(d, name, pos, len).Ended?
      ensures KindsOk(ReadEnd(d, name, pos, len).doc)
    {
      ReadEndKeepsKinds(d, name, pos, len);
    }
  }

  lemma ReadEndKeepsKinds(d: Doc, name: string, pos: int, len: int)
    requires Valid(d) && KindsOk(d) && ReadEnd(d, name, pos, len).Ended?
    ensures KindsOk(ReadEnd(d, name, pos, len).doc)
  {
    hide KindsOk, Preorder, Anc;
    var t := MatchUp(d, name, d.cur);
    DemoteToKeepsKinds(d, t);
    CloseKeepsKinds(DemoteTo(d, t), pos, len);
  }

  /** With every tag closed the virtual end tag makes the document ready for the printer. */
  lemma FinishedIsClosed(d: Doc)
    requires KindsOk(d)
    ensures AllClosed(Finish(d)) <==> d.cur == 0
  {
    hide HasKid, Preorder, Anc;
    AddKeepsValid(d, END_INFO);
    if d.cur == 0 {
      forall i | 0 < i < |d.par| ensures d.info[i].kind == StartTag <==> Kids(d.par + [0], i) != [] {
        KidsHasKid(d.par + [0], i);
        HasKidSnoc(d.par, 0, i);
        AncOfRoot(d.par, i);
        assert KindOk(d, i);
      }
    }
  }

  lemma AncOfRoot(par: Shape, i: int)
    requires i > 0
    ensures !Anc(par, i, 0)
  {
  }

  /** In whatever document a run leaves, the printer's condition holds exactly when the last tag
      hangs on the document tag, that is when no start tag was left open. */
  lemma ParsedIsClosed(s: string, n: nat)
    ensures var r := Passes(s, EMPTY_DOC, 0, -1, n);
            r.Over? && r.result.Parsed? ==> (AllClosed(r.result.doc) <==> r.result.doc.cur == 0)
  {
    hide Passes, Inductive, AllClosed;
    KindsOkIsInductive();
    assert KindsOk(EMPTY_DOC);
    PassesKeep((d: Doc) => KindsOk(d), s, EMPTY_DOC, 0, -1, n);
    var r := Passes(s, EMPTY_DOC, 0, -1, n);
    if r.Over? && r.result.Parsed? {
      var e :| KindsOk(e) && Valid(e) && r.result.doc == Finish(e);
      FinishedIsClosed(e);
    }
  }

  /** Adding a forest keeps the kinds in order. */
  lemma {:induction false} GrowKeepsKinds(d: Doc, fs: seq<Node>)
    requires KindsOk(d)
    ensures KindsOk(Grow(d, fs))
    decreases fs
  {
    hide KindsOk, Grow, Valid;
    if fs == [] {
      GrowNothing(d);
    } else {
      var n := fs[0];
      GrowCons(d, fs);
      if n.Element? {
        var x := Plain(StartTag, n.name, n.attributes, "");
        AddKeepsKinds(d, x);
        GrowKeepsKinds(AddOpen(d, x), n.kids);
        KindsValid(d);
        KindsValid(Grow(AddOpen(d, x), n.kids));
        GrowCur(AddOpen(d, x), n.kids);
        GrowElement(d, n.name, n.attributes, n.kids);
        CloseKeepsKinds(Grow(AddOpen(d, x), n.kids), 0, 0);
      } else {
        GrowLeaf(d, n);
        AddKeepsKinds(d, NodeInfo(n));
      }
      GrowKeepsKinds(Grow(d, [n]), fs[1..]);
    }
  }

  lemma GrowCur(d: Doc, fs: seq<Node>)
    ensures Grow(d, fs).cur == d.cur
  {
  }

  lemma KindsValid(d: Doc)
    requires KindsOk(d)
    ensures Valid(d) && |d.par| > 0
  {
  }

  /** Every forest is laid out as a document that the printer's theorem covers. */
  lemma LayoutIsClosed(fs: seq<Node>)
    ensures AllClosed(Finish(Layout(fs)))
  {
    hide AllClosed, Grow, LayoutPar, LayoutInfo;
    assert KindsOk(EMPTY_DOC);
    GrowKeepsKinds(EMPTY_DOC, fs);
    LayoutGrows(fs);
    FinishedIsClosed(Layout(fs));
  }

  lemma LayoutGrows(fs: seq<Node>)
    ensures Layout(fs) == Grow(EMPTY_DOC, fs) && Layout(fs).cur == 0
  {
  }
}
