/**
  The round trip: what the printer writes for a forest, the parser reads back as that forest.
*/
module SgmlRoundTrip {
  import opened QtText
  import opened TreeShape
  import opened SgmlModel
  import opened SgmlScan
  import opened SgmlPrint
  import opened SgmlTagText
  import opened SgmlMarkup
  import opened SgmlForest
  import opened SgmlReparse

  // ----- printed text in the form in which it is read

  lemma LeafText(n: Node, white: string)
    requires !n.TextNode? && !n.Element?
    ensures TagText(NodeInfo(n), white) == white + LeafMarkup(n)
  {
    hide AttrText;
    match n
    case CommentNode(v) => assert white + "<!--" + v + "-->" == white + CommentText(v);
    case DoctypeNode(v) => assert white + "<!" + v + ">" == white + DoctypeText(v);
    case SingleNode(name, attrs) => assert white + "<" + name + AttrText(attrs) + "/>" ==
        white + SingleText(name, attrs);
  }

  function Inner(f: Format, n: Node, level: int): string
    requires n.Element?
  {
    RenderForest(f, n.kids, level + 1, f.wrap)
  }

  /** White space before the end tag. */
  function Gap(f: Format, n: Node, level: int): string
    requires n.Element?
  {
    if n.kids == [] || EndsWithText(n.kids) then "" else f.wrap + Repeat(f.tab, level - 1)
  }

  lemma ElementText(f: Format, n: Node, level: int, spc: string)
    requires n.Element?
    ensures RenderNode(f, n, level, spc) ==
            (spc + Repeat(f.tab, level - 1)) +
            (StartText(n.name, n.attributes) + (Inner(f, n, level) + (Gap(f, n, level) + EndText(n.name))))
  {
    hide AttrText, Repeat, Inner;
    var white := spc + Repeat(f.tab, level - 1);
    var start, a := StartText(n.name, n.attributes), AttrText(n.attributes);
    if n.kids == [] {
      NoInner(f, n, level);
      assert white + "<" + n.name + a + "></" + n.name + ">" == white + (start + ("" + ("" + EndText(n.name))));
    } else {
      InnerIs(f, n, level);
      var inner, gap := Inner(f, n, level), Gap(f, n, level);
      assert white + "<" + n.name + a + ">" == white + start;
      assert CloseText(f, n.name, level, EndsWithText(n.kids)) == gap + EndText(n.name);
      assert (white + start) + inner + (gap + EndText(n.name)) == white + (start + (inner + (gap + EndText(n.name))));
    }
  }

  lemma NoInner(f: Format, n: Node, level: int)
    requires n.Element? && n.kids == []
    ensures Inner(f, n, level) == "" && Gap(f, n, level) == ""
  {
  }

  lemma InnerIs(f: Format, n: Node, level: int)
    requires n.Element?
    ensures Inner(f, n, level) == RenderForest(f, n.kids, level + 1, f.wrap)
  {
  }

  lemma {:induction false} RepeatSpace(s: string, n: int)
    requires AllSpace(s)
    ensures AllSpace(Repeat(s, n))
    decreases n
  {
    if n > 0 { RepeatSpace(s, n - 1); }
  }

  lemma WhiteIsSpace(f: Format, spc: string, level: int)
    requires WhiteFormat(f) && AllSpace(spc)
    ensures AllSpace(spc + Repeat(f.tab, level - 1)) && AllSpace(f.wrap)
  {
    RepeatSpace(f.tab, level - 1);
  }

  lemma GapIsSpace(f: Format, n: Node, level: int)
    requires WhiteFormat(f) && n.Element?
    ensures AllSpace(Gap(f, n, level))
  {
    WhiteIsSpace(f, f.wrap, level);
  }

  // ----- documents

  lemma BareIsValid(d: Doc, pending: string)
    requires Valid(d)
    ensures Valid(WithText(BareDoc(d), pending)) && WithText(BareDoc(d), pending).cur == d.cur
  {
    AddKeepsValid(BareDoc(d), Plain(Cdata, "", [], pending));
  }

  /** Growing a document leaves its current tag in place. */
  lemma NameKept(d: Doc, e: Doc, p: string, p1: string, fs: seq<Node>)
    requires Valid(d) && Valid(e)
    requires WithText(BareDoc(e), p1) == Grow(WithText(BareDoc(d), p), fs)
    ensures e.cur == d.cur && CurTag(e).name == CurTag(d).name
  {
    hide Preorder, Anc, LayoutPar, LayoutInfo;
    var g, b := WithText(BareDoc(e), p1), WithText(BareDoc(d), p);
    assert g.cur == e.cur && b.cur == d.cur;
    assert g.info[e.cur] == Bare(e.info[e.cur]);
    assert b.info[d.cur] == Bare(d.info[d.cur]);
    assert Grow(b, fs).info[d.cur] == b.info[d.cur];
  }

  lemma ClosesElement(d: Doc, g: Doc, n: Node)
    requires n.Element? && Valid(d) && Valid(g)
    requires g == Grow(AddOpen(d, Plain(StartTag, n.name, n.attributes, "")), n.kids)
    ensures CloseBare(g) == Grow(d, [n])
  {
    hide Preorder, Anc, LayoutPar, LayoutInfo, Kids;
    GrowElement(d, n.name, n.attributes, n.kids);
    assert g.cur == |d.par| > 0;
    assert CloseBare(g) == CloseTop(g, 0, 0);
  }

  // ----- following the forest

  predicate StartsWithText(fs: seq<Node>) { fs != [] && fs[0].TextNode? }

  /** The text that is pending behind the forest. */
  function PendingAfter(fs: seq<Node>, pending: string): string {
    if fs == [] then pending
    else if fs[|fs| - 1].TextNode? then fs[|fs| - 1].value
    else ""
  }

  /** What holds after a part of the printed text has been read: from c to c1, from q to q1. */
  ghost predicate Moved(s: string, c: Cursor, c1: Cursor, q1: int, pending: string, pending1: string, fs: seq<Node>) {
    && Valid(c1.doc) && Valid(c.doc)
    && ResultAt(s, c1) == ResultAt(s, c)
    && Waiting(s, c1, q1, pending1)
    && WithText(BareDoc(c1.doc), pending1) == Grow(WithText(BareDoc(c.doc), pending), fs)
    && c1.doc.cur == c.doc.cur && CurTag(c1.doc).name == CurTag(c.doc).name
    && (c.end >= 0 ==> c1.end >= 0)
  }

  /** The situation before a forest is read. */
  ghost predicate Before(s: string, c: Cursor, q: int, pending: string, fs: seq<Node>) {
    && Waiting(s, c, q, pending) && Valid(c.doc)
    && GoodForest(fs) && (pending == "" || !StartsWithText(fs))
    && (OutsideException(c.doc) || OnlyText(fs))
  }

  lemma ReadsText(s: string, c: Cursor, q: nat, v: string)
    requires Waiting(s, c, q, "") && Valid(c.doc) && At(s, v, q) && GoodNode(TextNode(v))
    ensures Moved(s, c, c, q + |v|, "", v, [TextNode(v)])
  {
    hide Waiting, At, Trim, BareDoc, Grow, Preorder, Anc;
    WaitText(s, c, q, v);
    GrowLeaf(BareDoc(c.doc), TextNode(v));
  }

  lemma ReadsLeafNode(f: Format, s: string, c: Cursor, q: nat, pending: string, n: Node, level: int, spc: string)
    returns (c1: Cursor)
    requires WhiteFormat(f) && AllSpace(spc) && !n.TextNode? && !n.Element?
    requires Waiting(s, c, q, pending) && Valid(c.doc) && OutsideException(c.doc) && GoodNode(n)
    requires At(s, TagText(NodeInfo(n), spc + Repeat(f.tab, level - 1)), q)
    ensures Moved(s, c, c1, q + |TagText(NodeInfo(n), spc + Repeat(f.tab, level - 1))|, pending, "", [n])
  {
    hide *;
    var white := spc + Repeat(f.tab, level - 1);
    LeafText(n, white);
    AtSplit(s, white, LeafMarkup(n), q);
    WhiteIsSpace(f, spc, level);
    WaitSpace(s, c, q, white, pending);
    c1 := ReadsLeaf(s, c, q + |white|, pending, n);
    MovedIs(s, c, c1, q + |white| + |LeafMarkup(n)|, pending, "", [n]);
  }

  lemma MovedIs(s: string, c: Cursor, c1: Cursor, q1: int, pending: string, pending1: string, fs: seq<Node>)
    requires Valid(c1.doc) && Valid(c.doc) && ResultAt(s, c1) == ResultAt(s, c) && Waiting(s, c1, q1, pending1)
    requires (if pending1 == "" then BareDoc(c1.doc) else WithText(BareDoc(c1.doc), pending1)) ==
             Grow(WithText(BareDoc(c.doc), pending), fs)
    requires c.end >= 0 ==> c1.end >= 0
    ensures Moved(s, c, c1, q1, pending, pending1, fs)
  {
    hide Waiting, BareDoc, Grow, Preorder, Anc, ResultAt, CurTag;
    NameKept(c.doc, c1.doc, pending, pending1, fs);
  }

  lemma {:induction false} ReadsNode(f: Format, s: string, c: Cursor, q: nat, pending: string, n: Node, level: int,
                                     spc: string)
    returns (c1: Cursor, pending1: string)
    requires WhiteFormat(f) && AllSpace(spc) && Before(s, c, q, pending, [n])
    requires At(s, RenderNode(f, n, level, spc), q)
    ensures Moved(s, c, c1, q + |RenderNode(f, n, level, spc)|, pending, pending1, [n])
    ensures pending1 == PendingAfter([n], pending)
    decreases n, 1
  {
    hide *;
    NodeFacts(f, s, c, q, pending, n, level, spc);
    if n.TextNode? {
      ReadsText(s, c, q, n.value);
      c1, pending1 := c, n.value;
    } else if !n.Element? {
      c1 := ReadsLeafNode(f, s, c, q, pending, n, level, spc);
      pending1 := "";
    } else {
      c1 := ReadsElement(f, s, c, q, pending, n, level, spc);
      pending1 := "";
    }
  }

  /** White space, start tag, children, and what follows them. */
  lemma {:induction false} ReadsElement(f: Format, s: string, c: Cursor, q: nat, pending: string, n: Node, level: int,
                                        spc: string)
    returns (c1: Cursor)
    requires WhiteFormat(f) && AllSpace(spc) && n.Element? && GoodNode(n)
    requires Waiting(s, c, q, pending) && Valid(c.doc) && OutsideException(c.doc)
    requires At(s, RenderNode(f, n, level, spc), q)
    ensures Moved(s, c, c1, q + |RenderNode(f, n, level, spc)|, pending, "", [n])
    decreases n, 0
  {
    hide *;
    ElementIsGood(n);
    var white := spc + Repeat(f.tab, level - 1);
    var start, inner, rest := StartText(n.name, n.attributes), Inner(f, n, level), Gap(f, n, level) + EndText(n.name);
    ElementText(f, n, level, spc);
    AtSplit(s, white, start + (inner + rest), q);
    WhiteIsSpace(f, spc, level);
    WaitSpace(s, c, q, white, pending);
    var q0 := q + |white|;
    AtSplit(s, start, inner + rest, q0);
    var c2 := ReadsOpen(s, c, q0, pending, n.name, n.attributes);
    var q2 := q0 + |start|;
    AtSplit(s, inner, rest, q2);
    BeforeKids(s, c2, q2, n);
    InnerIs(f, n, level);
    var c3, pending3 := ReadsForest(f, s, c2, q2, "", n.kids, level + 1, f.wrap);
    c1 := ReadsRest(f, s, c, c2, c3, q2 + |inner|, pending, pending3, n, level);
  }

  lemma ElementIsGood(n: Node)
    requires n.Element? && GoodNode(n)
    ensures IsName(n.name) && GoodAttributes(n.attributes) && GoodForest(n.kids)
  {
    hide IsName, GoodAttributes, GoodForest;
  }

  lemma NodeFacts(f: Format, s: string, c: Cursor, q: nat, pending: string, n: Node, level: int, spc: string)
    requires Before(s, c, q, pending, [n])
    ensures Waiting(s, c, q, pending) && Valid(c.doc) && GoodNode(n)
    ensures n.TextNode? ==> pending == "" && RenderNode(f, n, level, spc) == n.value
    ensures !n.TextNode? ==> OutsideException(c.doc)
    ensures !n.TextNode? && !n.Element? ==>
      RenderNode(f, n, level, spc) == TagText(NodeInfo(n), spc + Repeat(f.tab, level - 1))
    ensures n.Element? ==> IsName(n.name) && GoodAttributes(n.attributes) && GoodForest(n.kids)
    ensures PendingAfter([n], pending) == if n.TextNode? then n.value else ""
  {
    hide Waiting, Valid, OutsideException, IsName, GoodAttributes, Repeat, AttrText, GoodComment, GoodDoctype;
  }

  lemma BeforeKids(s: string, c: Cursor, q: int, n: Node)
    requires n.Element? && GoodNode(n) && Waiting(s, c, q, "") && Valid(c.doc) && CurTag(c.doc).name == n.name
    ensures Before(s, c, q, "", n.kids)
  {
    hide Waiting, Valid, CurTag, IsName, GoodAttributes, ToLower;
    LowerName(n.name);
  }

  /** White space and the end tag behind the children of an element. */
  lemma ReadsRest(f: Format, s: string, c: Cursor, c2: Cursor, c3: Cursor, q3: nat, pending: string, pending3: string,
                  n: Node, level: int)
    returns (c1: Cursor)
    requires WhiteFormat(f) && n.Element? && IsName(n.name) && Valid(c.doc) && c2.end >= 0
    requires Moved(s, c2, c3, q3, "", pending3, n.kids) && ResultAt(s, c2) == ResultAt(s, c)
    requires BareDoc(c2.doc) == AddOpen(WithText(BareDoc(c.doc), pending), Plain(StartTag, n.name, n.attributes, ""))
    requires 0 < c2.doc.cur && CurTag(c2.doc).name == n.name
    requires At(s, Gap(f, n, level) + EndText(n.name), q3)
    ensures Moved(s, c, c1, q3 + |Gap(f, n, level)| + |EndText(n.name)|, pending, "", [n])
  {
    hide *;
    MovedFacts(s, c2, c3, q3, "", pending3, n.kids);
    var gap := Gap(f, n, level);
    AtSplit(s, gap, EndText(n.name), q3);
    GapIsSpace(f, n, level);
    WaitSpace(s, c3, q3, gap, pending3);
    c1 := ReadsClose(s, c3, q3 + |gap|, pending3, n.name);
    BareIsValid(c.doc, pending);
    BareIsValid(c3.doc, pending3);
    NoText(BareDoc(c2.doc));
    ClosesElement(WithText(BareDoc(c.doc), pending), WithText(BareDoc(c3.doc), pending3), n);
    MovedIs(s, c, c1, q3 + |gap| + |EndText(n.name)|, pending, "", [n]);
  }

  lemma NoText(d: Doc)
    ensures WithText(d, "") == d
  {
  }

  lemma MovedFacts(s: string, c: Cursor, c1: Cursor, q1: int, pending: string, pending1: string, fs: seq<Node>)
    requires Moved(s, c, c1, q1, pending, pending1, fs)
    ensures Valid(c1.doc) && Valid(c.doc) && ResultAt(s, c1) == ResultAt(s, c) && Waiting(s, c1, q1, pending1)
    ensures WithText(BareDoc(c1.doc), pending1) == Grow(WithText(BareDoc(c.doc), pending), fs)
    ensures c1.doc.cur == c.doc.cur && CurTag(c1.doc).name == CurTag(c.doc).name
    ensures c.end >= 0 ==> c1.end >= 0
  {
  }

  /** Reading the printed forest adds the forest. */
  lemma {:induction false} ReadsForest(f: Format, s: string, c: Cursor, q: nat, pending: string, fs: seq<Node>,
                                       level: int, spc: string)
    returns (c1: Cursor, pending1: string)
    requires WhiteFormat(f) && AllSpace(spc) && Before(s, c, q, pending, fs)
    requires At(s, RenderForest(f, fs, level, spc), q)
    ensures Moved(s, c, c1, q + |RenderForest(f, fs, level, spc)|, pending, pending1, fs)
    ensures pending1 == PendingAfter(fs, pending)
    decreases fs, 0
  {
    hide *;
    if fs == [] {
      ReadsNothing(f, s, c, q, pending, fs, level, spc);
      c1, pending1 := c, pending;
    } else {
      ForestFacts(f, s, c, q, pending, fs, level, spc);
      var text := RenderNode(f, fs[0], level, spc);
      AtSplit(s, text, RenderForest(f, fs[1..], level, f.wrap), q);
      var c2, pending2 := ReadsNode(f, s, c, q, pending, fs[0], level, spc);
      BeforeRest(s, c, c2, q + |text|, pending, pending2, fs);
      WhiteIsSpace(f, spc, level);
      c1, pending1 := ReadsForest(f, s, c2, q + |text|, pending2, fs[1..], level, f.wrap);
      MovedBoth(s, c, c2, c1, q + |text|, q + |text| + |RenderForest(f, fs[1..], level, f.wrap)|, pending, pending2,
          pending1, fs);
      PendingCons(fs, pending);
    }
  }

  lemma ReadsNothing(f: Format, s: string, c: Cursor, q: nat, pending: string, fs: seq<Node>, level: int, spc: string)
    requires fs == [] && Before(s, c, q, pending, fs)
    ensures Moved(s, c, c, q + |RenderForest(f, fs, level, spc)|, pending, pending, fs)
    ensures pending == PendingAfter(fs, pending)
  {
    hide Waiting, Valid;
    GrowNothing(WithText(BareDoc(c.doc), pending));
  }

  lemma ForestFacts(f: Format, s: string, c: Cursor, q: nat, pending: string, fs: seq<Node>, level: int, spc: string)
    requires fs != [] && Before(s, c, q, pending, fs)
    ensures Before(s, c, q, pending, [fs[0]])
    ensures GoodForest(fs) && (OutsideException(c.doc) || OnlyText(fs))
    ensures RenderForest(f, fs, level, spc) == RenderNode(f, fs[0], level, spc) +
            RenderForest(f, fs[1..], level, f.wrap)
  {
    hide Waiting, Valid, OutsideException, RenderNode;
    GoodOne(fs[0]);
  }

  lemma GoodOne(n: Node)
    ensures GoodNode(n) ==> GoodForest([n])
  {
    assert [n][1..] == [];
  }

  lemma BeforeRest(s: string, c: Cursor, c2: Cursor, q2: int, pending: string, pending2: string, fs: seq<Node>)
    requires fs != [] && GoodForest(fs) && Moved(s, c, c2, q2, pending, pending2, [fs[0]])
    requires pending2 == PendingAfter([fs[0]], pending)
    requires OutsideException(c.doc) || OnlyText(fs)
    ensures Before(s, c2, q2, pending2, fs[1..])
  {
    hide Waiting, Valid, Grow, WithText, BareDoc, CurTag, GoodNode;
  }

  lemma MovedBoth(s: string, c: Cursor, c2: Cursor, c1: Cursor, q2: int, q1: int, pending: string, pending2: string,
                  pending1: string, fs: seq<Node>)
    requires fs != [] && Moved(s, c, c2, q2, pending, pending2, [fs[0]]) &&
             Moved(s, c2, c1, q1, pending2, pending1, fs[1..])
    ensures Moved(s, c, c1, q1, pending, pending1, fs)
  {
    hide Waiting, Valid, Grow, WithText, BareDoc, ResultAt, CurTag;
    GrowCons(WithText(BareDoc(c.doc), pending), fs);
  }

  lemma PendingCons(fs: seq<Node>, pending: string)
    requires fs != []
    ensures PendingAfter(fs[1..], PendingAfter([fs[0]], pending)) == PendingAfter(fs, pending)
  {
  }

  // ----- the whole text

  const START := Cursor(EMPTY_DOC, 0, -1)

  lemma StartIs(s: string, fs: seq<Node>)
    requires GoodForest(fs)
    ensures Before(s, START, 0, "", fs) && ResultAt(s, START) == ParseText(s)
    ensures Grow(WithText(BareDoc(START.doc), ""), fs) == Layout(fs)
  {
    hide GoodForest, LayoutPar, LayoutInfo;
    var name := CurTag(EMPTY_DOC).name;
    assert name == "doctag";
    LowerNothing(name);
    assert s[0..0] == [];
    TrimEmpty();
    assert BareDoc(EMPTY_DOC) == EMPTY_DOC;
  }

  lemma NoMoreMarkup(s: string, c: Cursor, pending: string, name: string)
    requires Waiting(s, c, |s|, pending) && !IsException(ToLower(name))
    ensures FindStart(s, SkipException(s, name, c.pos)) == -1
  {
    hide Waiting, FindStart, SkipException, ToLower;
    GapHasNoStart(s, c, |s|, pending);
    NoStart(s, c.pos, name);
  }

  /** Behind the last markup, outside every tag, the loop is left. */
  lemma ReadsEnd(s: string, c: Cursor, pending: string)
    requires Waiting(s, c, |s|, pending) && Valid(c.doc) && OutsideException(c.doc)
    ensures ResultAt(s, c) == Parsed(Finish(c.doc))
  {
    hide *;
    OutsideIs(c.doc);
    CurTagIs(c.doc);
    NoMoreMarkup(s, c, pending, CurTag(c.doc).name);
    EndStep(s, c);
  }

  lemma EndStep(s: string, c: Cursor)
    requires Valid(c.doc) && 0 <= c.doc.cur < |c.doc.info|
    requires FindStart(s, SkipException(s, c.doc.info[c.doc.cur].name, c.pos)) == -1
    ensures ResultAt(s, c) == Parsed(Finish(c.doc))
  {
    hide Preorder, Anc, HandleMarkup, HandleCdata, SkipException, FindStart;
  }

  lemma NoStart(s: string, i: nat, name: string)
    requires forall k :: i <= k < |s| ==> s[k] != '<'
    requires !IsException(ToLower(name))
    ensures FindStart(s, SkipException(s, name, i)) == -1
  {
  }

  /** The forest the parser keeps: it drops a text behind the last tag. */
  function Kept(fs: seq<Node>): seq<Node> {
    if EndsWithText(fs) then fs[..|fs| - 1] else fs
  }

  lemma {:induction false} GrowSnoc(d: Doc, fs: seq<Node>, n: Node)
    ensures Grow(d, fs + [n]) == Grow(Grow(d, fs), [n])
    decreases |fs|
  {
    hide Grow;
    if fs == [] {
      GrowNothing(d);
      assert fs + [n] == [n];
    } else {
      assert (fs + [n])[0] == fs[0] && (fs + [n])[1..] == fs[1..] + [n];
      GrowCons(d, fs + [n]);
      GrowSnoc(Grow(d, [fs[0]]), fs[1..], n);
      GrowCons(d, fs);
    }
  }

  lemma BareFinish(d: Doc)
    ensures BareDoc(Finish(d)) == Finish(BareDoc(d))
  {
    BareAddLeaf(d, END_INFO);
  }

  /** A document with its last text taken off is the layout of the rest of the forest. */
  lemma LastTextOff(b: Doc, fs: seq<Node>)
    requires EndsWithText(fs) && fs[|fs| - 1].value != ""
    requires WithText(b, fs[|fs| - 1].value) == Layout(fs)
    ensures b == Layout(Kept(fs)) && Finish(b) != Finish(Layout(fs))
  {
    var n, front := fs[|fs| - 1], fs[..|fs| - 1];
    assert fs == front + [n];
    hide LayoutPar, LayoutInfo;
    var e := Doc([-1], [DOC_INFO], 0);
    GrowSnoc(e, front, n);
    GrowLeaf(Grow(e, front), n);
    var g := Layout(front);
    assert g == Grow(e, front) && Layout(fs) == Grow(e, fs);
    assert AddLeaf(b, NodeInfo(n)) == AddLeaf(g, NodeInfo(n));
    assert b.par == (b.par + [b.cur])[..|b.par|] && g.par == (g.par + [g.cur])[..|g.par|];
    assert b.info == (b.info + [NodeInfo(n)])[..|b.info|] && g.info == (g.info + [NodeInfo(n)])[..|g.info|];
    assert |Finish(b).par| < |Finish(Layout(fs)).par|;
  }

  lemma {:induction false} LastIsGood(fs: seq<Node>)
    requires fs != [] && GoodForest(fs)
    ensures GoodNode(fs[|fs| - 1])
    decreases |fs|
  {
    hide GoodNode;
    if |fs| > 1 { LastIsGood(fs[1..]); }
  }

  lemma PendingIsLast(fs: seq<Node>)
    requires GoodForest(fs)
    ensures if EndsWithText(fs) then PendingAfter(fs, "") == fs[|fs| - 1].value != "" else PendingAfter(fs, "") == ""
  {
    if fs != [] { LastIsGood(fs); }
  }

  /** The whole printed text: the forest has been read, and a last text may be pending. */
  lemma ReadsWhole(f: Format, fs: seq<Node>, s: string) returns (c: Cursor, pending: string)
    requires WhiteFormat(f) && GoodForest(fs) && s == RenderForest(f, fs, 1, "")
    ensures Waiting(s, c, |s|, pending) && Valid(c.doc) && OutsideException(c.doc)
    ensures ResultAt(s, c) == ParseText(s) && pending == PendingAfter(fs, "")
    ensures WithText(BareDoc(c.doc), pending) == Layout(fs)
  {
    hide *;
    StartIs(s, fs);
    AtWhole(s);
    c, pending := ReadsForest(f, s, START, 0, "", fs, 1, "") by { NothingIsSpace(); }
    MovedFacts(s, START, c, |s|, "", pending, fs);
    TopIsOutside(c.doc);
  }

  /** Reading what was printed gives the same tree: kinds, names, attribute lists, values,
      children and their order, with the virtual end tag as the last child of the document.  Only
      a text behind the last tag is lost, so the round trip holds exactly when there is none. */
  lemma ParseUndoesExport(f: Format, fs: seq<Node>)
    requires WhiteFormat(f) && GoodForest(fs)
    ensures var r := ParseText(Export(f, Finish(Layout(fs))));
            && r.Parsed?
            && BareDoc(r.doc) == Finish(Layout(Kept(fs)))
            && (BareDoc(r.doc) == Finish(Layout(fs)) <==> !EndsWithText(fs))
  {
    hide *;
    var s := RenderForest(f, fs, 1, "");
    ExportPrintsForest(f, fs);
    var c, pending := ReadsWhole(f, fs, s);
    ReadsEnd(s, c, pending);
    BareFinish(c.doc);
    PendingIsLast(fs);
    KeptIs(BareDoc(c.doc), pending, fs);
  }

  lemma AtWhole(s: string)
    ensures At(s, s, 0)
  {
  }

  lemma NothingIsSpace()
    ensures AllSpace("")
  {
  }

  lemma TopIsOutside(d: Doc)
    requires CurTag(d).name == CurTag(START.doc).name
    ensures OutsideException(d)
  {
    assert CurTag(d).name == "doctag";
    LowerNothing("doctag");
  }

  lemma KeptIs(b: Doc, pending: string, fs: seq<Node>)
    requires WithText(b, pending) == Layout(fs)
    requires if EndsWithText(fs) then pending == fs[|fs| - 1].value != "" else pending == ""
    ensures Finish(b) == Finish(Layout(Kept(fs)))
    ensures Finish(b) == Finish(Layout(fs)) <==> !EndsWithText(fs)
  {
    hide Layout, Finish;
    if EndsWithText(fs) { LastTextOff(b, fs); }
  }

  // ----- printing what was read

  lemma {:induction false} ExportFromBare(f: Format, d: Doc, i: int, st: PrintState)
    requires |d.info| == |d.par| && 0 <= i < |d.par|
    ensures ExportFrom(f, BareDoc(d), i, st) == ExportFrom(f, d, i, st)
    decreases |d.par| - i
  {
    hide PrintTag;
    if i < |d.par| - 1 {
      var st1 := PrintTag(f, d.info[i], TagLevel(d, i), TagLevel(d, i + 1), st);
      PrintsBare(f, d.info[i], TagLevel(d, i), TagLevel(d, i + 1), st);
      BareLevels(d, i);
      BareLevels(d, i + 1);
      ExportFromBare(f, d, i + 1, st1);
    }
  }

  lemma PrintsBare(f: Format, x: Info, level: int, next: int, st: PrintState)
    ensures PrintTag(f, Bare(x), level, next, st) == PrintTag(f, x, level, next, st)
  {
    hide CloseTags, Repeat, AttrText;
  }

  lemma BareLevels(d: Doc, i: int)
    requires |d.info| == |d.par| && 0 <= i < |d.par|
    ensures TagLevel(BareDoc(d), i) == TagLevel(d, i) && BareDoc(d).info[i] == Bare(d.info[i])
  {
    hide Level;
  }

  /** Printing in one format, reading and printing in another gives the text of the second
      format: nothing but white space between the tags depends on the format. */
  lemma Reformats(f: Format, g: Format, fs: seq<Node>)
    requires WhiteFormat(f) && GoodForest(fs) && !EndsWithText(fs)
    ensures var r := ParseText(Export(f, Finish(Layout(fs))));
            && r.Parsed? && |r.doc.info| == |r.doc.par| > 1
            && Export(g, r.doc) == Export(g, Finish(Layout(fs)))
  {
    ParseUndoesExport(f, fs);
    hide ParseText, Export, WhiteFormat, GoodForest, LayoutPar, LayoutInfo;
    var d := ParseText(Export(f, Finish(Layout(fs)))).doc;
    SameSize(d, fs);
    ExportBare(g, d);
  }

  lemma SameSize(d: Doc, fs: seq<Node>)
    requires BareDoc(d) == Finish(Layout(fs))
    ensures |d.info| == |d.par| > 1
  {
    assert |d.info| == |BareDoc(d).info| && d.par == BareDoc(d).par;
  }

  lemma ExportBare(f: Format, d: Doc)
    requires |d.info| == |d.par| > 1
    ensures Export(f, BareDoc(d)) == Export(f, d)
  {
    ExportFromBare(f, d, 1, PrintState("", "", []));
  }
}
