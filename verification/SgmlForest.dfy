/**
  The forests of nodes that printer and parser are compared on, and how a document grows by a
  forest below its current tag.
*/
module SgmlForest {
  import opened Sequences
  import opened QtText
  import opened TreeShape
  import opened SgmlModel
  import opened SgmlAttributes
  import opened SgmlScan
  import opened SgmlPrint
  import opened SgmlTagText
  import opened SgmlMarkup

  // ----- forests the printer can be given

  predicate IsException(name: string) {
    name == "script" || name == "style"
  }

  predicate OnlyText(fs: seq<Node>) {
    fs == [] || (|fs| == 1 && fs[0].TextNode?)
  }

  /** Texts are trimmed, not empty and without '<'; script and style hold a text at most. */
  predicate GoodNode(n: Node)
    decreases n, 1
  {
    match n
    case TextNode(v) => v != "" && Trimmed(v) && NoChar(v, '<')
    case CommentNode(v) => GoodComment(v)
    case DoctypeNode(v) => GoodDoctype(v)
    case SingleNode(name, attrs) => IsName(name) && GoodAttributes(attrs)
    case Element(name, attrs, kids) =>
      IsName(name) && GoodAttributes(attrs) && GoodForest(kids) && (IsException(name) ==> OnlyText(kids))
  }

  /** All nodes are good, and no two texts stand next to each other. */
  predicate GoodForest(fs: seq<Node>)
    decreases fs, 0
  {
    fs == [] ||
    (GoodNode(fs[0]) && GoodForest(fs[1..]) && (fs[0].TextNode? && |fs| > 1 ==> !fs[1].TextNode?))
  }

  predicate WhiteFormat(f: Format) { AllSpace(f.wrap) && AllSpace(f.tab) }

  // ----- documents without positions

  function Bare(x: Info): Info { x.(startPos := 0, startLen := 0, endPos := 0, endLen := 0) }

  function BareDoc(d: Doc): Doc {
    Doc(d.par, seq(|d.info|, i requires 0 <= i < |d.info| => Bare(d.info[i])), d.cur)
  }

  function WithText(d: Doc, v: string): Doc {
    if v == "" then d else AddLeaf(d, Plain(Cdata, "", [], v))
  }

  /** The document d with the forest fs added below its current tag. */
  function Grow(d: Doc, fs: seq<Node>): Doc {
    Doc(d.par + LayoutPar(fs, d.cur, |d.par|), d.info + LayoutInfo(fs), d.cur)
  }

  lemma BareAddLeaf(d: Doc, x: Info)
    ensures BareDoc(AddLeaf(d, x)) == AddLeaf(BareDoc(d), Bare(x))
    ensures BareDoc(AddOpen(d, x)) == AddOpen(BareDoc(d), Bare(x))
  {
  }

  lemma BareClose(d: Doc, pos: int, len: int)
    requires Valid(d) && d.cur > 0
    ensures Valid(BareDoc(d)) && BareDoc(CloseTop(d, pos, len)) == CloseTop(BareDoc(d), 0, 0)
  {
  }

  lemma GrowLeaf(d: Doc, n: Node)
    requires NodeKids(n) == []
    ensures Grow(d, [n]) == AddLeaf(d, NodeInfo(n))
  {
    assert [n][1..] == [];
    assert LayoutPar([n], d.cur, |d.par|) == [d.cur];
    assert LayoutInfo([n]) == [NodeInfo(n)];
  }

  lemma GrowNothing(d: Doc)
    ensures Grow(d, []) == d
  {
  }

  lemma LayoutOne(n: Node, p: int, i: int)
    ensures LayoutPar([n], p, i) == [p] + KidPar(n, i) && LayoutInfo([n]) == NodeInfos(n)
    ensures |[p] + KidPar(n, i)| == |NodeInfos(n)| == 1 + Size(NodeKids(n))
  {
    assert [n][1..] == [];
    LayoutCons([n], p, i, 0);
  }

  lemma GrowCons(d: Doc, fs: seq<Node>)
    requires fs != []
    ensures Grow(Grow(d, [fs[0]]), fs[1..]) == Grow(d, fs)
  {
    hide LayoutPar, LayoutInfo, KidPar, NodeInfos, Size, NodeInfo, NodeKids;
    var n, rest := fs[0], fs[1..];
    var a := [d.cur] + KidPar(n, |d.par|);
    var b, c := LayoutPar(rest, d.cur, |d.par| + |a|), LayoutInfo(rest);
    LayoutOne(n, d.cur, |d.par|);
    assert Grow(d, [n]) == Doc(d.par + a, d.info + NodeInfos(n), d.cur);
    LayoutCons(fs, d.cur, |d.par|, 0);
    assert Grow(d, fs) == Doc(d.par + (a + b), d.info + (NodeInfos(n) + c), d.cur);
    Assoc(d.par, a, b);
    Assoc(d.info, NodeInfos(n), c);
  }

  /** What opening a tag and adding its forest gives. */
  lemma ElementParts(d: Doc, x: Info, kids: seq<Node>)
    requires |d.par| == |d.info|
    ensures var g := Grow(AddOpen(d, x), kids);
            && g.par == d.par + ([d.cur] + LayoutPar(kids, |d.par|, |d.par| + 1))
            && g.info == d.info + ([x] + LayoutInfo(kids))
            && g.cur == |d.par| && g.par[|d.par|] == d.cur && g.info[|d.par|] == x
  {
    hide LayoutPar, LayoutInfo;
    Assoc(d.par, [d.cur], LayoutPar(kids, |d.par|, |d.par| + 1));
    Assoc(d.info, [x], LayoutInfo(kids));
  }

  lemma ElementKids(d: Doc, x: Info, kids: seq<Node>)
    requires Valid(d)
    ensures var g := Grow(AddOpen(d, x), kids); Kids(g.par, |d.par|) == [] <==> kids == []
  {
    var n := |d.par|;
    var g := Grow(AddOpen(d, x), kids);
    ElementParts(d, x, kids);
    if kids == [] {
      assert forall k :: 0 <= k < |g.par| ==> g.par[k] != n;
      KidsNone(g.par, n);
    } else {
      assert g.par[n + 1] == LayoutPar(kids, n, n + 1)[0] == n;
      KidsComplete(g.par, n, n + 1);
    }
  }

  /** Opening a tag, adding its forest and closing it adds the element. */
  lemma GrowElement(d: Doc, name: string, attrs: Attributes, kids: seq<Node>)
    requires Valid(d)
    requires var g := Grow(AddOpen(d, Plain(StartTag, name, attrs, "")), kids); Valid(g)
    ensures var g := Grow(AddOpen(d, Plain(StartTag, name, attrs, "")), kids);
            CloseTop(g, 0, 0) == Grow(d, [Element(name, attrs, kids)])
  {
    var n := |d.par|;
    var e, x := Element(name, attrs, kids), Plain(StartTag, name, attrs, "");
    var g := Grow(AddOpen(d, x), kids);
    ElementParts(d, x, kids);
    ElementKids(d, x, kids);
    LayoutOne(e, d.cur, n);
    hide LayoutPar, LayoutInfo, Size, Kids, Valid;
    assert ClosedInfo(x, kids == [], 0, 0) == NodeInfo(e);
    assert (d.info + ([x] + LayoutInfo(kids)))[n := NodeInfo(e)] == d.info + ([NodeInfo(e)] + LayoutInfo(kids));
  }
}
