/**
  The printer (QSgml.cpp:65-211).  `Export` is its loop over the tags in document order, with the
  stack of open start tags; `RenderForest` is the text of a forest of nodes, defined by
  recursion on the nodes.  For a document laid out from a forest the two agree.
*/
module SgmlPrint {
  import opened Sequences
  import opened QtText
  import opened TreeShape
  import opened SgmlModel

  // ----- documents as forests

  datatype Node =
    | TextNode(value: string)
    | CommentNode(value: string)
    | DoctypeNode(value: string)
    | SingleNode(name: string, attributes: Attributes)
    | Element(name: string, attributes: Attributes, kids: seq<Node>)

  /** What a tag holds besides its positions. */
  function Plain(kind: TagType, name: string, attributes: Attributes, value: string): Info {
    Info(kind, name, attributes, value, 0, 0, 0, 0)
  }

  function NodeInfo(n: Node): Info {
    match n
    case TextNode(v) => Plain(Cdata, "", [], v)
    case CommentNode(v) => Plain(Comment, "", [], v)
    case DoctypeNode(v) => Plain(Doctype, "", [], v)
    case SingleNode(name, attrs) => Plain(Standalone, name, attrs, "")
    case Element(name, attrs, kids) => Plain(if kids == [] then StartEmpty else StartTag, name, attrs, "")
  }

  function NodeKids(n: Node): seq<Node> {
    if n.Element? then n.kids else []
  }

  function Size(fs: seq<Node>): (r: nat)
    ensures r >= |fs|
    decreases fs
  {
    if fs == [] then 0
    else 1 + (if fs[0].Element? then Size(fs[0].kids) else 0) + Size(fs[1..])
  }

  /** Parents of the tags of fs when fs is put below tag p, starting at index i. */
  function LayoutPar(fs: seq<Node>, p: int, i: int): (r: seq<int>)
    ensures |r| == Size(fs)
    decreases fs
  {
    if fs == [] then []
    else
      [p] + (if fs[0].Element? then LayoutPar(fs[0].kids, i, i + 1) else []) +
      LayoutPar(fs[1..], p, i + 1 + Size(NodeKids(fs[0])))
  }

  function LayoutInfo(fs: seq<Node>): (r: seq<Info>)
    ensures |r| == Size(fs)
    decreases fs
  {
    if fs == [] then []
    else
      [NodeInfo(fs[0])] + (if fs[0].Element? then LayoutInfo(fs[0].kids) else []) + LayoutInfo(fs[1..])
  }

  /** The document with the forest fs, before its virtual end tag. */
  function Layout(fs: seq<Node>): Doc {
    Doc([-1] + LayoutPar(fs, 0, 1), [DOC_INFO] + LayoutInfo(fs), 0)
  }

  // ----- the printer's loop

  function Repeat(s: string, n: int): string
    decreases n
  {
    if n <= 0 then "" else s + Repeat(s, n - 1)
  }

  function AttrText(a: Attributes): string {
    if a == [] then "" else " " + a[0].0 + "=\"" + a[0].1 + "\"" + AttrText(a[1..])
  }

  /** Text of a tag; `spc` is the white space in front of it. */
  function TagText(x: Info, spc: string): string {
    match x.kind
    case Cdata => x.value
    case Comment => spc + "<!--" + x.value + "-->"
    case Doctype => spc + "<!" + x.value + ">"
    case EndTag => spc + "</" + x.name + ">"
    case Standalone => spc + "<" + x.name + AttrText(x.attributes) + "/>"
    case StartTag => spc + "<" + x.name + AttrText(x.attributes) + ">"
    case StartEmpty => spc + "<" + x.name + AttrText(x.attributes) + "></" + x.name + ">"
    case VirtualBeginTag => ""
    case VirtualEndTag => ""
  }

  datatype Format = Format(wrap: string, tab: string)

  /** The printer between two tags: output, white space for the next tag, open start tags with
      their names and levels. */
  datatype PrintState = PrintState(out: string, spc: string, open: seq<(string, int)>)

  /** Close n open start tags; no white space in front of the first when a text came before. */
  function CloseTags(f: Format, n: int, afterText: bool, st: PrintState): PrintState
    decreases n
  {
    if n <= 0 || st.open == [] then st
    else
      var (name, level) := st.open[|st.open| - 1];
      CloseTags(f, n - 1, false,
        PrintState(st.out + CloseText(f, name, level, afterText), st.spc, st.open[..|st.open| - 1]))
  }

  function CloseText(f: Format, name: string, level: int, afterText: bool): string {
    (if afterText then "" else f.wrap + Repeat(f.tab, level - 1)) + "</" + name + ">"
  }

  /** Print one tag; `next` is the level of the tag behind it. */
  function PrintTag(f: Format, x: Info, level: int, next: int, st: PrintState): PrintState {
    var spc := st.spc + Repeat(f.tab, level - 1);
    var open := if x.kind == StartTag then st.open + [(x.name, level)] else st.open;
    CloseTags(f, level - next, x.kind == Cdata, PrintState(st.out + TagText(x, spc), st.spc, open)).(spc := f.wrap)
  }

  /** The level of a tag; the virtual end tag keeps level 1 wherever it hangs. */
  function TagLevel(d: Doc, i: int): int {
    if i == |d.par| - 1 then 1 else Level(d.par, i)
  }

  /** The loop from tag i to the virtual end tag at the end of d. */
  function ExportFrom(f: Format, d: Doc, i: int, st: PrintState): string
    requires |d.info| == |d.par| && 0 <= i < |d.par|
    decreases |d.par| - i
  {
    if i == |d.par| - 1 then st.out
    else ExportFrom(f, d, i + 1, PrintTag(f, d.info[i], TagLevel(d, i), TagLevel(d, i + 1), st))
  }

  function Export(f: Format, d: Doc): string
    requires |d.info| == |d.par| > 1
  {
    ExportFrom(f, d, 1, PrintState("", "", []))
  }

  // ----- the text of a forest

  function EndsWithText(fs: seq<Node>): bool {
    fs != [] && fs[|fs| - 1].TextNode?
  }

  function RenderNode(f: Format, n: Node, level: int, spc: string): string
    decreases n, 1
  {
    var head := TagText(NodeInfo(n), spc + Repeat(f.tab, level - 1));
    if n.Element? && n.kids != [] then
      head + RenderForest(f, n.kids, level + 1, f.wrap) + CloseText(f, n.name, level, EndsWithText(n.kids))
    else head
  }

  function RenderForest(f: Format, fs: seq<Node>, level: int, spc: string): string
    decreases fs, 0
  {
    if fs == [] then "" else RenderNode(f, fs[0], level, spc) + RenderForest(f, fs[1..], level, f.wrap)
  }

  // ----- the loop prints the forest

  /** The loop over the records xs of tags with the given levels, up to a tag of level `next`. */
  function PrintAll(f: Format, xs: seq<Info>, levels: seq<int>, next: int, st: PrintState): PrintState
    requires |xs| == |levels|
    decreases |xs|
  {
    if xs == [] then st
    else
      PrintAll(f, xs[1..], levels[1..], next,
        PrintTag(f, xs[0], levels[0], if |xs| == 1 then next else levels[1], st))
  }

  function LayoutLevels(fs: seq<Node>, level: int): (r: seq<int>)
    ensures |r| == Size(fs)
    ensures fs != [] ==> r[0] == level
    decreases fs
  {
    if fs == [] then []
    else
      [level] + (if fs[0].Element? then LayoutLevels(fs[0].kids, level + 1) else []) + LayoutLevels(fs[1..], level)
  }

  lemma {:induction false} PrintAllAppend(f: Format, xs: seq<Info>, ls: seq<int>, ys: seq<Info>, ms: seq<int>,
                                          next: int, st: PrintState)
    requires |xs| == |ls| && |ys| == |ms| && ys != []
    ensures PrintAll(f, xs + ys, ls + ms, next, st) == PrintAll(f, ys, ms, next, PrintAll(f, xs, ls, ms[0], st))
    decreases |xs|
  {
    if xs == [] {
      assert xs + ys == ys && ls + ms == ms;
    } else {
      assert (xs + ys)[1..] == xs[1..] + ys && (ls + ms)[1..] == ls[1..] + ms;
      PrintAllAppend(f, xs[1..], ls[1..], ys, ms, next,
        PrintTag(f, xs[0], ls[0], if |xs| == 1 then ms[0] else ls[1], st));
    }
  }

  /** After a forest the loop has added its text, and then closes tags down to level `next`. */
  lemma {:induction false} PrintsForest(f: Format, fs: seq<Node>, level: int, next: int, st: PrintState)
    requires fs != [] && next <= level
    ensures PrintAll(f, LayoutInfo(fs), LayoutLevels(fs, level), next, st) ==
            Closed(f, level - next, EndsWithText(fs), st.out + RenderForest(f, fs, level, st.spc), st.open)
    decreases fs, 0
  {
    hide CloseTags, RenderNode, TagText, NodeInfo;
    var n, rest := fs[0], fs[1..];
    var xs, ls := NodeInfos(n), NodeLevels(n, level);
    var text := RenderNode(f, n, level, st.spc);
    if rest == [] {
      assert LayoutInfo(fs) == xs && LayoutLevels(fs, level) == ls;
      PrintsNode(f, n, level, next, st);
      assert RenderForest(f, fs, level, st.spc) == text + "" == text;
    } else {
      PrintAllAppend(f, xs, ls, LayoutInfo(rest), LayoutLevels(rest, level), next, st);
      PrintsNode(f, n, level, level, st);
      ClosedNothing(f, n.TextNode?, st.out + text, st.open);
      var st1 := PrintState(st.out + text, f.wrap, st.open);
      PrintsForest(f, rest, level, next, st1);
      Assoc(st.out, text, RenderForest(f, rest, level, f.wrap));
      assert fs[|fs| - 1] == rest[|rest| - 1];
    }
  }

  /** The state after the text `out` has been printed and n open tags have been closed. */
  function Closed(f: Format, n: int, afterText: bool, out: string, open: seq<(string, int)>): PrintState {
    CloseTags(f, n, afterText, PrintState(out, f.wrap, open))
  }

  function NodeInfos(n: Node): seq<Info> {
    [NodeInfo(n)] + if n.Element? then LayoutInfo(n.kids) else []
  }

  function NodeLevels(n: Node, level: int): (r: seq<int>)
    ensures |r| == |NodeInfos(n)| && r[0] == level
  {
    [level] + if n.Element? then LayoutLevels(n.kids, level + 1) else []
  }

  lemma ClosedNothing(f: Format, afterText: bool, out: string, open: seq<(string, int)>)
    ensures Closed(f, 0, afterText, out, open) == PrintState(out, f.wrap, open)
  {
  }

  lemma PrintsLeaf(f: Format, x: Info, level: int, next: int, st: PrintState)
    requires x.kind != StartTag
    ensures PrintAll(f, [x], [level], next, st) ==
            Closed(f, level - next, x.kind == Cdata, st.out + TagText(x, st.spc + Repeat(f.tab, level - 1)), st.open)
  {
    hide TagText, Repeat;
    CloseTagsIgnoreSpc(f, level - next, x.kind == Cdata,
      PrintState(st.out + TagText(x, st.spc + Repeat(f.tab, level - 1)), st.spc, st.open), f.wrap);
  }

  lemma PrintsStart(f: Format, x: Info, level: int, st: PrintState)
    requires x.kind == StartTag
    ensures PrintAll(f, [x], [level], level + 1, st) ==
            PrintState(st.out + TagText(x, st.spc + Repeat(f.tab, level - 1)), f.wrap, st.open + [(x.name, level)])
  {
    hide TagText, Repeat;
    assert [x][1..] == [] && [level][1..] == [];
    assert PrintAll(f, [x], [level], level + 1, st) == PrintTag(f, x, level, level + 1, st);
  }

  lemma ClosesLast(f: Format, n: int, afterText: bool, out: string, open: seq<(string, int)>, name: string, level: int)
    requires n >= 0
    ensures Closed(f, n + 1, afterText, out, open + [(name, level)]) ==
            Closed(f, n, false, out + CloseText(f, name, level, afterText), open)
  {
    hide CloseText;
    assert (open + [(name, level)])[..|open|] == open;
  }

  lemma {:induction false} PrintsNode(f: Format, n: Node, level: int, next: int, st: PrintState)
    requires next <= level
    ensures PrintAll(f, NodeInfos(n), NodeLevels(n, level), next, st) ==
            Closed(f, level - next, n.TextNode?, st.out + RenderNode(f, n, level, st.spc), st.open)
    decreases n, 1
  {
    hide CloseTags, TagText, CloseText, Closed, PrintAll;
    var x := NodeInfo(n);
    var head := TagText(x, st.spc + Repeat(f.tab, level - 1));
    if NodeKids(n) == [] {
      assert NodeInfos(n) == [x] && NodeLevels(n, level) == [level];
      PrintsLeaf(f, x, level, next, st);
    } else {
      PrintAllAppend(f, [x], [level], LayoutInfo(n.kids), LayoutLevels(n.kids, level + 1), next, st);
      PrintsStart(f, x, level, st);
      var st1 := PrintState(st.out + head, f.wrap, st.open + [(n.name, level)]);
      PrintsForest(f, n.kids, level + 1, next, st1);
      var inner := RenderForest(f, n.kids, level + 1, f.wrap);
      ClosesLast(f, level - next, EndsWithText(n.kids), st1.out + inner, st.open, n.name, level);
      Assoc(st.out, head, inner);
      Assoc(st.out, head + inner, CloseText(f, n.name, level, EndsWithText(n.kids)));
    }
  }

  lemma {:induction false} CloseTagsIgnoreSpc(f: Format, n: int, afterText: bool, st: PrintState, spc: string)
    ensures CloseTags(f, n, afterText, st).(spc := spc) == CloseTags(f, n, afterText, st.(spc := spc))
    decreases n
  {
    if n > 0 && st.open != [] {
      var (name, level) := st.open[|st.open| - 1];
      CloseTagsIgnoreSpc(f, n - 1, false,
        PrintState(st.out + CloseText(f, name, level, afterText), st.spc, st.open[..|st.open| - 1]), spc);
    }
  }

  // ----- levels of a laid out forest

  ghost predicate Holds(par: Shape, i: int, xs: seq<int>) {
    0 <= i && i + |xs| <= |par| && par[i..i + |xs|] == xs
  }

  lemma HoldsSplit(par: Shape, i: int, a: seq<int>, b: seq<int>)
    requires Holds(par, i, a + b)
    ensures Holds(par, i, a) && Holds(par, i + |a|, b)
  {
    var w := par[i..i + |a + b|];
    assert w[..|a|] == a && w[|a|..] == b;
    assert par[i..i + |a|] == w[..|a|];
    assert par[i + |a|..i + |a| + |b|] == w[|a|..];
  }

  lemma HoldsThree(par: Shape, i: int, p: int, b: seq<int>, c: seq<int>)
    requires Holds(par, i, ([p] + b) + c)
    ensures Holds(par, i, [p]) && Holds(par, i + 1, b) && Holds(par, i + 1 + |b|, c)
  {
    HoldsSplit(par, i, [p] + b, c);
    HoldsSplit(par, i, [p], b);
  }

  lemma LevelsThree(par: Shape, i: int, l: int, b: seq<int>, c: seq<int>)
    requires LevelsHold(par, i, [l]) && LevelsHold(par, i + 1, b) && LevelsHold(par, i + 1 + |b|, c)
    ensures LevelsHold(par, i, ([l] + b) + c)
  {
    LevelsJoin(par, i, [l], b);
    LevelsJoin(par, i, [l] + b, c);
  }

  ghost predicate LevelsHold(par: Shape, i: int, levels: seq<int>) {
    forall k :: 0 <= k < |levels| ==> Level(par, i + k) == levels[k]
  }

  lemma LevelsJoin(par: Shape, i: int, a: seq<int>, b: seq<int>)
    requires LevelsHold(par, i, a) && LevelsHold(par, i + |a|, b)
    ensures LevelsHold(par, i, a + b)
  {
    hide Level;
    forall k | 0 <= k < |a + b| ensures Level(par, i + k) == (a + b)[k] {
      if k >= |a| { assert Level(par, (i + |a|) + (k - |a|)) == b[k - |a|]; }
    }
  }

  function KidPar(n: Node, i: int): (r: seq<int>)
    ensures |r| == Size(NodeKids(n))
  {
    if n.Element? then LayoutPar(n.kids, i, i + 1) else []
  }

  function KidLevels(n: Node, level: int): (r: seq<int>)
    ensures |r| == Size(NodeKids(n))
  {
    if n.Element? then LayoutLevels(n.kids, level + 1) else []
  }

  lemma LayoutCons(fs: seq<Node>, p: int, i: int, level: int)
    requires fs != []
    ensures LayoutPar(fs, p, i) == ([p] + KidPar(fs[0], i)) + LayoutPar(fs[1..], p, i + 1 + Size(NodeKids(fs[0])))
    ensures LayoutLevels(fs, level) == ([level] + KidLevels(fs[0], level)) + LayoutLevels(fs[1..], level)
    ensures LayoutInfo(fs) == NodeInfos(fs[0]) + LayoutInfo(fs[1..])
    ensures Size(fs) == 1 + Size(NodeKids(fs[0])) + Size(fs[1..])
  {
  }

  lemma NoLevels(par: Shape, fs: seq<Node>, i: int, level: int)
    requires fs == []
    ensures LevelsHold(par, i, LayoutLevels(fs, level))
  {
  }

  lemma FirstLevel(par: Shape, i: int, p: int, level: int)
    requires 0 <= p < i && Holds(par, i, [p]) && Level(par, p) == level - 1
    ensures LevelsHold(par, i, [level]) && Level(par, i) == level
  {
    assert par[i] == par[i..i + 1][0] == p;
  }

  lemma {:induction false} LevelsOfKids(par: Shape, n: Node, i: int, level: int)
    requires 0 <= i && Holds(par, i + 1, KidPar(n, i)) && Level(par, i) == level
    ensures LevelsHold(par, i + 1, KidLevels(n, level))
    decreases Size(NodeKids(n)), 1
  {
    if n.Element? { LevelsOfLayout(par, n.kids, i, i + 1, level + 1); }
  }

  lemma {:induction false} LevelsOfLayout(par: Shape, fs: seq<Node>, p: int, i: int, level: int)
    requires 0 <= p < i && Holds(par, i, LayoutPar(fs, p, i)) && Level(par, p) == level - 1
    ensures LevelsHold(par, i, LayoutLevels(fs, level))
    decreases Size(fs), 0
  {
    hide *;
    if fs == [] {
      NoLevels(par, fs, i, level);
    } else {
      LayoutCons(fs, p, i, level);
      var n, rest, m := fs[0], fs[1..], Size(NodeKids(fs[0]));
      HoldsThree(par, i, p, KidPar(n, i), LayoutPar(rest, p, i + 1 + m));
      FirstLevel(par, i, p, level);
      JoinLevels(par, n, rest, p, i, level, m);
    }
  }

  lemma {:induction false} JoinLevels(par: Shape, n: Node, rest: seq<Node>, p: int, i: int, level: int, m: int)
    requires 0 <= p < i && m == Size(NodeKids(n)) && Level(par, p) == level - 1 && Level(par, i) == level
    requires LevelsHold(par, i, [level]) && Holds(par, i + 1, KidPar(n, i)) &&
             Holds(par, i + 1 + m, LayoutPar(rest, p, i + 1 + m))
    ensures LevelsHold(par, i, ([level] + KidLevels(n, level)) + LayoutLevels(rest, level))
    decreases 1 + m + Size(rest), -1
  {
    hide *;
    LevelsOfKids(par, n, i, level);
    LevelsOfLayout(par, rest, p, i + 1 + m, level);
    LevelsThree(par, i, level, KidLevels(n, level), LayoutLevels(rest, level));
  }

  lemma {:induction false} ExportIsPrintAll(f: Format, d: Doc, i: int, levels: seq<int>, st: PrintState)
    requires |d.info| == |d.par| && 0 <= i < |d.par| && |levels| == |d.par| - 1 - i
    requires forall k :: 0 <= k < |levels| ==> levels[k] == Level(d.par, i + k)
    ensures ExportFrom(f, d, i, st) == PrintAll(f, d.info[i..|d.par| - 1], levels, 1, st).out
    decreases |d.par| - i
  {
    hide PrintTag, Level;
    if i < |d.par| - 1 {
      var xs := d.info[i..|d.par| - 1];
      assert xs[1..] == d.info[i + 1..|d.par| - 1];
      var next := if |xs| == 1 then 1 else levels[1];
      assert next == TagLevel(d, i + 1) && levels[0] == TagLevel(d, i);
      ExportIsPrintAll(f, d, i + 1, levels[1..], PrintTag(f, d.info[i], TagLevel(d, i), TagLevel(d, i + 1), st));
    }
  }

  /** The printer's loop, with its stack of open tags and its level differences, prints the
      recursively defined text of the forest. */
  lemma ExportPrintsForest(f: Format, fs: seq<Node>)
    ensures Export(f, Finish(Layout(fs))) == RenderForest(f, fs, 1, "")
  {
    var d := Finish(Layout(fs));
    var st := PrintState("", "", []);
    assert Holds(d.par, 1, LayoutPar(fs, 0, 1));
    LevelsOfLayout(d.par, fs, 0, 1, 1);
    ExportIsPrintAll(f, d, 1, LayoutLevels(fs, 1), st);
    assert d.info[1..|d.par| - 1] == LayoutInfo(fs);
    if fs != [] {
      PrintsForest(f, fs, 1, 1, st);
      assert "" + RenderForest(f, fs, 1, "") == RenderForest(f, fs, 1, "");
    }
  }
}
