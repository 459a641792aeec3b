/**
  How the printer lays out its text (QSgml.cpp:65-211): without texts in between every tag stands on a
  line of its own, indented by its depth.
*/
module SgmlOutline {
  import opened Sequences
  import opened QtText
  import opened SgmlModel
  import opened SgmlPrint
  import opened SgmlMarkup

  function Blanks(n: nat): (s: string)
    ensures |s| == n && forall i :: 0 <= i < n ==> s[i] == ' '
  {
    seq(n, i => ' ')
  }

  /** A line of the outline, with the number of tags around it. */
  datatype Line = Line(depth: nat, text: string)

  function LeafText(n: Node): string {
    match n
    case TextNode(v) => v
    case CommentNode(v) => CommentText(v)
    case DoctypeNode(v) => DoctypeText(v)
    case SingleNode(name, attrs) => SingleText(name, attrs)
    case Element(name, attrs, kids) => StartText(name, attrs) + EndText(name)
  }

  /** A start tag, the lines of its children one deeper, and its end tag. */
  function Outline(fs: seq<Node>, depth: nat): seq<Line>
    decreases fs
  {
    if fs == [] then []
    else
      (if fs[0].Element? && fs[0].kids != [] then
         [Line(depth, StartText(fs[0].name, fs[0].attributes))] + Outline(fs[0].kids, depth + 1) +
         [Line(depth, EndText(fs[0].name))]
       else [Line(depth, LeafText(fs[0]))]) + Outline(fs[1..], depth)
  }

  predicate NoTexts(fs: seq<Node>)
    decreases fs
  {
    fs == [] || (!fs[0].TextNode? && (fs[0].Element? ==> NoTexts(fs[0].kids)) && NoTexts(fs[1..]))
  }

  /** The lines, indented by k blanks for each level. */
  function Indented(lines: seq<Line>, k: nat): (r: seq<string>)
    ensures |r| == |lines| && forall i :: 0 <= i < |lines| ==> r[i] == Blanks(k * lines[i].depth) + lines[i].text
  {
    seq(|lines|, i requires 0 <= i < |lines| => Blanks(k * lines[i].depth) + lines[i].text)
  }

  lemma {:induction false} JoinAppend(a: seq<string>, b: seq<string>, c: char)
    requires a != [] && b != []
    ensures Join(a + b, c) == Join(a, c) + [c] + Join(b, c)
    decreases |a|
  {
    if |a| == 1 {
      assert (a + b)[1..] == b;
    } else {
      JoinAppend(a[1..], b, c);
      assert (a + b)[1..] == a[1..] + b;
    }
  }

  lemma {:induction false} RepeatBlanks(k: nat, n: nat)
    ensures Repeat(Blanks(k), n) == Blanks(k * n)
    decreases n
  {
    if n == 0 {
      assert k * n == 0;
    } else {
      RepeatBlanks(k, n - 1);
      Times(k, n);
      assert Blanks(k) + Blanks(k * (n - 1)) == Blanks(k * n);
    }
  }

  /** The tab that the program builds, one blank after the other. */
  lemma TabIsBlanks(k: nat)
    ensures Repeat(" ", k) == Blanks(k)
  {
    RepeatBlanks(1, k);
    assert Blanks(1) == " ";
  }

  lemma Times(k: nat, n: nat)
    requires n > 0
    ensures k * n == k + k * (n - 1)
  {
  }

  function WrapWith(k: nat): Format { Format("\n", Blanks(k)) }

  /** The text of the lines of a forest, and what is in front of them. */
  function Block(lines: seq<Line>, k: nat): string { Join(Indented(lines, k), '\n') }

  lemma OneBlock(x: Line, k: nat)
    ensures Block([x], k) == Blanks(k * x.depth) + x.text
  {
  }

  lemma BlockAppend(a: seq<Line>, b: seq<Line>, k: nat)
    requires a != [] && b != []
    ensures Block(a + b, k) == Block(a, k) + "\n" + Block(b, k)
  {
    JoinAppend(Indented(a, k), Indented(b, k), '\n');
    assert Indented(a + b, k) == Indented(a, k) + Indented(b, k);
  }

  lemma LeafIs(n: Node, spc: string)
    requires !n.TextNode? && NodeKids(n) == []
    ensures TagText(NodeInfo(n), spc) == spc + LeafText(n)
  {
    hide AttrText;
    match n
    case CommentNode(v) =>
    case DoctypeNode(v) =>
    case SingleNode(name, attrs) => SingleParts(spc, name, AttrText(attrs));
    case Element(name, attrs, kids) => EmptyParts(spc, name, AttrText(attrs));
  }

  lemma SingleParts(spc: string, name: string, attrs: string)
    ensures spc + "<" + name + attrs + "/>" == spc + ("<" + (name + attrs) + "/>")
  {
  }

  lemma EmptyParts(spc: string, name: string, attrs: string)
    ensures spc + "<" + name + attrs + "></" + name + ">" == spc + (("<" + (name + attrs) + ">") + ("</" + name + ">"))
  {
  }

  lemma StartIs(n: Node, spc: string)
    requires n.Element? && n.kids != []
    ensures TagText(NodeInfo(n), spc) == spc + StartText(n.name, n.attributes)
  {
    hide AttrText;
    StartParts(spc, n.name, AttrText(n.attributes));
  }

  lemma StartParts(spc: string, name: string, attrs: string)
    ensures spc + "<" + name + attrs + ">" == spc + ("<" + (name + attrs) + ">")
  {
  }

  lemma EndIs(k: nat, name: string, depth: nat)
    ensures CloseText(WrapWith(k), name, depth + 1, false) == "\n" + (Blanks(k * depth) + EndText(name))
  {
    RepeatBlanks(k, depth);
    hide Repeat;
    EndParts(Blanks(k * depth), name);
  }

  lemma EndParts(pad: string, name: string)
    ensures "\n" + pad + "</" + name + ">" == "\n" + (pad + ("</" + name + ">"))
    ensures ("\n" + pad) + ("</" + name + ">") == "\n" + (pad + ("</" + name + ">"))
  {
  }

  /** The lines of one node. */
  function NodeLines(n: Node, depth: nat): (r: seq<Line>)
    ensures r != []
  {
    if n.Element? && n.kids != [] then
      [Line(depth, StartText(n.name, n.attributes))] + Outline(n.kids, depth + 1) + [Line(depth, EndText(n.name))]
    else [Line(depth, LeafText(n))]
  }

  lemma OutlineIs(fs: seq<Node>, depth: nat)
    requires fs != []
    ensures Outline(fs, depth) == NodeLines(fs[0], depth) + Outline(fs[1..], depth) && Outline(fs, depth) != []
  {
    hide StartText, EndText, LeafText;
  }

  lemma NoTextsIn(fs: seq<Node>)
    requires fs != [] && NoTexts(fs)
    ensures !fs[0].TextNode? && NoTexts(NodeKids(fs[0])) && NoTexts(fs[1..]) && !EndsWithText(fs)
  {
    LastIsNoText(fs);
  }

  lemma {:induction false} LastIsNoText(fs: seq<Node>)
    requires fs != [] && NoTexts(fs)
    ensures !EndsWithText(fs)
    decreases |fs|
  {
    if |fs| > 1 { LastIsNoText(fs[1..]); }
  }

  lemma {:induction false} RendersNode(k: nat, n: Node, depth: nat, spc: string)
    requires !n.TextNode? && NoTexts(NodeKids(n))
    ensures RenderNode(WrapWith(k), n, depth + 1, spc) == spc + Block(NodeLines(n, depth), k)
    decreases n, 1
  {
    hide TagText, NodeInfo, CloseText, Repeat, Block, LeafText, StartText, EndText, Outline, RenderForest;
    var pad := Blanks(k * depth);
    RepeatBlanks(k, depth);
    Assoc(spc, pad, LeafText(n));
    if NodeKids(n) == [] {
      LeafIs(n, spc + pad);
      OneBlock(Line(depth, LeafText(n)), k);
    } else {
      var start, inner, end := Line(depth, StartText(n.name, n.attributes)), Outline(n.kids, depth + 1),
          Line(depth, EndText(n.name));
      StartIs(n, spc + pad);
      Assoc(spc, pad, StartText(n.name, n.attributes));
      RendersForest(k, n.kids, depth + 1, "\n");
      NoTextsIn(n.kids);
      EndIs(k, n.name, depth);
      OutlineIs(n.kids, depth + 1);
      OneBlock(start, k);
      OneBlock(end, k);
      BlockAppend([start], inner, k);
      BlockAppend([start] + inner, [end], k);
      ThreeParts(spc, Block([start], k), Block(inner, k), Block([end], k));
    }
  }

  lemma ThreeParts(spc: string, a: string, b: string, c: string)
    ensures (spc + a) + ("\n" + b) + ("\n" + c) == spc + ((a + "\n" + b) + "\n" + c)
  {
  }

  lemma {:induction false} RendersForest(k: nat, fs: seq<Node>, depth: nat, spc: string)
    requires fs != [] && NoTexts(fs)
    ensures RenderForest(WrapWith(k), fs, depth + 1, spc) == spc + Block(Outline(fs, depth), k)
    decreases fs, 0
  {
    hide RenderNode, Block, Outline, NodeLines;
    var f, rest := WrapWith(k), fs[1..];
    NoTextsIn(fs);
    OutlineIs(fs, depth);
    RendersNode(k, fs[0], depth, spc);
    if rest == [] {
      NothingOutlined(depth);
      assert RenderForest(f, rest, depth + 1, "\n") == "";
      assert NodeLines(fs[0], depth) + [] == NodeLines(fs[0], depth);
    } else {
      RendersForest(k, rest, depth, "\n");
      OutlineIs(rest, depth);
      BlockAppend(NodeLines(fs[0], depth), Outline(rest, depth), k);
      TwoParts(spc, Block(NodeLines(fs[0], depth), k), Block(Outline(rest, depth), k));
    }
  }

  lemma TwoParts(spc: string, a: string, b: string)
    ensures (spc + a) + ("\n" + b) == spc + (a + "\n" + b)
  {
  }

  lemma NothingOutlined(depth: nat)
    ensures Outline([], depth) == []
  {
  }

  lemma NoBreakIndented(lines: seq<Line>, k: nat)
    requires forall i :: 0 <= i < |lines| ==> '\n' !in lines[i].text
    ensures forall i :: 0 <= i < |lines| ==> '\n' !in Indented(lines, k)[i]
  {
  }

  /** The printed text, line by line: one tag on each line, in document order, with k blanks in front for
      each tag around it. */
  lemma OneTagPerLine(k: nat, fs: seq<Node>)
    requires fs != [] && NoTexts(fs)
    requires forall i :: 0 <= i < |Outline(fs, 0)| ==> '\n' !in Outline(fs, 0)[i].text
    ensures Split(RenderForest(Format("\n", Blanks(k)), fs, 1, ""), '\n') == Indented(Outline(fs, 0), k)
  {
    hide *;
    var lines := Outline(fs, 0);
    RendersForest(k, fs, 0, "");
    OutlineIs(fs, 0);
    NoBreakIndented(lines, k);
    WrapIs(k);
    assert "" + Block(lines, k) == Block(lines, k);
    BlockIs(lines, k);
    JoinThenSplit(Indented(lines, k), '\n');
  }

  lemma WrapIs(k: nat)
    ensures WrapWith(k) == Format("\n", Blanks(k))
  {
  }

  lemma BlockIs(lines: seq<Line>, k: nat)
    ensures Block(lines, k) == Join(Indented(lines, k), '\n') && |Indented(lines, k)| == |lines|
  {
  }

  // ----- without wrapping

  /** The tags and texts one after the other. */
  function Solid(fs: seq<Node>): string
    decreases fs
  {
    if fs == [] then ""
    else
      (if fs[0].Element? && fs[0].kids != [] then
         StartText(fs[0].name, fs[0].attributes) + Solid(fs[0].kids) + EndText(fs[0].name)
       else LeafText(fs[0])) + Solid(fs[1..])
  }

  function SolidNode(n: Node): string {
    if n.Element? && n.kids != [] then StartText(n.name, n.attributes) + Solid(n.kids) + EndText(n.name)
    else LeafText(n)
  }

  lemma {:induction false} NoTab(n: int)
    ensures Repeat("", n) == ""
    decreases n
  {
    if n > 0 { NoTab(n - 1); }
  }

  lemma SolidLeaf(n: Node)
    requires NodeKids(n) == []
    ensures TagText(NodeInfo(n), "") == LeafText(n)
  {
    hide StartText, EndText, SingleText, CommentText, DoctypeText;
    if !n.TextNode? {
      LeafIs(n, "");
      assert "" + LeafText(n) == LeafText(n);
    }
  }

  lemma SolidEnd(name: string, level: int, afterText: bool)
    ensures CloseText(Format("", ""), name, level, afterText) == EndText(name)
  {
    NoTab(level - 1);
    hide Repeat;
    assert ("" + "") + "</" + name + ">" == "</" + name + ">";
  }

  lemma {:induction false} SolidNodeIs(n: Node, level: int)
    ensures RenderNode(Format("", ""), n, level, "") == SolidNode(n)
    decreases n, 1
  {
    hide TagText, NodeInfo, CloseText, Repeat, LeafText, StartText, EndText, Solid, RenderForest, EndsWithText;
    NoTab(level - 1);
    assert "" + "" == "";
    if NodeKids(n) == [] {
      SolidLeaf(n);
    } else {
      StartIs(n, "");
      assert "" + StartText(n.name, n.attributes) == StartText(n.name, n.attributes);
      SolidEnd(n.name, level, EndsWithText(n.kids));
      NothingBetween(n.kids, level + 1);
    }
  }

  /** With optimisation off nothing is put between the tags. */
  lemma {:induction false} NothingBetween(fs: seq<Node>, level: int)
    ensures RenderForest(Format("", ""), fs, level, "") == Solid(fs)
    decreases fs, 0
  {
    hide RenderNode, SolidNode, LeafText, StartText, EndText;
    if fs != [] {
      SolidNodeIs(fs[0], level);
      SolidCons(fs);
      NothingBetween(fs[1..], level);
    }
  }

  lemma SolidCons(fs: seq<Node>)
    requires fs != []
    ensures Solid(fs) == SolidNode(fs[0]) + Solid(fs[1..])
  {
    hide LeafText, StartText, EndText;
  }
}
