/**
  The tag tree as a value, and the stack machine that builds it.

  A `Doc` lists the tags in the order in which they were read; `par` is the parent vector of
  TreeShape and `cur` the innermost open tag.  The machine has the three moves the parser
  makes: append a leaf, open a tag, and read an end tag.  An end tag that matches further up
  turns every unclosed tag in between into a standalone tag and hands its children to the
  matched tag (QSgml.cpp:213-227 and 289-338).
*/
module SgmlModel {
  import opened TreeShape

  datatype TagType =
    | VirtualBeginTag
    | VirtualEndTag
    | StartTag
    | EndTag
    | Standalone
    | Doctype
    | Cdata
    | Comment
    | StartEmpty

  type Attributes = seq<(string, string)>

  datatype Info = Info(
    kind: TagType, name: string, attributes: Attributes, value: string,
    startPos: int, startLen: int, endPos: int, endLen: int)
  {
    function StartEnd(): int { startPos + startLen }
    function SpanEnd(): int { endPos + endLen }
    /** An end tag has been read for this tag. */
    predicate Closed() { endPos > startPos }
  }

  const DOC_INFO := Info(VirtualBeginTag, "doctag", [], "", 0, 0, 0, 0)
  const END_INFO := Info(VirtualEndTag, "endtag", [], "", 0, 0, 0, 0)

  datatype Doc = Doc(par: Shape, info: seq<Info>, cur: int)

  const EMPTY_DOC := Doc([-1], [DOC_INFO], 0)

  ghost predicate Valid(d: Doc) {
    && |d.info| == |d.par|
    && Preorder(d.par)
    && 0 <= d.cur < |d.par|
    && Anc(d.par, d.cur, |d.par| - 1)
  }

  // ----- the moves

  function AddLeaf(d: Doc, x: Info): Doc {
    Doc(d.par + [d.cur], d.info + [x], d.cur)
  }

  function AddOpen(d: Doc, x: Info): Doc {
    Doc(d.par + [d.cur], d.info + [x], |d.par|)
  }

  /** The innermost tag with that name on the way up from i, or the document tag. */
  function MatchUp(d: Doc, name: string, i: int): (t: int)
    requires Valid(d) && 0 <= i < |d.par|
    ensures 0 <= t <= i && Anc(d.par, t, i)
    ensures t > 0 ==> d.info[t].name == name
    decreases i
  {
    if d.info[i].name == name || i == 0 then i else MatchUp(d, name, d.par[i])
  }

  /** Demote the innermost open tag to a standalone tag. */
  function Demote(d: Doc): (r: Doc)
    requires Valid(d) && d.cur > 0
    ensures Valid(r)
  {
    DemoteKeepsSpine(d);
    Doc(Lift(d.par, d.cur), d.info[d.cur := d.info[d.cur].(kind := Standalone)], d.par[d.cur])
  }

  lemma {:induction false} DemoteKeepsSpine(d: Doc)
    requires Valid(d) && d.cur > 0
    ensures var p := Lift(d.par, d.cur); Preorder(p) && Anc(p, d.par[d.cur], |d.par| - 1)
  {
    LiftPreorder(d.par, d.cur);
    assert Anc(d.par, d.par[d.cur], d.cur);
    AncTrans(d.par, d.par[d.cur], d.cur, |d.par| - 1);
    AncLift(d.par, d.cur, d.par[d.cur], |d.par| - 1);
  }

  /** Demote every open tag below t. */
  function DemoteTo(d: Doc, t: int): (r: Doc)
    requires Valid(d) && 0 <= t && Anc(d.par, t, d.cur)
    ensures Valid(r) && r.cur == t && |r.par| == |d.par|
    decreases d.cur
  {
    if d.cur == t then d
    else
      AncLift(d.par, d.cur, t, d.par[d.cur]);
      DemoteTo(Demote(d), t)
  }

  function ClosedInfo(x: Info, leaf: bool, pos: int, len: int): Info {
    x.(endPos := pos, endLen := len, kind := if leaf then StartEmpty else x.kind)
  }

  /** Record the end tag of the innermost open tag. */
  function CloseTop(d: Doc, pos: int, len: int): (r: Doc)
    requires Valid(d) && d.cur > 0
    ensures Valid(r)
  {
    AncTrans(d.par, d.par[d.cur], d.cur, |d.par| - 1);
    Doc(d.par, d.info[d.cur := ClosedInfo(d.info[d.cur], Kids(d.par, d.cur) == [], pos, len)], d.par[d.cur])
  }

  datatype EndResult = Ended(doc: Doc) | NoStartTag

  /** Read an end tag; without an open tag of that name the document ends there. */
  function ReadEnd(d: Doc, name: string, pos: int, len: int): (r: EndResult)
    requires Valid(d)
    ensures r.Ended? ==> Valid(r.doc)
  {
    var t := MatchUp(d, name, d.cur);
    if t == 0 then NoStartTag else Ended(CloseTop(DemoteTo(d, t), pos, len))
  }

  /** The virtual end tag becomes the last child of the innermost open tag. */
  function Finish(d: Doc): Doc { AddLeaf(d, END_INFO) }

  lemma AddKeepsValid(d: Doc, x: Info)
    requires Valid(d)
    ensures Valid(AddLeaf(d, x)) && Valid(AddOpen(d, x))
  {
    PreorderSnoc(d.par, d.cur);
  }

  // ----- the effect of an end tag in one piece

  /** Is m an open tag strictly below t? */
  ghost predicate OpenBelow(d: Doc, t: int, m: int) {
    t < m && Anc(d.par, m, d.cur)
  }

  ghost function Demoted(d: Doc, t: int): Doc
    requires |d.info| == |d.par|
  {
    Doc(seq(|d.par|, i requires 0 <= i < |d.par| =>
          if OpenBelow(d, t, d.par[i]) then t else d.par[i]),
        seq(|d.par|, i requires 0 <= i < |d.par| =>
          if OpenBelow(d, t, i) then d.info[i].(kind := Standalone) else d.info[i]),
        t)
  }

  /** Moving the children up one open tag at a time gives every tag that hung below an
      unclosed tag the matched tag as its parent, and changes nothing else. */
  lemma {:induction false} DemoteToIsDemoted(d: Doc, t: int)
    requires Valid(d) && 0 <= t && Anc(d.par, t, d.cur)
    ensures DemoteTo(d, t) == Demoted(d, t)
    decreases d.cur
  {
    var c := d.cur;
    if c == t {
      forall i | 0 <= i < |d.par| ensures !OpenBelow(d, t, d.par[i]) && !OpenBelow(d, t, i) {}
      assert DemoteTo(d, t).par == Demoted(d, t).par;
      assert DemoteTo(d, t).info == Demoted(d, t).info;
    } else {
      var e := Demote(d);
      AncLift(d.par, c, t, d.par[c]);
      DemoteToIsDemoted(e, t);
      AncOfParent(d.par, t, c);
      forall m | 0 <= m < |d.par| ensures m != c ==> (OpenBelow(e, t, m) <==> OpenBelow(d, t, m))
        ensures !OpenBelow(e, t, c) && OpenBelow(d, t, c)
      {
        if m != c && Anc(d.par, m, c) { AncOfParent(d.par, m, c); AncLift(d.par, c, m, d.par[c]); }
        if Anc(e.par, m, e.cur) { AncUnlift(d.par, c, m, e.cur); AncTrans(d.par, m, d.par[c], c); }
      }
      assert Demoted(e, t).par == Demoted(d, t).par;
      assert Demoted(e, t).info == Demoted(d, t).info;
    }
  }
}
