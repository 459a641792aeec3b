/**
  The parser object (QSgml.cpp): it reads a text into a tree of tag objects.  The contracts tie
  each method to the scanner of SgmlScan, which works on document values.
*/
module SgmlParser {
  import opened Sequences
  import opened QtText
  import opened TreeShape
  import opened SgmlModel
  import opened SgmlAttributes
  import opened SgmlPrint
  import opened SgmlScan
  import opened SgmlTags
  import opened SgmlTree

  // ----- appending a tag

  /** The pointers after a new tag has become the last child of the current tag. */
  lemma PointersAfterAdd(order: seq<SgmlTag>, tag: SgmlTag, d: Doc, lists: seq<seq<SgmlTag>>)
    requires Valid(d) && |order| == |d.par| == |lists|
    requires forall i :: 0 <= i < |order| ==> lists[i] == KidsOf(order, d.par, i)
    requires forall i :: 0 <= i < |order| ==> order[i].children == if i == d.cur then lists[i] + [tag] else lists[i]
    requires tag.children == []
    ensures ChildrenOk(order + [tag], d.par + [d.cur])
  {
    NewTagIsLeaf(d);
    hide Preorder, Kids, Anc, KidsOf;
    var par1, order1 := d.par + [d.cur], order + [tag];
    forall i | 0 <= i < |order1| ensures order1[i].children == KidsOf(order1, par1, i) {
      if i < |order| { TagsAfterAdd(order, tag, d.par, d.cur, i); }
    }
  }

  lemma NewTagIsLeaf(d: Doc)
    requires Valid(d)
    ensures Kids(d.par + [d.cur], |d.par|) == []
  {
    hide HangsOnSpine;
    KidsNone(d.par + [d.cur], |d.par|);
  }

  lemma TagsAfterAdd(order: seq<SgmlTag>, tag: SgmlTag, par: Shape, cur: int, i: int)
    requires |order| == |par| && 0 <= i < |par|
    ensures KidsOf(order + [tag], par + [cur], i) ==
            if i == cur then KidsOf(order, par, i) + [tag] else KidsOf(order, par, i)
  {
    assert (par + [cur])[..|par|] == par;
    hide KidsOf;
    var order1, par1 := order + [tag], par + [cur];
    var a := if i == cur then KidsOf(order, par, i) + [tag] else KidsOf(order, par, i);
    var b := KidsOf(order1, par1, i);
    forall m | 0 <= m < |b| ensures a[m] == b[m] {
      ChildTagAt(order1, par1, i, m);
      if m < |Kids(par, i)| { ChildTagAt(order, par, i, m); }
    }
  }

  lemma LevelsAfterAdd(order: seq<SgmlTag>, tag: SgmlTag, par: Shape, cur: int)
    requires |order| == |par| && 0 <= cur < |par| && LevelsOk(order, par) && tag.level == order[cur].level + 1
    ensures LevelsOk(order + [tag], par + [cur])
  {
    forall i | 0 <= i <= |order| ensures (order + [tag])[i].level == Level(par + [cur], i) {
      if i < |order| { LevelPrefix(par, cur, i); } else { LevelPrefix(par, cur, cur); }
    }
  }

  lemma ParentsAfterAdd(order: seq<SgmlTag>, tag: SgmlTag, par: Shape, cur: int)
    requires |order| == |par| && 0 <= cur < |par| && Preorder(par)
    requires ParentsOk(order, par, |order|) && tag.parent == order[cur]
    ensures ParentsOk(order + [tag], par + [cur], |order| + 1)
  {
    hide HangsOnSpine;
    forall i | 0 <= i <= |order| ensures (order + [tag])[i].parent == ParentTag(order + [tag], par + [cur], i) {
      if i < |order| { assert order[i].parent == ParentTag(order, par, i); }
    }
  }

  lemma TreeAfterAdd(order: seq<SgmlTag>, tag: SgmlTag, d: Doc)
    requires Valid(d) && |order| == |d.par| && Distinct(order) && tag !in order
    requires ChildrenOk(order + [tag], d.par + [d.cur])
    requires ParentsOk(order, d.par, |order|) && LevelsOk(order, d.par) && RecordsOk(order, d.info)
    requires tag.parent == order[d.cur] && tag.level == order[d.cur].level + 1
    ensures TreeOf(order + [tag], AddLeaf(d, tag.Record())) && TreeOf(order + [tag], AddOpen(d, tag.Record()))
  {
    AddKeepsValid(d, tag.Record());
    LevelsAfterAdd(order, tag, d.par, d.cur);
    ParentsAfterAdd(order, tag, d.par, d.cur);
    hide Anc, ChildrenOk, Preorder, Level, LevelsOk, ParentsOk, ParentTag;
  }

  /** The record of a new tag. */
  ghost function NewSpan(inner: string, kind: TagType, pos: int, len: int): Info
    requires IsText(kind) || ParseTag(inner).Some?
  {
    if IsText(kind) then Span(kind, [], [], inner, pos, len)
    else Span(kind, ParseTag(inner).value.0, ParseTag(inner).value.1, [], pos, len)
  }

  lemma VirtualNames()
    ensures ParseTag("DocTag") == Some(("doctag", []))
    ensures ParseTag("EndTag") == Some(("endtag", []))
  {
    hide ParseTag;
    PlainName("DocTag");
    PlainName("EndTag");
    assert ToLower("DocTag") == "doctag";
    assert ToLower("EndTag") == "endtag";
  }

  /** A name without attributes. */
  lemma PlainName(name: string)
    requires name != [] && Trimmed(name)
    requires forall i :: 0 <= i < |name| ==> name[i] != ' ' && name[i] != '='
    requires LowerChar(name[0]) != '!' && LowerChar(name[0]) != '/'
    ensures ParseTag(name) == Some((ToLower(name), []))
  {
    TrimNothing(name);
  }

  class Sgml {
    var docTag: SgmlTag
    var endTag: SgmlTag
    var sgmlString: string
    ghost var order: seq<SgmlTag>
    ghost var doc: Doc

    /** The virtual end tag as it was created.  Its parent pointer always names the document tag. */
    ghost predicate EndReady()
      reads `docTag, `endTag, endTag
    {
      docTag != endTag && endTag.Record() == END_INFO && endTag.parent == docTag && endTag.level == 1 &&
          endTag.children == []
    }

    /** The objects represent the document read so far; the virtual end tag is not in the tree. */
    ghost predicate Parsing()
      reads this, order, endTag
    {
      && TreeOf(order, doc)
      && Valid(doc) && |order| == |doc.par| && 0 <= doc.cur < |order|
      && order[0] == docTag
      && endTag !in order
      && EndReady()
    }

    /** The virtual end tag has been appended as the last tag. */
    ghost predicate Finished()
      reads this, order, endTag
    {
      && |order| > 1 && order[0] == docTag && order[|order| - 1] == endTag
      && Walkable(order, doc.par)
      && RecordsOk(order, doc.info)
      && FinalLevels(order, doc)
      && EndReady()
    }

    /** The state of the objects and of the cursor after one pass with outcome o. */
    ghost predicate Follows(o: Outcome, last: SgmlTag, pos: int, end: int)
      reads this, order, endTag
    {
      match o
      case Next(d, p, e) => Parsing() && doc == d && last == order[d.cur] && pos == p && end == e
      case Complete(d) => Finished() && doc == d && pos == -1
      case CutOff(d) => Parsing() && doc == d && pos == -1
      case Undefined => true
    }

    /** The state in which a text can be read. */
    ghost predicate Ready()
      reads this, docTag, endTag
    {
      && docTag.Record() == DOC_INFO && docTag.parent == null && docTag.level == 0
      && EndReady()
    }

    constructor ()
      ensures Ready() && docTag.children == [endTag]
    {
      VirtualNames();
      hide ParseTag;
      var d := new SgmlTag("DocTag", VirtualBeginTag, null);
      var e := new SgmlTag("EndTag", VirtualEndTag, d);
      docTag, endTag, sgmlString := d, e, "";
      new;
      docTag.children := docTag.children + [endTag];
    }

    /** Append a new tag to the current one. */
    method AppendTag(lastTag: SgmlTag, tag: SgmlTag, ghost open: bool)
      requires Parsing() && lastTag == order[doc.cur]
      requires tag !in order && tag != endTag && tag.children == []
      requires tag.parent == lastTag && tag.level == lastTag.level + 1
      modifies `order, `doc, lastTag`children
      ensures Parsing() && order == old(order) + [tag]
      ensures doc == if open then AddOpen(old(doc), tag.Record()) else AddLeaf(old(doc), tag.Record())
      ensures 0 <= doc.cur < |order| && order[doc.cur] == if open then tag else lastTag
    {
      hide TreeOf, Valid, Distinct, PointersOk, ChildrenOk, ParentsOk, LevelsOk, RecordsOk, KidsOf, Kids, EndReady;
      TreeParts(order, doc);
      ghost var lists := Lists(order);
      AllOther(order, doc.cur);
      lastTag.children := lastTag.children + [tag];
      PointersAfterAdd(order, tag, doc, lists);
      TreeAfterAdd(order, tag, doc);
      AddKeepsValid(doc, tag.Record());
      order := order + [tag];
      doc := if open then AddOpen(doc, tag.Record()) else AddLeaf(doc, tag.Record());
    }

    /** Create a tag for the markup of length len at start, and append it. */
    method AddTag(inner: string, kind: TagType, lastTag: SgmlTag, start: int, len: int) returns (tag: SgmlTag)
      requires Parsing() && lastTag == order[doc.cur]
      requires IsText(kind) || ParseTag(inner).Some?
      modifies `order, `doc, lastTag`children
      ensures Parsing() && fresh(tag) && order == old(order) + [tag]
      ensures doc == if kind == StartTag then AddOpen(old(doc), NewSpan(inner, kind, start, len))
                     else AddLeaf(old(doc), NewSpan(inner, kind, start, len))
      ensures order[doc.cur] == if kind == StartTag then tag else lastTag
    {
      hide TreeOf, Valid, EndReady, ParseTag;
      tag := new SgmlTag(inner, kind, lastTag);
      tag.startTagPos, tag.startTagLength := start, len;
      tag.endTagPos, tag.endTagLength := start, len;
      AppendTag(lastTag, tag, kind == StartTag);
    }

    method HandleCdata(s: string, lastTag: SgmlTag, end: int, pos: int)
      requires Parsing() && lastTag == order[doc.cur]
      modifies `order, `doc, lastTag`children
      ensures Parsing() && doc == SgmlScan.HandleCdata(s, old(doc), pos, end) && lastTag == order[doc.cur]
      ensures forall t :: t in order ==> t in old(order) || fresh(t)
    {
      hide TreeOf, Valid, Trim, Mid, EndReady;
      var start := end + 1;
      var text := Trim(Mid(s, start, pos - start));
      if text != [] {
        var tag := AddTag(text, Cdata, lastTag, start, pos - start);
      }
    }

    method HandleComment(s: string, lastTag: SgmlTag, pos: nat) returns (newPos: int, end: int)
      requires Parsing() && lastTag == order[doc.cur]
      modifies `order, `doc, lastTag`children
      ensures Follows(SgmlScan.HandleComment(s, old(doc), pos), lastTag, newPos, end)
      ensures forall t :: t in order ==> t in old(order) || fresh(t)
    {
      hide TreeOf, Valid, Trim, Mid, Find, EndReady, Finished;
      var start := pos + 4;
      end := Find(s, "-->", start);
      var text := Trim(Mid(s, start, end - start));
      var tag := AddTag(text, Comment, lastTag, start - 4, end - start + 7);
      end := end + 2;
      newPos := end;
    }

    method HandleDoctype(s: string, lastTag: SgmlTag, pos: nat) returns (newPos: int, end: int)
      requires Parsing() && lastTag == order[doc.cur]
      requires !TagEnd(s, pos).OpenQuote?
      modifies `order, `doc, lastTag`children
      ensures Follows(SgmlScan.HandleDoctype(s, old(doc), pos), lastTag, newPos, end)
      ensures forall t :: t in order ==> t in old(order) || fresh(t)
    {
      hide TreeOf, Valid, Trim, Mid, TagEnd, EndReady, Finished;
      newPos := FindEndFrom(s, pos);
      end := newPos;
      MidToEnd(s, pos + 2, end - pos - 2);
      var text := Trim(Mid(s, pos + 2, end - pos - 2));
      var tag := AddTag(text, Doctype, lastTag, pos, end - pos + 1);
    }

    /** Change the record of the current tag. */
    method MarkStandalone(lastTag: SgmlTag)
      requires Parsing() && 0 <= doc.cur < |order| && lastTag == order[doc.cur]
      modifies `doc, lastTag`kind
      ensures Parsing() && 0 <= doc.cur < |doc.info|
      ensures doc == old(doc).(info := old(doc.info[doc.cur := doc.info[doc.cur].(kind := Standalone)]))
    {
      hide Preorder, Kids, Anc, Level, Distinct, PointersOk;
      AllOther(order, doc.cur);
      lastTag.kind := Standalone;
      doc := doc.(info := doc.info[doc.cur := doc.info[doc.cur].(kind := Standalone)]);
    }

    /** Turn the current tag into a standalone tag and hand its children to its parent. */
    method DemoteLast(lastTag: SgmlTag) returns (up: SgmlTag)
      requires Parsing() && doc.cur > 0 && lastTag == order[doc.cur] && doc.par[doc.cur] > 0
      modifies `doc, order
      ensures Parsing() && order == old(order) && doc == Demote(old(doc)) && up == order[doc.cur]
    {
      hide Preorder, Kids, Anc, Level, Distinct, PointersOk, RecordsOk, EndReady;
      ghost var d := doc;
      ghost var c := doc.cur;
      PointersParent(order, doc.par, c);
      MarkStandalone(lastTag);
      PointersParent(order, doc.par, c);
      MoveChildren(lastTag, lastTag.parent, order, doc.par, c);
      doc := Demote(d);
      PointersParent(order, doc.par, c);
      up := lastTag.parent;
    }

    /** Record the end tag of the current tag. */
    method MarkClosed(lastTag: SgmlTag, pos: int, len: int)
      requires Parsing() && doc.cur > 0 && lastTag == order[doc.cur]
      modifies `doc, lastTag`endTagPos, lastTag`endTagLength, lastTag`kind
      ensures Parsing() && doc == old(doc).(info :=
        old(doc.info[doc.cur := ClosedInfo(doc.info[doc.cur], Kids(doc.par, doc.cur) == [], pos, len)]))
    {
      hide Valid, Kids, Level, PointersOk, ClosedInfo, SgmlTag.Record, EndReady, RecordsOk;
      CurInside();
      PointersCount(order, doc.par, doc.cur);
      AllOther(order, doc.cur);
      ghost var x := ClosedInfo(doc.info[doc.cur], Kids(doc.par, doc.cur) == [], pos, len);
      ghost var records := Records(order);
      RecordsAre(order, doc.info);
      lastTag.MarkEnd(pos, len);
      assert lastTag.Record() == x by { NoneIsEmpty(Kids(doc.par, doc.cur)); }
      OneRecord(order, doc.info, records, doc.cur, x);
      SameShapeValid(doc, doc.info[doc.cur := x]);
      doc := doc.(info := doc.info[doc.cur := x]);
    }

    lemma CurInside()
      requires Parsing()
      ensures |order| == |doc.par| == |doc.info| && 0 <= doc.cur < |order|
    {
      hide Preorder, Anc;
    }

    /** Close the current tag with the end tag at pos. */
    method CloseLast(lastTag: SgmlTag, pos: int, len: int) returns (up: SgmlTag)
      requires Parsing() && doc.cur > 0 && lastTag == order[doc.cur]
      modifies `doc, order
      ensures Parsing() && order == old(order) && doc == CloseTop(old(doc), pos, len) && up == order[doc.cur]
    {
      hide Preorder, Kids, Anc, Level, Distinct, PointersOk, RecordsOk, EndReady;
      ghost var d := doc;
      PointersParent(order, doc.par, doc.cur);
      MarkClosed(lastTag, pos, len);
      PointersParent(order, doc.par, doc.cur);
      up := lastTag.parent;
      doc := CloseTop(d, pos, len);
    }

    /** Climb from the current tag to the innermost tag with that name, or to the document tag. */
    method FindStartTag(lastTag: SgmlTag, name: string) returns (tag: SgmlTag)
      requires Parsing() && 0 <= doc.cur < |order| && lastTag == order[doc.cur]
      ensures var t := MatchUp(doc, name, doc.cur);
              t < |order| && tag == order[t] && (tag.parent == null <==> t == 0)
    {
      tag := lastTag;
      ghost var k := doc.cur;
      TagFacts(order, doc, k);
      while tag.name != name && tag.parent != null
        invariant 0 <= k < |order| == |doc.par| && tag == order[k]
        invariant tag.name == doc.info[k].name && (tag.parent == null <==> k == 0)
        invariant k > 0 ==> tag.parent == order[doc.par[k]]
        invariant MatchUp(doc, name, k) == MatchUp(doc, name, doc.cur)
        decreases k
      {
        hide Preorder, Kids, Anc, Level, Distinct, PointersOk, TreeOf;
        tag := tag.parent;
        k := doc.par[k];
        TagFacts(order, doc, k);
      }
    }

    /** The virtual end tag ends the document. */
    method AppendEndTag(lastTag: SgmlTag)
      requires Parsing() && 0 <= doc.cur < |order| && lastTag == order[doc.cur]
      modifies `order, `doc, lastTag`children
      ensures Finished() && order == old(order) + [endTag] && doc == Finish(old(doc))
    {
      hide TreeOf, Valid, Distinct, PointersOk, ChildrenOk, ParentsOk, LevelsOk, RecordsOk, KidsOf, Kids;
      TreeParts(order, doc);
      ghost var lists := Lists(order);
      AllOther(order, doc.cur);
      lastTag.children := lastTag.children + [endTag];
      PointersAfterAdd(order, endTag, doc, lists);
      FinishedAfterAdd(order, endTag, doc);
      order := order + [endTag];
      doc := Finish(doc);
    }

    /** Demote every open tag below `start` and close `start`. */
    method CloseUpTo(last: SgmlTag, start: SgmlTag, ghost t: int, pos: int, len: int) returns (lastTag: SgmlTag)
      requires Parsing() && last == order[doc.cur]
      requires 0 < t < |order| && start == order[t] && Anc(doc.par, t, doc.cur)
      modifies `doc, order
      ensures Parsing() && order == old(order) && doc == CloseTop(DemoteTo(old(doc), t), pos, len)
      ensures lastTag == order[doc.cur]
    {
      hide TreeOf, EndReady, Anc, Preorder, Valid;
      ghost var d := doc;
      lastTag := last;
      AncBelow(doc, t);
      while lastTag != start
        invariant Parsing() && order == old(order) && t <= doc.cur && lastTag == order[doc.cur]
        invariant Anc(doc.par, t, doc.cur) && DemoteTo(doc, t) == DemoteTo(d, t)
        decreases doc.cur
      {
        DemoteStep(doc, t);
        lastTag := DemoteLast(lastTag);
      }
      SamePlace(order, doc.cur, t, doc);
      lastTag := CloseLast(lastTag, pos, len);
    }

    method HandleEndTag(s: string, last: SgmlTag, pos: nat) returns (lastTag: SgmlTag, newPos: int, end: int)
      requires Parsing() && last == order[doc.cur]
      requires !SgmlScan.HandleEndTag(s, doc, pos).Undefined?
      modifies `order, `doc, order
      ensures Follows(SgmlScan.HandleEndTag(s, old(doc), pos), lastTag, newPos, end)
      ensures order <= old(order) + [endTag]
    {
      hide TreeOf, Trim, Mid, TagEnd, ParseTag, EndReady, Anc, Preorder, Valid, Finished;
      newPos := FindEndFrom(s, pos);
      end := newPos;
      var inner := Trim(Mid(s, pos + 1, end - pos - 1));
      var read := new SgmlTag(inner, TagType.EndTag, last);
      var start := FindStartTag(last, read.name);
      if start.parent != null {
        lastTag := CloseUpTo(last, start, MatchUp(doc, read.name, doc.cur), pos, end - pos + 1);
      } else {
        AppendEndTag(last);
        lastTag := last;
        newPos := -1;
      }
    }

    method HandleStartTag(s: string, last: SgmlTag, pos: nat) returns (lastTag: SgmlTag, newPos: int, end: int)
      requires Parsing() && last == order[doc.cur] && pos < |s| && s[pos] == '<'
      requires !SgmlScan.HandleStartTag(s, doc, pos).Undefined?
      modifies `order, `doc, last`children
      ensures Follows(SgmlScan.HandleStartTag(s, old(doc), pos), lastTag, newPos, end)
      ensures forall t :: t in order ==> t in old(order) || fresh(t)
    {
      hide TreeOf, Trim, Mid, TagEnd, ParseTag, Left, EndReady, Valid, Finished, AddOpen, AddLeaf;
      newPos := FindEndFrom(s, pos);
      end := newPos;
      var inner := Trim(Mid(s, pos + 1, end - pos - 1));
      if s[end - 1] == '/' {
        inner := Left(inner, |inner| - 1);
        var tag := AddTag(inner, Standalone, last, pos, end - pos + 1);
        lastTag := last;
      } else {
        lastTag := AddTag(inner, StartTag, last, pos, end - pos + 1);
      }
    }

    /** The markup at q: comment, doctype, end tag, or start or standalone tag. */
    method HandleMarkup(s: string, last: SgmlTag, q: nat) returns (lastTag: SgmlTag, newPos: int, end: int)
      requires Parsing() && last == order[doc.cur] && q < |s| && s[q] == '<'
      requires !SgmlScan.HandleMarkup(s, doc, q).Undefined?
      modifies `order, `doc, order
      ensures Follows(SgmlScan.HandleMarkup(s, old(doc), q), lastTag, newPos, end)
      ensures forall t :: t in order ==> t in old(order) || fresh(t) || t == endTag
    {
      hide TreeOf, EndReady, Valid, Finished, SgmlScan.HandleComment, SgmlScan.HandleDoctype, SgmlScan.HandleEndTag,
          SgmlScan.HandleStartTag;
      lastTag := last;
      if s[q + 1] == '!' && s[q + 2] == '-' && s[q + 3] == '-' {
        newPos, end := HandleComment(s, last, q);
        CommentKeepsCur(s, old(doc), q);
      } else if s[q + 1] == '!' {
        DoctypeKeepsCur(s, doc, q);
        newPos, end := HandleDoctype(s, last, q);
      } else if s[q + 1] == '/' {
        lastTag, newPos, end := HandleEndTag(s, last, q);
      } else {
        lastTag, newPos, end := HandleStartTag(s, last, q);
      }
    }

    method SkipExceptionTags(s: string, name: string, start: nat) returns (pos: int)
      ensures pos == SkipException(s, name, start)
    {
      pos := start;
      var k := 0;
      while k < |EXCEPTION_TAGS|
        invariant 0 <= k <= 2
        invariant k == 0 ==> pos == start
        invariant k == 1 ==> pos == if ToLower(name) == "script" then ClosePos(s, "script", start) else start
        invariant k == 2 ==> pos == SkipException(s, name, start)
      {
        if ToLower(name) == EXCEPTION_TAGS[k] {
          pos := IndexOf(ToLower(s), "</" + EXCEPTION_TAGS[k], pos);
          pos := pos - 1;
        }
        k := k + 1;
      }
    }

    /** Read a text on which the loop ends, after some number of passes, without reading outside a
        string.  The result is the document that the scanner reads, as a tree of objects. */
    method String2Sgml(s: string, ghost passes: nat)
      requires Ready()
      requires var r := Passes(s, EMPTY_DOC, 0, -1, passes); r.Over? && (r.result.Parsed? || r.result.Truncated?)
      modifies this, docTag
      ensures sgmlString == s && docTag == old(docTag) && endTag == old(endTag)
      ensures var r := Passes(s, EMPTY_DOC, 0, -1, passes).result;
              && doc == r.doc
              && if r.Parsed? then Finished() && OnlyLastIsEnd(doc.info) else Parsing() && NoVirtualEnd(doc)
    {
      hide TreeOf, Finished, ScanStep, Valid, OnlyLastIsEnd, NoVirtualEnd;
      sgmlString := s;
      docTag.children := [];
      order := [docTag];
      doc := EMPTY_DOC;
      EmptyTree(docTag);
      RunHasOneEnd(s, passes);
      var lastTag := docTag;
      var pos, end := 0, -1;
      ghost var n := passes;
      while true
        invariant 0 <= pos && Parsing() && lastTag == order[doc.cur]
        invariant docTag == old(docTag) && endTag == old(endTag) && sgmlString == s
        invariant forall t :: t in order ==> t == docTag || fresh(t)
        invariant Passes(s, doc, pos, end, n) == Passes(s, EMPTY_DOC, 0, -1, passes)
        decreases n
      {
        assert forall k :: 0 <= k < |order| ==> order[k] in order;
        lastTag, pos, end := OnePass(s, lastTag, pos, end);
        if pos == -1 {
          return;
        }
        n := n - 1;
      }
    }

    /** All tags with that name, in document order. */
    method GetElementsByName(name: string) returns (elements: seq<SgmlTag>)
      requires Finished() && OnlyLastIsEnd(doc.info)
      ensures TagsAt(order, elements, Matches(doc.info[..|doc.info| - 1], (x: Info) => x.name == ToLower(name)))
    {
      hide ToLower, Preorder, Kids, ChildrenOk, Distinct, ParentsOk, EndReady;
      ghost var p := (x: Info) => x.name == ToLower(name);
      var tag := docTag;
      ghost var i := 0;
      elements := [];
      assert doc.info[..0] == [];
      while tag.kind != VirtualEndTag
        invariant 0 <= i < |order| == |doc.info| && tag == order[i] && tag.Record() == doc.info[i]
        invariant TagsAt(order, elements, Matches(doc.info[..i], p))
        decreases |order| - i
      {
        MatchesSnoc(doc.info, p, i);
        if tag.name == ToLower(name) {
          elements := elements + [tag];
        }
        tag := tag.GetNextElement(order, doc.par, i);
        i := i + 1;
      }
    }

    /** All tags that have the attribute with that value, in document order. */
    method GetElementsByAttribute(key: string, value: string) returns (elements: seq<SgmlTag>)
      requires Finished() && OnlyLastIsEnd(doc.info)
      ensures TagsAt(order, elements, Matches(doc.info[..|doc.info| - 1],
              (x: Info) => Lookup(x.attributes, key) == Some(value)))
    {
      hide Lookup, Preorder, Kids, ChildrenOk, Distinct, ParentsOk, EndReady;
      ghost var p := (x: Info) => Lookup(x.attributes, key) == Some(value);
      var tag := docTag;
      ghost var i := 0;
      elements := [];
      assert doc.info[..0] == [];
      while tag.kind != VirtualEndTag
        invariant 0 <= i < |order| == |doc.info| && tag == order[i] && tag.Record() == doc.info[i]
        invariant TagsAt(order, elements, Matches(doc.info[..i], p))
        decreases |order| - i
      {
        MatchesSnoc(doc.info, p, i);
        var found := Lookup(tag.attributes, key);
        if found.Some? {
          if found.value == value {
            elements := elements + [tag];
          }
        }
        tag := tag.GetNextElement(order, doc.par, i);
        i := i + 1;
      }
    }

    /** Print the tags in document order, with the end tags of the open start tags. */
    method ExportString(wrap: string, tab: string) returns (html: string)
      requires Finished() && OnlyLastIsEnd(doc.info)
      ensures html == Export(Format(wrap, tab), doc)
    {
      hide *;
      var f := Format(wrap, tab);
      FinishedFacts();
      var tag := FirstTag();
      ghost var i := 1;
      var startTags: seq<SgmlTag> := [];
      ghost var st := PrintState("", "", []);
      html := "";
      var spc := "";
      ExportStarts(f, doc);
      NoOpenTags();
      IsLastTag(1);
      while tag.kind != VirtualEndTag
        invariant 1 <= i < |order| == |doc.par| == |doc.info| && tag == order[i]
        invariant tag.kind == VirtualEndTag <==> i == |doc.par| - 1
        invariant OpenTags(startTags, st.open) && st.out == html && st.spc == spc
        invariant ExportFrom(f, doc, i, st) == Export(f, doc)
        decreases |order| - i
      {
        TagIs(i);
        TagIs(i + 1);
        IsLastTag(i + 1);
        ghost var open;
        html, startTags, open := PrintThis(tag, html, spc, tab, startTags, st.open);
        var level, kind := tag.level, tag.kind;
        tag := tag.GetNextElement(order, doc.par, i);
        PrintsOneTag(f, doc, i, st, PrintState(html, st.spc, open));
        startTags, html, open := CloseLevels(f, startTags, html, level - tag.level, kind == Cdata, open, st.spc);
        spc := wrap;
        st := PrintState(html, wrap, open);
        i := i + 1;
      }
      ExportEnds(f, doc, i, st);
    }

    /** Wrapped and indented by so many blanks for each level, or neither. */
    method ExportOptimized(optimize: int, tabSize: int) returns (html: string)
      requires Finished() && OnlyLastIsEnd(doc.info)
      ensures html == Export(if optimize > 0 then Format("\n", Repeat(" ", tabSize)) else Format("", ""), doc)
    {
      var wrap, tab := "", "";
      if optimize > 0 {
        wrap := "\n";
        tab := Indent("", " ", tabSize);
        assert "" + Repeat(" ", tabSize) == Repeat(" ", tabSize);
      }
      html := ExportString(wrap, tab);
    }

    /** The text of one tag; a start tag is kept for its end tag. */
    method PrintThis(tag: SgmlTag, printed: string, white: string, tab: string,
                     startTags: seq<SgmlTag>, ghost open: seq<(string, int)>)
      returns (html: string, tags: seq<SgmlTag>, ghost stack: seq<(string, int)>)
      requires OpenTags(startTags, open)
      ensures html == printed + TagText(tag.Record(), white + Repeat(tab, tag.level - 1))
      ensures stack == if tag.kind == StartTag then open + [(tag.name, tag.level)] else open
      ensures OpenTags(tags, stack)
    {
      hide *;
      var spc := Indent(white, tab, tag.level - 1);
      var text := TagString(tag, spc);
      html, tags, stack := printed + text, startTags, open;
      if tag.kind == StartTag {
        OpenOneMore(startTags, open, tag);
        tags := startTags + [tag];
        stack := open + [(tag.name, tag.level)];
      }
    }

    lemma FinishedFacts()
      requires Finished()
      ensures 1 < |order| == |doc.par| == |doc.info| && Walkable(order, doc.par) && RecordsOk(order, doc.info)
      ensures FinalLevels(order, doc)
    {
      hide Preorder, Kids, Level;
    }

    /** The first child of the document tag. */
    method FirstTag() returns (tag: SgmlTag)
      requires Finished()
      ensures tag == order[1]
    {
      hide Kids, HangsOnSpine, EndReady;
      KidsComplete(doc.par, 0, 1) by { assert HangsOnSpine(doc.par, 1); }
      FirstKid(doc.par, 0);
      KidTags(order, doc.par, 0);
      tag := docTag.children[0];
    }

    lemma TagIs(i: int)
      requires 0 <= i < |order| && RecordsOk(order, doc.info) && FinalLevels(order, doc)
      ensures |order| == |doc.info| && order[i].Record() == doc.info[i] && order[i].level == TagLevel(doc, i)
      ensures order[i].kind == doc.info[i].kind && order[i].name == doc.info[i].name
    {
      hide Level;
    }

    lemma IsLastTag(i: int)
      requires 0 <= i < |order| && RecordsOk(order, doc.info) && OnlyLastIsEnd(doc.info) && FinalLevels(order, doc)
      ensures order[i].kind == VirtualEndTag <==> i == |doc.par| - 1
    {
      hide Level;
      assert order[i].Record() == doc.info[i];
    }

    /** One pass of the loop of String2Sgml. */
    method OnePass(s: string, last: SgmlTag, start: nat, oldEnd: int) returns (lastTag: SgmlTag, pos: int, end: int)
      requires Parsing() && last == order[doc.cur]
      requires !ScanStep(s, doc, start, oldEnd).Undefined?
      modifies `order, `doc, order
      ensures Follows(ScanStep(s, old(doc), start, oldEnd), lastTag, pos, end)
      ensures forall t :: t in order ==> t in old(order) || fresh(t) || t == endTag
    {
      hide TreeOf, EndReady, Valid, Finished, SgmlScan.HandleMarkup, SgmlScan.HandleCdata, SkipException, FindStart;
      TagFacts(order, doc, doc.cur);
      lastTag, end := last, oldEnd;
      pos := SkipExceptionTags(s, last.name, start);
      pos := FindStart(s, pos);
      if pos == -1 {
        AppendEndTag(last);
        return;
      } else if pos > end + 1 {
        CdataKeepsCur(s, doc, pos, end);
        HandleCdata(s, last, end, pos);
        assert forall k :: 0 <= k < |order| ==> order[k] in order;
      }
      lastTag, pos, end := HandleMarkup(s, last, pos);
    }
  }

  /** The levels of a finished tree; the virtual end tag keeps level 1 wherever it hangs. */
  ghost predicate FinalLevels(order: seq<SgmlTag>, d: Doc)
    reads order`level
  {
    |order| == |d.par| && forall i :: 0 <= i < |order| ==> order[i].level == TagLevel(d, i)
  }

  // ----- printing

  /** The names and levels of the open start tags. */
  ghost predicate OpenTags(tags: seq<SgmlTag>, open: seq<(string, int)>)
    reads tags`name, tags`level
  {
    |tags| == |open| && forall k :: 0 <= k < |open| ==> open[k] == (tags[k].name, tags[k].level)
  }

  lemma NoOpenTags()
    ensures OpenTags([], [])
  {
  }

  lemma OpenOneMore(tags: seq<SgmlTag>, open: seq<(string, int)>, tag: SgmlTag)
    requires OpenTags(tags, open)
    ensures OpenTags(tags + [tag], open + [(tag.name, tag.level)])
  {
  }

  lemma {:induction false} RepeatOneMore(s: string, n: nat)
    ensures Repeat(s, n + 1) == Repeat(s, n) + s
  {
    if n > 0 {
      RepeatOneMore(s, n - 1);
      assert s + (Repeat(s, n - 1) + s) == (s + Repeat(s, n - 1)) + s;
    }
  }

  method Indent(spc: string, tab: string, n: int) returns (r: string)
    ensures r == spc + Repeat(tab, n)
  {
    hide Repeat;
    r := spc;
    var j := 0;
    RepeatNone(tab, n);
    assert spc + "" == spc;
    while j < n
      invariant 0 <= j && (j <= n || j == 0) && r == spc + Repeat(tab, j)
    {
      IndentMore(spc, tab, j);
      r := r + tab;
      j := j + 1;
    }
  }

  lemma IndentMore(spc: string, tab: string, n: nat)
    ensures spc + Repeat(tab, n) + tab == spc + Repeat(tab, n + 1)
  {
    RepeatOneMore(tab, n);
    hide Repeat;
    Assoc(spc, Repeat(tab, n), tab);
  }

  lemma RepeatNone(tab: string, n: int)
    ensures n <= 0 ==> Repeat(tab, n) == Repeat(tab, 0)
    ensures Repeat(tab, 0) == ""
  {
  }

  lemma {:induction false} AttrTextSnoc(a: Attributes, k: int)
    requires 0 <= k < |a|
    ensures AttrText(a[..k + 1]) == AttrText(a[..k]) + (" " + a[k].0 + "=\"" + a[k].1 + "\"")
    decreases k
  {
    if k == 0 {
      assert a[..1][1..] == [];
      assert AttrText(a[..1]) == " " + a[0].0 + "=\"" + a[0].1 + "\"" + "";
    } else {
      AttrTextSnoc(a[1..], k - 1);
      assert a[..k + 1][1..] == a[1..][..k] && a[..k][1..] == a[1..][..k - 1];
      var first, last := " " + a[0].0 + "=\"" + a[0].1 + "\"", " " + a[k].0 + "=\"" + a[k].1 + "\"";
      Assoc(first, AttrText(a[1..][..k - 1]), last);
    }
  }

  method AttributeString(a: Attributes) returns (r: string)
    ensures r == AttrText(a)
  {
    r := "";
    var k := 0;
    while k < |a|
      invariant 0 <= k <= |a| && r == AttrText(a[..k])
    {
      AttrTextSnoc(a, k);
      r := r + (" " + a[k].0 + "=\"" + a[k].1 + "\"");
      k := k + 1;
    }
    assert a[..|a|] == a;
  }

  method TagString(tag: SgmlTag, spc: string) returns (text: string)
    ensures text == TagText(tag.Record(), spc)
  {
    hide AttrText;
    match tag.kind
    case VirtualBeginTag => text := "";
    case VirtualEndTag => text := "";
    case Cdata => text := tag.value;
    case Comment => text := spc + "<!--" + tag.value + "-->";
    case Doctype => text := spc + "<!" + tag.value + ">";
    case EndTag => text := spc + "</" + tag.name + ">";
    case Standalone =>
      var a := AttributeString(tag.attributes);
      text := spc + "<" + tag.name + a + "/>";
    case StartTag =>
      var a := AttributeString(tag.attributes);
      text := spc + "<" + tag.name + a + ">";
    case StartEmpty =>
      var a := AttributeString(tag.attributes);
      text := spc + "<" + tag.name + a + "></" + tag.name + ">";
  }

  /** The loop that closes one open start tag for every level the walk went up. */
  method CloseLevels(f: Format, tags: seq<SgmlTag>, out: string, n: int, afterText: bool,
                     ghost open: seq<(string, int)>, ghost spc: string)
    returns (rest: seq<SgmlTag>, html: string, ghost left: seq<(string, int)>)
    requires OpenTags(tags, open)
    ensures OpenTags(rest, left)
    ensures PrintState(html, spc, left) == CloseTags(f, n, afterText, PrintState(out, spc, open))
  {
    rest, html, left := tags, out, open;
    var j := 0;
    while j < n
      invariant 0 <= j && (j <= n || j == 0) && OpenTags(rest, left)
      invariant CloseTags(f, n - j, j == 0 && afterText, PrintState(html, spc, left)) ==
                CloseTags(f, n, afterText, PrintState(out, spc, open))
    {
      if |rest| > 0 {
        var last := rest[|rest| - 1];
        var gap := "";
        if j != 0 || !afterText {
          gap := Indent(f.wrap, f.tab, last.level - 1);
        }
        html := html + (gap + "</" + last.name + ">");
        rest := rest[..|rest| - 1];
        left := left[..|left| - 1];
      }
      j := j + 1;
    }
  }

  lemma ExportStarts(f: Format, d: Doc)
    requires |d.info| == |d.par| > 1
    ensures ExportFrom(f, d, 1, PrintState("", "", [])) == Export(f, d)
  {
  }

  lemma ExportEnds(f: Format, d: Doc, i: int, st: PrintState)
    requires |d.info| == |d.par| && 0 <= i == |d.par| - 1
    ensures ExportFrom(f, d, i, st) == st.out
  {
  }

  /** The state in which the printer closes tags after it has printed tag i. */
  lemma PrintsOneTag(f: Format, d: Doc, i: int, st: PrintState, mid: PrintState)
    requires |d.info| == |d.par| && 0 <= i < |d.par| - 1
    requires var x := d.info[i];
             mid == PrintState(st.out + TagText(x, st.spc + Repeat(f.tab, TagLevel(d, i) - 1)), st.spc,
                               if x.kind == StartTag then st.open + [(x.name, TagLevel(d, i))] else st.open)
    ensures ExportFrom(f, d, i, st) ==
            ExportFrom(f, d, i + 1,
              CloseTags(f, TagLevel(d, i) - TagLevel(d, i + 1), d.info[i].kind == Cdata, mid).(spc := f.wrap))
  {
    hide TagText, CloseTags, Repeat, TagLevel;
  }

  ghost predicate OnlyLastIsEnd(info: seq<Info>) {
    |info| > 0 && forall i :: 0 <= i < |info| ==> (info[i].kind == VirtualEndTag <==> i == |info| - 1)
  }

  /** The indices of the records that satisfy p, in order. */
  ghost function Matches(info: seq<Info>, p: Info -> bool): (ks: seq<int>)
    ensures forall k :: k in ks ==> 0 <= k < |info|
  {
    if info == [] then []
    else
      var n := |info| - 1;
      Matches(info[..n], p) + if p(info[n]) then [n] else []
  }

  /** Matches lists exactly the indices whose record satisfies p, each once and in order. */
  lemma {:induction false} MatchesExactly(info: seq<Info>, p: Info -> bool)
    ensures forall k :: k in Matches(info, p) <==> 0 <= k < |info| && p(info[k])
    ensures Increasing(Matches(info, p))
  {
    if info != [] {
      var n := |info| - 1;
      MatchesExactly(info[..n], p);
      var front := Matches(info[..n], p);
      forall i | 0 <= i < |front| ensures front[i] < n { assert front[i] in front; }
      assert forall k :: k in Matches(info, p) <==> k in front || (k == n && p(info[n]));
    }
  }

  lemma MatchesSnoc(info: seq<Info>, p: Info -> bool, i: int)
    requires 0 <= i < |info|
    ensures Matches(info[..i + 1], p) == Matches(info[..i], p) + if p(info[i]) then [i] else []
  {
    assert info[..i + 1][..i] == info[..i];
  }

  ghost predicate TagsAt(order: seq<SgmlTag>, tags: seq<SgmlTag>, ks: seq<int>) {
    |tags| == |ks| && forall m :: 0 <= m < |ks| ==> 0 <= ks[m] < |order| && tags[m] == order[ks[m]]
  }

  /** In the document of a run that ends the virtual end tag is the last tag and the only one. */
  lemma RunHasOneEnd(s: string, passes: nat)
    requires Passes(s, EMPTY_DOC, 0, -1, passes).Over?
    ensures var r := Passes(s, EMPTY_DOC, 0, -1, passes).result;
            (r.Parsed? ==> OnlyLastIsEnd(r.doc.info)) && (r.Truncated? ==> NoVirtualEnd(r.doc))
  {
    hide Passes;
    EndTagComesLast(s, passes);
  }

  lemma CommentKeepsCur(s: string, d: Doc, q: nat)
    requires Valid(d)
    ensures var r := SgmlScan.HandleComment(s, d, q); r.Next?
  {
  }

  lemma DoctypeKeepsCur(s: string, d: Doc, q: nat)
    requires Valid(d) && !SgmlScan.HandleDoctype(s, d, q).Undefined?
    ensures !TagEnd(s, q).OpenQuote?
  {
  }

  lemma CdataKeepsCur(s: string, d: Doc, pos: int, end: int)
    requires Valid(d)
    ensures SgmlScan.HandleCdata(s, d, pos, end).cur == d.cur
  {
  }

  lemma NoneIsEmpty(ks: seq<int>)
    ensures ks == [] <==> |ks| == 0
  {
  }

  lemma SameShapeValid(d: Doc, info: seq<Info>)
    requires Valid(d) && |info| == |d.info|
    ensures Valid(d.(info := info))
  {
  }

  lemma EmptyTree(tag: SgmlTag)
    requires tag.Record() == DOC_INFO && tag.parent == null && tag.level == 0 && tag.children == []
    ensures TreeOf([tag], EMPTY_DOC) && Valid(EMPTY_DOC)
  {
    assert EMPTY_DOC.par[..0] == [];
    KidsNone([-1], 0);
  }

  lemma AncBelow(d: Doc, t: int)
    requires Valid(d) && Anc(d.par, t, d.cur)
    ensures t <= d.cur
  {
  }

  /** What the objects say about tag k. */
  lemma TagFacts(order: seq<SgmlTag>, d: Doc, k: int)
    requires TreeOf(order, d) && 0 <= k < |order|
    ensures |order| == |d.par| == |d.info| && order[k].name == d.info[k].name
    ensures order[k].parent == null <==> k == 0
    ensures k > 0 ==> 0 <= d.par[k] < k && order[k].parent == order[d.par[k]]
  {
    hide HangsOnSpine, Kids, Level;
    assert order[k].Record() == d.info[k];
    assert order[k].parent == ParentTag(order, d.par, k);
  }

  lemma DemoteStep(d: Doc, t: int)
    requires Valid(d) && 0 < t < d.cur && Anc(d.par, t, d.cur)
    ensures 0 < d.par[d.cur] && t <= d.par[d.cur] == Demote(d).cur < d.cur
    ensures Anc(Demote(d).par, t, Demote(d).cur)
    ensures DemoteTo(d, t) == DemoteTo(Demote(d), t)
  {
    AncOfParent(d.par, t, d.cur);
    AncLift(d.par, d.cur, t, d.par[d.cur]);
  }

  lemma SamePlace(order: seq<SgmlTag>, i: int, j: int, d: Doc)
    requires TreeOf(order, d) && 0 <= i < |order| && 0 <= j < |order| && order[i] == order[j]
    ensures i == j
  {
    SameTag(order, i, j);
  }

  lemma LevelsAfterEnd(order: seq<SgmlTag>, tag: SgmlTag, d: Doc)
    requires Valid(d) && |order| == |d.par| && LevelsOk(order, d.par) && tag.level == 1
    ensures FinalLevels(order + [tag], Finish(d))
  {
    hide HangsOnSpine, Preorder, Anc;
    forall i | 0 <= i <= |order| ensures (order + [tag])[i].level == TagLevel(Finish(d), i) {
      if i < |order| { LevelPrefix(d.par, d.cur, i); }
    }
  }

  lemma FinishedAfterAdd(order: seq<SgmlTag>, tag: SgmlTag, d: Doc)
    requires Valid(d) && |order| == |d.par| && Distinct(order) && tag !in order
    requires ChildrenOk(order + [tag], d.par + [d.cur])
    requires ParentsOk(order, d.par, |order|) && RecordsOk(order, d.info) && tag.Record() == END_INFO
    requires LevelsOk(order, d.par) && tag.level == 1
    ensures Walkable(order + [tag], Finish(d).par) && RecordsOk(order + [tag], Finish(d).info)
    ensures FinalLevels(order + [tag], Finish(d))
  {
    AddKeepsValid(d, END_INFO);
    LevelsAfterEnd(order, tag, d);
    hide HangsOnSpine, ChildrenOk;
    forall i | 0 <= i < |order| ensures (order + [tag])[i].parent == ParentTag(order + [tag], d.par + [d.cur], i) {
      assert order[i].parent == ParentTag(order, d.par, i);
    }
  }

  lemma PointersParent(order: seq<SgmlTag>, par: Shape, c: int)
    requires PointersOk(order, par) && 0 < c < |par| && Preorder(par)
    ensures |order| == |par| && order[c].parent == order[par[c]] && 0 <= par[c] < c
  {
    hide HangsOnSpine;
    assert order[c].parent == ParentTag(order, par, c);
  }

  lemma MidToEnd(s: string, p: nat, n: int)
    ensures n < 0 ==> Mid(s, p, n) == MidAll(s, p)
  {
  }

  /** The loop of FindEnd; -1 when there is no end.  Behind a double quote that is never closed the
      position is -1, and the next turn begins at character 0. */
  method FindEndFrom(s: string, pos: nat) returns (p: int)
    requires !TagEnd(s, pos).OpenQuote?
    ensures p == if TagEnd(s, pos).EndAt? then TagEnd(s, pos).p else -1
  {
    p := pos;
    ghost var again := false;
    while p < |s|
      invariant 0 <= p && (again ==> FindEnd(s, p) == TagEnd(s, pos)) && (!again ==> FindEnd(s, p) == FindEnd(s, pos))
      decreases !again, |s| - p
    {
      if s[p] == '>' {
        return p;
      }
      if s[p] == '\'' {
        p := FindChar(s, '\'', p + 1);
      }
      if s[p] == '\"' {
        p := FindChar(s, '\"', p + 1);
        again := again || p == -1;
      }
      p := p + 1;
    }
    return -1;
  }

  lemma TreeParts(order: seq<SgmlTag>, d: Doc)
    requires TreeOf(order, d)
    ensures Valid(d) && |order| == |d.par| && 0 <= d.cur < |order| && Distinct(order)
    ensures ChildrenOk(order, d.par) && ParentsOk(order, d.par, |order|) && LevelsOk(order, d.par) &&
            RecordsOk(order, d.info)
    ensures forall i :: 0 <= i < |order| ==> Lists(order)[i] == KidsOf(order, d.par, i)
  {
    hide Kids, Anc, Level;
  }
}
