/**
  Positions after parsing a text: the spans of all tags are laminar and lie on the markup they
  were read from, and getInnerText (QSgml.cpp:647-662) against what its name promises.
*/
module SgmlPositions {
  import opened QtText
  import opened TreeShape
  import opened SgmlModel
  import opened SgmlSpans
  import opened SgmlAttributes
  import opened SgmlScan
  import opened SgmlOutcomes

  /** An end tag with this name stands at pos. */
  ghost predicate EndTagAt(s: string, pos: int, len: int, name: string) {
    && 0 <= pos && len > 2 && pos + len <= |s|
    && s[pos] == '<' && s[pos + 1] == '/' && s[pos + len - 1] == '>'
    && IsNameOf(s[pos + 1..pos + len - 1], name)
  }

  ghost predicate IsNameOf(inner: string, name: string) {
    ParseTag(Trim(inner)).Some? && ParseTag(Trim(inner)).value.0 == name
  }

  /** The positions of x are those of its markup in s. */
  ghost predicate OnMarkup(s: string, x: Info) {
    && 0 <= x.startPos < x.StartEnd() <= |s|
    && 0 <= x.endPos < x.SpanEnd() <= |s|
    && (if x.kind == Cdata then x.value == Trim(s[x.startPos..x.StartEnd()]) && x.value != []
        else s[x.startPos] == '<' && s[x.StartEnd() - 1] == '>')
    && (x.Closed() ==> EndTagAt(s, x.endPos, x.endLen, x.name))
  }

  ghost predicate OnMarkupAt(s: string, d: Doc, i: int)
    requires 0 <= i < |d.info|
  {
    OnMarkup(s, d.info[i])
  }

  ghost predicate AllOnMarkup(s: string, d: Doc) {
    forall i :: 0 < i < |d.info| ==> OnMarkupAt(s, d, i)
  }

  lemma DemoteToOnMarkup(s: string, d: Doc, t: int)
    requires Valid(d) && 0 <= t && Anc(d.par, t, d.cur) && AllOnMarkup(s, d)
    requires forall i :: 0 < i < |d.info| && Anc(d.par, i, d.cur) ==> d.info[i].kind == StartTag
    ensures AllOnMarkup(s, DemoteTo(d, t))
    ensures t < |d.info| && |DemoteTo(d, t).info| == |d.info| && DemoteTo(d, t).info[t] == d.info[t]
  {
    DemoteToIsDemoted(d, t);
    assert !OpenBelow(d, t, t);
    var e := Demoted(d, t);
    forall i | 0 < i < |e.info| ensures OnMarkupAt(s, e, i) {
      assert OnMarkupAt(s, d, i);
      DemotedOnMarkup(s, d.info[i]);
    }
  }

  lemma DemotedOnMarkup(s: string, x: Info)
    requires OnMarkup(s, x)
    ensures x.kind == StartTag ==> OnMarkup(s, x.(kind := Standalone))
  {
  }

  lemma ClosedOnMarkup(s: string, x: Info, pos: int, len: int)
    requires OnMarkup(s, x) && x.kind == StartTag && x.startPos < pos
    requires EndTagAt(s, pos, len, x.name)
    ensures OnMarkup(s, x.(endPos := pos, endLen := len))
    ensures OnMarkup(s, x.(endPos := pos, endLen := len, kind := StartEmpty))
  {
    hide IsNameOf;
  }

  lemma CloseTopOnMarkup(s: string, d: Doc, pos: int, len: int)
    requires Valid(d) && d.cur > 0 && AllOnMarkup(s, d)
    requires d.info[d.cur].kind == StartTag && d.info[d.cur].startPos < pos
    requires EndTagAt(s, pos, len, d.info[d.cur].name)
    ensures AllOnMarkup(s, CloseTop(d, pos, len))
  {
    var e := CloseTop(d, pos, len);
    forall i | 0 < i < |e.info| ensures OnMarkupAt(s, e, i) {
      assert OnMarkupAt(s, d, i);
      if i == d.cur { ClosedOnMarkup(s, d.info[i], pos, len); }
    }
  }

  lemma LaminarOpenAreStartTags(d: Doc, pos: int)
    requires Laminar(d, pos)
    ensures forall i :: 0 < i < |d.info| && Anc(d.par, i, d.cur) ==> d.info[i].kind == StartTag
    ensures forall i :: 0 < i < |d.info| ==> d.info[i].startPos < pos
  {
    forall i | 0 < i < |d.info| ensures d.info[i].startPos < pos
      ensures Anc(d.par, i, d.cur) ==> d.info[i].kind == StartTag
    {
      assert Placed(d, pos, i);
    }
  }

  /** What holds between two passes of the loop. */
  ghost predicate Tidy(s: string, d: Doc, end: int) {
    && Laminar(d, end + 1)
    && AllOnMarkup(s, d)
    && -1 <= end < |s| && (end >= 0 ==> s[end] == '>')
  }

  lemma TidyLeaf(s: string, d: Doc, q: int, x: Info, open: bool)
    requires Laminar(d, q) && AllOnMarkup(s, d) && OnMarkup(s, x) && Fresh(x) && x.startPos == q
    requires if open then x.kind == StartTag else x.kind !in {StartTag, StartEmpty, VirtualBeginTag, VirtualEndTag}
    ensures var e := if open then AddOpen(d, x) else AddLeaf(d, x); Laminar(e, x.SpanEnd()) && AllOnMarkup(s, e)
  {
    LaminarAdd(d, q, x, open);
    var e := if open then AddOpen(d, x) else AddLeaf(d, x);
    forall i | 0 < i < |e.info| ensures OnMarkupAt(s, e, i) {
      assert i < |d.info| ==> OnMarkupAt(s, d, i);
    }
  }

  lemma TidyCdata(s: string, d: Doc, end: int, q: int)
    requires Laminar(d, end + 1) && AllOnMarkup(s, d) && -1 <= end < q < |s| && end + 1 < q
    ensures Laminar(HandleCdata(s, d, q, end), q) && AllOnMarkup(s, HandleCdata(s, d, q, end))
  {
    var text := Trim(Mid(s, end + 1, q - (end + 1)));
    if text == [] {
      LaminarLater(d, end + 1, q);
    } else {
      TidyLeaf(s, d, end + 1, Span(Cdata, [], [], text, end + 1, q - (end + 1)), false);
    }
  }

  lemma TidyComment(s: string, d: Doc, q: nat)
    requires Laminar(d, q) && AllOnMarkup(s, d) && MarkupCloses(s) && At(s, "<!--", q)
    ensures var r := HandleComment(s, d, q); r.Next? && Laminar(r.doc, r.end + 1) && AllOnMarkup(s, r.doc)
    ensures var r := HandleComment(s, d, q); r.end == r.pos < |s| && s[r.pos] == '>'
  {
    hide IsNameOf, Trim, Mid, Laminar, AllOnMarkup;
    var e := Find(s, "-->", q + 4);
    assert !Unclosed(s, q);
    assert s[q..q + 4][0] == '<' && s[e..e + 3][2] == '>';
    TidyLeaf(s, d, q, Span(Comment, [], [], Trim(Mid(s, q + 4, e - (q + 4))), q, e - q + 3), false);
  }

  lemma TidyDoctype(s: string, d: Doc, q: nat)
    requires Laminar(d, q) && AllOnMarkup(s, d) && q + 1 < |s| && s[q] == '<' && s[q + 1] == '!'
    requires FindEnd(s, q) != OpenQuote('\"')
    ensures var r := HandleDoctype(s, d, q); r.Next? ==> Laminar(r.doc, r.end + 1) && AllOnMarkup(s, r.doc)
    ensures var r := HandleDoctype(s, d, q); r.Next? ==> r.end == r.pos < |s| && s[r.pos] == '>'
  {
    hide Laminar, AllOnMarkup, Preorder, Anc, Trim;
    var f := FindEnd(s, q);
    if f.EndAt? {
      TidyLeaf(s, d, q, Span(Doctype, [], [], Trim(Mid(s, q + 2, f.p - q - 2)), q, f.p - q + 1), false);
    }
  }

  lemma LaminarIsValid(d: Doc, q: int)
    requires Laminar(d, q)
    ensures Valid(d)
  {
  }

  /** The record that a start tag adds. */
  function StartInfo(s: string, q: nat, e: nat): Info
    requires 0 < e <= |s|
  {
    var inner := Trim(Mid(s, q + 1, e - q - 1));
    var standalone := s[e - 1] == '/';
    var tag := ParseTag(if standalone then Left(inner, |inner| - 1) else inner);
    var t := if tag.Some? then tag.value else ("", []);
    Span(if standalone then Standalone else StartTag, t.0, t.1, [], q, e - q + 1)
  }

  lemma StartTagGives(s: string, d: Doc, q: nat)
    requires Valid(d) && q < |s| && s[q] == '<' && FindEnd(s, q).EndAt? && HandleStartTag(s, d, q).Next?
    ensures var e := FindEnd(s, q).p;
            && e > 0
            && HandleStartTag(s, d, q) ==
               Next(if s[e - 1] == '/' then AddLeaf(d, StartInfo(s, q, e)) else AddOpen(d, StartInfo(s, q, e)), e, e)
  {
    hide ParseTag, Valid, Trim, Mid, Left, FindEnd, AddLeaf, AddOpen;
  }

  lemma NextHasEnd(s: string, d: Doc, q: nat)
    requires Valid(d) && q < |s| && s[q] == '<' && FindEnd(s, q) != OpenQuote('\"')
    ensures HandleStartTag(s, d, q).Next? || (HandleEndTag(s, d, q).Next? && q + 1 < |s| && s[q + 1] == '/') ==>
      FindEnd(s, q).EndAt? && q + 1 < FindEnd(s, q).p
  {
    hide HandleStartTag, HandleEndTag, FindEnd;
    if HandleStartTag(s, d, q).Next? { StartTagAdvances(s, d, q); StartTagEnds(s, d, q); }
    if HandleEndTag(s, d, q).Next? && q + 1 < |s| && s[q + 1] == '/' { EndTagAdvances(s, d, q); EndTagEnds(s, d, q); }
  }

  lemma StartTagEnds(s: string, d: Doc, q: nat)
    requires Valid(d) && q < |s| && s[q] == '<' && FindEnd(s, q) != OpenQuote('\"') && HandleStartTag(s, d, q).Next?
    ensures FindEnd(s, q) == EndAt(HandleStartTag(s, d, q).pos)
  {
    hide ParseTag, Valid, Trim, Mid, Left, FindEnd, AddLeaf, AddOpen;
  }

  lemma EndTagEnds(s: string, d: Doc, q: nat)
    requires Valid(d) && FindEnd(s, q) != OpenQuote('\"') && HandleEndTag(s, d, q).Next?
    ensures FindEnd(s, q) == EndAt(HandleEndTag(s, d, q).pos)
  {
    hide ParseTag, Valid, Trim, Mid, FindEnd, ReadEnd;
  }

  lemma TidyStartTag(s: string, d: Doc, q: nat)
    requires Laminar(d, q) && AllOnMarkup(s, d) && q < |s| && s[q] == '<'
    requires FindEnd(s, q) != OpenQuote('\"')
    ensures var r := HandleStartTag(s, d, q); r.Next? ==> Laminar(r.doc, r.end + 1) && AllOnMarkup(s, r.doc)
    ensures var r := HandleStartTag(s, d, q); r.Next? ==> r.end == r.pos < |s| && s[r.pos] == '>'
  {
    hide HandleStartTag, Laminar, AllOnMarkup, Valid, FindEnd, ParseTag, Trim, Mid, Left;
    LaminarIsValid(d, q);
    if HandleStartTag(s, d, q).Next? {
      NextHasEnd(s, d, q);
      StartTagGives(s, d, q);
      var e := FindEnd(s, q).p;
      TidyLeaf(s, d, q, StartInfo(s, q, e), s[e - 1] != '/');
    }
  }

  lemma MidBetween(s: string, a: nat, e: nat)
    requires a <= e <= |s|
    ensures Mid(s, a, e - a) == s[a..e]
  {
  }

  /** The end tag that is read. */
  lemma EndTagGives(s: string, d: Doc, q: nat, e: nat, inner: string)
    requires Valid(d) && FindEnd(s, q) == EndAt(e) && HandleEndTag(s, d, q).Next?
    requires inner == Trim(Mid(s, q + 1, e - q - 1))
    ensures ParseTag(inner).Some? && EndTagReads(HandleEndTag(s, d, q), d, ParseTag(inner).value.0, q, e)
  {
    hide ParseTag, Valid, Trim, ReadEnd, FindEnd, Mid;
  }

  ghost predicate EndTagReads(r: Outcome, d: Doc, name: string, q: nat, e: nat)
    requires Valid(d)
  {
    var f := ReadEnd(d, name, q, e - q + 1);
    f.Ended? && r == Next(f.doc, e, e)
  }

  lemma TidyEndTag(s: string, d: Doc, q: nat)
    requires Laminar(d, q) && AllOnMarkup(s, d) && q + 1 < |s| && s[q] == '<' && s[q + 1] == '/'
    requires FindEnd(s, q) != OpenQuote('\"')
    ensures var r := HandleEndTag(s, d, q); r.Next? ==> Laminar(r.doc, r.end + 1) && AllOnMarkup(s, r.doc)
    ensures var r := HandleEndTag(s, d, q); r.Next? ==> r.end == r.pos < |s| && s[r.pos] == '>'
  {
    hide HandleEndTag, ReadEnd, Laminar, AllOnMarkup, Valid, FindEnd, ParseTag, Trim, Mid;
    LaminarIsValid(d, q);
    if HandleEndTag(s, d, q).Next? {
      NextHasEnd(s, d, q);
      var e := FindEnd(s, q).p;
      MidBetween(s, q + 1, e);
      EndTagGives(s, d, q, e, Trim(s[q + 1..e]));
      var name := ParseTag(Trim(s[q + 1..e])).value.0;
      assert IsNameOf(s[q + 1..e], name);
      ReadEndTidy(s, d, q, e, name);
    }
  }

  lemma ReadEndTidy(s: string, d: Doc, q: nat, e: nat, name: string)
    requires Laminar(d, q) && AllOnMarkup(s, d) && q + 1 < e < |s| && s[q] == '<' && s[q + 1] == '/' && s[e] == '>'
    requires IsNameOf(s[q + 1..e], name)
    ensures var r := ReadEnd(d, name, q, e - q + 1);
            r.Ended? ==> Laminar(r.doc, e + 1) && AllOnMarkup(s, r.doc)
  {
    hide IsNameOf;
    var t := MatchUp(d, name, d.cur);
    if t > 0 {
      LaminarDemoteTo(d, q, t);
      LaminarOpenAreStartTags(d, q);
      DemoteToOnMarkup(s, d, t);
      var d1 := DemoteTo(d, t);
      LaminarClose(d1, q, q, e - q + 1);
      assert s[q + 1..q + (e - q + 1) - 1] == s[q + 1..e];
      CloseTopOnMarkup(s, d1, q, e - q + 1);
    }
  }

  lemma TidyMarkup(s: string, d: Doc, q: nat)
    requires Laminar(d, q) && AllOnMarkup(s, d) && MarkupCloses(s) && q < |s| && s[q] == '<'
    ensures var r := HandleMarkup(s, d, q); r.Next? ==> r.pos == r.end && Tidy(s, r.doc, r.end)
  {
    hide HandleComment, HandleDoctype, HandleEndTag, HandleStartTag, IsNameOf, FindEnd, Laminar, AllOnMarkup,
        OpensComment;
    CommentStart(s, q);
    assert !QuoteOpen(s, q);
    if OpensComment(s, q) {
      IsComment(s, q);
      TidyComment(s, d, q);
    } else if q + 1 < |s| && s[q + 1] == '!' {
      TidyDoctype(s, d, q);
    } else if q + 1 < |s| && s[q + 1] == '/' {
      TidyEndTag(s, d, q);
    } else {
      TidyStartTag(s, d, q);
    }
  }

  lemma IsComment(s: string, q: nat)
    ensures OpensComment(s, q) <==> At(s, "<!--", q)
  {
  }

  /** The next markup starts behind the previous one, unless a script or style tag is unclosed. */
  lemma StartIsBehind(s: string, name: string, pos: nat, end: int)
    requires -1 <= end < |s| && (end >= 0 ==> s[end] == '>') && (pos == end || (pos == 0 && end == -1))
    ensures var q := FindStart(s, SkipException(s, name, pos)); q == -1 || end < q || |s| - 2 <= q
  {
    var skip := if ToLower(name) == "script" then "script" else "style";
    var f := Find(ToLower(s), "</" + skip, pos);
    if f >= 0 {
      assert ToLower(s)[f..f + |"</" + skip|][0] == '<';
      assert LowerChar(s[f]) == '<';
    }
  }

  /** One pass of the loop keeps the positions in order. */
  lemma TidyStep(s: string, d: Doc, pos: nat, end: int)
    requires Tidy(s, d, end) && MarkupCloses(s) && (pos == end || (pos == 0 && end == -1))
    ensures var r := ScanStep(s, d, pos, end); r.Next? ==> r.pos == r.end && Tidy(s, r.doc, r.end)
  {
    var q := FindStart(s, SkipException(s, d.info[d.cur].name, pos));
    if q != -1 {
      StartIsBehind(s, d.info[d.cur].name, pos, end);
      if q > end + 1 {
        TidyCdata(s, d, end, q);
        TidyMarkup(s, HandleCdata(s, d, q, end), q);
      } else if q == end + 1 {
        TidyMarkup(s, d, q);
      } else {
        MarkupAdvances(s, d, q);
      }
    }
  }

  /** A parsed document without its virtual end tag. */
  function BeforeEnd(d: Doc): Doc
    requires |d.par| > 0 && |d.info| > 0
  {
    Doc(d.par[..|d.par| - 1], d.info[..|d.info| - 1], d.cur)
  }

  /** The document is d with the virtual end tag behind it. */
  lemma BeforeFinish(d: Doc)
    ensures BeforeEnd(Finish(d)) == d
  {
  }

  /** A result of parsing s whose tags, up to the virtual end tag, are laminar and on their markup. */
  ghost predicate WellPlaced(s: string, r: Doc) {
    && |r.par| > 0 && |r.info| > 0
    && r == Finish(BeforeEnd(r))
    && Laminar(BeforeEnd(r), |s|)
    && AllOnMarkup(s, BeforeEnd(r))
  }

  lemma FinishIsWellPlaced(s: string, d: Doc, pos: int)
    requires Laminar(d, pos) && pos <= |s| && AllOnMarkup(s, d)
    ensures WellPlaced(s, Finish(d))
  {
    BeforeFinish(d);
    LaminarLater(d, pos, |s|);
  }

  lemma CompleteMarkup(s: string, d: Doc, q: nat)
    requires Valid(d) && q < |s| && s[q] == '<'
    ensures var r := HandleMarkup(s, d, q); r.Complete? ==> r.doc == Finish(d)
  {
  }

  lemma CompleteIsWellPlaced(s: string, d: Doc, pos: nat, end: int)
    requires Tidy(s, d, end) && MarkupCloses(s) && (pos == end || (pos == 0 && end == -1))
    ensures var r := ScanStep(s, d, pos, end); r.Complete? ==> WellPlaced(s, r.doc)
  {
    hide HandleMarkup, HandleCdata, WellPlaced;
    var q := FindStart(s, SkipException(s, d.info[d.cur].name, pos));
    FinishIsWellPlaced(s, d, end + 1);
    if q > end + 1 {
      TidyCdata(s, d, end, q);
      FinishIsWellPlaced(s, HandleCdata(s, d, q, end), q);
      CompleteMarkup(s, HandleCdata(s, d, q, end), q);
    } else if q != -1 {
      CompleteMarkup(s, d, q);
    }
  }

  lemma TidyIsValid(s: string, d: Doc, end: int)
    requires Tidy(s, d, end)
    ensures Valid(d)
  {
  }

  /** Whatever text is parsed: if its comments and double quotes are closed, then in the parsed
      document the virtual end tag comes last and is the only one, spans are laminar and lie on their
      markup. */
  lemma {:induction false} ParsedIsWellPlaced(s: string, d: Doc, pos: nat, end: int)
    requires Tidy(s, d, end) && MarkupCloses(s) && (pos == end || (pos == 0 && end == -1))
    ensures var r := Parse(s, d, pos, end); r.Parsed? ==> WellPlaced(s, r.doc)
    decreases |s| - pos
  {
    hide WellPlaced, ScanStep, MarkupCloses, Laminar, AllOnMarkup, Finish;
    TidyIsValid(s, d, end);
    var r := ScanStep(s, d, pos, end);
    match r {
      case Next(d1, pos1, end1) =>
        TidyStep(s, d, pos, end);
        StepAdvancesClosed(s, d, pos, end);
        ParsedIsWellPlaced(s, d1, pos1, end1);
      case Complete(d1) => CompleteIsWellPlaced(s, d, pos, end);
      case _ =>
    }
  }

  lemma TextIsWellPlaced(s: string)
    requires MarkupCloses(s)
    ensures ParseText(s).Parsed? ==> WellPlaced(s, ParseText(s).doc)
  {
    if s == [] {
      FinishIsWellPlaced(s, EMPTY_DOC, 0);
    } else {
      ParsedIsWellPlaced(s, EMPTY_DOC, 0, -1);
    }
  }

  /** Every text in which each '<' begins whole markup is read to the end, with its spans laminar
      and on their markup. */
  lemma WellFormedIsWellPlaced(s: string)
    requires WellFormed(s)
    ensures ParseText(s).Parsed? && WellPlaced(s, ParseText(s).doc)
  {
    hide ParseText, WellPlaced, WellFormed;
    WellFormedIsParsed(s);
    TextIsWellPlaced(s);
  }

  // ----- the inner text of a tag

  function InnerText(s: string, x: Info): string {
    if x.kind == Standalone then ""
    else if x.startPos > 0 && x.endPos > 0 then Mid(s, x.StartEnd(), x.endPos - x.startPos - x.startLen)
    else ""
  }

  /** getInnerText answers the text between the tags of a closed tag exactly when the tag does not
      start the document (or there is nothing between its tags). */
  lemma InnerTextOfClosed(s: string, r: Doc, i: int)
    requires WellPlaced(s, r) && 0 < i < |r.par| - 1 && r.info[i].Closed()
    ensures var x := r.info[i];
            && 0 <= x.StartEnd() <= x.endPos <= |s|
            && (InnerText(s, x) == s[x.StartEnd()..x.endPos] <==> x.startPos > 0 || x.StartEnd() == x.endPos)
  {
    hide IsNameOf;
    var d := BeforeEnd(r);
    assert Placed(d, |s|, i) && OnMarkupAt(s, d, i);
    assert r.info[i] == d.info[i];
  }

  /** For a tag that was never closed getInnerText answers everything behind its start tag, up to
      the end of the document. */
  lemma InnerTextOfOpen(s: string, r: Doc, i: int)
    requires WellPlaced(s, r) && 0 < i < |r.par| - 1 && !r.info[i].Closed()
    requires r.info[i].kind != Standalone && r.info[i].startPos > 0
    ensures 0 <= r.info[i].StartEnd() <= |s|
    ensures InnerText(s, r.info[i]) == s[r.info[i].StartEnd()..]
  {
    hide IsNameOf;
    var d := BeforeEnd(r);
    assert Placed(d, |s|, i) && OnMarkupAt(s, d, i);
    assert r.info[i] == d.info[i];
  }

  /** The tags below a closed tag are those whose markup lies in its inner text. */
  lemma InnerTextHoldsDescendants(s: string, r: Doc, i: int, j: int)
    requires WellPlaced(s, r) && 0 < i < |r.par| - 1 && 0 < j < |r.par| - 1 && r.info[i].Closed()
    ensures var x, y := r.info[i], r.info[j];
            i != j && Anc(r.par, i, j) <==> x.StartEnd() <= y.startPos < x.endPos
    ensures i != j && Anc(r.par, i, j) ==> r.info[j].SpanEnd() <= r.info[i].endPos
  {
    hide IsNameOf;
    var d := BeforeEnd(r);
    assert Placed(d, |s|, i) && Placed(d, |s|, j);
    AncPrefix(d.par, d.cur, i, j);
    if i < j { assert Nested(d, i, j); }
    if j < i { assert Nested(d, j, i); }
  }
}
