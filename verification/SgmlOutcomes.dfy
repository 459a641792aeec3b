/**
  How one pass of the loop of QSgml::String2Sgml ends, read off the text and the names of the open
  tags, and a class of texts on which the whole loop ends with the virtual end tag in place.
*/
module SgmlOutcomes {
  import opened QtText
  import opened TreeShape
  import opened SgmlModel
  import opened SgmlAttributes
  import opened SgmlScan
  import opened SgmlOpenNames

  // ----- the end of a tag

  /** The quote that is open before character k when nothing is open before character i. */
  function QuoteAt(s: string, i: nat, k: nat): Option<char>
    requires k <= |s|
  {
    if k <= i then None
    else
      match QuoteAt(s, i, k - 1)
      case None => if s[k - 1] == '\'' || s[k - 1] == '\"' then Some(s[k - 1]) else None
      case Some(c) => if s[k - 1] == c then None else Some(c)
  }

  /** No '>' stands outside quotes from i up to n. */
  ghost predicate NoneBefore(s: string, i: nat, n: nat)
    requires n <= |s|
  {
    forall k :: i <= k < n && QuoteAt(s, i, k).None? ==> s[k] != '>'
  }

  lemma {:induction false} QuoteFrom(s: string, i: nat, j: nat, k: nat)
    requires i <= j <= k <= |s| && QuoteAt(s, i, j).None?
    ensures QuoteAt(s, i, k) == QuoteAt(s, j, k)
    decreases k
  {
    if j < k { QuoteFrom(s, i, j, k - 1); }
  }

  lemma {:induction false} QuoteStays(s: string, i: nat, k: nat)
    requires i < k <= |s| && (s[i] == '\'' || s[i] == '\"') && forall m :: i < m < k ==> s[m] != s[i]
    ensures QuoteAt(s, i, k) == Some(s[i])
    decreases k
  {
    if i + 1 < k { QuoteStays(s, i, k - 1); } else { assert QuoteAt(s, i, i).None?; }
  }

  /** From i on the answer is that from j on when nothing ends in between. */
  lemma NoneBeforeFrom(s: string, i: nat, j: nat)
    requires i < j <= |s| && QuoteAt(s, i, j).None? && NoneBefore(s, i, j)
    ensures forall n :: j <= n <= |s| ==> (NoneBefore(s, i, n) <==> NoneBefore(s, j, n))
    ensures forall n :: j <= n <= |s| ==> QuoteAt(s, i, n) == QuoteAt(s, j, n)
  {
    forall n | j <= n <= |s| ensures QuoteAt(s, i, n) == QuoteAt(s, j, n) { QuoteFrom(s, i, j, n); }
  }

  ghost predicate IsFirstEnd(s: string, i: nat, r: FindEndResult) {
    match r
    case EndAt(p) => i <= p < |s| && s[p] == '>' && QuoteAt(s, i, p).None? && NoneBefore(s, i, p)
    case NoEnd => NoneBefore(s, i, |s|) && QuoteAt(s, i, |s|).None?
    case OpenQuote(c) => NoneBefore(s, i, |s|) && QuoteAt(s, i, |s|) == Some(c)
  }

  /** FindEnd stops at the first '>' outside quotes; there is none exactly when it answers NoEnd, or
      OpenQuote when a quote is open at the end of the text. */
  lemma {:induction false} FindEndIsFirst(s: string, i: nat)
    requires i <= |s|
    ensures IsFirstEnd(s, i, FindEnd(s, i))
    ensures forall r :: IsFirstEnd(s, i, r) ==> r == FindEnd(s, i)
    decreases |s| - i
  {
    if i < |s| && s[i] != '>' {
      if s[i] == '\'' || s[i] == '\"' {
        var c := FindChar(s, s[i], i + 1);
        if c == -1 {
          forall k | i < k <= |s| ensures QuoteAt(s, i, k) == Some(s[i]) { QuoteStays(s, i, k); }
        } else {
          forall k | i < k <= c ensures QuoteAt(s, i, k) == Some(s[i]) { QuoteStays(s, i, k); }
          assert QuoteAt(s, i, c + 1).None?;
          Further(s, i, c + 1);
        }
      } else {
        assert QuoteAt(s, i, i).None? && QuoteAt(s, i, i + 1).None?;
        Further(s, i, i + 1);
      }
    }
    OneFirstEnd(s, i);
  }

  lemma {:induction false} Further(s: string, i: nat, j: nat)
    requires i < j <= |s| && QuoteAt(s, i, j).None? && NoneBefore(s, i, j) && FindEnd(s, i) == FindEnd(s, j)
    ensures IsFirstEnd(s, i, FindEnd(s, i))
    decreases |s| - i, 0
  {
    hide FindEnd, QuoteAt, NoneBefore;
    FindEndIsFirst(s, j);
    NoneBeforeFrom(s, i, j);
  }

  lemma OneFirstEnd(s: string, i: nat)
    requires i <= |s|
    ensures forall r, q :: IsFirstEnd(s, i, r) && IsFirstEnd(s, i, q) ==> r == q
  {
    hide QuoteAt;
  }

  // ----- what the markup at a '<' is

  predicate OpensDoctype(s: string, q: nat) { q + 1 < |s| && s[q + 1] == '!' && !OpensComment(s, q) }
  predicate OpensEndTag(s: string, q: nat) { q + 1 < |s| && s[q + 1] == '/' }
  predicate OpensStartTag(s: string, q: nat) { q + 1 < |s| && s[q + 1] != '/' && s[q + 1] != '!' }

  /** The text reaches far enough behind the '<' to tell what it is. */
  predicate LongEnough(s: string, q: nat) {
    q + 1 < |s| && (s[q + 1] == '!' ==> q + 2 < |s| && (s[q + 2] == '-' ==> q + 3 < |s|))
  }

  /** The character in front of the '>' is a slash. */
  predicate IsStandalone(s: string, q: nat) {
    var f := TagEnd(s, q);
    f.EndAt? && f.p > 0 && s[f.p - 1] == '/'
  }

  /** Name and attributes of the tag at q, if its text can be read. */
  function TagAt(s: string, q: nat): Option<(string, Attributes)> {
    var f := TagEnd(s, q);
    var e := if f.EndAt? then f.p else -1;
    var inner := Trim(Mid(s, q + 1, e - q - 1));
    ParseTag(if !OpensEndTag(s, q) && IsStandalone(s, q) then Left(inner, |inner| - 1) else inner)
  }

  /** The program reads outside a string, or searches for ever, at the markup at q. */
  predicate Unreadable(s: string, q: nat) {
    || !LongEnough(s, q)
    || (!OpensComment(s, q) && TagEnd(s, q).OpenQuote?)
    || (OpensStartTag(s, q) && (TagEnd(s, q).NoEnd? || TagEnd(s, q) == EndAt(0)))
    || ((OpensStartTag(s, q) || OpensEndTag(s, q)) && TagAt(s, q).None?)
  }

  // ----- a pass on the names of the open tags

  datatype Move = Goes(names: seq<string>, pos: int) | Ends | Cuts | Breaks

  function MoveOf(r: Outcome): Move {
    match r
    case Next(d, pos, _) => Goes(OpenNames(d), pos)
    case Complete(_) => Ends
    case CutOff(_) => Cuts
    case Undefined => Breaks
  }

  function MarkupMove(s: string, names: seq<string>, q: nat): Move {
    if Unreadable(s, q) then Breaks
    else if OpensComment(s, q) then Goes(names, Find(s, "-->", q + 4) + 2)
    else
      var f := TagEnd(s, q);
      if OpensEndTag(s, q) && TagAt(s, q).value.0 !in names then Ends
      else if !f.EndAt? then Cuts
      else if OpensDoctype(s, q) then Goes(names, f.p)
      else if OpensEndTag(s, q) then Goes(PopTo(names, TagAt(s, q).value.0), f.p)
      else Goes(if IsStandalone(s, q) then names else names + [TagAt(s, q).value.0], f.p)
  }

  /** The name of the current tag. */
  function Current(names: seq<string>): string {
    if names == [] then DOC_INFO.name else names[|names| - 1]
  }

  /** The '<' that a pass finds. */
  function Found(s: string, names: seq<string>, pos: nat): int {
    FindStart(s, SkipException(s, Current(names), pos))
  }

  function PassMove(s: string, names: seq<string>, pos: nat): Move {
    var q := Found(s, names, pos);
    if q == -1 then Ends else MarkupMove(s, names, q)
  }

  /** The document tag is the one that the parser starts with. */
  ghost predicate Rooted(d: Doc) { Valid(d) && d.info[0].name == DOC_INFO.name }

  lemma StartTagMove(s: string, d: Doc, q: nat)
    requires Valid(d) && q < |s| && s[q] == '<' && OpensStartTag(s, q)
    ensures MoveOf(HandleStartTag(s, d, q)) == MarkupMove(s, OpenNames(d), q)
  {
    hide ParseTag, OpenNames, Trim, Mid, Left, TagEnd, Valid, AddLeaf, AddOpen, Find, OpensComment;
    CommentStart(s, q);
    var f := TagEnd(s, q);
    if f.EndAt? && TagAt(s, q).Some? {
      var tag := TagAt(s, q).value;
      var x := Span(if IsStandalone(s, q) then Standalone else StartTag, tag.0, tag.1, [], q, f.p - q + 1);
      LeafKeepsNames(d, x);
      OpenAddsName(d, x);
    }
  }

  lemma EndTagMove(s: string, d: Doc, q: nat)
    requires Valid(d) && q < |s| && s[q] == '<' && OpensEndTag(s, q)
    ensures MoveOf(HandleEndTag(s, d, q)) == MarkupMove(s, OpenNames(d), q)
  {
    hide ParseTag, OpenNames, Trim, Mid, Left, TagEnd, Valid, ReadEnd, PopTo, Find, OpensComment;
    CommentStart(s, q);
    var f := TagEnd(s, q);
    var e := if f.EndAt? then f.p else -1;
    if TagAt(s, q).Some? { EndTagPops(d, TagAt(s, q).value.0, q, e - q + 1); }
  }

  lemma DoctypeMove(s: string, d: Doc, q: nat)
    requires Valid(d) && q < |s| && s[q] == '<' && OpensDoctype(s, q) && LongEnough(s, q)
    ensures MoveOf(HandleDoctype(s, d, q)) == MarkupMove(s, OpenNames(d), q)
  {
    hide OpenNames, Trim, Mid, MidAll, TagEnd, Valid, AddLeaf;
    forall x: Info ensures OpenNames(AddLeaf(d, x)) == OpenNames(d) { LeafKeepsNames(d, x); }
  }

  lemma CommentMove(s: string, d: Doc, q: nat)
    requires Valid(d) && OpensComment(s, q)
    ensures MoveOf(HandleComment(s, d, q)) == Goes(OpenNames(d), Find(s, "-->", q + 4) + 2)
  {
    hide OpenNames, Trim, Mid, Find, Valid, AddLeaf;
    forall x: Info ensures OpenNames(AddLeaf(d, x)) == OpenNames(d) { LeafKeepsNames(d, x); }
  }

  lemma MarkupIsMove(s: string, d: Doc, q: nat)
    requires Valid(d) && q < |s| && s[q] == '<'
    ensures MoveOf(HandleMarkup(s, d, q)) == MarkupMove(s, OpenNames(d), q)
  {
    hide HandleComment, HandleDoctype, HandleEndTag, HandleStartTag, OpenNames, TagEnd, Find, Valid, TagAt, PopTo,
        IsStandalone;
    CommentStart(s, q);
    if LongEnough(s, q) {
      if OpensComment(s, q) { CommentMove(s, d, q); }
      else if OpensDoctype(s, q) { DoctypeMove(s, d, q); }
      else if OpensEndTag(s, q) { EndTagMove(s, d, q); }
      else { StartTagMove(s, d, q); }
    }
  }

  lemma CurrentIs(d: Doc)
    requires Rooted(d)
    ensures Current(OpenNames(d)) == d.info[d.cur].name
  {
    hide HangsOnSpine, OpenNames, Anc;
    CurrentName(d);
  }

  /** A pass looks at the text, the names of the open tags and the cursor, and at nothing else. */
  lemma PassIsMove(s: string, d: Doc, pos: nat, end: int)
    requires Rooted(d)
    ensures MoveOf(ScanStep(s, d, pos, end)) == PassMove(s, OpenNames(d), pos)
  {
    hide HandleMarkup, MarkupMove, OpenNames, Valid, FindStart, SkipException, AddLeaf, Trim, Mid;
    CurrentIs(d);
    var q := Found(s, OpenNames(d), pos);
    if q != -1 {
      MarkupIsMove(s, d, q);
      MarkupIsMove(s, HandleCdata(s, d, q, end), q);
      forall x: Info ensures OpenNames(AddLeaf(d, x)) == OpenNames(d) { LeafKeepsNames(d, x); }
    }
  }

  // ----- how a pass ends

  ghost predicate IsOutcome(s: string, names: seq<string>, q: int, r: Outcome) {
    && (r.Undefined? <==> q >= 0 && Unreadable(s, q))
    && (r.CutOff? <==> q >= 0 && !Unreadable(s, q) && !OpensComment(s, q) && TagEnd(s, q).NoEnd?
                       && (OpensEndTag(s, q) ==> TagAt(s, q).value.0 in names))
    && (r.Complete? <==> q == -1 || (q >= 0 && !Unreadable(s, q) && OpensEndTag(s, q) && TagAt(s, q).value.0 !in names))
  }

  lemma MarkupOutcome(s: string, d: Doc, q: nat)
    requires Valid(d) && q < |s| && s[q] == '<'
    ensures IsOutcome(s, OpenNames(d), q, HandleMarkup(s, d, q))
  {
    hide HandleMarkup, TagAt, TagEnd, Find, Valid, OpenNames;
    MarkupIsMove(s, d, q);
    CommentStart(s, q);
  }

  /** A pass reads outside a string or searches for ever, is cut off without a virtual end tag, or
      ends the document, exactly when the text at the '<' it finds says so: unreadable markup; a
      doctype without '>', or an end tag without '>' whose name is open; an end tag whose name is not
      open.  (BacksUpExactly says when it goes back.) */
  lemma PassOutcome(s: string, d: Doc, pos: nat, end: int)
    requires Valid(d)
    ensures IsOutcome(s, OpenNames(d), FindStart(s, SkipException(s, d.info[d.cur].name, pos)),
            ScanStep(s, d, pos, end))
  {
    hide HandleMarkup, Unreadable, TagAt, OpensComment, OpensEndTag, TagEnd, OpenNames, Preorder, Anc, FindStart,
        SkipException, AddLeaf, Trim, Mid;
    var q := FindStart(s, SkipException(s, d.info[d.cur].name, pos));
    if q != -1 {
      MarkupOutcome(s, d, q);
      MarkupOutcome(s, HandleCdata(s, d, q, end), q);
      forall x: Info ensures OpenNames(AddLeaf(d, x)) == OpenNames(d) { LeafKeepsNames(d, x); }
    }
  }

  // ----- texts that are read to the end

  /** The markup at q can be read and has an end. */
  predicate Whole(s: string, q: nat) {
    !Unreadable(s, q) && !Unclosed(s, q) && (OpensComment(s, q) || FindEnd(s, q).EndAt?)
  }

  ghost predicate WellFormed(s: string) {
    forall q :: 0 <= q < |s| && s[q] == '<' ==> Whole(s, q)
  }

  lemma {:induction false} WellFormedEnds(s: string, d: Doc, pos: nat, end: int)
    requires Valid(d) && pos <= |s| && WellFormed(s)
    ensures Parse(s, d, pos, end).Parsed?
    decreases |s| - pos
  {
    hide ScanStep, Whole, Unclosed, QuoteOpen, OpenNames, Preorder, Anc, SkipException, IsOutcome, FindEnd;
    var q := FindStart(s, SkipException(s, d.info[d.cur].name, pos));
    PassOutcome(s, d, pos, end);
    StepAdvances(s, d, pos, end);
    if q >= 0 {
      WholeOutcome(s, OpenNames(d), q, ScanStep(s, d, pos, end));
    } else {
      EndOutcome(s, OpenNames(d), ScanStep(s, d, pos, end));
    }
    var r := ScanStep(s, d, pos, end);
    if r.Next? { WellFormedEnds(s, r.doc, r.pos, r.end); }
  }

  lemma WholeOutcome(s: string, names: seq<string>, q: nat, r: Outcome)
    requires q < |s| && s[q] == '<' && Whole(s, q) && IsOutcome(s, names, q, r)
    ensures r.Next? || r.Complete?
    ensures !Unclosed(s, q) && !QuoteOpen(s, q)
  {
    hide Unreadable, Unclosed, OpensComment, TagAt, FindEnd;
  }

  lemma EndOutcome(s: string, names: seq<string>, r: Outcome)
    requires IsOutcome(s, names, -1, r)
    ensures r.Complete?
  {
  }

  /** A text in which every '<' begins whole markup is read to the end, and its virtual end tag,
      the only one, comes last. */
  lemma WellFormedIsParsed(s: string)
    requires WellFormed(s)
    ensures ParseText(s).Parsed? && Passes(s, EMPTY_DOC, 0, -1, |s| + 1) == Over(ParseText(s))
    ensures exists e :: NoVirtualEnd(e) && Valid(e) && ParseText(s).doc == Finish(e)
    ensures MarkupCloses(s)
  {
    hide Parse, Passes, Whole, Finish;
    WellFormedEnds(s, EMPTY_DOC, 0, -1);
    ParseIsPasses(s, EMPTY_DOC, 0, -1, |s| + 1);
    EndTagComesLast(s, 0);
    forall q ensures !Unclosed(s, q) && !QuoteOpen(s, q) {
      if Unclosed(s, q) { CommentBegins(s, q); }
      if 0 <= q < |s| { WholeIsClosed(s, q); }
    }
  }

  lemma CommentBegins(s: string, q: int)
    requires Unclosed(s, q)
    ensures 0 <= q < |s| && s[q] == '<'
  {
    assert s[q..q + 4][0] == '<';
  }

  lemma WholeIsClosed(s: string, q: nat)
    ensures Whole(s, q) ==> !Unclosed(s, q) && !QuoteOpen(s, q)
  {
  }
}
