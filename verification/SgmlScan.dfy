/**
  The scanner: one pass of the loop of QSgml::String2Sgml (QSgml.cpp:570-639) as a function of
  the text, the document read so far and the cursor.  `pos` is iPos and `end` is iEnd.
*/
module SgmlScan {
  import opened QtText
  import opened SgmlModel
  import opened SgmlAttributes

  datatype FindEndResult = EndAt(p: nat) | NoEnd | OpenQuote(quote: char)

  /** The first '>' outside quotes, or the quote that is never closed. */
  function FindEnd(s: string, i: nat): (r: FindEndResult)
    ensures r.EndAt? ==> i <= r.p < |s| && s[r.p] == '>'
    decreases |s| - i
  {
    if i >= |s| then NoEnd
    else if s[i] == '>' then EndAt(i)
    else if s[i] == '\'' || s[i] == '\"' then
      var c := FindChar(s, s[i], i + 1);
      if c == -1 then OpenQuote(s[i]) else FindEnd(s, c + 1)
    else FindEnd(s, i + 1)
  }

  /** What the search for the '>' finds.  Behind a double quote that is never closed it starts again
      at character 0; if it comes to such a quote again it never ends, and behind a single quote that
      is never closed it reads outside the text: these two are OpenQuote. */
  function TagEnd(s: string, q: nat): (r: FindEndResult)
    ensures r.EndAt? ==> r.p < |s| && s[r.p] == '>'
  {
    if FindEnd(s, q) == OpenQuote('\"') then FindEnd(s, 0) else FindEnd(s, q)
  }

  datatype Outcome =
    | Next(doc: Doc, pos: nat, end: int)   // the loop goes on
    | Complete(doc: Doc)                   // the loop is left and the virtual end tag is in place
    | CutOff(doc: Doc)                     // the loop is left without a virtual end tag
    | Undefined                            // the program reads outside a string, or searches for ever
  {
    ghost predicate Sound() { Undefined? || (Valid(doc) && (Next? ==> pos >= 0)) }
  }

  const EXCEPTION_TAGS := ["script", "style"]

  function ClosePos(s: string, name: string, pos: nat): int {
    Find(ToLower(s), "</" + name, pos) - 1
  }

  /** Inside script and style the cursor moves to just before the end tag. */
  function SkipException(s: string, name: string, pos: nat): int {
    if ToLower(name) == "script" then ClosePos(s, "script", pos)
    else if ToLower(name) == "style" then ClosePos(s, "style", pos)
    else pos
  }

  /** indexOf with a start position that counts from the end when it is negative. */
  function FindStart(s: string, pos: int): (r: int)
    ensures r == -1 || (0 <= r < |s| && s[r] == '<')
  {
    FindChar(s, '<', if pos >= 0 then pos else if pos + |s| >= 0 then pos + |s| else 0)
  }

  function Span(kind: TagType, name: string, attributes: Attributes, value: string, pos: int, len: int): Info {
    Info(kind, name, attributes, value, pos, len, pos, len)
  }

  function HandleCdata(s: string, d: Doc, pos: int, end: int): (r: Doc)
    requires Valid(d)
    ensures Valid(r)
  {
    var text := Trim(Mid(s, end + 1, pos - (end + 1)));
    var x := Span(Cdata, [], [], text, end + 1, pos - (end + 1));
    AddKeepsValid(d, x);
    if text == [] then d else AddLeaf(d, x)
  }

  function HandleComment(s: string, d: Doc, pos: nat): (r: Outcome)
    requires Valid(d)
    ensures r.Sound()
  {
    var start := pos + 4;
    var e := Find(s, "-->", start);
    var x := Span(Comment, [], [], Trim(Mid(s, start, e - start)), start - 4, e - start + 7);
    AddKeepsValid(d, x);
    Next(AddLeaf(d, x), e + 2, e + 2)
  }

  function HandleDoctype(s: string, d: Doc, pos: nat): (r: Outcome)
    requires Valid(d)
    ensures r.Sound()
  {
    match TagEnd(s, pos)
    case OpenQuote(_) => Undefined
    case NoEnd =>
      var x := Span(Doctype, [], [], Trim(MidAll(s, pos + 2)), pos, 0 - pos);
      AddKeepsValid(d, x);
      CutOff(AddLeaf(d, x))
    case EndAt(e) =>
      var x := Span(Doctype, [], [], Trim(Mid(s, pos + 2, e - pos - 2)), pos, e - pos + 1);
      AddKeepsValid(d, x);
      Next(AddLeaf(d, x), e, e)
  }

  function HandleEndTag(s: string, d: Doc, pos: nat): (r: Outcome)
    requires Valid(d)
    ensures r.Sound()
  {
    var f := TagEnd(s, pos);
    if f.OpenQuote? then Undefined
    else
      var e := if f.EndAt? then f.p else -1;
      var tag := ParseTag(Trim(Mid(s, pos + 1, e - pos - 1)));
      if tag.None? then Undefined
      else
        match ReadEnd(d, tag.value.0, pos, e - pos + 1)
        case NoStartTag => AddKeepsValid(d, END_INFO); Complete(Finish(d))
        case Ended(d1) => if f.EndAt? then Next(d1, e, e) else CutOff(d1)
  }

  function HandleStartTag(s: string, d: Doc, pos: nat): (r: Outcome)
    requires Valid(d) && pos < |s| && s[pos] == '<'
    ensures r.Sound()
  {
    match TagEnd(s, pos)
    case OpenQuote(_) => Undefined
    case NoEnd => Undefined
    case EndAt(e) =>
      if e == 0 then Undefined
      else
        var inner := Trim(Mid(s, pos + 1, e - pos - 1));
        var standalone := s[e - 1] == '/';
        var tag := ParseTag(if standalone then Left(inner, |inner| - 1) else inner);
        if tag.None? then Undefined
        else
          var x := Span(if standalone then Standalone else StartTag, tag.value.0, tag.value.1, [], pos, e - pos + 1);
          AddKeepsValid(d, x);
          Next(if standalone then AddLeaf(d, x) else AddOpen(d, x), e, e)
  }

  /** The markup that starts with the '<' at q. */
  function HandleMarkup(s: string, d: Doc, q: nat): (r: Outcome)
    requires Valid(d) && q < |s| && s[q] == '<'
    ensures r.Sound()
  {
    if q + 1 >= |s| then Undefined
    else if s[q + 1] == '!' then
      if q + 2 >= |s| || (s[q + 2] == '-' && q + 3 >= |s|) then Undefined
      else if s[q + 2] == '-' && s[q + 3] == '-' then HandleComment(s, d, q)
      else HandleDoctype(s, d, q)
    else if s[q + 1] == '/' then HandleEndTag(s, d, q)
    else HandleStartTag(s, d, q)
  }

  /** One pass of the loop. */
  function ScanStep(s: string, d: Doc, pos: nat, end: int): (r: Outcome)
    requires Valid(d)
    ensures r.Sound()
  {
    var q := FindStart(s, SkipException(s, d.info[d.cur].name, pos));
    if q == -1 then AddKeepsValid(d, END_INFO); Complete(Finish(d))
    else HandleMarkup(s, if q > end + 1 then HandleCdata(s, d, q, end) else d, q)
  }

  // ----- the whole loop

  /** The loop as long as every pass moves the cursor forward. */
  datatype ParseResult = Parsed(doc: Doc) | Truncated(doc: Doc) | OutOfBounds | NoProgress

  function Parse(s: string, d: Doc, pos: nat, end: int): (r: ParseResult)
    requires Valid(d)
    ensures r.Parsed? || r.Truncated? ==> Valid(r.doc)
    decreases |s| - pos
  {
    match ScanStep(s, d, pos, end)
    case Undefined => OutOfBounds
    case CutOff(d1) => Truncated(d1)
    case Complete(d1) => Parsed(d1)
    case Next(d1, pos1, end1) =>
      if pos < pos1 <= |s| then Parse(s, d1, pos1, end1) else NoProgress
  }

  function ParseText(s: string): ParseResult { Parse(s, EMPTY_DOC, 0, -1) }

  /** Some number of passes, wherever the cursor goes. */
  datatype PassCount = Going(doc: Doc, pos: nat, end: int) | Over(result: ParseResult)

  function Passes(s: string, d: Doc, pos: nat, end: int, n: nat): (r: PassCount)
    requires Valid(d)
    ensures r.Going? ==> Valid(r.doc)
    decreases n
  {
    if n == 0 then Going(d, pos, end)
    else
      match ScanStep(s, d, pos, end)
      case Undefined => Over(OutOfBounds)
      case CutOff(d1) => Over(Truncated(d1))
      case Complete(d1) => Over(Parsed(d1))
      case Next(d1, pos1, end1) => Passes(s, d1, pos1, end1, n - 1)
  }

  /** What the loop yields when every pass moves forward is what it yields. */
  lemma {:induction false} ParseIsPasses(s: string, d: Doc, pos: nat, end: int, n: nat)
    requires Valid(d) && pos <= |s| && |s| - pos < n && !Parse(s, d, pos, end).NoProgress?
    ensures Passes(s, d, pos, end, n) == Over(Parse(s, d, pos, end))
    decreases n
  {
    hide ScanStep;
    var r := ScanStep(s, d, pos, end);
    if r.Next? { ParseIsPasses(s, r.doc, r.pos, r.end, n - 1); }
  }

  // ----- progress

  predicate OpensComment(s: string, q: nat) { At(s, "<!--", q) }

  /** A comment that is never closed begins at q. */
  predicate Unclosed(s: string, q: int) {
    q >= 0 && OpensComment(s, q) && Find(s, "-->", q + 4) == -1
  }

  /** Other markup begins at q, and a double quote in it is never closed. */
  predicate QuoteOpen(s: string, q: int) {
    0 <= q < |s| && s[q] == '<' && !OpensComment(s, q) && FindEnd(s, q) == OpenQuote('\"')
  }

  /** Comments and double quotes are closed. */
  ghost predicate MarkupCloses(s: string) {
    forall q :: !Unclosed(s, q) && !QuoteOpen(s, q)
  }

  lemma CommentAdvances(s: string, d: Doc, q: nat)
    requires Valid(d) && OpensComment(s, q)
    ensures var r := HandleComment(s, d, q);
            r.Next? && r.end == r.pos && if Unclosed(s, q) then r.pos == 1 else q + 2 <= r.pos < |s|
  {
  }

  /** The cursor behind markup at q that is not a comment: further on, or where the first '>' of the
      text is. */
  predicate ForwardTo(s: string, q: nat, pos: int) {
    if FindEnd(s, q) == OpenQuote('\"') then pos >= 0 && FindEnd(s, 0) == EndAt(pos) else q + 2 <= pos < |s|
  }

  lemma DoctypeAdvances(s: string, d: Doc, q: nat)
    requires Valid(d) && q + 1 < |s| && s[q] == '<' && s[q + 1] == '!'
    ensures var r := HandleDoctype(s, d, q); r.Next? ==> ForwardTo(s, q, r.pos) && r.end == r.pos
  {
    hide Trim, Mid, MidAll, Valid, AddLeaf;
  }

  lemma EndTagAdvances(s: string, d: Doc, q: nat)
    requires Valid(d) && q + 1 < |s| && s[q] == '<' && s[q + 1] == '/'
    ensures var r := HandleEndTag(s, d, q); r.Next? ==> ForwardTo(s, q, r.pos) && r.end == r.pos
  {
    hide ParseTag, ReadEnd, Trim, Mid, Valid;
  }

  lemma StartTagAdvances(s: string, d: Doc, q: nat)
    requires Valid(d) && q < |s| && s[q] == '<'
    ensures var r := HandleStartTag(s, d, q); r.Next? ==> ForwardTo(s, q, r.pos) && r.end == r.pos
  {
    hide ParseTag, Left, Valid, AddLeaf, AddOpen;
    NothingHasNoName();
    if FindEnd(s, q) == EndAt(q + 1) { assert Trim(Mid(s, q + 1, 0)) == []; }
  }

  lemma NothingHasNoName()
    ensures ParseTag([]).None?
  {
    assert TagName([]).None?;
  }

  /** Markup takes at least three characters. */
  lemma MarkupAdvances(s: string, d: Doc, q: nat)
    requires Valid(d) && q < |s| && s[q] == '<'
    ensures var r := HandleMarkup(s, d, q);
            && (r.Next? ==>
                 r.end == r.pos &&
                 if Unclosed(s, q) then r.pos == 1 else OpensComment(s, q) || ForwardTo(s, q, r.pos))
            && (r.Next? && OpensComment(s, q) && !Unclosed(s, q) ==> q + 2 <= r.pos < |s|)
            && (Unclosed(s, q) ==> r.Next?)
  {
    hide HandleComment, HandleDoctype, HandleEndTag, HandleStartTag, OpensComment, Find, Valid;
    CommentStart(s, q);
    if OpensComment(s, q) {
      CommentAdvances(s, d, q);
    } else if q + 1 < |s| && s[q + 1] == '!' {
      DoctypeAdvances(s, d, q);
    } else if q + 1 < |s| && s[q + 1] == '/' {
      EndTagAdvances(s, d, q);
    } else {
      StartTagAdvances(s, d, q);
    }
  }

  lemma CommentStart(s: string, q: nat)
    requires q < |s| && s[q] == '<'
    ensures OpensComment(s, q) <==> q + 3 < |s| && s[q + 1] == '!' && s[q + 2] == '-' && s[q + 3] == '-'
  {
    if q + 3 < |s| {
      var p := s[q..q + 4];
      assert p[0] == s[q] && p[1] == s[q + 1] && p[2] == s[q + 2] && p[3] == s[q + 3];
    }
  }

  /** A pass that does not leave the loop moves the cursor forward, unless the markup it finds is a
      comment that is never closed, which sends the cursor to character 1, or has a double quote that
      is never closed, which sends it to the first '>' of the text. */
  lemma StepAdvances(s: string, d: Doc, pos: nat, end: int)
    requires Valid(d) && pos <= |s|
    ensures var q := FindStart(s, SkipException(s, d.info[d.cur].name, pos));
            var r := ScanStep(s, d, pos, end);
            && (r.Next? ==> r.end == r.pos)
            && (r.Next? && !Unclosed(s, q) && !QuoteOpen(s, q) ==> pos < r.pos < |s|)
            && (Unclosed(s, q) ==> r.Next? && r.pos == 1)
            && (r.Next? && QuoteOpen(s, q) ==> FindEnd(s, 0).EndAt? && r.pos == FindEnd(s, 0).p)
  {
    hide HandleMarkup, HandleCdata, Find, ToLower, FindEnd, SkipException, FindStart;
    var q := FindStart(s, SkipException(s, d.info[d.cur].name, pos));
    FoundAhead(s, d.info[d.cur].name, pos);
    if q != -1 {
      var d1 := if q > end + 1 then HandleCdata(s, d, q, end) else d;
      MarkupAdvances(s, d1, q);
    }
  }

  /** The '<' that is found stands at the cursor or behind it, or just in front of it, or among the last
      two characters. */
  lemma FoundAhead(s: string, name: string, pos: nat)
    ensures var q := FindStart(s, SkipException(s, name, pos)); q == -1 || pos - 1 <= q || |s| - 2 <= q
  {
    hide ToLower;
  }

  /** From character 1 on a pass fails to move forward exactly at such markup. */
  lemma BacksUpExactly(s: string, d: Doc, pos: nat, end: int)
    requires Valid(d) && 1 <= pos <= |s|
    ensures var q := FindStart(s, SkipException(s, d.info[d.cur].name, pos));
            var r := ScanStep(s, d, pos, end);
            r.Next? && !(pos < r.pos <= |s|) <==>
              Unclosed(s, q) || (QuoteOpen(s, q) && r.Next? && FindEnd(s, 0).EndAt? && FindEnd(s, 0).p <= pos)
  {
    hide ScanStep, Unclosed, QuoteOpen, FindEnd, FindStart, SkipException;
    StepAdvances(s, d, pos, end);
  }

  lemma StepAdvancesClosed(s: string, d: Doc, pos: nat, end: int)
    requires Valid(d) && pos <= |s| && MarkupCloses(s)
    ensures var r := ScanStep(s, d, pos, end); r.Next? ==> pos < r.pos < |s| && r.end == r.pos
  {
    hide ScanStep, Unclosed, QuoteOpen, FindStart, SkipException;
    StepAdvances(s, d, pos, end);
  }

  /** The parser comes to an end on every text whose comments and double quotes are closed. */
  lemma {:induction false} ClosedMarkupTerminates(s: string, d: Doc, pos: nat, end: int)
    requires Valid(d) && pos <= |s| && MarkupCloses(s)
    ensures !Parse(s, d, pos, end).NoProgress?
    decreases |s| - pos
  {
    hide ScanStep, MarkupCloses;
    StepAdvancesClosed(s, d, pos, end);
    var r := ScanStep(s, d, pos, end);
    if r.Next? { ClosedMarkupTerminates(s, r.doc, r.pos, r.end); }
  }

  // ----- what every run keeps

  /** A record that the parser appends without opening it: a text has no name, a tag no text. */
  predicate IsLeaf(x: Info) {
    if x.kind == Standalone then x.value == ""
    else x.kind in {Cdata, Comment, Doctype} && x.name == "" && x.attributes == []
  }

  predicate IsStart(x: Info) { x.kind == StartTag && x.value == "" }

  /** Every move of the parser keeps P. */
  ghost predicate Inductive(P: Doc -> bool) {
    && (forall d: Doc, x: Info {:trigger AddLeaf(d, x)} :: Valid(d) && P(d) && IsLeaf(x) ==> P(AddLeaf(d, x)))
    && (forall d: Doc, x: Info {:trigger AddOpen(d, x)} :: Valid(d) && P(d) && IsStart(x) ==> P(AddOpen(d, x)))
    && (forall d: Doc, name: string, pos: int, len: int {:trigger ReadEnd(d, name, pos, len)} ::
          Valid(d) && P(d) && ReadEnd(d, name, pos, len).Ended? ==> P(ReadEnd(d, name, pos, len).doc))
  }

  /** P holds of the document read so far, before the virtual end tag is appended. */
  ghost predicate Keeps(P: Doc -> bool, r: Outcome) {
    && (r.Next? || r.CutOff? ==> P(r.doc))
    && (r.Complete? ==> exists e :: P(e) && Valid(e) && r.doc == Finish(e))
  }

  lemma EndTagKeeps(P: Doc -> bool, s: string, d: Doc, q: nat)
    requires Valid(d) && P(d) && Inductive(P)
    ensures Keeps(P, HandleEndTag(s, d, q))
  {
    hide ParseTag, ReadEnd, FindEnd, Trim, Mid, Valid;
  }

  lemma OtherKeeps(P: Doc -> bool, s: string, d: Doc, q: nat)
    requires Valid(d) && P(d) && Inductive(P) && q < |s| && s[q] == '<'
    ensures Keeps(P, HandleComment(s, d, q)) && Keeps(P, HandleDoctype(s, d, q)) && Keeps(P, HandleStartTag(s, d, q))
  {
    hide ParseTag, FindEnd, Trim, Mid, MidAll, Left, Find, Valid, AddLeaf, AddOpen, ReadEnd;
  }

  lemma MarkupKeeps(P: Doc -> bool, s: string, d: Doc, q: nat)
    requires Valid(d) && P(d) && Inductive(P) && q < |s| && s[q] == '<'
    ensures Keeps(P, HandleMarkup(s, d, q))
  {
    hide HandleComment, HandleDoctype, HandleEndTag, HandleStartTag, Valid, Inductive;
    EndTagKeeps(P, s, d, q);
    OtherKeeps(P, s, d, q);
  }

  lemma CdataKeeps(P: Doc -> bool, s: string, d: Doc, q: int, end: int)
    requires Valid(d) && P(d) && Inductive(P)
    ensures P(HandleCdata(s, d, q, end))
  {
    hide Trim, Mid, Valid, AddLeaf, AddOpen, ReadEnd;
  }

  lemma StepKeeps(P: Doc -> bool, s: string, d: Doc, pos: nat, end: int)
    requires Valid(d) && P(d) && Inductive(P)
    ensures Keeps(P, ScanStep(s, d, pos, end))
  {
    hide HandleMarkup, HandleCdata, Finish, Inductive;
    var q := FindStart(s, SkipException(s, d.info[d.cur].name, pos));
    if q != -1 {
      CdataKeeps(P, s, d, q, end);
      MarkupKeeps(P, s, if q > end + 1 then HandleCdata(s, d, q, end) else d, q);
    }
  }

  /** The virtual end tag is appended exactly once and at the end, to a document that satisfies P;
      or it is not appended at all. */
  ghost predicate EndsWith(P: Doc -> bool, r: ParseResult) {
    && (r.Parsed? ==> exists e :: P(e) && Valid(e) && r.doc == Finish(e))
    && (r.Truncated? ==> P(r.doc))
  }

  /** What every move keeps holds of the document that a run leaves, however often it goes back. */
  lemma {:induction false} PassesKeep(P: Doc -> bool, s: string, d: Doc, pos: nat, end: int, n: nat)
    requires Valid(d) && P(d) && Inductive(P)
    ensures var r := Passes(s, d, pos, end, n); r.Over? ==> EndsWith(P, r.result)
    decreases n
  {
    hide ScanStep, Finish, Inductive;
    StepKeeps(P, s, d, pos, end);
    var r := ScanStep(s, d, pos, end);
    if n > 0 && r.Next? { PassesKeep(P, s, r.doc, r.pos, r.end, n - 1); }
  }

  lemma {:induction false} ParseKeeps(P: Doc -> bool, s: string, d: Doc, pos: nat, end: int)
    requires Valid(d) && P(d) && Inductive(P)
    ensures EndsWith(P, Parse(s, d, pos, end))
    decreases |s| - pos
  {
    hide ScanStep, Finish, Inductive;
    StepKeeps(P, s, d, pos, end);
    var r := ScanStep(s, d, pos, end);
    if r.Next? && pos < r.pos <= |s| { ParseKeeps(P, s, r.doc, r.pos, r.end); }
  }

  // ----- the virtual end tag

  /** No tag read from the text is a virtual end tag. */
  ghost predicate NoVirtualEnd(d: Doc) {
    forall i :: 0 <= i < |d.info| ==> d.info[i].kind != VirtualEndTag
  }

  lemma ReadEndNoVirtualEnd(d: Doc, name: string, pos: int, len: int)
    requires Valid(d) && NoVirtualEnd(d)
    ensures var r := ReadEnd(d, name, pos, len); r.Ended? ==> NoVirtualEnd(r.doc)
  {
    var t := MatchUp(d, name, d.cur);
    if t > 0 { DemoteToIsDemoted(d, t); }
  }

  lemma NoVirtualEndIsInductive()
    ensures Inductive((d: Doc) => NoVirtualEnd(d))
  {
    hide Valid, ReadEnd;
    forall d: Doc, name: string, pos: int, len: int | Valid(d) && NoVirtualEnd(d) && ReadEnd(d, name, pos, len).Ended?
      ensures NoVirtualEnd(ReadEnd(d, name, pos, len).doc)
    {
      ReadEndNoVirtualEnd(d, name, pos, len);
    }
  }

  /** In every run that ends the virtual end tag is appended once at most, and comes last. */
  lemma EndTagComesLast(s: string, n: nat)
    ensures var r := Passes(s, EMPTY_DOC, 0, -1, n); r.Over? ==> EndsWith((d: Doc) => NoVirtualEnd(d), r.result)
    ensures EndsWith((d: Doc) => NoVirtualEnd(d), ParseText(s))
  {
    hide Passes, Parse;
    NoVirtualEndIsInductive();
    PassesKeep((d: Doc) => NoVirtualEnd(d), s, EMPTY_DOC, 0, -1, n);
    ParseKeeps((d: Doc) => NoVirtualEnd(d), s, EMPTY_DOC, 0, -1);
  }
}
