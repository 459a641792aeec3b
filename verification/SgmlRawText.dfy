/**
  Texts, comments and declarations as people write them, with white space around them, and the content
  of script and style, which is one text up to the end tag whatever stands in it (QSgml.cpp:583-640).
*/
module SgmlRawText {
  import opened QtText
  import opened SgmlModel
  import opened SgmlScan
  import opened SgmlTagText
  import opened SgmlPrint
  import opened SgmlForest
  import opened SgmlMarkup
  import opened SgmlReparse

  /** The content stands behind the markup that ends at `end`, and is followed by the end tag of that
      name, the first one in whatever case.  A '<' as its last character would begin the markup. */
  ghost predicate RawContent(s: string, end: nat, raw: string, name: string) {
    && IsException(name) && end < |s| && s[end] == '>'
    && At(s, raw, end + 1) && At(s, EndText(name), end + 1 + |raw|)
    && (raw != "" ==> raw[|raw| - 1] != '<')
    && forall k :: end + 1 <= k < end + 1 + |raw| ==> !At(ToLower(s), "</" + name, k)
  }

  lemma FoundAt(low: string, p: string, i: nat, q: int)
    requires i <= q && At(low, p, q) && forall k :: i <= k < q ==> !At(low, p, k)
    ensures Find(low, p, i) == q
  {
    hide At;
  }

  lemma NotAtBracket(s: string, name: string, k: int)
    requires 0 <= k < |s| && s[k] == '>'
    ensures !At(ToLower(s), "</" + name, k)
  {
    if At(ToLower(s), "</" + name, k) { AtChar(ToLower(s), "</" + name, k, 0); }
  }

  lemma BeforeEndTag(s: string, end: nat, raw: string, name: string)
    requires RawContent(s, end, raw, name)
    ensures var q := end + 1 + |raw|; q < |s| && s[q - 1] != '<' && s[q] == '<' && At(s, "</" + name, q)
  {
    var q := end + 1 + |raw|;
    AtSplit(s, "</" + name, ">", q);
    AtChar(s, "</" + name, q, 0);
    if raw != "" { AtChar(s, raw, end + 1, |raw| - 1); }
  }

  lemma EndTagIsFound(s: string, end: nat, raw: string, name: string)
    requires RawContent(s, end, raw, name)
    ensures FindStart(s, SkipException(s, name, end)) == end + 1 + |raw|
  {
    hide *;
    var q := end + 1 + |raw|;
    BeforeEndTag(s, end, raw, name);
    RawParts(s, end, raw, name);
    ExceptionIsLower(name);
    LowerAt(s, "</" + name, q);
    NotAtBracket(s, name, end);
    FoundAt(ToLower(s), "</" + name, end, q);
    FirstStart(s, q - 1, q);
    Skips(s, name, end, q);
  }

  lemma Skips(s: string, name: string, end: nat, q: int)
    requires IsException(name) && ToLower(name) == name && Find(ToLower(s), "</" + name, end) == q
    ensures SkipException(s, name, end) == q - 1
  {
    hide ToLower, Find;
  }

  /** The text of the content, when there is any, becomes one tag, and the open tag is closed by its end
      tag in the same pass. */
  lemma ReadsRawContent(s: string, d: Doc, end: nat, raw: string, name: string)
    requires Valid(d) && d.cur > 0 && d.info[d.cur].name == name && RawContent(s, end, raw, name)
    ensures var q, n := end + 1 + |raw|, |name| + 3;
            var d1 := if Trim(raw) == "" then d
                      else AddLeaf(d, Span(Cdata, "", [], Trim(raw), end + 1, |raw|));
            && Valid(d1)
            && ScanStep(s, d, end, end) == Next(CloseTop(d1, q, n), q + n - 1, q + n - 1)
  {
    hide *;
    var q := end + 1 + |raw|;
    EndTagIsFound(s, end, raw, name);
    BeforeEndTag(s, end, raw, name);
    RawParts(s, end, raw, name);
    ContentIsText(s, d, end, raw);
    var d1 := if q > end + 1 then HandleCdata(s, d, q, end) else d;
    assert Valid(d1);
    ReadsEndTag(s, d1, q, name);
    EndSize(name);
    StepIs(s, d, end, q);
  }

  lemma RawParts(s: string, end: nat, raw: string, name: string)
    requires RawContent(s, end, raw, name)
    ensures At(s, raw, end + 1) && At(s, EndText(name), end + 1 + |raw|) && IsName(name) && IsException(name)
    ensures end < |s| && s[end] == '>'
    ensures forall k :: end + 1 <= k < end + 1 + |raw| ==> !At(ToLower(s), "</" + name, k)
  {
  }

  lemma ContentIsText(s: string, d: Doc, end: nat, raw: string)
    requires Valid(d) && At(s, raw, end + 1)
    ensures var q := end + 1 + |raw|;
            var d1 := if q > end + 1 then HandleCdata(s, d, q, end) else d;
            && Valid(d1) && d1.cur == d.cur && d.cur < |d.info| && d.cur < |d1.info| && d1.info[d.cur] == d.info[d.cur]
            && d1 == if Trim(raw) == "" then d else AddLeaf(d, Span(Cdata, "", [], Trim(raw), end + 1, |raw|))
  {
    var x := Span(Cdata, "", [], Trim(raw), end + 1, |raw|);
    AddKeepsValid(d, x);
    MidIs(s, end + 1, |raw|);
    hide Trim, Mid;
    if raw == "" { TrimNothing(raw); }
  }

  lemma StepIs(s: string, d: Doc, end: nat, q: int)
    requires Valid(d) && d.cur < |d.info| && 0 <= q < |s| && s[q] == '<'
    requires FindStart(s, SkipException(s, d.info[d.cur].name, end)) == q
    requires Valid(if q > end + 1 then HandleCdata(s, d, q, end) else d)
    ensures ScanStep(s, d, end, end) == HandleMarkup(s, if q > end + 1 then HandleCdata(s, d, q, end) else d, q)
  {
    hide HandleMarkup, HandleCdata, FindStart, SkipException, Valid;
  }

  // ----- texts, comments and declarations

  lemma GapHasNoMarkup(s: string, raw: string, p: int)
    requires At(s, raw, p) && NoChar(raw, '<')
    ensures 0 <= p && p + |raw| <= |s| && forall k :: p <= k < p + |raw| ==> s[k] != '<'
  {
    forall k | p <= k < p + |raw| ensures s[k] != '<' { AtChar(s, raw, p, k - p); }
  }

  /** A text up to the next markup becomes one tag without the white space around it; white space alone
      becomes nothing. */
  lemma ReadsTextAsWritten(s: string, d: Doc, end: nat, raw: string)
    requires Valid(d) && 0 <= d.cur < |d.info| && !IsException(ToLower(d.info[d.cur].name))
    requires end < |s| && s[end] == '>' && At(s, raw, end + 1) && NoChar(raw, '<')
    requires end + 1 + |raw| < |s| && s[end + 1 + |raw|] == '<'
    ensures var q := end + 1 + |raw|;
            var d1 := if Trim(raw) == "" then d
                      else AddLeaf(d, Span(Cdata, "", [], Trim(raw), end + 1, |raw|));
            Valid(d1) && ScanStep(s, d, end, end) == HandleMarkup(s, d1, q)
  {
    hide *;
    var q := end + 1 + |raw|;
    GapHasNoMarkup(s, raw, end + 1);
    FirstStart(s, end, q);
    NoSkip(s, d.info[d.cur].name, end);
    ContentIsText(s, d, end, raw);
    StepIs(s, d, end, q);
  }

  lemma NoSkip(s: string, name: string, pos: nat)
    requires !IsException(ToLower(name))
    ensures SkipException(s, name, pos) == pos
  {
    hide ToLower, ClosePos;
  }

  /** A comment up to the first "-->" behind its start. */
  lemma ReadsCommentAsWritten(s: string, d: Doc, q: nat, raw: string)
    requires Valid(d) && At(s, "<!--" + raw + "-->", q) && forall k :: 0 <= k < |raw| ==> !At(raw + "-->", "-->", k)
    ensures var n := |raw| + 7;
            && q + n <= |s| && s[q] == '<' && s[q + n - 1] == '>'
            && HandleMarkup(s, d, q) ==
               Next(AddLeaf(d, Span(Comment, "", [], Trim(raw), q, n)), q + n - 1, q + n - 1)
  {
    hide *;
    var body := raw + "-->";
    assert "<!--" + raw + "-->" == "<!--" + body;
    AtSplit(s, "<!--", body, q);
    AtSplit(s, raw, "-->", q + 4);
    AtChar(s, "<!--", q, 0);
    AtChar(s, "<!--", q, 1);
    AtChar(s, "<!--", q, 2);
    AtChar(s, "<!--", q, 3);
    AtChar(s, "-->", q + 4 + |raw|, 2);
    AtSlice(s, raw, q + 4);
    AtSlice(s, "-->", q + 4 + |raw|);
    EndOfComment(s, q + 4, raw);
    MidIs(s, q + 4, |raw|);
    ScansComment(s, d, q, q + 4 + |raw|, Trim(raw));
  }

  lemma EndOfComment(s: string, p: nat, raw: string)
    requires At(s, raw + "-->", p) && At(s, "-->", p + |raw|)
    requires forall k :: 0 <= k < |raw| ==> !At(raw + "-->", "-->", k)
    ensures Find(s, "-->", p) == p + |raw|
  {
    hide At;
    forall k | p <= k < p + |raw| ensures !At(s, "-->", k) {
      if At(s, "-->", k) { AtInside(s, raw + "-->", p, "-->", k - p); }
    }
  }

  lemma DeclarationChars(s: string, q: nat, raw: string)
    requires At(s, "<!" + (raw + ">"), q) && !(|raw| >= 2 && raw[0] == '-' && raw[1] == '-')
    ensures q + 2 + |raw| < |s| && s[q] == '<' && s[q + 1] == '!' && s[q + 2 + |raw|] == '>'
    ensures At(s, "<!", q) && At(s, raw + ">", q + 2) && s[q + 2..q + 2 + |raw|] == raw
    ensures !(s[q + 2] == '-' && q + 3 < |s| && s[q + 3] == '-') && (s[q + 2] == '-' ==> q + 3 < |s|)
  {
    hide At;
    var body := raw + ">";
    AtSplit(s, "<!", body, q);
    AtSplit(s, raw, ">", q + 2);
    AtChar(s, "<!", q, 0);
    AtChar(s, "<!", q, 1);
    AtChar(s, ">", q + 2 + |raw|, 0);
    AtSlice(s, body, q + 2);
    AtSlice(s, raw, q + 2);
    AtChar(s, body, q + 2, 0);
    if |raw| >= 1 { AtChar(s, body, q + 2, 1); }
  }

  /** A declaration up to the first '>' outside quotes. */
  lemma ReadsDoctypeAsWritten(s: string, d: Doc, q: nat, raw: string)
    requires Valid(d) && At(s, "<!" + (raw + ">"), q) && FindEnd(raw + ">", 0) == EndAt(|raw|)
    requires !(|raw| >= 2 && raw[0] == '-' && raw[1] == '-')
    ensures var n := |raw| + 3;
            && q + n <= |s| && s[q] == '<' && s[q + n - 1] == '>'
            && HandleMarkup(s, d, q) ==
               Next(AddLeaf(d, Span(Doctype, "", [], Trim(raw), q, n)), q + n - 1, q + n - 1)
  {
    hide *;
    DeclarationChars(s, q, raw);
    NoQuoteInMark();
    FindEndOverWord(s, q, "<!");
    FindEndInside(s, raw + ">", q + 2, 0);
    MidIs(s, q + 2, |raw|);
    ScansDoctype(s, d, q, q + 2 + |raw|, Trim(raw));
  }

  lemma ScansDoctype(s: string, d: Doc, q: nat, e: nat, v: string)
    requires Valid(d) && q + 2 <= e < |s| && s[q] == '<' && s[q + 1] == '!'
    requires !(s[q + 2] == '-' && q + 3 < |s| && s[q + 3] == '-') && (s[q + 2] == '-' ==> q + 3 < |s|)
    requires FindEnd(s, q) == EndAt(e) && Trim(Mid(s, q + 2, e - q - 2)) == v
    ensures HandleMarkup(s, d, q) == Next(AddLeaf(d, Span(Doctype, "", [], v, q, e - q + 1)), e, e)
  {
    hide FindEnd, Trim, Mid, AddLeaf, Valid, HandleComment, HandleEndTag, HandleStartTag;
  }

  /** A declaration without a '>' outside quotes is the rest of the text, and the last thing that is read;
      its length is the negative of its position. */
  lemma DeclarationIsCutOff(s: string, d: Doc, q: nat)
    requires Valid(d) && q + 2 < |s| && s[q] == '<' && s[q + 1] == '!' && s[q + 2] != '-' && FindEnd(s, q) == NoEnd
    ensures HandleMarkup(s, d, q) == CutOff(AddLeaf(d, Span(Doctype, "", [], Trim(s[q + 2..]), q, 0 - q)))
  {
    hide FindEnd, Trim, AddLeaf, Valid, HandleComment, HandleEndTag, HandleStartTag;
    assert MidAll(s, q + 2) == s[q + 2..];
  }
}
