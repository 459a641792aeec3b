/**
  The parser on printed text.  Between two pieces of markup the parser waits at a cursor with a
  pending gap of characters; the lemmas follow the printed forest and say how the cursor, the
  gap and the document move on.
*/
module SgmlReparse {
  import opened QtText
  import opened TreeShape
  import opened SgmlModel
  import opened SgmlScan
  import opened SgmlPrint
  import opened SgmlTagText
  import opened SgmlMarkup
  import opened SgmlForest

  datatype Cursor = Cursor(doc: Doc, pos: nat, end: int)

  /** The parser is at cursor c; the characters between its last markup and q hold the text
      `pending` and no '<'. */
  ghost predicate Waiting(s: string, c: Cursor, q: int, pending: string) {
    && -1 <= c.end < q <= |s|
    && c.pos == (if c.end >= 0 then c.end else 0)
    && (c.end >= 0 ==> s[c.end] == '>')
    && NoChar(s[c.end + 1..q], '<')
    && Trim(s[c.end + 1..q]) == pending
  }

  function ResultAt(s: string, c: Cursor): ParseResult
    requires Valid(c.doc)
  {
    Parse(s, c.doc, c.pos, c.end)
  }

  /** The record of the current tag. */
  function CurTag(d: Doc): Info {
    if 0 <= d.cur < |d.info| then d.info[d.cur] else DOC_INFO
  }

  // ----- the gap

  lemma {:induction false} TrimLeftParts(g: string) returns (v: string)
    ensures AllSpace(v) && g == v + TrimLeft(g)
  {
    if g != [] && IsSpace(g[0]) {
      var w := TrimLeftParts(g[1..]);
      v := [g[0]] + w;
    } else {
      v := [];
    }
  }

  lemma {:induction false} TrimRightParts(g: string) returns (u: string)
    ensures AllSpace(u) && g == TrimRight(g) + u
  {
    if g != [] && IsSpace(g[|g| - 1]) {
      var front := g[..|g| - 1];
      var w := TrimRightParts(front);
      u := w + [g[|g| - 1]];
      assert TrimRight(g) == TrimRight(front);
      hide TrimRight;
      assert g == front + [g[|g| - 1]];
      assert (TrimRight(front) + w) + [g[|g| - 1]] == TrimRight(front) + u;
    } else {
      u := [];
    }
  }

  /** White space behind a text does not change its trimmed value. */
  lemma TrimMore(g: string, w: string)
    requires AllSpace(w)
    ensures Trim(g + w) == Trim(g)
  {
    var v := TrimLeftParts(g);
    var u := TrimRightParts(TrimLeft(g));
    var t := Trim(g);
    hide TrimLeft, TrimRight;
    assert g == v + (t + u);
    hide Trim;
    assert g + w == v + t + (u + w);
    assert AllSpace(u + w);
    TrimAround(v, t, u + w);
  }

  lemma TrimText(g: string, t: string)
    requires Trim(g) == "" && Trimmed(t)
    ensures Trim(g + t) == t
  {
    var v := TrimLeftParts(g);
    var u := TrimRightParts(TrimLeft(g));
    assert g == v + u;
    assert g + t == g + t + "";
    TrimAround(g, t, "");
  }

  lemma GapGrows(s: string, c: Cursor, q: int, w: string, pending: string)
    requires Waiting(s, c, q, pending) && At(s, w, q) && NoChar(w, '<')
    ensures s[c.end + 1..q + |w|] == s[c.end + 1..q] + w && NoChar(s[c.end + 1..q + |w|], '<')
  {
    assert s[c.end + 1..q + |w|] == s[c.end + 1..q] + s[q..q + |w|];
  }

  lemma WaitSpace(s: string, c: Cursor, q: int, w: string, pending: string)
    requires Waiting(s, c, q, pending) && At(s, w, q) && AllSpace(w)
    ensures Waiting(s, c, q + |w|, pending)
  {
    SpaceHasNoStart(w);
    hide Trim, AllSpace, NoChar;
    GapGrows(s, c, q, w, pending);
    TrimMore(s[c.end + 1..q], w);
  }

  lemma SpaceHasNoStart(w: string)
    requires AllSpace(w)
    ensures NoChar(w, '<')
  {
  }

  lemma WaitText(s: string, c: Cursor, q: int, t: string)
    requires Waiting(s, c, q, "") && At(s, t, q) && NoChar(t, '<') && Trimmed(t)
    ensures Waiting(s, c, q + |t|, t)
  {
    hide Trim, NoChar;
    GapGrows(s, c, q, t, "");
    TrimText(s[c.end + 1..q], t);
  }

  lemma WaitFresh(s: string, d: Doc, e: int)
    requires 0 <= e < |s| && s[e] == '>'
    ensures Waiting(s, Cursor(d, e, e), e + 1, "")
  {
  }

  // ----- one pass of the loop

  /** The document after the pending text has been taken in. */
  function Flushed(s: string, c: Cursor, q: int): Doc
    requires Valid(c.doc)
  {
    if q > c.end + 1 then HandleCdata(s, c.doc, q, c.end) else c.doc
  }

  lemma FlushIs(s: string, c: Cursor, q: int, pending: string)
    requires Valid(c.doc) && -1 <= c.end < q <= |s| && Trim(s[c.end + 1..q]) == pending
    ensures Flushed(s, c, q) ==
            if pending == "" then c.doc else AddLeaf(c.doc, Span(Cdata, "", [], pending, c.end + 1, q - (c.end + 1)))
  {
    hide Trim, Valid, AddLeaf;
    MidIsSlice(s, c.end + 1, q);
    TrimEmpty();
  }

  lemma TextTaken(d: Doc, pending: string, a: int, n: int)
    requires Valid(d)
    ensures var e := TakeText(d, pending, a, n);
            && Valid(e) && BareDoc(e) == WithText(BareDoc(d), pending)
            && CurTag(e) == CurTag(d) && e.cur == d.cur
  {
    hide Preorder, Anc;
    var x := Span(Cdata, "", [], pending, a, n);
    AddKeepsValid(d, x);
    BareAddLeaf(d, x);
    hide BareDoc;
    assert Bare(x) == Plain(Cdata, "", [], pending);
  }

  lemma WaitFacts(s: string, c: Cursor, q: int, pending: string)
    requires Waiting(s, c, q, pending)
    ensures -1 <= c.end < q <= |s| && c.pos == (if c.end >= 0 then c.end else 0)
    ensures Trim(s[c.end + 1..q]) == pending
  {
    hide Trim, Valid, NoChar;
  }

  /** The document with the pending text as a leaf of the given span. */
  function TakeText(d: Doc, pending: string, a: int, n: int): Doc {
    if pending == "" then d else AddLeaf(d, Span(Cdata, "", [], pending, a, n))
  }

  lemma FlushIsTakeText(s: string, c: Cursor, q: int, pending: string)
    requires Waiting(s, c, q, pending) && Valid(c.doc)
    ensures Flushed(s, c, q) == TakeText(c.doc, pending, c.end + 1, q - (c.end + 1))
  {
    hide Trim, Valid, NoChar, HandleCdata, AddLeaf;
    FlushIs(s, c, q, pending);
  }

  lemma FlushTakesText(s: string, c: Cursor, q: int, pending: string)
    requires Waiting(s, c, q, pending) && Valid(c.doc)
    ensures var d := Flushed(s, c, q);
            && Valid(d) && BareDoc(d) == WithText(BareDoc(c.doc), pending)
            && CurTag(d) == CurTag(c.doc) && d.cur == c.doc.cur
  {
    hide *;
    FlushIsTakeText(s, c, q, pending);
    TextTaken(c.doc, pending, c.end + 1, q - (c.end + 1));
  }

  lemma MidIsSlice(s: string, a: int, b: int)
    requires 0 <= a <= b <= |s|
    ensures Mid(s, a, b - a) == s[a..b]
  {
  }

  lemma TrimEmpty()
    ensures Trim("") == ""
  {
  }

  lemma GapHasNoStart(s: string, c: Cursor, q: int, pending: string)
    requires Waiting(s, c, q, pending)
    ensures forall k :: c.pos <= k < q ==> s[k] != '<'
  {
    hide *;
    GapIs(s, c, q, pending);
    NoCharInside(s, c.end + 1, q, '<');
  }

  lemma GapIs(s: string, c: Cursor, q: int, pending: string)
    requires Waiting(s, c, q, pending)
    ensures -1 <= c.end < q <= |s| && NoChar(s[c.end + 1..q], '<')
    ensures c.pos == (if c.end >= 0 then c.end else 0) && (c.end >= 0 ==> s[c.end] == '>')
  {
    hide Trim, NoChar;
  }

  lemma NoCharInside(s: string, a: int, b: int, c: char)
    requires 0 <= a <= b <= |s| && NoChar(s[a..b], c)
    ensures forall k :: a <= k < b ==> s[k] != c
  {
    forall k | a <= k < b ensures s[k] != c { assert s[a..b][k - a] == s[k]; }
  }

  lemma FirstStart(s: string, i: nat, q: int)
    requires i <= q < |s| && s[q] == '<' && forall k :: i <= k < q ==> s[k] != '<'
    ensures FindChar(s, '<', i) == q && FindStart(s, i) == q
  {
  }

  /** Without a script or style tag around it, the next markup is found at q. */
  lemma FindsMarkup(s: string, c: Cursor, q: int, pending: string, name: string)
    requires Waiting(s, c, q, pending) && 0 <= q < |s| && s[q] == '<'
    requires !IsException(ToLower(name))
    ensures FindStart(s, SkipException(s, name, c.pos)) == q
  {
    hide Waiting, FindStart, ToLower;
    WaitFacts(s, c, q, pending);
    GapHasNoStart(s, c, q, pending);
    FirstStart(s, c.pos, q);
  }

  /** The end tag `</name` is the first one behind the cursor. */
  lemma FirstEndTag(s: string, i: nat, q: int, name: string)
    requires i <= q && At(s, "</" + name, q) && IsLower("</" + name)
    requires forall k :: i <= k < q ==> s[k] != '<'
    ensures Find(ToLower(s), "</" + name, i) == q
  {
    var low := ToLower(s);
    LowerAt(s, "</" + name, q);
    var r := Find(low, "</" + name, i);
    if r < q { AtChar(low, "</" + name, r, 0); }
  }

  lemma ExceptionIsLower(name: string)
    requires IsException(name)
    ensures IsLower("</" + name) && ToLower(name) == name
  {
    LowerNothing(name);
  }

  /** Inside script and style the end tag is found when no other markup comes before it. */
  lemma FindsExceptionEnd(s: string, c: Cursor, q: int, pending: string, name: string)
    requires Waiting(s, c, q, pending) && c.end >= 0 && At(s, EndText(name), q)
    requires IsException(name)
    ensures FindStart(s, SkipException(s, name, c.pos)) == q && q < |s| && s[q] == '<'
  {
    hide Waiting, Find, FindStart;
    WaitFacts(s, c, q, pending);
    GapHasNoStart(s, c, q, pending);
    AtSplit(s, "</" + name, ">", q);
    AtChar(s, "</" + name, q, 0);
    ExceptionIsLower(name);
    hide ToLower, IsLower, At;
    FirstEndTag(s, c.pos, q, name);
    FirstStart(s, q - 1, q);
  }

  lemma LowerAt(s: string, p: string, i: int)
    requires At(s, p, i) && IsLower(p)
    ensures At(ToLower(s), p, i)
  {
    assert |ToLower(s)| == |s|;
    forall k | 0 <= k < |p| ensures ToLower(s)[i..i + |p|][k] == p[k] { AtChar(s, p, i, k); }
  }

  /** One pass: the pending text is taken in and the markup at q is read. */
  lemma OnePass(s: string, c: Cursor, q: int, pending: string, d: Doc, e: int)
    requires Waiting(s, c, q, pending) && Valid(c.doc) && 0 <= q < e < |s| && s[q] == '<' && s[e] == '>'
    requires FindStart(s, SkipException(s, CurTag(c.doc).name, c.pos)) == q
    requires Valid(Flushed(s, c, q)) && HandleMarkup(s, Flushed(s, c, q), q) == Next(d, e, e)
    ensures Valid(d) && ResultAt(s, Cursor(d, e, e)) == ResultAt(s, c)
    ensures Waiting(s, Cursor(d, e, e), e + 1, "")
  {
    PassIsStep(s, c, q);
    WaitFacts(s, c, q, pending);
    NextIsValid(s, c.doc, c.pos, c.end);
    hide Waiting, HandleMarkup, HandleCdata, SkipException, FindStart, Valid, ScanStep, CurTag, Flushed;
    WaitFresh(s, d, e);
  }

  lemma PassIsStep(s: string, c: Cursor, q: int)
    requires Valid(c.doc) && 0 <= q < |s| && s[q] == '<' && Valid(Flushed(s, c, q))
    requires FindStart(s, SkipException(s, CurTag(c.doc).name, c.pos)) == q
    ensures ScanStep(s, c.doc, c.pos, c.end) == HandleMarkup(s, Flushed(s, c, q), q)
  {
    hide Preorder, Anc, HandleMarkup, HandleCdata, SkipException, FindStart;
  }

  lemma NextIsValid(s: string, d: Doc, pos: nat, end: int)
    requires Valid(d)
    ensures var r := ScanStep(s, d, pos, end); r.Next? ==> Valid(r.doc)
  {
    hide ScanStep;
    assert ScanStep(s, d, pos, end).Sound();
  }

  // ----- reading one piece of markup

  ghost predicate OutsideException(d: Doc) {
    !IsException(ToLower(CurTag(d).name))
  }

  /** Markup of a node without children. */
  function LeafMarkup(n: Node): string {
    match n
    case TextNode(v) => v
    case CommentNode(v) => CommentText(v)
    case DoctypeNode(v) => DoctypeText(v)
    case SingleNode(name, attrs) => SingleText(name, attrs)
    case Element(name, attrs, kids) => StartText(name, attrs)
  }

  /** The record of a leaf read at q. */
  function LeafSpan(n: Node, q: int): Info {
    var x := NodeInfo(n);
    Span(x.kind, x.name, x.attributes, x.value, q, |LeafMarkup(n)|)
  }

  lemma LeafScans(s: string, d: Doc, q: nat, n: Node)
    requires Valid(d) && At(s, LeafMarkup(n), q) && GoodNode(n) && !n.TextNode? && !n.Element?
    ensures var m := |LeafMarkup(n)|;
            && 1 < m && q + m <= |s| && s[q] == '<' && s[q + m - 1] == '>'
            && HandleMarkup(s, d, q) == Next(AddLeaf(d, LeafSpan(n, q)), q + m - 1, q + m - 1)
  {
    hide HandleMarkup, AddLeaf, At, GoodComment, GoodDoctype, IsName, GoodAttributes, Valid, AttrText;
    match n
    case CommentNode(v) => ReadsComment(s, d, q, v);
    case DoctypeNode(v) => ReadsDoctype(s, d, q, v);
    case SingleNode(name, attrs) => ReadsSingle(s, d, q, name, attrs);
  }

  /** Adding a record changes neither the current tag nor its record. */
  lemma LeafAdded(d: Doc, n: Node, q: int)
    requires Valid(d) && NodeKids(n) == []
    ensures var e := AddLeaf(d, LeafSpan(n, q));
            && BareDoc(e) == Grow(BareDoc(d), [n])
            && e.cur == d.cur && CurTag(e) == CurTag(d)
  {
    hide Preorder, Anc, LeafMarkup;
    BareAddLeaf(d, LeafSpan(n, q));
    assert Bare(LeafSpan(n, q)) == NodeInfo(n);
    hide BareDoc, LeafSpan, Grow;
    GrowLeaf(BareDoc(d), n);
  }

  lemma ReadsLeaf(s: string, c: Cursor, q: nat, pending: string, n: Node) returns (c1: Cursor)
    requires Waiting(s, c, q, pending) && Valid(c.doc) && OutsideException(c.doc)
    requires At(s, LeafMarkup(n), q) && GoodNode(n) && !n.TextNode? && !n.Element?
    ensures Valid(c1.doc) && ResultAt(s, c1) == ResultAt(s, c)
    ensures Waiting(s, c1, q + |LeafMarkup(n)|, "") && c1.end >= 0
    ensures BareDoc(c1.doc) == Grow(WithText(BareDoc(c.doc), pending), [n])
    ensures c1.doc.cur == c.doc.cur && CurTag(c1.doc) == CurTag(c.doc)
  {
    hide *;
    LeafHasNoKids(n);
    FlushTakesText(s, c, q, pending);
    LeafScans(s, Flushed(s, c, q), q, n);
    FindsMarkup(s, c, q, pending, CurTag(c.doc).name) by { OutsideIs(c.doc); }
    var e := q + |LeafMarkup(n)| - 1;
    var d := AddLeaf(Flushed(s, c, q), LeafSpan(n, q));
    OnePass(s, c, q, pending, d, e);
    LeafAdded(Flushed(s, c, q), n, q);
    c1 := Cursor(d, e, e);
  }

  lemma LeafHasNoKids(n: Node)
    ensures !n.Element? ==> NodeKids(n) == []
  {
  }

  lemma OutsideIs(d: Doc)
    requires OutsideException(d)
    ensures !IsException(ToLower(CurTag(d).name))
  {
  }

  lemma OpenAdded(d: Doc, x: Info)
    requires Valid(d) && x.kind == StartTag && x.value == ""
    ensures var e := AddOpen(d, x);
            && BareDoc(e) == AddOpen(BareDoc(d), Plain(StartTag, x.name, x.attributes, ""))
            && e.cur == |d.par| > 0 && CurTag(e) == x && e.cur < |e.info|
  {
    hide Preorder, Anc;
    BareAddLeaf(d, x);
    assert Bare(x) == Plain(StartTag, x.name, x.attributes, "");
    hide BareDoc;
  }

  lemma ReadsOpen(s: string, c: Cursor, q: nat, pending: string, name: string, attrs: Attributes) returns (c1: Cursor)
    requires Waiting(s, c, q, pending) && Valid(c.doc) && OutsideException(c.doc)
    requires At(s, StartText(name, attrs), q) && IsName(name) && GoodAttributes(attrs)
    ensures Valid(c1.doc) && ResultAt(s, c1) == ResultAt(s, c)
    ensures Waiting(s, c1, q + |StartText(name, attrs)|, "") && c1.end >= 0
    ensures BareDoc(c1.doc) == AddOpen(WithText(BareDoc(c.doc), pending), Plain(StartTag, name, attrs, ""))
    ensures 0 < c1.doc.cur && CurTag(c1.doc).name == name
  {
    hide *;
    FlushTakesText(s, c, q, pending);
    var d0 := Flushed(s, c, q);
    ReadsStartTag(s, d0, q, name, attrs);
    MarkupLong(name, attrs);
    FindsMarkup(s, c, q, pending, CurTag(c.doc).name) by { OutsideIs(c.doc); }
    var n := |StartText(name, attrs)|;
    var x := Span(StartTag, name, attrs, "", q, n);
    SpanParts(name, attrs, q, n);
    var d := AddOpen(d0, x);
    OnePass(s, c, q, pending, d, q + n - 1);
    OpenAdded(d0, x);
    c1 := Cursor(d, q + n - 1, q + n - 1);
  }

  lemma SpanParts(name: string, attrs: Attributes, q: int, n: int)
    ensures var x := Span(StartTag, name, attrs, "", q, n);
            x.kind == StartTag && x.name == name && x.attributes == attrs && x.value == ""
  {
  }

  lemma MarkupLong(name: string, attrs: Attributes)
    ensures |StartText(name, attrs)| > 1 && |EndText(name)| > 1
  {
  }

  /** The document with the current tag closed, for documents without positions. */
  function CloseBare(d: Doc): Doc {
    if 0 < d.cur < |d.par| && d.cur < |d.info| then
      Doc(d.par, d.info[d.cur := ClosedInfo(d.info[d.cur], Kids(d.par, d.cur) == [], 0, 0)], d.par[d.cur])
    else d
  }

  lemma Closes(d: Doc, pos: int, len: int)
    requires Valid(d) && d.cur > 0
    ensures BareDoc(CloseTop(d, pos, len)) == CloseBare(BareDoc(d))
  {
    BareClose(d, pos, len);
  }

  lemma ReadsClose(s: string, c: Cursor, q: nat, pending: string, name: string) returns (c1: Cursor)
    requires Waiting(s, c, q, pending) && Valid(c.doc) && c.end >= 0
    requires At(s, EndText(name), q) && IsName(name)
    requires 0 < c.doc.cur && CurTag(c.doc).name == name
    ensures Valid(c1.doc) && ResultAt(s, c1) == ResultAt(s, c)
    ensures Waiting(s, c1, q + |EndText(name)|, "") && c1.end >= 0
    ensures BareDoc(c1.doc) == CloseBare(WithText(BareDoc(c.doc), pending))
  {
    hide *;
    FlushTakesText(s, c, q, pending);
    var d0 := Flushed(s, c, q);
    CurTagIs(d0);
    ReadsEndTag(s, d0, q, name);
    MarkupLong(name, []);
    var n := |EndText(name)|;
    FindsEndTag(s, c, q, pending, name);
    var d := CloseTop(d0, q, n);
    OnePass(s, c, q, pending, d, q + n - 1);
    Closes(d0, q, n);
    c1 := Cursor(d, q + n - 1, q + n - 1);
  }

  lemma CurTagIs(d: Doc)
    requires Valid(d)
    ensures 0 <= d.cur < |d.info| && CurTag(d) == d.info[d.cur]
  {
    hide Preorder, Anc;
  }

  lemma FindsEndTag(s: string, c: Cursor, q: int, pending: string, name: string)
    requires Waiting(s, c, q, pending) && c.end >= 0 && 0 <= q && At(s, EndText(name), q) && IsName(name)
    ensures FindStart(s, SkipException(s, name, c.pos)) == q
  {
    hide Waiting, FindStart, SkipException, ToLower;
    LowerName(name);
    if IsException(name) {
      FindsExceptionEnd(s, c, q, pending, name);
    } else {
      AtSplit(s, "</" + name, ">", q);
      AtChar(s, "</" + name, q, 0);
      FindsMarkup(s, c, q, pending, name);
    }
  }

  lemma LowerName(name: string)
    requires IsName(name)
    ensures ToLower(name) == name
  {
    LowerNothing(name);
  }
}
