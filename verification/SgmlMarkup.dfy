/**
  Scanning one piece of printed markup: the scanner finds its end and reads back what the
  printer wrote, wherever in a text the markup stands.
*/
module SgmlMarkup {
  import opened Sequences
  import opened QtText
  import opened SgmlModel
  import opened SgmlAttributes
  import opened SgmlScan
  import opened SgmlPrint
  import opened SgmlTagText

  // ----- texts inside a text

  lemma AtSplit(s: string, a: string, b: string, i: int)
    requires At(s, a + b, i)
    ensures At(s, a, i) && At(s, b, i + |a|)
  {
    var w := s[i..i + |a + b|];
    assert w[..|a|] == a && w[|a|..] == b;
    assert s[i..i + |a|] == w[..|a|];
    assert s[i + |a|..i + |a| + |b|] == w[|a|..];
  }

  lemma AtChar(s: string, p: string, i: int, k: int)
    requires At(s, p, i) && 0 <= k < |p|
    ensures s[i + k] == p[k]
  {
    assert s[i..i + |p|][k] == p[k];
  }

  // ----- the end of a tag

  predicate NoQuoteOrEnd(t: string) {
    NoChar(t, '\'') && NoChar(t, '\"') && NoChar(t, '>')
  }

  lemma {:induction false} FindEndSkips(s: string, i: nat, n: nat)
    requires i + n <= |s| && NoQuoteOrEnd(s[i..i + n])
    ensures FindEnd(s, i) == FindEnd(s, i + n)
    decreases n
  {
    if n > 0 {
      assert s[i] == s[i..i + n][0];
      assert s[i + 1..i + 1 + (n - 1)] == s[i..i + n][1..];
      FindEndSkips(s, i + 1, n - 1);
    }
  }

  /** A quoted value is jumped over. */
  lemma FindEndJumps(s: string, i: nat, value: string)
    requires At(s, "\"" + value + "\"", i) && NoChar(value, '\"')
    ensures FindEnd(s, i) == FindEnd(s, i + |value| + 2)
  {
    var q := "\"" + value + "\"";
    AtChar(s, q, i, 0);
    AtChar(s, q, i, |value| + 1);
    forall k | i + 1 <= k < i + 1 + |value| ensures s[k] != '\"' {
      AtChar(s, q, i, k - i);
      assert q[k - i] == value[k - i - 1];
    }
    assert FindChar(s, '\"', i + 1) == i + 1 + |value|;
  }

  lemma FindEndOverWord(s: string, i: nat, w: string)
    requires At(s, w, i) && NoQuoteOrEnd(w)
    ensures FindEnd(s, i) == FindEnd(s, i + |w|)
  {
    FindEndSkips(s, i, |w|);
  }

  lemma AttrParts(s: string, i: nat, key: string, value: string, rest: Attributes)
    requires At(s, AttrText([(key, value)] + rest), i)
    ensures At(s, " " + key + "=", i) && At(s, "\"" + value + "\"", i + |key| + 2)
    ensures At(s, AttrText(rest), i + |key| + |value| + 4)
    ensures |AttrText([(key, value)] + rest)| == |key| + |value| + 4 + |AttrText(rest)|
  {
    var head, quoted := " " + key + "=", "\"" + value + "\"";
    assert ([(key, value)] + rest)[1..] == rest;
    assert AttrText([(key, value)] + rest) == (head + quoted) + AttrText(rest);
    hide AttrText;
    AtSplit(s, head + quoted, AttrText(rest), i);
    AtSplit(s, head, quoted, i);
  }

  lemma HeadIsPlain(key: string)
    requires IsWord(key)
    ensures NoQuoteOrEnd(" " + key + "=")
  {
    var h := " " + key + "=";
    assert forall k :: 0 < k < |h| - 1 ==> h[k] == key[k - 1];
  }

  lemma {:induction false} FindEndOverAttributes(s: string, i: nat, a: Attributes)
    requires At(s, AttrText(a), i) && GoodAttributes(a)
    ensures FindEnd(s, i) == FindEnd(s, i + |AttrText(a)|)
    decreases |a|
  {
    hide *;
    if a == [] {
      NoAttrText();
    } else {
      GoodCons(a);
      var (key, value) := a[0];
      AttrParts(s, i, key, value, a[1..]);
      HeadIsPlain(key);
      FindEndOverWord(s, i, " " + key + "=");
      FindEndJumps(s, i + |key| + 2, value);
      FindEndOverAttributes(s, i + |key| + |value| + 4, a[1..]);
    }
  }

  lemma GoodCons(a: Attributes)
    requires GoodAttributes(a) && a != []
    ensures IsWord(a[0].0) && NoChar(a[0].1, '\"') && GoodAttributes(a[1..])
    ensures a == [(a[0].0, a[0].1)] + a[1..]
  {
  }

  lemma FindCharInside(s: string, t: string, p: nat, c: char, i: nat)
    requires At(s, t, p) && FindChar(t, c, i) != -1
    ensures FindChar(s, c, p + i) == p + FindChar(t, c, i)
  {
    var r := FindChar(t, c, i);
    AtChar(s, t, p, r);
    forall k | p + i <= k < p + r ensures s[k] != c { AtChar(s, t, p, k - p); }
  }

  /** The end found in a text is found wherever the text stands. */
  lemma {:induction false} FindEndInside(s: string, t: string, p: nat, i: nat)
    requires At(s, t, p) && FindEnd(t, i).EndAt?
    ensures FindEnd(s, p + i) == EndAt(p + FindEnd(t, i).p)
    decreases |t| - i
  {
    hide FindChar, At;
    var next := FindEndTurn(t, i);
    if next > i {
      FindEndInside(s, t, p, next);
    }
    SameTurn(s, t, p, i);
  }

  /** Where the search goes on behind character i; i itself when it ends there. */
  function FindEndTurn(t: string, i: nat): (next: nat)
    requires FindEnd(t, i).EndAt?
    ensures i < |t| && i <= next <= |t| && (t[i] == '>' <==> next == i)
    ensures FindEnd(t, next) == FindEnd(t, i)
  {
    if t[i] == '>' then i
    else if t[i] == '\'' || t[i] == '\"' then FindChar(t, t[i], i + 1) + 1
    else i + 1
  }

  lemma SameTurn(s: string, t: string, p: nat, i: nat)
    requires At(s, t, p) && FindEnd(t, i).EndAt?
    ensures FindEnd(s, p + i) ==
            if t[i] == '>' then EndAt(p + i) else FindEnd(s, p + FindEndTurn(t, i))
  {
    hide *;
    AtSlice(s, t, p);
    AtChar(s, t, p, i);
    OneTurn(t, i);
    OneTurn(s, p + i);
    TurnIs(t, i);
    if t[i] == '\'' || t[i] == '\"' { FindCharInside(s, t, p, t[i], i + 1); }
  }

  lemma OneTurn(s: string, i: nat)
    ensures i >= |s| ==> FindEnd(s, i) == NoEnd
    ensures i < |s| ==>
      var c := FindChar(s, s[i], i + 1);
      FindEnd(s, i) ==
        if s[i] == '>' then EndAt(i)
        else if s[i] == '\'' || s[i] == '\"' then if c == -1 then OpenQuote(s[i]) else FindEnd(s, c + 1)
        else FindEnd(s, i + 1)
  {
    hide FindChar;
  }

  lemma TurnIs(t: string, i: nat)
    requires FindEnd(t, i).EndAt?
    ensures i < |t|
    ensures FindEndTurn(t, i) ==
            if t[i] == '>' then i
            else if t[i] == '\'' || t[i] == '\"' then FindChar(t, t[i], i + 1) + 1
            else i + 1
  {
    hide FindEnd, FindChar;
    OneTurn(t, i);
  }

  // ----- markup

  function StartText(name: string, attrs: Attributes): string { "<" + (name + AttrText(attrs)) + ">" }
  function SingleText(name: string, attrs: Attributes): string { "<" + (name + AttrText(attrs)) + "/>" }
  function EndText(name: string): string { "</" + name + ">" }
  function CommentText(v: string): string { "<!--" + v + "-->" }
  function DoctypeText(v: string): string { "<!" + v + ">" }

  /** The inside of a tag is jumped over. */
  lemma FindEndOverInner(s: string, q: nat, name: string, attrs: Attributes)
    requires At(s, "<" + (name + AttrText(attrs)), q) && IsName(name) && GoodAttributes(attrs)
    ensures FindEnd(s, q) == FindEnd(s, q + 1 + |name + AttrText(attrs)|)
    ensures s[q] == '<' && s[q + 1] == name[0]
  {
    hide AttrText, FindEnd;
    AtSplit(s, "<", name + AttrText(attrs), q);
    AtSplit(s, name, AttrText(attrs), q + 1);
    AtChar(s, "<", q, 0);
    AtChar(s, name, q + 1, 0);
    hide At, GoodAttributes;
    FindEndOverWord(s, q, "<");
    FindEndOverWord(s, q + 1, name);
    FindEndOverAttributes(s, q + 1 + |name|, attrs);
  }

  /** The end of the tag behind `<inner`. */
  lemma EndOfTag(s: string, q: nat, inner: string, close: string)
    requires At(s, "<" + inner + close, q) && inner != []
    requires FindEnd(s, q) == FindEnd(s, q + 1 + |inner|)
    requires close == ">" || close == "/>"
    ensures var n := |inner|;
            && FindEnd(s, q) == EndAt(q + n + |close|)
            && q + n + |close| < |s|
            && s[q + 1..q + 1 + n] == inner
            && s[q + n] == inner[n - 1]
            && s[q + n + |close|] == '>' && (|close| == 2 ==> s[q + n + 1] == '/')
  {
    var n := |inner|;
    AtSplit(s, "<" + inner, close, q);
    AtSplit(s, "<", inner, q);
    AtChar(s, inner, q + 1, n - 1);
    AtChar(s, close, q + 1 + n, |close| - 1);
    if |close| == 2 { AtChar(s, close, q + 1 + n, 0); }
  }

  lemma LastCharOfInner(name: string, attrs: Attributes)
    requires IsName(name)
    ensures var t := name + AttrText(attrs); t != [] && t[|t| - 1] != '/' && t[|t| - 1] != '<'
  {
    AttrTextEnd(attrs);
    if attrs == [] { assert name + AttrText(attrs) == name; }
  }

  /** The scanner at a start or standalone tag whose '>' is at e. */
  lemma ScansTag(s: string, d: Doc, q: nat, e: nat, inner: string, name: string, attrs: Attributes)
    requires Valid(d) && q + 1 < e < |s| && s[q] == '<' && s[q + 1] != '!' && s[q + 1] != '/'
    requires FindEnd(s, q) == EndAt(e) && Trim(Mid(s, q + 1, e - q - 1)) == inner
    requires ParseTag(if s[e - 1] == '/' then Left(inner, |inner| - 1) else inner) == Some((name, attrs))
    ensures HandleMarkup(s, d, q) ==
            if s[e - 1] == '/' then Next(AddLeaf(d, Span(Standalone, name, attrs, "", q, e - q + 1)), e, e)
            else Next(AddOpen(d, Span(StartTag, name, attrs, "", q, e - q + 1)), e, e)
  {
    hide FindEnd, ParseTag, Trim, Mid, Left, AddLeaf, AddOpen, Valid;
  }

  lemma MidIs(s: string, q: nat, n: nat)
    requires q + n <= |s|
    ensures Mid(s, q, n) == s[q..q + n]
  {
  }

  lemma ReadsStartTag(s: string, d: Doc, q: nat, name: string, attrs: Attributes)
    requires Valid(d) && At(s, StartText(name, attrs), q) && IsName(name) && GoodAttributes(attrs)
    ensures var n := |StartText(name, attrs)|;
            && q + n <= |s| && s[q] == '<' && s[q + n - 1] == '>'
            && HandleMarkup(s, d, q) == Next(AddOpen(d, Span(StartTag, name, attrs, "", q, n)), q + n - 1, q + n - 1)
  {
    hide *;
    var inner := name + AttrText(attrs);
    StartTextIs(name, attrs);
    AtSplit(s, "<" + inner, ">", q);
    FindEndOverInner(s, q, name, attrs);
    LastCharOfInner(name, attrs);
    EndOfTag(s, q, inner, ">");
    InnerTrimmed(name, attrs);
    ParseTagUndoesPrint(name, attrs);
    NameStart(name);
    MidIs(s, q + 1, |inner|);
    ScansTag(s, d, q, q + 1 + |inner|, inner, name, attrs);
  }

  lemma StartTextIs(name: string, attrs: Attributes)
    ensures StartText(name, attrs) == "<" + (name + AttrText(attrs)) + ">"
    ensures SingleText(name, attrs) == "<" + (name + AttrText(attrs)) + "/>"
  {
  }

  lemma NameStart(name: string)
    requires IsName(name)
    ensures name != [] && name[0] != '!' && name[0] != '/'
  {
  }

  lemma ReadsSingle(s: string, d: Doc, q: nat, name: string, attrs: Attributes)
    requires Valid(d) && At(s, SingleText(name, attrs), q) && IsName(name) && GoodAttributes(attrs)
    ensures var n := |SingleText(name, attrs)|;
            && q + n <= |s| && s[q] == '<' && s[q + n - 1] == '>'
            && HandleMarkup(s, d, q) == Next(AddLeaf(d, Span(Standalone, name, attrs, "", q, n)), q + n - 1, q + n - 1)
  {
    hide *;
    var inner := name + AttrText(attrs);
    var n := |inner|;
    StartTextIs(name, attrs);
    AtSplit(s, "<" + inner, "/>", q);
    FindEndOverInner(s, q, name, attrs);
    LastCharOfInner(name, attrs);
    EndOfTag(s, q, inner, "/>");
    InnerTrimmed(name, attrs);
    SlashTrimmed(inner);
    ParseTagUndoesPrint(name, attrs);
    NameStart(name);
    MidIs(s, q + 1, n + 1);
    LeftIs(inner);
    assert s[q + 1..q + 2 + n] == inner + "/";
    ScansTag(s, d, q, q + 2 + n, inner + "/", name, attrs);
  }

  lemma LeftIs(t: string)
    ensures Left(t + "/", |t|) == t
  {
  }

  lemma SlashTrimmed(t: string)
    requires Trimmed(t) && t != []
    ensures Trim(t + "/") == t + "/"
  {
    TrimNothing(t + "/");
  }

  lemma EndTagEnd(s: string, q: nat, name: string)
    requires At(s, EndText(name), q) && IsName(name)
    ensures FindEnd(s, q) == EndAt(q + |name| + 2) && q + |name| + 2 < |s|
    ensures s[q] == '<' && s[q + 1] == '/' && s[q + |name| + 2] == '>'
    ensures s[q + 1..q + 2 + |name|] == "/" + name
  {
    hide *;
    var w := "/" + name;
    EndTextIs(name);
    AtSplit(s, "<" + w, ">", q);
    AtSplit(s, "<", w, q);
    AtChar(s, "<", q, 0);
    AtChar(s, w, q + 1, 0);
    AtChar(s, ">", q + 1 + |w|, 0);
    AtSlice(s, w, q + 1);
    AtSlice(s, ">", q + 1 + |w|);
    FindEndOverWord(s, q, "<");
    FindEndOverWord(s, q + 1, w);
    EndHere(s, q + 1 + |w|);
  }

  lemma EndTextIs(name: string)
    requires IsName(name)
    ensures EndText(name) == "<" + ("/" + name) + ">" && NoQuoteOrEnd("<") && NoQuoteOrEnd("/" + name)
  {
  }

  lemma AtSlice(s: string, p: string, i: int)
    requires At(s, p, i)
    ensures 0 <= i <= i + |p| <= |s| && s[i..i + |p|] == p
  {
  }

  lemma EndHere(s: string, i: nat)
    requires i < |s| && s[i] == '>'
    ensures FindEnd(s, i) == EndAt(i)
  {
  }

  lemma ReadsEndTag(s: string, d: Doc, q: nat, name: string)
    requires Valid(d) && At(s, EndText(name), q) && IsName(name)
    requires d.cur > 0 && d.info[d.cur].name == name
    ensures var n := |EndText(name)|;
            && q + n <= |s| && s[q] == '<' && s[q + n - 1] == '>'
            && HandleMarkup(s, d, q) == Next(CloseTop(d, q, n), q + n - 1, q + n - 1)
  {
    hide *;
    EndTagEnd(s, q, name);
    ParseEndTag(name);
    MidIs(s, q + 1, |name| + 1);
    EndSize(name);
    ScansEndTag(s, d, q, q + |name| + 2, name);
  }

  lemma EndSize(name: string)
    ensures |EndText(name)| == |name| + 3
  {
  }

  lemma ScansEndTag(s: string, d: Doc, q: nat, e: nat, name: string)
    requires Valid(d) && d.cur > 0 && d.info[d.cur].name == name
    requires q + 1 < e < |s| && s[q] == '<' && s[q + 1] == '/' && FindEnd(s, q) == EndAt(e)
    requires ParseTag(Trim(Mid(s, q + 1, e - q - 1))) == Some((name, []))
    ensures HandleMarkup(s, d, q) == Next(CloseTop(d, q, e - q + 1), e, e)
  {
    hide FindEnd, ParseTag, Trim, Mid, CloseTop, HandleComment, HandleDoctype, HandleStartTag;
    assert MatchUp(d, name, d.cur) == d.cur;
  }

  // ----- comments and doctypes

  predicate GoodComment(v: string) {
    Trimmed(v) && Find(v, "-->", 0) == -1
  }

  lemma AtInside(s: string, t: string, p: int, x: string, k: int)
    requires At(s, t, p) && At(s, x, p + k) && 0 <= k && k + |x| <= |t|
    ensures At(t, x, k)
  {
    forall m | 0 <= m < |x| ensures t[k..k + |x|][m] == x[m] {
      AtChar(s, t, p, k + m);
      AtChar(s, x, p + k, m);
    }
  }

  /** "-->" cannot begin inside v and end behind it. */
  lemma CommentBody(s: string, p: int, v: string, k: int)
    requires At(s, v + "-->", p) && 0 <= k < |v| && At(s, "-->", p + k)
    ensures k + 3 <= |v|
  {
    AtChar(s, "-->", p + k, 2);
    AtChar(s, v + "-->", p, k + 2);
  }

  /** The first "-->" behind the start of a comment is its end. */
  lemma CommentEnd(s: string, q: nat, v: string)
    requires At(s, CommentText(v), q) && GoodComment(v)
    ensures Find(s, "-->", q + 4) == q + 4 + |v| && q + |v| + 7 <= |s|
    ensures s[q + 4..q + 4 + |v|] == v && At(s, "<!--", q) && At(s, "-->", q + 4 + |v|)
  {
    var body := v + "-->";
    assert CommentText(v) == "<!--" + body;
    AtSplit(s, "<!--", body, q);
    AtSplit(s, v, "-->", q + 4);
    var r := Find(s, "-->", q + 4);
    if r < q + 4 + |v| {
      CommentBody(s, q + 4, v, r - q - 4);
      AtInside(s, v, q + 4, "-->", r - q - 4);
    }
  }

  lemma GoodIsTrimmed(v: string)
    requires GoodComment(v)
    ensures Trimmed(v)
  {
  }

  lemma ReadsComment(s: string, d: Doc, q: nat, v: string)
    requires Valid(d) && At(s, CommentText(v), q) && GoodComment(v)
    ensures var n := |CommentText(v)|;
            && q + n <= |s| && s[q] == '<' && s[q + n - 1] == '>'
            && HandleMarkup(s, d, q) == Next(AddLeaf(d, Span(Comment, "", [], v, q, n)), q + n - 1, q + n - 1)
  {
    hide *;
    CommentEnd(s, q, v);
    GoodIsTrimmed(v);
    AtChar(s, "<!--", q, 0);
    AtChar(s, "<!--", q, 1);
    AtChar(s, "<!--", q, 2);
    AtChar(s, "<!--", q, 3);
    AtChar(s, "-->", q + 4 + |v|, 2);
    MidIs(s, q + 4, |v|);
    TrimNothing(v);
    CommentSize(v);
    ScansComment(s, d, q, q + 4 + |v|, v);
  }

  lemma CommentSize(v: string)
    ensures |CommentText(v)| == |v| + 7
  {
  }

  lemma ScansComment(s: string, d: Doc, q: nat, e: nat, v: string)
    requires Valid(d) && q + 4 <= e && e + 3 <= |s| && s[q] == '<'
    requires s[q + 1] == '!' && s[q + 2] == '-' && s[q + 3] == '-'
    requires Find(s, "-->", q + 4) == e && Trim(Mid(s, q + 4, e - q - 4)) == v
    ensures HandleMarkup(s, d, q) == Next(AddLeaf(d, Span(Comment, "", [], v, q, e - q + 3)), e + 2, e + 2)
  {
    hide Find, Trim, Mid, AddLeaf, Valid, HandleDoctype, HandleEndTag, HandleStartTag;
  }

  /** A declaration whose quotes are balanced, without an unquoted '>'. */
  predicate GoodDoctype(v: string) {
    Trimmed(v) && FindEnd(v + ">", 0) == EndAt(|v|) && !(|v| >= 2 && v[0] == '-' && v[1] == '-')
  }

  lemma DoctypeEnd(s: string, q: nat, v: string)
    requires At(s, DoctypeText(v), q) && GoodDoctype(v)
    ensures FindEnd(s, q) == EndAt(q + 2 + |v|) && q + 2 + |v| < |s|
    ensures s[q] == '<' && s[q + 1] == '!' && s[q + 2 + |v|] == '>' && s[q + 2..q + 2 + |v|] == v
    ensures !(s[q + 2] == '-' && q + 3 < |s| && s[q + 3] == '-')
    ensures s[q + 2] == '-' ==> q + 3 < |s|
  {
    hide *;
    var body := v + ">";
    DoctypeTextIs(v);
    AtSplit(s, "<!", body, q);
    AtSplit(s, v, ">", q + 2);
    AtChar(s, "<!", q, 0);
    AtChar(s, "<!", q, 1);
    AtChar(s, ">", q + 2 + |v|, 0);
    AtChar(s, body, q + 2, 0);
    AtSlice(s, body, q + 2);
    AtSlice(s, v, q + 2);
    if |v| >= 1 { AtChar(s, body, q + 2, 1); }
    FindEndOverWord(s, q, "<!");
    FindEndInside(s, body, q + 2, 0);
  }

  lemma DoctypeTextIs(v: string)
    requires GoodDoctype(v)
    ensures DoctypeText(v) == "<!" + (v + ">") && NoQuoteOrEnd("<!")
    ensures FindEnd(v + ">", 0) == EndAt(|v|) && !(|v| >= 2 && v[0] == '-' && v[1] == '-')
  {
    hide FindEnd, Trimmed, NoQuoteOrEnd;
    assert NoQuoteOrEnd("<!") by { NoQuoteInMark(); }
    Assoc("<!", v, ">");
  }

  lemma NoQuoteInMark()
    ensures NoQuoteOrEnd("<!")
  {
  }

  lemma ReadsDoctype(s: string, d: Doc, q: nat, v: string)
    requires Valid(d) && At(s, DoctypeText(v), q) && GoodDoctype(v)
    ensures var n := |DoctypeText(v)|;
            && q + n <= |s| && s[q] == '<' && s[q + n - 1] == '>'
            && HandleMarkup(s, d, q) == Next(AddLeaf(d, Span(Doctype, "", [], v, q, n)), q + n - 1, q + n - 1)
  {
    hide FindEnd, Trim;
    DoctypeEnd(s, q, v);
    assert Mid(s, q + 2, |v|) == s[q + 2..q + 2 + |v|];
    TrimNothing(v);
  }
}
