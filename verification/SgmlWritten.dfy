/**
  Tags as people write them (QSgmlTag.cpp:53-129): attributes with their values in double quotes, in
  single quotes or bare, keys and names in any case, and any white space in between.
*/
module SgmlWritten {
  import opened Sequences
  import opened QtText
  import opened SgmlModel
  import opened SgmlAttributes
  import opened SgmlScan
  import opened SgmlTagText
  import opened SgmlMarkup

  datatype Quotes = DoubleQuotes | SingleQuotes | NoQuotes

  /** An attribute with the white space in front of it. */
  datatype Written = Written(space: string, key: string, quotes: Quotes, value: string)

  function ValueOf(w: Written): string {
    match w.quotes
    case DoubleQuotes => "\"" + w.value + "\""
    case SingleQuotes => "\'" + w.value + "\'"
    case NoQuotes => w.value
  }

  function WrittenText(ws: seq<Written>): string {
    if ws == [] then "" else ws[0].space + ws[0].key + "=" + ValueOf(ws[0]) + WrittenText(ws[1..])
  }

  predicate IsBlank(c: char) { c == ' ' || c == '\r' || c == '\n' || c == '\t' }

  predicate Blanks(s: string) { s != "" && forall i :: 0 <= i < |s| ==> IsBlank(s[i]) }

  predicate GoodKey(s: string) {
    && s != "" && NoSpace(s) && NoChar(s, '=')
    && NoChar(s, '\"') && NoChar(s, '\'') && NoChar(s, '>')
  }

  /** In double quotes anything may stand but a double quote.  In single quotes and bare there is no
      quote; a bare value neither begins nor ends with white space. */
  predicate CanStand(w: Written) {
    && NoChar(w.value, '\"')
    && (!w.quotes.DoubleQuotes? ==> NoChar(w.value, '\''))
    && (w.quotes.NoQuotes? ==> w.value != "" && Trimmed(w.value) && NoChar(w.value, '>'))
  }

  predicate Readable(w: Written) { Blanks(w.space) && GoodKey(w.key) && CanStand(w) }

  predicate AllReadable(ws: seq<Written>) { forall i :: 0 <= i < |ws| ==> Readable(ws[i]) }

  /** An equals sign stands in double quotes only. */
  predicate GoodValue(w: Written) { CanStand(w) && (!w.quotes.DoubleQuotes? ==> NoChar(w.value, '=')) }

  predicate GoodWritten(w: Written) { Blanks(w.space) && GoodKey(w.key) && GoodValue(w) }

  predicate AllGood(ws: seq<Written>) { forall i :: 0 <= i < |ws| ==> GoodWritten(ws[i]) }

  lemma GoodIsReadable(w: Written)
    requires GoodWritten(w)
    ensures Readable(w) && CanStand(w) && Blanks(w.space) && GoodKey(w.key) && GoodValue(w)
  {
    hide CanStand, GoodKey, Blanks;
  }

  lemma AllAreReadable(ws: seq<Written>)
    requires AllGood(ws)
    ensures AllReadable(ws)
  {
    hide GoodWritten, Readable;
    forall i | 0 <= i < |ws| ensures Readable(ws[i]) { GoodIsReadable(ws[i]); }
  }

  /** The text behind an equals sign: a value, and the attributes that follow. */
  function Behind(w: Written, rest: seq<Written>): string { ValueOf(w) + WrittenText(rest) }

  // ----- the parts of the text

  lemma ValueEnds(w: Written)
    requires CanStand(w)
    ensures var v := ValueOf(w); v != "" && !IsSpace(v[0]) && !IsSpace(v[|v| - 1])
  {
  }

  lemma {:induction false} TextEnds(ws: seq<Written>)
    requires AllReadable(ws) && ws != []
    ensures var t := WrittenText(ws); t != "" && !IsSpace(t[|t| - 1])
    decreases |ws|
  {
    hide GoodKey;
    assert Readable(ws[0]);
    ValueEnds(ws[0]);
    if |ws| > 1 { TextEnds(ws[1..]); } else { assert WrittenText(ws[1..]) == ""; }
  }

  lemma BehindIsTrimmed(w: Written, rest: seq<Written>)
    requires Readable(w) && AllReadable(rest)
    ensures Trim(Behind(w, rest)) == Behind(w, rest) && Behind(w, rest) != ""
  {
    hide GoodKey, WrittenText;
    ValueEnds(w);
    if rest != [] { TextEnds(rest); } else { assert WrittenText([]) == "" by { NoText(); } }
    TrimNothing(Behind(w, rest));
  }

  lemma NoText()
    ensures WrittenText([]) == ""
  {
  }

  /** What stands in front of the next equals sign, and what behind it. */
  lemma Parts(w: Written, x: Written, rest: seq<Written>)
    ensures Behind(w, [x] + rest) == (ValueOf(w) + x.space + x.key) + ("=" + Behind(x, rest))
  {
    assert ([x] + rest)[1..] == rest;
    hide ValueOf;
    var t := WrittenText(rest);
    assert WrittenText([x] + rest) == x.space + x.key + "=" + ValueOf(x) + t;
  }

  lemma QuoteAt(w: Written, t: string)
    requires GoodValue(w) && w.quotes.DoubleQuotes?
    ensures var all := ValueOf(w) + t; FindChar(all, '\"', 0) == 0 && FindChar(all, '\"', 1) == |w.value| + 1
  {
    var v := w.value;
    assert ValueOf(w) + t == ("\"" + v) + ("\"" + t);
    FindCharHere("\"" + v, "\"" + t, '\"', 1);
  }

  /** The last value: no equals sign counts any more. */
  lemma NextEqualsNone(w: Written)
    requires GoodValue(w)
    ensures Behind(w, []) == ValueOf(w) && NextEquals(ValueOf(w)) == -1
  {
    assert ValueOf(w) + "" == ValueOf(w);
    var all := ValueOf(w);
    if w.quotes.DoubleQuotes? {
      QuoteAt(w, "");
      assert FindChar(all, '=', |all|) == -1;
    } else {
      assert NoChar(all, '=');
      assert FindChar(all, '=', 0) == -1;
    }
  }

  lemma NextEqualsQuoted(v: string, mid: string, tail: string)
    requires NoChar(v, '\"') && NoChar(mid, '=') && tail != "" && tail[0] == '='
    ensures NextEquals((("\"" + v + "\"") + mid) + tail) == |v| + 2 + |mid|
  {
    var head := ("\"" + v + "\"") + mid;
    var all := head + tail;
    assert all == ("\"" + v) + ("\"" + mid + tail);
    FindCharHere("\"" + v, "\"" + mid + tail, '\"', 1);
    assert FindChar(all, '\"', 0) == 0;
    assert forall k :: |v| + 2 <= k < |head| ==> head[k] == mid[k - |v| - 2];
    FindCharHere(head, tail, '=', |v| + 2);
    assert all[|head|] == '=';
  }

  lemma NextEqualsPlain(u: string, tail: string)
    requires NoChar(u, '=') && NoChar(u, '\"') && tail != "" && tail[0] == '='
    ensures NextEquals(u + tail) == |u|
  {
    FindCharHere(u, tail, '=', 0);
    assert forall k :: 0 <= k < |u| ==> (u + tail)[k] != '\"';
  }

  lemma NoCharBoth(a: string, b: string, c: char)
    requires NoChar(a, c) && NoChar(b, c)
    ensures NoChar(a + b, c)
  {
  }

  lemma PlainValue(w: Written)
    requires GoodValue(w) && !w.quotes.DoubleQuotes?
    ensures NoChar(ValueOf(w), '=') && NoChar(ValueOf(w), '\"')
  {
  }

  lemma QuotedValue(w: Written)
    requires GoodValue(w) && w.quotes.DoubleQuotes?
    ensures NoChar(w.value, '\"') && ValueOf(w) == "\"" + w.value + "\""
  {
  }

  /** The equals sign of the next attribute is found behind its key. */
  lemma NextEqualsIs(w: Written, x: Written, rest: seq<Written>)
    requires GoodValue(w) && Blanks(x.space) && GoodKey(x.key)
    ensures NextEquals(Behind(w, [x] + rest)) == |ValueOf(w)| + |x.space| + |x.key|
  {
    hide *;
    var mid, tail := x.space + x.key, "=" + Behind(x, rest);
    Parts(w, x, rest);
    Assoc(ValueOf(w), x.space, x.key);
    BetweenIsPlain(x);
    if w.quotes.DoubleQuotes? {
      QuotedValue(w);
      NextEqualsQuoted(w.value, mid, tail);
    } else {
      PlainValue(w);
      NoCharBoth(ValueOf(w), mid, '=');
      NoCharBoth(ValueOf(w), mid, '\"');
      NextEqualsPlain(ValueOf(w) + mid, tail);
    }
  }

  lemma BetweenIsPlain(x: Written)
    requires Blanks(x.space) && GoodKey(x.key)
    ensures NoChar(x.space + x.key, '=') && NoChar(x.space + x.key, '\"')
  {
  }

  lemma {:induction false} LastBlankIs(a: string, c: char, word: string)
    requires IsBlank(c) && NoSpace(word)
    ensures LastBlank(a + [c] + word) == |a|
    decreases |word|
  {
    if word == "" {
      assert a + [c] + word == a + [c];
    } else {
      var n := |word| - 1;
      var s := a + [c] + word;
      assert s[..|s| - 1] == a + [c] + word[..n] && s[|s| - 1] == word[n];
      LastBlankIs(a, c, word[..n]);
    }
  }

  lemma Cut(a: string, c: char, key: string, tail: string)
    ensures var all, e := (a + [c] + key) + ("=" + tail), |a| + 1 + |key|;
            && e < |all| && all[..e] == a + [c] + key && all[..|a|] == a && all[|a|..e] == [c] + key
            && all[e + 1..] == tail
  {
  }

  /** The value in front, and the scan behind it. */
  lemma ValueAndScan(sc: Scan, w: Written, x: Written, rest: seq<Written>)
    requires GoodWritten(w) && GoodWritten(x) && AllGood(rest) && sc.all == Behind(w, [x] + rest)
    ensures var e := |ValueOf(w)| + |x.space| + |x.key|;
            && e < |sc.all| && ValueText(sc.all, e) == ValueOf(w)
            && NextScan(sc, e) == Scan(x.key, Behind(x, rest), e)
  {
    hide *;
    GoodIsReadable(w);
    GoodIsReadable(x);
    Parts(w, x, rest);
    ValueEnds(w);
    AllAreReadable(rest);
    BehindIsTrimmed(x, rest);
    ValueInFront(sc, ValueOf(w), x.space, x.key, Behind(x, rest));
  }

  lemma ReadableParts(w: Written)
    requires Readable(w)
    ensures Blanks(w.space) && GoodKey(w.key) && CanStand(w)
  {
    hide Blanks, GoodKey, CanStand;
  }

  lemma ValueInFront(sc: Scan, value: string, space: string, key: string, tail: string)
    requires Blanks(space) && GoodKey(key) && sc.all == (value + space + key) + ("=" + tail)
    requires value != "" && !IsSpace(value[0]) && !IsSpace(value[|value| - 1]) && Trim(tail) == tail
    ensures var e := |value| + |space| + |key|;
            && e < |sc.all| && ValueText(sc.all, e) == value
            && NextScan(sc, e) == Scan(key, tail, e)
  {
    hide *;
    LastOfBlanks(space);
    var n := |space| - 1;
    var c, a := space[n], value + space[..n];
    var e := |a| + 1 + |key|;
    AsOneBlank(value, space, key);
    Cut(a, c, key, tail);
    KeyHasNoSpace(key);
    LastBlankIs(a, c, key);
    TrimKey(c, key);
    TrimBehind(value, space[..n]);
    ScanIs(sc, e, |a|);
  }

  lemma LastOfBlanks(space: string)
    requires Blanks(space)
    ensures space != "" && IsBlank(space[|space| - 1]) && AllSpace(space[..|space| - 1]) && AllSpace(space)
  {
  }

  lemma AsOneBlank(value: string, space: string, key: string)
    requires space != ""
    ensures var n := |space| - 1; value + space + key == (value + space[..n]) + [space[n]] + key
  {
    assert space == space[..|space| - 1] + [space[|space| - 1]];
  }

  lemma KeyHasNoSpace(key: string)
    requires GoodKey(key)
    ensures NoSpace(key)
  {
  }

  lemma TrimBehind(value: string, w: string)
    requires AllSpace(w) && value != "" && !IsSpace(value[0]) && !IsSpace(value[|value| - 1])
    ensures Trim(value + w) == value
  {
    assert value + w == "" + value + w;
    TrimAround("", value, w);
  }

  lemma ScanIs(sc: Scan, e: int, st: int)
    requires 0 <= st <= e < |sc.all| && LastBlank(sc.all[..e]) == st
    ensures ValueText(sc.all, e) == Trim(sc.all[..st])
    ensures NextScan(sc, e) == Scan(Trim(sc.all[st..e]), Trim(sc.all[e + 1..]), e)
  {
    hide LastBlank, Trim;
    assert Mid(sc.all, st, e - st) == sc.all[st..e];
    assert MidAll(sc.all, e + 1) == sc.all[e + 1..];
  }

  lemma TrimKey(c: char, key: string)
    requires IsBlank(c) && GoodKey(key)
    ensures Trim([c] + key) == key && Trim(key) == key
  {
    assert [c] + key == [c] + key + "";
    TrimAround([c], key, "");
    TrimNothing(key);
  }

  // ----- the attributes of a tag

  /** The attributes that are stored one after the other, with their keys in lower case. */
  function StoreAll(a: Attributes, ws: seq<Written>): Attributes
    decreases |ws|
  {
    if ws == [] then a else StoreAll(Put(a, ToLower(ws[0].key), ws[0].value), ws[1..])
  }

  lemma UnquotesValue(w: Written)
    requires CanStand(w)
    ensures ValueOf(w) != "" && Unquote(ValueOf(w)) == w.value
  {
    var v, s := w.value, ValueOf(w);
    if !w.quotes.NoQuotes? { assert s[1..1 + |v|] == v; }
  }

  lemma {:induction false} ReadsWritten(sc: Scan, w: Written, rest: seq<Written>, done: Attributes)
    requires sc.endName != -1 && sc.attrName == w.key && GoodWritten(w) && AllGood(rest)
    requires sc.all == Behind(w, rest)
    ensures ReadAttributes(sc, done) == Some(StoreAll(done, [w] + rest))
    decreases |rest|
  {
    UnquotesValue(w);
    assert ([w] + rest)[1..] == rest;
    if rest == [] {
      NextEqualsNone(w);
      ValueEnds(w);
      TrimNothing(ValueOf(w));
    } else {
      var x, more := rest[0], rest[1..];
      assert rest == [x] + more && GoodWritten(x);
      NextEqualsIs(w, x, more);
      ValueAndScan(sc, w, x, more);
      hide Behind, GoodWritten, ValueText, NextScan, NextEquals, Unquote, Put, ValueOf;
      var e := NextEquals(sc.all);
      ReadsWritten(NextScan(sc, e), x, more, Put(done, ToLower(w.key), w.value));
    }
  }

  predicate GoodName(s: string) { GoodKey(s) && s[0] != '!' && s[0] != '/' }

  /** A name ends at the first blank; another kind of white space would belong to it. */
  predicate ReadableTag(name: string, ws: seq<Written>) {
    GoodName(name) && AllReadable(ws) && (ws != [] ==> ws[0].space[0] == ' ')
  }

  predicate GoodTag(name: string, ws: seq<Written>) { AllGood(ws) && ReadableTag(name, ws) }

  lemma TagIsReadable(name: string, ws: seq<Written>)
    requires GoodTag(name, ws)
    ensures ReadableTag(name, ws) && AllGood(ws)
  {
    hide AllGood, ReadableTag;
  }

  lemma GoodFront(ws: seq<Written>)
    requires AllGood(ws) && ws != []
    ensures GoodWritten(ws[0]) && AllGood(ws[1..])
  {
    hide GoodWritten;
  }

  function TagWritten(name: string, ws: seq<Written>): string { name + WrittenText(ws) }

  lemma NameEnds(name: string, ws: seq<Written>)
    requires ReadableTag(name, ws)
    ensures var s := TagWritten(name, ws);
            && Trim(s) == s && FindChar(s, ' ', 0) == (if ws == [] then -1 else |name|)
            && Left(s, FindChar(s, ' ', 0)) == name
  {
    var s, t := TagWritten(name, ws), WrittenText(ws);
    if ws == [] {
      assert s == name;
    } else {
      TextEnds(ws);
      assert Readable(ws[0]);
      assert t[0] == ' ' by { FirstOfText(ws); }
      hide WrittenText, Readable;
      FindCharHere(name, t, ' ', 0);
      assert s[..|name|] == name;
    }
    TrimNothing(s);
  }

  lemma FirstOfText(ws: seq<Written>)
    requires ws != [] && ws[0].space != ""
    ensures WrittenText(ws) != "" && WrittenText(ws)[0] == ws[0].space[0]
  {
  }

  lemma NameOfWritten(name: string, ws: seq<Written>)
    requires ReadableTag(name, ws)
    ensures TagName(TagWritten(name, ws)) == Some(ToLower(name))
  {
    NameEnds(name, ws);
    TrimNothing(name);
    hide TagWritten, FindChar, Left, Trim;
    LowerStart(name);
  }

  lemma LowerStart(name: string)
    requires GoodName(name)
    ensures ToLower(name) != "" && ToLower(name)[0] != '!' && ToLower(name)[0] != '/'
  {
  }

  lemma FirstPart(name: string, ws: seq<Written>)
    requires ReadableTag(name, ws)
    ensures ws == [] ==> FirstScan(AttributePart(TagWritten(name, ws))).endName == -1
    ensures ws != [] ==>
              var sc := FirstScan(AttributePart(TagWritten(name, ws)));
              sc.endName != -1 && sc.attrName == ws[0].key && sc.all == Behind(ws[0], ws[1..])
  {
    hide *;
    var s := TagWritten(name, ws);
    NameEnds(name, ws);
    PartBehind(s, FindChar(s, ' ', 0));
    if ws == [] {
      OnlyName(name, ws);
    } else {
      ReadableHead(name, ws);
      var w, rest := ws[0], ws[1..];
      TextBehindName(name, ws);
      BodyReads(w, rest);
      MidFrom(s, |name|);
    }
  }

  lemma PartBehind(s: string, k: int)
    requires Trim(s) == s && FindChar(s, ' ', 0) == k
    ensures AttributePart(s) == Trim(MidAll(s, k))
  {
    hide Trim, MidAll, FindChar;
  }

  lemma OnlyName(name: string, ws: seq<Written>)
    requires ReadableTag(name, ws) && ws == []
    ensures FirstScan(Trim(MidAll(TagWritten(name, ws), -1))).endName == -1
  {
    assert TagWritten(name, ws) == name;
    assert MidAll(name, -1) == name;
    TrimNothing(name);
    assert FindChar(name, '=', 0) == -1;
  }

  lemma ReadableHead(name: string, ws: seq<Written>)
    requires ReadableTag(name, ws) && ws != []
    ensures Readable(ws[0]) && AllReadable(ws[1..]) && ws == [ws[0]] + ws[1..]
  {
    hide GoodName, Readable;
  }

  lemma TextBehindName(name: string, ws: seq<Written>)
    requires ws != []
    ensures TagWritten(name, ws) == name + (ws[0].space + (ws[0].key + ("=" + Behind(ws[0], ws[1..]))))
  {
    var w, t := ws[0], WrittenText(ws[1..]);
    FourParts(w.space, w.key, ValueOf(w), t);
  }

  lemma FourParts(a: string, b: string, c: string, d: string)
    ensures a + b + "=" + c + d == a + (b + ("=" + (c + d)))
  {
  }

  lemma MidFrom(s: string, k: nat)
    requires k <= |s|
    ensures MidAll(s, k) == s[k..]
  {
  }

  lemma BodyReads(w: Written, rest: seq<Written>)
    requires Readable(w) && AllReadable(rest)
    ensures var body := w.key + ("=" + Behind(w, rest));
            && Trim(w.space + body) == body
            && var sc := FirstScan(body);
               sc.endName != -1 && sc.attrName == w.key && sc.all == Behind(w, rest)
  {
    hide *;
    ReadableParts(w);
    BehindIsTrimmed(w, rest);
    BehindEnds(w, rest);
    LastOfBlanks(w.space);
    TrimKey(' ', w.key);
    ScanKey(w.key, Behind(w, rest));
    TrimFront(w.space, w.key, "=" + Behind(w, rest));
  }

  lemma ScanKey(key: string, tail: string)
    requires GoodKey(key) && Trim(tail) == tail && Trim(key) == key
    ensures FirstScan(key + ("=" + tail)) == Scan(key, tail, |key|)
  {
    var body := key + ("=" + tail);
    FindCharHere(key, "=" + tail, '=', 0);
    hide Trim;
    assert Left(body, |key|) == key;
    assert MidAll(body, |key| + 1) == body[|key| + 1..] == tail;
  }

  lemma TrimFront(space: string, key: string, tail: string)
    requires AllSpace(space) && GoodKey(key) && tail != "" && !IsSpace(tail[|tail| - 1])
    ensures Trim(space + (key + tail)) == key + tail
  {
    assert space + (key + tail) + "" == space + (key + tail);
    TrimAround(space, key + tail, "");
  }

  lemma BehindEnds(w: Written, rest: seq<Written>)
    requires Readable(w) && AllReadable(rest)
    ensures var t := Behind(w, rest); t != "" && !IsSpace(t[|t| - 1])
  {
    hide GoodKey;
    ValueEnds(w);
    if rest != [] { TextEnds(rest); } else { NoText(); }
  }

  /** The name of a written tag, in lower case, and the attributes stored one after the other. */
  lemma ReadsTag(name: string, ws: seq<Written>)
    requires GoodTag(name, ws)
    ensures ParseTag(TagWritten(name, ws)) == Some((ToLower(name), StoreAll([], ws)))
  {
    hide *;
    TagIsReadable(name, ws);
    NameOfWritten(name, ws);
    FirstPart(name, ws);
    var sc := FirstScan(AttributePart(TagWritten(name, ws)));
    if ws != [] {
      ReadableHead(name, ws);
      GoodFront(ws);
      ReadsWritten(sc, ws[0], ws[1..], []);
    } else {
      NothingToRead(sc, ws);
    }
    ParsesTo(TagWritten(name, ws), ToLower(name), StoreAll([], ws));
  }

  lemma NothingToRead(sc: Scan, ws: seq<Written>)
    requires sc.endName == -1 && ws == []
    ensures ReadAttributes(sc, []) == Some(StoreAll([], ws))
  {
  }

  lemma ParsesTo(inner: string, name: string, a: Attributes)
    requires TagName(inner) == Some(name) && ReadAttributes(FirstScan(AttributePart(inner)), []) == Some(a)
    ensures ParseTag(inner) == Some((name, a))
  {
    hide TagName, ReadAttributes, FirstScan, AttributePart;
  }

  // ----- what is stored

  function KeysAndValues(ws: seq<Written>): (r: Attributes)
    ensures |r| == |ws| && forall i :: 0 <= i < |ws| ==> r[i] == (ToLower(ws[i].key), ws[i].value)
  {
    seq(|ws|, i requires 0 <= i < |ws| => (ToLower(ws[i].key), ws[i].value))
  }

  predicate KeysDiffer(ws: seq<Written>) {
    forall i, j :: 0 <= i < j < |ws| ==> ToLower(ws[i].key) != ToLower(ws[j].key)
  }

  lemma {:induction false} StoresInOrder(a: Attributes, ws: seq<Written>)
    requires KeysDiffer(ws) && forall i :: 0 <= i < |ws| ==> NoKey(a, ToLower(ws[i].key))
    ensures StoreAll(a, ws) == a + KeysAndValues(ws)
    decreases |ws|
  {
    hide ToLower, Put, NoKey;
    if ws != [] {
      var key := ToLower(ws[0].key);
      PutNew(a, key, ws[0].value);
      var a1, rest := a + [(key, ws[0].value)], ws[1..];
      forall i | 0 <= i < |rest| ensures NoKey(a1, ToLower(rest[i].key)) {
        assert rest[i] == ws[i + 1];
        NoKeySnoc(a, key, ws[0].value, ToLower(ws[i + 1].key));
      }
      StoresInOrder(a1, rest);
      FirstPair(ws);
      Assoc(a, [(key, ws[0].value)], KeysAndValues(rest));
    }
  }

  lemma FirstPair(ws: seq<Written>)
    requires ws != []
    ensures KeysAndValues(ws) == [(ToLower(ws[0].key), ws[0].value)] + KeysAndValues(ws[1..])
  {
    hide ToLower;
  }

  /** Writing the attributes in whatever quotes, and reading them, gives exactly the keys, in lower case,
      and the values, in order. */
  lemma ReadsAttributesAsWritten(name: string, ws: seq<Written>)
    requires GoodTag(name, ws) && KeysDiffer(ws)
    ensures ParseTag(TagWritten(name, ws)) == Some((ToLower(name), KeysAndValues(ws)))
  {
    hide GoodTag, TagWritten, ParseTag;
    ReadsTag(name, ws);
    StoresInOrder([], ws);
    assert [] + KeysAndValues(ws) == KeysAndValues(ws);
  }

  lemma {:induction false} LookupPut(a: Attributes, key: string, value: string, other: string)
    ensures Lookup(Put(a, key, value), other) == if other == key then Some(value) else Lookup(a, other)
  {
    if a != [] && a[0].0 != key {
      LookupPut(a[1..], key, value, other);
      assert Put(a, key, value)[1..] == Put(a[1..], key, value);
    } else if a != [] {
      assert Put(a, key, value)[1..] == a[1..];
    }
  }

  /** No attribute in `ws` has that key. */
  predicate Unwritten(ws: seq<Written>, key: string) {
    forall i :: 0 <= i < |ws| ==> ToLower(ws[i].key) != key
  }

  lemma {:induction false} LookupOther(a: Attributes, ws: seq<Written>, key: string)
    requires Unwritten(ws, key)
    ensures Lookup(StoreAll(a, ws), key) == Lookup(a, key)
    decreases |ws|
  {
    hide ToLower, Put, Lookup;
    if ws != [] {
      LookupPut(a, ToLower(ws[0].key), ws[0].value, key);
      LookupOther(Put(a, ToLower(ws[0].key), ws[0].value), ws[1..], key);
    }
  }

  lemma {:induction false} LookupStored(a: Attributes, ws: seq<Written>, k: nat)
    requires k < |ws| && Unwritten(ws[k + 1..], ToLower(ws[k].key))
    ensures Lookup(StoreAll(a, ws), ToLower(ws[k].key)) == Some(ws[k].value)
    decreases |ws|
  {
    hide ToLower, Put, Lookup, Unwritten;
    var a1 := Put(a, ToLower(ws[0].key), ws[0].value);
    if k == 0 {
      LookupPut(a, ToLower(ws[0].key), ws[0].value, ToLower(ws[0].key));
      LookupOther(a1, ws[1..], ToLower(ws[0].key));
    } else {
      assert ws[1..][k..] == ws[k + 1..];
      LookupStored(a1, ws[1..], k - 1);
    }
  }

  /** When a key is written more than once, in whatever case, its last value counts. */
  lemma LastValueCounts(name: string, ws: seq<Written>, k: int)
    requires GoodTag(name, ws) && 0 <= k < |ws|
    requires forall i :: k < i < |ws| ==> ToLower(ws[i].key) != ToLower(ws[k].key)
    ensures var r := ParseTag(TagWritten(name, ws));
            r.Some? && r.value.0 == ToLower(name) && Lookup(r.value.1, ToLower(ws[k].key)) == Some(ws[k].value)
  {
    hide GoodTag, TagWritten, ParseTag, ToLower, Lookup;
    ReadsTag(name, ws);
    LookupStored([], ws, k);
  }

  // ----- written tags in a text

  /** A value in single quotes is jumped over, too. */
  lemma FindEndJumpsSingle(s: string, i: nat, value: string)
    requires At(s, "\'" + value + "\'", i) && NoChar(value, '\'')
    ensures FindEnd(s, i) == FindEnd(s, i + |value| + 2)
  {
    var q := "\'" + value + "\'";
    AtChar(s, q, i, 0);
    AtChar(s, q, i, |value| + 1);
    forall k | i + 1 <= k < i + 1 + |value| ensures s[k] != '\'' {
      AtChar(s, q, i, k - i);
      assert q[k - i] == value[k - i - 1];
    }
    assert FindChar(s, '\'', i + 1) == i + 1 + |value|;
  }

  lemma FindEndOverValue(s: string, i: nat, w: Written)
    requires CanStand(w) && At(s, ValueOf(w), i)
    ensures FindEnd(s, i) == FindEnd(s, i + |ValueOf(w)|)
  {
    hide FindEnd, At;
    match w.quotes
    case DoubleQuotes => FindEndJumps(s, i, w.value);
    case SingleQuotes => FindEndJumpsSingle(s, i, w.value);
    case NoQuotes => FindEndOverWord(s, i, w.value);
  }

  lemma PlainHead(w: Written)
    requires Blanks(w.space) && GoodKey(w.key)
    ensures NoQuoteOrEnd(w.space + w.key + "=")
  {
  }

  lemma FirstWritten(ws: seq<Written>)
    requires ws != []
    ensures var w := ws[0];
            WrittenText(ws) == (w.space + w.key + "=") + (ValueOf(w) + WrittenText(ws[1..]))
  {
    hide ValueOf;
    var w := ws[0];
    var head := w.space + w.key + "=";
    Assoc(head, ValueOf(w), WrittenText(ws[1..]));
  }

  lemma {:induction false} FindEndOverWritten(s: string, i: nat, ws: seq<Written>)
    requires AllReadable(ws) && At(s, WrittenText(ws), i)
    ensures FindEnd(s, i) == FindEnd(s, i + |WrittenText(ws)|)
    decreases |ws|
  {
    hide *;
    if ws == [] {
      NoText();
    } else {
      var w := ws[0];
      var head, tail := w.space + w.key + "=", WrittenText(ws[1..]);
      FirstIsReadable(ws);
      FirstWritten(ws);
      AtSplit(s, head, ValueOf(w) + tail, i);
      AtSplit(s, ValueOf(w), tail, i + |head|);
      PlainHead(w);
      FindEndOverWord(s, i, head);
      FindEndOverValue(s, i + |head|, w);
      FindEndOverWritten(s, i + |head| + |ValueOf(w)|, ws[1..]);
    }
  }

  lemma FirstIsReadable(ws: seq<Written>)
    requires AllReadable(ws) && ws != []
    ensures Blanks(ws[0].space) && GoodKey(ws[0].key) && CanStand(ws[0]) && AllReadable(ws[1..])
  {
    hide Blanks, GoodKey, CanStand;
    assert Readable(ws[0]);
  }

  lemma NameIsPlain(name: string, ws: seq<Written>)
    requires ReadableTag(name, ws)
    ensures NoQuoteOrEnd("<") && NoQuoteOrEnd(name) && AllReadable(ws)
    ensures name != "" && name[0] != '!' && name[0] != '/' && TagWritten(name, ws) == name + WrittenText(ws)
  {
    hide AllReadable, WrittenText;
  }

  lemma FindEndOverTag(s: string, q: nat, name: string, ws: seq<Written>)
    requires ReadableTag(name, ws) && At(s, "<" + TagWritten(name, ws), q)
    ensures FindEnd(s, q) == FindEnd(s, q + 1 + |TagWritten(name, ws)|)
    ensures q + 1 < |s| && s[q] == '<' && s[q + 1] == name[0]
  {
    hide *;
    NameIsPlain(name, ws);
    AtSplit(s, "<", TagWritten(name, ws), q);
    AtSplit(s, name, WrittenText(ws), q + 1);
    AtChar(s, "<", q, 0);
    AtChar(s, name, q + 1, 0);
    AtSlice(s, name, q + 1);
    FindEndOverWord(s, q, "<");
    FindEndOverWord(s, q + 1, name);
    FindEndOverWritten(s, q + 1 + |name|, ws);
  }

  /** A start tag as written, anywhere in a text: one more open tag with that name and these attributes.
      A slash in front of the closing bracket would make it a standalone tag. */
  lemma ReadsStartAsWritten(s: string, d: Doc, q: nat, name: string, ws: seq<Written>)
    requires Valid(d) && GoodTag(name, ws) && KeysDiffer(ws)
    requires At(s, "<" + TagWritten(name, ws) + ">", q)
    requires var t := TagWritten(name, ws); t != "" && t[|t| - 1] != '/'
    ensures var n := |TagWritten(name, ws)| + 2;
            HandleMarkup(s, d, q) ==
              Next(AddOpen(d, Span(StartTag, ToLower(name), KeysAndValues(ws), "", q, n)), q + n - 1, q + n - 1)
  {
    hide *;
    TagIsReadable(name, ws);
    var inner := TagWritten(name, ws);
    AtSplit(s, "<" + inner, ">", q);
    FindEndOverTag(s, q, name, ws);
    NameIsPlain(name, ws);
    EndOfTag(s, q, inner, ">");
    NameEnds(name, ws);
    ReadsAttributesAsWritten(name, ws);
    MidIs(s, q + 1, |inner|);
    ScansTag(s, d, q, q + 1 + |inner|, inner, ToLower(name), KeysAndValues(ws));
  }

  /** With the slash behind it, it is a standalone tag, whatever stands in front of the slash. */
  lemma ReadsSingleAsWritten(s: string, d: Doc, q: nat, name: string, ws: seq<Written>)
    requires Valid(d) && GoodTag(name, ws) && KeysDiffer(ws)
    requires At(s, "<" + TagWritten(name, ws) + "/>", q)
    ensures var n := |TagWritten(name, ws)| + 3;
            HandleMarkup(s, d, q) ==
              Next(AddLeaf(d, Span(Standalone, ToLower(name), KeysAndValues(ws), "", q, n)), q + n - 1, q + n - 1)
  {
    hide *;
    TagIsReadable(name, ws);
    var inner := TagWritten(name, ws);
    var n := |inner|;
    AtSplit(s, "<" + inner, "/>", q);
    FindEndOverTag(s, q, name, ws);
    NameIsPlain(name, ws);
    EndOfTag(s, q, inner, "/>");
    NameEnds(name, ws);
    TagIsTrimmed(name, ws);
    SlashTrimmed(inner);
    ReadsAttributesAsWritten(name, ws);
    MidIs(s, q + 1, n + 1);
    LeftIs(inner);
    assert s[q + 1..q + 2 + n] == inner + "/";
    ScansTag(s, d, q, q + 2 + n, inner + "/", ToLower(name), KeysAndValues(ws));
  }

  lemma TagIsTrimmed(name: string, ws: seq<Written>)
    requires Trim(TagWritten(name, ws)) == TagWritten(name, ws)
    ensures Trimmed(TagWritten(name, ws))
  {
  }
}
