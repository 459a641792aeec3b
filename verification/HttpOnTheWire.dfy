/**
  What the head of a response says on the wire (httpresponse.cpp:40-147), line by line: the status with its
  reason, the headers, the framing that the first write adds, and the cookies.
*/
module HttpOnTheWire {
  import opened Sequences
  import opened QtText
  import opened Numbers
  import opened QtMaps
  import opened HttpCookies
  import opened HttpFraming

  // ----- the first line

  predicate ThreeDigits(n: int) { 100 <= n <= 999 }

  /** A text without a line break in it. */
  predicate OneLine(s: string) { Find(s, CRLF, 0) == -1 }

  lemma NumberOfThree(n: int)
    requires ThreeDigits(n)
    ensures |Number(n)| == 3 && ValueOf(Number(n), 10) == Some(n as nat) && '\r' !in Number(n)
  {
    ValueOfDigits(n, 10);
    DigitsHaveNoReturn(n, 10);
    assert Number(n) == Digits(n, 10);
    assert |Digits(n / 10, 10)| == |Digits(n / 10 / 10, 10)| + 1;
  }

  lemma StatusLineParts(r: Response)
    requires ThreeDigits(r.status)
    ensures var line := StatusLine(r);
            && |line| == 13 + |r.reason| && line[12] == ' ' && line[13..] == r.reason
            && StatusOf(line) == Some(r.status as nat)
  {
    NumberOfThree(r.status);
    hide Number, ValueOf;
    var n, line := Number(r.status), StatusLine(r);
    assert line[..9] == "HTTP/1.1 ";
    assert line[9..12] == n;
  }

  lemma NoBreakBehind(a: string, b: string)
    requires '\r' !in a && OneLine(b)
    ensures OneLine(a + b)
  {
    hide Find, At;
    forall k | 0 <= k ensures !At(a + b, CRLF, k) {
      BreakAt(a + b, k);
      BreakAt(b, k - |a|);
    }
  }

  lemma StatusIsOneLine(r: Response)
    requires ThreeDigits(r.status) && OneLine(r.reason)
    ensures OneLine(StatusLine(r))
  {
    NumberOfThree(r.status);
    hide OneLine, Number, ValueOf;
    NoBreakBehind("HTTP/1.1 " + Number(r.status) + " ", r.reason);
  }

  /** The first line of a text carries that status, with exactly that reason behind it. */
  predicate Says(text: string, status: int, reason: string) {
    var l := ReadLine(text);
    && l.Some? && StatusOf(l.value.0) == (if status >= 0 then Some(status) else None)
    && |l.value.0| == 13 + |reason| && l.value.0[12] == ' ' && l.value.0[13..] == reason
  }

  /** What is behind the first line. */
  function BehindLine(text: string): string {
    match ReadLine(text)
    case None => ""
    case Some(l) => l.1
  }

  lemma HeadStartsWith(r: Response, body: string)
    requires OneLine(StatusLine(r))
    ensures ReadLine(HeadText(r) + body) == Some((StatusLine(r), FieldText(AllFields(r)) + CRLF + body))
  {
    hide StatusLine, FieldText, AllFields;
    var line, fields := StatusLine(r), FieldText(AllFields(r));
    LineReads(line, fields + CRLF + body);
    hide Find;
    assert HeadText(r) + body == line + CRLF + (fields + CRLF + body);
  }

  /** Any status of three digits goes out as it is, and the reason with it. */
  lemma StatusGoesOut(r: Response, body: string)
    requires ThreeDigits(r.status) && OneLine(r.reason)
    ensures Says(HeadText(r) + body, r.status, r.reason)
    ensures BehindLine(HeadText(r) + body) == FieldText(AllFields(r)) + CRLF + body
  {
    hide *;
    StatusIsOneLine(r);
    StatusLineParts(r);
    HeadStartsWith(r, body);
    SaysIs(HeadText(r) + body, StatusLine(r), FieldText(AllFields(r)) + CRLF + body, r.status, r.reason);
  }

  lemma SaysIs(text: string, line: string, rest: string, status: int, reason: string)
    requires ReadLine(text) == Some((line, rest)) && status >= 0 && StatusOf(line) == Some(status as nat)
    requires |line| == 13 + |reason| && line[12] == ' ' && line[13..] == reason
    ensures Says(text, status, reason) && BehindLine(text) == rest
  {
    hide ReadLine, StatusOf;
  }

  // ----- the fields

  predicate CleanName(name: string) { ':' !in name && '\r' !in name }

  predicate CleanPairs(fs: Fields) { forall i :: 0 <= i < |fs| ==> CleanName(fs[i].0) && '\r' !in fs[i].1 }

  /** Names and values as a decoder sees them: white space around a value is not part of it. */
  function Plain(fs: Fields): (r: Fields)
    ensures |r| == |fs| && forall i :: 0 <= i < |fs| ==> r[i] == (fs[i].0, Trim(fs[i].1))
  {
    seq(|fs|, i requires 0 <= i < |fs| => (fs[i].0, Trim(fs[i].1)))
  }

  lemma {:induction false} DecodedIsPlain(fs: Fields)
    requires CleanPairs(fs)
    ensures Decoded(fs) == Plain(fs)
    decreases |fs|
  {
    hide *;
    if fs == [] {
      NoValues("");
      assert Plain(fs) == [];
    } else {
      FirstIsClean(fs);
      OneField(fs[0].0, fs[0].1);
      DecodedIsPlain(fs[1..]);
      DecodedAppend([fs[0]], fs[1..]);
      FirstPlain(fs);
    }
  }

  lemma FirstIsClean(fs: Fields)
    requires CleanPairs(fs) && fs != []
    ensures CleanPairs(fs[1..]) && ':' !in fs[0].0 && '\r' !in fs[0].0 && '\r' !in fs[0].1
    ensures fs == [(fs[0].0, fs[0].1)] + fs[1..] && fs[0] == (fs[0].0, fs[0].1)
  {
    hide CleanName;
    NameParts(fs[0].0);
  }

  lemma NameParts(name: string)
    requires CleanName(name)
    ensures ':' !in name && '\r' !in name
  {
  }

  lemma FirstPlain(fs: Fields)
    requires fs != []
    ensures Plain(fs) == [(fs[0].0, Trim(fs[0].1))] + Plain(fs[1..])
  {
    hide Trim;
  }

  lemma PairIsClean(name: string, value: string)
    requires CleanName(name) && '\r' !in value
    ensures CleanText(name + ": " + value)
  {
    var line := name + ": " + value;
    NoReturn(line);
    hide Find;
    assert Lines(line) == [line];
  }

  lemma PairsAreClean(fs: Fields)
    requires CleanPairs(fs)
    ensures CleanFields(fs)
  {
    hide CleanText, CleanName;
    forall i | 0 <= i < |fs| ensures CleanText(fs[i].0 + ": " + fs[i].1) { PairIsClean(fs[i].0, fs[i].1); }
  }

  /** The headers in their order, and behind them a Set-Cookie field for every cookie. */
  predicate HeadersAndCookies(fs: Fields, headers: StringMap<string>, cookies: StringMap<Cookie>) {
    && |fs| == |headers| + |cookies|
    && (forall i :: 0 <= i < |headers| ==> fs[i] == (headers[i].0, Trim(headers[i].1)))
    && (forall j :: 0 <= j < |cookies| ==>
      var f := fs[|headers| + j]; f.0 == "Set-Cookie" && ParseCookie(f.1) == cookies[j].1.(secure := false))
  }

  /** Headers and cookies that put no line break and no second colon into a line. */
  predicate CleanHeaders(headers: StringMap<string>, cookies: StringMap<Cookie>) {
    && CleanPairs(headers)
    && forall j :: 0 <= j < |cookies| ==>
      Clean(cookies[j].1) && NoReturnIn(cookies[j].1)
  }

  predicate NoReturnIn(c: Cookie) {
    '\r' !in c.name && '\r' !in c.value && '\r' !in c.comment && '\r' !in c.domain && '\r' !in c.path
  }

  lemma {:induction false} TailHasNoReturn(ps: seq<string>)
    requires forall i :: 0 <= i < |ps| ==> '\r' !in ps[i]
    ensures '\r' !in TailText(ps)
    decreases |ps|
  {
    if ps != [] { TailHasNoReturn(ps[1..]); }
  }

  lemma OptionHasNoReturn(key: string, value: string)
    requires '\r' !in key && '\r' !in value
    ensures forall i :: 0 <= i < |OptField(key, value)| ==> '\r' !in OptField(key, value)[i]
    ensures '\r' !in Field(key, value)
  {
  }

  lemma NumberHasNoReturn(i: int)
    ensures '\r' !in Number(i)
  {
    if i < 0 { DigitsHaveNoReturn(-i, 10); } else { DigitsHaveNoReturn(i, 10); }
  }

  lemma OptionsHaveNoReturn(c: Cookie)
    requires NoReturnIn(c)
    ensures forall i :: 0 <= i < |Options(c)| ==> '\r' !in Options(c)[i]
  {
    hide OptField, Field, Number;
    OptionHasNoReturn("Comment", c.comment);
    OptionHasNoReturn("Domain", c.domain);
    NumberHasNoReturn(c.maxAge);
    OptionHasNoReturn("Max-Age", Age(c));
    OptionHasNoReturn("Path", c.path);
    NumberHasNoReturn(c.version);
    OptionHasNoReturn("Version", Number(c.version));
  }

  /** The printed cookie is one line without white space around it. */
  lemma CookieIsOneLine(c: Cookie)
    requires Clean(c) && NoReturnIn(c)
    ensures '\r' !in CookieText(c) && Trimmed(CookieText(c))
  {
    hide *;
    OptionsHaveNoReturn(c);
    TailHasNoReturn(Options(c));
    NameHasNoReturn(c);
    OptionHasNoReturn(c.name, c.value);
    CookieTextIs(c);
    CookieStarts(c);
    CookieEnds(c);
    StartsAndEnds(CookieText(c));
  }

  lemma NameHasNoReturn(c: Cookie)
    requires NoReturnIn(c)
    ensures '\r' !in c.name && '\r' !in c.value
  {
  }

  lemma StartsAndEnds(s: string)
    requires s != "" && !IsSpace(s[0]) && !IsSpace(s[|s| - 1])
    ensures Trimmed(s)
  {
  }

  lemma CookieTextIs(c: Cookie)
    ensures CookieText(c) == Field(c.name, c.value) + TailText(Options(c))
  {
    hide Field, TailText, Options;
  }

  lemma CookieStarts(c: Cookie)
    requires Clean(c)
    ensures CookieText(c) != "" && !IsSpace(CookieText(c)[0])
  {
    hide TailText, Options;
  }

  lemma CookieEnds(c: Cookie)
    ensures var t := CookieText(c); t != "" && !IsSpace(t[|t| - 1])
  {
    hide *;
    var n := Number(c.version);
    NumberEnds(c.version);
    LastOption(c);
    var ps := Options(c);
    TailAppend(ps[..|ps| - 1], [ps[|ps| - 1]]);
    assert ps == ps[..|ps| - 1] + [ps[|ps| - 1]];
    OneTail(Field("Version", n));
    FieldEnds("Version", n);
    CookieTextIs(c);
  }

  lemma NumberEnds(i: int)
    ensures var n := Number(i); n != "" && !IsSpace(n[|n| - 1])
  {
    SignsAreNoDigits();
  }

  lemma LastOption(c: Cookie)
    ensures var ps := Options(c); ps != [] && ps[|ps| - 1] == Field("Version", Number(c.version))
  {
    hide FirstOptions, Field, Number;
  }

  lemma OneTail(p: string)
    ensures TailText([p]) == "; " + p
  {
    assert [p][1..] == [];
    assert TailText([]) == "";
  }

  lemma FieldEnds(key: string, value: string)
    requires value != ""
    ensures var f := Field(key, value); f != "" && f[|f| - 1] == value[|value| - 1]
  {
  }

  lemma {:induction false} CookieFieldsAre(cookies: StringMap<Cookie>)
    ensures |CookieFields(cookies)| == |cookies|
    ensures forall j :: 0 <= j < |cookies| ==>
              CookieFields(cookies)[j] == ("Set-Cookie", CookieText(cookies[j].1))
    decreases |cookies|
  {
    hide CookieText;
    if cookies != [] {
      CookieFieldsAre(cookies[1..]);
      var rest := CookieFields(cookies[1..]);
      forall j | 0 <= j < |cookies| ensures CookieFields(cookies)[j] == ("Set-Cookie", CookieText(cookies[j].1)) {
        if j > 0 { assert cookies[j] == cookies[1..][j - 1] && CookieFields(cookies)[j] == rest[j - 1]; }
      }
    }
  }

  lemma AllAreClean(r: Response)
    requires CleanHeaders(r.headers, r.cookies)
    ensures CleanPairs(AllFields(r))
  {
    hide CookieText, Trimmed, Clean, NoReturnIn;
    CookieFieldsAre(r.cookies);
    var fs := AllFields(r);
    forall i | 0 <= i < |fs| ensures CleanName(fs[i].0) && '\r' !in fs[i].1 {
      if i >= |r.headers| {
        assert fs[i] == ("Set-Cookie", CookieText(r.cookies[i - |r.headers|].1));
        CookieIsOneLine(r.cookies[i - |r.headers|].1);
      }
    }
  }

  lemma PlainIsThem(r: Response)
    requires CleanHeaders(r.headers, r.cookies)
    ensures HeadersAndCookies(Plain(AllFields(r)), r.headers, r.cookies)
  {
    hide CookieText, Trim, Trimmed, Clean, NoReturnIn, ParseCookie, CleanPairs;
    CookieFieldsAre(r.cookies);
    var fs, n := Plain(AllFields(r)), |r.headers|;
    forall j | 0 <= j < |r.cookies|
      ensures fs[n + j].0 == "Set-Cookie" && ParseCookie(fs[n + j].1) == r.cookies[j].1.(secure := false) {
      var c := r.cookies[j].1;
      assert AllFields(r)[n + j] == CookieFields(r.cookies)[j];
      CookieIsOneLine(c);
      TrimNothing(CookieText(c));
      ParseUndoesPrint(c);
    }
  }

  /** A decoder reads exactly the headers, with their values, and the cookies, and then comes to the body. */
  lemma FieldsGoOut(r: Response, body: string)
    requires ThreeDigits(r.status) && OneLine(r.reason) && CleanHeaders(r.headers, r.cookies)
    ensures var f := ReadFields(BehindLine(HeadText(r) + body));
            f.Some? && f.value.1 == body && HeadersAndCookies(f.value.0, r.headers, r.cookies)
  {
    hide *;
    StatusGoesOut(r, body);
    AllAreClean(r);
    PairsAreClean(AllFields(r));
    FieldsRead(AllFields(r), body);
    DecodedIsPlain(AllFields(r));
    PlainIsThem(r);
  }

  // ----- the whole response

  predicate NoHeader(h: StringMap<string>, key: string) { forall i :: 0 <= i < |h| ==> h[i].0 != key }

  /** The first write adds a header for the framing: there is none, and the connection is not to be
      closed. */
  predicate AddsFraming(h: StringMap<string>) {
    && NoHeader(h, "Content-Length") && NoHeader(h, "Transfer-Encoding")
    && ("Connection", "close") !in h && ("Connection", "Close") !in h
  }

  predicate AsksForChunks(h: StringMap<string>) {
    ("Transfer-Encoding", "chunked") in h || ("Transfer-Encoding", "Chunked") in h
  }

  ghost predicate OneMore(h: StringMap<string>, h1: StringMap<string>, key: string, value: string) {
    exists a, b :: h == a + b && h1 == a + [(key, value)] + b
  }

  /** The headers that go out with these parts: the length when there is one part, chunks otherwise. */
  ghost predicate GoOut(h: StringMap<string>, h1: StringMap<string>, parts: seq<string>) {
    if !AddsFraming(h) then h1 == h
    else if |parts| == 1 then
      exists v :: ValueOf(v, 10) == Some(|parts[0]|) && Trimmed(v) && OneMore(h, h1, "Content-Length", v)
    else OneMore(h, h1, "Transfer-Encoding", "chunked")
  }

  lemma LooksUp(h: StringMap<string>)
    requires Sorted(h)
    ensures Get(h, "Content-Length") == None <==> NoHeader(h, "Content-Length")
    ensures Get(h, "Transfer-Encoding") == None <==> NoHeader(h, "Transfer-Encoding")
    ensures Get(h, "Connection") == Some("close") <==> ("Connection", "close") in h
    ensures Get(h, "Connection") == Some("Close") <==> ("Connection", "Close") in h
    ensures IsChunked(h) <==> AsksForChunks(h)
  {
    hide Get, Sorted;
    GetIsEntry(h, "Content-Length", "");
    GetIsEntry(h, "Transfer-Encoding", "chunked");
    GetIsEntry(h, "Transfer-Encoding", "Chunked");
    GetIsEntry(h, "Connection", "close");
    GetIsEntry(h, "Connection", "Close");
  }

  lemma FramingIs(h: StringMap<string>, size: nat, last: bool)
    requires Sorted(h)
    ensures FramedHeaders(h, size, last) ==
            if !AddsFraming(h) then h
            else if last then Insert(h, "Content-Length", Digits(size, 10))
            else Insert(h, "Transfer-Encoding", "chunked")
  {
    hide Get, Sorted, Insert, IsChunked, AsksForChunks, NoHeader, Digits;
    LooksUp(h);
  }

  lemma InsertedIsOneMore(h: StringMap<string>, key: string, value: string)
    requires Get(h, key) == None
    ensures OneMore(h, Insert(h, key, value), key, value)
  {
    hide Insert, Get;
    var a, b := InsertedBetween(h, key, value);
  }

  lemma FirstHeadersGoOut(r: Response, parts: seq<string>)
    requires !r.sentHeaders && parts != [] && Sorted(r.headers)
    ensures GoOut(r.headers, HttpFraming.First(r, parts).headers, parts)
    ensures var r1 := HttpFraming.First(r, parts);
            r1.status == r.status && r1.reason == r.reason && r1.cookies == r.cookies
  {
    hide Get, Sorted, Insert, Digits, ValueOf, FramedHeaders, OneMore, AsksForChunks, IsChunked, NoHeader, Trimmed;
    var h, n, last := r.headers, |parts[0]|, |parts| == 1;
    LooksUp(h);
    FramingIs(h, n, last);
    if AddsFraming(h) && last {
      var v := Digits(n, 10);
      ValueOfDigits(n, 10);
      DigitsAreTrimmed(n);
      InsertedIsOneMore(h, "Content-Length", v);
    } else if AddsFraming(h) {
      InsertedIsOneMore(h, "Transfer-Encoding", "chunked");
    }
  }

  lemma DigitsAreTrimmed(n: nat)
    ensures Trimmed(Digits(n, 10))
  {
    SignsAreNoDigits();
  }

  /** Whatever is written afterwards, the first line is the status that was set. */
  lemma ResponseSaysItsStatus(r: Response, parts: seq<string>)
    requires !r.sentHeaders && parts != [] && ThreeDigits(r.status) && OneLine(r.reason)
    ensures Says(WireAll(r, parts), r.status, r.reason)
  {
    hide *;
    var r1 := HttpFraming.First(r, parts);
    HeadGoesFirst(r, parts);
    SameStatus(r, parts);
    StatusGoesOut(r1, BodyText(r1.headers, parts));
  }

  lemma SameStatus(r: Response, parts: seq<string>)
    requires parts != []
    ensures var r1 := HttpFraming.First(r, parts);
            r1.status == r.status && r1.reason == r.reason && r1.cookies == r.cookies
  {
    hide FramedHeaders;
  }

  /** The fields on the wire are the headers that were set, one for the framing, and the cookies; behind
      them comes the body, in chunks when the headers say so. */
  lemma ResponseCarriesItsHeaders(r: Response, parts: seq<string>) returns (h: StringMap<string>)
    requires !r.sentHeaders && parts != [] && ThreeDigits(r.status) && OneLine(r.reason)
    requires Sorted(r.headers) && CleanHeaders(r.headers, r.cookies)
    ensures GoOut(r.headers, h, parts)
    ensures var f := ReadFields(BehindLine(WireAll(r, parts)));
            && f.Some? && HeadersAndCookies(f.value.0, h, r.cookies)
            && if AsksForChunks(h) then ReadChunks(f.value.1) == Some(Message(Concat(parts), ""))
               else f.value.1 == Concat(parts)
  {
    hide *;
    var r1 := HttpFraming.First(r, parts);
    h := r1.headers;
    HeadGoesFirst(r, parts);
    SameStatus(r, parts);
    FirstHeadersGoOut(r, parts);
    StaysClean(r, h, parts);
    FieldsGoOut(r1, BodyText(h, parts));
    LooksUp(h);
    BodyIs(h, parts);
    ChunksRead(parts, "");
    assert Chunks(parts) + "" == Chunks(parts);
  }

  lemma BodyIs(h: StringMap<string>, parts: seq<string>)
    ensures BodyText(h, parts) == if IsChunked(h) then Chunks(parts) else Concat(parts)
  {
    hide IsChunked, Chunks, Concat;
  }

  lemma InsertedIsClean(h: StringMap<string>, key: string, value: string)
    requires Sorted(h) && CleanPairs(h) && CleanName(key) && '\r' !in value
    ensures Sorted(Insert(h, key, value)) && CleanPairs(Insert(h, key, value))
  {
    hide Sorted, Insert, CleanName;
    InsertSorted(h, key, value, "");
    InsertedKeys(h, key, value);
    var r := Insert(h, key, value);
    forall i | 0 <= i < |r| ensures CleanName(r[i].0) && '\r' !in r[i].1 { assert r[i] in r; }
  }

  lemma StaysClean(r: Response, h: StringMap<string>, parts: seq<string>)
    requires !r.sentHeaders && parts != [] && Sorted(r.headers) && CleanHeaders(r.headers, r.cookies)
    requires h == HttpFraming.First(r, parts).headers
    ensures Sorted(h) && CleanHeaders(h, r.cookies)
  {
    hide Sorted, Insert, Digits, Get, FramedHeaders, AddsFraming, Clean, NoReturnIn, CleanPairs;
    var n := |parts[0]|;
    FramingIs(r.headers, n, |parts| == 1);
    DigitsHaveNoReturn(n, 10);
    InsertedIsClean(r.headers, "Content-Length", Digits(n, 10));
    InsertedIsClean(r.headers, "Transfer-Encoding", "chunked");
  }

  /** The connection is closed behind the last part exactly when the headers announce no length and no
      chunks, and either ask for it or name another coding. */
  lemma ClosesExactly(r: Response, parts: seq<string>)
    requires !r.sentHeaders && parts != [] && Sorted(r.headers)
    ensures var h := r.headers;
            Disconnects(HttpFraming.First(r, parts).headers) <==>
            && NoHeader(h, "Content-Length") && !AsksForChunks(h)
            && (NoHeader(h, "Transfer-Encoding") ==> ("Connection", "close") in h || ("Connection", "Close") in h)
  {
    hide Sorted, Insert, Get, Digits, FramedHeaders, IsChunked, AsksForChunks, NoHeader;
    var h := r.headers;
    FramingIs(h, |parts[0]|, |parts| == 1);
    LooksUp(h);
    ChunksAreNamed(h);
    if AddsFraming(h) {
      InsertSorted(h, "Content-Length", Digits(|parts[0]|, 10), "Content-Length");
      InsertSorted(h, "Transfer-Encoding", "chunked", "Transfer-Encoding");
      InsertedIsChunked(Insert(h, "Transfer-Encoding", "chunked"));
    }
  }

  lemma ChunksAreNamed(h: StringMap<string>)
    ensures AsksForChunks(h) ==> !NoHeader(h, "Transfer-Encoding")
  {
    if AsksForChunks(h) {
      var i :| 0 <= i < |h| && (h[i] == ("Transfer-Encoding", "chunked") || h[i] == ("Transfer-Encoding", "Chunked"));
      assert h[i].0 == "Transfer-Encoding";
    }
  }

  lemma InsertedIsChunked(h: StringMap<string>)
    requires Get(h, "Transfer-Encoding") == Some("chunked")
    ensures IsChunked(h)
  {
  }
}
