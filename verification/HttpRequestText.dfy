/**
  Whole requests as texts (httprequest.cpp:22-123): what becomes of the bytes of a request line, any number
  of headers, the empty line and a body, when they come in over the connection.
*/
module HttpRequestText {
  import opened QtText
  import opened Numbers
  import opened QtMaps
  import opened HttpRequests
  import Multipart

  // ----- lines

  /** White space within a line. */
  predicate Blanks(s: string) { forall i :: 0 <= i < |s| ==> IsSpace(s[i]) && s[i] != '\n' }

  /** A piece of a line without white space around it. */
  predicate Piece(s: string) { Trimmed(s) && '\n' !in s }

  /** One line with its line feed. */
  predicate IsLine(line: string) { line != "" && line[|line| - 1] == '\n' && '\n' !in line[..|line| - 1] }

  predicate Waiting(r: Request) { r.status.WaitForRequest? || r.status.WaitForHeader? }

  /** What one line does to a request, when it is trimmed. */
  function LineRead(r: Request, line: string): Request {
    Checked(if r.status.WaitForRequest? then RequestLine(r, line) else HeaderLine(r, line))
  }

  lemma {:induction false} TakesLine(line: string, rest: string, n: nat)
    requires IsLine(line) && |line| <= n
    ensures Multipart.TakeLine(line + rest, n) == line
    decreases |line|
  {
    if |line| == 1 {
      assert line == ['\n'] && (line + rest)[0] == '\n';
    } else {
      assert line[0] == line[..|line| - 1][0] != '\n';
      assert (line + rest)[1..] == line[1..] + rest;
      assert line[1..][..|line| - 2] == line[..|line| - 1][1..];
      TakesLine(line[1..], rest, n - 1);
    }
  }

  lemma LineStep(r: Request, line: string, rest: string)
    requires InBudget(r) && Waiting(r) && IsLine(line) && |line| <= Ask(r)
    ensures Step(r, line + rest) == (LineRead(r, Trim(line)), rest) && !r.Ended()
  {
    hide RequestLine, HeaderLine, Trim, Checked;
    TakesLine(line, rest, Ask(r));
    assert Taken(r, line + rest) == line;
  }

  /** One line is read, and then the rest. */
  lemma DriveLine(r: Request, line: string, rest: string)
    requires InBudget(r) && Waiting(r) && IsLine(line) && |line| <= Ask(r)
    ensures InBudget(LineRead(r, Trim(line)))
    ensures Drive(r, line + rest) == Drive(LineRead(r, Trim(line)), rest)
  {
    hide Step, InBudget, LineRead, Ask;
    LineStep(r, line, rest);
    assert line + rest != "" by { assert |line + rest| >= |line| > 0; }
    StepKeepsBudget(r, line + rest);
  }

  // ----- the request line

  ghost predicate HasHttp(s: string) { exists k :: 0 <= k && At(s, "HTTP", k) }

  lemma ContainsHttp(s: string)
    ensures Contains(s, "HTTP") <==> HasHttp(s)
  {
    hide At;
  }

  /** Three texts without a blank, with a blank between them. */
  function ThreeWords(verb: string, path: string, version: string): string { verb + " " + path + " " + version }

  lemma ThreeWordsSplit(a: string, b: string, c: string)
    requires ' ' !in a && ' ' !in b && ' ' !in c
    ensures Split(ThreeWords(a, b, c), ' ') == [a, b, c]
  {
    JoinedWords(a, b, c);
    JoinThenSplit([a, b, c], ' ');
  }

  lemma JoinedWords(a: string, b: string, c: string)
    ensures Join([a, b, c], ' ') == ThreeWords(a, b, c)
  {
    assert [a, b, c][1..] == [b, c] && [b, c][1..] == [c];
    assert Join([b, c], ' ') == b + [' '] + c;
  }

  /** The line is made of three words, and the last one contains HTTP. */
  ghost predicate WellFormedLine(line: string, verb: string, path: string, version: string) {
    ' ' !in verb && ' ' !in path && ' ' !in version && line == ThreeWords(verb, path, version) && HasHttp(version)
  }

  lemma SplitIsWords(line: string)
    ensures |Split(line, ' ')| == 3 ==>
              var w := Split(line, ' ');
              ' ' !in w[0] && ' ' !in w[1] && ' ' !in w[2] && line == ThreeWords(w[0], w[1], w[2])
  {
    SplitThenJoin(line, ' ');
    var w := Split(line, ' ');
    if |w| == 3 {
      JoinedWords(w[0], w[1], w[2]);
      assert w == [w[0], w[1], w[2]];
    }
  }

  /** A first line goes on to the headers exactly when it is made of three words and the last one contains
      HTTP; then these are verb, path and version.  Any other line ends the request, but for an empty one,
      which is skipped. */
  lemma FirstLine(r: Request, line: string)
    requires r.status.WaitForRequest? && r.currentSize + |line| <= r.maxSize
    ensures LineRead(r, "") == r
    ensures forall verb, path, version :: WellFormedLine(line, verb, path, version) ==>
              LineRead(r, line) == r.(verb := verb, path := path, version := version, status := WaitForHeader,
                                      currentSize := r.currentSize + |line|)
    ensures line != "" && (forall verb, path, version :: !WellFormedLine(line, verb, path, version)) ==>
              LineRead(r, line).status.Abort?
  {
    hide Split, Contains, HasHttp;
    forall verb, path, version | WellFormedLine(line, verb, path, version)
      ensures LineRead(r, line) == r.(verb := verb, path := path, version := version, status := WaitForHeader,
                                      currentSize := r.currentSize + |line|) {
      ThreeWordsSplit(verb, path, version);
      ContainsHttp(version);
    }
    SplitIsWords(line);
    var w := Split(line, ' ');
    if line != "" && |w| == 3 && Contains(w[2], "HTTP") {
      ContainsHttp(w[2]);
      assert WellFormedLine(line, w[0], w[1], w[2]);
    }
  }

  // ----- headers

  /** A further line of a header: white space, and the text. */
  datatype More = More(gap: string, text: string)

  /** A header as it is written: the white space behind the colon, the value, and further lines. */
  datatype Header = Header(name: string, gap: string, value: string, more: seq<More>)

  /** No further line may look like a header of its own. */
  predicate GoodMore(m: More) {
    Blanks(m.gap) && m.text != "" && Piece(m.text) && (m.text[0] == ':' || ':' !in m.text)
  }

  predicate GoodStart(h: Header) {
    h.name != "" && Piece(h.name) && ':' !in h.name && Blanks(h.gap) && Piece(h.value)
  }

  predicate GoodHeader(h: Header) {
    GoodStart(h) && forall i :: 0 <= i < |h.more| ==> GoodMore(h.more[i])
  }

  predicate GoodHeaders(hs: seq<Header>) { forall i :: 0 <= i < |hs| ==> GoodHeader(hs[i]) }

  function MoreLine(m: More): string { m.gap + m.text + CRLF }

  function MoreText(ms: seq<More>): string {
    if ms == [] then "" else MoreLine(ms[0]) + MoreText(ms[1..])
  }

  function StartLine(h: Header): string { h.name + ":" + h.gap + h.value + CRLF }

  function HeadersText(hs: seq<Header>): string {
    if hs == [] then "" else StartLine(hs[0]) + (MoreText(hs[0].more) + HeadersText(hs[1..]))
  }

  /** The value of a header: its lines with a blank between them. */
  function Full(value: string, ms: seq<More>): string
    decreases |ms|
  {
    if ms == [] then value else Full(value + " " + ms[0].text, ms[1..])
  }

  /** How many of its bytes count for the budget: those of the trimmed lines. */
  function StartSize(h: Header): nat { |h.name| + 1 + if h.value == "" then 0 else |h.gap| + |h.value| }

  function MoreSize(ms: seq<More>): nat {
    if ms == [] then 0 else |ms[0].text| + MoreSize(ms[1..])
  }

  function HeadersSize(hs: seq<Header>): nat {
    if hs == [] then 0 else StartSize(hs[0]) + MoreSize(hs[0].more) + HeadersSize(hs[1..])
  }

  lemma {:induction false} MoreFits(ms: seq<More>)
    ensures MoreSize(ms) <= |MoreText(ms)|
    decreases |ms|
  {
    if ms != [] { MoreFits(ms[1..]); }
  }

  lemma {:induction false} HeadersFit(hs: seq<Header>)
    ensures HeadersSize(hs) <= |HeadersText(hs)|
    decreases |hs|
  {
    hide MoreText, MoreSize;
    if hs != [] {
      MoreFits(hs[0].more);
      HeadersFit(hs[1..]);
    }
  }

  /** The request behind the first line of a header. */
  function AfterStart(r: Request, h: Header): Request {
    r.(currentSize := r.currentSize + StartSize(h), currentHeader := h.name, headers := [(h.name, h.value)] + r.headers)
  }

  function MoreEntries(name: string, value: string, ms: seq<More>): seq<(string, string)>
    decreases |ms|
  {
    if ms == [] then [] else MoreEntries(name, value + " " + ms[0].text, ms[1..]) + [(name, value + " " + ms[0].text)]
  }

  function AfterMore(r: Request, name: string, value: string, ms: seq<More>): Request {
    r.(currentSize := r.currentSize + MoreSize(ms), headers := MoreEntries(name, value, ms) + r.headers)
  }

  /** The entries of these headers, the newest in front. */
  function Entries(hs: seq<Header>): seq<(string, string)>
    decreases |hs|
  {
    if hs == [] then []
    else Entries(hs[1..]) + (MoreEntries(hs[0].name, hs[0].value, hs[0].more) + [(hs[0].name, hs[0].value)])
  }

  function LastName(current: string, hs: seq<Header>): string {
    if hs == [] then current else hs[|hs| - 1].name
  }

  function AfterHeaders(r: Request, hs: seq<Header>): Request {
    r.(currentSize := r.currentSize + HeadersSize(hs), headers := Entries(hs) + r.headers,
       currentHeader := LastName(r.currentHeader, hs))
  }

  lemma TrimLine(line: string)
    requires Trimmed(line)
    ensures Trim(line + CRLF) == line
  {
    assert "" + line + CRLF == line + CRLF;
    TrimAround("", line, CRLF);
  }

  lemma BlankIsSpace(s: string)
    requires Blanks(s)
    ensures AllSpace(s) && '\n' !in s
  {
  }

  lemma PieceIs(s: string)
    requires Piece(s)
    ensures Trimmed(s) && '\n' !in s
  {
  }

  lemma LineOf(body: string)
    requires '\n' !in body
    ensures IsLine(body + CRLF)
  {
    assert (body + CRLF)[..|body| + 1] == body + ['\r'];
  }

  lemma EmptyStart(name: string, gap: string)
    requires Trimmed(name) && name != "" && AllSpace(gap)
    ensures Trim(name + ":" + gap + "" + CRLF) == name + ":"
  {
    assert name + ":" + gap + "" + CRLF == "" + (name + ":") + (gap + CRLF);
    TrimAround("", name + ":", gap + CRLF);
  }

  lemma FullStart(name: string, gap: string, value: string)
    requires Trimmed(name) && name != "" && Trimmed(value) && value != ""
    ensures Trim(name + ":" + gap + value + CRLF) == name + ":" + gap + value
  {
    TrimLine(name + ":" + gap + value);
  }

  lemma CutAtColon(name: string, tail: string)
    requires ':' !in name
    ensures var line := name + ":" + tail;
            FindChar(line, ':', 0) == |name| && line[..|name|] == name && line[|name| + 1..] == tail
  {
    var line := name + ":" + tail;
    assert line[|name|] == ':' && forall k :: 0 <= k < |name| ==> line[k] == name[k];
  }

  lemma TrimGap(gap: string, value: string)
    requires AllSpace(gap) && Trimmed(value)
    ensures Trim(gap + value) == value
  {
    assert gap + value + "" == gap + value;
    TrimAround(gap, value, "");
  }

  lemma NoFeedIn(h: Header)
    requires GoodStart(h)
    ensures '\n' !in h.name + ":" + h.gap + h.value
    ensures Trimmed(h.name) && h.name != "" && ':' !in h.name && AllSpace(h.gap) && Trimmed(h.value)
  {
    BlankIsSpace(h.gap);
  }

  /** The first line of a header, trimmed: it counts, and it is cut at its colon. */
  lemma StartIsTrimmed(h: Header) returns (line: string)
    requires GoodStart(h)
    ensures Trim(StartLine(h)) == line && |line| == StartSize(h) && IsLine(StartLine(h)) && line != ""
    ensures FindChar(line, ':', 0) == |h.name| && line[..|h.name|] == h.name && Trim(line[|h.name| + 1..]) == h.value
  {
    NoFeedIn(h);
    LineOf(h.name + ":" + h.gap + h.value);
    hide GoodStart, Trim, IsLine, Trimmed, FindChar, AllSpace;
    if h.value == "" {
      EmptyStart(h.name, h.gap);
      line := h.name + ":";
      CutAtColon(h.name, "");
      assert h.name + ":" + "" == line;
      assert Trim("") == "" by { TrimGap("", ""); }
    } else {
      FullStart(h.name, h.gap, h.value);
      line := h.name + ":" + h.gap + h.value;
      CutAtColon(h.name, h.gap + h.value);
      assert h.name + ":" + (h.gap + h.value) == line;
      TrimGap(h.gap, h.value);
    }
  }

  lemma StartStep(r: Request, h: Header)
    requires r.status.WaitForHeader? && GoodStart(h) && r.currentSize + StartSize(h) <= r.maxSize
    ensures LineRead(r, Trim(StartLine(h))) == AfterStart(r, h)
  {
    var line := StartIsTrimmed(h);
    hide Trim, FindChar, GoodStart, StartLine, StartSize;
  }

  lemma MoreIsTrimmed(m: More)
    requires GoodMore(m)
    ensures Trim(MoreLine(m)) == m.text && IsLine(MoreLine(m)) && FindChar(m.text, ':', 0) <= 0
  {
    BlankIsSpace(m.gap);
    LineOf(m.gap + m.text);
    TrimAround(m.gap, m.text, CRLF);
  }

  lemma MoreStep(r: Request, m: More, name: string, value: string)
    requires r.status.WaitForHeader? && GoodMore(m) && r.currentSize + |m.text| <= r.maxSize
    requires r.headers != [] && r.headers[0] == (name, value) && r.currentHeader == name
    ensures LineRead(r, Trim(MoreLine(m))) ==
            r.(currentSize := r.currentSize + |m.text|, headers := [(name, value + " " + m.text)] + r.headers)
  {
    MoreIsTrimmed(m);
    NotEmpty(m);
    hide Trim, FindChar, GoodMore, MoreLine;
    assert HasKey(r.headers, name);
  }

  lemma NotEmpty(m: More)
    requires GoodMore(m)
    ensures m.text != ""
  {
  }

  lemma MoreStays(r: Request, name: string, value: string, ms: seq<More>)
    requires ms != []
    ensures var v := value + " " + ms[0].text;
            var r1 := r.(currentSize := r.currentSize + |ms[0].text|, headers := [(name, v)] + r.headers);
            AfterMore(r1, name, v, ms[1..]) == AfterMore(r, name, value, ms)
  {
    var v := value + " " + ms[0].text;
    assert MoreEntries(name, v, ms[1..]) + ([(name, v)] + r.headers) ==
           (MoreEntries(name, v, ms[1..]) + [(name, v)]) + r.headers;
  }

  lemma MoreLineSize(ms: seq<More>)
    requires ms != []
    ensures |MoreText(ms)| == |MoreLine(ms[0])| + |MoreText(ms[1..])| &&
            MoreText(ms) == MoreLine(ms[0]) + MoreText(ms[1..])
    ensures |ms[0].text| <= |MoreLine(ms[0])|
  {
  }

  lemma NoMore(r: Request, name: string, value: string)
    ensures AfterMore(r, name, value, []) == r && MoreText([]) == ""
  {
    assert [] + r.headers == r.headers;
  }

  lemma {:induction false} DriveMore(r: Request, name: string, value: string, ms: seq<More>, rest: string)
    requires InBudget(r) && r.status.WaitForHeader? && (forall i :: 0 <= i < |ms| ==> GoodMore(ms[i]))
    requires r.headers != [] && r.headers[0] == (name, value) && r.currentHeader == name
    requires r.currentSize + |MoreText(ms)| <= r.maxSize
    ensures InBudget(AfterMore(r, name, value, ms))
    ensures Drive(r, MoreText(ms) + rest) == Drive(AfterMore(r, name, value, ms), rest)
    decreases |ms|
  {
    hide *;
    if ms == [] {
      NoMore(r, name, value);
      assert "" + rest == rest;
    } else {
      var m, v := ms[0], value + " " + ms[0].text;
      MoreLineSize(ms);
      MoreIsTrimmed(m);
      MoreStep(r, m, name, value);
      WaitsAndAsks(r);
      DriveLine(r, MoreLine(m), MoreText(ms[1..]) + rest);
      var r1 := r.(currentSize := r.currentSize + |m.text|, headers := [(name, v)] + r.headers);
      Joined(MoreLine(m), MoreText(ms[1..]), rest);
      DriveMore(r1, name, v, ms[1..], rest);
      MoreStays(r, name, value, ms);
    }
  }

  lemma Joined(a: string, b: string, c: string)
    ensures (a + b) + c == a + (b + c)
  {
  }

  lemma WaitsAndAsks(r: Request)
    requires r.status.WaitForHeader? || r.status.WaitForRequest?
    ensures Waiting(r) && Ask(r) == r.maxSize - r.currentSize + 1
  {
  }

  lemma HeadersParts(hs: seq<Header>)
    requires hs != []
    ensures HeadersText(hs) == StartLine(hs[0]) + (MoreText(hs[0].more) + HeadersText(hs[1..]))
    ensures StartSize(hs[0]) <= |StartLine(hs[0])| && MoreSize(hs[0].more) <= |MoreText(hs[0].more)|
  {
    hide MoreText, MoreSize;
    MoreFits(hs[0].more);
  }

  lemma HeadersGood(hs: seq<Header>)
    requires hs != [] && GoodHeaders(hs)
    ensures GoodStart(hs[0]) && (forall i :: 0 <= i < |hs[0].more| ==> GoodMore(hs[0].more[i])) && GoodHeaders(hs[1..])
  {
    hide GoodStart, GoodMore;
    assert GoodHeader(hs[0]);
  }

  lemma HeadersStay(r: Request, hs: seq<Header>)
    requires hs != []
    ensures var h := hs[0];
            AfterHeaders(AfterMore(AfterStart(r, h), h.name, h.value, h.more), hs[1..]) == AfterHeaders(r, hs)
  {
    hide MoreEntries, MoreSize, StartSize, Entries, HeadersSize;
    var h := hs[0];
    EntriesCons(hs);
    var a, b, c := Entries(hs[1..]), MoreEntries(h.name, h.value, h.more), [(h.name, h.value)];
    assert a + (b + (c + r.headers)) == (a + (b + c)) + r.headers;
    assert LastName(h.name, hs[1..]) == LastName(r.currentHeader, hs);
  }

  lemma EntriesCons(hs: seq<Header>)
    requires hs != []
    ensures Entries(hs) ==
            Entries(hs[1..]) + (MoreEntries(hs[0].name, hs[0].value, hs[0].more) + [(hs[0].name, hs[0].value)])
    ensures HeadersSize(hs) == StartSize(hs[0]) + MoreSize(hs[0].more) + HeadersSize(hs[1..])
  {
    hide MoreEntries, MoreSize, StartSize;
  }

  lemma NoHeaders(r: Request)
    ensures AfterHeaders(r, []) == r && HeadersText([]) == ""
  {
    assert [] + r.headers == r.headers;
  }

  lemma StartFacts(r: Request, h: Header)
    ensures var r1 := AfterStart(r, h);
            && r1.headers != [] && r1.headers[0] == (h.name, h.value) && r1.currentHeader == h.name
            && r1.status == r.status && r1.maxSize == r.maxSize && r1.currentSize == r.currentSize + StartSize(h)
  {
    hide StartSize;
  }

  lemma MoreFacts(r: Request, name: string, value: string, ms: seq<More>)
    ensures var r1 := AfterMore(r, name, value, ms);
            && r1.status == r.status && r1.maxSize == r.maxSize && r1.currentSize == r.currentSize + MoreSize(ms)
  {
    hide MoreSize, MoreEntries;
  }

  /** All headers are read, one line after the other. */
  lemma {:induction false} DriveHeaders(r: Request, hs: seq<Header>, rest: string)
    requires InBudget(r) && r.status.WaitForHeader? && GoodHeaders(hs)
    requires r.currentSize + |HeadersText(hs)| <= r.maxSize
    ensures InBudget(AfterHeaders(r, hs))
    ensures Drive(r, HeadersText(hs) + rest) == Drive(AfterHeaders(r, hs), rest)
    decreases |hs|
  {
    hide *;
    if hs == [] {
      NoHeaders(r);
      assert "" + rest == rest;
    } else {
      var h, start, more, tail := hs[0], StartLine(hs[0]), MoreText(hs[0].more), HeadersText(hs[1..]);
      HeadersGood(hs);
      HeadersParts(hs);
      var line := StartIsTrimmed(h);
      StartStep(r, h);
      WaitsAndAsks(r);
      DriveLine(r, start, more + tail + rest);
      Joined(start, more + tail, rest);
      Joined(more, tail, rest);
      var r1 := AfterStart(r, h);
      StartFacts(r, h);
      DriveMore(r1, h.name, h.value, h.more, tail + rest);
      var r2 := AfterMore(r1, h.name, h.value, h.more);
      MoreFacts(r1, h.name, h.value, h.more);
      DriveHeaders(r2, hs[1..], rest);
      HeadersStay(r, hs);
    }
  }

  // ----- the values of the headers

  /** The value of the last header with that name, whole. */
  function LastOf(hs: seq<Header>, key: string): Option<string> {
    if hs == [] then None
    else if LastOf(hs[1..], key).Some? then LastOf(hs[1..], key)
    else if hs[0].name == key then Some(Full(hs[0].value, hs[0].more))
    else None
  }

  function ValueIn(hs: seq<Header>, key: string): string {
    match LastOf(hs, key)
    case None => ""
    case Some(v) => v
  }

  lemma {:induction false} LastOfIs(hs: seq<Header>, key: string, k: nat)
    requires k < |hs| && hs[k].name == key && forall i :: k < i < |hs| ==> hs[i].name != key
    ensures ValueIn(hs, key) == Full(hs[k].value, hs[k].more)
    decreases |hs|
  {
    hide Full;
    if k == 0 { NoneOf(hs[1..], key); } else { LastOfIs(hs[1..], key, k - 1); LastIsThere(hs[1..], key, k - 1); }
  }

  lemma {:induction false} LastIsThere(hs: seq<Header>, key: string, k: nat)
    requires k < |hs| && hs[k].name == key
    ensures LastOf(hs, key).Some?
    decreases |hs|
  {
    hide Full;
    if k > 0 { LastIsThere(hs[1..], key, k - 1); }
  }

  lemma {:induction false} NoneOf(hs: seq<Header>, key: string)
    requires forall i :: 0 <= i < |hs| ==> hs[i].name != key
    ensures LastOf(hs, key) == None && ValueIn(hs, key) == ""
    decreases |hs|
  {
    if hs != [] { NoneOf(hs[1..], key); }
  }

  lemma {:induction false} ValueAppend(a: seq<(string, string)>, b: seq<(string, string)>, key: string)
    ensures Value(a + b, key) == if HasKey(a, key) then Value(a, key) else Value(b, key)
    ensures HasKey(a + b, key) <==> HasKey(a, key) || HasKey(b, key)
  {
    if a == [] {
      assert a + b == b;
    } else {
      assert (a + b)[1..] == a[1..] + b;
      ValueAppend(a[1..], b, key);
      HasKeyCons(a, key);
      HasKeyCons(a + b, key);
    }
  }

  lemma HasKeyCons(a: seq<(string, string)>, key: string)
    requires a != []
    ensures HasKey(a, key) <==> a[0].0 == key || HasKey(a[1..], key)
  {
    if HasKey(a[1..], key) {
      var i :| 0 <= i < |a[1..]| && a[1..][i].0 == key;
      assert a[i + 1].0 == key;
    }
    if HasKey(a, key) && a[0].0 != key {
      var i :| 0 <= i < |a| && a[i].0 == key;
      assert a[1..][i - 1].0 == key;
    }
  }

  function OneHeader(name: string, value: string, ms: seq<More>): seq<(string, string)> {
    MoreEntries(name, value, ms) + [(name, value)]
  }

  lemma {:induction false} OneHeaderIs(name: string, value: string, ms: seq<More>)
    ensures var a := OneHeader(name, value, ms);
            a != [] && a[0] == (name, Full(value, ms)) && forall i :: 0 <= i < |a| ==> a[i].0 == name
    decreases |ms|
  {
    if ms != [] { OneHeaderIs(name, value + " " + ms[0].text, ms[1..]); }
  }

  lemma OneHeaderValue(name: string, value: string, ms: seq<More>, key: string)
    ensures var a := OneHeader(name, value, ms);
            (HasKey(a, key) <==> name == key) && (name == key ==> Value(a, key) == Full(value, ms))
  {
    hide OneHeader, Full;
    OneHeaderIs(name, value, ms);
  }

  lemma EntriesAre(hs: seq<Header>)
    requires hs != []
    ensures Entries(hs) == Entries(hs[1..]) + OneHeader(hs[0].name, hs[0].value, hs[0].more)
  {
    hide MoreEntries;
  }

  /** A look-up finds the value of the last header with that name. */
  lemma {:induction false} ValueIsLast(hs: seq<Header>, key: string)
    ensures Value(Entries(hs), key) == ValueIn(hs, key)
    ensures HasKey(Entries(hs), key) <==> LastOf(hs, key).Some?
    decreases |hs|
  {
    hide OneHeader, HasKey, Full, Entries, Value;
    if hs == [] {
      NoEntries(key);
    } else {
      var h := hs[0];
      EntriesAre(hs);
      ValueAppend(Entries(hs[1..]), OneHeader(h.name, h.value, h.more), key);
      OneHeaderValue(h.name, h.value, h.more, key);
      ValueIsLast(hs[1..], key);
      NotThere(OneHeader(h.name, h.value, h.more), key);
    }
  }

  lemma NoEntries(key: string)
    ensures Entries([]) == [] && Value([], key) == "" && !HasKey([], key)
  {
  }

  lemma {:induction false} NotThere(a: seq<(string, string)>, key: string)
    ensures !HasKey(a, key) ==> Value(a, key) == ""
  {
    if a != [] {
      NotThere(a[1..], key);
      HasKeyCons(a, key);
    }
  }

  lemma {:induction false} ValueWithout(a: seq<(string, string)>, key: string, other: string)
    ensures Value(WithoutHeader(a, key), other) == if other == key then "" else Value(a, other)
  {
    if a != [] {
      ValueWithout(a[1..], key, other);
      if a[0].0 == key {
        assert [] + WithoutHeader(a[1..], key) == WithoutHeader(a[1..], key);
      } else {
        assert ([a[0]] + WithoutHeader(a[1..], key))[1..] == WithoutHeader(a[1..], key);
      }
    }
  }
}
