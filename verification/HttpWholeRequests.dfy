/**
  Whole requests as texts (httprequest.cpp:68-123, 178-301): a head, and a body of the announced size, give
  a complete request with the words, the values and the bytes of the text.
*/
module HttpWholeRequests {
  import opened QtText
  import opened Numbers
  import opened UrlDecoding
  import opened QtMaps
  import opened HttpCookies
  import opened HttpRequests
  import opened HttpRequestText
  import Multipart

  // ----- the end of the headers

  /** The headers announce a body of n bytes. */
  predicate Announces(hs: seq<Header>, n: nat) {
    var v := ValueIn(hs, "Content-Length");
    if n == 0 then v == "" || v == "0" else Int32(n) && v == Number(n)
  }

  ghost predicate NoBoundary(v: string) { forall k :: !At(v, "boundary=", k) }

  ghost predicate FirstBoundary(v: string, k: int) {
    0 <= k && k + 9 <= |v| && At(v, "boundary=", k) && forall i :: i < k ==> !At(v, "boundary=", i)
  }

  /** The text behind the first "boundary=" in the type of a multipart body; nothing for other types. */
  ghost predicate Bounds(hs: seq<Header>, boundary: string) {
    var v := ValueIn(hs, "Content-Type");
    if !("multipart/form-data" <= v) || NoBoundary(v) then boundary == ""
    else exists k :: FirstBoundary(v, k) && 0 <= k && k + 9 <= |v| && boundary == v[k + 9..]
  }

  lemma LengthIs(r: Request, hs: seq<Header>, n: nat)
    requires r.headers == Entries(hs) && r.expectedBodySize == 0 && Announces(hs, n)
    ensures BodySizeOf(r) == n
  {
    hide Entries, ValueIn, Value, ToInt, Number;
    ValueIsLast(hs, "Content-Length");
    ZeroIs();
    if n > 0 {
      ToIntUndoesNumber(n);
      NumberIsText(n);
    }
  }

  lemma ZeroIs()
    ensures ToInt("0") == 0
  {
    assert Number(0) == "0" by { assert Digits(0, 10) == [Digit(0)]; }
    ToIntUndoesNumber(0);
  }

  lemma NumberIsText(n: nat)
    ensures Number(n) != ""
  {
  }

  lemma PrefixIsStart(v: string, p: string)
    ensures StartsWith(v, p) <==> p <= v
  {
    if p <= v { assert v[0..0 + |p|] == p; }
  }

  lemma BoundaryIs(r: Request, hs: seq<Header>, boundary: string)
    requires r.headers == Entries(hs) && r.boundary == "" && Bounds(hs, boundary)
    ensures BoundaryOf(r) == boundary
  {
    hide Entries, ValueIn, Value, At, StartsWith, FirstBoundary, NoBoundary, Find, Mid;
    ValueIsLast(hs, "Content-Type");
    var v := ValueIn(hs, "Content-Type");
    PrefixIsStart(v, "multipart/form-data");
    NotFound(v);
    if "multipart/form-data" <= v && !NoBoundary(v) {
      var k :| FirstBoundary(v, k) && 0 <= k && k + 9 <= |v| && boundary == v[k + 9..];
      FoundFirst(v, k);
    }
  }

  lemma NotFound(v: string)
    ensures NoBoundary(v) <==> Find(v, "boundary=", 0) == -1
  {
    hide At;
    var f := Find(v, "boundary=", 0);
    if f == -1 {
      forall k ensures !At(v, "boundary=", k) { NotNegative(v, "boundary=", k); }
    }
  }

  lemma NotNegative(s: string, p: string, k: int)
    ensures At(s, p, k) ==> k >= 0
  {
  }

  lemma FoundFirst(v: string, k: int)
    requires FirstBoundary(v, k)
    ensures Find(v, "boundary=", 0) == k && 0 <= k && k + 9 <= |v| && Mid(v, k + 9, -1) == v[k + 9..]
  {
    hide At;
  }

  function AtEnd(r: Request, n: nat, boundary: string): Request {
    r.(boundary := boundary, expectedBodySize := n)
  }

  /** What the empty line does. */
  lemma EmptyLine(r: Request, hs: seq<Header>, n: nat, boundary: string)
    requires r.status.WaitForHeader? && r.headers == Entries(hs) && r.boundary == "" && r.expectedBodySize == 0
    requires r.currentSize <= r.maxSize && Announces(hs, n) && Bounds(hs, boundary)
    ensures var r1 := AtEnd(r, n, boundary);
            LineRead(r, "") ==
              if n == 0 then Completed(r1.(status := Complete))
              else if boundary == "" && n + r.currentSize > r.maxSize then r1.(status := Abort)
              else if boundary != "" && n > r.maxMultiPartSize then r1.(status := Abort)
              else r1.(status := WaitForBody)
  {
    hide Entries, Announces, Bounds, BodySizeOf, BoundaryOf, Completed;
    LengthIs(r.(currentSize := r.currentSize + |""|), hs, n);
    BoundaryIs(r.(currentSize := r.currentSize + |""|), hs, boundary);
    assert FindChar("", ':', 0) == -1;
  }

  // ----- the whole head

  ghost predicate GoodFirst(verb: string, path: string, version: string) {
    WellFormedLine(ThreeWords(verb, path, version), verb, path, version) && Piece(ThreeWords(verb, path, version))
  }

  function Head(verb: string, path: string, version: string, hs: seq<Header>): string {
    ThreeWords(verb, path, version) + CRLF + (HeadersText(hs) + CRLF)
  }

  /** How many bytes of the head count for the budget. */
  function HeadSize(verb: string, path: string, version: string, hs: seq<Header>): nat {
    |ThreeWords(verb, path, version)| + HeadersSize(hs)
  }

  /** The request in front of the empty line. */
  function BeforeEnd(maxSize: int, maxMulti: int, verb: string, path: string, version: string,
                     hs: seq<Header>): Request {
    NewRequest(maxSize, maxMulti).(status := WaitForHeader, verb := verb, path := path, version := version,
      currentSize := HeadSize(verb, path, version, hs), headers := Entries(hs), currentHeader := LastName("", hs))
  }

  lemma FirstLineTaken(r: Request, verb: string, path: string, version: string)
    requires r.status.WaitForRequest? && GoodFirst(verb, path, version)
    requires r.currentSize + |ThreeWords(verb, path, version)| <= r.maxSize
    ensures var line := ThreeWords(verb, path, version);
            && IsLine(line + CRLF)
            && LineRead(r, Trim(line + CRLF)) ==
               r.(verb := verb, path := path, version := version, status := WaitForHeader,
                  currentSize := r.currentSize + |line|)
  {
    hide LineRead, WellFormedLine, Trim, IsLine;
    var line := ThreeWords(verb, path, version);
    PieceIs(line);
    LineOf(line);
    TrimLine(line);
    FirstLine(r, line);
  }

  lemma HeadIsThere(maxSize: int, maxMulti: int, verb: string, path: string, version: string, hs: seq<Header>)
    ensures var r := NewRequest(maxSize, maxMulti);
            var r1 := r.(verb := verb, path := path, version := version, status := WaitForHeader,
                         currentSize := r.currentSize + |ThreeWords(verb, path, version)|);
            AfterHeaders(r1, hs) == BeforeEnd(maxSize, maxMulti, verb, path, version, hs)
  {
    hide Entries, HeadersSize, ThreeWords;
    assert Entries(hs) + [] == Entries(hs);
  }

  lemma NewFacts(maxSize: int, maxMulti: int)
    ensures var r := NewRequest(maxSize, maxMulti);
            r.status.WaitForRequest? && r.currentSize == 0 && r.maxSize == maxSize
  {
  }

  lemma BeforeEndFacts(maxSize: int, maxMulti: int, verb: string, path: string, version: string, hs: seq<Header>)
    ensures var r := BeforeEnd(maxSize, maxMulti, verb, path, version, hs);
            && r.status.WaitForHeader? && r.headers == Entries(hs) && r.boundary == "" && r.expectedBodySize == 0
            && r.maxSize == maxSize && r.maxMultiPartSize == maxMulti
            && r.currentSize == HeadSize(verb, path, version, hs) && r.bodyData == "" && r.tempFile == ""
  {
    hide Entries, HeadSize;
  }

  /** The whole head is read up to its empty line, and then the rest. */
  lemma DriveHead(maxSize: nat, maxMulti: int, verb: string, path: string, version: string, hs: seq<Header>,
                  rest: string)
    requires GoodFirst(verb, path, version) && GoodHeaders(hs) && |Head(verb, path, version, hs)| <= maxSize
    ensures HeadSize(verb, path, version, hs) + 4 <= maxSize
    ensures var r, r1 := NewRequest(maxSize, maxMulti),
            LineRead(BeforeEnd(maxSize, maxMulti, verb, path, version, hs), "");
            InBudget(r) && InBudget(r1) && Drive(r, Head(verb, path, version, hs) + rest) == Drive(r1, rest)
  {
    hide *;
    var r, line := NewRequest(maxSize, maxMulti), ThreeWords(verb, path, version);
    HeadIs(verb, path, version, hs);
    HeadersFit(hs);
    NewIsInBudget(maxSize, maxMulti);
    NewFacts(maxSize, maxMulti);
    WaitsAndAsks(r);
    FirstLineTaken(r, verb, path, version);
    var tail := HeadersText(hs) + CRLF;
    Joined(line + CRLF, tail, rest);
    Joined(HeadersText(hs), CRLF, rest);
    DriveLine(r, line + CRLF, tail + rest);
    var r1 := r.(verb := verb, path := path, version := version, status := WaitForHeader,
                 currentSize := r.currentSize + |line|);
    DriveHeaders(r1, hs, CRLF + rest);
    HeadIsThere(maxSize, maxMulti, verb, path, version, hs);
    var r2 := BeforeEnd(maxSize, maxMulti, verb, path, version, hs);
    BeforeEndFacts(maxSize, maxMulti, verb, path, version, hs);
    WaitsAndAsks(r2);
    EndOfLineIs();
    DriveLine(r2, CRLF, rest);
  }

  lemma EndOfLineIs()
    ensures IsLine(CRLF) && Trim(CRLF) == "" && |CRLF| == 2
  {
    LineOf("");
    assert "" + CRLF == CRLF;
    TrimLine("");
  }

  lemma HeadIs(verb: string, path: string, version: string, hs: seq<Header>)
    ensures Head(verb, path, version, hs) == ThreeWords(verb, path, version) + CRLF + (HeadersText(hs) + CRLF)
    ensures |CRLF| == 2
    ensures HeadSize(verb, path, version, hs) == |ThreeWords(verb, path, version)| + HeadersSize(hs)
    ensures |Head(verb, path, version, hs)| == |ThreeWords(verb, path, version)| + |HeadersText(hs)| + 4
  {
    hide ThreeWords, HeadersText, HeadersSize;
  }

  lemma FeedSame(r: Request, r1: Request, head: string, b0: string, more: seq<string>)
    requires InBudget(r) && InBudget(r1) && Drive(r, head + b0) == Drive(r1, b0)
    ensures Feed(r, "", [head + b0] + more) == Feed(r1, "", [b0] + more)
  {
    hide Drive, InBudget;
    assert ([head + b0] + more)[1..] == more && ([b0] + more)[1..] == more;
    assert "" + (head + b0) == head + b0 && "" + b0 == b0;
  }

  // ----- whole requests

  /** The path is what stands in front of the first question mark. */
  predicate IsPathOf(p: string, path: string) {
    p <= path && '?' !in p && (|p| < |path| ==> path[|p|] == '?')
  }

  /** The request has these words, and its headers have the values that stand in the text; cookie headers
      are taken out. */
  ghost predicate HasHead(q: Request, verb: string, path: string, version: string, hs: seq<Header>) {
    && q.verb == verb && IsPathOf(q.path, path) && q.version == version
    && Value(q.headers, "Cookie") == ""
    && forall key :: key != "Cookie" ==> Value(q.headers, key) == ValueIn(hs, key)
  }

  lemma PathIs(path: string)
    ensures IsPathOf(PathOnly(path), path)
  {
    var k := FindChar(path, '?', 0);
    if k == -1 { assert '?' !in path; }
  }

  lemma CompletedHasHead(r: Request, verb: string, path: string, version: string, hs: seq<Header>)
    requires r.verb == verb && r.path == path && r.version == version && r.headers == Entries(hs)
    ensures HasHead(Completed(r), verb, path, version, hs)
  {
    hide Entries, ValueIn, Value, PathOnly, IsPathOf, WithoutHeader, ParametersOf, RawParameters, PutAll, HeaderValues;
    PathIs(path);
    var q := Completed(r);
    assert q.headers == WithoutHeader(r.headers, "Cookie");
    ValueWithout(r.headers, "Cookie", "Cookie");
    forall key | key != "Cookie" ensures Value(q.headers, key) == ValueIn(hs, key) {
      ValueWithout(r.headers, "Cookie", key);
      ValueIsLast(hs, key);
    }
  }

  /** The head has been read up to its empty line: what is there now, and how the rest goes on. */
  lemma HeadRead(maxSize: nat, maxMulti: int, verb: string, path: string, version: string, hs: seq<Header>,
                 n: nat, boundary: string, b0: string, more: seq<string>) returns (r1: Request)
    requires GoodFirst(verb, path, version) && GoodHeaders(hs) && |Head(verb, path, version, hs)| <= maxSize
    requires Announces(hs, n) && Bounds(hs, boundary)
    ensures InBudget(NewRequest(maxSize, maxMulti)) && InBudget(r1)
    ensures Feed(NewRequest(maxSize, maxMulti), "", [Head(verb, path, version, hs) + b0] + more) ==
            Feed(r1, "", [b0] + more)
    ensures var size := HeadSize(verb, path, version, hs);
            var r := AtEnd(BeforeEnd(maxSize, maxMulti, verb, path, version, hs), n, boundary);
            r1 ==
              if n == 0 then Completed(r.(status := Complete))
              else if boundary == "" && n + size > maxSize then r.(status := Abort)
              else if boundary != "" && n > maxMulti then r.(status := Abort)
              else r.(status := WaitForBody)
  {
    hide *;
    var r := BeforeEnd(maxSize, maxMulti, verb, path, version, hs);
    BeforeEndFacts(maxSize, maxMulti, verb, path, version, hs);
    DriveHead(maxSize, maxMulti, verb, path, version, hs, b0);
    EmptyLine(r, hs, n, boundary);
    r1 := LineRead(r, "");
    FeedSame(NewRequest(maxSize, maxMulti), r1, Head(verb, path, version, hs), b0, more);
  }

  lemma StreamOf(b0: string, more: seq<string>)
    ensures Stream([b0] + more) == b0 + Stream(more)
    ensures "" + Stream([b0] + more) == Stream([b0] + more)
  {
    assert ([b0] + more)[1..] == more;
  }

  lemma EndFacts(r: Request, n: nat, boundary: string, status: Status)
    ensures var q := AtEnd(r, n, boundary).(status := status);
            && q.status == status && q.verb == r.verb && q.path == r.path && q.version == r.version
            && q.headers == r.headers && q.bodyData == r.bodyData && q.expectedBodySize == n && q.boundary == boundary
            && q.currentSize == r.currentSize && q.maxSize == r.maxSize && q.maxMultiPartSize == r.maxMultiPartSize
            && q.tempFile == r.tempFile
  {
  }

  lemma WordsOf(maxSize: int, maxMulti: int, verb: string, path: string, version: string, hs: seq<Header>)
    ensures var r := BeforeEnd(maxSize, maxMulti, verb, path, version, hs);
            r.verb == verb && r.path == path && r.version == version
  {
    hide Entries, HeadSize;
  }

  lemma CompletedFacts(r: Request)
    ensures var q := Completed(r);
            q.status == r.status && q.bodyData == r.bodyData && (r.status.Complete? ==> q.Ended())
  {
    hide PathOnly, WithoutHeader, ParametersOf, RawParameters, PutAll, HeaderValues;
  }

  /** A request without a body is complete behind its empty line, with the words of its first line and
      the values of its headers, and what comes behind it stays in the socket. */
  lemma RequestWithoutBody(maxSize: nat, maxMulti: int, verb: string, path: string, version: string, hs: seq<Header>,
                           b0: string, more: seq<string>)
    requires GoodFirst(verb, path, version) && GoodHeaders(hs) && |Head(verb, path, version, hs)| <= maxSize
    requires Announces(hs, 0)
    ensures InBudget(NewRequest(maxSize, maxMulti))
    ensures var (q, rest) := Feed(NewRequest(maxSize, maxMulti), "", [Head(verb, path, version, hs) + b0] + more);
            && q.status.Complete? && q.bodyData == "" && HasHead(q, verb, path, version, hs)
            && rest == b0 + Stream(more)
  {
    hide *;
    var boundary := AnyBoundary(hs);
    var r1 := HeadRead(maxSize, maxMulti, verb, path, version, hs, 0, boundary, b0, more);
    var r := BeforeEnd(maxSize, maxMulti, verb, path, version, hs);
    BeforeEndFacts(maxSize, maxMulti, verb, path, version, hs);
    WordsOf(maxSize, maxMulti, verb, path, version, hs);
    EndFacts(r, 0, boundary, Complete);
    var done := AtEnd(r, 0, boundary).(status := Complete);
    CompletedFacts(done);
    CompletedHasHead(done, verb, path, version, hs);
    EndedStays(r1, "", [b0] + more);
    StreamOf(b0, more);
  }

  lemma AnyBoundary(hs: seq<Header>) returns (boundary: string)
    ensures Bounds(hs, boundary)
  {
    hide ValueIn, At;
    var v := ValueIn(hs, "Content-Type");
    if !("multipart/form-data" <= v) || NoBoundary(v) {
      boundary := "";
    } else {
      var f := Find(v, "boundary=", 0);
      AtFirst(v, f);
      boundary := v[f + 9..];
    }
  }

  lemma AtFirst(v: string, f: int)
    requires f == Find(v, "boundary=", 0) && !NoBoundary(v)
    ensures FirstBoundary(v, f)
  {
  }

  /** An ordinary body that fits is read to its end: exactly the announced bytes behind the head, however they come
      in, and the rest stays in the socket.  One that does not fit ends the request. */
  lemma RequestWithBody(maxSize: nat, maxMulti: int, verb: string, path: string, version: string, hs: seq<Header>,
                        n: nat, b0: string, more: seq<string>)
    requires GoodFirst(verb, path, version) && GoodHeaders(hs) && |Head(verb, path, version, hs)| <= maxSize
    requires Announces(hs, n) && n > 0 && Bounds(hs, "")
    ensures InBudget(NewRequest(maxSize, maxMulti))
    ensures var (q, rest) := Feed(NewRequest(maxSize, maxMulti), "", [Head(verb, path, version, hs) + b0] + more);
            var stream := b0 + Stream(more);
            if HeadSize(verb, path, version, hs) + n > maxSize then q.status.Abort? && rest == stream
            else if |stream| < n then q.status.WaitForBody? && q.bodyData == stream && rest == ""
            else q.status.Complete? && q.bodyData == stream[..n] && HasHead(q, verb, path, version, hs) &&
                 rest == stream[n..]
  {
    hide *;
    var r1 := HeadRead(maxSize, maxMulti, verb, path, version, hs, n, "", b0, more);
    var r := BeforeEnd(maxSize, maxMulti, verb, path, version, hs);
    BeforeEndFacts(maxSize, maxMulti, verb, path, version, hs);
    WordsOf(maxSize, maxMulti, verb, path, version, hs);
    StreamOf(b0, more);
    var stream := b0 + Stream(more);
    if HeadSize(verb, path, version, hs) + n > maxSize {
      EndFacts(r, n, "", Abort);
      EndedIs(r1);
      EndedStays(r1, "", [b0] + more);
    } else {
      EndFacts(r, n, "", WaitForBody);
      AdmittedIs(r1);
      BodyIgnoresFragments(r1, [b0] + more);
      BodyTaken(r1, stream);
      if |stream| >= n { CompletedHasHead(WithAll(r1, stream[..n]), verb, path, version, hs); }
    }
  }

  lemma EndedIs(r: Request)
    requires r.status.Abort?
    ensures r.Ended()
  {
  }

  lemma AdmittedIs(r: Request)
    requires r.status.WaitForBody? && r.boundary == "" && r.bodyData == "" && r.expectedBodySize > 0
    requires r.currentSize + r.expectedBodySize <= r.maxSize
    ensures Admitted(r)
  {
  }

  function WithAll(r: Request, body: string): Request { WithBody(r, body).(status := Complete) }

  lemma BodyTaken(r: Request, stream: string)
    requires r.status.WaitForBody? && r.bodyData == "" && r.expectedBodySize > 0
    ensures var n, q := r.expectedBodySize, AfterBody(r, stream);
            if |stream| < n then q.0.status == r.status && q.0.bodyData == stream && q.1 == ""
            else
              && q == (Completed(WithAll(r, stream[..n])), stream[n..])
              && q.0.status.Complete? && q.0.bodyData == stream[..n]
              && var w := WithAll(r, stream[..n]);
                 w.verb == r.verb && w.path == r.path && w.version == r.version && w.headers == r.headers
  {
    hide Completed;
    assert "" + stream == stream;
    if |stream| >= r.expectedBodySize {
      assert "" + stream[..r.expectedBodySize] == stream[..r.expectedBodySize];
      CompletedFacts(WithAll(r, stream[..r.expectedBodySize]));
    }
  }

  /** A multipart body: it is complete exactly when its announced bytes have come, they are fewer than the
      maximum, and its parts, cut at the boundary that stands in the type, hold no empty file and fit. */
  lemma RequestWithForm(maxSize: nat, maxMulti: int, verb: string, path: string, version: string, hs: seq<Header>,
                        n: nat, boundary: string, b0: string, more: seq<string>)
    requires GoodFirst(verb, path, version) && GoodHeaders(hs) && |Head(verb, path, version, hs)| <= maxSize
    requires Announces(hs, n) && n > 0 && Bounds(hs, boundary) && boundary != ""
    ensures InBudget(NewRequest(maxSize, maxMulti))
    ensures var (q, rest) := Feed(NewRequest(maxSize, maxMulti), "", [Head(verb, path, version, hs) + b0] + more);
            var stream := b0 + Stream(more);
            && (n > maxMulti ==> q.status.Abort? && rest == stream)
            && (q.status.Complete? <==>
                  && |stream| >= n && n < maxMulti
                  && var parts := Multipart.Sections(Multipart.Lines(stream[..n]), boundary);
                     !Multipart.HasEmptyFile(parts) &&
                     HeadSize(verb, path, version, hs) + Multipart.FieldBytes(parts) <= maxSize)
  {
    hide *;
    var r1 := HeadRead(maxSize, maxMulti, verb, path, version, hs, n, boundary, b0, more);
    var r := BeforeEnd(maxSize, maxMulti, verb, path, version, hs);
    BeforeEndFacts(maxSize, maxMulti, verb, path, version, hs);
    StreamOf(b0, more);
    if n > maxMulti {
      EndFacts(r, n, boundary, Abort);
      EndedIs(r1);
      EndedStays(r1, "", [b0] + more);
    } else {
      EndFacts(r, n, boundary, WaitForBody);
      CollectingIs(r1);
      MultipartCompletes(r1, [b0] + more);
    }
  }

  lemma CollectingIs(r: Request)
    requires r.status.WaitForBody? && r.boundary != "" && r.tempFile == "" && r.expectedBodySize > 0
    requires r.expectedBodySize <= r.maxMultiPartSize
    ensures Collecting(r)
  {
  }

  /** A first line that is not made of three words, or whose last word does not contain HTTP, ends the
      request at once. */
  lemma BrokenRequest(maxSize: nat, maxMulti: int, line: string, b0: string, more: seq<string>)
    requires line != "" && Piece(line) && |line| + 2 <= maxSize
    requires forall verb, path, version :: !WellFormedLine(line, verb, path, version)
    ensures InBudget(NewRequest(maxSize, maxMulti))
    ensures var (q, rest) := Feed(NewRequest(maxSize, maxMulti), "", [line + CRLF + b0] + more);
            q.status.Abort? && rest == b0 + Stream(more)
  {
    hide *;
    var r := NewRequest(maxSize, maxMulti);
    NewIsInBudget(maxSize, maxMulti);
    NewFacts(maxSize, maxMulti);
    PieceIs(line);
    LineOf(line);
    TrimLine(line);
    FirstLine(r, line);
    WaitsAndAsks(r);
    EndOfLineIs();
    DriveLine(r, line + CRLF, b0);
    var r1 := LineRead(r, line);
    FeedSame(r, r1, line + CRLF, b0, more);
    EndedIs(r1);
    EndedStays(r1, "", [b0] + more);
    StreamOf(b0, more);
  }

  // ----- parameters

  /** A parameter, and the texts that stand for its name and its value in a query or a form. */
  datatype Printed = Printed(nameText: string, valueText: string, name: string, value: string)

  predicate GoodPrinted(p: Printed) {
    && Encodes(p.nameText, p.name) && Encodes(p.valueText, p.value)
    && Trimmed(p.nameText) && Trimmed(p.valueText)
    && '&' !in p.nameText && '=' !in p.nameText && '&' !in p.valueText
  }

  function PartOf(p: Printed): string { p.nameText + "=" + p.valueText }

  function PartsOf(ps: seq<Printed>): (r: seq<string>)
    ensures |r| == |ps| && forall i :: 0 <= i < |ps| ==> r[i] == PartOf(ps[i])
  {
    seq(|ps|, i requires 0 <= i < |ps| => PartOf(ps[i]))
  }

  function NamesAndValues(ps: seq<Printed>): (r: seq<(string, string)>)
    ensures |r| == |ps| && forall i :: 0 <= i < |ps| ==> r[i] == (ps[i].name, ps[i].value)
  {
    seq(|ps|, i requires 0 <= i < |ps| => (ps[i].name, ps[i].value))
  }

  /** Parameters with an ampersand between them. */
  function QueryText(ps: seq<Printed>): string { Join(PartsOf(ps), '&') }

  lemma PartReads(p: Printed)
    requires GoodPrinted(p)
    ensures Parameter(PartOf(p)) == [(p.name, p.value)] && '&' !in PartOf(p)
  {
    var part := PartOf(p);
    DecodeUndoesEncoding(p.nameText, p.name);
    DecodeUndoesEncoding(p.valueText, p.value);
    TrimNothing(p.nameText);
    TrimNothing(p.valueText);
    hide Trim, UrlDecode, Encodes, FindChar;
    FirstSeparator(p.nameText, '=', p.valueText);
  }

  lemma {:induction false} PartsRead(ps: seq<Printed>)
    requires forall i :: 0 <= i < |ps| ==> GoodPrinted(ps[i])
    ensures Parameters(PartsOf(ps)) == NamesAndValues(ps)
    ensures forall i :: 0 <= i < |ps| ==> '&' !in PartsOf(ps)[i]
    decreases |ps|
  {
    hide GoodPrinted, PartOf, Parameter;
    if ps != [] {
      PartReads(ps[0]);
      PartsRead(ps[1..]);
      assert PartsOf(ps)[1..] == PartsOf(ps[1..]);
      assert NamesAndValues(ps) == [(ps[0].name, ps[0].value)] + NamesAndValues(ps[1..]);
      forall i | 0 <= i < |ps| ensures '&' !in PartsOf(ps)[i] {
        if i > 0 { assert PartsOf(ps)[i] == PartsOf(ps[1..])[i - 1]; }
      }
    }
  }

  /** Parameters that are printed come back with their names and values, in order. */
  lemma QueryReads(ps: seq<Printed>)
    requires forall i :: 0 <= i < |ps| ==> GoodPrinted(ps[i])
    ensures ParametersOf(QueryText(ps)) == NamesAndValues(ps)
  {
    hide GoodPrinted, Parameter, Split, Join;
    PartsRead(ps);
    if ps == [] {
      NothingJoined();
      NoParameters();
    } else {
      JoinThenSplit(PartsOf(ps), '&');
    }
  }

  lemma NothingJoined()
    ensures Join([], '&') == ""
  {
  }

  lemma QueryBehind(p: string, query: string)
    requires '?' !in p
    ensures Query(p + "?" + query) == query
  {
    FirstSeparator(p, '?', query);
  }

  lemma CompletedParameters(r: Request, body: string)
    requires r.bodyData == body && r.parameters == []
    ensures var kind := Value(r.headers, "Content-Type");
            Completed(r).parameters ==
            if body == "" || !(kind == "" || "application/x-www-form-urlencoded" <= kind) then
                ParametersOf(Query(r.path))
            else ParametersOf(body)
  {
    hide Query, PathOnly, WithoutHeader, ParametersOf, PutAll, HeaderValues, Value, StartsWith;
    PrefixIsStart(Value(r.headers, "Content-Type"), "application/x-www-form-urlencoded");
    EmptyPartFirst(body);
    var q := ParametersOf(RawParameters(r));
    assert [] + q == q;
  }

  /** The parameters of a query come through, in order, when there is no body. */
  lemma QueryComesThrough(maxSize: nat, maxMulti: int, verb: string, p: string, ps: seq<Printed>, version: string,
                          hs: seq<Header>, b0: string, more: seq<string>)
    requires var path := p + "?" + QueryText(ps);
             GoodFirst(verb, path, version) && GoodHeaders(hs) && |Head(verb, path, version, hs)| <= maxSize
    requires '?' !in p && (forall i :: 0 <= i < |ps| ==> GoodPrinted(ps[i])) && Announces(hs, 0)
    ensures InBudget(NewRequest(maxSize, maxMulti))
    ensures var path := p + "?" + QueryText(ps);
            var q := Feed(NewRequest(maxSize, maxMulti), "", [Head(verb, path, version, hs) + b0] + more).0;
            q.status.Complete? && q.path == p && q.parameters == NamesAndValues(ps)
  {
    hide *;
    var path := p + "?" + QueryText(ps);
    var boundary := AnyBoundary(hs);
    var r1 := HeadRead(maxSize, maxMulti, verb, path, version, hs, 0, boundary, b0, more);
    var r := BeforeEnd(maxSize, maxMulti, verb, path, version, hs);
    BeforeEndFacts(maxSize, maxMulti, verb, path, version, hs);
    WordsOf(maxSize, maxMulti, verb, path, version, hs);
    EndFacts(r, 0, boundary, Complete);
    var done := AtEnd(r, 0, boundary).(status := Complete);
    NoneYet(maxSize, maxMulti, verb, path, version, hs, 0, boundary, Complete);
    CompletedFacts(done);
    CompletedParameters(done, "");
    QueryBehind(p, QueryText(ps));
    QueryReads(ps);
    CompletedHasHead(done, verb, path, version, hs);
    PathInFront(Completed(done), verb, p, QueryText(ps), version, hs);
    EndedStays(r1, "", [b0] + more);
  }

  lemma NoneYet(maxSize: int, maxMulti: int, verb: string, path: string, version: string, hs: seq<Header>, n: nat,
                boundary: string, status: Status)
    ensures AtEnd(BeforeEnd(maxSize, maxMulti, verb, path, version, hs), n, boundary).(status := status).parameters ==
            []
  {
    hide Entries, HeadSize;
  }

  lemma PathInFront(q: Request, verb: string, p: string, query: string, version: string, hs: seq<Header>)
    requires HasHead(q, verb, p + "?" + query, version, hs) && '?' !in p
    ensures q.path == p
  {
    hide ValueIn, Value;
    var path := p + "?" + query;
    assert path[|p|] == '?' && forall k :: 0 <= k < |p| ==> path[k] == p[k];
    assert forall k :: 0 <= k < |q.path| ==> path[k] == q.path[k] != '?';
    assert |q.path| == |p|;
    assert path[..|p|] == p;
  }

  /** The parameters of a form come through, in order, whether there is a query or not. */
  lemma FormComesThrough(maxSize: nat, maxMulti: int, verb: string, path: string, version: string, hs: seq<Header>,
                         ps: seq<Printed>, b0: string, more: seq<string>)
    requires GoodFirst(verb, path, version) && GoodHeaders(hs) && |Head(verb, path, version, hs)| <= maxSize
    requires var kind := ValueIn(hs, "Content-Type"); kind == "" || "application/x-www-form-urlencoded" <= kind
    requires ps != [] && (forall i :: 0 <= i < |ps| ==> GoodPrinted(ps[i]))
    requires var n := |QueryText(ps)|; Announces(hs, n) && HeadSize(verb, path, version, hs) + n <= maxSize
    requires QueryText(ps) <= b0 + Stream(more)
    ensures InBudget(NewRequest(maxSize, maxMulti))
    ensures var q := Feed(NewRequest(maxSize, maxMulti), "", [Head(verb, path, version, hs) + b0] + more).0;
            q.status.Complete? && q.parameters == NamesAndValues(ps)
  {
    hide *;
    var body := QueryText(ps);
    var n := |body|;
    SomeText(ps);
    NoMultipart(hs);
    var r1 := HeadRead(maxSize, maxMulti, verb, path, version, hs, n, "", b0, more);
    var r := BeforeEnd(maxSize, maxMulti, verb, path, version, hs);
    BeforeEndFacts(maxSize, maxMulti, verb, path, version, hs);
    StreamOf(b0, more);
    EndFacts(r, n, "", WaitForBody);
    NoneYet(maxSize, maxMulti, verb, path, version, hs, n, "", WaitForBody);
    AdmittedIs(r1);
    BodyIgnoresFragments(r1, [b0] + more);
    BodyTaken(r1, b0 + Stream(more));
    assert (b0 + Stream(more))[..n] == body;
    WithAllFacts(r1, body);
    CompletedParameters(WithAll(r1, body), body);
    ValueIsLast(hs, "Content-Type");
    QueryReads(ps);
  }

  /** A body of another type has no parameters: those of the query stay, whatever it holds. */
  lemma OtherBodyKeepsQuery(maxSize: nat, maxMulti: int, verb: string, p: string, ps: seq<Printed>, version: string,
                            hs: seq<Header>, n: nat, b0: string, more: seq<string>)
    requires var path := p + "?" + QueryText(ps);
             && GoodFirst(verb, path, version) && GoodHeaders(hs) && |Head(verb, path, version, hs)| <= maxSize
             && HeadSize(verb, path, version, hs) + n <= maxSize
    requires '?' !in p && (forall i :: 0 <= i < |ps| ==> GoodPrinted(ps[i]))
    requires Announces(hs, n) && 0 < n <= |b0 + Stream(more)| && Bounds(hs, "")
    requires var kind := ValueIn(hs, "Content-Type"); kind != "" && !("application/x-www-form-urlencoded" <= kind)
    ensures InBudget(NewRequest(maxSize, maxMulti))
    ensures var path := p + "?" + QueryText(ps);
            var q := Feed(NewRequest(maxSize, maxMulti), "", [Head(verb, path, version, hs) + b0] + more).0;
            && q.status.Complete? && q.bodyData == (b0 + Stream(more))[..n]
            && q.path == p && q.parameters == NamesAndValues(ps)
  {
    hide *;
    var path, body := p + "?" + QueryText(ps), (b0 + Stream(more))[..n];
    var r1 := HeadRead(maxSize, maxMulti, verb, path, version, hs, n, "", b0, more);
    var r := BeforeEnd(maxSize, maxMulti, verb, path, version, hs);
    BeforeEndFacts(maxSize, maxMulti, verb, path, version, hs);
    WordsOf(maxSize, maxMulti, verb, path, version, hs);
    StreamOf(b0, more);
    EndFacts(r, n, "", WaitForBody);
    NoneYet(maxSize, maxMulti, verb, path, version, hs, n, "", WaitForBody);
    AdmittedIs(r1);
    BodyIgnoresFragments(r1, [b0] + more);
    BodyTaken(r1, b0 + Stream(more));
    WithAllFacts(r1, body);
    CompletedParameters(WithAll(r1, body), body);
    ValueIsLast(hs, "Content-Type");
    QueryBehind(p, QueryText(ps));
    QueryReads(ps);
    CompletedHasHead(WithAll(r1, body), verb, path, version, hs);
    PathInFront(Completed(WithAll(r1, body)), verb, p, QueryText(ps), version, hs);
  }

  lemma WithAllFacts(r: Request, body: string)
    requires r.bodyData == ""
    ensures var w := WithAll(r, body); w.bodyData == body && w.parameters == r.parameters && w.headers == r.headers
  {
    assert "" + body == body;
  }

  lemma SomeText(ps: seq<Printed>)
    requires ps != []
    ensures |QueryText(ps)| > 0
  {
    var a := PartsOf(ps);
    assert |a[0]| > 0;
  }

  lemma NoMultipart(hs: seq<Header>)
    requires var kind := ValueIn(hs, "Content-Type"); kind == "" || "application/x-www-form-urlencoded" <= kind
    ensures Bounds(hs, "")
  {
    hide ValueIn;
    var kind := ValueIn(hs, "Content-Type");
    assert kind != "" ==> kind[0] == "application/x-www-form-urlencoded"[0];
    assert "multipart/form-data"[0] == 'm';
  }

  // ----- cookies

  /** The values of the headers with that name, in the order of the text. */
  function ValuesOf(hs: seq<Header>, key: string): seq<string> {
    if hs == [] then [] else (if hs[0].name == key then [hs[0].value] else []) + ValuesOf(hs[1..], key)
  }

  predicate OnOneLine(hs: seq<Header>, key: string) {
    forall i :: 0 <= i < |hs| && hs[i].name == key ==> hs[i].more == []
  }

  function Reverse<T>(s: seq<T>): seq<T> { if s == [] then [] else Reverse(s[1..]) + [s[0]] }

  lemma {:induction false} HeaderValuesAppend(a: seq<(string, string)>, b: seq<(string, string)>, key: string)
    ensures HeaderValues(a + b, key) == HeaderValues(a, key) + HeaderValues(b, key)
    decreases |a|
  {
    if a == [] {
      assert a + b == b;
    } else {
      assert (a + b)[1..] == a[1..] + b;
      HeaderValuesAppend(a[1..], b, key);
      var x: seq<string> := if a[0].0 == key then [a[0].1] else [];
      assert x + (HeaderValues(a[1..], key) + HeaderValues(b, key)) == HeaderValues(a, key) + HeaderValues(b, key);
    }
  }

  lemma {:induction false} NoValuesOf(a: seq<(string, string)>, key: string)
    requires forall i :: 0 <= i < |a| ==> a[i].0 != key
    ensures HeaderValues(a, key) == []
    decreases |a|
  {
    if a != [] { NoValuesOf(a[1..], key); }
  }

  lemma OneHeaderValues(h: Header, key: string)
    requires h.name == key ==> h.more == []
    ensures HeaderValues(OneHeader(h.name, h.value, h.more), key) == if h.name == key then [h.value] else []
  {
    var a := OneHeader(h.name, h.value, h.more);
    if h.name == key {
      assert a == [(h.name, h.value)] && a[1..] == [];
    } else {
      OneHeaderIs(h.name, h.value, h.more);
      NoValuesOf(a, key);
    }
  }

  /** The look-up of all values gives the newest first. */
  lemma {:induction false} NewestFirst(hs: seq<Header>, key: string)
    requires OnOneLine(hs, key)
    ensures HeaderValues(Entries(hs), key) == Reverse(ValuesOf(hs, key))
    decreases |hs|
  {
    hide OneHeader, HeaderValues, Entries;
    if hs == [] {
      NoEntries(key);
      NoValuesOf([], key);
    } else {
      var h := hs[0];
      EntriesAre(hs);
      HeaderValuesAppend(Entries(hs[1..]), OneHeader(h.name, h.value, h.more), key);
      OneHeaderValues(h, key);
      NewestFirst(hs[1..], key);
      if h.name == key {
        assert ValuesOf(hs, key)[1..] == ValuesOf(hs[1..], key);
      } else {
        assert ValuesOf(hs, key) == [] + ValuesOf(hs[1..], key) == ValuesOf(hs[1..], key);
      }
    }
  }

  lemma {:induction false} ReverseLists(css: seq<seq<(string, string)>>)
    requires CleanLists(css)
    ensures CleanLists(Reverse(css)) && CookieHeaders(Reverse(css)) == Reverse(CookieHeaders(css))
    decreases |css|
  {
    hide CookieHeader, CleanPairs;
    if css != [] {
      ReverseLists(css[1..]);
      CookieHeadersAppend(Reverse(css[1..]), [css[0]]);
      assert CookieHeaders([css[0]]) == [CookieHeader(css[0])] by { assert [css[0]][1..] == []; }
      assert CookieHeaders(css)[1..] == CookieHeaders(css[1..]);
    }
  }

  lemma {:induction false} CookieHeadersAppend(a: seq<seq<(string, string)>>, b: seq<seq<(string, string)>>)
    requires CleanLists(a) && CleanLists(b)
    ensures CleanLists(a + b) && CookieHeaders(a + b) == CookieHeaders(a) + CookieHeaders(b)
    decreases |a|
  {
    hide CookieHeader, CleanPairs;
    if a == [] {
      assert a + b == b;
    } else {
      assert (a + b)[1..] == a[1..] + b;
      CookieHeadersAppend(a[1..], b);
    }
  }

  /** The cookies of a request are those of the cookie headers in its text.  When a name is there more than
      once, the first of the headers that have it counts, and in it the last cookie of that name. */
  lemma CookiesOfTheText(maxSize: nat, maxMulti: int, verb: string, path: string, version: string, hs: seq<Header>,
                         css: seq<seq<(string, string)>>, name: string, b0: string, more: seq<string>)
    requires GoodFirst(verb, path, version) && GoodHeaders(hs) && |Head(verb, path, version, hs)| <= maxSize
    requires Announces(hs, 0) && OnOneLine(hs, "Cookie")
    requires CleanLists(css) && ValuesOf(hs, "Cookie") == CookieHeaders(css)
    ensures InBudget(NewRequest(maxSize, maxMulti))
    ensures var q := Feed(NewRequest(maxSize, maxMulti), "", [Head(verb, path, version, hs) + b0] + more).0;
            q.status.Complete? && Get(q.cookies, name) == LastValue(AllPairs(Reverse(css)), name)
  {
    hide *;
    var boundary := AnyBoundary(hs);
    var r1 := HeadRead(maxSize, maxMulti, verb, path, version, hs, 0, boundary, b0, more);
    var r := BeforeEnd(maxSize, maxMulti, verb, path, version, hs);
    BeforeEndFacts(maxSize, maxMulti, verb, path, version, hs);
    EndFacts(r, 0, boundary, Complete);
    var done := AtEnd(r, 0, boundary).(status := Complete);
    CompletedFacts(done);
    NewestFirst(hs, "Cookie");
    ReverseLists(css);
    NoCookiesYet(maxSize, maxMulti, verb, path, version, hs, boundary);
    CompletedCookies(done, Reverse(css), name);
    EndedStays(r1, "", [b0] + more);
  }

  lemma NoCookiesYet(maxSize: int, maxMulti: int, verb: string, path: string, version: string, hs: seq<Header>,
                     boundary: string)
    ensures AtEnd(BeforeEnd(maxSize, maxMulti, verb, path, version, hs), 0, boundary).(status := Complete).cookies == []
  {
    hide Entries, HeadSize;
  }

  lemma CompletedCookies(r: Request, css: seq<seq<(string, string)>>, name: string)
    requires r.cookies == [] && CleanLists(css) && HeaderValues(r.headers, "Cookie") == CookieHeaders(css)
    ensures Get(Completed(r).cookies, name) == LastValue(AllPairs(css), name)
  {
    hide PutAll, Get, LastValue, HeaderValues, WithoutHeader, CleanLists, CookieHeaders, AllPairs, PathOnly,
        ParametersOf, RawParameters;
    var d := DecodeParams(r);
    CookiesComeThrough(d, css, name);
    NothingStored(name);
  }

  lemma NothingStored(name: string)
    ensures Get<string>([], name) == None
  {
  }

  // ----- fragments of the head

  predicate EndsLine(a: string) { a == "" || a[|a| - 1] == '\n' }

  lemma {:induction false} TakesSameLine(a: string, b: string, n: nat)
    requires a != "" && EndsLine(a)
    ensures Multipart.TakeLine(a + b, n) == Multipart.TakeLine(a, n)
    decreases |a|
  {
    if n > 0 && a[0] != '\n' {
      assert (a + b)[1..] == a[1..] + b;
      assert a[1..] != "" && a[1..][|a[1..]| - 1] == a[|a| - 1];
      TakesSameLine(a[1..], b, n - 1);
    }
  }

  lemma SameStep(r: Request, a: string, b: string)
    requires InBudget(r) && Waiting(r) && a != "" && EndsLine(a)
    ensures var (r1, rest) := Step(r, a); Step(r, a + b) == (r1, rest + b) && EndsLine(rest)
  {
    hide Advance, Checked;
    TakesSameLine(a, b, Ask(r));
    var x := Taken(r, a);
    assert x == Taken(r, a + b);
    assert (a + b)[|x|..] == a[|x|..] + b;
  }

  /** A cut at the end of a line within the head changes nothing. */
  lemma {:induction false} CutBetweenLines(r: Request, a: string, b: string)
    requires InBudget(r) && EndsLine(a) && Waiting(Drive(r, a).0)
    ensures Drive(r, a).1 == "" && InBudget(Drive(r, a).0) && Drive(r, a + b) == Drive(Drive(r, a).0, b)
    decreases |a|
  {
    hide Step, InBudget, EndsLine;
    DriveKeepsBudget(r, a);
    if a == "" {
      assert a + b == b;
    } else if !r.Ended() {
      WaitsBefore(r, Drive(r, a).0);
      SameStep(r, a, b);
      StepKeepsBudget(r, a);
      StepKeepsBudget(r, a + b);
      var (r1, rest) := Step(r, a);
      if r1.Ended() { DriveEnds(r1, rest); }
      CutBetweenLines(r1, rest, b);
    }
  }

  lemma WaitsBefore(r: Request, q: Request)
    requires Rank(q.status) >= Rank(r.status) && Waiting(q)
    ensures Waiting(r)
  {
  }

  /** The head of a request may come in several fragments, when they end with lines. */
  lemma LinesMayComeApart(r: Request, a: string, b: string, more: seq<string>)
    requires InBudget(r) && EndsLine(a) && Waiting(Drive(r, a).0)
    ensures Feed(r, "", [a, b] + more) == Feed(r, "", [a + b] + more)
  {
    hide Drive, InBudget, EndsLine;
    CutBetweenLines(r, a, b);
    DriveKeepsBudget(r, a);
    DriveKeepsBudget(r, a + b);
    var r1 := Drive(r, a).0;
    assert ([a, b] + more)[1..] == [b] + more && ([b] + more)[1..] == more && ([a + b] + more)[1..] == more;
    assert "" + a == a && "" + b == b && "" + (a + b) == a + b;
    assert Drive(r, a) == (r1, "");
  }

  /** But a fragment that ends within the first line is taken for the whole line, and ends the request unless it
      happens to be one. */
  lemma FirstLineMustNotComeApart(maxSize: nat, maxMulti: int, a: string, more: seq<string>)
    requires '\n' !in a && Trim(a) != "" && |a| <= maxSize
    requires forall verb, path, version :: !WellFormedLine(Trim(a), verb, path, version)
    ensures InBudget(NewRequest(maxSize, maxMulti))
    ensures Feed(NewRequest(maxSize, maxMulti), "", [a] + more).0.status.Abort?
  {
    hide *;
    var r := NewRequest(maxSize, maxMulti);
    NewIsInBudget(maxSize, maxMulti);
    NewFacts(maxSize, maxMulti);
    WaitsAndAsks(r);
    FirstLine(r, Trim(a));
    TakesRest(r, a);
    var r1 := LineRead(r, Trim(a));
    EndedIs(r1);
    StepKeepsBudget(r, a);
    DriveOnce(r, a);
    DriveEnds(r1, "");
    FeedOnce(r, a, more);
    EndedStays(r1, "", more);
  }

  lemma DriveOnce(r: Request, a: string)
    requires InBudget(r) && a != "" && !r.Ended()
    ensures InBudget(Step(r, a).0) && Drive(r, a) == Drive(Step(r, a).0, Step(r, a).1)
  {
    hide Step, InBudget;
    StepKeepsBudget(r, a);
  }

  lemma FeedOnce(r: Request, a: string, more: seq<string>)
    requires InBudget(r)
    ensures InBudget(Drive(r, a).0) && Feed(r, "", [a] + more) == Feed(Drive(r, a).0, Drive(r, a).1, more)
  {
    hide Drive, InBudget;
    DriveKeepsBudget(r, a);
    assert ([a] + more)[1..] == more && "" + a == a;
  }

  lemma TakesRest(r: Request, a: string)
    requires InBudget(r) && Waiting(r) && '\n' !in a && Trim(a) != "" && |a| <= Ask(r)
    ensures a != "" && !r.Ended() && Step(r, a) == (LineRead(r, Trim(a)), "")
  {
    hide RequestLine, HeaderLine, Checked;
    assert a != "" by { if a == "" { TrimNothing(a); } }
    TakesAll(a, Ask(r));
    assert Taken(r, a) == a;
    assert a[|a|..] == "";
  }

  lemma {:induction false} TakesAll(a: string, n: nat)
    requires '\n' !in a && |a| <= n
    ensures Multipart.TakeLine(a, n) == a
    decreases |a|
  {
    if a != "" {
      assert a[0] != '\n';
      TakesAll(a[1..], n - 1);
    }
  }

  /** A line without a colon in front of all headers only counts for the budget. */
  lemma StrayLine(r: Request, line: string)
    requires r.status.WaitForHeader? && line != "" && (line[0] == ':' || ':' !in line)
    requires !HasKey(r.headers, r.currentHeader) && r.currentSize + |line| <= r.maxSize
    ensures LineRead(r, line) == r.(currentSize := r.currentSize + |line|)
  {
    hide HasKey;
    assert FindChar(line, ':', 0) <= 0;
  }
}
