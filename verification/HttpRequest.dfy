/**
  The request (httprequest.cpp): a state machine that is fed from a socket, within a budget of
  bytes.  `Step` is one call of readFromSocket, `Drive` the loop of the connection handler
  (httpconnectionhandler.cpp:153-164), and `Feed` a whole connection, which delivers the bytes in
  arbitrary fragments.
*/
module HttpRequests {
  import opened QtText
  import opened Numbers
  import opened UrlDecoding
  import opened QtMaps
  import opened HttpCookies
  import Multipart

  datatype Status = WaitForRequest | WaitForHeader | WaitForBody | Complete | Abort | Crashed

  datatype Request = Request(
    status: Status, currentSize: int, maxSize: int, maxMultiPartSize: int,
    verb: string, path: string, version: string,
    currentHeader: string, headers: seq<(string, string)>,
    boundary: string, expectedBodySize: int, bodyData: string, tempFile: string,
    parameters: seq<(string, string)>, files: seq<(string, string)>, cookies: StringMap<string>)
  {
    predicate Ended() { status.Complete? || status.Abort? || status.Crashed? }
  }

  function NewRequest(maxSize: int, maxMultiPartSize: int): Request {
    Request(WaitForRequest, 0, maxSize, maxMultiPartSize, "", "", "", "", [], "", 0, "", "", [], [], [])
  }

  /** QMultiMap::value: the entry inserted last, which is in front. */
  function Value(headers: seq<(string, string)>, key: string): string {
    if headers == [] then "" else if headers[0].0 == key then headers[0].1 else Value(headers[1..], key)
  }

  predicate HasKey(headers: seq<(string, string)>, key: string) {
    exists i :: 0 <= i < |headers| && headers[i].0 == key
  }

  // ----- the states

  /** The request line, trimmed. */
  function RequestLine(r: Request, line: string): Request {
    var r1 := r.(currentSize := r.currentSize + |line|);
    var list := Split(line, ' ');
    if line == "" then r1
    else if |list| != 3 || !Contains(list[2], "HTTP") then r1.(status := Abort)
    else r1.(verb := list[0], path := list[1], version := list[2], status := WaitForHeader)
  }

  function BoundaryOf(r: Request): string {
    var contentType := Value(r.headers, "Content-Type");
    var posi := Find(contentType, "boundary=", 0);
    if StartsWith(contentType, "multipart/form-data") && posi >= 0 then Mid(contentType, posi + 9, -1) else r.boundary
  }

  function BodySizeOf(r: Request): int {
    var contentLength := Value(r.headers, "Content-Length");
    if contentLength != "" then ToInt(contentLength) else r.expectedBodySize
  }

  /** The admission check behind the headers. */
  function EndOfHeaders(r: Request): Request {
    var r1 := r.(boundary := BoundaryOf(r), expectedBodySize := BodySizeOf(r));
    r1.(status :=
      if r1.expectedBodySize == 0 then Complete
      else if r1.boundary == "" && r1.expectedBodySize + r1.currentSize > r1.maxSize then Abort
      else if r1.boundary != "" && r1.expectedBodySize > r1.maxMultiPartSize then Abort
      else WaitForBody)
  }

  /** A header line, trimmed. */
  function HeaderLine(r: Request, line: string): Request {
    var r1 := r.(currentSize := r.currentSize + |line|);
    var colon := FindChar(line, ':', 0);
    if colon > 0 then
      r1.(currentHeader := line[..colon], headers := [(line[..colon], Trim(line[colon + 1..]))] + r.headers)
    else if line != "" then
      if HasKey(r.headers, r.currentHeader) then
        r1.(headers := [(r.currentHeader, Value(r.headers, r.currentHeader) + " " + line)] + r.headers)
      else r1
    else EndOfHeaders(r1)
  }

  function BodyPart(r: Request, data: string): Request {
    var body := r.bodyData + data;
    r.(currentSize := r.currentSize + |data|, bodyData := body,
       status := if |body| >= r.expectedBodySize then Complete else r.status)
  }

  /** A piece of a multipart body; it does not count for the budget, but the form fields do. */
  function FilePart(r: Request, data: string): Request {
    var r1 := r.(tempFile := r.tempFile + data);
    if |r1.tempFile| >= r.maxMultiPartSize then r1.(status := Abort)
    else if |r1.tempFile| >= r.expectedBodySize then
      match Multipart.ParseMultiPart(r1.tempFile, r.boundary)
      case None => r1.(status := Crashed)
      case Some(form) =>
        r1.(status := Complete, currentSize := r.currentSize + form.size,
            parameters := r.parameters + form.parameters, files := r.files + form.files)
    else r1
  }

  // ----- parameters

  function Parameter(part: string): seq<(string, string)> {
    var equals := FindChar(part, '=', 0);
    if equals >= 0 then [(UrlDecode(Trim(part[..equals])), UrlDecode(Trim(part[equals + 1..])))]
    else if part != "" then [(UrlDecode(part), "")]
    else []
  }

  lemma ParameterIs(part: string)
    ensures var e := FindChar(part, '=', 0);
            && -1 <= e < |part|
            && Parameter(part) ==
               (if e >= 0 then [(UrlDecode(Trim(part[..e])), UrlDecode(Trim(part[e + 1..])))]
                else if part != "" then [(UrlDecode(part), "")]
                else [])
  {
    hide UrlDecode, Trim;
  }

  function Parameters(parts: seq<string>): seq<(string, string)> {
    if parts == [] then [] else Parameter(parts[0]) + Parameters(parts[1..])
  }

  /** The parameters of a query or of a form body. */
  function ParametersOf(raw: string): seq<(string, string)> { Parameters(Split(raw, '&')) }

  function Query(path: string): string {
    var q := FindChar(path, '?', 0);
    if q >= 0 then path[q + 1..] else ""
  }

  function PathOnly(path: string): string {
    var q := FindChar(path, '?', 0);
    if q >= 0 then path[..q] else path
  }

  predicate HasFormBody(r: Request) {
    var contentType := Value(r.headers, "Content-Type");
    r.bodyData != "" && (contentType == "" || StartsWith(contentType, "application/x-www-form-urlencoded"))
  }

  /** The two branches for a form body are swapped: a query that is there is overwritten. */
  function RawParameters(r: Request): string {
    var query := Query(r.path);
    if HasFormBody(r) then if query == "" then "&" + r.bodyData else r.bodyData else query
  }

  function DecodeParams(r: Request): Request {
    r.(path := PathOnly(r.path), parameters := r.parameters + ParametersOf(RawParameters(r)))
  }

  // ----- cookies

  /** All values of a header, the one inserted last in front. */
  function HeaderValues(headers: seq<(string, string)>, key: string): seq<string> {
    if headers == [] then []
    else (if headers[0].0 == key then [headers[0].1] else []) + HeaderValues(headers[1..], key)
  }

  function WithoutHeader(headers: seq<(string, string)>, key: string): seq<(string, string)> {
    if headers == [] then []
    else (if headers[0].0 == key then [] else [headers[0]]) + WithoutHeader(headers[1..], key)
  }

  /** Every part of a cookie header is a name and a value. */
  function PutParts(cookies: StringMap<string>, parts: seq<string>): StringMap<string>
    decreases |parts|
  {
    if parts == [] then cookies
    else PutParts(Insert(cookies, PartName(parts[0]), PartValue(parts[0])), parts[1..])
  }

  function PutAll(cookies: StringMap<string>, values: seq<string>): StringMap<string>
    decreases |values|
  {
    if values == [] then cookies else PutAll(PutParts(cookies, SplitList(values[0])), values[1..])
  }

  function CookiesExtracted(r: Request): Request {
    r.(cookies := PutAll(r.cookies, HeaderValues(r.headers, "Cookie")), headers := WithoutHeader(r.headers, "Cookie"))
  }

  /** What is done with a complete request. */
  function Completed(r: Request): Request { CookiesExtracted(DecodeParams(r)) }

  // ----- one call of readFromSocket

  /** How many bytes the call asks for. */
  function Ask(r: Request): int {
    match r.status
    case WaitForBody =>
      if r.boundary == "" then r.expectedBodySize - |r.bodyData|
      else
        var n := r.expectedBodySize - |r.tempFile|;
        if n > 65536 then 65536 else n
    case _ => r.maxSize - r.currentSize + 1
  }

  /** What the socket gives: readLine takes 0 for "no limit", and a negative size gives nothing. */
  function GiveLine(available: string, n: int): (r: string)
    ensures r <= available
  {
    if n < 0 then ""
    else if n == 0 then Multipart.TakeLine(available, |available|)
    else Multipart.TakeLine(available, n)
  }

  function GiveBytes(available: string, n: int): (r: string)
    ensures r <= available
  {
    if n <= 0 then "" else if n < |available| then available[..n] else available
  }

  function Taken(r: Request, available: string): (s: string)
    ensures s <= available
  {
    match r.status
    case WaitForRequest => GiveLine(available, Ask(r))
    case WaitForHeader => GiveLine(available, Ask(r))
    case WaitForBody => GiveBytes(available, Ask(r))
    case _ => ""
  }

  function Advance(r: Request, data: string): Request {
    match r.status
    case WaitForRequest => RequestLine(r, Trim(data))
    case WaitForHeader => HeaderLine(r, Trim(data))
    case WaitForBody => if r.boundary == "" then BodyPart(r, data) else FilePart(r, data)
    case _ => r
  }

  function Checked(r: Request): Request {
    if r.status.Crashed? then r
    else if r.currentSize > r.maxSize then r.(status := Abort)
    else if r.status.Complete? then Completed(r)
    else r
  }

  function Step(r: Request, available: string): (Request, string) {
    (Checked(Advance(r, Taken(r, available))), available[|Taken(r, available)|..])
  }

  // ----- the budget

  /** In every state that is not final the budget is kept and something is still to be read. */
  ghost predicate InBudget(r: Request) {
    && (!r.Ended() ==> r.currentSize <= r.maxSize)
    && (r.status.Complete? ==> r.currentSize <= r.maxSize)
    && (r.status.WaitForRequest? || r.status.WaitForHeader? ==> r.bodyData == "" && r.tempFile == "")
    && (r.status.WaitForBody? ==>
          if r.boundary == "" then r.bodyData == "" || |r.bodyData| < r.expectedBodySize
          else r.tempFile == "" || (|r.tempFile| < r.expectedBodySize && |r.tempFile| < r.maxMultiPartSize))
    && (r.status.WaitForBody? ==> r.expectedBodySize != 0)
  }

  function Rank(status: Status): nat {
    match status
    case WaitForRequest => 0
    case WaitForHeader => 1
    case WaitForBody => 2
    case _ => 3
  }

  lemma NewIsInBudget(maxSize: nat, maxMultiPartSize: int)
    ensures InBudget(NewRequest(maxSize, maxMultiPartSize))
  {
  }

  /** What one call keeps. */
  ghost predicate Keeps(r: Request, r1: Request) {
    && InBudget(r1) && Rank(r1.status) >= Rank(r.status)
    && r1.maxSize == r.maxSize && r1.maxMultiPartSize == r.maxMultiPartSize
  }

  lemma AdvanceKeeps(r: Request, data: string)
    requires InBudget(r) && !r.Ended()
    ensures var r1 := Checked(Advance(r, data));
            && InBudget(r1) && Rank(r1.status) >= Rank(r.status)
            && r1.maxSize == r.maxSize && r1.maxMultiPartSize == r.maxMultiPartSize
  {
    match r.status
    case WaitForRequest => RequestLineKeeps(r, Trim(data));
    case WaitForHeader => HeaderLineKeeps(r, Trim(data));
    case WaitForBody => BodyKeeps(r, data);
    case _ =>
  }

  lemma RequestLineKeeps(r: Request, line: string)
    requires InBudget(r) && r.status.WaitForRequest?
    ensures Keeps(r, Checked(RequestLine(r, line)))
  {
    hide Split, Contains, Completed;
  }

  lemma HeaderLineKeeps(r: Request, line: string)
    requires InBudget(r) && r.status.WaitForHeader?
    ensures Keeps(r, Checked(HeaderLine(r, line)))
  {
    hide Trim, FindChar, Value, HasKey, BoundaryOf, BodySizeOf, Completed;
    CompletedKeeps();
  }

  lemma BodyKeeps(r: Request, data: string)
    requires InBudget(r) && r.status.WaitForBody?
    ensures Keeps(r, Checked(if r.boundary == "" then BodyPart(r, data) else FilePart(r, data)))
  {
    hide Completed, Multipart.ParseMultiPart;
    CompletedKeeps();
  }

  lemma CompletedKeeps()
    ensures forall r: Request {:trigger Completed(r)} ::
      var r1 := Completed(r);
      && r1.status == r.status && r1.currentSize == r.currentSize
      && r1.maxSize == r.maxSize && r1.maxMultiPartSize == r.maxMultiPartSize
  {
  }

  /** A call that is allowed to read takes at least one byte, or ends the request: a negative body
      size does that at once. */
  lemma StepTakes(r: Request, available: string)
    requires InBudget(r) && !r.Ended() && available != ""
    ensures Taken(r, available) != "" || Step(r, available).0.Ended()
    ensures !r.status.WaitForBody? ==> Ask(r) >= 1 && Taken(r, available) != "" && |Taken(r, available)| <= Ask(r)
  {
    hide Split, Trim, FindChar, Value, HasKey, BoundaryOf, BodySizeOf, ParametersOf, RawParameters, PathOnly;
  }

  /** One call keeps the budget, moves the status forward only, and takes bytes or ends. */
  lemma StepKeepsBudget(r: Request, available: string)
    requires InBudget(r) && !r.Ended() && available != ""
    ensures var (r1, rest) := Step(r, available);
            && InBudget(r1) && Rank(r1.status) >= Rank(r.status)
            && r1.maxSize == r.maxSize && r1.maxMultiPartSize == r.maxMultiPartSize
            && (|rest| < |available| || (|rest| == |available| && r1.Ended()))
  {
    hide Taken, Advance, Checked, InBudget;
    AdvanceKeeps(r, Taken(r, available));
    StepTakes(r, available);
  }

  // ----- the driving loop

  function Drive(r: Request, available: string): (Request, string)
    requires InBudget(r)
    decreases |available|, if r.Ended() then 0 else 1
  {
    if available == "" || r.Ended() then (r, available)
    else
      StepKeepsBudget(r, available);
      var (r1, rest) := Step(r, available);
      Drive(r1, rest)
  }

  lemma {:induction false} DriveKeepsBudget(r: Request, available: string)
    requires InBudget(r)
    ensures var (r1, rest) := Drive(r, available);
            && InBudget(r1) && Rank(r1.status) >= Rank(r.status)
            && r1.maxSize == r.maxSize && r1.maxMultiPartSize == r.maxMultiPartSize
            && (r1.Ended() || rest == "")
    decreases |available|, if r.Ended() then 0 else 1
  {
    hide InBudget, Step;
    if available != "" && !r.Ended() {
      StepKeepsBudget(r, available);
      var (r1, rest) := Step(r, available);
      DriveKeepsBudget(r1, rest);
    }
  }

  /** Fragments arrive one after the other, and the loop runs for each. */
  function Feed(r: Request, available: string, fragments: seq<string>): (Request, string)
    requires InBudget(r)
    decreases |fragments|
  {
    if fragments == [] then (r, available)
    else
      DriveKeepsBudget(r, available + fragments[0]);
      var (r1, rest) := Drive(r, available + fragments[0]);
      Feed(r1, rest, fragments[1..])
  }

  /** In every run the status moves forward only, no bytes are left over before the end, and a
      complete request has kept the budget. */
  lemma {:induction false} RunKeepsBudget(r: Request, available: string, fragments: seq<string>)
    requires InBudget(r) && (r.Ended() || available == "")
    ensures var (r1, rest) := Feed(r, available, fragments);
            && InBudget(r1) && Rank(r1.status) >= Rank(r.status) && r1.maxSize == r.maxSize
            && (r1.Ended() || rest == "")
            && (!r1.status.Abort? && !r1.status.Crashed? ==> r1.currentSize <= r1.maxSize)
    decreases |fragments|
  {
    hide Drive;
    if fragments != [] {
      DriveKeepsBudget(r, available + fragments[0]);
      var (r1, rest) := Drive(r, available + fragments[0]);
      RunKeepsBudget(r1, rest, fragments[1..]);
    }
  }

  /** A request that has just been created, on a connection without waiting bytes. */
  lemma NewRequestKeepsBudget(maxSize: nat, maxMultiPartSize: int, fragments: seq<string>)
    ensures InBudget(NewRequest(maxSize, maxMultiPartSize))
    ensures var (r, rest) := Feed(NewRequest(maxSize, maxMultiPartSize), "", fragments);
            && r.maxSize == maxSize && (r.Ended() || rest == "")
            && (!r.status.Abort? && !r.status.Crashed? ==> r.currentSize <= maxSize)
  {
    hide Feed, InBudget;
    NewIsInBudget(maxSize, maxMultiPartSize);
    RunKeepsBudget(NewRequest(maxSize, maxMultiPartSize), "", fragments);
  }

  function Stream(fragments: seq<string>): string {
    if fragments == [] then "" else fragments[0] + Stream(fragments[1..])
  }

  lemma {:induction false} EndedStays(r: Request, available: string, fragments: seq<string>)
    requires InBudget(r) && r.Ended()
    ensures Feed(r, available, fragments) == (r, available + Stream(fragments))
    decreases |fragments|
  {
    if fragments == [] {
      assert available + "" == available;
    } else {
      DriveKeepsBudget(r, available + fragments[0]);
      EndedStays(r, available + fragments[0], fragments[1..]);
      assert available + fragments[0] + Stream(fragments[1..]) == available + Stream(fragments);
    }
  }

  // ----- ordinary bodies

  /** An ordinary body that the admission check has let through. */
  ghost predicate Admitted(r: Request) {
    && r.status.WaitForBody? && r.boundary == "" && |r.bodyData| < r.expectedBodySize
    && r.currentSize - |r.bodyData| + r.expectedBodySize <= r.maxSize
  }

  /** Behind the headers: an ordinary body of positive size is admitted exactly when it fits. */
  lemma AdmissionCheck(r: Request)
    requires r.status.WaitForHeader? && InBudget(r) && BoundaryOf(r) == "" && BodySizeOf(r) > 0
    ensures Admitted(Checked(HeaderLine(r, ""))) <==> BodySizeOf(r) + r.currentSize <= r.maxSize
    ensures !Admitted(Checked(HeaderLine(r, ""))) ==> Checked(HeaderLine(r, "")).status.Abort?
  {
    hide Value, BoundaryOf, BodySizeOf;
  }

  /** The request with more of its body. */
  function WithBody(r: Request, data: string): Request {
    r.(bodyData := r.bodyData + data, currentSize := r.currentSize + |data|)
  }

  lemma BodyStep(r: Request, available: string)
    requires Admitted(r) && InBudget(r) && available != ""
    ensures var n := Minimum(r.expectedBodySize - |r.bodyData|, |available|);
            && 0 < n <= |available|
            && Step(r, available) ==
               (if n == r.expectedBodySize - |r.bodyData| then
                   Completed(WithBody(r, available[..n]).(status := Complete))
                else WithBody(r, available[..n]),
                available[n..])
  {
    hide Completed;
    assert available[..|available|] == available;
  }

  /** What a run makes of an admitted body: the next bytes of the stream, as many as announced,
      and the rest stays in the socket. */
  function AfterBody(r: Request, stream: string): (Request, string) {
    var n := r.expectedBodySize - |r.bodyData|;
    if 0 <= n <= |stream| then (Completed(WithBody(r, stream[..n]).(status := Complete)), stream[n..])
    else (WithBody(r, stream), "")
  }

  lemma DriveBody(r: Request, available: string)
    requires Admitted(r) && InBudget(r)
    ensures Drive(r, available) == AfterBody(r, available)
  {
    hide Completed;
    if available == "" {
      assert r.bodyData + "" == r.bodyData;
    } else {
      BodyStep(r, available);
      StepKeepsBudget(r, available);
      hide Step, InBudget;
      var (r1, rest) := Step(r, available);
      var n := Minimum(r.expectedBodySize - |r.bodyData|, |available|);
      assert r1.Ended() || rest == "" by { DecodeEnds(WithBody(r, available[..n]).(status := Complete)); }
      DriveEnds(r1, rest);
      assert available[..|available|] == available;
    }
  }

  lemma DecodeEnds(r: Request)
    ensures Completed(r).status == r.status
  {
  }

  lemma DriveEnds(r: Request, available: string)
    requires InBudget(r) && (r.Ended() || available == "")
    ensures Drive(r, available) == (r, available)
  {
  }

  lemma BodyGoesOn(r: Request, a: string, b: string)
    requires Admitted(r) && |a| < r.expectedBodySize - |r.bodyData|
    ensures Admitted(WithBody(r, a)) && AfterBody(r, a) == (WithBody(r, a), "")
    ensures AfterBody(WithBody(r, a), b) == AfterBody(r, a + b)
  {
    hide Completed;
    var n := r.expectedBodySize - |r.bodyData|;
    var m := n - |a|;
    assert r.bodyData + a + b == r.bodyData + (a + b);
    if m <= |b| {
      assert (a + b)[..n] == a + b[..m] && (a + b)[n..] == b[m..];
      assert r.bodyData + a + b[..m] == r.bodyData + (a + b[..m]);
    }
  }

  /** However the stream is cut into fragments, an admitted body never aborts, and at the end it
      consists of exactly the announced number of bytes of the stream. */
  lemma {:induction false} BodyIgnoresFragments(r: Request, fragments: seq<string>)
    requires Admitted(r) && InBudget(r)
    ensures Feed(r, "", fragments) == AfterBody(r, Stream(fragments))
    decreases |fragments|
  {
    hide Drive, InBudget;
    if fragments == [] {
      assert r.bodyData + "" == r.bodyData;
    } else {
      var a, b := fragments[0], Stream(fragments[1..]);
      var n := r.expectedBodySize - |r.bodyData|;
      assert "" + a == a;
      DriveKeepsBudget(r, a);
      DriveBody(r, a);
      if |a| < n {
        BodyGoesOn(r, a, b);
        hide AfterBody;
        BodyIgnoresFragments(WithBody(r, a), fragments[1..]);
      } else {
        var done := WithBody(r, a[..n]).(status := Complete);
        DecodeEnds(done);
        EndedStays(Completed(done), a[n..], fragments[1..]);
        assert (a + b)[..n] == a[..n] && (a + b)[n..] == a[n..] + b;
      }
    }
  }

  // ----- multipart bodies

  ghost predicate Collecting(r: Request) {
    r.status.WaitForBody? && r.boundary != "" && |r.tempFile| < r.expectedBodySize && |r.tempFile| < r.maxMultiPartSize
  }

  /** The multipart file is complete. */
  function FileDone(r: Request, file: string): Request {
    Checked(FilePart(r.(tempFile := ""), file))
  }

  /** The outcome for a stream: collected so far, parsed, or aborted. */
  ghost predicate Collected(r: Request, stream: string, q: Request)
    requires r.expectedBodySize >= 0
  {
    var file := r.tempFile + stream;
    if r.expectedBodySize < r.maxMultiPartSize then
      if |file| < r.expectedBodySize then q == r.(tempFile := file)
      else q == FileDone(r, file[..r.expectedBodySize])
    else if |file| < r.maxMultiPartSize then q == r.(tempFile := file)
    else q.status.Abort?
  }

  lemma FileStep(r: Request, available: string)
    requires Collecting(r) && InBudget(r) && available != ""
    ensures var n := Minimum(Minimum(r.expectedBodySize - |r.tempFile|, 65536), |available|);
            && 0 < n <= |available| && Step(r, available).1 == available[n..]
            && Collected(r, available[..n], Step(r, available).0)
            && (!Step(r, available).0.Ended() ==> Collecting(Step(r, available).0))
  {
    hide Completed, Multipart.ParseMultiPart;
    CompletedEnds();
    var n := Minimum(Minimum(r.expectedBodySize - |r.tempFile|, 65536), |available|);
    assert available[..|available|] == available;
    assert Taken(r, available) == available[..n];
    var file := r.tempFile + available[..n];
    assert file[..|file|] == file;
    assert "" + file == file;
    assert FilePart(r, available[..n]) == FilePart(r.(tempFile := ""), file);
  }

  lemma CompletedEnds()
    ensures forall r: Request {:trigger Completed(r)} :: Completed(r).status == r.status
  {
  }

  lemma FileDoneEnds(r: Request, file: string)
    requires |file| >= r.expectedBodySize
    ensures FileDone(r, file).Ended()
  {
    hide Completed;
    CompletedEnds();
    assert "" + file == file;
  }

  /** Streams that come one behind the other. */
  lemma CollectedBoth(r: Request, a: string, q: Request, b: string)
    requires Collecting(r) && Collected(r, a, q)
    ensures q.Ended() ==> Collected(r, a + b, q)
    ensures !q.Ended() ==> q == r.(tempFile := r.tempFile + a) && Collecting(q)
    ensures !q.Ended() ==> forall q2 :: Collected(q, b, q2) ==> Collected(r, a + b, q2)
  {
    hide FileDone;
    var n := r.expectedBodySize;
    var file := r.tempFile + a;
    assert file + b == r.tempFile + (a + b);
    if n < r.maxMultiPartSize && |file| >= n {
      FileDoneEnds(r, file[..n]);
      assert (file + b)[..n] == file[..n];
    } else if !q.Ended() {
      forall f: string ensures FileDone(q, f) == FileDone(r, f) { SameFile(r, q, f); }
    }
  }

  lemma SameFile(r: Request, q: Request, file: string)
    requires q == r.(tempFile := q.tempFile)
    ensures FileDone(q, file) == FileDone(r, file)
  {
    assert q.(tempFile := "") == r.(tempFile := "");
  }

  lemma {:induction false} DriveFile(r: Request, available: string)
    requires Collecting(r) && InBudget(r)
    ensures Collected(r, available, Drive(r, available).0)
    decreases |available|
  {
    hide Step, InBudget, Collected;
    if available == "" {
      NothingCollected(r);
    } else {
      FileStep(r, available);
      StepKeepsBudget(r, available);
      var (r1, rest) := Step(r, available);
      var n := |available| - |rest|;
      assert available[..n] + rest == available;
      CollectedBoth(r, available[..n], r1, rest);
      if r1.Ended() { DriveEnds(r1, rest); } else { DriveFile(r1, rest); }
    }
  }

  lemma NothingCollected(r: Request)
    requires Collecting(r)
    ensures Collected(r, "", r)
  {
    assert r.tempFile + "" == r.tempFile;
  }

  /** However the stream is cut, a multipart body is parsed when the announced bytes have come and
      they are fewer than the maximum, and it is aborted when the maximum is reached. */
  lemma {:induction false} FileIgnoresFragments(r: Request, fragments: seq<string>)
    requires Collecting(r) && InBudget(r)
    ensures Collected(r, Stream(fragments), Feed(r, "", fragments).0)
    decreases |fragments|
  {
    hide Drive, InBudget, Collected;
    if fragments == [] {
      NothingCollected(r);
    } else {
      var a, b := fragments[0], Stream(fragments[1..]);
      assert "" + a == a;
      DriveKeepsBudget(r, a);
      DriveFile(r, a);
      var (r1, rest) := Drive(r, a);
      CollectedBoth(r, a, r1, b);
      if r1.Ended() { EndedStays(r1, rest, fragments[1..]); } else { FileIgnoresFragments(r1, fragments[1..]); }
    }
  }

  /** A multipart body completes exactly when all its bytes have come, they are fewer than the
      maximum, no file in it is ended directly behind its header, and the data of its fields fit the
      budget. */
  lemma MultipartCompletes(r: Request, fragments: seq<string>)
    requires Collecting(r) && InBudget(r)
    ensures var file := r.tempFile + Stream(fragments);
            Feed(r, "", fragments).0.status.Complete? <==>
              && |file| >= r.expectedBodySize && r.expectedBodySize < r.maxMultiPartSize
              && var parts := Multipart.Sections(Multipart.Lines(file[..r.expectedBodySize]), r.boundary);
                 !Multipart.HasEmptyFile(parts) && r.currentSize + Multipart.FieldBytes(parts) <= r.maxSize
  {
    FileIgnoresFragments(r, fragments);
    hide Feed, InBudget, FileDone, Multipart.Sections, Multipart.Lines, Multipart.HasEmptyFile, Multipart.FieldBytes;
    var file := r.tempFile + Stream(fragments);
    if |file| >= r.expectedBodySize && r.expectedBodySize < r.maxMultiPartSize {
      FileDoneCompletes(r, file[..r.expectedBodySize]);
    }
  }

  lemma FileDoneCompletes(r: Request, file: string)
    requires Collecting(r) && |file| == r.expectedBodySize < r.maxMultiPartSize
    ensures FileDone(r, file).status.Complete? <==>
            var parts := Multipart.Sections(Multipart.Lines(file), r.boundary);
            !Multipart.HasEmptyFile(parts) && r.currentSize + Multipart.FieldBytes(parts) <= r.maxSize
  {
    hide Completed, Multipart.ParseMultiPart, Multipart.Sections, Multipart.Lines, Multipart.HasEmptyFile,
        Multipart.FieldBytes;
    Multipart.ParseIsItsSections(file, r.boundary);
    CompletedEnds();
    assert "" + file == file;
  }

  /** The admission check lets a multipart body of the maximal size in, but it never completes. */
  lemma MaximalMultipartNeverCompletes(r: Request, fragments: seq<string>)
    requires r.status.WaitForHeader? && InBudget(r) && BoundaryOf(r) != ""
    requires BodySizeOf(r) == r.maxMultiPartSize > 0
    ensures var r1 := Checked(HeaderLine(r, ""));
            r1.status.WaitForBody? && InBudget(r1) && !Feed(r1, "", fragments).0.status.Complete?
  {
    hide BoundaryOf, BodySizeOf, Feed, Value, Completed, HasKey, Trim;
    var r1 := Checked(HeaderLine(r, ""));
    assert Collecting(r1) && InBudget(r1);
    hide Checked, HeaderLine, InBudget;
    MultipartCompletes(r1, fragments);
  }

  // ----- parameters of the query and of the body

  lemma {:induction false} ParametersAppend(a: seq<string>, b: seq<string>)
    ensures Parameters(a + b) == Parameters(a) + Parameters(b)
  {
    hide Parameter;
    if a == [] {
      assert a + b == b;
    } else {
      assert (a + b)[1..] == a[1..] + b;
      ParametersAppend(a[1..], b);
    }
  }

  lemma EmptyPartFirst(s: string)
    ensures ParametersOf("&" + s) == ParametersOf(s)
  {
    assert ("&" + s)[0] == '&' && ("&" + s)[1..] == s;
    assert Split("&" + s, '&') == [""] + Split(s, '&');
    assert Parameter("") == [];
    ParametersAppend([""], Split(s, '&'));
    assert Parameters([""]) == [] by { assert [""][1..] == []; }
  }

  /** The parameters of the query and those of the form body both come through exactly when there
      is no form body, or the query holds no parameters. */
  lemma QueryAndBodyParameters(r: Request)
    ensures DecodeParams(r).parameters ==
              r.parameters + ParametersOf(Query(r.path)) + (if HasFormBody(r) then ParametersOf(r.bodyData) else [])
            <==> !HasFormBody(r) || ParametersOf(Query(r.path)) == []
  {
    hide ParametersOf, Query, HasFormBody;
    var query := Query(r.path);
    EmptyPartFirst(r.bodyData);
    NoParameters();
    var q, b := ParametersOf(query), ParametersOf(r.bodyData);
    if HasFormBody(r) {
      assert DecodeParams(r).parameters == r.parameters + b;
      assert |r.parameters + q + b| == |r.parameters| + |q| + |b|;
      if q == [] { assert r.parameters + q + b == r.parameters + b; }
    } else {
      assert r.parameters + q + [] == r.parameters + q;
    }
  }

  lemma SameFormBody(r: Request, q: Request)
    requires q == r.(path := q.path)
    ensures HasFormBody(q) == HasFormBody(r)
  {
  }

  lemma NoParameters()
    ensures ParametersOf("") == []
  {
    assert Split("", '&') == [""] && [""][1..] == [];
  }

  // ----- cookies of a request

  /** A cookie that a header can carry. */
  predicate CleanPair(c: (string, string)) {
    c.0 != "" && PlainValue(c.0) && '=' !in c.0 && PlainValue(c.1)
  }

  predicate CleanPairs(cs: seq<(string, string)>) { forall i :: 0 <= i < |cs| ==> CleanPair(cs[i]) }

  function PairParts(cs: seq<(string, string)>): (r: seq<string>)
    ensures |r| == |cs|
  {
    if cs == [] then [] else [Field(cs[0].0, cs[0].1)] + PairParts(cs[1..])
  }

  /** The value of a cookie header for these cookies (section 4.2.1 of RFC 6265). */
  function CookieHeader(cs: seq<(string, string)>): string
    requires cs != []
  {
    Field(cs[0].0, cs[0].1) + TailText(PairParts(cs[1..]))
  }

  /** The value that the last of the cookies with that name has. */
  function LastValue(cs: seq<(string, string)>, name: string): Option<string> {
    if cs == [] then None
    else
      var n := |cs| - 1;
      if cs[n].0 == name then Some(cs[n].1) else LastValue(cs[..n], name)
  }

  lemma {:induction false} PairsArePlain(cs: seq<(string, string)>)
    requires CleanPairs(cs)
    ensures forall k :: 0 <= k < |cs| ==> PlainPart(PairParts(cs)[k])
  {
    hide PlainPart, Field, PlainValue;
    if cs != [] {
      assert CleanPair(cs[0]);
      FieldIsPlain(cs[0].0, cs[0].1);
      PairsArePlain(cs[1..]);
    }
  }

  lemma {:induction false} PairsAreRead(m: StringMap<string>, cs: seq<(string, string)>, name: string)
    requires Sorted(m) && CleanPairs(cs)
    ensures var r := PutParts(m, PairParts(cs));
            Sorted(r) && Get(r, name) == if LastValue(cs, name).Some? then LastValue(cs, name) else Get(m, name)
    decreases |cs|
  {
    hide Sorted, Insert, Get, PartName, PartValue, PlainValue, Field, Less;
    if cs != [] {
      assert CleanPair(cs[0]);
      FieldParts(cs[0].0, cs[0].1);
      InsertSorted(m, cs[0].0, cs[0].1, name);
      PairsAreRead(Insert(m, cs[0].0, cs[0].1), cs[1..], name);
      LastValueCons(cs, name);
    }
  }

  lemma {:induction false} LastValueCons(cs: seq<(string, string)>, name: string)
    requires cs != []
    ensures LastValue(cs, name) ==
            if LastValue(cs[1..], name).Some? then LastValue(cs[1..], name)
            else if cs[0].0 == name then Some(cs[0].1) else None
    decreases |cs|
  {
    var n := |cs| - 1;
    if n > 0 {
      assert cs[..n][1..] == cs[1..][..n - 1];
      LastValueCons(cs[..n], name);
    }
  }

  predicate CleanLists(css: seq<seq<(string, string)>>) {
    forall i :: 0 <= i < |css| ==> css[i] != [] && CleanPairs(css[i])
  }

  function CookieHeaders(css: seq<seq<(string, string)>>): seq<string>
    requires CleanLists(css)
  {
    if css == [] then [] else [CookieHeader(css[0])] + CookieHeaders(css[1..])
  }

  function AllPairs(css: seq<seq<(string, string)>>): seq<(string, string)> {
    if css == [] then [] else css[0] + AllPairs(css[1..])
  }

  lemma {:induction false} LastValueAppend(a: seq<(string, string)>, b: seq<(string, string)>, name: string)
    ensures LastValue(a + b, name) == if LastValue(b, name).Some? then LastValue(b, name) else LastValue(a, name)
    decreases |b|
  {
    if b == [] {
      assert a + b == a;
    } else {
      assert (a + b)[..|a + b| - 1] == a + b[..|b| - 1];
      LastValueAppend(a, b[..|b| - 1], name);
    }
  }

  lemma OneHeaderRead(m: StringMap<string>, cs: seq<(string, string)>, name: string)
    requires Sorted(m) && cs != [] && CleanPairs(cs)
    ensures var r := PutParts(m, SplitList(CookieHeader(cs)));
            Sorted(r) && Get(r, name) == if LastValue(cs, name).Some? then LastValue(cs, name) else Get(m, name)
  {
    hide Sorted, SplitList, PutParts, Get, TailText, Field, PlainPart, LastValue, PlainValue;
    PairsArePlain(cs);
    assert PairParts(cs)[0] == Field(cs[0].0, cs[0].1) && PairParts(cs)[1..] == PairParts(cs[1..]);
    SplitUndoesJoin(Field(cs[0].0, cs[0].1), PairParts(cs[1..]));
    assert [Field(cs[0].0, cs[0].1)] + PairParts(cs[1..]) == PairParts(cs);
    PairsAreRead(m, cs, name);
  }

  lemma {:induction false} HeadersAreRead(m: StringMap<string>, css: seq<seq<(string, string)>>, name: string)
    requires Sorted(m) && CleanLists(css)
    ensures var r, cs := PutAll(m, CookieHeaders(css)), AllPairs(css);
            Sorted(r) && Get(r, name) == if LastValue(cs, name).Some? then LastValue(cs, name) else Get(m, name)
    decreases |css|
  {
    hide Sorted, SplitList, PutParts, Get, CookieHeader, LastValue, CleanPairs;
    if css == [] {
      NoPairs(name);
    } else {
      OneHeaderRead(m, css[0], name);
      HeadersAreRead(PutParts(m, SplitList(CookieHeader(css[0]))), css[1..], name);
      LastValueAppend(css[0], AllPairs(css[1..]), name);
    }
  }

  lemma NoPairs(name: string)
    ensures LastValue([], name) == None
  {
  }

  /** A request ends with exactly the cookies of its cookie headers, besides those it had, and without
      these headers; of several cookies with one name the last counts, in the order in which the
      headers are gone through. */
  lemma CookiesComeThrough(r: Request, css: seq<seq<(string, string)>>, name: string)
    requires Sorted(r.cookies) && CleanLists(css) && HeaderValues(r.headers, "Cookie") == CookieHeaders(css)
    ensures var q, cs := CookiesExtracted(r), AllPairs(css);
            && Get(q.cookies, name) == (if LastValue(cs, name).Some? then LastValue(cs, name) else Get(r.cookies, name))
            && Sorted(q.cookies) && HeaderValues(q.headers, "Cookie") == []
  {
    hide Sorted, PutAll, Get, LastValue, HeaderValues, WithoutHeader, CleanLists, CookieHeaders, AllPairs;
    HeadersAreRead(r.cookies, css, name);
    OtherHeaders(r.headers, "Cookie", "Cookie");
  }

  /** Taking a header out leaves the others. */
  lemma {:induction false} OtherHeaders(headers: seq<(string, string)>, key: string, other: string)
    ensures HeaderValues(WithoutHeader(headers, key), other) ==
            if other == key then [] else HeaderValues(headers, other)
  {
    if headers != [] {
      var rest := WithoutHeader(headers[1..], key);
      OtherHeaders(headers[1..], key, other);
      if headers[0].0 == key { assert [] + rest == rest; } else { assert ([headers[0]] + rest)[1..] == rest; }
    }
  }

  // ----- the request object

  class TcpSocket {
    var available: string

    method ReadLine(n: int) returns (data: string)
      modifies this
      ensures data == GiveLine(old(available), n) && available == old(available)[|data|..]
    {
      data := GiveLine(available, n);
      available := available[|data|..];
    }

    method Read(n: int) returns (data: string)
      modifies this
      ensures data == GiveBytes(old(available), n) && available == old(available)[|data|..]
    {
      data := GiveBytes(available, n);
      available := available[|data|..];
    }
  }

  class HttpRequest {
    var status: Status
    var currentSize: int
    var maxSize: int
    var maxMultiPartSize: int
    var verb: string
    var path: string
    var version: string
    var currentHeader: string
    var headers: seq<(string, string)>
    var boundary: string
    var expectedBodySize: int
    var bodyData: string
    var tempFile: string
    var parameters: seq<(string, string)>
    var files: seq<(string, string)>
    var cookies: StringMap<string>

    ghost function State(): Request
      reads this
    {
      Request(status, currentSize, maxSize, maxMultiPartSize, verb, path, version, currentHeader, headers,
              boundary, expectedBodySize, bodyData, tempFile, parameters, files, cookies)
    }

    constructor (maxSize: int, maxMultiPartSize: int)
      ensures State() == NewRequest(maxSize, maxMultiPartSize)
    {
      status, currentSize, expectedBodySize := WaitForRequest, 0, 0;
      this.maxSize, this.maxMultiPartSize := maxSize, maxMultiPartSize;
      verb, path, version, currentHeader, boundary, bodyData, tempFile := "", "", "", "", "", "", "";
      headers, parameters, files, cookies := [], [], [], [];
    }

    method ReadRequest(socket: TcpSocket)
      requires status == WaitForRequest
      modifies this, socket
      ensures State() == RequestLine(old(State()), Trim(Taken(old(State()), old(socket.available))))
      ensures socket.available == old(socket.available)[|Taken(old(State()), old(socket.available))|..]
    {
      hide GiveLine, Trim, RequestLine;
      var toRead := maxSize - currentSize + 1;
      var line := socket.ReadLine(toRead);
      TakeRequestLine(Trim(line));
    }

    method TakeRequestLine(newData: string)
      modifies `currentSize, `status, `verb, `path, `version
      ensures State() == RequestLine(old(State()), newData)
    {
      hide Split, Contains;
      currentSize := currentSize + |newData|;
      if newData != "" {
        var list := Split(newData, ' ');
        if |list| != 3 || !Contains(list[2], "HTTP") {
          status := Abort;
        } else {
          verb, path, version, status := list[0], list[1], list[2], WaitForHeader;
        }
      }
    }

    method ReadHeader(socket: TcpSocket)
      requires status == WaitForHeader
      modifies this, socket
      ensures State() == HeaderLine(old(State()), Trim(Taken(old(State()), old(socket.available))))
      ensures socket.available == old(socket.available)[|Taken(old(State()), old(socket.available))|..]
    {
      hide GiveLine, Trim, HeaderLine;
      var toRead := maxSize - currentSize + 1;
      var line := socket.ReadLine(toRead);
      TakeHeaderLine(Trim(line));
    }

    method TakeHeaderLine(newData: string)
      modifies this
      ensures State() == HeaderLine(old(State()), newData)
    {
      hide Trim, FindChar, Value, EndOfHeaders;
      currentSize := currentSize + |newData|;
      var colon := FindChar(newData, ':', 0);
      if colon > 0 {
        currentHeader := newData[..colon];
        var value := Trim(newData[colon + 1..]);
        headers := [(currentHeader, value)] + headers;
      } else if newData != "" {
        if exists i :: 0 <= i < |headers| && headers[i].0 == currentHeader {
          headers := [(currentHeader, Value(headers, currentHeader) + " " + newData)] + headers;
        }
      } else {
        CheckHeaders();
      }
    }

    /** What an empty header line does. */
    method CheckHeaders()
      modifies `boundary, `expectedBodySize, `status
      ensures State() == EndOfHeaders(old(State()))
    {
      hide Value, ToInt, StartsWith, Mid, Find;
      var contentType := Value(headers, "Content-Type");
      if StartsWith(contentType, "multipart/form-data") {
        var posi := Find(contentType, "boundary=", 0);
        if posi >= 0 {
          boundary := Mid(contentType, posi + 9, -1);
        }
      }
      var contentLength := Value(headers, "Content-Length");
      if contentLength != "" {
        expectedBodySize := ToInt(contentLength);
      }
      if expectedBodySize == 0 {
        status := Complete;
      } else if boundary == "" && expectedBodySize + currentSize > maxSize {
        status := Abort;
      } else if boundary != "" && expectedBodySize > maxMultiPartSize {
        status := Abort;
      } else {
        status := WaitForBody;
      }
    }

    method ReadBody(socket: TcpSocket)
      requires status == WaitForBody
      modifies this, socket
      ensures State() == Advance(old(State()), Taken(old(State()), old(socket.available)))
      ensures socket.available == old(socket.available)[|Taken(old(State()), old(socket.available))|..]
    {
      hide GiveBytes, BodyPart, FilePart;
      if boundary == "" {
        var toRead := expectedBodySize - |bodyData|;
        var newData := socket.Read(toRead);
        AppendBody(newData);
      } else {
        var toRead := expectedBodySize - |tempFile|;
        if toRead > 65536 {
          toRead := 65536;
        }
        var newData := socket.Read(toRead);
        AppendFile(newData);
      }
    }

    method AppendBody(newData: string)
      modifies this
      ensures State() == BodyPart(old(State()), newData)
    {
      currentSize := currentSize + |newData|;
      bodyData := bodyData + newData;
      if |bodyData| >= expectedBodySize {
        status := Complete;
      }
    }

    method AppendFile(newData: string)
      modifies `tempFile, `status, `currentSize, `parameters, `files
      ensures State() == FilePart(old(State()), newData)
    {
      hide Multipart.ParseMultiPart;
      tempFile := tempFile + newData;
      if |tempFile| >= maxMultiPartSize {
        status := Abort;
      } else if |tempFile| >= expectedBodySize {
        var form := Multipart.ParseMultiPartFile(tempFile, boundary);
        if form == None {
          status := Crashed;
        } else {
          currentSize := currentSize + form.value.size;
          parameters, files := parameters + form.value.parameters, files + form.value.files;
          status := Complete;
        }
      }
    }

    method DecodeRequestParams()
      modifies this
      ensures State() == DecodeParams(old(State()))
    {
      hide Query, HasFormBody, PathOnly, Parameters, Split;
      var query := CutQuery();
      SameFormBody(old(State()), State());
      var rawParameters := AddFormBody(query);
      var list := Split(rawParameters, '&');
      AddParameters(list);
    }

    /** Cut the query off the path. */
    method CutQuery() returns (rawParameters: string)
      modifies `path
      ensures rawParameters == Query(old(path)) && path == PathOnly(old(path))
    {
      hide FindChar;
      rawParameters := "";
      var questionMark := FindChar(path, '?', 0);
      if questionMark >= 0 {
        rawParameters := path[questionMark + 1..];
        path := path[..questionMark];
      }
    }

    /** The form body takes the place of the query. */
    method AddFormBody(query: string) returns (rawParameters: string)
      ensures rawParameters ==
        if HasFormBody(State()) then if query == "" then "&" + bodyData else bodyData else query
    {
      hide Value, StartsWith;
      rawParameters := query;
      var contentType := Value(headers, "Content-Type");
      if bodyData != "" && (contentType == "" || StartsWith(contentType, "application/x-www-form-urlencoded")) {
        if rawParameters == "" {
          rawParameters := "&" + bodyData;
        } else {
          rawParameters := bodyData;
        }
      }
    }

    method AddParameters(list: seq<string>)
      modifies `parameters
      ensures parameters == old(parameters) + Parameters(list)
    {
      hide Parameter;
      var k := 0;
      assert list[..0] == [] && parameters + [] == parameters;
      while k < |list|
        invariant 0 <= k <= |list| && parameters == old(parameters) + Parameters(list[..k])
      {
        assert list[..k + 1] == list[..k] + [list[k]] && [list[k]][1..] == [];
        ParametersAppend(list[..k], [list[k]]);
        assert Parameters([list[k]]) == Parameter(list[k]) + [] == Parameter(list[k]);
        AddParameter(list[k]);
        k := k + 1;
      }
      assert list[..k] == list;
    }

    method AddParameter(part: string)
      modifies `parameters
      ensures parameters == old(parameters) + Parameter(part)
    {
      hide *;
      var added := NewParameter(part);
      parameters := parameters + added;
    }

    /** The cookie headers become cookies. */
    method ExtractCookies()
      modifies `cookies, `headers
      ensures State() == CookiesExtracted(old(State()))
    {
      var list := HeaderValues(headers, "Cookie");
      var k := 0;
      ghost var before := cookies;
      assert list[0..] == list;
      while k < |list|
        invariant 0 <= k <= |list| && headers == old(headers)
        invariant PutAll(cookies, list[k..]) == PutAll(before, list)
      {
        assert list[k..][0] == list[k] && list[k..][1..] == list[k + 1..];
        var parts := SplitCSV(list[k]);
        AddCookies(parts);
        k := k + 1;
      }
      headers := WithoutHeader(headers, "Cookie");
    }

    /** The parts of one cookie header. */
    method AddCookies(parts: seq<string>)
      modifies `cookies
      ensures cookies == PutParts(old(cookies), parts)
    {
      hide Insert, Trim, MidAll, ByteLeft, FindChar;
      var k := 0;
      assert parts[0..] == parts;
      while k < |parts|
        invariant 0 <= k <= |parts| && PutParts(cookies, parts[k..]) == PutParts(old(cookies), parts)
      {
        assert parts[k..][0] == parts[k] && parts[k..][1..] == parts[k + 1..];
        var posi := FindChar(parts[k], '=', 0);
        var name, value;
        if posi != 0 {
          name, value := Trim(ByteLeft(parts[k], posi)), Trim(MidAll(parts[k], posi + 1));
        } else {
          name, value := Trim(parts[k]), "";
        }
        cookies := Insert(cookies, name, value);
        k := k + 1;
      }
    }

    method ReadFromSocket(socket: TcpSocket)
      requires status != Complete && status != Crashed
      modifies this, socket
      ensures (State(), socket.available) == Step(old(State()), old(socket.available))
    {
      hide GiveLine, GiveBytes, Trim, RequestLine, HeaderLine, BodyPart, FilePart, DecodeParams, CookiesExtracted;
      if status == WaitForRequest {
        ReadRequest(socket);
      } else if status == WaitForHeader {
        ReadHeader(socket);
      } else if status == WaitForBody {
        ReadBody(socket);
      }
      if status != Crashed {
        if currentSize > maxSize {
          status := Abort;
        }
        if status == Complete {
          DecodeRequestParams();
          ExtractCookies();
        }
      }
    }
  }

  /** The parameter that a part holds, if any. */
  method NewParameter(part: string) returns (added: seq<(string, string)>)
    ensures added == Parameter(part)
  {
    hide *;
    ParameterIs(part);
    var equalsChar := FindChar(part, '=', 0);
    if equalsChar >= 0 {
      return [(UrlDecode(Trim(part[..equalsChar])), UrlDecode(Trim(part[equalsChar + 1..])))];
    }
    if part != "" {
      return [(UrlDecode(part), "")];
    }
    return [];
  }

  /** The loop of the connection handler. */
  method CollectData(request: HttpRequest, socket: TcpSocket)
    requires InBudget(request.State())
    modifies request, socket
    ensures (request.State(), socket.available) == Drive(old(request.State()), old(socket.available))
  {
    hide Step, InBudget;
    while socket.available != "" && request.status != Complete && request.status != Abort && request.status != Crashed
      invariant InBudget(request.State())
      invariant Drive(request.State(), socket.available) == Drive(old(request.State()), old(socket.available))
      decreases |socket.available|, if request.State().Ended() then 0 else 1
    {
      StepKeepsBudget(request.State(), socket.available);
      request.ReadFromSocket(socket);
    }
  }
}
