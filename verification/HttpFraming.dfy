/**
  What a response is on the wire (httpresponse.cpp:40-147), and a decoder for it that follows
  sections 3.2, 3.3.3 and 4.1 of RFC 7230.
*/
module HttpFraming {
  import opened Sequences
  import opened QtText
  import opened Numbers
  import opened QtMaps
  import opened HttpCookies

  // ----- what is written

  type Fields = seq<(string, string)>

  datatype Response = Response(
    headers: StringMap<string>, cookies: StringMap<Cookie>, status: int, reason: string,
    sentHeaders: bool, sentLast: bool)

  const NEW_RESPONSE := Response([], [], 200, "OK", false, false)
  const LAST_CHUNK := "0\r\n\r\n"

  /** The headers with which the first write goes out. */
  function FramedHeaders(h: StringMap<string>, size: nat, last: bool): StringMap<string> {
    var connection := Get(h, "Connection");
    if Get(h, "Content-Length") == None && Get(h, "Transfer-Encoding") == None &&
       connection != Some("close") && connection != Some("Close")
    then
      if !last then Insert(h, "Transfer-Encoding", "chunked") else Insert(h, "Content-Length", Digits(size, 10))
    else h
  }

  function CookieFields(cookies: StringMap<Cookie>): Fields {
    if cookies == [] then [] else [("Set-Cookie", CookieText(cookies[0].1))] + CookieFields(cookies[1..])
  }

  function AllFields(r: Response): Fields { r.headers + CookieFields(r.cookies) }

  function FieldLine(name: string, value: string): string { name + ": " + value + CRLF }

  function FieldText(fs: Fields): string {
    if fs == [] then "" else FieldLine(fs[0].0, fs[0].1) + FieldText(fs[1..])
  }

  function StatusLine(r: Response): string { "HTTP/1.1 " + Number(r.status) + " " + r.reason }

  function HeadText(r: Response): string { StatusLine(r) + CRLF + (FieldText(AllFields(r)) + CRLF) }

  predicate IsChunked(h: StringMap<string>) {
    Get(h, "Transfer-Encoding") == Some("chunked") || Get(h, "Transfer-Encoding") == Some("Chunked")
  }

  /** No chunk for empty data, which would end the body. */
  function Chunk(data: string): string {
    if data == "" then "" else Digits(|data|, 16) + CRLF + data + CRLF
  }

  function PartText(h: StringMap<string>, data: string, last: bool): string {
    if IsChunked(h) then Chunk(data) + (if last then LAST_CHUNK else "") else data
  }

  function Framed(r: Response, size: nat, last: bool): Response {
    if r.sentHeaders then r else r.(headers := FramedHeaders(r.headers, size, last), sentHeaders := true)
  }

  /** The state after a write, and what it puts on the wire. */
  function Written(r: Response, data: string, last: bool): Response {
    Framed(r, |data|, last).(sentLast := r.sentLast || last)
  }

  function WireText(r: Response, data: string, last: bool): string {
    var r1 := Framed(r, |data|, last);
    (if r.sentHeaders then "" else HeadText(r1)) + PartText(r1.headers, data, last)
  }

  /** Is the connection closed behind the last part? */
  predicate Disconnects(h: StringMap<string>) {
    !IsChunked(h) && Get(h, "Content-Length") == None
  }

  /** All parts, the last of them marked as the last. */
  function WireAll(r: Response, parts: seq<string>): string
    requires parts != []
    decreases |parts|
  {
    if |parts| == 1 then WireText(r, parts[0], true)
    else WireText(r, parts[0], false) + WireAll(Written(r, parts[0], false), parts[1..])
  }

  function Concat(parts: seq<string>): string {
    if parts == [] then "" else parts[0] + Concat(parts[1..])
  }

  function Chunks(parts: seq<string>): string {
    if parts == [] then LAST_CHUNK else Chunk(parts[0]) + Chunks(parts[1..])
  }

  function BodyText(h: StringMap<string>, parts: seq<string>): string {
    if IsChunked(h) then Chunks(parts) else Concat(parts)
  }

  lemma {:induction false} BodyGoesOut(r: Response, parts: seq<string>)
    requires r.sentHeaders && parts != []
    ensures WireAll(r, parts) == BodyText(r.headers, parts)
    decreases |parts|
  {
    hide Chunk, LAST_CHUNK;
    if |parts| == 1 {
      OneBody(r.headers, parts);
      assert "" + PartText(r.headers, parts[0], true) == PartText(r.headers, parts[0], true);
    } else {
      BodyGoesOut(Written(r, parts[0], false), parts[1..]);
      assert "" + PartText(r.headers, parts[0], false) == PartText(r.headers, parts[0], false);
      assert Chunk(parts[0]) + "" == Chunk(parts[0]);
    }
  }

  lemma OneBody(h: StringMap<string>, parts: seq<string>)
    requires |parts| == 1
    ensures BodyText(h, parts) == PartText(h, parts[0], true)
  {
    hide Chunk, IsChunked;
    assert parts[1..] == [];
    assert Chunks(parts) == Chunk(parts[0]) + Chunks([]);
    assert Concat(parts) == parts[0] + "";
  }

  /** The response at its first write. */
  function First(r: Response, parts: seq<string>): Response
    requires parts != []
  {
    Framed(r, |parts[0]|, |parts| == 1)
  }

  /** The head goes out once, in front of the body. */
  lemma HeadGoesFirst(r: Response, parts: seq<string>)
    requires !r.sentHeaders && parts != []
    ensures WireAll(r, parts) == HeadText(First(r, parts)) + BodyText(First(r, parts).headers, parts)
  {
    hide HeadText, Chunk, LAST_CHUNK, Framed;
    var r1 := First(r, parts);
    var last := |parts| == 1;
    assert r1.sentHeaders by { assert Framed(r, |parts[0]|, last).sentHeaders by { FramedIs(r, |parts[0]|, last); } }
    if last {
      OneBody(r1.headers, parts);
    } else {
      BodyGoesOut(Written(r, parts[0], false), parts[1..]);
      var h, t := HeadText(r1), BodyText(r1.headers, parts[1..]);
      assert (h + PartText(r1.headers, parts[0], false)) + t == h + (PartText(r1.headers, parts[0], false) + t);
      assert Chunk(parts[0]) + "" == Chunk(parts[0]);
    }
  }

  lemma FramedIs(r: Response, size: nat, last: bool)
    ensures Framed(r, size, last).sentHeaders
  {
  }

  // ----- decoding

  function ReadLine(s: string): (r: Option<(string, string)>)
    ensures r.Some? ==> |r.value.0| + |r.value.1| + 2 == |s|
  {
    var e := Find(s, CRLF, 0);
    if e == -1 then None else Some((s[..e], s[e + 2..]))
  }

  function FieldOf(line: string): (string, string) {
    var colon := FindChar(line, ':', 0);
    if colon == -1 then (line, "") else (line[..colon], Trim(line[colon + 1..]))
  }

  /** Fields up to the empty line. */
  function ReadFields(s: string): (r: Option<(Fields, string)>)
    ensures r.Some? ==> |r.value.1| < |s|
    decreases |s|
  {
    match ReadLine(s)
    case None => None
    case Some(l) =>
      if l.0 == "" then Some(([], l.1))
      else
        match ReadFields(l.1)
        case None => None
        case Some(f) => Some(([FieldOf(l.0)] + f.0, f.1))
  }

  datatype Message = Message(body: string, rest: string)

  /** Section 4.1: chunks, the last chunk, and a trailer. */
  function ReadChunks(s: string): (r: Option<Message>)
    ensures r.Some? ==> |r.value.body| + |r.value.rest| < |s|
    decreases |s|
  {
    match ReadLine(s)
    case None => None
    case Some(l) =>
      match ValueOf(l.0, 16)
      case None => None
      case Some(n) =>
        if n == 0 then
          match ReadFields(l.1)
          case None => None
          case Some(f) => Some(Message("", f.1))
        else if n + 2 > |l.1| || l.1[n..n + 2] != CRLF then None
        else
          match ReadChunks(l.1[n + 2..])
          case None => None
          case Some(m) => Some(Message(l.1[..n] + m.body, m.rest))
  }

  /** The values of a field; field names do not depend on case. */
  function Values(fs: Fields, name: string): seq<string> {
    if fs == [] then []
    else (if ToLower(fs[0].0) == name then [fs[0].1] else []) + Values(fs[1..], name)
  }

  function LastComma(s: string): (r: int)
    ensures -1 <= r < |s|
  {
    if s == "" then -1 else if s[|s| - 1] == ',' then |s| - 1 else LastComma(s[..|s| - 1])
  }

  function LastCoding(value: string): string { ToLower(Trim(value[LastComma(value) + 1..])) }

  datatype Framing = ByChunks | ByLength(n: nat) | ByClose | Malformed

  /** Section 3.3.3 for responses that may have a body. */
  function FramingOf(fs: Fields): Framing {
    var codings, lengths := Values(fs, "transfer-encoding"), Values(fs, "content-length");
    if codings != [] then
      if LastCoding(codings[|codings| - 1]) == "chunked" then ByChunks else ByClose
    else if lengths == [] then ByClose
    else if exists i :: 0 <= i < |lengths| && lengths[i] != lengths[0] then Malformed
    else
      match ValueOf(lengths[0], 10)
      case None => Malformed
      case Some(n) => ByLength(n)
  }

  predicate NoBody(status: int) { 100 <= status < 200 || status == 204 || status == 304 }

  function StatusOf(line: string): Option<nat> {
    if |line| >= 12 && line[..9] == "HTTP/1.1 " then ValueOf(line[9..12], 10) else None
  }

  function ReadBody(framing: Framing, s: string, closed: bool): Option<Message> {
    match framing
    case ByChunks => ReadChunks(s)
    case ByLength(n) => if n <= |s| then Some(Message(s[..n], s[n..])) else None
    case ByClose => if closed then Some(Message(s, "")) else None
    case Malformed => None
  }

  /** The body of the first response in s, and what comes behind it; `closed` tells whether the
      connection was closed in order behind s. */
  function DecodeResponse(s: string, closed: bool): Option<Message> {
    match ReadLine(s)
    case None => None
    case Some(l) =>
      match (StatusOf(l.0), ReadFields(l.1))
      case (Some(status), Some(f)) =>
        if NoBody(status) then Some(Message("", f.1)) else ReadBody(FramingOf(f.0), f.1, closed)
      case (_, _) => None
  }

  // ----- reading the head

  /** The lines of a text, which a header value may break into several. */
  function Lines(s: string): (r: seq<string>)
    ensures r != []
    decreases |s|
  {
    var e := Find(s, CRLF, 0);
    if e == -1 then [s] else [s[..e]] + Lines(s[e + 2..])
  }

  function LineFields(lines: seq<string>): Fields {
    if lines == [] then [] else [FieldOf(lines[0])] + LineFields(lines[1..])
  }

  /** The fields that a decoder sees where the program writes fs. */
  function Decoded(fs: Fields): Fields {
    if fs == [] then [] else LineFields(Lines(fs[0].0 + ": " + fs[0].1)) + Decoded(fs[1..])
  }

  /** No empty line, which would end the head early. */
  predicate CleanText(s: string) { "" !in Lines(s) }

  predicate CleanFields(fs: Fields) { forall i :: 0 <= i < |fs| ==> CleanText(fs[i].0 + ": " + fs[i].1) }

  predicate CleanHead(r: Response) { CleanText(StatusLine(r)) && CleanFields(AllFields(r)) }

  /** What a decoder makes of the head. */
  function HeadStatus(r: Response): Option<nat> { StatusOf(Lines(StatusLine(r))[0]) }

  function HeadFields(r: Response): Fields { LineFields(Lines(StatusLine(r))[1..]) + Decoded(AllFields(r)) }

  /** A line ends at its first CRLF, whatever follows. */
  lemma LineReads(line: string, rest: string)
    ensures var e := Find(line, CRLF, 0);
            ReadLine(line + CRLF + rest) ==
            if e == -1 then Some((line, rest)) else Some((line[..e], line[e + 2..] + CRLF + rest))
  {
    hide *;
    var s, e := line + CRLF + rest, Find(line, CRLF, 0);
    var f := if e == -1 then |line| else e;
    FirstBreak(line, rest);
    SplitAt(line, rest, f);
    LineUpTo(s, f);
    assert line[..|line|] == line;
  }

  lemma LineUpTo(s: string, f: nat)
    requires Find(s, CRLF, 0) == f
    ensures f + 2 <= |s| && ReadLine(s) == Some((s[..f], s[f + 2..]))
  {
    hide Find;
  }

  lemma FirstBreak(line: string, rest: string)
    ensures var e := Find(line, CRLF, 0);
            && Find(line + CRLF + rest, CRLF, 0) == (if e == -1 then |line| else e)
            && (e == -1 || (0 <= e && e + 2 <= |line|))
  {
    hide Find, At;
    var s, e := line + CRLF + rest, Find(line, CRLF, 0);
    var f := if e == -1 then |line| else e;
    assert forall k :: 0 <= k < |line| ==> s[k] == line[k];
    assert s[|line|] == '\r' && s[|line| + 1] == '\n';
    forall k | 0 <= k < |line| ensures At(s, CRLF, k) <==> At(line, CRLF, k) {
      BreakAt(s, k);
      BreakAt(line, k);
    }
    BreakAt(s, |line|);
    BreakAt(line, e);
    FindIs(s, f);
  }

  lemma BreakAt(s: string, e: int)
    ensures At(s, CRLF, e) <==> 0 <= e && e + 1 < |s| && s[e] == '\r' && s[e + 1] == '\n'
  {
    if 0 <= e && e + 2 <= |s| { assert s[e..e + 2] == [s[e], s[e + 1]]; }
  }

  lemma FindIs(s: string, f: nat)
    requires At(s, CRLF, f) && forall k :: 0 <= k < f ==> !At(s, CRLF, k)
    ensures Find(s, CRLF, 0) == f
  {
    hide At;
  }

  lemma SplitAt(line: string, rest: string, f: nat)
    requires f <= |line|
    ensures var s := line + CRLF + rest;
            && s[..f] == line[..f]
            && (f + 2 <= |line| ==> s[f + 2..] == line[f + 2..] + CRLF + rest)
            && (f == |line| ==> s[f + 2..] == rest)
  {
  }

  /** All lines of a text are read as fields when none is empty. */
  lemma {:induction false} LinesRead(text: string, rest: string)
    requires CleanText(text)
    ensures ReadFields(text + CRLF + rest) ==
            match ReadFields(rest)
            case None => None
            case Some(f) => Some((LineFields(Lines(text)) + f.0, f.1))
    decreases |text|
  {
    hide FieldOf, ReadLine, Find;
    var e := Find(text, CRLF, 0);
    LineReads(text, rest);
    assert Lines(text)[0] in Lines(text);
    if e == -1 {
      assert LineFields([text]) == [FieldOf(text)] + LineFields([]) == [FieldOf(text)];
    } else {
      var more := text[e + 2..];
      assert forall l :: l in Lines(more) ==> l in Lines(text);
      assert Lines(text)[1..] == Lines(more);
      LinesRead(more, rest);
      var f := ReadFields(rest);
      if f.Some? {
        assert [FieldOf(text[..e])] + (LineFields(Lines(more)) + f.value.0) == LineFields(Lines(text)) + f.value.0;
      }
    }
  }

  lemma {:induction false} FieldsRead(fs: Fields, body: string)
    requires CleanFields(fs)
    ensures ReadFields(FieldText(fs) + CRLF + body) == Some((Decoded(fs), body))
    decreases |fs|
  {
    hide Lines, LineFields, ReadFields, CleanText;
    if fs == [] {
      NoFieldsRead(body);
      assert FieldText(fs) + CRLF + body == CRLF + body;
    } else {
      var line, rest := fs[0].0 + ": " + fs[0].1, FieldText(fs[1..]) + CRLF + body;
      LinesRead(line, rest);
      FieldsRead(fs[1..], body);
      assert FieldText(fs) + CRLF + body == line + CRLF + rest;
    }
  }

  lemma NoFieldsRead(body: string)
    ensures ReadFields(CRLF + body) == Some(([], body))
  {
    LineReads("", body);
    assert "" + CRLF + body == CRLF + body;
  }

  /** Whatever the handler puts into the head, the decoder reads it up to its last line, unless there
      is an empty line in it. */
  lemma HeadReads(r: Response, body: string, closed: bool)
    requires CleanHead(r)
    ensures DecodeResponse(HeadText(r) + body, closed) ==
            match HeadStatus(r)
            case None => None
            case Some(status) =>
              if NoBody(status) then Some(Message("", body)) else ReadBody(FramingOf(HeadFields(r)), body, closed)
  {
    hide AllFields, StatusLine, FramingOf, ReadBody, ReadLine, ReadFields, StatusOf, NoBody, CleanFields, Find, Decoded;
    var fields, line := AllFields(r), StatusLine(r);
    var rest := FieldText(fields) + CRLF + body;
    assert HeadText(r) + body == line + CRLF + rest;
    LineReads(line, rest);
    FieldsRead(fields, body);
    var e := Find(line, CRLF, 0);
    if e == -1 {
      assert Lines(line)[1..] == [];
      assert [] + Decoded(fields) == Decoded(fields);
    } else {
      var more := line[e + 2..];
      assert forall l :: l in Lines(more) ==> l in Lines(line);
      assert Lines(line)[1..] == Lines(more);
      LinesRead(more, rest);
    }
  }

  // ----- reading the body

  lemma ChunkReads(data: string, more: string)
    requires data != ""
    ensures ReadChunks(Chunk(data) + more) ==
            match ReadChunks(more)
            case None => None
            case Some(m) => Some(Message(data + m.body, m.rest))
  {
    hide ReadLine, ValueOf, Digits;
    var size := Digits(|data|, 16);
    var rest := data + CRLF + more;
    DigitsHaveNoBreak(|data|, 16);
    LineReads(size, rest);
    assert Chunk(data) + more == size + CRLF + rest;
    ValueOfDigits(|data|, 16);
    assert rest[..|data|] == data && rest[|data|..|data| + 2] == CRLF && rest[|data| + 2..] == more;
  }

  lemma DigitsHaveNoBreak(n: nat, base: nat)
    requires IsBase(base)
    ensures Find(Digits(n, base), CRLF, 0) == -1
  {
    DigitsHaveNoReturn(n, base);
    NoReturn(Digits(n, base));
  }

  lemma DigitsHaveNoReturn(n: nat, base: nat)
    requires IsBase(base)
    ensures '\r' !in Digits(n, base)
  {
    assert DigitValue('\r') == -1;
  }

  lemma NoReturn(s: string)
    requires '\r' !in s
    ensures Find(s, CRLF, 0) == -1
  {
    BreakAt(s, Find(s, CRLF, 0));
  }

  lemma LastChunkReads(more: string)
    ensures ReadChunks(LAST_CHUNK + more) == Some(Message("", more))
  {
    assert LAST_CHUNK + more == "0" + CRLF + (CRLF + more);
    assert CRLF + more == "" + CRLF + more;
    ZeroReads();
    hide Find, ValueOf, Digits, DigitValue;
    LineReads("0", CRLF + more);
    LineReads("", more);
    ReadsZero(LAST_CHUNK + more, CRLF + more, more);
  }

  lemma ZeroReads()
    ensures ValueOf("0", 16) == Some(0) && Find("0", CRLF, 0) == -1 && Find("", CRLF, 0) == -1
  {
    assert "0"[..0] == "";
  }

  lemma ReadsZero(s: string, rest: string, more: string)
    requires ReadLine(s) == Some(("0", rest)) && ReadLine(rest) == Some(("", more)) && ValueOf("0", 16) == Some(0)
    ensures ReadChunks(s) == Some(Message("", more))
  {
    hide ReadLine, ValueOf;
  }

  /** Reading the chunks gives the concatenated data: no chunk ends the body early. */
  lemma {:induction false} ChunksRead(parts: seq<string>, more: string)
    ensures ReadChunks(Chunks(parts) + more) == Some(Message(Concat(parts), more))
    decreases |parts|
  {
    hide ReadChunks, Chunk;
    if parts == [] {
      LastChunkReads(more);
    } else {
      ChunksRead(parts[1..], more);
      var rest := Chunks(parts[1..]) + more;
      assert Chunks(parts) + more == Chunk(parts[0]) + rest;
      if parts[0] == "" {
        assert Chunk(parts[0]) == "" by { NoChunk(); }
        assert Chunk(parts[0]) + rest == rest;
        assert Concat(parts) == "" + Concat(parts[1..]) == Concat(parts[1..]);
      } else {
        ChunkReads(parts[0], rest);
      }
    }
  }

  lemma NoChunk()
    ensures Chunk("") == ""
  {
  }

  lemma {:induction false} ChunksAreLonger(parts: seq<string>)
    ensures |Chunks(parts)| > |Concat(parts)|
    decreases |parts|
  {
    if parts != [] { ChunksAreLonger(parts[1..]); }
  }

  lemma {:induction false} ValuesAppend(a: Fields, b: Fields, name: string)
    ensures Values(a + b, name) == Values(a, name) + Values(b, name)
    decreases |a|
  {
    hide ToLower;
    if a == [] {
      assert a + b == b;
    } else {
      assert (a + b)[1..] == a[1..] + b;
      ValuesAppend(a[1..], b, name);
      Assoc(if ToLower(a[0].0) == name then [a[0].1] else [], Values(a[1..], name), Values(b, name));
    }
  }

  lemma {:induction false} DecodedAppend(a: Fields, b: Fields)
    ensures Decoded(a + b) == Decoded(a) + Decoded(b)
    decreases |a|
  {
    hide LineFields, Lines;
    if a == [] {
      assert a + b == b;
    } else {
      assert (a + b)[1..] == a[1..] + b;
      DecodedAppend(a[1..], b);
    }
  }

  /** The name of the first line of a field is its own. */
  lemma FirstLineName(name: string, value: string)
    requires ':' !in name && '\r' !in name
    ensures FieldOf(Lines(name + ": " + value)[0]).0 == name
  {
    var line := name + ": " + value;
    var e := Find(line, CRLF, 0);
    assert line[|name|] == ':' && forall k :: 0 <= k < |name| ==> line[k] == name[k];
    BreakAt(line, e);
    var first := Lines(line)[0];
    assert |first| > |name| + 1 && first == line[..|first|];
    assert FindChar(first, ':', 0) == |name|;
  }

  lemma OneField(name: string, value: string)
    requires ':' !in name && '\r' !in name && '\r' !in value
    ensures Decoded([(name, value)]) == [(name, Trim(value))]
  {
    var line := name + ": " + value;
    NoReturn(line);
    FieldReads(name, value);
    hide FieldOf, Find, Trim;
    assert Lines(line) == [line] && LineFields([line]) == [FieldOf(line)] + LineFields([]) == [FieldOf(line)];
    assert Decoded([(name, value)]) == LineFields([line]) + Decoded([]) == [FieldOf(line)];
  }

  lemma FieldReads(name: string, value: string)
    requires ':' !in name
    ensures FieldOf(name + ": " + value) == (name, Trim(value))
  {
    var line := name + ": " + value;
    assert line[|name|] == ':';
    assert forall k :: 0 <= k < |name| ==> line[k] == name[k];
    assert FindChar(line, ':', 0) == |name|;
    assert line[..|name|] == name && line[|name| + 1..] == " " + value;
    BlankInFront(value);
  }

  lemma BlankInFront(value: string)
    ensures Trim(" " + value) == Trim(value)
  {
    assert (" " + value)[1..] == value;
    assert TrimLeft(" " + value) == TrimLeft(value);
  }

  lemma {:induction false} GetIsValue(h: StringMap<string>, key: string)
    requires Get(h, key).Some? && ':' !in key && '\r' !in key
    ensures Values(Decoded(h), ToLower(key)) != []
    decreases |h|
  {
    hide ToLower, Lines, FieldOf;
    var line := Lines(h[0].0 + ": " + h[0].1);
    ValuesAppend(LineFields(line), Decoded(h[1..]), ToLower(key));
    if h[0].0 != key {
      GetIsValue(h[1..], key);
    } else {
      FirstLineName(key, h[0].1);
      assert LineFields(line)[0] == FieldOf(line[0]);
    }
  }

  /** Do the head and the way the body was sent agree? */
  predicate Consistent(r: Response, total: string) {
    var chunked := IsChunked(r.headers);
    if HeadStatus(r).None? then false
    else if NoBody(HeadStatus(r).value) then !chunked && total == ""
    else
      match FramingOf(HeadFields(r))
      case ByChunks => chunked
      case ByLength(n) => n == |total|
      case ByClose => !chunked && Get(r.headers, "Content-Length") == None
      case Malformed => false
  }

  lemma ChunkedIsEncoded(r: Response)
    requires IsChunked(r.headers)
    ensures !FramingOf(HeadFields(r)).ByLength?
  {
    hide Values, ToLower, StatusLine, Lines, LineFields, Decoded;
    var key := ToLower("Transfer-Encoding");
    GetIsValue(r.headers, "Transfer-Encoding");
    DecodedAppend(r.headers, CookieFields(r.cookies));
    ValuesAppend(Decoded(r.headers), Decoded(CookieFields(r.cookies)), key);
    ValuesAppend(LineFields(Lines(StatusLine(r))[1..]), Decoded(AllFields(r)), key);
    assert key == "transfer-encoding" by { LowerNames(); }
  }

  lemma LowerNames()
    ensures ToLower("Transfer-Encoding") == "transfer-encoding"
    ensures ToLower("Content-Length") == "content-length"
    ensures ToLower("Set-Cookie") == "set-cookie"
  {
  }

  /** The body part of the decoder's result. */
  lemma BodyReads(r: Response, parts: seq<string>)
    requires HeadStatus(r).Some? && !NoBody(HeadStatus(r).value)
    ensures ReadBody(FramingOf(HeadFields(r)), BodyText(r.headers, parts), Disconnects(r.headers)) ==
            Some(Message(Concat(parts), ""))
            <==> Consistent(r, Concat(parts))
  {
    hide ReadChunks, FramingOf, HeadFields, HeadStatus;
    var total, body := Concat(parts), BodyText(r.headers, parts);
    ChunksAreLonger(parts);
    if IsChunked(r.headers) {
      ChunkedIsEncoded(r);
      ChunksRead(parts, "");
      assert Chunks(parts) + "" == Chunks(parts);
    } else {
      assert body == total;
      assert ReadChunks(body) != Some(Message(total, "")) by { ChunksShrink(body); }
      assert body[..|body|] == body && body[|body|..] == "";
    }
  }

  lemma ChunksShrink(s: string)
    ensures ReadChunks(s) != Some(Message(s, ""))
  {
    var r := ReadChunks(s);
  }

  /** Whatever parts are written, a decoder recovers exactly their concatenation, with nothing left
      over, if and only if the head announces the framing that the program uses. */
  lemma DecodeUndoesWrite(r: Response, parts: seq<string>)
    requires !r.sentHeaders && parts != [] && CleanHead(First(r, parts))
    ensures var r1 := First(r, parts);
            DecodeResponse(WireAll(r, parts), Disconnects(r1.headers)) == Some(Message(Concat(parts), ""))
            <==> Consistent(r1, Concat(parts))
  {
    hide *;
    var r1 := First(r, parts);
    HeadGoesFirst(r, parts);
    HeadReads(r1, BodyText(r1.headers, parts), Disconnects(r1.headers));
    if HeadStatus(r1).None? {
      NoStatus(r1, parts);
    } else if NoBody(HeadStatus(r1).value) {
      NoBodyReads(r1, parts);
    } else {
      BodyReads(r1, parts);
    }
  }

  lemma NoStatus(r: Response, parts: seq<string>)
    requires HeadStatus(r).None?
    ensures !Consistent(r, Concat(parts))
  {
  }

  lemma NoBodyReads(r: Response, parts: seq<string>)
    requires HeadStatus(r).Some? && NoBody(HeadStatus(r).value)
    ensures Some(Message("", BodyText(r.headers, parts))) == Some(Message(Concat(parts), "")) <==>
            Consistent(r, Concat(parts))
  {
    ChunksAreLonger(parts);
  }

  // ----- the framing the program chooses itself

  /** Nothing about framing among the fields, in whatever case. */
  predicate NoFraming(fs: Fields) {
    Values(fs, "transfer-encoding") == [] && Values(fs, "content-length") == []
  }

  /** A header that is new goes between the others. */
  lemma {:induction false} InsertedBetween(h: StringMap<string>, key: string, value: string)
    returns (a: Fields, b: Fields)
    requires Get(h, key) == None
    ensures h == a + b && Insert(h, key, value) == a + [(key, value)] + b
    ensures Get(Insert(h, key, value), key) == Some(value)
  {
    hide Less;
    if h == [] || Less(key, h[0].0) {
      a, b := [], h;
    } else {
      a, b := InsertedBetween(h[1..], key, value);
      a := [h[0]] + a;
    }
  }

  /** The values of a framing header after one has been inserted. */
  lemma InsertedValue(r: Response, key: string, value: string, name: string)
    requires Get(r.headers, key) == None && Values(HeadFields(r), name) == []
    requires ':' !in key && '\r' !in key && '\r' !in value
    ensures var h := Insert(r.headers, key, value);
            && Values(HeadFields(r.(headers := h)), name) == (if name == ToLower(key) then [Trim(value)] else [])
            && Get(h, key) == Some(value)
  {
    hide *;
    var a, b := InsertedBetween(r.headers, key, value);
    var s, c, x := LineFields(Lines(StatusLine(r))[1..]), CookieFields(r.cookies), [(key, value)];
    HeadersAre(r, r.headers);
    HeadersAre(r, a + x + b);
    OneField(key, value);
    ValuesAround(s, a, b, c, [], name);
    ValuesAround(s, a, b, c, x, name);
    assert a + [] + b == a + b;
    OneValue(key, Trim(value), name);
    NoValues(name);
    OnlyTheMiddle(Values(s, name), Values(Decoded(a), name), Values(Decoded(x), name), Values(Decoded(b), name),
        Values(Decoded(c), name));
  }

  lemma HeadersAre(r: Response, h: StringMap<string>)
    ensures HeadFields(r.(headers := h)) ==
            LineFields(Lines(StatusLine(r))[1..]) + Decoded(h + CookieFields(r.cookies))
    ensures r.headers == h ==> r.(headers := h) == r
  {
    hide Lines, LineFields, Decoded, CookieFields;
  }

  lemma OnlyTheMiddle(s: seq<string>, a: seq<string>, x: seq<string>, b: seq<string>, c: seq<string>)
    ensures s + a + [] + b + c == [] ==> s + a + x + b + c == x
  {
    assert |s + a + [] + b + c| == |s| + |a| + |b| + |c|;
  }

  lemma ValuesAround(s: Fields, a: Fields, b: Fields, c: Fields, x: Fields, name: string)
    ensures Values(s + Decoded(a + x + b + c), name) ==
            Values(s, name) + Values(Decoded(a), name) + Values(Decoded(x), name) + Values(Decoded(b), name) +
                Values(Decoded(c), name)
  {
    hide Values, Decoded;
    DecodedAppend(a + x + b, c);
    DecodedAppend(a + x, b);
    DecodedAppend(a, x);
    ValuesAppend(s, Decoded(a + x + b + c), name);
    ValuesAppend(Decoded(a + x + b), Decoded(c), name);
    ValuesAppend(Decoded(a + x), Decoded(b), name);
    ValuesAppend(Decoded(a), Decoded(x), name);
  }

  lemma OneValue(key: string, value: string, name: string)
    ensures Values([(key, value)], name) == if ToLower(key) == name then [value] else []
  {
    assert [(key, value)][1..] == [];
  }

  lemma NoValues(name: string)
    ensures Decoded([]) == [] && Values([], name) == []
  {
  }

  lemma NumberIsTrimmed(n: nat)
    ensures Trim(Digits(n, 10)) == Digits(n, 10)
  {
    var s := Digits(n, 10);
    assert DigitValue(' ') == DigitValue('\t') == DigitValue('\n') == DigitValue('\r') == -1;
    assert DigitValue('\U{000B}') == DigitValue('\U{000C}') == -1;
    assert DigitValue(s[0]) >= 0 && DigitValue(s[|s| - 1]) >= 0;
    TrimNothing(s);
  }

  lemma ChunkedCoding()
    ensures LastCoding(Trim("chunked")) == "chunked"
  {
    TrimNothing("chunked");
    var s := "chunked";
    assert forall i :: 0 <= i < |s| ==> s[i] != ',';
    NoComma(s);
    assert s[0..] == s;
    LowerNothing(s);
  }

  lemma {:induction false} NoComma(s: string)
    requires forall i :: 0 <= i < |s| ==> s[i] != ','
    ensures LastComma(s) == -1
  {
    if s != "" { NoComma(s[..|s| - 1]); }
  }

  /** A handler that sets no framing header of its own, in whatever case, gets its data through. */
  lemma DefaultFramingIsConsistent(r: Response, parts: seq<string>)
    requires !r.sentHeaders && parts != [] && NoFraming(HeadFields(r))
    requires HeadStatus(r).Some? && !NoBody(HeadStatus(r).value)
    ensures Consistent(First(r, parts), Concat(parts))
  {
    hide ToLower, Trim, Values, LastCoding, Concat, HeadFields, StatusOf, Lines, Insert, Get;
    LowerNames();
    NotSet(r, "Content-Length", "content-length");
    NotSet(r, "Transfer-Encoding", "transfer-encoding");
    var r1 := First(r, parts);
    SameFields(r, r1);
    if r1.headers == r.headers {
      ClosedIsConsistent(r1, Concat(parts));
    } else if |parts| > 1 {
      ChunkedIsConsistent(r, r1, Concat(parts));
    } else {
      OnePart(parts);
      var size := Digits(|parts[0]|, 10);
      DigitsHaveNoReturn(|parts[0]|, 10);
      NumberIsTrimmed(|parts[0]|);
      ValueOfDigits(|parts[0]|, 10);
      LengthIsConsistent(r, r1, parts[0], size);
    }
  }

  lemma ClosedIsConsistent(r: Response, total: string)
    requires NoFraming(HeadFields(r)) && HeadStatus(r).Some? && !NoBody(HeadStatus(r).value)
    requires Get(r.headers, "Content-Length") == None && Get(r.headers, "Transfer-Encoding") == None
    ensures Consistent(r, total)
  {
    hide Values, HeadFields, Get, HeadStatus;
  }

  lemma ChunkedIsConsistent(r: Response, r1: Response, total: string)
    requires NoFraming(HeadFields(r)) && HeadStatus(r1).Some? && !NoBody(HeadStatus(r1).value)
    requires Get(r.headers, "Transfer-Encoding") == None
    requires r1 == r.(headers := Insert(r.headers, "Transfer-Encoding", "chunked"), sentHeaders := true)
    ensures Consistent(r1, total)
  {
    hide ToLower, Trim, Values, LastCoding, HeadFields, HeadStatus, Insert, Get;
    LowerNames();
    InsertedValue(r, "Transfer-Encoding", "chunked", "transfer-encoding");
    SameFields(r.(headers := Insert(r.headers, "Transfer-Encoding", "chunked")), r1);
    ChunkedCoding();
  }

  lemma LengthIsConsistent(r: Response, r1: Response, total: string, size: string)
    requires NoFraming(HeadFields(r)) && HeadStatus(r1).Some? && !NoBody(HeadStatus(r1).value)
    requires Get(r.headers, "Content-Length") == None && Get(r.headers, "Transfer-Encoding") == None
    requires '\r' !in size && Trim(size) == size && ValueOf(size, 10) == Some(|total|)
    requires r1 == r.(headers := Insert(r.headers, "Content-Length", size), sentHeaders := true)
    ensures Consistent(r1, total)
  {
    hide *;
    LowerNames();
    LengthName();
    InsertedValue(r, "Content-Length", size, "transfer-encoding");
    InsertedValue(r, "Content-Length", size, "content-length");
    SameFields(r.(headers := Insert(r.headers, "Content-Length", size)), r1);
    GetInserted(r.headers, "Content-Length", size, "Transfer-Encoding");
    OneLength(HeadFields(r1), size, |total|);
    IsByLength(r1, total);
  }

  lemma LengthName()
    ensures ':' !in "Content-Length" && '\r' !in "Content-Length" && "Content-Length" != "Transfer-Encoding"
    ensures forall fs: Fields :: NoFraming(fs) ==>
            Values(fs, "transfer-encoding") == [] && Values(fs, "content-length") == []
  {
  }

  lemma IsByLength(r: Response, total: string)
    requires HeadStatus(r).Some? && !NoBody(HeadStatus(r).value)
    requires Get(r.headers, "Transfer-Encoding") == None && FramingOf(HeadFields(r)) == ByLength(|total|)
    ensures Consistent(r, total)
  {
    hide HeadStatus, NoBody, Get, FramingOf, HeadFields;
  }

  lemma OneLength(fs: Fields, size: string, n: nat)
    requires Values(fs, "transfer-encoding") == [] && Values(fs, "content-length") == [size]
    requires ValueOf(size, 10) == Some(n)
    ensures FramingOf(fs) == ByLength(n)
  {
    hide Values, ValueOf, LastCoding;
  }

  lemma SameFields(r: Response, q: Response)
    requires r.status == q.status && r.reason == q.reason && r.cookies == q.cookies
    ensures HeadStatus(r) == HeadStatus(q)
    ensures r.headers == q.headers ==> HeadFields(r) == HeadFields(q)
  {
  }

  lemma {:induction false} GetInserted(h: StringMap<string>, key: string, value: string, other: string)
    requires key != other
    ensures Get(Insert(h, key, value), other) == Get(h, other)
  {
    hide Less;
    if h != [] && h[0].0 != key && !Less(key, h[0].0) { GetInserted(h[1..], key, value, other); }
  }

  lemma NotSet(r: Response, key: string, name: string)
    requires Values(HeadFields(r), name) == [] && ToLower(key) == name && ':' !in key && '\r' !in key
    ensures Get(r.headers, key) == None
  {
    hide ToLower, Values, Decoded, Lines, LineFields;
    var c, s := CookieFields(r.cookies), LineFields(Lines(StatusLine(r))[1..]);
    DecodedAppend(r.headers, c);
    ValuesAppend(s, Decoded(AllFields(r)), name);
    ValuesAppend(Decoded(r.headers), Decoded(c), name);
    if Get(r.headers, key).Some? { GetIsValue(r.headers, key); }
  }

  lemma OnePart(parts: seq<string>)
    requires |parts| == 1
    ensures Concat(parts) == parts[0]
  {
    assert parts[1..] == [];
  }
}
