/**
  The response object (httpresponse.cpp) and the end of a request in the connection handler
  (httpconnectionhandler.cpp:183-203).  The socket may take any part of what it is given, nothing
  included, and may fail at any time.
*/
module HttpResponses {
  import opened QtText
  import opened Numbers
  import opened QtMaps
  import opened HttpCookies
  import opened HttpFraming

  class Socket {
    var open: bool
    /** All bytes that went out, in order. */
    ghost var sent: string
    /** This side has ended the connection, behind the last byte. */
    ghost var ended: bool
    /** How often it still takes nothing. */
    var stalls: nat

    constructor (stalls: nat)
      ensures open && sent == "" && !ended && this.stalls == stalls
    {
      open, sent, ended, this.stalls := true, "", false, stalls;
    }

    /** Some bytes go out, or none, or the socket is of no more use. */
    method Write(data: string) returns (written: int)
      requires open && data != ""
      modifies `open, `sent, `stalls
      ensures stalls <= old(stalls) && (written == 0 ==> stalls < old(stalls))
      ensures written == -1 ==> !open && sent == old(sent)
      ensures written != -1 ==> 0 <= written <= |data| && sent == old(sent) + data[..written]
    {
      var takes: bool := *;
      if * {
        open, written := false, -1;
      } else if stalls > 0 && !takes {
        stalls, written := stalls - 1, 0;
        assert sent + data[..0] == sent;
      } else {
        written :| 1 <= written <= |data|;
        sent := sent + data[..written];
        if * { open := false; }
      }
    }

    method DisconnectFromHost()
      modifies this
      ensures !open && sent == old(sent) && ended == (old(ended) || old(open))
    {
      ended := ended || open;
      open := false;
    }
  }

  /** What has been sent is what was meant to be sent, or a beginning of it after a failure. */
  ghost predicate Carries(socket: Socket, meant: string)
    reads socket
  {
    && socket.sent <= meant
    && (socket.open || socket.ended ==> socket.sent == meant)
    && !(socket.open && socket.ended)
  }

  lemma SameHead(r: Response)
    ensures HeadText(r.(sentHeaders := true)) == HeadText(r)
  {
  }

  lemma FramedFlags(r: Response, size: nat, last: bool)
    ensures var r1 := Framed(r, size, last);
            r1.sentHeaders && r1.sentLast == r.sentLast && (r.sentHeaders ==> r1 == r)
  {
  }

  lemma StillCarries(socket: Socket, meant: string)
    requires !socket.open && socket.sent <= meant && (socket.ended ==> socket.sent == meant)
    ensures Carries(socket, meant)
  {
  }

  class HttpResponse {
    const socket: Socket
    var headers: StringMap<string>
    var cookies: StringMap<Cookie>
    var statusCode: int
    var statusText: string
    var sentHeaders: bool
    var sentLastPart: bool
    /** All bytes that were given to the socket. */
    ghost var meant: string

    ghost function Value(): Response
      reads this
    {
      Response(headers, cookies, statusCode, statusText, sentHeaders, sentLastPart)
    }

    ghost predicate Valid()
      reads this, socket
    {
      Carries(socket, meant) && (socket.ended ==> sentLastPart)
    }

    constructor (socket: Socket)
      requires socket.open && !socket.ended
      ensures this.socket == socket && Value() == NEW_RESPONSE && meant == socket.sent && Valid()
    {
      this.socket := socket;
      headers, cookies := [], [];
      statusCode, statusText := 200, "OK";
      sentHeaders, sentLastPart := false, false;
      meant := socket.sent;
    }

    method SetHeader(name: string, value: string)
      requires Valid() && !sentHeaders
      modifies `headers
      ensures Valid() && Value() == old(Value()).(headers := Insert(old(headers), name, value))
    {
      headers := Insert(headers, name, value);
    }

    /** A cookie without a name is not stored. */
    method SetCookie(cookie: Cookie)
      requires Valid() && !sentHeaders
      modifies `cookies
      ensures Valid()
      ensures Value() == if cookie.name == "" then old(Value())
                         else old(Value()).(cookies := Insert(old(cookies), cookie.name, cookie))
    {
      if cookie.name != "" {
        cookies := Insert(cookies, cookie.name, cookie);
      }
    }

    method WriteToSocket(data: string) returns (ok: bool)
      requires Carries(socket, meant) && !socket.ended
      modifies socket`open, socket`sent, socket`stalls, `meant
      ensures Carries(socket, meant) && meant == old(meant) + data
      ensures socket.open ==> ok
    {
      var remaining, ptr := |data|, 0;
      ghost var before := meant;
      meant := meant + data;
      assert before + data[..0] == before;
      while socket.open && remaining > 0
        invariant 0 <= ptr && 0 <= remaining && ptr + remaining == |data| && meant == before + data
        invariant if socket.open then socket.sent == before + data[..ptr] else socket.sent <= meant
        invariant !socket.ended
        decreases remaining + socket.stalls
      {
        var written := socket.Write(data[ptr..]);
        if written == -1 {
          return false;
        }
        assert data[..ptr] + data[ptr..][..written] == data[..ptr + written];
        assert before + data[..ptr] + data[ptr..][..written] == before + data[..ptr + written];
        ptr, remaining := ptr + written, remaining - written;
        assert before + data[..ptr] <= before + data;
      }
      assert remaining == 0 ==> data[..ptr] == data;
      return true;
    }

    method WriteHeaders()
      requires Carries(socket, meant) && !socket.ended && !sentHeaders
      modifies socket`open, socket`sent, socket`stalls, `meant, `sentHeaders
      ensures Carries(socket, meant) && sentHeaders
      ensures meant == old(meant) + HeadText(old(Value()))
    {
      hide FieldText, Carries, Number;
      ghost var r := Value();
      var buffer := "HTTP/1.1 " + Number(statusCode) + " " + statusText + "\r\n";
      var lines := HeaderLines(headers);
      var cookieLines := CookieLines(cookies);
      buffer := buffer + lines + cookieLines + "\r\n";
      FieldTextAppend(headers, CookieFields(cookies));
      assert buffer == HeadText(r);
      var ok := WriteToSocket(buffer);
      sentHeaders := true;
    }

    method Write(data: string, lastPart: bool)
      requires Valid() && !sentLastPart
      modifies this, socket
      ensures Valid()
      ensures Value() == Written(old(Value()), data, lastPart)
      ensures meant == old(meant) + WireText(old(Value()), data, lastPart)
      ensures lastPart && Disconnects(headers) ==> !socket.open
      ensures !(lastPart && Disconnects(headers)) ==> socket.ended == old(socket.ended)
    {
      hide Carries, HeadText, Digits, Insert, Get, Framed;
      ghost var r, m := Value(), meant;
      if !sentHeaders {
        StartHeaders(|data|, lastPart);
      }
      ghost var r1 := Framed(r, |data|, lastPart);
      FramedFlags(r, |data|, lastPart);
      ghost var head := if r.sentHeaders then "" else HeadText(r1);
      assert m + "" == m;
      assert Value() == r1 && meant == m + head;
      var chunked := Get(headers, "Transfer-Encoding") == Some("chunked") ||
          Get(headers, "Transfer-Encoding") == Some("Chunked");
      WriteBody(data, lastPart, chunked);
      assert meant == m + WireText(r, data, lastPart);
      if lastPart {
        if !chunked && Get(headers, "Content-Length") == None {
          Ends();
          socket.DisconnectFromHost();
          StillCarries(socket, meant);
        }
        sentLastPart := true;
      }
    }

    /** The first write chooses a framing, unless the headers name one, and sends the head. */
    method StartHeaders(size: nat, lastPart: bool)
      requires Valid() && !sentLastPart && !sentHeaders
      modifies socket`open, socket`sent, socket`stalls, `meant, `sentHeaders, `headers
      ensures Valid() && Value() == Framed(old(Value()), size, lastPart)
      ensures meant == old(meant) + HeadText(Framed(old(Value()), size, lastPart))
    {
      hide Carries, HeadText, Digits, Insert, Get;
      var connection := Get(headers, "Connection");
      if Get(headers, "Content-Length") == None && Get(headers, "Transfer-Encoding") == None &&
         connection != Some("close") && connection != Some("Close") {
        if !lastPart {
          headers := Insert(headers, "Transfer-Encoding", "chunked");
        } else {
          headers := Insert(headers, "Content-Length", Digits(size, 10));
        }
      }
      SameHead(Value());
      WriteHeaders();
    }

    lemma Ends()
      requires Carries(socket, meant)
      ensures socket.sent <= meant && (socket.open || socket.ended ==> socket.sent == meant)
    {
    }

    method WriteChunk(data: string)
      requires Carries(socket, meant) && !socket.ended && data != ""
      modifies socket`open, socket`sent, socket`stalls, `meant
      ensures Carries(socket, meant) && meant == old(meant) + Chunk(data)
    {
      hide Carries, Digits;
      ghost var m := meant;
      var ok := WriteToSocket(Digits(|data|, 16) + "\r\n");
      ok := WriteToSocket(data);
      ok := WriteToSocket("\r\n");
      assert meant == m + (Digits(|data|, 16) + CRLF + data + CRLF);
    }

    /** The data of one write, and the end of the body behind the last. */
    method WriteBody(data: string, lastPart: bool, chunked: bool)
      requires Carries(socket, meant) && !socket.ended && chunked == IsChunked(headers)
      modifies socket`open, socket`sent, socket`stalls, `meant
      ensures Carries(socket, meant) && meant == old(meant) + PartText(headers, data, lastPart)
    {
      hide Carries, IsChunked, Chunk;
      ghost var m := meant;
      if chunked {
        NoChunk();
        if |data| > 0 {
          WriteChunk(data);
        }
        AddsUp(m, Chunk(data), LAST_CHUNK);
        if lastPart {
          var ok := WriteToSocket("0\r\n\r\n");
        }
      } else {
        var ok := WriteToSocket(data);
      }
    }

    lemma AddsUp(m: string, a: string, b: string)
      ensures m + "" == m && a + "" == a && (m + a) + b == m + (a + b)
    {
    }
  }

  method HeaderLines(headers: StringMap<string>) returns (text: string)
    ensures text == FieldText(headers)
  {
    text := "";
    var k := 0;
    assert headers[..0] == [];
    while k < |headers|
      invariant 0 <= k <= |headers| && text == FieldText(headers[..k])
    {
      FieldTextAppend(headers[..k], [headers[k]]);
      assert headers[..k + 1] == headers[..k] + [headers[k]];
      OneField(headers[k].0, headers[k].1);
      text := text + (headers[k].0 + ": " + headers[k].1 + "\r\n");
      k := k + 1;
    }
    assert headers[..k] == headers;
  }

  method CookieLines(cookies: StringMap<Cookie>) returns (text: string)
    ensures text == FieldText(CookieFields(cookies))
  {
    hide CookieText;
    text := "";
    var k := 0;
    assert cookies[0..] == cookies && "" + FieldText(CookieFields(cookies)) == FieldText(CookieFields(cookies));
    while k < |cookies|
      invariant 0 <= k <= |cookies|
      invariant text + FieldText(CookieFields(cookies[k..])) == FieldText(CookieFields(cookies))
    {
      var value := CookieText(cookies[k].1);
      assert cookies[k..][1..] == cookies[k + 1..];
      var line := "Set-Cookie: " + value + "\r\n";
      FirstCookieLine(cookies[k..], line);
      assert text + (line + FieldText(CookieFields(cookies[k + 1..]))) ==
             text + line + FieldText(CookieFields(cookies[k + 1..]));
      text := text + line;
      k := k + 1;
    }
    assert cookies[k..] == [] && text + "" == text;
  }

  lemma FirstCookieLine(cookies: StringMap<Cookie>, line: string)
    requires cookies != [] && line == "Set-Cookie: " + CookieText(cookies[0].1) + "\r\n"
    ensures FieldText(CookieFields(cookies)) == line + FieldText(CookieFields(cookies[1..]))
  {
    hide CookieText;
    var fs := CookieFields(cookies);
    assert fs[1..] == CookieFields(cookies[1..]);
    assert FieldLine(fs[0].0, fs[0].1) == line;
  }

  lemma OneField(name: string, value: string)
    ensures FieldText([(name, value)]) == name + ": " + value + "\r\n"
  {
    assert [(name, value)][1..] == [];
  }

  lemma {:induction false} FieldTextAppend(a: Fields, b: Fields)
    ensures FieldText(a + b) == FieldText(a) + FieldText(b)
  {
    hide FieldLine;
    if a == [] {
      assert a + b == b;
    } else {
      assert (a + b)[1..] == a[1..] + b;
      FieldTextAppend(a[1..], b);
    }
  }

  // ----- a whole response

  /** The parts of the body: those the request handler wrote, and an empty one when it has not
      marked its last. */
  function Parts(written: seq<string>, finished: bool): (r: seq<string>)
    requires finished ==> written != []
    ensures r != []
  {
    if finished then written else written + [""]
  }

  lemma {:induction false} SameData(written: seq<string>)
    ensures Concat(written + [""]) == Concat(written)
  {
    if written == [] {
      assert [] + [""] == [""] && [""][1..] == [];
    } else {
      assert (written + [""])[1..] == written[1..] + [""];
      SameData(written[1..]);
    }
  }

  /** The request handler writes its parts, and the connection handler ends a response that the
      request handler has left open. */
  method Respond(response: HttpResponse, written: seq<string>, finished: bool)
    requires response.Valid() && !response.sentLastPart && (finished ==> written != [])
    modifies response, response.socket
    ensures response.Valid() && response.sentLastPart
    ensures response.meant == old(response.meant) + WireAll(old(response.Value()), Parts(written, finished))
    ensures response.headers == Final(old(response.Value()), Parts(written, finished)).headers
    ensures Disconnects(response.headers) ==> !response.socket.open
    ensures !Disconnects(response.headers) ==> response.socket.ended == old(response.socket.ended)
  {
    hide WireText, Written, Disconnects;
    ghost var parts := Parts(written, finished);
    ghost var r0, m := response.Value(), response.meant;
    var k := 0;
    assert parts[0..] == parts;
    while k < |written|
      invariant 0 <= k <= |written| && response.Valid()
      invariant response.sentLastPart <==> finished && k == |written|
      invariant !(response.sentLastPart && Disconnects(response.headers)) ==>
                response.socket.ended == old(response.socket.ended)
      invariant !response.sentLastPart ==>
        && response.meant + WireAll(response.Value(), parts[k..]) == m + WireAll(r0, parts)
        && Final(response.Value(), parts[k..]) == Final(r0, parts)
      invariant response.sentLastPart ==>
        && response.meant == m + WireAll(r0, parts)
        && response.headers == Final(r0, parts).headers
        && (Disconnects(response.headers) ==> !response.socket.open)
      decreases |written| - k
    {
      ghost var r := response.Value();
      ghost var rest := parts[k..];
      assert rest[0] == written[k] && rest[1..] == parts[k + 1..];
      response.Write(written[k], finished && k == |written| - 1);
      WriteOne(r, rest, finished && k == |written| - 1);
      k := k + 1;
    }
    if !response.sentLastPart {
      assert parts[k..] == [""];
      WriteOne(response.Value(), [""], true);
      response.Write("", true);
    }
  }

  /** The state behind all parts. */
  function Final(r: Response, parts: seq<string>): Response
    requires parts != []
    decreases |parts|
  {
    if |parts| == 1 then Written(r, parts[0], true) else Final(Written(r, parts[0], false), parts[1..])
  }

  lemma WriteOne(r: Response, rest: seq<string>, last: bool)
    requires rest != [] && (last <==> |rest| == 1) && !r.sentLast
    ensures last ==> WireAll(r, rest) == WireText(r, rest[0], true) && Final(r, rest) == Written(r, rest[0], true)
    ensures !last ==>
      && WireAll(r, rest) == WireText(r, rest[0], false) + WireAll(Written(r, rest[0], false), rest[1..])
      && Final(r, rest) == Final(Written(r, rest[0], false), rest[1..])
      && !Written(r, rest[0], false).sentLast
    ensures Written(r, rest[0], last).sentLast == last
  {
  }

  lemma {:induction false} FinalHeaders(r: Response, parts: seq<string>)
    requires parts != []
    ensures Final(r, parts).headers == First(r, parts).headers
    decreases |parts|
  {
    if |parts| > 1 { FinalHeaders(Written(r, parts[0], false), parts[1..]); }
  }

  /** A whole run: when nothing failed, the bytes that went out decode to the data that was
      written, exactly when head and framing agree. */
  method RespondAndDecode(response: HttpResponse, written: seq<string>, finished: bool)
    returns (ghost got: Option<Message>)
    requires response.Valid() && response.socket.open && response.meant == ""
    requires !response.sentHeaders && !response.sentLastPart && (finished ==> written != [])
    requires CleanHead(First(response.Value(), Parts(written, finished)))
    modifies response, response.socket
    ensures response.Valid()
    ensures got == DecodeResponse(response.socket.sent, response.socket.ended)
    ensures response.socket.open || response.socket.ended ==>
      (got == Some(Message(Concat(written), ""))
       <==> Consistent(old(First(response.Value(), Parts(written, finished))), Concat(written)))
  {
    hide WireAll, DecodeResponse, Consistent, Concat, CleanHead, First, Final;
    ghost var r, parts := response.Value(), Parts(written, finished);
    Respond(response, written, finished);
    assert "" + WireAll(r, parts) == WireAll(r, parts);
    SameData(written);
    FinalHeaders(r, parts);
    DecodeUndoesWrite(r, parts);
    got := DecodeResponse(response.socket.sent, response.socket.ended);
  }
}
