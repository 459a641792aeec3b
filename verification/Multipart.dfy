/**
  Multipart bodies (httprequest.cpp:401-523), and their layout in section 5.1.1 of RFC 2046 with
  the form fields of RFC 7578.
*/
module Multipart {
  import opened Sequences
  import opened QtText

  const MAX_LINE := 65536

  /** QIODevice::readLine: at most n characters, up to a line feed. */
  function TakeLine(s: string, n: nat): (r: string)
    ensures r <= s && |r| <= n && (s != "" && n > 0 ==> r != "")
    ensures n > 0 && r != s && |r| < n ==> r != "" && r[|r| - 1] == '\n'
    ensures forall k :: 0 <= k < |r| - 1 ==> r[k] != '\n'
    decreases n
  {
    if s == "" || n == 0 then ""
    else if s[0] == '\n' then [s[0]]
    else [s[0]] + TakeLine(s[1..], n - 1)
  }

  /** The text as the lines that the loops read. */
  function Lines(s: string): seq<string>
    decreases |s|
  {
    if s == "" then [] else [TakeLine(s, MAX_LINE)] + Lines(s[|TakeLine(s, MAX_LINE)|..])
  }

  // ----- parsing

  /** Form fields and file names, the uploaded files, and the size of the form fields. */
  datatype Form = Form(parameters: seq<(string, string)>, files: seq<(string, string)>, size: nat)

  const NO_FORM := Form([], [], 0)

  /** The text behind `key` up to the next quote. */
  function Quoted(line: string, key: string): Option<string> {
    var start := Find(line, key, 0);
    var end := IndexOf(line, "\"", start + |key|);
    if start >= 0 && end >= start then Some(Mid(line, start + |key|, end - start - |key|)) else None
  }

  datatype Head = Head(name: string, fileName: string)

  function ReadDisposition(h: Head, line: string): Head {
    if StartsWith(line, "Content-Disposition:") && Contains(line, "form-data") then
      Head(match Quoted(line, " name=\"") case Some(v) => v case None => h.name,
           match Quoted(line, " filename=\"") case Some(v) => v case None => h.fileName)
    else h
  }

  /** Lines up to an empty one. */
  function ReadHead(lines: seq<string>, h: Head): (r: (Head, seq<string>))
    ensures |r.1| <= |lines| && (lines != [] ==> |r.1| < |lines|)
    decreases |lines|
  {
    if lines == [] then (h, [])
    else
      var line := Trim(lines[0]);
      if StartsWith(line, "Content-Disposition:") then ReadHead(lines[1..], ReadDisposition(h, line))
      else if line == "" then (h, lines[1..])
      else ReadHead(lines[1..], h)
  }

  /** Without the last two characters; QByteArray::remove does nothing in front of the text. */
  function WithoutCrlf(s: string): string {
    if |s| >= 2 then s[..|s| - 2] else s
  }

  datatype PartEnd = PartEnd(form: Form, rest: seq<string>, finished: bool) | NoFile

  predicate IsField(h: Head) { h.name != "" && h.fileName == "" }

  predicate IsFile(h: Head) { h.name != "" && h.fileName != "" }

  /** What a delimiter does with the part read so far.  A file without a line of data has no
      temporary file, and the program dereferences null. */
  function EndPart(h: Head, value: string, upload: Option<string>, form: Form): Option<Form> {
    if IsField(h) then Some(form.(parameters := form.parameters + [(h.name, WithoutCrlf(value))]))
    else if IsFile(h) then
      match upload
      case None => None
      case Some(data) =>
        Some(form.(parameters := form.parameters + [(h.name, h.fileName)],
                   files := form.files + [(h.name, WithoutCrlf(data))]))
    else Some(form)
  }

  /** Lines up to a delimiter. */
  function ReadPart(lines: seq<string>, boundary: string, h: Head, value: string, upload: Option<string>,
                    form: Form): (r: PartEnd)
    ensures r.PartEnd? ==> |r.rest| <= |lines|
    decreases |lines|
  {
    if lines == [] then PartEnd(form, [], false)
    else if StartsWith(lines[0], "--" + boundary) then
      match EndPart(h, value, upload, form)
      case None => NoFile
      case Some(f) => PartEnd(f, lines[1..], Contains(lines[0], boundary + "--"))
    else if IsField(h) then
      ReadPart(lines[1..], boundary, h, value + lines[0], upload, form.(size := form.size + |lines[0]|))
    else if IsFile(h) then
      ReadPart(lines[1..], boundary, h, value, Some((if upload.Some? then upload.value else "") + lines[0]), form)
    else ReadPart(lines[1..], boundary, h, value, upload, form)
  }

  function ReadParts(lines: seq<string>, boundary: string, form: Form): Option<Form>
    decreases |lines|
  {
    if lines == [] then Some(form)
    else
      var head := ReadHead(lines, Head("", ""));
      match ReadPart(head.1, boundary, head.0, "", None, form)
      case NoFile => None
      case PartEnd(f, rest, finished) => if finished then Some(f) else ReadParts(rest, boundary, f)
  }

  /** The form in a multipart file; None where the program dereferences null. */
  function ParseMultiPart(file: string, boundary: string): Option<Form> {
    ReadParts(Lines(file), boundary, NO_FORM)
  }

  // ----- the loops

  method ReadLine(file: string, pos: nat) returns (line: string, newPos: nat)
    requires pos < |file|
    ensures pos < newPos <= |file|
    ensures Lines(file[pos..]) == [line] + Lines(file[newPos..])
  {
    line := TakeLine(file[pos..], MAX_LINE);
    newPos := pos + |line|;
    assert file[pos..][|line|..] == file[newPos..];
  }

  method HeadLoop(file: string, start: nat) returns (h: Head, pos: nat)
    requires start <= |file|
    ensures start <= pos <= |file| && (start < |file| ==> start < pos)
    ensures ReadHead(Lines(file[start..]), Head("", "")) == (h, Lines(file[pos..]))
  {
    hide Trim, ReadDisposition, StartsWith, Lines;
    h, pos := Head("", ""), start;
    while pos < |file|
      invariant start <= pos <= |file| && (pos == start || start < pos)
      invariant ReadHead(Lines(file[pos..]), h) == ReadHead(Lines(file[start..]), Head("", ""))
      decreases |file| - pos
    {
      ghost var lines := Lines(file[pos..]);
      var line;
      line, pos := ReadLine(file, pos);
      assert lines[0] == line && lines[1..] == Lines(file[pos..]);
      line := Trim(line);
      if StartsWith(line, "Content-Disposition:") {
        h := ReadDisposition(h, line);
      } else if line == "" {
        return;
      }
    }
    assert Lines(file[pos..]) == [] by { NoLines(); assert file[pos..] == ""; }
  }

  lemma NoLines()
    ensures Lines("") == []
  {
  }

  method PartLoop(file: string, start: nat, boundary: string, h: Head, form: Form)
    returns (r: Option<Form>, pos: nat, finished: bool)
    requires start <= |file|
    ensures start <= pos <= |file|
    ensures var e := ReadPart(Lines(file[start..]), boundary, h, "", None, form);
            if e.NoFile? then r == None else r == Some(e.form) && Lines(file[pos..]) == e.rest && finished == e.finished
  {
    hide StartsWith, Lines, EndPart, Contains;
    pos, finished := start, false;
    var value, upload: Option<string>, f := "", None, form;
    ghost var all := ReadPart(Lines(file[start..]), boundary, h, "", None, form);
    while pos < |file|
      invariant start <= pos <= |file|
      invariant ReadPart(Lines(file[pos..]), boundary, h, value, upload, f) == all
      decreases |file| - pos
    {
      ghost var lines := Lines(file[pos..]);
      var line;
      line, pos := ReadLine(file, pos);
      assert lines[0] == line && lines[1..] == Lines(file[pos..]);
      if StartsWith(line, "--" + boundary) {
        r := EndPart(h, value, upload, f);
        finished := Contains(line, boundary + "--");
        return;
      }
      if IsField(h) {
        f := f.(size := f.size + |line|);
        value := value + line;
      } else if IsFile(h) {
        upload := Some((if upload.Some? then upload.value else "") + line);
      }
    }
    assert Lines(file[pos..]) == [] by { NoLines(); assert file[pos..] == ""; }
    r := Some(f);
  }

  method ParseMultiPartFile(file: string, boundary: string) returns (r: Option<Form>)
    ensures r == ParseMultiPart(file, boundary)
  {
    hide Lines, ReadHead, ReadPart;
    var pos, finished, form := 0, false, NO_FORM;
    assert file[0..] == file;
    while pos < |file| && !finished
      invariant 0 <= pos <= |file|
      invariant !finished ==> ReadParts(Lines(file[pos..]), boundary, form) == ParseMultiPart(file, boundary)
      invariant finished ==> Some(form) == ParseMultiPart(file, boundary)
      decreases |file| - pos
    {
      var h, start := HeadLoop(file, pos);
      ghost var lines := Lines(file[pos..]);
      assert lines != [] by { SomeLines(file[pos..]); }
      r, pos, finished := PartLoop(file, start, boundary, h, form);
      if r == None {
        return;
      }
      form := r.value;
    }
    if !finished { assert Lines(file[pos..]) == [] by { NoLines(); assert file[pos..] == ""; } }
    r := Some(form);
  }

  lemma SomeLines(s: string)
    requires s != ""
    ensures Lines(s) != []
  {
  }

  // ----- what a body consists of

  /** A part as it stands in a body: its header, the lines behind it, and the delimiter that ends
      it, if there is one. */
  datatype Section = Section(head: Head, data: seq<string>, delimiter: Option<string>)

  /** The number of lines in front of the first delimiter. */
  function DataCount(lines: seq<string>, boundary: string): (n: nat)
    ensures n <= |lines|
  {
    if lines == [] || StartsWith(lines[0], "--" + boundary) then 0 else 1 + DataCount(lines[1..], boundary)
  }

  /** The parts of a body, up to the last delimiter. */
  function Sections(lines: seq<string>, boundary: string): seq<Section>
    decreases |lines|
  {
    if lines == [] then []
    else
      var (h, rest) := ReadHead(lines, Head("", ""));
      var n := DataCount(rest, boundary);
      if n == |rest| then [Section(h, rest, None)]
      else
        [Section(h, rest[..n], Some(rest[n]))] +
        if Contains(rest[n], boundary + "--") then [] else Sections(rest[n + 1..], boundary)
  }

  function Joined(lines: seq<string>): string {
    if lines == [] then "" else lines[0] + Joined(lines[1..])
  }

  /** A file with a delimiter directly behind its header. */
  predicate EmptyFile(sec: Section) {
    IsFile(sec.head) && sec.data == [] && sec.delimiter.Some?
  }

  /** What one part adds: a field or a file when a delimiter ends it; field data count in any case. */
  function AddSection(form: Form, sec: Section): Form {
    var data, ended := Joined(sec.data), sec.delimiter.Some?;
    if IsField(sec.head) then
      form.(size := form.size + |data|,
            parameters := if ended then form.parameters + [(sec.head.name, WithoutCrlf(data))] else form.parameters)
    else if IsFile(sec.head) && ended then
      form.(parameters := form.parameters + [(sec.head.name, sec.head.fileName)],
            files := form.files + [(sec.head.name, WithoutCrlf(data))])
    else form
  }

  function AddSections(form: Form, secs: seq<Section>): Form
    decreases |secs|
  {
    if secs == [] then form else AddSections(AddSection(form, secs[0]), secs[1..])
  }

  ghost predicate HasEmptyFile(secs: seq<Section>) {
    exists k :: 0 <= k < |secs| && EmptyFile(secs[k])
  }

  /** Collecting a part dereferences null exactly when a file is to be ended before any line of its
      data has come. */
  lemma {:induction false} NoFileExactly(lines: seq<string>, b: string, h: Head, value: string, upload: Option<string>,
                                         form: Form)
    ensures ReadPart(lines, b, h, value, upload, form).NoFile? <==>
            IsFile(h) && upload.None? && lines != [] && StartsWith(lines[0], "--" + b)
    decreases |lines|
  {
    hide StartsWith, Contains;
    if lines != [] && !StartsWith(lines[0], "--" + b) {
      if IsField(h) {
        NoFileExactly(lines[1..], b, h, value + lines[0], upload, form.(size := form.size + |lines[0]|));
      } else if IsFile(h) {
        NoFileExactly(lines[1..], b, h, value, Some((if upload.Some? then upload.value else "") + lines[0]), form);
      } else {
        NoFileExactly(lines[1..], b, h, value, upload, form);
      }
    }
  }

  function Uploaded(upload: Option<string>, lines: seq<string>): Option<string> {
    if lines == [] then upload else Some((if upload.Some? then upload.value else "") + Joined(lines))
  }

  /** What is collected of a part in front of its delimiter. */
  lemma {:induction false} Collects(ls: seq<string>, rest: seq<string>, b: string, h: Head, value: string,
                                    upload: Option<string>, form: Form)
    requires forall k :: 0 <= k < |ls| ==> !StartsWith(ls[k], "--" + b)
    ensures ReadPart(ls + rest, b, h, value, upload, form) ==
            ReadPart(rest, b, h, if IsField(h) then value + Joined(ls) else value,
                     if IsFile(h) then Uploaded(upload, ls) else upload,
                     if IsField(h) then form.(size := form.size + |Joined(ls)|) else form)
    decreases |ls|
  {
    hide StartsWith;
    if ls == [] {
      assert ls + rest == rest && value + "" == value;
    } else {
      assert (ls + rest)[1..] == ls[1..] + rest;
      var tail := ls[1..];
      if IsField(h) {
        Collects(tail, rest, b, h, value + ls[0], upload, form.(size := form.size + |ls[0]|));
        assert value + ls[0] + Joined(tail) == value + Joined(ls);
      } else if IsFile(h) {
        var u := (if upload.Some? then upload.value else "");
        Collects(tail, rest, b, h, value, Some(u + ls[0]), form);
        assert u + ls[0] + Joined(tail) == u + Joined(ls);
        assert u + ls[0] == u + (ls[0] + "");
      } else {
        Collects(tail, rest, b, h, value, upload, form);
      }
    }
  }

  lemma {:induction false} DataIsPlain(lines: seq<string>, b: string)
    ensures var n := DataCount(lines, b);
            && (forall k :: 0 <= k < n ==> !StartsWith(lines[k], "--" + b))
            && (n < |lines| ==> StartsWith(lines[n], "--" + b))
  {
    hide StartsWith;
    if lines != [] && !StartsWith(lines[0], "--" + b) { DataIsPlain(lines[1..], b); }
  }

  /** One part, from its header to its delimiter. */
  lemma PartIsSection(lines: seq<string>, b: string, h: Head, form: Form)
    ensures var n := DataCount(lines, b);
            var sec := Section(h, lines[..n], if n < |lines| then Some(lines[n]) else None);
            ReadPart(lines, b, h, "", None, form) ==
            if EmptyFile(sec) then NoFile
            else PartEnd(AddSection(form, sec), if n < |lines| then lines[n + 1..] else [],
                         n < |lines| && Contains(lines[n], b + "--"))
  {
    hide StartsWith, Contains, WithoutCrlf, Joined;
    var n := DataCount(lines, b);
    DataIsPlain(lines, b);
    assert lines == lines[..n] + lines[n..];
    Collects(lines[..n], lines[n..], b, h, "", None, form);
    assert "" + Joined(lines[..n]) == Joined(lines[..n]);
    hide DataCount;
    if n < |lines| {
      assert lines[n..][0] == lines[n] && lines[n..][1..] == lines[n + 1..];
    } else {
      assert lines[n..] == [] && lines[..n] == lines;
    }
  }

  lemma EmptyFileFirst(sec: Section, secs: seq<Section>)
    ensures HasEmptyFile([sec] + secs) <==> EmptyFile(sec) || HasEmptyFile(secs)
  {
    hide EmptyFile;
    var all := [sec] + secs;
    if HasEmptyFile(secs) {
      var k :| 0 <= k < |secs| && EmptyFile(secs[k]);
      assert all[k + 1] == secs[k];
    }
    if EmptyFile(sec) { assert all[0] == sec; }
    if HasEmptyFile(all) {
      var k :| 0 <= k < |all| && EmptyFile(all[k]);
      if k > 0 { assert all[k] == secs[k - 1]; }
    }
  }

  /** Parsing succeeds exactly when no file of the body is ended directly behind its header, and
      then the form holds what its parts add. */
  lemma {:induction false} PartsAreSections(lines: seq<string>, b: string, form: Form)
    ensures var secs := Sections(lines, b);
            ReadParts(lines, b, form) == if HasEmptyFile(secs) then None else Some(AddSections(form, secs))
    decreases |lines|
  {
    hide ReadHead, ReadPart, DataCount, EmptyFile, AddSection, Contains, HasEmptyFile;
    if lines == [] {
      NoSections();
    } else {
      var (h, rest) := ReadHead(lines, Head("", ""));
      var n := DataCount(rest, b);
      PartIsSection(rest, b, h, form);
      var sec := Section(h, rest[..n], if n < |rest| then Some(rest[n]) else None);
      var f := AddSection(form, sec);
      NoSections();
      if n < |rest| && !Contains(rest[n], b + "--") {
        PartsAreSections(rest[n + 1..], b, f);
        EmptyFileFirst(sec, Sections(rest[n + 1..], b));
        assert ([sec] + Sections(rest[n + 1..], b))[1..] == Sections(rest[n + 1..], b);
      } else {
        EmptyFileFirst(sec, []);
        if n == |rest| { assert rest[..n] == rest; }
        assert Sections(lines, b) == [sec] + [];
        assert ([sec] + [])[1..] == [];
        assert n == |rest| ==> ReadParts([], b, f) == Some(f);
      }
    }
  }

  lemma NoSections()
    ensures !HasEmptyFile([])
  {
  }

  /** The size of the data of the fields. */
  function FieldBytes(secs: seq<Section>): nat {
    if secs == [] then 0 else (if IsField(secs[0].head) then |Joined(secs[0].data)| else 0) + FieldBytes(secs[1..])
  }

  lemma {:induction false} SizeIsFieldBytes(form: Form, secs: seq<Section>)
    ensures AddSections(form, secs).size == form.size + FieldBytes(secs)
    decreases |secs|
  {
    hide Joined;
    if secs != [] { SizeIsFieldBytes(AddSection(form, secs[0]), secs[1..]); }
  }

  /** A whole body: when it is parsed, what it holds, and how much of it counts for the budget. */
  lemma ParseIsItsSections(file: string, b: string)
    ensures var secs, r := Sections(Lines(file), b), ParseMultiPart(file, b);
            && (r == if HasEmptyFile(secs) then None else Some(AddSections(NO_FORM, secs)))
            && (r.Some? ==> r.value.size == FieldBytes(secs))
  {
    hide Lines, Sections, ReadParts;
    PartsAreSections(Lines(file), b, NO_FORM);
    SizeIsFieldBytes(NO_FORM, Sections(Lines(file), b));
  }

  // ----- the layout of a form

  function Delimiter(boundary: string): string { "--" + boundary + CRLF }

  /** A part of a form: a field, or a file with its name, and perhaps a content type. */
  datatype Part = Part(name: string, fileName: Option<string>, contentType: Option<string>, content: string)

  function FieldDisposition(name: string): string {
    "Content-Disposition:" + " form-data; name=\"" + name + "\""
  }

  function Disposition(p: Part): string {
    match p.fileName
    case None => FieldDisposition(p.name)
    case Some(f) => FieldDisposition(p.name) + "; filename=\"" + f + "\""
  }

  function TypeText(p: Part): string {
    match p.contentType
    case None => ""
    case Some(c) => "Content-Type: " + c + CRLF
  }

  function PartText(boundary: string, p: Part): string {
    Delimiter(boundary) + (Disposition(p) + CRLF) + TypeText(p) + CRLF + (p.content + CRLF)
  }

  function EndLine(boundary: string): string { "--" + boundary + "--" + CRLF }

  function FormText(boundary: string, parts: seq<Part>): string {
    if parts == [] then EndLine(boundary) else PartText(boundary, parts[0]) + FormText(boundary, parts[1..])
  }

  predicate NoLine(s: string) { '\r' !in s && '\n' !in s }

  predicate GoodBoundary(b: string) { NoLine(b) && |b| <= 70 }

  /** A text between quotes in a header. */
  predicate GoodWord(s: string) { NoLine(s) && '\"' !in s && |s| < 30000 }

  predicate GoodHeader(p: Part) {
    && GoodWord(p.name) && (p.fileName.Some? ==> GoodWord(p.fileName.value))
    && (p.contentType.Some? ==> NoLine(p.contentType.value) && |p.contentType.value| < 30000)
  }

  /** No line of the content, as it is read, looks like a delimiter. */
  predicate GoodPart(b: string, p: Part) {
    && GoodHeader(p)
    && forall k :: 0 <= k < |Lines(p.content + CRLF)| ==> !StartsWith(Lines(p.content + CRLF)[k], "--" + b)
  }

  ghost predicate GoodParts(b: string, parts: seq<Part>) {
    forall k :: 0 <= k < |parts| ==> GoodPart(b, parts[k])
  }

  // ----- lines

  ghost predicate EndsLine(s: string) { s == "" || s[|s| - 1] == '\n' }

  lemma {:induction false} TakeLineFront(a: string, b: string, n: nat)
    requires a != "" && EndsLine(a)
    ensures TakeLine(a + b, n) == TakeLine(a, n)
    decreases |a|
  {
    if n > 0 && a[0] != '\n' {
      assert (a + b)[1..] == a[1..] + b;
      assert a[1..] != "" && a[1..][|a[1..]| - 1] == a[|a| - 1];
      TakeLineFront(a[1..], b, n - 1);
    }
  }

  lemma FirstLine(s: string) returns (line: string, rest: string)
    requires s != ""
    ensures s == line + rest && |rest| < |s| && line == TakeLine(s, MAX_LINE) && Lines(s) == [line] + Lines(rest)
    ensures EndsLine(s) ==> EndsLine(rest)
  {
    line := TakeLine(s, MAX_LINE);
    rest := s[|line|..];
    FirstOfLines(s);
    hide TakeLine, Lines;
    CutAfter(line, s);
  }

  lemma FirstOfLines(s: string)
    requires s != ""
    ensures Lines(s) == [TakeLine(s, MAX_LINE)] + Lines(s[|TakeLine(s, MAX_LINE)|..])
  {
    hide TakeLine;
  }

  lemma CutAfter(line: string, s: string)
    requires line <= s && line != ""
    ensures s == line + s[|line|..] && (EndsLine(s) ==> EndsLine(s[|line|..]))
  {
    var rest := s[|line|..];
    if rest != "" { assert rest[|rest| - 1] == s[|s| - 1]; }
  }

  lemma LineThenRest(line: string, rest: string)
    requires line + rest != "" && TakeLine(line + rest, MAX_LINE) == line
    ensures Lines(line + rest) == [line] + Lines(rest)
  {
    hide TakeLine;
    assert (line + rest)[|line|..] == rest;
  }

  /** Lines of a text that ends a line, in front of anything. */
  lemma {:induction false} LinesAppend(a: string, b: string)
    requires EndsLine(a)
    ensures Lines(a + b) == Lines(a) + Lines(b)
    decreases |a|
  {
    hide Lines, TakeLine;
    NoLines();
    if a == "" {
      assert a + b == b && [] + Lines(b) == Lines(b);
    } else {
      hide EndsLine;
      var line, rest := FirstLine(a);
      TakeLineFront(a, b, MAX_LINE);
      assert a + b == line + (rest + b);
      LineThenRest(line, rest + b);
      LinesAppend(rest, b);
      assert [line] + (Lines(rest) + Lines(b)) == [line] + Lines(rest) + Lines(b);
    }
  }

  lemma {:induction false} JoinedLines(s: string)
    ensures Joined(Lines(s)) == s
    decreases |s|
  {
    hide Lines, TakeLine;
    NoLines();
    if s != "" {
      var line, rest := FirstLine(s);
      JoinedLines(rest);
      assert ([line] + Lines(rest))[1..] == Lines(rest);
    }
  }

  lemma {:induction false} TakeWholeLine(line: string, n: nat)
    requires line != "" && line[|line| - 1] == '\n' && (forall k :: 0 <= k < |line| - 1 ==> line[k] != '\n') &&
             |line| <= n
    ensures TakeLine(line, n) == line
    decreases |line|
  {
    if line[0] != '\n' {
      assert forall k :: 0 <= k < |line[1..]| ==> line[1..][k] == line[k + 1];
      TakeWholeLine(line[1..], n - 1);
    }
  }

  /** A line without breaks, with its line break. */
  lemma OneLine(s: string, rest: string)
    requires NoLine(s) && |s| + 2 <= MAX_LINE
    ensures Lines(s + CRLF + rest) == [s + CRLF] + Lines(rest)
  {
    var line := s + CRLF;
    assert forall k :: 0 <= k < |line| - 1 ==> line[k] != '\n';
    TakeWholeLine(line, MAX_LINE);
    assert line[|line|..] == "" && Lines("") == [];
    LinesAppend(line, rest);
  }

  // ----- headers

  lemma DispositionChars(name: string)
    ensures var d := FieldDisposition(name);
            && |d| == 39 + |name| && d[37] == d[38 + |name|] == '\"'
            && (forall k :: 0 <= k < 37 ==> d[k] == "Content-Disposition: form-data; name="[k])
            && (forall k :: 38 <= k < 38 + |name| ==> d[k] == name[k - 38])
  {
  }

  /** The characters of a header with a file name. */
  lemma FileChars(name: string, f: string)
    ensures var d := FieldDisposition(name) + "; filename=\"" + f + "\"";
            var n := |name|;
            && |d| == 52 + n + |f| && d[37] == d[38 + n] == d[50 + n] == d[51 + n + |f|] == '\"'
            && (forall k :: 0 <= k < 39 + n ==> d[k] == FieldDisposition(name)[k])
            && (forall k :: 39 + n <= k < 50 + n ==> d[k] == "; filename="[k - 39 - n])
            && (forall k :: 51 + n <= k < 51 + n + |f| ==> d[k] == f[k - 51 - n])
            && d[39 + n..50 + n] == "; filename=" && d[51 + n..51 + n + |f|] == f
  {
    hide FieldDisposition;
    DispositionChars(name);
  }

  lemma FindAt(s: string, p: string, i: nat, k: int)
    requires i <= k && At(s, p, k) && forall j :: i <= j < k ==> !At(s, p, j)
    ensures Find(s, p, i) == k
  {
  }

  lemma NotAt(s: string, p: string, i: nat, k: nat)
    requires k < |p| && i + k < |s| && s[i + k] != p[k]
    ensures !At(s, p, i)
  {
    if i + |p| <= |s| { assert s[i..i + |p|][k] == s[i + k]; }
  }

  lemma FindQuote(s: string, i: nat, k: nat)
    requires i <= k < |s| && s[k] == '\"' && forall j :: i <= j < k ==> s[j] != '\"'
    ensures Find(s, "\"", i) == k
  {
    forall j | i <= j < k ensures !At(s, "\"", j) { NotAt(s, "\"", j, 0); }
    assert At(s, "\"", k);
    FindAt(s, "\"", i, k);
  }

  /** The name is found between the first two quotes, whatever comes behind. */
  lemma NameIsQuoted(d: string, name: string)
    requires '\"' !in name && FieldDisposition(name) <= d
    ensures Quoted(d, " name=\"") == Some(name)
  {
    var key, n := " name=\"", |name|;
    DispositionChars(name);
    var e := FieldDisposition(name);
    assert e[31..38] == key;
    hide FieldDisposition, Find;
    assert d[31..38] == e[31..38] && forall k :: 0 <= k < |e| ==> d[k] == e[k];
    forall j | 0 <= j < 31 ensures !At(d, key, j) { NotAt(d, key, j, 6); }
    hide At;
    FindAt(d, key, 0, 31) by { IsAt(d, key, 31); }
    FindQuote(d, 38, 38 + n);
    QuotedIs(d, key, 31, 38 + n);
    assert d[38..38 + n] == name;
  }

  lemma IsAt(s: string, p: string, k: nat)
    requires k + |p| <= |s| && s[k..k + |p|] == p
    ensures At(s, p, k)
  {
  }

  lemma QuotedIs(d: string, key: string, start: nat, end: nat)
    requires Find(d, key, 0) == start && start + |key| <= end <= |d|
    requires Find(d, "\"", start + |key|) == end
    ensures Quoted(d, key) == Some(d[start + |key|..end])
  {
    hide Find;
  }

  lemma NoFileName(name: string)
    requires '\"' !in name
    ensures Quoted(FieldDisposition(name), " filename=\"") == None
  {
    var d, key := FieldDisposition(name), " filename=\"";
    var start := Find(d, key, 0);
    if start >= 0 { NoQuoteBehind(name, start); }
  }

  /** The only quotes are around the name, and the first is not behind "filename=". */
  lemma NoQuoteBehind(name: string, start: nat)
    requires '\"' !in name && At(FieldDisposition(name), " filename=\"", start)
    ensures Find(FieldDisposition(name), "\"", start + 11) == -1
  {
    var d := FieldDisposition(name);
    DispositionChars(name);
    hide FieldDisposition;
    var f := d[start..start + 11];
    assert f[10] == d[start + 10] == '\"' && f[5] == d[start + 5] == 'n' && f[1] == d[start + 1] == 'f';
    assert d[28] == 't';
    assert start + 10 == 38 + |name|;
    var end := Find(d, "\"", start + 11);
  }

  /** A name after which the program takes the quote for that of a file name. */
  predicate EndsLikeFileName(name: string) {
    |name| >= 10 && name[|name| - 10..] == " filename="
  }

  /** The key for the file name stands at the closing quote of the name, exactly when the name ends
      with it. */
  lemma KeyAtName(name: string, f: string)
    requires '\"' !in name
    ensures At(FieldDisposition(name) + "; filename=\"" + f + "\"", " filename=\"", 28 + |name|) <==>
            EndsLikeFileName(name)
  {
    var d, key, n := FieldDisposition(name) + "; filename=\"" + f + "\"", " filename=\"", |name|;
    FileChars(name, f);
    DispositionChars(name);
    hide FieldDisposition;
    var w := d[28 + n..39 + n];
    if n < 10 {
      NotAt(d, key, 28 + n, 9 - n);
    } else {
      assert w[..10] == name[n - 10..] by {
        forall k | 0 <= k < 10 ensures w[k] == name[n - 10..][k] { assert d[28 + n + k] == name[n - 10 + k]; }
      }
      assert w == w[..10] + ['\"'];
      assert key[..10] == " filename=";
      if EndsLikeFileName(name) { assert key == " filename=" + ['\"']; }
      if w == key { assert w[..10] == key[..10]; }
    }
  }

  lemma KeyElsewhere(name: string, f: string, j: nat)
    requires '\"' !in name && j < 40 + |name| && j != 28 + |name|
    ensures !At(FieldDisposition(name) + "; filename=\"" + f + "\"", " filename=\"", j)
  {
    var d, key, n := FieldDisposition(name) + "; filename=\"" + f + "\"", " filename=\"", |name|;
    FileChars(name, f);
    DispositionChars(name);
    hide FieldDisposition;
    if j == 27 {
      assert d[28] == 't';
      NotAt(d, key, j, 1);
    } else {
      assert d[j + 10] != '\"';
      NotAt(d, key, j, 10);
    }
  }

  /** The file name comes back, unless the name ends like the key for it. */
  lemma FileNameReads(name: string, f: string)
    requires '\"' !in name && '\"' !in f
    ensures Quoted(FieldDisposition(name) + "; filename=\"" + f + "\"", " filename=\"") ==
            Some(if EndsLikeFileName(name) then "; filename=" else f)
  {
    var d, key, n := FieldDisposition(name) + "; filename=\"" + f + "\"", " filename=\"", |name|;
    FileChars(name, f);
    KeyAtName(name, f);
    KeyIsThere(name, f);
    forall j | 0 <= j < 40 + n && j != 28 + n ensures !At(d, key, j) { KeyElsewhere(name, f, j); }
    hide FieldDisposition, EndsLikeFileName, Find, Quoted, At;
    if EndsLikeFileName(name) {
      FindAt(d, key, 0, 28 + n);
      FindQuote(d, 39 + n, 50 + n);
      QuotedIs(d, key, 28 + n, 50 + n);
    } else {
      FindAt(d, key, 0, 40 + n);
      FindQuote(d, 51 + n, 51 + n + |f|);
      QuotedIs(d, key, 40 + n, 51 + n + |f|);
    }
  }

  lemma KeyIsThere(name: string, f: string)
    ensures At(FieldDisposition(name) + "; filename=\"" + f + "\"", " filename=\"", 40 + |name|)
  {
    var d, n := FieldDisposition(name) + "; filename=\"" + f + "\"", |name|;
    FileChars(name, f);
    DispositionChars(name);
    hide FieldDisposition;
    var w := d[40 + n..51 + n];
    forall k | 0 <= k < 11 ensures w[k] == " filename=\""[k] {
      if k < 10 { assert d[40 + n + k] == "; filename="[k + 1]; }
    }
  }

  /** The name and file name that the program reads. */
  function HeadOf(p: Part): Head {
    Head(p.name,
         match p.fileName
         case None => ""
         case Some(f) => if EndsLikeFileName(p.name) then "; filename=" else f)
  }

  lemma TrimsCrlf(d: string)
    requires d != "" && Trimmed(d)
    ensures Trim(d + CRLF) == d
  {
    assert "" + d + CRLF == d + CRLF;
    TrimAround("", d, CRLF);
  }

  lemma DispositionStarts(name: string, d: string)
    requires FieldDisposition(name) <= d
    ensures StartsWith(d, "Content-Disposition:") && Contains(d, "form-data")
  {
    var e := FieldDisposition(name);
    assert e[..20] == "Content-Disposition:" && e[21..30] == "form-data";
    hide FieldDisposition;
    assert d[..20] == e[..20] && d[21..30] == e[21..30];
    assert At(d, "form-data", 21);
  }

  /** The header of a part gives its name and file name. */
  lemma DispositionReads(p: Part)
    requires GoodHeader(p)
    ensures Trim(Disposition(p) + CRLF) == Disposition(p) && StartsWith(Disposition(p), "Content-Disposition:")
    ensures ReadDisposition(Head("", ""), Disposition(p)) == HeadOf(p)
  {
    hide *;
    var d := Disposition(p);
    DispositionIs(p);
    DispositionStarts(p.name, d);
    NameIsQuoted(d, p.name);
    if p.fileName.Some? {
      FileNameReads(p.name, p.fileName.value);
    } else {
      NoFileName(p.name);
    }
    TrimsCrlf(d);
    HeadIs(p);
  }

  lemma HeadIs(p: Part)
    requires StartsWith(Disposition(p), "Content-Disposition:") && Contains(Disposition(p), "form-data")
    requires Quoted(Disposition(p), " name=\"") == Some(p.name)
    requires Quoted(Disposition(p), " filename=\"") ==
             (match p.fileName
              case None => None
              case Some(f) => Some(if EndsLikeFileName(p.name) then "; filename=" else f))
    ensures ReadDisposition(Head("", ""), Disposition(p)) == HeadOf(p)
  {
    hide StartsWith, Contains, Quoted, Disposition, EndsLikeFileName;
  }

  lemma DispositionIs(p: Part)
    requires GoodHeader(p)
    ensures var d := Disposition(p);
            && FieldDisposition(p.name) <= d && d != "" && Trimmed(d)
            && '\"' !in p.name && (p.fileName.Some? ==> '\"' !in p.fileName.value)
            && (p.fileName.Some? ==> d == FieldDisposition(p.name) + "; filename=\"" + p.fileName.value + "\"")
            && (p.fileName.None? ==> d == FieldDisposition(p.name))
  {
    DispositionChars(p.name);
    if p.fileName.Some? { FileChars(p.name, p.fileName.value); }
    hide FieldDisposition, NoLine;
  }

  // ----- the lines of the layout

  function TypeLines(p: Part): seq<string> {
    match p.contentType
    case None => []
    case Some(c) => ["Content-Type: " + c + CRLF]
  }

  function HeaderLines(p: Part): seq<string> {
    [Disposition(p) + CRLF] + TypeLines(p) + [CRLF]
  }

  function HeaderText(p: Part): string { (Disposition(p) + CRLF) + TypeText(p) + CRLF }

  lemma NoBreaks()
    ensures NoLine("") && NoLine("--") && NoLine("\"") && NoLine(" form-data; name=\"")
  {
  }

  lemma NoBreakInNames()
    ensures NoLine("Content-Disposition:") && NoLine("; filename=\"") && NoLine("Content-Type: ")
  {
  }

  lemma NoLineAppend(a: string, b: string)
    requires NoLine(a) && NoLine(b)
    ensures NoLine(a + b)
  {
  }

  lemma DispositionIsLine(p: Part)
    requires GoodHeader(p)
    ensures NoLine(Disposition(p)) && |Disposition(p)| + 2 <= MAX_LINE
  {
    hide NoLine;
    NoBreaks();
    NoBreakInNames();
    NoLineAppend("Content-Disposition:", " form-data; name=\"");
    NoLineAppend("Content-Disposition:" + " form-data; name=\"", p.name);
    NoLineAppend("Content-Disposition:" + " form-data; name=\"" + p.name, "\"");
    if p.fileName.Some? {
      var d, f := FieldDisposition(p.name), p.fileName.value;
      NoLineAppend(d, "; filename=\"");
      NoLineAppend(d + "; filename=\"", f);
      NoLineAppend(d + "; filename=\"" + f, "\"");
    }
  }

  lemma TypeTextLines(p: Part, rest: string)
    requires GoodHeader(p)
    ensures Lines(TypeText(p) + rest) == TypeLines(p) + Lines(rest)
  {
    hide Lines, NoLine, GoodWord;
    match p.contentType
    case None => assert "" + rest == rest && [] + Lines(rest) == Lines(rest);
    case Some(c) =>
      NoBreakInNames();
      NoLineAppend("Content-Type: ", c);
      OneLine("Content-Type: " + c, rest);
  }

  lemma HeaderTextLines(p: Part, rest: string)
    requires GoodHeader(p)
    ensures Lines(HeaderText(p) + rest) == HeaderLines(p) + Lines(rest)
  {
    hide Lines, NoLine, GoodHeader, Disposition, TypeText, TypeLines;
    DispositionIsLine(p);
    var d := Disposition(p);
    OneLine(d, TypeText(p) + (CRLF + rest));
    TypeTextLines(p, CRLF + rest);
    NoBreaks();
    OneLine("", rest);
    assert "" + CRLF + rest == CRLF + rest && "" + CRLF == CRLF;
    assert HeaderText(p) + rest == d + CRLF + (TypeText(p) + (CRLF + rest));
    assert [d + CRLF] + (TypeLines(p) + ([CRLF] + Lines(rest))) == HeaderLines(p) + Lines(rest);
  }

  /** The lines of a part behind its delimiter, and of all that follows. */
  function Behind(b: string, parts: seq<Part>): seq<string>
    requires parts != []
    decreases |parts|, 0
  {
    HeaderLines(parts[0]) + (Lines(parts[0].content + CRLF) + FormLines(b, parts[1..]))
  }

  function FormLines(b: string, parts: seq<Part>): seq<string>
    decreases |parts|, 1
  {
    if parts == [] then [EndLine(b)] else [Delimiter(b)] + Behind(b, parts)
  }

  lemma DelimiterIsLine(b: string, rest: string)
    requires GoodBoundary(b)
    ensures Lines(Delimiter(b) + rest) == [Delimiter(b)] + Lines(rest)
    ensures Lines(EndLine(b) + rest) == [EndLine(b)] + Lines(rest)
  {
    hide Lines, NoLine;
    NoBreaks();
    NoLineAppend("--", b);
    NoLineAppend("--" + b, "--");
    OneLine("--" + b, rest);
    OneLine("--" + b + "--", rest);
  }

  lemma {:induction false} FormTextLines(b: string, parts: seq<Part>)
    requires GoodBoundary(b) && GoodParts(b, parts)
    ensures Lines(FormText(b, parts)) == FormLines(b, parts)
    decreases |parts|
  {
    hide Lines, GoodPart, GoodBoundary, Delimiter, EndLine, HeaderText, HeaderLines;
    DelimiterIsLine(b, "");
    NoLines();
    if parts == [] {
      assert EndLine(b) + "" == EndLine(b) && [EndLine(b)] + [] == [EndLine(b)];
    } else {
      var p := parts[0];
      assert GoodPart(b, p) && forall k :: 0 <= k < |parts[1..]| ==> parts[1..][k] == parts[k + 1];
      FormTextLines(b, parts[1..]);
      PartTextLines(b, p, FormText(b, parts[1..]));
    }
  }

  lemma PartTextLines(b: string, p: Part, rest: string)
    requires GoodBoundary(b) && GoodPart(b, p)
    ensures Lines(PartText(b, p) + rest) ==
            [Delimiter(b)] + (HeaderLines(p) + (Lines(p.content + CRLF) + Lines(rest)))
  {
    hide Lines, GoodBoundary, GoodHeader, Delimiter, HeaderLines, Disposition, TypeText;
    var more := p.content + CRLF + rest;
    LinesAppend(p.content + CRLF, rest);
    HeaderTextLines(p, more);
    DelimiterIsLine(b, HeaderText(p) + more);
    assert PartText(b, p) + rest == Delimiter(b) + (HeaderText(p) + more);
  }

  // ----- parsing the lines of the layout

  predicate AllDashes(b: string) { forall i :: 0 <= i < |b| ==> b[i] == '-' }

  lemma {:induction false} DashesFrom(b: string, i: nat)
    requires i < |b| && "--" + b == b + "--"
    ensures b[i] == '-'
    decreases i
  {
    var s, t := "--" + b, b + "--";
    assert s[i] == t[i];
    if i >= 2 { DashesFrom(b, i - 2); }
  }

  /** A delimiter looks like the last one exactly when the boundary consists of dashes. */
  lemma DelimiterIsLast(b: string)
    requires NoLine(b)
    ensures Contains(Delimiter(b), b + "--") <==> AllDashes(b)
  {
    var d, p := Delimiter(b), b + "--";
    var k := Find(d, p, 0);
    if k != -1 {
      var w := d[k..k + |p|];
      assert w == p && |d| == |p| + 2;
      assert forall j :: 0 <= j < |p| ==> p[j] != '\r';
      var m := if k > 0 then |b| + 2 - k else 0;
      assert w[m] == d[k + m] == p[m];
      assert k == 0 && w == "--" + b;
      forall i | 0 <= i < |b| ensures b[i] == '-' { DashesFrom(b, i); }
    }
    if AllDashes(b) {
      var w := d[0..|p|];
      assert forall j :: 0 <= j < |p| ==> w[j] == '-' && p[j] == '-';
      assert At(d, p, 0);
    }
  }

  lemma EndIsLast(b: string)
    ensures StartsWith(EndLine(b), "--" + b) && Contains(EndLine(b), b + "--") && StartsWith(Delimiter(b), "--" + b)
  {
    var e, p := EndLine(b), b + "--";
    assert e[2..2 + |p|] == p && At(e, p, 2);
    assert e[..2 + |b|] == "--" + b && Delimiter(b)[..2 + |b|] == "--" + b;
  }

  /** A line that starts with another character than 'C' is skipped in a header. */
  lemma OtherLine(line: string)
    requires line != "" && !IsSpace(line[0]) && line[0] != 'C'
    ensures Trim(line) != "" && !StartsWith(Trim(line), "Content-Disposition:")
  {
    var t := Trim(line);
    assert TrimLeft(line) == line;
    assert t == line[..|t|];
    TrimKeepsFront(line);
    NotAt(t, "Content-Disposition:", 0, 0);
  }

  /** A delimiter is skipped in front of the header of a part. */
  lemma SkipsDelimiter(b: string, lines: seq<string>, line: string)
    requires line == Delimiter(b) || line == EndLine(b)
    ensures ReadHead([line] + lines, Head("", "")) == ReadHead(lines, Head("", ""))
  {
    assert line[0] == '-';
    OtherLine(line);
    hide ReadDisposition, Trim, StartsWith;
    assert ([line] + lines)[1..] == lines;
  }

  lemma {:induction false} TrimKeepsFront(s: string)
    requires s != "" && !IsSpace(s[0])
    ensures TrimRight(s) != ""
    decreases |s|
  {
    if IsSpace(s[|s| - 1]) { TrimKeepsFront(s[..|s| - 1]); }
  }

  /** A content type is skipped. */
  lemma SkipsType(p: Part, h: Head, rest: seq<string>)
    ensures ReadHead(TypeLines(p) + rest, h) == ReadHead(rest, h)
  {
    match p.contentType
    case None => assert [] + rest == rest;
    case Some(c) =>
      var line := "Content-Type: " + c + CRLF;
      TypeIsOther(c);
      hide ReadDisposition, Trim, StartsWith;
      assert ([line] + rest)[1..] == rest;
  }

  lemma TypeIsOther(c: string)
    ensures var t := Trim("Content-Type: " + c + CRLF); t != "" && !StartsWith(t, "Content-Disposition:")
  {
    var line := "Content-Type: " + c + CRLF;
    var t := Trim(line);
    assert TrimLeft(line) == line && line[0] == 'C';
    TrimKeepsFront(line);
    assert t == line[..|t|];
    if |t| > 8 {
      assert t[8] == 'T';
      NotAt(t, "Content-Disposition:", 0, 8);
    }
  }

  lemma ReadsHeader(p: Part, rest: seq<string>)
    requires GoodHeader(p)
    ensures ReadHead(HeaderLines(p) + rest, Head("", "")) == (HeadOf(p), rest)
  {
    DispositionReads(p);
    EmptyLine();
    hide Disposition, ReadDisposition, StartsWith, Trim, HeadOf, TypeLines;
    var first, more := [Disposition(p) + CRLF], TypeLines(p) + ([CRLF] + rest);
    assert HeaderLines(p) + rest == first + more && (first + more)[1..] == more;
    SkipsType(p, HeadOf(p), [CRLF] + rest);
    assert ([CRLF] + rest)[1..] == rest;
  }

  lemma EmptyLine()
    ensures Trim(CRLF) == "" && !StartsWith("", "Content-Disposition:")
  {
    TrimAround("", "", CRLF);
    assert "" + "" + CRLF == CRLF;
  }

  /** The form with one more part; a part without a name is left out. */
  function AddPart(form: Form, p: Part): Form {
    var h := HeadOf(p);
    if h.name == "" then form
    else if h.fileName == "" then
      form.(parameters := form.parameters + [(h.name, p.content)], size := form.size + |p.content| + 2)
    else form.(parameters := form.parameters + [(h.name, h.fileName)], files := form.files + [(h.name, p.content)])
  }

  function AddParts(form: Form, parts: seq<Part>): Form
    decreases |parts|
  {
    if parts == [] then form else AddParts(AddPart(form, parts[0]), parts[1..])
  }

  lemma {:induction false} DataUpTo(ls: seq<string>, line: string, rest: seq<string>, b: string)
    requires StartsWith(line, "--" + b) && forall k :: 0 <= k < |ls| ==> !StartsWith(ls[k], "--" + b)
    ensures DataCount(ls + ([line] + rest), b) == |ls|
    decreases |ls|
  {
    hide StartsWith;
    var all := ls + ([line] + rest);
    if ls == [] {
      assert all == [line] + rest;
    } else {
      assert all[1..] == ls[1..] + ([line] + rest);
      DataUpTo(ls[1..], line, rest, b);
    }
  }

  /** The content of a part and the delimiter behind it. */
  lemma ReadsContent(b: string, p: Part, line: string, rest: seq<string>, form: Form)
    requires GoodPart(b, p) && StartsWith(line, "--" + b)
    ensures ReadPart(Lines(p.content + CRLF) + ([line] + rest), b, HeadOf(p), "", None, form) ==
            PartEnd(AddPart(form, p), rest, Contains(line, b + "--"))
  {
    hide Lines, StartsWith, Contains, HeadOf, ReadPart, DataCount;
    var ls := Lines(p.content + CRLF);
    var all := ls + ([line] + rest);
    DataUpTo(ls, line, rest, b);
    PartIsSection(all, b, HeadOf(p), form);
    JoinedLines(p.content + CRLF);
    SomeLines(p.content + CRLF);
    HeadHasName(p);
    assert all[..|ls|] == ls && all[|ls|] == line && all[|ls| + 1..] == rest;
    assert (p.content + CRLF)[..|p.content|] == p.content;
  }

  lemma HeadHasName(p: Part)
    ensures HeadOf(p).name == p.name
  {
  }

  /** One turn of the outer loop on a part. */
  lemma ReadsPart(b: string, parts: seq<Part>, form: Form, lines: seq<string>)
    requires parts != [] && GoodPart(b, parts[0]) && NoLine(b)
    requires lines == Behind(b, parts) || lines == [Delimiter(b)] + Behind(b, parts)
    ensures var f := AddPart(form, parts[0]);
            ReadParts(lines, b, form) ==
            if |parts| == 1 || AllDashes(b) then Some(f) else ReadParts(Behind(b, parts[1..]), b, f)
  {
    var p, next := parts[0], FormLines(b, parts[1..]);
    var body := Lines(p.content + CRLF) + next;
    ReadsHeader(p, body);
    SkipsDelimiter(b, Behind(b, parts), Delimiter(b));
    EndIsLast(b);
    DelimiterIsLast(b);
    hide Lines, StartsWith, Contains, ReadHead, ReadPart, AllDashes, GoodPart, AddPart, HeadOf, HeaderLines;
    assert next == [next[0]] + next[1..];
    ReadsContent(b, p, next[0], next[1..], form);
    assert lines != [] by { if lines == Behind(b, parts) { HeaderIsThere(p); } }
  }

  lemma HeaderIsThere(p: Part)
    ensures HeaderLines(p) != []
  {
  }

  lemma {:induction false} ReadsParts(b: string, parts: seq<Part>, form: Form, lines: seq<string>)
    requires parts != [] && GoodParts(b, parts) && NoLine(b)
    requires lines == Behind(b, parts) || lines == [Delimiter(b)] + Behind(b, parts)
    ensures ReadParts(lines, b, form) == Some(AddParts(form, if AllDashes(b) then parts[..1] else parts))
    decreases |parts|
  {
    hide ReadParts, Behind, GoodPart, AddPart;
    ReadsPart(b, parts, form, lines);
    var f := AddPart(form, parts[0]);
    if |parts| == 1 || AllDashes(b) {
      assert parts[..1][1..] == [] && (|parts| == 1 ==> parts[1..] == []);
    } else {
      ReadsParts(b, parts[1..], f, Behind(b, parts[1..]));
    }
  }

  /** The parts that are read: all of them, but only the first when the boundary is made of
      dashes, because every delimiter then looks like the last one. */
  function Read(b: string, parts: seq<Part>): seq<Part> {
    if AllDashes(b) && parts != [] then parts[..1] else parts
  }

  /** Parsing the layout of a form never crashes, and gives exactly the names, values, file names and
      uploaded contents, with only the line break in front of each delimiter taken off. */
  lemma ParseUndoesLayout(b: string, parts: seq<Part>)
    requires GoodBoundary(b) && GoodParts(b, parts)
    ensures ParseMultiPart(FormText(b, parts), b) == Some(AddParts(NO_FORM, Read(b, parts)))
  {
    hide Lines, FormText, Behind, ReadHead, ReadPart, GoodPart, AllDashes;
    FormTextLines(b, parts);
    if parts == [] {
      SkipsDelimiter(b, [], EndLine(b));
      assert [EndLine(b)] + [] == [EndLine(b)];
      EmptyForm(b);
    } else {
      ReadsParts(b, parts, NO_FORM, FormLines(b, parts));
    }
  }

  lemma EmptyForm(b: string)
    requires ReadHead([EndLine(b)], Head("", "")) == ReadHead([], Head("", ""))
    ensures ReadParts([EndLine(b)], b, NO_FORM) == Some(NO_FORM)
  {
  }

  // ----- what comes through

  /** Is the part a file, for whoever sends it? */
  predicate SentAsFile(p: Part) { p.fileName.Some? && p.fileName.value != "" }

  function SentParameter(p: Part): (string, string) {
    (p.name, if SentAsFile(p) then p.fileName.value else p.content)
  }

  function FilesIf(isFile: bool, p: Part): seq<(string, string)> {
    if isFile then [(p.name, p.content)] else []
  }

  /** The form that was sent. */
  function SentParameters(parts: seq<Part>): seq<(string, string)> {
    if parts == [] then [] else [SentParameter(parts[0])] + SentParameters(parts[1..])
  }

  function SentFiles(parts: seq<Part>): seq<(string, string)> {
    if parts == [] then [] else FilesIf(SentAsFile(parts[0]), parts[0]) + SentFiles(parts[1..])
  }

  /** The file name is not mixed up with the end of the name. */
  predicate Unmistaken(p: Part) {
    p.fileName.Some? ==> !EndsLikeFileName(p.name) || p.fileName.value == "; filename="
  }

  ghost predicate AllUnmistaken(parts: seq<Part>) {
    forall k :: 0 <= k < |parts| ==> Unmistaken(parts[k])
  }

  ghost predicate AllNamed(parts: seq<Part>) {
    forall k :: 0 <= k < |parts| ==> parts[k].name != ""
  }

  predicate ReadAsFile(p: Part) { HeadOf(p).fileName != "" }

  function ReadParameter(p: Part): (string, string) {
    (p.name, if ReadAsFile(p) then HeadOf(p).fileName else p.content)
  }

  function ReadParameters(parts: seq<Part>): seq<(string, string)> {
    if parts == [] then [] else [ReadParameter(parts[0])] + ReadParameters(parts[1..])
  }

  function ReadFiles(parts: seq<Part>): seq<(string, string)> {
    if parts == [] then [] else FilesIf(ReadAsFile(parts[0]), parts[0]) + ReadFiles(parts[1..])
  }

  lemma AddedPart(form: Form, p: Part)
    requires p.name != ""
    ensures AddPart(form, p).parameters == form.parameters + [ReadParameter(p)]
    ensures AddPart(form, p).files == form.files + FilesIf(ReadAsFile(p), p)
  {
    HeadHasName(p);
    hide HeadOf;
  }

  lemma {:induction false} AddedParts(form: Form, parts: seq<Part>)
    requires AllNamed(parts)
    ensures AddParts(form, parts).parameters == form.parameters + ReadParameters(parts)
    ensures AddParts(form, parts).files == form.files + ReadFiles(parts)
    decreases |parts|
  {
    hide AddPart, ReadParameter, ReadAsFile, FilesIf;
    if parts == [] {
      assert form.parameters + [] == form.parameters && form.files + [] == form.files;
    } else {
      var p, rest := parts[0], parts[1..];
      AddedPart(form, p);
      AddedParts(AddPart(form, p), rest);
      Assoc(form.parameters, [ReadParameter(p)], ReadParameters(rest));
      Assoc(form.files, FilesIf(ReadAsFile(p), p), ReadFiles(rest));
    }
  }

  /** How a part is read and how it was sent. */
  lemma UnmistakenReads(p: Part)
    ensures SentAsFile(p) ==> ReadAsFile(p)
    ensures Unmistaken(p) <==> ReadParameter(p) == SentParameter(p) && ReadAsFile(p) == SentAsFile(p)
  {
  }

  lemma {:induction false} LengthsOf(parts: seq<Part>)
    ensures |ReadParameters(parts)| == |SentParameters(parts)| == |parts|
    ensures |ReadFiles(parts)| >= |SentFiles(parts)|
    decreases |parts|
  {
    hide ReadAsFile, SentAsFile, Unmistaken, ReadParameter, SentParameter;
    if parts != [] {
      UnmistakenReads(parts[0]);
      LengthsOf(parts[1..]);
    }
  }

  /** Both lists come through exactly when no name is mistaken. */
  lemma {:induction false} SentIsRead(parts: seq<Part>)
    ensures ReadParameters(parts) == SentParameters(parts) && ReadFiles(parts) == SentFiles(parts) <==>
            AllUnmistaken(parts)
    decreases |parts|
  {
    hide *;
    if parts == [] {
      NothingSent();
    } else {
      var p, rest := parts[0], parts[1..];
      UnmistakenReads(p);
      SentIsRead(rest);
      UnmistakenCons(parts);
      FilesOfCons(parts);
      ParametersOfCons(parts);
    }
  }

  lemma NothingSent()
    ensures ReadParameters([]) == SentParameters([]) && ReadFiles([]) == SentFiles([]) && AllUnmistaken([])
  {
  }

  lemma UnmistakenCons(parts: seq<Part>)
    requires parts != []
    ensures AllUnmistaken(parts) <==> Unmistaken(parts[0]) && AllUnmistaken(parts[1..])
  {
    hide Unmistaken;
    assert forall k :: 0 < k < |parts| ==> parts[k] == parts[1..][k - 1];
  }

  lemma ConsEqual<T>(x: T, xs: seq<T>, y: T, ys: seq<T>)
    ensures [x] + xs == [y] + ys <==> x == y && xs == ys
  {
    if [x] + xs == [y] + ys {
      assert ([x] + xs)[0] == ([y] + ys)[0] && ([x] + xs)[1..] == ([y] + ys)[1..];
      assert ([x] + xs)[1..] == xs && ([y] + ys)[1..] == ys;
    }
  }

  lemma ParametersOfCons(parts: seq<Part>)
    requires parts != []
    ensures ReadParameters(parts) == SentParameters(parts) <==>
            ReadParameter(parts[0]) == SentParameter(parts[0]) &&
                ReadParameters(parts[1..]) == SentParameters(parts[1..])
  {
    hide ReadParameter, SentParameter;
    ConsEqual(ReadParameter(parts[0]), ReadParameters(parts[1..]), SentParameter(parts[0]), SentParameters(parts[1..]));
  }

  /** The file lists agree when they agree in front and behind; a file read that was none is too many. */
  lemma FilesOfCons(parts: seq<Part>)
    requires parts != []
    ensures ReadFiles(parts) == SentFiles(parts) <==>
            ReadAsFile(parts[0]) == SentAsFile(parts[0]) && ReadFiles(parts[1..]) == SentFiles(parts[1..])
  {
    hide ReadAsFile, SentAsFile, Unmistaken;
    var p, rest := parts[0], parts[1..];
    UnmistakenReads(p);
    LengthsOf(rest);
    var x := (p.name, p.content);
    ConsEqual(x, ReadFiles(rest), x, SentFiles(rest));
    assert [] + ReadFiles(rest) == ReadFiles(rest) && [] + SentFiles(rest) == SentFiles(rest);
  }

  /** Everything that was sent comes through, names, values, file names and contents, exactly when
      there is but one part or the boundary has a character that is not a dash, and no file belongs
      to a name that ends like the key of a file name. */
  lemma EverythingComesThrough(b: string, parts: seq<Part>)
    requires GoodBoundary(b) && GoodParts(b, parts) && AllNamed(parts)
    ensures var r := ParseMultiPart(FormText(b, parts), b);
            && r.Some?
            && (r.value.parameters == SentParameters(parts) && r.value.files == SentFiles(parts) <==>
                  (!AllDashes(b) || |parts| <= 1) && AllUnmistaken(parts))
  {
    hide FormText, ParseMultiPart, GoodPart, AllDashes, AllUnmistaken, ReadParameters, SentParameters, ReadFiles,
        SentFiles, AddParts;
    ParseUndoesLayout(b, parts);
    var got := Read(b, parts);
    AddedParts(NO_FORM, got);
    LengthsOf(got);
    LengthsOf(parts);
    assert [] + ReadParameters(got) == ReadParameters(got) && [] + ReadFiles(got) == ReadFiles(got);
    if AllDashes(b) && |parts| > 1 {
      assert |got| == 1;
    } else {
      assert |parts| == 1 ==> parts[..1] == parts;
      assert got == parts;
      SentIsRead(parts);
    }
  }

  // ----- bodies that crash

  /** A form that ends directly behind the header of a file. */
  function Cut(b: string, p: Part): string { Delimiter(b) + (HeaderText(p) + EndLine(b)) }

  /** For every file, such a body makes the program dereference null. */
  lemma CutBodyCrashes(b: string, p: Part)
    requires GoodBoundary(b) && GoodHeader(p) && IsFile(HeadOf(p))
    ensures ParseMultiPart(Cut(b, p), b) == None
  {
    var last := [EndLine(b)] + [];
    ReadsHeader(p, last);
    SkipsDelimiter(b, HeaderLines(p) + last, Delimiter(b));
    EndIsLast(b);
    hide HeaderLines, HeaderText, EndLine, Delimiter, Lines, GoodHeader, GoodBoundary, ReadHead, HeadOf;
    DelimiterIsLine(b, HeaderText(p) + EndLine(b));
    HeaderTextLines(p, EndLine(b));
    DelimiterIsLine(b, "");
    NoLines();
    assert EndLine(b) + "" == EndLine(b);
    NoFileExactly(last, b, HeadOf(p), "", None, NO_FORM);
    assert Lines(Cut(b, p)) == [Delimiter(b)] + (HeaderLines(p) + last);
  }

  /** A body that crashes the program. */
  lemma ABodyCrashes()
    ensures ParseMultiPart(Cut("b", Part("n", Some("f"), None, "")), "b") == None
  {
    CutBodyCrashes("b", Part("n", Some("f"), None, ""));
  }
}
