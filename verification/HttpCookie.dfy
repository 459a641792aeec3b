/**
  Cookies (httpcookie.cpp): the printed form, the splitter for lists with quoted parts, and the
  parser.
*/
module HttpCookies {
  import opened QtText
  import opened Numbers

  datatype Cookie = Cookie(
    name: string, value: string, comment: string, domain: string,
    maxAge: int, path: string, secure: bool, version: int)

  const NEW_COOKIE := Cookie("", "", "", "", 0, "", false, 1)

  // ----- splitting

  function AddPart(parts: seq<string>, buffer: string): seq<string> {
    if Trim(buffer) == "" then parts else parts + [Trim(buffer)]
  }

  /** The parts of s, which semicolons outside quotes separate; quotes are dropped.  `buffer`
      holds the characters of the part begun and `parts` the parts before it. */
  function SplitFrom(s: string, inString: bool, buffer: string, parts: seq<string>): seq<string> {
    if s == "" then AddPart(parts, buffer)
    else if s[0] == '\"' then SplitFrom(s[1..], !inString, buffer, parts)
    else if s[0] == ';' && !inString then SplitFrom(s[1..], false, "", AddPart(parts, buffer))
    else SplitFrom(s[1..], inString, buffer + [s[0]], parts)
  }

  function SplitList(s: string): seq<string> { SplitFrom(s, false, "", []) }

  predicate PlainText(s: string) {
    forall i :: 0 <= i < |s| ==> s[i] != ';' && s[i] != '\"'
  }

  /** A part that splitting leaves as it is. */
  predicate PlainPart(s: string) { s != "" && Trimmed(s) && PlainText(s) }

  /** The parts behind the first, each with its separator. */
  function TailText(parts: seq<string>): string {
    if parts == [] then "" else "; " + parts[0] + TailText(parts[1..])
  }

  lemma {:induction false} TailAppend(a: seq<string>, b: seq<string>)
    ensures TailText(a + b) == TailText(a) + TailText(b)
  {
    if a == [] {
      assert a + b == b;
    } else {
      assert (a + b)[1..] == a[1..] + b;
      TailAppend(a[1..], b);
    }
  }

  lemma {:induction false} ReadsPlain(p: string, s: string, buffer: string, parts: seq<string>)
    requires PlainText(p)
    ensures SplitFrom(p + s, false, buffer, parts) == SplitFrom(s, false, buffer + p, parts)
    decreases |p|
  {
    if p == "" {
      assert p + s == s && buffer + p == buffer;
    } else {
      assert (p + s)[1..] == p[1..] + s;
      ReadsPlain(p[1..], s, buffer + [p[0]], parts);
      assert buffer + [p[0]] + p[1..] == buffer + p;
    }
  }

  lemma {:induction false} SplitsTail(buffer: string, p: string, ps: seq<string>, parts: seq<string>)
    requires AllSpace(buffer) && PlainPart(p) && (forall k :: 0 <= k < |ps| ==> PlainPart(ps[k]))
    ensures SplitFrom(p + TailText(ps), false, buffer, parts) == parts + [p] + ps
    decreases |ps|
  {
    ReadsPlain(p, TailText(ps), buffer, parts);
    assert buffer + p == buffer + p + "";
    TrimAround(buffer, p, "");
    if ps != [] {
      var rest := ps[0] + TailText(ps[1..]);
      assert TailText(ps)[1..] == " " + rest;
      assert (" " + rest)[1..] == rest;
      assert "" + [' '] == " ";
      SplitsTail(" ", ps[0], ps[1..], parts + [p]);
      assert parts + [p] + [ps[0]] + ps[1..] == parts + [p] + ps;
    } else {
      assert parts + [p] + ps == parts + [p];
    }
  }

  /** Splitting undoes joining with "; ". */
  lemma SplitUndoesJoin(p: string, ps: seq<string>)
    requires PlainPart(p) && forall k :: 0 <= k < |ps| ==> PlainPart(ps[k])
    ensures SplitList(p + TailText(ps)) == [p] + ps
  {
    hide SplitFrom, TailText, PlainPart;
    SplitsTail("", p, ps, []);
    assert [] + [p] + ps == [p] + ps;
  }

  // ----- parts with quotes in them

  /** A stretch of a part, in quotes or not. */
  datatype Stretch = Stretch(quoted: bool, text: string)

  /** A semicolon may stand in quotes only. */
  predicate GoodStretch(x: Stretch) { '\"' !in x.text && (x.quoted || ';' !in x.text) }

  predicate GoodStretches(xs: seq<Stretch>) { forall i :: 0 <= i < |xs| ==> GoodStretch(xs[i]) }

  function Quoted(xs: seq<Stretch>): string {
    if xs == [] then ""
    else (if xs[0].quoted then "\"" + xs[0].text + "\"" else xs[0].text) + Quoted(xs[1..])
  }

  function Content(xs: seq<Stretch>): string {
    if xs == [] then "" else xs[0].text + Content(xs[1..])
  }

  /** The parts with a semicolon between them. */
  function ListText(parts: seq<seq<Stretch>>): string {
    if parts == [] then ""
    else if |parts| == 1 then Quoted(parts[0])
    else Quoted(parts[0]) + ";" + ListText(parts[1..])
  }

  /** What is in the parts, without the quotes and the white space around it, as far as there is anything. */
  function Contents(parts: seq<seq<Stretch>>): seq<string> {
    if parts == [] then []
    else (if Trim(Content(parts[0])) == "" then [] else [Trim(Content(parts[0]))]) + Contents(parts[1..])
  }

  lemma {:induction false} ReadsQuoted(p: string, s: string, buffer: string, parts: seq<string>)
    requires '\"' !in p
    ensures SplitFrom(p + "\"" + s, true, buffer, parts) == SplitFrom(s, false, buffer + p, parts)
    decreases |p|
  {
    if p == "" {
      assert p + "\"" + s == "\"" + s && ("\"" + s)[1..] == s && buffer + p == buffer;
    } else {
      assert (p + "\"" + s)[1..] == p[1..] + "\"" + s;
      ReadsQuoted(p[1..], s, buffer + [p[0]], parts);
      assert buffer + [p[0]] + p[1..] == buffer + p;
    }
  }

  lemma OpensQuote(p: string, s: string, buffer: string, parts: seq<string>)
    requires '\"' !in p
    ensures SplitFrom("\"" + p + "\"" + s, false, buffer, parts) == SplitFrom(s, false, buffer + p, parts)
  {
    assert ("\"" + p + "\"" + s)[1..] == p + "\"" + s;
    ReadsQuoted(p, s, buffer, parts);
  }

  lemma {:induction false} ReadsStretches(xs: seq<Stretch>, s: string, buffer: string, parts: seq<string>)
    requires GoodStretches(xs)
    ensures SplitFrom(Quoted(xs) + s, false, buffer, parts) == SplitFrom(s, false, buffer + Content(xs), parts)
    decreases |xs|
  {
    hide SplitFrom;
    if xs == [] {
      assert Quoted(xs) + s == s && buffer + Content(xs) == buffer;
    } else {
      var x, rest := xs[0], Quoted(xs[1..]) + s;
      assert GoodStretch(x);
      if x.quoted {
        assert Quoted(xs) + s == "\"" + x.text + "\"" + rest;
        OpensQuote(x.text, rest, buffer, parts);
      } else {
        assert Quoted(xs) + s == x.text + rest;
        ReadsPlain(x.text, rest, buffer, parts);
      }
      ReadsStretches(xs[1..], s, buffer + x.text, parts);
      assert (buffer + x.text) + Content(xs[1..]) == buffer + Content(xs);
    }
  }

  lemma {:induction false} SplitsParts(parts: seq<seq<Stretch>>, done: seq<string>)
    requires parts != [] && forall i :: 0 <= i < |parts| ==> GoodStretches(parts[i])
    ensures SplitFrom(ListText(parts), false, "", done) == done + Contents(parts)
    decreases |parts|
  {
    hide Trim, Quoted, Content, GoodStretches;
    var c := Content(parts[0]);
    assert "" + c == c;
    if |parts| == 1 {
      ReadsStretches(parts[0], "", "", done);
      assert Quoted(parts[0]) + "" == Quoted(parts[0]);
      LastPart(parts, done);
    } else {
      var more := ListText(parts[1..]);
      assert ListText(parts) == Quoted(parts[0]) + (";" + more);
      ReadsStretches(parts[0], ";" + more, "", done);
      assert (";" + more)[1..] == more;
      SplitsParts(parts[1..], AddPart(done, c));
      FirstPart(parts, done);
    }
  }

  lemma LastPart(parts: seq<seq<Stretch>>, done: seq<string>)
    requires |parts| == 1
    ensures SplitFrom("", false, Content(parts[0]), done) == done + Contents(parts)
  {
    hide Trim, Content;
    assert Contents(parts[1..]) == [];
  }

  lemma FirstPart(parts: seq<seq<Stretch>>, done: seq<string>)
    requires parts != []
    ensures AddPart(done, Content(parts[0])) + Contents(parts[1..]) == done + Contents(parts)
  {
    hide Trim, Content;
  }

  /** Semicolons in quotes do not separate, the quotes are dropped, and empty parts are left out. */
  lemma SplitReadsQuotes(parts: seq<seq<Stretch>>)
    requires parts != [] && forall i :: 0 <= i < |parts| ==> GoodStretches(parts[i])
    ensures SplitList(ListText(parts)) == Contents(parts)
  {
    hide SplitFrom, ListText, Contents;
    SplitsParts(parts, []);
    assert [] + Contents(parts) == Contents(parts);
  }

  // ----- one part

  /** QByteArray::left: nothing for a negative length. */
  function ByteLeft(s: string, n: int): string {
    if n < 0 then "" else if n >= |s| then s else s[..n]
  }

  /** The test of the program asks whether the position of '=' is not 0, where -1 (no '=' at
      all) counts as true: a part without '=' is taken for a value without a name. */
  function PartName(part: string): string {
    var posi := FindChar(part, '=', 0);
    Trim(if posi != 0 then ByteLeft(part, posi) else part)
  }

  function PartValue(part: string): string {
    var posi := FindChar(part, '=', 0);
    if posi != 0 then Trim(MidAll(part, posi + 1)) else ""
  }

  function SetField(c: Cookie, part: string): Cookie {
    var name, value := PartName(part), PartValue(part);
    if name == "Comment" then c.(comment := value)
    else if name == "Domain" then c.(domain := value)
    else if name == "Max-Age" then c.(maxAge := ToInt(value))
    else if name == "Path" then c.(path := value)
    else if name == "Secure" then c.(secure := true)
    else if name == "Version" then c.(version := ToInt(value))
    else if c.name == "" then c.(name := name, value := value)
    else c
  }

  function SetFields(c: Cookie, parts: seq<string>): Cookie
    decreases |parts|
  {
    if parts == [] then c else SetFields(SetField(c, parts[0]), parts[1..])
  }

  function ParseCookie(source: string): Cookie { SetFields(NEW_COOKIE, SplitList(source)) }

  // ----- the printed form

  function Field(key: string, value: string): string { key + "=" + value }

  function OptField(key: string, value: string): seq<string> {
    if value == "" then [] else [Field(key, value)]
  }

  /** The parts behind name and value. */
  function Options(c: Cookie): seq<string> { FirstOptions(c) + LastOptions(c) }

  function CookieText(c: Cookie): string { Field(c.name, c.value) + TailText(Options(c)) }

  const RESERVED := {"Comment", "Domain", "Max-Age", "Path", "Secure", "Version"}

  predicate PlainValue(s: string) { Trimmed(s) && PlainText(s) }

  predicate Clean(c: Cookie) {
    && c.name != "" && PlainValue(c.name) && '=' !in c.name && c.name !in RESERVED
    && PlainValue(c.value) && PlainValue(c.comment) && PlainValue(c.domain) && PlainValue(c.path)
    && Int32(c.maxAge) && Int32(c.version)
  }

  // ----- reading what was printed

  lemma FieldIsPlain(key: string, value: string)
    requires key != "" && PlainValue(key) && PlainValue(value)
    ensures PlainPart(Field(key, value))
  {
  }

  lemma FieldParts(key: string, value: string)
    requires key != "" && PlainValue(key) && '=' !in key && PlainValue(value)
    ensures PartName(Field(key, value)) == key && PartValue(Field(key, value)) == value
  {
    var s := Field(key, value);
    assert s[|key|] == '=' && forall k :: 0 <= k < |key| ==> s[k] == key[k];
    assert FindChar(s, '=', 0) == |key|;
    assert s[..|key|] == key && MidAll(s, |key| + 1) == value;
    TrimNothing(key);
    TrimNothing(value);
  }

  lemma NumberIsPlain(i: int)
    ensures PlainValue(Number(i)) && Number(i) != ""
  {
    var s := Number(i);
    forall k | 0 <= k < |s| ensures s[k] == '-' || DigitValue(s[k]) >= 0 {
      if i < 0 && k > 0 { assert s[k] == Digits(-i, 10)[k - 1]; }
    }
    assert forall k :: 0 <= k < |s| ==> !IsSpace(s[k]) && s[k] != ';' && s[k] != '\"';
  }

  lemma {:induction false} SetFieldsAppend(c: Cookie, a: seq<string>, b: seq<string>)
    ensures SetFields(c, a + b) == SetFields(SetFields(c, a), b)
    decreases |a|
  {
    if a == [] {
      assert a + b == b;
    } else {
      assert (a + b)[1..] == a[1..] + b;
      SetFieldsAppend(SetField(c, a[0]), a[1..], b);
    }
  }

  lemma SetsOne(c: Cookie, part: string)
    ensures SetFields(c, [part]) == SetField(c, part)
  {
    assert [part][1..] == [];
  }

  /** What reading one optional field does. */
  lemma SetsField(c: Cookie, key: string, value: string)
    requires key != "" && PlainValue(key) && '=' !in key && PlainValue(value)
    ensures SetFields(c, [Field(key, value)]) ==
            if key == "Comment" then c.(comment := value)
            else if key == "Domain" then c.(domain := value)
            else if key == "Max-Age" then c.(maxAge := ToInt(value))
            else if key == "Path" then c.(path := value)
            else if key == "Secure" then c.(secure := true)
            else if key == "Version" then c.(version := ToInt(value))
            else if c.name == "" then c.(name := key, value := value)
            else c
    ensures PlainPart(Field(key, value))
  {
    FieldParts(key, value);
    FieldIsPlain(key, value);
    SetsOne(c, Field(key, value));
  }

  /** The part "Secure" has no '='; its name is read as empty and it is ignored. */
  lemma SecureIsIgnored(c: Cookie)
    requires c.name != ""
    ensures SetFields(c, ["Secure"]) == c
  {
    assert FindChar("Secure", '=', 0) == -1;
    SetsOne(c, "Secure");
  }

  function Age(c: Cookie): string {
    if c.maxAge != 0 then Number(c.maxAge) else ""
  }

  lemma AgeReads(c: Cookie)
    requires Int32(c.maxAge)
    ensures PlainValue(Age(c)) && (Age(c) == "" <==> c.maxAge == 0) && (Age(c) != "" ==> ToInt(Age(c)) == c.maxAge)
  {
    hide ToInt, Number, PlainValue;
    if c.maxAge == 0 { NoTextIsPlain(); }
    NumberIsPlain(c.maxAge);
    ToIntUndoesNumber(c.maxAge);
  }

  lemma NoTextIsPlain()
    ensures PlainValue("")
  {
  }

  /** Reading an optional field sets it. */
  lemma SetsOption(c: Cookie, key: string, value: string)
    requires key in {"Comment", "Domain", "Max-Age", "Path"} && PlainValue(value) && c.name != ""
    ensures SetFields(c, OptField(key, value)) ==
            if value == "" then c
            else if key == "Comment" then c.(comment := value)
            else if key == "Domain" then c.(domain := value)
            else if key == "Max-Age" then c.(maxAge := ToInt(value))
            else c.(path := value)
    ensures forall k :: 0 <= k < |OptField(key, value)| ==> PlainPart(OptField(key, value)[k])
  {
    hide PlainValue, PlainText, Trimmed, SetField, SetFields, Field, ToInt, PlainPart;
    LabelsArePlain();
    SetsNothing(c);
    SetsField(c, key, value);
  }

  function FirstOptions(c: Cookie): seq<string> {
    OptField("Comment", c.comment) + OptField("Domain", c.domain) + OptField("Max-Age", Age(c))
  }

  function LastOptions(c: Cookie): seq<string> {
    OptField("Path", c.path) + (if c.secure then ["Secure"] else []) + [Field("Version", Number(c.version))]
  }

  lemma ReadsFirst(c: Cookie, start: Cookie)
    requires Clean(c) && start == NEW_COOKIE.(name := c.name, value := c.value)
    ensures SetFields(start, FirstOptions(c)) == start.(comment := c.comment, domain := c.domain, maxAge := c.maxAge)
    ensures forall k :: 0 <= k < |FirstOptions(c)| ==> PlainPart(FirstOptions(c)[k])
  {
    hide PlainValue, SetFields, ToInt, PlainPart, OptField, Age;
    var p1, p2, p3 := OptField("Comment", c.comment), OptField("Domain", c.domain), OptField("Max-Age", Age(c));
    AgeReads(c);
    SetsOption(start, "Comment", c.comment);
    var c1 := start.(comment := c.comment);
    SetsOption(c1, "Domain", c.domain);
    SetsOption(c1.(domain := c.domain), "Max-Age", Age(c));
    SetFieldsAppend(start, p1 + p2, p3);
    SetFieldsAppend(start, p1, p2);
  }

  lemma ReadsLast(c: Cookie, start: Cookie)
    requires Clean(c) && start == c.(path := "", secure := false, version := 1)
    ensures SetFields(start, LastOptions(c)) == c.(secure := false)
    ensures forall k :: 0 <= k < |LastOptions(c)| ==> PlainPart(LastOptions(c)[k])
  {
    hide PlainValue, SetFields, Field, ToInt, PlainPart, OptField, Number;
    var p4, p6 := OptField("Path", c.path), [Field("Version", Number(c.version))];
    var p5: seq<string> := if c.secure then ["Secure"] else [];
    LabelsArePlain();
    NumberIsPlain(c.version);
    ToIntUndoesNumber(c.version);
    SetsOption(start, "Path", c.path);
    var c1 := start.(path := c.path);
    SetsNothing(c1);
    SecureIsIgnored(c1);
    SetsField(c1, "Version", Number(c.version));
    SetFieldsAppend(start, p4 + p5, p6);
    SetFieldsAppend(start, p4, p5);
  }

  lemma ReadsOptions(c: Cookie, start: Cookie)
    requires Clean(c) && start == NEW_COOKIE.(name := c.name, value := c.value)
    ensures SetFields(start, Options(c)) == c.(secure := false)
    ensures forall k :: 0 <= k < |Options(c)| ==> PlainPart(Options(c)[k])
  {
    hide SetFields, PlainPart, FirstOptions, LastOptions, Clean;
    ReadsFirst(c, start);
    var c1 := start.(comment := c.comment, domain := c.domain, maxAge := c.maxAge);
    assert c1 == c.(path := "", secure := false, version := 1);
    ReadsLast(c, c1);
    SetFieldsAppend(start, FirstOptions(c), LastOptions(c));
  }

  lemma SetsNothing(c: Cookie)
    ensures SetFields(c, []) == c
  {
  }

  lemma LabelsArePlain()
    ensures forall key :: key in RESERVED ==> PlainValue(key) && PlainPart(key) && '=' !in key
  {
  }

  /** Reading a printed cookie gives the cookie back, except that the secure flag is always lost:
      the round trip holds exactly for cookies without it. */
  lemma ParseUndoesPrint(c: Cookie)
    requires Clean(c)
    ensures ParseCookie(CookieText(c)) == c.(secure := false)
    ensures ParseCookie(CookieText(c)) == c <==> !c.secure
  {
    var start := NEW_COOKIE.(name := c.name, value := c.value);
    SetsField(NEW_COOKIE, c.name, c.value);
    SetsOne(NEW_COOKIE, Field(c.name, c.value));
    ReadsOptions(c, start);
    hide SplitList, Options, TailText, SetFields, SetField, Field;
    SplitUndoesJoin(Field(c.name, c.value), Options(c));
    SetFieldsAppend(NEW_COOKIE, [Field(c.name, c.value)], Options(c));
  }

  /** The parts of a printed cookie say whether it is secure, although reading them does not. */
  lemma SecureIsPrinted(c: Cookie)
    requires Clean(c)
    ensures "Secure" in SplitList(CookieText(c)) <==> c.secure
  {
    hide SplitList, TailText, SetFields, Clean, PlainPart, Number;
    SetsField(NEW_COOKIE, c.name, c.value) by { CleanParts(c); }
    ReadsOptions(c, NEW_COOKIE.(name := c.name, value := c.value));
    SplitUndoesJoin(Field(c.name, c.value), Options(c));
    HoldsEquals(c.name, c.value);
    hide Field;
    if c.secure {
      var i := |FirstOptions(c)| + |OptField("Path", c.path)|;
      assert Options(c)[i] == "Secure";
    } else {
      OtherOptions(c);
    }
  }

  lemma CleanParts(c: Cookie)
    requires Clean(c)
    ensures c.name != "" && PlainValue(c.name) && '=' !in c.name && PlainValue(c.value)
  {
  }

  lemma HoldsEquals(key: string, value: string)
    ensures Field(key, value) != "Secure"
  {
    assert Field(key, value)[|key|] == '=';
  }

  lemma OtherOptions(c: Cookie)
    requires !c.secure
    ensures "Secure" !in Options(c)
  {
    hide Field, Number;
    HoldsEquals("Comment", c.comment);
    HoldsEquals("Domain", c.domain);
    HoldsEquals("Max-Age", Age(c));
    HoldsEquals("Path", c.path);
    HoldsEquals("Version", Number(c.version));
  }

  // ----- the cookie object

  /** The splitting loop. */
  method SplitCSV(source: string) returns (list: seq<string>)
    ensures list == SplitList(source)
  {
    hide Trim;
    var inString := false;
    list := [];
    var buffer := "";
    var i := 0;
    while i < |source|
      invariant 0 <= i <= |source|
      invariant SplitFrom(source[i..], inString, buffer, list) == SplitList(source)
    {
      var c := source[i];
      assert source[i..][0] == c && source[i..][1..] == source[i + 1..];
      if inString == false {
        if c == '\"' {
          inString := true;
        } else if c == ';' {
          var trimmed := Trim(buffer);
          if trimmed != "" {
            list := list + [trimmed];
          }
          buffer := "";
        } else {
          buffer := buffer + [c];
        }
      } else {
        if c == '\"' {
          inString := false;
        } else {
          buffer := buffer + [c];
        }
      }
      i := i + 1;
    }
    assert source[i..] == "";
    var trimmed := Trim(buffer);
    if trimmed != "" {
      list := list + [trimmed];
    }
  }

  ghost function AddField(parts: seq<string>, key: string, text: string, present: bool): seq<string> {
    if present then parts + [Field(key, text)] else parts
  }

  lemma FirstIs(c: Cookie, parts: seq<string>)
    requires parts == AddField(AddField(AddField([], "Comment", c.comment, c.comment != ""),
                                        "Domain", c.domain, c.domain != ""),
                               "Max-Age", Number(c.maxAge), c.maxAge != 0)
    requires Number(c.maxAge) != ""
    ensures parts == FirstOptions(c)
  {
    hide Number, Field;
  }

  lemma LastIs(c: Cookie, parts: seq<string>)
    requires var p := AddField(FirstOptions(c), "Path", c.path, c.path != "");
             parts == AddField(if c.secure then p + ["Secure"] else p, "Version", Number(c.version), true)
    ensures parts == Options(c)
  {
    hide Number, Field, FirstOptions;
  }

  lemma TextIs(c: Cookie)
    ensures CookieText(c) == Field(c.name, c.value) + TailText(Options(c))
  {
  }

  class HttpCookie {
    var name: string
    var value: string
    var comment: string
    var domain: string
    var maxAge: int
    var path: string
    var secure: bool
    var version: int

    ghost function Fields(): Cookie
      reads this
    {
      Cookie(name, value, comment, domain, maxAge, path, secure, version)
    }

    constructor Parse(source: string)
      ensures Fields() == ParseCookie(source)
    {
      name, value, comment, domain, path := "", "", "", "", "";
      version, maxAge, secure := 1, 0, false;
      new;
      var list := SplitCSV(source);
      var k := 0;
      assert list[0..] == list;
      while k < |list|
        invariant 0 <= k <= |list|
        invariant SetFields(Fields(), list[k..]) == ParseCookie(source)
      {
        assert list[k..][0] == list[k] && list[k..][1..] == list[k + 1..];
        ReadPart(list[k]);
        k := k + 1;
      }
    }

    /** The body of the parsing loop. */
    method ReadPart(part: string)
      modifies this
      ensures Fields() == SetField(old(Fields()), part)
    {
      hide Trim, FindChar, MidAll, ByteLeft, ToInt;
      var posi := FindChar(part, '=', 0);
      var partName, partValue;
      if posi != 0 {
        partName := Trim(ByteLeft(part, posi));
        partValue := Trim(MidAll(part, posi + 1));
      } else {
        partName := Trim(part);
        partValue := "";
      }
      if partName == "Comment" {
        comment := partValue;
      } else if partName == "Domain" {
        domain := partValue;
      } else if partName == "Max-Age" {
        maxAge := ToInt(partValue);
      } else if partName == "Path" {
        path := partValue;
      } else if partName == "Secure" {
        secure := true;
      } else if partName == "Version" {
        version := ToInt(partValue);
      } else if name == "" {
        name := partName;
        value := partValue;
      }
    }

    method ToByteArray() returns (buffer: string)
      ensures buffer == CookieText(Fields())
    {
      hide *;
      ghost var c := Fields();
      FieldsAre();
      NumberIsPlain(maxAge);
      ghost var parts: seq<string>;
      buffer, parts := StartBuffer();
      buffer, parts := AppendField(buffer, parts, "Comment", comment, comment != "");
      buffer, parts := AppendField(buffer, parts, "Domain", domain, domain != "");
      buffer, parts := AppendField(buffer, parts, "Max-Age", Number(maxAge), maxAge != 0);
      FirstIs(c, parts);
      buffer, parts := AppendField(buffer, parts, "Path", path, path != "");
      if secure {
        AppendPart(buffer, parts, "Secure");
        buffer, parts := buffer + "; Secure", parts + ["Secure"];
      }
      buffer, parts := AppendField(buffer, parts, "Version", Number(version), true);
      LastIs(c, parts);
      TextIs(c);
    }

    lemma FieldsAre()
      ensures var c := Fields();
              && c.name == name && c.value == value && c.comment == comment && c.domain == domain
              && c.maxAge == maxAge && c.path == path && c.secure == secure && c.version == version
    {
    }

    method StartBuffer() returns (buffer: string, ghost parts: seq<string>)
      ensures parts == [] && buffer == Field(name, value) + TailText(parts)
    {
      buffer, parts := name + "=" + value, [];
    }

    lemma AppendPart(buffer: string, parts: seq<string>, part: string)
      requires buffer == Field(name, value) + TailText(parts)
      ensures buffer + ("; " + part) == Field(name, value) + TailText(parts + [part])
    {
      TailAppend(parts, [part]);
      assert [part][1..] == [];
      assert "; " + part + "" == "; " + part;
    }

    method AppendField(buffer: string, ghost parts: seq<string>, key: string, text: string, present: bool)
      returns (longer: string, ghost more: seq<string>)
      requires buffer == Field(name, value) + TailText(parts)
      ensures longer == Field(name, value) + TailText(more)
      ensures more == AddField(parts, key, text, present)
    {
      longer, more := buffer, parts;
      if present {
        AppendPart(buffer, parts, Field(key, text));
        hide TailText;
        longer := longer + ("; " + (key + "=" + text));
        more := more + [Field(key, text)];
      }
    }
  }
}
