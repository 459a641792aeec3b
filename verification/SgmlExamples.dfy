/**
  Texts that the parser does not read to the end, or reads more than once.
*/
module SgmlExamples {
  import opened QtText
  import opened SgmlModel
  import opened SgmlAttributes
  import opened SgmlPrint
  import opened SgmlTagText
  import opened SgmlScan
  import opened SgmlOpenNames
  import opened SgmlOutcomes
  import opened SgmlEndless
  import opened SgmlReadings

  lemma {:induction false} EndIs(s: string, q: nat, e: nat)
    requires q <= e < |s| && s[e] == '>'
    requires forall k :: q <= k < e ==> s[k] != '>' && s[k] != '\'' && s[k] != '\"'
    ensures FindEnd(s, q) == EndAt(e)
    decreases e - q
  {
    if q < e { EndIs(s, q + 1, e); }
  }

  lemma {:induction false} NoEndIs(s: string, q: nat)
    requires q <= |s| && forall k :: q <= k < |s| ==> s[k] != '>' && s[k] != '\'' && s[k] != '\"'
    ensures FindEnd(s, q) == NoEnd
    decreases |s| - q
  {
    if q < |s| { NoEndIs(s, q + 1); }
  }

  lemma TagA()
    ensures ParseTag("a") == Some(("a", [])) && ParseTag("/a") == Some(("a", []))
    ensures Trim("a") == "a" && Trim("/a") == "/a"
  {
    hide ParseTag, Trim;
    ParseTagUndoesPrint("a", []);
    SgmlTagText.ParseEndTag("a");
    assert "a" + AttrText([]) == "a" && "/" + "a" == "/a";
    TrimNothing("a");
  }

  /** Reading a start tag without attributes, at q. */
  lemma ReadsA(s: string, names: seq<string>, pos: nat, q: nat)
    requires At(s, "<a>", q) && FindChar(s, '<', pos) == q && Ordinary(Current(names))
    ensures PassMove(s, names, pos) == Goes(names + ["a"], q + 2)
  {
    hide ParseTag, Trim, ToLower, FindChar, FindEnd, OpensComment, Find;
    TagA();
    var p := s[q..q + 3];
    assert p[0] == s[q] && p[1] == s[q + 1] && p[2] == s[q + 2];
    EndIs(s, q, q + 2);
    assert s[q + 1..q + 2] == "a";
    CommentStart(s, q);
  }

  /** Reading an end tag at q. */
  lemma ReadsEndA(s: string, names: seq<string>, pos: nat, q: nat)
    requires At(s, "</a>", q) && FindChar(s, '<', pos) == q && Ordinary(Current(names))
    ensures PassMove(s, names, pos) == if "a" in names then Goes(PopTo(names, "a"), q + 3) else Ends
  {
    hide ParseTag, Trim, ToLower, FindChar, PopTo, FindEnd, OpensComment, Find;
    TagA();
    var p := s[q..q + 4];
    assert p[0] == s[q] && p[1] == s[q + 1] && p[2] == s[q + 2] && p[3] == s[q + 3];
    EndIs(s, q, q + 3);
    assert s[q + 1..q + 3] == "/a";
    CommentStart(s, q);
  }

  lemma AIsOrdinary()
    ensures Ordinary("a")
  {
    assert ToLower("a")[0] == 'a';
  }

  /** Going back to character 1 does not mean that the loop never ends: from there on this text
      begins with an end tag without a start tag. */
  lemma GoesBackAndEnds()
    ensures var s := "<a></a> x <!--"; ParseText(s).NoProgress? && Passes(s, EMPTY_DOC, 0, -1, 4).Over?
  {
    var s := "<a></a> x <!--";
    hide PassMove, Parse, Ordinary, PopTo, FindChar, Unclosed, Passes;
    AIsOrdinary();
    DocTagIsOrdinary();
    Starts();
    Slice3(s, 0);
    Slice4(s, 3);
    ReadsA(s, [], 0, 0);
    ReadsEndA(s, ["a"], 2, 3);
    ReadsEndA(s, [], 1, 3);
    CommentBack(s, 6, 10);
    assert [] + ["a"] == ["a"];
    assert Way(s, [], 6) == WentBack([], 1);
    assert Way(s, ["a"], 2) == WentBack([], 1);
    assert OpenNames(EMPTY_DOC) == [];
    ParseIsWay(s, EMPTY_DOC, 0, -1);
    assert !Runs(s, [], 6, 2);
    assert !Runs(s, ["a"], 2, 3);
    PassesRun(s, EMPTY_DOC, 0, -1, 4);
  }

  lemma Starts()
    ensures var s := "<a></a> x <!--";
            && FindChar(s, '<', 0) == 0 && FindChar(s, '<', 2) == FindChar(s, '<', 1) == 3 && FindChar(s, '<', 6) == 10
            && Unclosed(s, 10) && PopTo(["a"], "a") == []
  {
    Slice4("<a></a> x <!--", 10);
  }

  lemma CommentBack(s: string, pos: nat, q: nat)
    requires FindChar(s, '<', pos) == q && Unclosed(s, q)
    ensures PassMove(s, [], pos) == Goes([], 1)
  {
    hide ToLower, Find, FindChar;
    DocTagIsOrdinary();
    CommentStart(s, q);
  }

  lemma {:induction false} NoQuoteFound(s: string, i: nat)
    requires forall k :: 0 <= k < |s| ==> s[k] != '\"'
    ensures FindEnd(s, i) != OpenQuote('\"')
    decreases |s| - i
  {
    if i < |s| {
      var c := FindChar(s, s[i], i + 1);
      if c != -1 { NoQuoteFound(s, c + 1); }
      NoQuoteFound(s, i + 1);
    }
  }

  lemma NoQuotesClose(s: string)
    requires forall k :: 0 <= k < |s| ==> s[k] != '\"'
    ensures QuotesClose(s)
  {
    hide FindEnd;
    forall q ensures !QuoteOpen(s, q) { if q >= 0 { NoQuoteFound(s, q); } }
  }

  lemma NoTwoStarts(s: string)
    requires forall k :: 1 <= k < |s| && s[k - 1] == '<' ==> s[k] != '<'
    ensures NothingHidden(s)
  {
    hide ToLower;
    forall k | 1 <= k < |s| && s[k - 1] == '<' ensures !At(ToLower(s), "</script", k) && !At(ToLower(s), "</style", k) {
      if At(ToLower(s), "</" + "script", k) { LowerMark(s, "script", k); }
      if At(ToLower(s), "</" + "style", k) { LowerMark(s, "style", k); }
    }
  }

  /** The marks in the next text. */
  lemma Marks()
    ensures var s := "<a></a><a> <!--";
            && At(s, "<a>", 0) && At(s, "</a>", 3) && At(s, "<a>", 7) && Unclosed(s, 11)
            && FindChar(s, '<', 0) == 0 && FindChar(s, '<', 1) == FindChar(s, '<', 2) == 3
            && FindChar(s, '<', 6) == 7 && FindChar(s, '<', 9) == 11 && PopTo(["a"], "a") == []
  {
    var s := "<a></a><a> <!--";
    Slice3(s, 0);
    Slice3(s, 7);
    Slice4(s, 3);
    Slice4(s, 11);
  }

  lemma Slice3(s: string, i: nat)
    requires i + 3 <= |s|
    ensures s[i..i + 3] == [s[i], s[i + 1], s[i + 2]]
  {
  }

  lemma Slice4(s: string, i: nat)
    requires i + 4 <= |s|
    ensures s[i..i + 4] == [s[i], s[i + 1], s[i + 2], s[i + 3]]
  {
  }

  lemma BackBelowA(s: string, pos: nat, q: nat)
    requires FindChar(s, '<', pos) == q && Unclosed(s, q)
    ensures PassMove(s, ["a"], pos) == Goes(["a"], 1)
  {
    hide ToLower, Find, FindChar;
    AIsOrdinary();
    CommentStart(s, q);
  }

  /** A text that begins with markup and is read for ever: every reading from character 1 closes the tag
      that the one before has left open, and leaves one open itself. */
  lemma EndlessBehindATag()
    ensures Endless("<a></a><a> <!--")
  {
    hide *;
    var s := "<a></a><a> <!--";
    Moves();
    Ways(s);
    NoneIn(s);
    NoQuotesClose(s);
    NoTwoStarts(s);
    EndlessIsBounded(s);
  }

  lemma NoneIn(s: string)
    requires s == "<a></a><a> <!--"
    ensures forall k :: 0 <= k < |s| ==> s[k] != '\"'
    ensures forall k :: 1 <= k < |s| && s[k - 1] == '<' ==> s[k] != '<'
  {
  }

  lemma Moves()
    ensures var s := "<a></a><a> <!--";
            && PassMove(s, [], 0) == Goes(["a"], 2) && PassMove(s, ["a"], 2) == PassMove(s, ["a"], 1) == Goes([], 6)
            && PassMove(s, [], 6) == Goes(["a"], 9) && PassMove(s, ["a"], 9) == Goes(["a"], 1)
  {
    hide PassMove, Ordinary, PopTo, FindChar, Unclosed, At;
    var s := "<a></a><a> <!--";
    AIsOrdinary();
    DocTagIsOrdinary();
    Marks();
    ReadsA(s, [], 0, 0);
    ReadsEndA(s, ["a"], 2, 3);
    ReadsEndA(s, ["a"], 1, 3);
    ReadsA(s, [], 6, 7);
    BackBelowA(s, 9, 11);
    assert [] + ["a"] == ["a"];
  }

  lemma Ways(s: string)
    requires |s| == 15
    requires PassMove(s, [], 0) == Goes(["a"], 2) && PassMove(s, ["a"], 2) == PassMove(s, ["a"], 1) == Goes([], 6)
    requires PassMove(s, [], 6) == Goes(["a"], 9) && PassMove(s, ["a"], 9) == Goes(["a"], 1)
    ensures Way(s, [], 0) == WentBack(["a"], 1) && Again(s, ["a"], 1, |["a"]| + 1).Some?
  {
    hide PassMove;
    assert Way(s, ["a"], 9) == WentBack(["a"], 1);
    assert Way(s, [], 6) == WentBack(["a"], 1);
    assert Way(s, ["a"], 1) == WentBack(["a"], 1);
    assert Way(s, ["a"], 2) == WentBack(["a"], 1);
    assert Again(s, ["a"], 1, 1).Some?;
  }

  /** Markup that is cut off: a doctype, an end tag, a start tag. */
  lemma DoctypeCutOff()
    ensures ParseText("<!a").Truncated?
  {
    hide Parse, ToLower;
    DocTagIsOrdinary();
    NoEndIs("<!a", 0);
    CommentStart("<!a", 0);
    assert Way("<!a", [], 0) == WasCut;
    assert OpenNames(EMPTY_DOC) == [];
    ParseIsWay("<!a", EMPTY_DOC, 0, -1);
  }

  lemma EndTagCutOff()
    ensures ParseText("<a></a").Truncated?
  {
    hide Parse, PassMove, Ordinary;
    var s := "<a></a";
    DocTagIsOrdinary();
    assert s[0..3] == "<a>" && FindChar(s, '<', 0) == 0;
    ReadsA(s, [], 0, 0);
    EndTagIsCut();
    assert [] + ["a"] == ["a"];
    assert Way(s, ["a"], 2) == WasCut;
    assert OpenNames(EMPTY_DOC) == [];
    ParseIsWay(s, EMPTY_DOC, 0, -1);
  }

  lemma EndTagIsCut()
    ensures PassMove("<a></a", ["a"], 2) == Cuts
  {
    hide ParseTag, Trim, ToLower;
    var s := "<a></a";
    AIsOrdinary();
    TagA();
    NoEndIs(s, 3);
    CommentStart(s, 3);
    assert s[4..6] == "/a" && Mid(s, 4, -5) == s[4..];
  }

  lemma StartTagCutOff()
    ensures ParseText("<a").OutOfBounds?
  {
  }
}
