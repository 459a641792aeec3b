/**
  When the loop of QSgml::String2Sgml ends (QSgml.cpp:570-639).  A comment that is never closed sends
  the cursor back to character 1, where reading starts again below the tags that are open by then.
*/
module SgmlEndless {
  import opened QtText
  import opened TreeShape
  import opened SgmlModel
  import opened SgmlAttributes
  import opened SgmlScan
  import opened SgmlOpenNames
  import opened SgmlOutcomes

  // ----- the loop on the names of the open tags

  datatype Ending = WasEnded | WasCut | Broke | WentBack(names: seq<string>, pos: int)

  /** How the loop leaves its first way through the text. */
  function Way(s: string, names: seq<string>, pos: nat): Ending
    decreases |s| - pos
  {
    match PassMove(s, names, pos)
    case Ends => WasEnded
    case Cuts => WasCut
    case Breaks => Broke
    case Goes(names1, pos1) => if pos < pos1 <= |s| then Way(s, names1, pos1) else WentBack(names1, pos1)
  }

  ghost predicate Shows(r: ParseResult, e: Ending) {
    match e
    case WasEnded => r.Parsed?
    case WasCut => r.Truncated?
    case Broke => r.OutOfBounds?
    case WentBack(_, _) => r.NoProgress?
  }

  lemma ReadEndKeepsRoot(d: Doc, name: string, pos: int, len: int)
    requires Rooted(d) && ReadEnd(d, name, pos, len).Ended?
    ensures Rooted(ReadEnd(d, name, pos, len).doc)
  {
    hide Preorder, Anc, DemoteTo, MatchUp;
    DemoteToIsDemoted(d, MatchUp(d, name, d.cur));
  }

  lemma RootIsInductive()
    ensures Inductive((d: Doc) => Rooted(d))
  {
    hide ReadEnd, Valid;
    forall d: Doc, x: Info | Rooted(d) ensures Rooted(AddLeaf(d, x)) && Rooted(AddOpen(d, x)) { AddKeepsRoot(d, x); }
    forall d: Doc, name: string, pos: int, len: int | Rooted(d) && ReadEnd(d, name, pos, len).Ended?
      ensures Rooted(ReadEnd(d, name, pos, len).doc)
    {
      ReadEndKeepsRoot(d, name, pos, len);
    }
  }

  lemma AddKeepsRoot(d: Doc, x: Info)
    requires Rooted(d)
    ensures Rooted(AddLeaf(d, x)) && Rooted(AddOpen(d, x))
  {
    hide Preorder, Anc;
    AddKeepsValid(d, x);
  }

  lemma StepKeepsRoot(s: string, d: Doc, pos: nat, end: int)
    requires Rooted(d)
    ensures var r := ScanStep(s, d, pos, end); r.Next? ==> Rooted(r.doc)
  {
    hide ScanStep, Inductive;
    RootIsInductive();
    StepKeeps((d: Doc) => Rooted(d), s, d, pos, end);
  }

  /** The result of the parser is read off the text and the names alone. */
  lemma {:induction false} ParseIsWay(s: string, d: Doc, pos: nat, end: int)
    requires Rooted(d)
    ensures Shows(Parse(s, d, pos, end), Way(s, OpenNames(d), pos))
    decreases |s| - pos
  {
    hide ScanStep, PassMove, OpenNames, Valid;
    PassIsMove(s, d, pos, end);
    StepKeepsRoot(s, d, pos, end);
    var r := ScanStep(s, d, pos, end);
    if r.Next? && pos < r.pos <= |s| { ParseIsWay(s, r.doc, r.pos, r.end); }
  }

  // ----- many passes

  /** The loop is still running after n passes. */
  ghost predicate Runs(s: string, names: seq<string>, pos: nat, n: nat)
    decreases n
  {
    n == 0 || var m := PassMove(s, names, pos); m.Goes? && m.pos >= 0 && Runs(s, m.names, m.pos, n - 1)
  }

  lemma {:induction false} PassesRun(s: string, d: Doc, pos: nat, end: int, n: nat)
    requires Rooted(d)
    ensures Passes(s, d, pos, end, n).Going? <==> Runs(s, OpenNames(d), pos, n)
    decreases n
  {
    hide ScanStep, PassMove, OpenNames, Valid;
    if n > 0 {
      PassIsMove(s, d, pos, end);
      StepKeepsRoot(s, d, pos, end);
      var r := ScanStep(s, d, pos, end);
      if r.Next? { PassesRun(s, r.doc, r.pos, r.end, n - 1); }
    }
  }

  // ----- reading below other tags

  /** Not a tag whose content is skipped. */
  predicate Ordinary(name: string) { ToLower(name) != "script" && ToLower(name) != "style" }

  lemma DocTagIsOrdinary()
    ensures Ordinary(DOC_INFO.name)
  {
    assert ToLower("doctag")[0] == 'd';
  }

  lemma {:induction false} PopBelow(base: seq<string>, names: seq<string>, name: string)
    requires name in names
    ensures PopTo(base + names, name) == base + PopTo(names, name)
    decreases |names|
  {
    hide PopTo;
    var n := |names| - 1;
    var front := names[..n];
    PopStep(names, name);
    PopStep(base + names, name);
    FrontOfSum(base, names);
    if names[n] != name { PopBelow(base, front, name); }
  }

  lemma FrontOfSum(base: seq<string>, names: seq<string>)
    requires names != []
    ensures var n, all := |names| - 1, base + names;
            all[..|all| - 1] == base + names[..n] && all[|all| - 1] == names[n]
    ensures forall x :: x in names && x != names[|names| - 1] ==> x in names[..|names| - 1]
  {
    assert names == names[..|names| - 1] + [names[|names| - 1]];
  }

  lemma PopStep(names: seq<string>, name: string)
    requires names != []
    ensures PopTo(names, name) ==
            if names[|names| - 1] == name then names[..|names| - 1] else PopTo(names[..|names| - 1], name)
  {
  }

  lemma MarkupBelow(s: string, base: seq<string>, names: seq<string>, q: nat)
    requires MarkupMove(s, names, q).Goes?
    ensures var m := MarkupMove(s, names, q); MarkupMove(s, base + names, q) == Goes(base + m.names, m.pos)
  {
    hide LongEnough, OpensComment, OpensDoctype, IsStandalone, TagAt, Find, TagEnd, PopTo;
    if !OpensComment(s, q) && (OpensEndTag(s, q) || OpensStartTag(s, q)) {
      var name := TagAt(s, q).value.0;
      if OpensEndTag(s, q) { PopBelow(base, names, name); }
      assert base + (names + [name]) == base + names + [name];
    }
  }

  lemma CurrentBelow(base: seq<string>, names: seq<string>)
    ensures Current(base + names) == if names == [] then Current(base) else Current(names)
  {
    if names == [] { assert base + names == base; }
  }

  /** A pass that goes on goes on in the same way below further tags. */
  lemma MoveBelow(s: string, base: seq<string>, names: seq<string>, pos: nat)
    requires PassMove(s, names, pos).Goes? && Ordinary(Current(base))
    ensures var m := PassMove(s, names, pos); PassMove(s, base + names, pos) == Goes(base + m.names, m.pos)
  {
    hide MarkupMove, FindStart, ToLower;
    DocTagIsOrdinary();
    CurrentBelow(base, names);
    MarkupBelow(s, base, names, Found(s, names, pos));
  }

  lemma CloseTagIsNoComment(s: string, name: string, pos: nat)
    ensures !Unclosed(s, FindStart(s, ClosePos(s, name, pos)))
  {
    hide ToLower;
    var q := FindStart(s, ClosePos(s, name, pos));
    var k := ClosePos(s, name, pos) + 1;
    if k > 0 {
      LowerMark(s, name, k);
      assert q == k - 1 || q == k;
    }
    if q >= 0 { CommentStart(s, q); }
  }

  lemma LowerMark(s: string, name: string, k: nat)
    requires At(ToLower(s), "</" + name, k)
    ensures k + 1 < |s| && s[k] == '<' && s[k + 1] == '/'
  {
    var p := "</" + name;
    assert p == ToLower(s)[k..k + |p|];
    assert p[0] == ToLower(s)[k] == LowerChar(s[k]) && p[1] == ToLower(s)[k + 1] == LowerChar(s[k + 1]);
  }

  /** A comment that is never closed is found below an ordinary tag only. */
  lemma BackFromOrdinary(s: string, names: seq<string>, pos: nat)
    requires Unclosed(s, Found(s, names, pos))
    ensures Ordinary(Current(names))
  {
    hide ClosePos, Find, Unclosed, FindStart, ToLower;
    CloseTagIsNoComment(s, "script", pos);
    CloseTagIsNoComment(s, "style", pos);
  }

  lemma MarkupForward(s: string, names: seq<string>, q: nat)
    requires q < |s| && s[q] == '<' && MarkupMove(s, names, q).Goes? && !QuoteOpen(s, q)
    ensures var m := MarkupMove(s, names, q); if Unclosed(s, q) then m == Goes(names, 1) else q + 2 <= m.pos < |s|
  {
    hide ParseTag, PopTo, OpensComment;
    CommentStart(s, q);
    NothingHasNoName();
    EmptyTag(s, q);
  }

  lemma EmptyTag(s: string, q: nat)
    requires q < |s| && s[q] == '<'
    ensures FindEnd(s, q) == EndAt(q + 1) ==> TagAt(s, q).None?
  {
    hide ParseTag;
    NothingHasNoName();
    assert q + 1 <= |s| ==> Trim(Mid(s, q + 1, 0)) == [];
  }

  ghost predicate QuotesClose(s: string) { forall q :: !QuoteOpen(s, q) }

  /** When double quotes are closed, a pass fails to move forward only at a comment that is not. */
  lemma BackMove(s: string, names: seq<string>, pos: nat)
    requires 1 <= pos <= |s| && QuotesClose(s)
    ensures var m := PassMove(s, names, pos);
            m.Goes? && !(pos < m.pos <= |s|) ==> m == Goes(names, 1) && Unclosed(s, Found(s, names, pos))
  {
    hide ToLower, MarkupMove, Unclosed, QuoteOpen, Find;
    var q := Found(s, names, pos);
    if q >= 0 && MarkupMove(s, names, q).Goes? { MarkupForward(s, names, q); }
  }

  /** If reading from character 1 on goes back, so does reading it again below the tags left open:
      the loop goes on for any number of passes. */
  lemma {:induction false} GoesOn(s: string, base: seq<string>, names: seq<string>, pos: nat, n: nat)
    requires 1 <= pos <= |s| && Ordinary(Current(base)) && QuotesClose(s)
    requires Way(s, names, pos).WentBack? && Way(s, [], 1).WentBack?
    ensures Runs(s, base + names, pos, n)
    decreases n
  {
    hide PassMove, Unclosed, QuotesClose, Found, Ordinary;
    if n > 0 {
      MoveBelow(s, base, names, pos);
      BackMove(s, names, pos);
      var m := PassMove(s, names, pos);
      if pos < m.pos <= |s| {
        GoesOn(s, base, m.names, m.pos, n - 1);
      } else {
        BackFromOrdinary(s, names, pos);
        CurrentBelow(base, names);
        assert base + names + [] == base + names;
        GoesOn(s, base + names, [], 1, n - 1);
      }
    }
  }

  /** When double quotes are closed, the loop never ends if reading from character 0 and reading from
      character 1 both go back. */
  lemma NeverEnds(s: string, n: nat)
    requires ParseText(s).NoProgress? && Parse(s, EMPTY_DOC, 1, 1).NoProgress? && QuotesClose(s)
    ensures Passes(s, EMPTY_DOC, 0, -1, n).Going?
  {
    hide Parse, PassMove, Runs, Passes;
    assert OpenNames(EMPTY_DOC) == [];
    ParseIsWay(s, EMPTY_DOC, 0, -1);
    ParseIsWay(s, EMPTY_DOC, 1, 1);
    if s == [] { NothingEnds(); }
    RunsFromStart(s, n);
    PassesRun(s, EMPTY_DOC, 0, -1, n);
  }

  lemma NothingEnds()
    ensures PassMove([], [], 0).Ends?
  {
    DocTagIsOrdinary();
  }

  lemma RunsFromStart(s: string, n: nat)
    requires s != [] && Way(s, [], 0).WentBack? && Way(s, [], 1).WentBack? && QuotesClose(s)
    ensures Runs(s, [], 0, n)
  {
    hide PassMove;
    DocTagIsOrdinary();
    var m := PassMove(s, [], 0);
    if n > 0 && 0 < m.pos <= |s| {
      GoesOn(s, [], m.names, m.pos, n - 1);
      assert [] + m.names == m.names;
    } else if n > 0 {
      FirstMove(s);
    }
  }

  lemma FirstMove(s: string)
    requires s != [] && QuotesClose(s)
    ensures var m := PassMove(s, [], 0); m.Goes? ==> 0 < m.pos <= |s|
  {
    hide ToLower, MarkupMove, Unclosed, QuoteOpen, Find;
    var q := Found(s, [], 0);
    if q >= 0 && MarkupMove(s, [], q).Goes? { MarkupForward(s, [], q); }
  }

  /** A text that does not begin with markup, and whose double quotes are closed, is read for ever
      exactly when the parser comes to a comment that is never closed before anything else ends the
      reading. */
  lemma NeverEndsExactly(s: string)
    requires (s == [] || s[0] != '<') && QuotesClose(s)
    ensures ParseText(s).NoProgress? <==> forall n: nat :: Passes(s, EMPTY_DOC, 0, -1, n).Going?
  {
    hide ScanStep, Way, Passes, Parse;
    if ParseText(s).NoProgress? {
      SameFromOne(s);
      forall n: nat ensures Passes(s, EMPTY_DOC, 0, -1, n).Going? { NeverEnds(s, n); }
    } else {
      ParseIsPasses(s, EMPTY_DOC, 0, -1, |s| + 1);
      assert !Passes(s, EMPTY_DOC, 0, -1, |s| + 1).Going?;
    }
  }

  lemma SameFromOne(s: string)
    requires (s == [] || s[0] != '<') && ParseText(s).NoProgress? && QuotesClose(s)
    ensures Parse(s, EMPTY_DOC, 1, 1).NoProgress?
  {
    hide Parse, MarkupMove;
    assert OpenNames(EMPTY_DOC) == [];
    ParseIsWay(s, EMPTY_DOC, 0, -1);
    ParseIsWay(s, EMPTY_DOC, 1, 1);
    DocTagIsOrdinary();
    assert PassMove(s, [], 0) == PassMove(s, [], 1);
    if s != [] { FirstMove(s); BackMove(s, [], 1); }
  }

  /** A text is read for ever when its first markup is a comment that is never closed, unless it is
      the first thing in the text. */
  lemma EndlessText(s: string)
    requires Unclosed(s, FindChar(s, '<', 0)) && FindChar(s, '<', 0) > 0
    ensures forall n: nat :: Passes(s, EMPTY_DOC, 0, -1, n).Going?
  {
    hide Passes, Find, PassMove;
    assert OpenNames(EMPTY_DOC) == [];
    FirstIsComment(s);
    forall n: nat ensures Passes(s, EMPTY_DOC, 0, -1, n).Going? {
      if n > 0 { StaysThere(s, n - 1); }
      PassesRun(s, EMPTY_DOC, 0, -1, n);
    }
  }

  lemma FirstIsComment(s: string)
    requires Unclosed(s, FindChar(s, '<', 0)) && FindChar(s, '<', 0) > 0
    ensures PassMove(s, [], 0) == PassMove(s, [], 1) == Goes([], 1)
  {
    hide Find;
    CommentStart(s, FindChar(s, '<', 0));
    DocTagIsOrdinary();
  }

  lemma {:induction false} StaysThere(s: string, n: nat)
    requires PassMove(s, [], 1) == Goes([], 1)
    ensures Runs(s, [], 1, n)
    decreases n
  {
    hide PassMove;
    if n > 0 { StaysThere(s, n - 1); }
  }

  lemma OneEndlessText()
    ensures forall n: nat :: Passes(" <!--", EMPTY_DOC, 0, -1, n).Going?
  {
    var s := " <!--";
    assert s[1..5] == "<!--";
    EndlessText(s);
  }
}
