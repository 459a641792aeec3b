/**
  Reading a text again and again (QSgml.cpp:570-639): how often the loop goes back, and when it goes
  back for ever.
*/
module SgmlReadings {
  import opened QtText
  import opened SgmlModel
  import opened SgmlAttributes
  import opened SgmlScan
  import opened SgmlOpenNames
  import opened SgmlOutcomes
  import opened SgmlEndless

  // ----- one reading after the other

  /** What k more readings leave open, when each of them goes back; every one starts where the one
      before has gone back to, below the tags that it left open. */
  function Again(s: string, names: seq<string>, pos: nat, k: nat): Option<seq<string>>
    decreases k
  {
    if k == 0 then Some(names)
    else
      match Way(s, names, pos)
      case WentBack(names1, pos1) => if pos1 >= 0 then Again(s, names1, pos1, k - 1) else None
      case _ => None
  }

  ghost predicate ForEver(s: string, names: seq<string>, pos: nat) {
    forall n: nat :: Runs(s, names, pos, n)
  }

  lemma {:induction false} RunsLess(s: string, names: seq<string>, pos: nat, n: nat, m: nat)
    requires n <= m && Runs(s, names, pos, m)
    ensures Runs(s, names, pos, n)
    decreases n
  {
    hide PassMove;
    if n > 0 {
      var r := PassMove(s, names, pos);
      RunsLess(s, r.names, r.pos, n - 1, m - 1);
    }
  }

  lemma MovePos(s: string, names: seq<string>, pos: nat)
    ensures var m := PassMove(s, names, pos); m.Goes? ==> m.pos >= 0
  {
    hide Unreadable, TagAt, TagEnd, Find, Found, PopTo, OpensComment, OpensEndTag, OpensDoctype, IsStandalone;
  }

  /** A reading that goes back takes some passes, and then the run is that of the next reading. */
  lemma {:induction false} ReadingRuns(s: string, names: seq<string>, pos: nat) returns (m: nat)
    requires Way(s, names, pos).WentBack?
    ensures var e := Way(s, names, pos);
            m >= 1 && e.pos >= 0 && forall n: nat :: Runs(s, names, pos, m + n) <==> Runs(s, e.names, e.pos, n)
    decreases |s| - pos
  {
    hide PassMove;
    MovePos(s, names, pos);
    var r := PassMove(s, names, pos);
    if pos < r.pos <= |s| {
      var m1 := ReadingRuns(s, r.names, r.pos);
      m := m1 + 1;
    } else {
      m := 1;
    }
  }

  /** A reading that ends in another way ends the run. */
  lemma {:induction false} ReadingStops(s: string, names: seq<string>, pos: nat)
    requires !Way(s, names, pos).WentBack?
    ensures exists n: nat :: !Runs(s, names, pos, n)
    decreases |s| - pos
  {
    hide PassMove;
    var r := PassMove(s, names, pos);
    if r.Goes? && pos < r.pos <= |s| {
      ReadingStops(s, r.names, r.pos);
      var n: nat :| !Runs(s, r.names, r.pos, n);
      assert !Runs(s, names, pos, n + 1);
    } else {
      assert !Runs(s, names, pos, 1);
    }
  }

  lemma {:induction false} ForEverReads(s: string, names: seq<string>, pos: nat, k: nat)
    requires ForEver(s, names, pos)
    ensures Again(s, names, pos, k).Some?
    decreases k
  {
    hide Way, PassMove;
    if k > 0 {
      if !Way(s, names, pos).WentBack? { ReadingStops(s, names, pos); }
      var m := ReadingRuns(s, names, pos);
      var e := Way(s, names, pos);
      forall n: nat ensures Runs(s, e.names, e.pos, n) { assert Runs(s, names, pos, m + n); }
      ForEverReads(s, e.names, e.pos, k - 1);
    }
  }

  lemma {:induction false} ReadsRun(s: string, names: seq<string>, pos: nat, k: nat)
    requires Again(s, names, pos, k).Some?
    ensures Runs(s, names, pos, k)
    decreases k
  {
    hide Way, PassMove;
    if k > 0 {
      var m := ReadingRuns(s, names, pos);
      var e := Way(s, names, pos);
      ReadsRun(s, e.names, e.pos, k - 1);
      assert Runs(s, names, pos, m + (k - 1));
      RunsLess(s, names, pos, k, m + (k - 1));
    }
  }

  /** The loop is still running after every number of passes. */
  ghost predicate Endless(s: string) {
    forall n: nat :: Passes(s, EMPTY_DOC, 0, -1, n).Going?
  }

  ghost predicate EveryReadingGoesBack(s: string, names: seq<string>, pos: nat) {
    forall k: nat :: Again(s, names, pos, k).Some?
  }

  lemma EndlessRuns(s: string)
    ensures Endless(s) <==> ForEver(s, [], 0)
  {
    hide Passes, Runs;
    assert OpenNames(EMPTY_DOC) == [];
    forall n: nat ensures Passes(s, EMPTY_DOC, 0, -1, n).Going? <==> Runs(s, [], 0, n) {
      PassesRun(s, EMPTY_DOC, 0, -1, n);
    }
  }

  /** The parser never comes to the end of a text exactly when every reading of it goes back. */
  lemma EndlessIsEveryReading(s: string)
    ensures Endless(s) <==> EveryReadingGoesBack(s, [], 0)
  {
    hide Endless, Runs, Again;
    EndlessRuns(s);
    if ForEver(s, [], 0) {
      forall k: nat ensures Again(s, [], 0, k).Some? { ForEverReads(s, [], 0, k); }
    }
    if EveryReadingGoesBack(s, [], 0) {
      forall n: nat ensures Runs(s, [], 0, n) {
        assert Again(s, [], 0, n).Some?;
        ReadsRun(s, [], 0, n);
      }
    }
  }

  // ----- a reading from character 1, below any tags

  /** The end tags without a start tag of their own in a reading, and the names that it leaves open. */
  datatype Effect = Effect(needs: seq<string>, left: seq<string>)

  /** The effect of reading from pos on, above the names `own`, provided that the needs are met. */
  function EffectOf(s: string, own: seq<string>, pos: nat): Option<Effect>
    decreases |s| - pos
  {
    match PassMove(s, own, pos)
    case Goes(names, pos1) => if pos < pos1 <= |s| then EffectOf(s, names, pos1) else Some(Effect([], names))
    case Ends =>
      var q := Found(s, own, pos);
      if q == -1 || Unreadable(s, q) then None
      else
        (match TagEnd(s, q)
         case EndAt(e) =>
           if !(pos < e <= |s|) then None
           else
             (match EffectOf(s, [], e)
              case None => None
              case Some(f) => Some(Effect([TagAt(s, q).value.0] + f.needs, f.left)))
         case _ => None)
    case _ => None
  }

  /** What is left of the names when the needs have been met one after the other. */
  function PopAll(names: seq<string>, needs: seq<string>): Option<seq<string>>
    decreases |needs|
  {
    if needs == [] then Some(names)
    else if needs[0] in names then PopAll(PopTo(names, needs[0]), needs[1..])
    else None
  }

  ghost predicate AllOrdinary(names: seq<string>) { forall i :: 0 <= i < |names| ==> Ordinary(names[i]) }

  lemma CurrentOrdinary(names: seq<string>)
    requires AllOrdinary(names)
    ensures Ordinary(Current(names))
  {
    hide Ordinary;
    DocTagIsOrdinary();
  }

  lemma FoundBelow(s: string, base: seq<string>, own: seq<string>, pos: nat)
    requires Ordinary(Current(base))
    ensures Found(s, base + own, pos) == Found(s, own, pos) && Found(s, own, pos) >= -1
  {
    hide FindStart, ToLower;
    DocTagIsOrdinary();
    CurrentBelow(base, own);
  }

  lemma {:induction false} PopThrough(base: seq<string>, names: seq<string>, name: string)
    requires name !in names
    ensures PopTo(base + names, name) == PopTo(base, name)
    decreases |names|
  {
    hide PopTo;
    if names == [] {
      assert base + names == base;
    } else {
      var front := names[..|names| - 1];
      PopStep(base + names, name);
      FrontOfSum(base, names);
      assert forall x :: x in front ==> x in names;
      PopThrough(base, front, name);
    }
  }

  /** An end tag without a start tag among the own names looks for one below. */
  lemma EndsBelow(s: string, base: seq<string>, own: seq<string>, q: nat)
    requires MarkupMove(s, own, q).Ends?
    ensures !Unreadable(s, q) && TagAt(s, q).Some?
    ensures var name, f := TagAt(s, q).value.0, TagEnd(s, q);
            MarkupMove(s, base + own, q) ==
            if name !in base then Ends else if !f.EndAt? then Cuts else Goes(PopTo(base, name), f.p)
  {
    hide LongEnough, OpensComment, IsStandalone, TagAt, Find, TagEnd, PopTo;
    PopThrough(base, own, TagAt(s, q).value.0);
  }

  lemma StopsBelow(s: string, base: seq<string>, own: seq<string>, q: nat)
    requires MarkupMove(s, own, q).Cuts? || MarkupMove(s, own, q).Breaks?
    ensures MarkupMove(s, base + own, q) == MarkupMove(s, own, q)
  {
    hide LongEnough, OpensComment, OpensDoctype, IsStandalone, TagAt, Find, TagEnd, PopTo;
  }

  ghost predicate HasEffect(e: Ending, base: seq<string>, f: Option<Effect>) {
    match f
    case None => !e.WentBack?
    case Some(x) =>
      match PopAll(base, x.needs)
      case None => !e.WentBack?
      case Some(rest) => e == WentBack(rest + x.left, 1)
  }

  lemma EffectGoes(s: string, base: seq<string>, own: seq<string>, pos: nat)
    requires PassMove(s, own, pos).Goes? && 1 <= pos <= |s| && QuotesClose(s) && AllOrdinary(base)
    ensures var m := PassMove(s, own, pos);
            PassMove(s, base + own, pos) == Goes(base + m.names, m.pos)
            && (pos < m.pos <= |s| || (m.pos == 1 && m.names == own))
  {
    hide PassMove, Ordinary, Current, QuotesClose, Unclosed, Found;
    CurrentOrdinary(base);
    MoveBelow(s, base, own, pos);
    BackMove(s, own, pos);
  }

  /** What a reading does below ordinary names is its effect. */
  lemma {:induction false} ReadingHasEffect(s: string, base: seq<string>, own: seq<string>, pos: nat)
    requires 1 <= pos <= |s| && QuotesClose(s) && AllOrdinary(base)
    ensures HasEffect(Way(s, base + own, pos), base, EffectOf(s, own, pos))
    decreases |s| - pos
  {
    hide MarkupMove, Found, Unreadable, TagAt, TagEnd, QuotesClose, AllOrdinary, PopTo;
    CurrentOrdinary(base);
    FoundBelow(s, base, own, pos);
    var m, q := PassMove(s, own, pos), Found(s, own, pos);
    if m.Goes? {
      EffectGoes(s, base, own, pos);
      if pos < m.pos <= |s| { ReadingHasEffect(s, base, m.names, m.pos); }
    } else if q >= 0 && m.Ends? {
      EndsBelow(s, base, own, q);
      var name, f := TagAt(s, q).value.0, TagEnd(s, q);
      if name in base && f.EndAt? {
        MovesOn(s, base, own, pos, q, f.p);
        OrdinaryFront(base, name);
        ReadingHasEffect(s, PopTo(base, name), [], f.p);
        NeedFirst(base, name, s, f.p);
      }
    } else if q >= 0 {
      StopsBelow(s, base, own, q);
    }
  }

  /** The step behind an end tag that is met below. */
  lemma MovesOn(s: string, base: seq<string>, own: seq<string>, pos: nat, q: nat, e: nat)
    requires 1 <= pos <= |s| && QuotesClose(s) && PassMove(s, own, pos).Ends? && q == Found(s, own, pos)
    requires PassMove(s, base + own, pos).Goes? && TagEnd(s, q) == EndAt(e) && PassMove(s, base + own, pos).pos == e
    requires Found(s, base + own, pos) == q
    ensures pos < e <= |s|
  {
    BackMove(s, base + own, pos);
    hide TagEnd, Find, QuotesClose, TagAt, PopTo, Found;
  }

  lemma NeedFirst(base: seq<string>, name: string, s: string, e: nat)
    requires name in base
    ensures PopTo(base, name) + [] == PopTo(base, name)
    ensures forall needs :: PopAll(base, [name] + needs) == PopAll(PopTo(base, name), needs)
  {
    hide PopTo;
    forall needs: seq<string> ensures PopAll(base, [name] + needs) == PopAll(PopTo(base, name), needs) {
      assert ([name] + needs)[1..] == needs;
    }
  }

  lemma OrdinaryFront(names: seq<string>, name: string)
    requires AllOrdinary(names)
    ensures AllOrdinary(PopTo(names, name))
  {
    hide Ordinary;
    PopToIsFront(names, name);
  }

  // ----- how many readings decide

  /** No '<' stands directly in front of "</script" or "</style", in whatever case: nothing can be
      opened inside a script. */
  ghost predicate NothingHidden(s: string) {
    forall k :: 1 <= k < |s| && s[k - 1] == '<' ==>
      !At(ToLower(s), "</script", k) && !At(ToLower(s), "</style", k)
  }

  /** Below the last name there is none whose content is skipped. */
  ghost predicate TopOnly(names: seq<string>) { forall i :: 0 <= i < |names| - 1 ==> Ordinary(names[i]) }

  /** The '<' that is found behind the content of a script or style tag. */
  lemma BehindContent(s: string, name: string, pos: nat)
    ensures var q, k := FindStart(s, ClosePos(s, name, pos)), Find(ToLower(s), "</" + name, pos);
            q == -1 || |s| - 2 <= q || (k >= 1 && (q == k - 1 || q == k) && At(ToLower(s), "</" + name, k)
                                        && k + 1 < |s| && s[k] == '<' && s[k + 1] == '/')
  {
    hide ToLower;
    var k := Find(ToLower(s), "</" + name, pos);
    if k > 0 { LowerMark(s, name, k); }
  }

  function ContentName(names: seq<string>): string {
    if ToLower(Current(names)) == "script" then "script" else "style"
  }

  lemma FoundBehind(s: string, names: seq<string>, pos: nat)
    requires !Ordinary(Current(names))
    ensures var q := Found(s, names, pos);
            && q == FindStart(s, ClosePos(s, ContentName(names), pos)) && (q == -1 || (0 <= q < |s| && s[q] == '<'))
  {
    hide ClosePos, FindStart, ToLower;
  }

  lemma NotHidden(s: string, names: seq<string>, k: int)
    requires NothingHidden(s) && At(ToLower(s), "</" + ContentName(names), k) && 1 <= k < |s|
    ensures s[k - 1] != '<'
  {
    hide At, ToLower;
    assert "</" + "script" == "</script" && "</" + "style" == "</style";
  }

  lemma NoStartInside(s: string, names: seq<string>, pos: nat)
    requires NothingHidden(s) && QuotesClose(s) && !Ordinary(Current(names)) && Found(s, names, pos) >= 0
    ensures var q := Found(s, names, pos); OpensStartTag(s, q) ==> Unreadable(s, q)
  {
    hide ToLower, At, Find, FindStart, ClosePos, Found, Unreadable, QuoteOpen, ContentName, NothingHidden;
    var q := Found(s, names, pos);
    FoundBehind(s, names, pos);
    BehindContent(s, ContentName(names), pos);
    if |s| - 2 <= q {
      if OpensStartTag(s, q) { LastIsUnreadable(s, q); }
    } else {
      NotHidden(s, names, Find(ToLower(s), "</" + ContentName(names), pos));
    }
  }

  lemma LastIsUnreadable(s: string, q: nat)
    requires q < |s| && |s| - 2 <= q && s[q] == '<' && !QuoteOpen(s, q) && OpensStartTag(s, q)
    ensures Unreadable(s, q)
  {
    CommentStart(s, q);
    EmptyTag(s, q);
    hide ParseTag, OpensComment, TagAt, Find;
    assert FindEnd(s, q + 2) == NoEnd;
  }

  lemma {:induction false} TameMove(s: string, names: seq<string>, pos: nat)
    requires NothingHidden(s) && QuotesClose(s) && TopOnly(names) && PassMove(s, names, pos).Goes?
    ensures TopOnly(PassMove(s, names, pos).names)
  {
    var q := Found(s, names, pos);
    if !Ordinary(Current(names)) { NoStartInside(s, names, pos); }
    hide Found, Unreadable, TagAt, TagEnd, PopTo, Find, OpensComment, Ordinary, NothingHidden, QuotesClose,
        IsStandalone;
    if OpensEndTag(s, q) { TopFront(names, TagAt(s, q).value.0); }
    if Ordinary(Current(names)) { forall name ensures TopOnly(names + [name]) { TopMore(names, name); } }
  }

  lemma TopFront(names: seq<string>, name: string)
    requires TopOnly(names)
    ensures TopOnly(PopTo(names, name))
  {
    hide Ordinary;
    PopToIsFront(names, name);
  }

  lemma TopMore(names: seq<string>, name: string)
    requires TopOnly(names) && Ordinary(Current(names))
    ensures TopOnly(names + [name])
  {
    hide Ordinary;
  }

  /** What a reading leaves open when it goes back is ordinary. */
  lemma {:induction false} LeftIsOrdinary(s: string, names: seq<string>, pos: nat)
    requires NothingHidden(s) && QuotesClose(s) && TopOnly(names) && pos <= |s| && Way(s, names, pos).WentBack?
    requires pos == 0 ==> FirstGoes(s, names)
    ensures AllOrdinary(Way(s, names, pos).names) && Way(s, names, pos).pos == 1
    decreases |s| - pos
  {
    hide PassMove, NothingHidden, QuotesClose, TopOnly, AllOrdinary, Found, Unclosed;
    var m := PassMove(s, names, pos);
    TameMove(s, names, pos);
    if pos < m.pos <= |s| {
      LeftIsOrdinary(s, m.names, m.pos);
    } else {
      BackMove(s, names, pos);
      BackFromOrdinary(s, names, pos);
      TopIsAll(names);
    }
  }

  /** The first pass moves forward. */
  ghost predicate FirstGoes(s: string, names: seq<string>) {
    var m := PassMove(s, names, 0); m.Goes? ==> 0 < m.pos <= |s|
  }

  lemma TopIsAll(names: seq<string>)
    requires TopOnly(names) && Ordinary(Current(names))
    ensures AllOrdinary(names)
  {
    hide Ordinary;
  }

  // ----- the effect on a stack of names

  lemma {:induction false} PopAllBelow(base: seq<string>, names: seq<string>, needs: seq<string>)
    requires PopAll(names, needs).Some?
    ensures PopAll(base + names, needs) == Some(base + PopAll(names, needs).value)
    decreases |needs|
  {
    hide PopTo;
    if needs != [] {
      PopBelow(base, names, needs[0]);
      PopAllBelow(base, PopTo(names, needs[0]), needs[1..]);
    }
  }

  lemma {:induction false} PopAllShorter(names: seq<string>, needs: seq<string>)
    ensures var r := PopAll(names, needs); r.Some? ==> |r.value| <= |names| - (if needs == [] then 0 else 1)
    decreases |needs|
  {
    hide PopTo;
    if needs != [] && needs[0] in names {
      PopToIsFront(names, needs[0]);
      PopAllShorter(PopTo(names, needs[0]), needs[1..]);
    }
  }

  /** Needs that the upper names do not meet reach below them. */
  lemma {:induction false} PopAllReaches(base: seq<string>, names: seq<string>, needs: seq<string>)
    requires PopAll(names, needs).None? && PopAll(base + names, needs).Some?
    ensures |PopAll(base + names, needs).value| < |base|
    decreases |needs|
  {
    hide PopTo;
    if needs[0] in names {
      PopBelow(base, names, needs[0]);
      PopAllReaches(base, PopTo(names, needs[0]), needs[1..]);
    } else {
      PopThrough(base, names, needs[0]);
      PopToIsFront(base, needs[0]);
      PopAllShorter(PopTo(base, needs[0]), needs[1..]);
    }
  }

  /** A reading from character 1 below ordinary names. */
  lemma ReadingIs(s: string, names: seq<string>)
    requires 1 <= |s| && QuotesClose(s) && NothingHidden(s) && AllOrdinary(names)
    ensures HasEffect(Way(s, names, 1), names, EffectOf(s, [], 1))
    ensures Way(s, names, 1).WentBack? ==> AllOrdinary(Way(s, names, 1).names)
  {
    hide Way, QuotesClose, NothingHidden, Ordinary, HasEffect, EffectOf;
    assert names + [] == names;
    ReadingHasEffect(s, names, [], 1);
    if Way(s, names, 1).WentBack? { LeftIsOrdinary(s, names, 1); }
  }

  ghost predicate Tame(s: string) { 1 <= |s| && QuotesClose(s) && NothingHidden(s) }

  /** When a reading can meet its needs from what it leaves itself, it goes back again and again. */
  lemma {:induction false} KeepsGoing(s: string, base: seq<string>, f: Effect, k: nat)
    requires Tame(s) && EffectOf(s, [], 1) == Some(f) && PopAll(f.left, f.needs).Some?
    requires AllOrdinary(base + f.left)
    ensures Again(s, base + f.left, 1, k).Some?
    decreases k
  {
    hide Way, EffectOf, PopAll, AllOrdinary;
    if k > 0 {
      ReadingIs(s, base + f.left);
      PopAllBelow(base, f.left, f.needs);
      KeepsGoing(s, base + PopAll(f.left, f.needs).value, f, k - 1);
    }
  }

  /** When it cannot, each reading takes something away from below, until there is nothing left. */
  lemma {:induction false} ComesToAnEnd(s: string, base: seq<string>, f: Effect, k: nat)
    requires Tame(s) && EffectOf(s, [], 1) == Some(f) && PopAll(f.left, f.needs).None?
    requires AllOrdinary(base + f.left) && |base| < k
    ensures Again(s, base + f.left, 1, k).None?
    decreases k
  {
    hide Way, EffectOf, PopAll, AllOrdinary;
    ReadingIs(s, base + f.left);
    if Way(s, base + f.left, 1).WentBack? {
      PopAllReaches(base, f.left, f.needs);
      ComesToAnEnd(s, PopAll(base + f.left, f.needs).value, f, k - 1);
    }
  }

  /** As many readings as there are names left open, and one more, decide whether it ever ends. */
  lemma ReadingsDecide(s: string, names: seq<string>)
    requires Tame(s) && AllOrdinary(names)
    ensures EveryReadingGoesBack(s, names, 1) <==> Again(s, names, 1, |names| + 1).Some?
  {
    hide Way, EffectOf, PopAll, AllOrdinary, Tame;
    ReadingIs(s, names) by { TameIs(s); }
    var e := Way(s, names, 1);
    if e.WentBack? {
      var f := EffectOf(s, [], 1).value;
      var rest := PopAll(names, f.needs).value;
      if PopAll(f.left, f.needs).Some? {
        forall k: nat ensures Again(s, names, 1, k).Some? {
          if k > 0 { KeepsGoing(s, rest, f, k - 1); }
        }
      } else {
        NeedsSomething(names, f);
        PopAllShorter(names, f.needs);
        ComesToAnEnd(s, rest, f, |names|);
      }
    }
  }

  lemma TameIs(s: string)
    requires Tame(s)
    ensures 1 <= |s| && QuotesClose(s) && NothingHidden(s)
  {
  }

  lemma NeedsSomething(names: seq<string>, f: Effect)
    requires PopAll(f.left, f.needs).None?
    ensures f.needs != []
  {
  }

  /** A text with closed double quotes, where nothing is hidden in front of the end of a script, is read
      for ever exactly when its first reading goes back, and then as many more as there are names
      left open by the first one, and one. */
  lemma EndlessIsBounded(s: string)
    requires QuotesClose(s) && NothingHidden(s)
    ensures var e := Way(s, [], 0);
            Endless(s) <==> e.WentBack? && Again(s, e.names, 1, |e.names| + 1).Some?
  {
    hide Endless, Way, QuotesClose, NothingHidden, AllOrdinary;
    EndlessIsEveryReading(s);
    var e := Way(s, [], 0);
    if s == [] {
      NothingGoes();
    } else if e.WentBack? {
      FirstMove(s);
      LeftIsOrdinary(s, [], 0);
      ReadingsDecide(s, e.names);
      FirstReading(s);
    }
    if !e.WentBack? { assert Again(s, [], 0, 1).None?; }
  }

  lemma NothingGoes()
    ensures !Way([], [], 0).WentBack?
  {
    NothingEnds();
  }

  lemma FirstReading(s: string)
    requires Way(s, [], 0).WentBack? && Way(s, [], 0).pos == 1
    ensures EveryReadingGoesBack(s, [], 0) <==> EveryReadingGoesBack(s, Way(s, [], 0).names, 1)
  {
    hide Way;
    var e := Way(s, [], 0);
    assert forall k: nat :: Again(s, [], 0, k + 1) == Again(s, e.names, 1, k);
    forall k: nat | EveryReadingGoesBack(s, e.names, 1) ensures Again(s, [], 0, k).Some? {
      if k > 0 { assert Again(s, e.names, 1, k - 1).Some?; }
    }
    forall k: nat | EveryReadingGoesBack(s, [], 0) ensures Again(s, e.names, 1, k).Some? {
      assert Again(s, [], 0, k + 1).Some?;
    }
  }
}
