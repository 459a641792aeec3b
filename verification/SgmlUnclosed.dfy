/**
  What an unclosed tag means.  When the end tag that ends it belongs to an outer tag, the
  document is exactly the one that would have been read had the tag been written standalone.
*/
module SgmlUnclosed {
  import opened TreeShape
  import opened SgmlModel
  import opened SgmlSpans

  /** e is d with the open tag n written as a standalone tag. */
  ghost predicate WrittenStandalone(d: Doc, e: Doc, n: int) {
    && Valid(d) && Valid(e)
    && 0 < n && Anc(d.par, n, d.cur)
    && e.par == Lift(d.par, n)
    && e.info == d.info[n := d.info[n].(kind := Standalone)]
    && e.cur == (if d.cur == n then d.par[n] else d.cur)
  }

  lemma AncBoth(d: Doc, n: int, a: int, i: int)
    requires Valid(d) && 0 < n < |d.par| && 0 <= i < |d.par| && a != n
    ensures Anc(Lift(d.par, n), a, i) <==> Anc(d.par, a, i)
  {
    if Anc(d.par, a, i) { AncLift(d.par, n, a, i); }
    if Anc(Lift(d.par, n), a, i) { AncUnlift(d.par, n, a, i); }
  }

  /** Climbing from the current tag finds the same match in both documents. */
  lemma {:induction false} SameMatch(d: Doc, e: Doc, n: int, name: string, i: int)
    requires WrittenStandalone(d, e, n) && n <= i < |d.par| && Anc(d.par, n, i)
    requires MatchUp(d, name, i) != n
    ensures MatchUp(e, name, if i == n then d.par[n] else i) == MatchUp(d, name, i)
    decreases i
  {
    if i == n {
      MatchAbove(d, e, n, name, d.par[n]);
    } else if d.info[i].name != name {
      SameMatch(d, e, n, name, d.par[i]);
    }
  }

  lemma {:induction false} MatchAbove(d: Doc, e: Doc, n: int, name: string, i: int)
    requires WrittenStandalone(d, e, n) && 0 <= i < n
    ensures MatchUp(e, name, i) == MatchUp(d, name, i)
    decreases i
  {
    if d.info[i].name != name && i > 0 { MatchAbove(d, e, n, name, d.par[i]); }
  }

  lemma SameOpenBelow(d: Doc, e: Doc, n: int, t: int, m: int)
    requires WrittenStandalone(d, e, n) && m != n
    ensures OpenBelow(e, t, m) <==> OpenBelow(d, t, m)
  {
    AncBoth(d, n, m, e.cur);
    if d.cur == n && Anc(d.par, m, n) { AncOfParent(d.par, m, n); }
    if d.cur == n && Anc(d.par, m, d.par[n]) { AncTrans(d.par, m, d.par[n], n); }
  }

  /** An end tag that closes a tag below n leaves the two documents related. */
  lemma EndBelow(d: Doc, e: Doc, n: int, name: string, pos: int, len: int)
    requires WrittenStandalone(d, e, n) && MatchUp(d, name, d.cur) > n
    ensures ReadEnd(d, name, pos, len).Ended? && ReadEnd(e, name, pos, len).Ended?
    ensures WrittenStandalone(ReadEnd(d, name, pos, len).doc, ReadEnd(e, name, pos, len).doc, n)
  {
    hide HangsOnSpine, DemoteTo, MatchUp;
    var t := MatchUp(d, name, d.cur);
    SameMatch(d, e, n, name, d.cur);
    DemotedBelow(d, e, n, t);
    StillOpen(d, n, t);
    ClosedBelow(DemoteTo(d, t), DemoteTo(e, t), n, pos, len);
  }

  /** Demoting the tags below t, itself below n, commutes with writing n standalone. */
  lemma DemotedBelow(d: Doc, e: Doc, n: int, t: int)
    requires WrittenStandalone(d, e, n) && n < t && Anc(d.par, t, d.cur) && Anc(e.par, t, e.cur)
    ensures WrittenStandalone(DemoteTo(d, t), DemoteTo(e, t), n)
  {
    DemoteToIsDemoted(d, t);
    DemoteToIsDemoted(e, t);
    forall m | m != n ensures OpenBelow(e, t, m) <==> OpenBelow(d, t, m) { SameOpenBelow(d, e, n, t, m); }
    AncChain(d.par, n, t, d.cur);
    AncDemoted(d, t, n, t);
    hide HangsOnSpine, DemoteTo, Anc;
    var d1, e1 := DemoteTo(d, t), DemoteTo(e, t);
    assert e1.par == Lift(d1.par, n);
    assert e1.info == d1.info[n := d1.info[n].(kind := Standalone)];
  }

  /** So does closing the current tag. */
  lemma ClosedBelow(d: Doc, e: Doc, n: int, pos: int, len: int)
    requires WrittenStandalone(d, e, n) && n < d.cur && Anc(d.par, n, d.par[d.cur])
    ensures e.cur > 0 && WrittenStandalone(CloseTop(d, pos, len), CloseTop(e, pos, len), n)
  {
    SameKidless(d, e, n);
    hide HangsOnSpine, Anc, Kids;
    var d1, e1 := CloseTop(d, pos, len), CloseTop(e, pos, len);
    assert e1.info == d1.info[n := d1.info[n].(kind := Standalone)];
  }

  lemma SameKidless(d: Doc, e: Doc, n: int)
    requires WrittenStandalone(d, e, n) && n < d.cur
    ensures Kids(e.par, d.cur) == [] <==> Kids(d.par, d.cur) == []
  {
    hide HangsOnSpine, Anc;
    var t := d.cur;
    if d.par[n] != t { KidsSame(d.par, e.par, t); }
    assert d.par[n] < n;
  }

  lemma {:induction false} StillOpen(d: Doc, n: int, t: int)
    requires Valid(d) && 0 < n < t && Anc(d.par, n, d.cur) && Anc(d.par, t, d.cur)
    ensures var d1 := DemoteTo(d, t); d1.par[t] == d.par[t] && Anc(d1.par, n, d1.par[t])
  {
    DemoteToIsDemoted(d, t);
    AncChain(d.par, n, t, d.cur);
    AncOfParent(d.par, n, t);
    AncDemoted(d, t, n, d.par[t]);
  }

  /** At and above the matched tag nothing moves. */
  lemma {:induction false} AncDemoted(d: Doc, t: int, a: int, i: int)
    requires Valid(d) && 0 <= t && 0 <= i <= t < |d.par| && Anc(d.par, a, i)
    ensures Anc(Demoted(d, t).par, a, i)
    decreases i
  {
    if a != i { AncDemoted(d, t, a, d.par[i]); }
  }

  lemma NotOpenAbove(d: Doc, n: int)
    requires Valid(d) && 0 < n && Anc(d.par, n, d.cur)
    ensures Anc(d.par, d.par[n], d.cur)
  {
    assert Anc(d.par, d.par[n], n);
    AncTrans(d.par, d.par[n], n, d.cur);
  }

  /** An end tag that closes a tag above n makes the two documents equal. */
  lemma {:induction false} EndAbove(d: Doc, e: Doc, n: int, name: string, pos: int, len: int)
    requires WrittenStandalone(d, e, n) && 0 < MatchUp(d, name, d.cur) < n
    ensures ReadEnd(d, name, pos, len) == ReadEnd(e, name, pos, len)
  {
    hide HangsOnSpine, DemoteTo, MatchUp;
    var t := MatchUp(d, name, d.cur);
    SameMatch(d, e, n, name, d.cur);
    DemoteToIsDemoted(d, t);
    DemoteToIsDemoted(e, t);
    AncChain(d.par, t, n, d.cur);
    AncOfParent(d.par, t, n);
    NotOpenAbove(d, n);
    forall m | m != n ensures OpenBelow(e, t, m) <==> OpenBelow(d, t, m) { SameOpenBelow(d, e, n, t, m); }
    hide Anc;
    assert Demoted(d, t).par == Demoted(e, t).par;
    assert Demoted(d, t).info == Demoted(e, t).info;
  }

  /** Tag n stays open while ts is read. */
  ghost predicate StaysOpen(d: Doc, ts: seq<Token>, n: int)
    requires Valid(d)
    decreases |ts|
  {
    && Anc(d.par, n, d.cur)
    && (ts != [] ==> Step(d, ts[0]).Reading? && StaysOpen(Step(d, ts[0]).doc, ts[1..], n))
  }

  lemma AddBelow(d: Doc, e: Doc, n: int, x: Info)
    requires WrittenStandalone(d, e, n)
    ensures WrittenStandalone(AddLeaf(d, x), AddLeaf(e, x), n) && WrittenStandalone(AddOpen(d, x), AddOpen(e, x), n)
  {
    AddKeepsValid(d, x);
    AddKeepsValid(e, x);
    AncPrefix(d.par, d.cur, n, d.cur);
    hide HangsOnSpine;
    assert Lift(d.par + [d.cur], n) == e.par + [e.cur];
  }

  lemma {:induction false} StepBelow(d: Doc, e: Doc, n: int, t: Token)
    requires WrittenStandalone(d, e, n)
    requires Step(d, t).Reading? && Anc(Step(d, t).doc.par, n, Step(d, t).doc.cur)
    ensures Step(e, t).Reading? && WrittenStandalone(Step(d, t).doc, Step(e, t).doc, n)
  {
    match t
    case LeafToken(x) => AddBelow(d, e, n, x);
    case OpenToken(x) => AddBelow(d, e, n, x);
    case EndToken(name, pos, len) =>
      var m := MatchUp(d, name, d.cur);
      if m <= n {
        DemoteToIsDemoted(d, m);
        assert false;
      }
      EndBelow(d, e, n, name, pos, len);
  }

  lemma {:induction false} RunBelow(d: Doc, e: Doc, n: int, ts: seq<Token>, last: Token)
    requires WrittenStandalone(d, e, n) && StaysOpen(d, ts, n) && last.EndToken?
    requires 0 < MatchUp(Run(d, ts).doc, last.name, Run(d, ts).doc.cur) < n
    ensures Run(d, ts + [last]) == Run(e, ts + [last])
    decreases |ts|
  {
    if ts == [] {
      EndAbove(d, e, n, last.name, last.pos, last.len);
    } else {
      StepBelow(d, e, n, ts[0]);
      RunBelow(Step(d, ts[0]).doc, Step(e, ts[0]).doc, n, ts[1..], last);
      assert (ts + [last])[1..] == ts[1..] + [last];
    }
  }

  /** A tag x that is still open when an end tag closes one of the tags around it could as well
      have been written as a standalone tag: the whole document is the same. */
  lemma UnclosedIsStandalone(d: Doc, x: Info, ts: seq<Token>, last: Token)
    requires Valid(d) && x.kind == StartTag && last.EndToken?
    requires StaysOpen(Step(d, OpenToken(x)).doc, ts, |d.par|)
    requires var e := Run(Step(d, OpenToken(x)).doc, ts).doc;
             0 < MatchUp(e, last.name, e.cur) < |d.par|
    ensures Run(d, [OpenToken(x)] + (ts + [last])) == Run(d, [LeafToken(x.(kind := Standalone))] + (ts + [last]))
  {
    var n := |d.par|;
    var y := x.(kind := Standalone);
    var d1, e1 := Step(d, OpenToken(x)).doc, Step(d, LeafToken(y)).doc;
    WrittenBothWays(d, x);
    RunBelow(d1, e1, n, ts, last);
    RunCons(d, OpenToken(x), ts + [last]);
    RunCons(d, LeafToken(y), ts + [last]);
  }

  lemma WrittenBothWays(d: Doc, x: Info)
    requires Valid(d) && x.kind == StartTag
    ensures WrittenStandalone(AddOpen(d, x), AddLeaf(d, x.(kind := Standalone)), |d.par|)
  {
    AddKeepsValid(d, x);
    AddKeepsValid(d, x.(kind := Standalone));
    var d1 := AddOpen(d, x);
    assert Lift(d1.par, |d.par|) == d1.par;
  }

  lemma RunCons(d: Doc, t: Token, rest: seq<Token>)
    requires Valid(d) && Step(d, t).Reading?
    ensures Run(d, [t] + rest) == Run(Step(d, t).doc, rest)
  {
    assert ([t] + rest)[1..] == rest;
  }
}
