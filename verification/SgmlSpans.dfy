/**
  Whole runs of the stack machine: positions of the tags in the text, and the meaning of an
  unclosed tag.
*/
module SgmlSpans {
  import opened TreeShape
  import opened SgmlModel

  /** What the scanner hands to the stack machine. */
  datatype Token =
    | LeafToken(leaf: Info)
    | OpenToken(tag: Info)
    | EndToken(name: string, pos: int, len: int)
  {
    function Start(): int {
      match this case LeafToken(x) => x.startPos case OpenToken(x) => x.startPos case EndToken(_, p, _) => p
    }
    function End(): int {
      match this case LeafToken(x) => x.SpanEnd() case OpenToken(x) => x.SpanEnd() case EndToken(_, p, n) => p + n
    }
    predicate WellPlaced() {
      && 0 <= Start() < End()
      && match this
         case LeafToken(x) => Fresh(x) && x.kind !in {StartTag, StartEmpty, VirtualBeginTag, VirtualEndTag}
         case OpenToken(x) => Fresh(x) && x.kind == StartTag
         case EndToken(_, _, _) => true
    }
  }

  /** A tag as the scanner creates it: its end is its own start. */
  predicate Fresh(x: Info) {
    x.startLen > 0 && x.endPos == x.startPos && x.endLen == x.startLen
  }

  /** Tokens follow each other in the text. */
  predicate InOrder(ts: seq<Token>, pos: int) {
    ts == [] || (ts[0].WellPlaced() && pos <= ts[0].Start() && InOrder(ts[1..], ts[0].End()))
  }

  datatype Progress = Reading(doc: Doc) | Stopped(doc: Doc)

  function Step(d: Doc, t: Token): (r: Progress)
    requires Valid(d)
    ensures Valid(r.doc)
  {
    match t
    case LeafToken(x) => AddKeepsValid(d, x); Reading(AddLeaf(d, x))
    case OpenToken(x) => AddKeepsValid(d, x); Reading(AddOpen(d, x))
    case EndToken(name, pos, len) =>
      match ReadEnd(d, name, pos, len)
      case Ended(e) => Reading(e)
      case NoStartTag => Stopped(d)
  }

  function Run(d: Doc, ts: seq<Token>): (r: Progress)
    requires Valid(d)
    ensures Valid(r.doc)
    decreases |ts|
  {
    if ts == [] then Reading(d)
    else
      match Step(d, ts[0])
      case Reading(e) => Run(e, ts[1..])
      case Stopped(e) => Stopped(e)
  }

  // ----- spans

  /** Where tag j may lie relative to an earlier tag i. */
  ghost predicate Nested(d: Doc, i: int, j: int)
    requires |d.info| == |d.par| && 0 < i < j < |d.par|
  {
    && d.info[i].StartEnd() <= d.info[j].startPos
    && (Anc(d.par, i, j) && d.info[i].Closed() ==> d.info[j].SpanEnd() <= d.info[i].endPos)
    && (!Anc(d.par, i, j) ==> d.info[i].SpanEnd() <= d.info[j].startPos)
  }

  /** What holds of a single tag before position pos. */
  ghost predicate Placed(d: Doc, pos: int, i: int)
    requires |d.info| == |d.par| && 0 < i < |d.par| && d.par[i] < |d.par|
  {
    var x := d.info[i];
    && 0 <= x.startPos < x.StartEnd() <= x.SpanEnd() <= pos
    && (x.Closed() ==>
         x.StartEnd() <= x.endPos < x.SpanEnd() && x.kind in {StartTag, StartEmpty} &&
         !Anc(d.par, i, d.cur))
    && (!x.Closed() ==> Fresh(x) && x.kind != StartEmpty)
    && (x.kind == StartTag && !x.Closed() ==> Anc(d.par, i, d.cur))
    && (Anc(d.par, i, d.cur) ==> x.kind == StartTag)
    && (d.par[i] > 0 ==> d.info[d.par[i]].kind == StartTag)
    && x.kind !in {VirtualBeginTag, VirtualEndTag}
  }

  ghost predicate Laminar(d: Doc, pos: int) {
    && Valid(d)
    && 0 <= pos
    && (forall i :: 0 < i < |d.par| ==> Placed(d, pos, i))
    && (forall i, j :: 0 < i < j < |d.par| ==> Nested(d, i, j))
  }

  lemma {:induction false} LaminarAdd(d: Doc, pos: int, x: Info, open: bool)
    requires Laminar(d, pos) && Fresh(x) && pos <= x.startPos
    requires if open then x.kind == StartTag else x.kind !in {StartTag, StartEmpty, VirtualBeginTag, VirtualEndTag}
    ensures Laminar(if open then AddOpen(d, x) else AddLeaf(d, x), x.SpanEnd())
  {
    var n := |d.par|;
    var e := if open then AddOpen(d, x) else AddLeaf(d, x);
    AddKeepsValid(d, x);
    forall i, j | i <= j < n ensures Anc(e.par, i, j) <==> Anc(d.par, i, j) { AncPrefix(d.par, d.cur, i, j); }
    assert forall i :: 0 < i < n && i != n ==> (Anc(e.par, i, n) <==> Anc(e.par, i, d.cur));
    forall i | 0 < i < |e.par| ensures Placed(e, x.SpanEnd(), i) {
      if i < n {
        assert Placed(d, pos, i);
      } else if d.cur > 0 {
        assert Placed(d, pos, d.cur);
      }
    }
    forall i, j | 0 < i < j < |e.par| ensures Nested(e, i, j) {
      assert Placed(d, pos, i);
      if j < n { assert Nested(d, i, j); }
    }
  }

  lemma {:induction false} LaminarDemote(d: Doc, pos: int)
    requires Laminar(d, pos) && d.cur > 0
    ensures Laminar(Demote(d), pos)
  {
    var c := d.cur;
    var e := Demote(d);
    forall i, j | 0 < i && i != c && 0 <= j < |d.par| ensures Anc(e.par, i, j) <==> Anc(d.par, i, j) {
      if Anc(d.par, i, j) { AncLift(d.par, c, i, j); }
      if Anc(e.par, i, j) { AncUnlift(d.par, c, i, j); }
    }
    forall i | 0 < i < |e.par| ensures Placed(e, pos, i) {
      assert Placed(d, pos, i);
      if i != c && Anc(e.par, i, e.cur) { AncTrans(d.par, i, d.par[c], c); }
      if d.par[i] == c && d.par[c] > 0 { assert Placed(d, pos, c); }
    }
    forall i, j | 0 < i < j < |e.par| ensures Nested(e, i, j) {
      assert Nested(d, i, j) && Placed(d, pos, i);
      assert i == c ==> !d.info[i].Closed();
    }
  }

  lemma {:induction false} LaminarDemoteTo(d: Doc, pos: int, t: int)
    requires Laminar(d, pos) && 0 <= t && Anc(d.par, t, d.cur)
    ensures Laminar(DemoteTo(d, t), pos)
    decreases d.cur
  {
    if d.cur != t {
      LaminarDemote(d, pos);
      AncLift(d.par, d.cur, t, d.par[d.cur]);
      LaminarDemoteTo(Demote(d), pos, t);
    }
  }

  lemma {:induction false} LaminarClose(d: Doc, pos: int, at: int, len: int)
    requires Laminar(d, pos) && d.cur > 0 && pos <= at && len > 0
    ensures Laminar(CloseTop(d, at, len), at + len)
  {
    var c := d.cur;
    var e := CloseTop(d, at, len);
    assert Placed(d, pos, c);
    forall i {:trigger Placed(e, at + len, i)} | 0 < i < |e.par| ensures Placed(e, at + len, i) {
      assert Placed(d, pos, i);
      if d.par[i] == c { KidsComplete(d.par, c, i); }
      if i < c && Anc(e.par, i, e.cur) { AncTrans(d.par, i, d.par[c], c); }
    }
    forall i, j | 0 < i < j < |e.par| ensures Nested(e, i, j) {
      assert Nested(d, i, j) && Placed(d, pos, i) && Placed(d, pos, j);
      if i == c { SubtreeInterval(d.par, c, j, |d.par| - 1); }
    }
  }

  lemma {:induction false} LaminarStep(d: Doc, pos: int, t: Token)
    requires Laminar(d, pos) && t.WellPlaced() && pos <= t.Start()
    ensures Step(d, t).Reading? ==> Laminar(Step(d, t).doc, t.End())
  {
    match t
    case LeafToken(x) => LaminarAdd(d, pos, x, false);
    case OpenToken(x) => LaminarAdd(d, pos, x, true);
    case EndToken(name, at, len) =>
      var m := MatchUp(d, name, d.cur);
      if m > 0 {
        LaminarDemoteTo(d, pos, m);
        LaminarClose(DemoteTo(d, m), pos, at, len);
      }
  }

  /** Position behind the last token. */
  function EndOf(ts: seq<Token>, pos: int): int {
    if ts == [] then pos else EndOf(ts[1..], ts[0].End())
  }

  /** Spans are laminar after every token sequence: a closed tag encloses its descendants, tags
      that are not nested do not overlap and lie in document order, and only tags on the path
      to the innermost open tag are still open. */
  lemma {:induction false} RunIsLaminar(d: Doc, pos: int, ts: seq<Token>)
    requires Laminar(d, pos) && InOrder(ts, pos)
    ensures Laminar(Run(d, ts).doc, EndOf(ts, pos)) && pos <= EndOf(ts, pos)
    decreases |ts|
  {
    if ts != [] {
      LaminarStep(d, pos, ts[0]);
      match Step(d, ts[0]) {
        case Reading(e) => RunIsLaminar(e, ts[0].End(), ts[1..]);
        case Stopped(e) =>
          EndOfGrows(ts, pos);
          LaminarLater(d, pos, EndOf(ts, pos));
      }
    }
  }

  lemma {:induction false} EndOfGrows(ts: seq<Token>, pos: int)
    requires InOrder(ts, pos)
    ensures pos <= EndOf(ts, pos)
  {
    if ts != [] { EndOfGrows(ts[1..], ts[0].End()); }
  }

  lemma {:induction false} LaminarLater(d: Doc, pos: int, later: int)
    requires Laminar(d, pos) && pos <= later
    ensures Laminar(d, later)
  {
    forall i | 0 < i < |d.par| ensures Placed(d, later, i) { assert Placed(d, pos, i); }
  }

  lemma EmptyIsLaminar()
    ensures Laminar(EMPTY_DOC, 0)
  {
  }

  /** Reading starts with the document tag alone, so whatever tokens come in order, the spans of the
      document are laminar. */
  lemma DocumentIsLaminar(ts: seq<Token>)
    requires InOrder(ts, 0)
    ensures Laminar(Run(EMPTY_DOC, ts).doc, EndOf(ts, 0))
  {
    hide *;
    EmptyIsLaminar();
    RunIsLaminar(EMPTY_DOC, 0, ts);
  }
}
