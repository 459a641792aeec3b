/**
  The table of search results (RutorSearchProvider.cpp:97-281): a breadth-first walk over the rows,
  with a counter of cells that has to come back to 0 at the end of every row.
*/
module RutorTable {
  import opened Sequences
  import opened QtText

  datatype Tag = Tag(name: string, attributes: map<string, string>, inner: string, children: seq<Tag>)

  datatype SearchResult = SearchResult(
    fileUrl: string, name: string, descUrl: string, size: real, seeders: int, leechers: int, engine: string)

  const NEW_RESULT := SearchResult("", "", "", 0.0, 0, 0, "")

  const ENGINE := "Rutor"
  const SITE := "http://rutor.org/"

  /** How the texts of the cells are read: the test for a size and its number, and the counts. */
  datatype Reader = Reader(
    sizeLike: string -> bool, sizeOf: string -> Option<real>, seedersOf: string -> int, leechersOf: string -> int)

  /** The walk between two tags.  Broken: the program has dereferenced null. */
  datatype State = State(tdCounter: nat, current: Option<SearchResult>, results: seq<SearchResult>) | Broken

  const START := State(0, None, [])

  predicate Named(t: Tag, name: string) { ToLower(t.name) == name }

  function Href(t: Tag): string { if "href" in t.attributes then t.attributes["href"] else "" }

  predicate HasClass(t: Tag, value: string) { "class" in t.attributes && t.attributes["class"] == value }

  // ----- one cell

  predicate IsDownload(c: Tag) { Named(c, "a") && StartsWith(Href(c), "http://d.rutor.org") }

  predicate IsDescription(c: Tag) { Named(c, "a") && !IsDownload(c) && StartsWith(Href(c), "/torrent") }

  /** Case 1: a download link starts a result, a link to the description names it. */
  function OneLink(c: Tag, current: Option<SearchResult>): Option<Option<SearchResult>> {
    if IsDownload(c) then Some(Some(NEW_RESULT.(fileUrl := Href(c))))
    else if IsDescription(c) then
      match current
      case None => None
      case Some(r) => Some(Some(r.(name := c.inner, descUrl := SITE + Href(c))))
    else Some(current)
  }

  function Links(cs: seq<Tag>, current: Option<SearchResult>): Option<Option<SearchResult>> {
    if cs == [] then Some(current)
    else
      match OneLink(cs[0], current)
      case None => None
      case Some(next) => Links(cs[1..], next)
  }

  /** Case 4: the counts. */
  function OneCount(rd: Reader, c: Tag, r: SearchResult): SearchResult {
    if !Named(c, "span") then r
    else if HasClass(c, "green") then r.(seeders := rd.seedersOf(c.inner))
    else if HasClass(c, "red") then r.(leechers := rd.leechersOf(c.inner))
    else r
  }

  function Counts(rd: Reader, cs: seq<Tag>, r: SearchResult): SearchResult {
    if cs == [] then r else Counts(rd, cs[1..], OneCount(rd, cs[0], r))
  }

  function NextCell(n: nat): nat { if n + 1 >= 5 then 0 else n + 1 }

  /** A cell; a size in cell 2 counts for two. */
  function ReadCell(rd: Reader, cell: Tag, st: State): State
    requires st.State?
  {
    var n := st.tdCounter;
    if n == 1 then
      (match Links(cell.children, st.current)
       case None => Broken
       case Some(current) => State(NextCell(n), current, st.results))
    else if n == 2 || n == 3 then
      if rd.sizeLike(cell.inner) && st.current.Some? then
        match rd.sizeOf(cell.inner)
        case Some(size) =>
          State(NextCell(if n == 2 then 3 else n), Some(st.current.value.(size := size)), st.results)
        case None => State(NextCell(n), Some(st.current.value.(size := -1.0)), st.results)
      else State(NextCell(n), st.current, st.results)
    else if n == 4 then
      match st.current
      case None => State(NextCell(n), None, st.results)
      case Some(r) => State(NextCell(n), None, st.results + [Counts(rd, cell.children, r).(engine := ENGINE)])
    else State(NextCell(n), st.current, st.results)
  }

  function ReadTag(rd: Reader, t: Tag, st: State): State {
    if st.Broken? || !Named(t, "td") then st else ReadCell(rd, t, st)
  }

  function ReadTags(rd: Reader, ts: seq<Tag>, st: State): State {
    if ts == [] then st else ReadTags(rd, ts[1..], ReadTag(rd, ts[0], st))
  }

  // ----- the walk

  function Size(ts: seq<Tag>): nat
    decreases ts
  {
    if ts == [] then 0 else 1 + Size(ts[0].children) + Size(ts[1..])
  }

  lemma {:induction false} SizeAppend(a: seq<Tag>, b: seq<Tag>)
    ensures Size(a + b) == Size(a) + Size(b)
    decreases |a|
  {
    if a == [] {
      assert a + b == b;
    } else {
      assert (a + b)[1..] == a[1..] + b;
      SizeAppend(a[1..], b);
    }
  }

  lemma QueueShrinks(queue: seq<Tag>)
    requires queue != []
    ensures Size(queue[1..] + queue[0].children) < Size(queue)
  {
    SizeAppend(queue[1..], queue[0].children);
  }

  /** The tags in the order in which the queue gives them out. */
  function Visit(queue: seq<Tag>): seq<Tag>
    decreases Size(queue)
  {
    if queue == [] then []
    else
      QueueShrinks(queue);
      [queue[0]] + Visit(queue[1..] + queue[0].children)
  }

  function Kids(ts: seq<Tag>): seq<Tag> {
    if ts == [] then [] else ts[0].children + Kids(ts[1..])
  }

  lemma VisitStep(x: Tag, queue: seq<Tag>)
    ensures Visit([x] + queue) == [x] + Visit(queue + x.children)
  {
    assert ([x] + queue)[1..] == queue;
  }

  /** One level comes out after the other. */
  lemma {:induction false} VisitLevel(a: seq<Tag>, b: seq<Tag>)
    ensures Visit(a + b) == a + Visit(b + Kids(a))
    decreases |a|
  {
    hide Visit;
    if a == [] {
      assert a + b == b && b + Kids(a) == b;
    } else {
      var x, rest := a[0], a[1..];
      assert a + b == [x] + (rest + b) && (rest + b) + x.children == rest + (b + x.children);
      VisitStep(x, rest + b);
      VisitLevel(rest, b + x.children);
      assert (b + x.children) + Kids(rest) == b + Kids(a);
      assert [x] + (rest + Visit(b + Kids(a))) == a + Visit(b + Kids(a));
    }
  }

  /** All tags at and below ts, in document order. */
  function Below(ts: seq<Tag>): seq<Tag>
    decreases ts
  {
    if ts == [] then [] else [ts[0]] + Below(ts[0].children) + Below(ts[1..])
  }

  lemma {:induction false} BelowAppend(a: seq<Tag>, b: seq<Tag>)
    ensures Below(a + b) == Below(a) + Below(b)
    decreases |a|
  {
    if a == [] {
      assert a + b == b;
    } else {
      assert (a + b)[1..] == a[1..] + b;
      BelowAppend(a[1..], b);
      assert [a[0]] + Below(a[0].children) + (Below(a[1..]) + Below(b)) ==
             [a[0]] + Below(a[0].children) + Below(a[1..]) + Below(b);
    }
  }

  /** The queue gives out every tag of the trees exactly once. */
  lemma {:induction false} VisitsEachOnce(queue: seq<Tag>)
    ensures multiset(Visit(queue)) == multiset(Below(queue)) && |Visit(queue)| == Size(queue)
    decreases Size(queue)
  {
    if queue != [] {
      var x, rest := queue[0], queue[1..];
      QueueShrinks(queue);
      VisitsEachOnce(rest + x.children);
      BelowAppend(rest, x.children);
      SizeAppend(rest, x.children);
      assert Visit(queue) == [x] + Visit(rest + x.children);
      assert Below(queue) == [x] + Below(x.children) + Below(rest);
    }
  }

  method ParseTableBody(rd: Reader, tableBody: seq<Tag>) returns (st: State)
    ensures st == ReadTags(rd, Visit(tableBody), START)
  {
    hide ReadTag, Size;
    var traverseQueue := tableBody;
    st := START;
    while traverseQueue != []
      invariant ReadTags(rd, Visit(traverseQueue), st) == ReadTags(rd, Visit(tableBody), START)
      decreases Size(traverseQueue)
    {
      QueueShrinks(traverseQueue);
      var pCurrent := traverseQueue[0];
      ghost var visited := Visit(traverseQueue);
      traverseQueue := traverseQueue[1..] + pCurrent.children;
      assert visited[0] == pCurrent && visited[1..] == Visit(traverseQueue);
      if Named(pCurrent, "td") {
        st := Cell(rd, pCurrent, st);
      } else {
        NoCell(rd, pCurrent, st);
      }
    }
  }

  lemma NoCell(rd: Reader, t: Tag, st: State)
    requires !Named(t, "td")
    ensures ReadTag(rd, t, st) == st
  {
  }

  /** The switch on the counter. */
  method Cell(rd: Reader, cell: Tag, st: State) returns (r: State)
    requires Named(cell, "td")
    ensures r == ReadTag(rd, cell, st)
  {
    hide Links, Counts;
    if st.Broken? {
      return st;
    }
    var tdCounter, current, results := st.tdCounter, st.current, st.results;
    if tdCounter == 1 {
      var links := ReadLinks(cell.children, current);
      if links == None {
        return Broken;
      }
      current := links.value;
    } else if tdCounter == 2 || tdCounter == 3 {
      if rd.sizeLike(cell.inner) {
        var size := rd.sizeOf(cell.inner);
        if size.Some? && current.Some? {
          current := Some(current.value.(size := size.value));
          if tdCounter == 2 {
            tdCounter := tdCounter + 1;
          }
        } else if current.Some? {
          current := Some(current.value.(size := -1.0));
        }
      }
    } else if tdCounter == 4 {
      if current.Some? {
        var counted := ReadCounts(rd, cell.children, current.value);
        results := results + [counted.(engine := ENGINE)];
        current := None;
      }
    }
    tdCounter := tdCounter + 1;
    if tdCounter >= 5 {
      tdCounter := 0;
    }
    r := State(tdCounter, current, results);
  }

  method ReadLinks(cs: seq<Tag>, start: Option<SearchResult>) returns (r: Option<Option<SearchResult>>)
    ensures r == Links(cs, start)
  {
    hide OneLink;
    var current := start;
    var i := 0;
    assert cs[0..] == cs;
    while i < |cs|
      invariant 0 <= i <= |cs| && Links(cs[i..], current) == Links(cs, start)
    {
      assert cs[i..][1..] == cs[i + 1..];
      var next := OneLink(cs[i], current);
      if next == None {
        return None;
      }
      current := next.value;
      i := i + 1;
    }
    r := Some(current);
  }

  method ReadCounts(rd: Reader, cs: seq<Tag>, start: SearchResult) returns (r: SearchResult)
    ensures r == Counts(rd, cs, start)
  {
    hide OneCount;
    r := start;
    var i := 0;
    assert cs[0..] == cs;
    while i < |cs|
      invariant 0 <= i <= |cs| && Counts(rd, cs[i..], r) == Counts(rd, cs, start)
    {
      assert cs[i..][1..] == cs[i + 1..];
      r := OneCount(rd, cs[i], r);
      i := i + 1;
    }
  }

  // ----- rows

  function Cells(ts: seq<Tag>): seq<Tag> {
    if ts == [] then [] else (if Named(ts[0], "td") then [ts[0]] else []) + Cells(ts[1..])
  }

  ghost predicate NoCells(ts: seq<Tag>) {
    forall t :: t in ts ==> !Named(t, "td")
  }

  lemma {:induction false} CellsAppend(a: seq<Tag>, b: seq<Tag>)
    ensures Cells(a + b) == Cells(a) + Cells(b)
    decreases |a|
  {
    hide Named;
    if a == [] {
      assert a + b == b;
    } else {
      assert (a + b)[1..] == a[1..] + b;
      CellsAppend(a[1..], b);
      Assoc(if Named(a[0], "td") then [a[0]] else [], Cells(a[1..]), Cells(b));
    }
  }

  lemma {:induction false} NoCellsIn(ts: seq<Tag>)
    requires NoCells(ts)
    ensures Cells(ts) == []
  {
    hide Named;
    if ts != [] {
      assert ts[0] in ts && forall t :: t in ts[1..] ==> t in ts;
      NoCellsIn(ts[1..]);
    }
  }

  lemma {:induction false} ReadsOnlyCells(rd: Reader, ts: seq<Tag>, st: State)
    ensures ReadTags(rd, ts, st) == ReadTags(rd, Cells(ts), st)
    decreases |ts|
  {
    if ts != [] {
      hide ReadCell;
      var st1 := ReadTag(rd, ts[0], st);
      ReadsOnlyCells(rd, ts[1..], st1);
      if Named(ts[0], "td") {
        assert Cells(ts)[0] == ts[0] && Cells(ts)[1..] == Cells(ts[1..]);
      } else {
        assert [] + Cells(ts[1..]) == Cells(ts[1..]);
      }
    }
  }

  lemma {:induction false} ReadsAppend(rd: Reader, a: seq<Tag>, b: seq<Tag>, st: State)
    ensures ReadTags(rd, a + b, st) == ReadTags(rd, b, ReadTags(rd, a, st))
    decreases |a|
  {
    hide ReadTag;
    if a == [] {
      assert a + b == b;
    } else {
      assert (a + b)[1..] == a[1..] + b;
      ReadsAppend(rd, a[1..], b, ReadTag(rd, a[0], st));
    }
  }

  /** The walk reads the cells of the rows in order, when cells hang below rows only. */
  lemma WalkReadsRows(rd: Reader, rows: seq<Tag>, st: State)
    requires NoCells(rows) && NoCells(Below(Kids(Kids(rows))))
    ensures ReadTags(rd, Visit(rows), st) == ReadTags(rd, Cells(Kids(rows)), st)
  {
    hide Named, ReadTag;
    var kids, rest := Kids(rows), Kids(Kids(rows));
    hide Visit, Cells, Kids, NoCells, Below;
    VisitsRows(rows);
    NoCellsVisited(rest);
    NoCellsIn(rows);
    NoCellsIn(Visit(rest));
    CellsAppend(rows, kids + Visit(rest));
    CellsAppend(kids, Visit(rest));
    assert [] + (Cells(kids) + []) == Cells(kids);
    ReadsOnlyCells(rd, Visit(rows), st);
    ReadsOnlyCells(rd, Cells(kids), st);
    CellsTwice(kids);
  }

  lemma VisitsRows(rows: seq<Tag>)
    ensures Visit(rows) == rows + (Kids(rows) + Visit(Kids(Kids(rows))))
  {
    hide Visit, Kids;
    var kids, rest := Kids(rows), Kids(Kids(rows));
    VisitLevel(rows, []);
    VisitLevel(kids, []);
    assert rows + [] == rows && [] + kids == kids && kids + [] == kids && [] + rest == rest;
  }

  lemma NoCellsVisited(ts: seq<Tag>)
    requires NoCells(Below(ts))
    ensures NoCells(Visit(ts))
  {
    hide Visit, Below, Named;
    VisitsEachOnce(ts);
    forall t | t in Visit(ts) ensures !Named(t, "td") {
      assert t in multiset(Visit(ts)) && t in Below(ts);
    }
  }

  lemma {:induction false} CellsTwice(ts: seq<Tag>)
    ensures Cells(Cells(ts)) == Cells(ts)
  {
    hide Named;
    if ts != [] {
      CellsTwice(ts[1..]);
      if Named(ts[0], "td") {
        assert Cells(ts)[1..] == Cells(ts[1..]);
      } else {
        assert Cells(ts) == [] + Cells(ts[1..]) == Cells(ts[1..]);
      }
    }
  }

  // ----- rows of four and of five cells

  ghost predicate GoodLinks(cell: Tag) {
    var r := Links(cell.children, None); r.Some? && r.value.Some?
  }

  ghost predicate IsSize(rd: Reader, cell: Tag) {
    rd.sizeLike(cell.inner) && rd.sizeOf(cell.inner).Some?
  }

  /** Four cells with the size in cell 2, or five without a size in cell 2; the links are in cell 1. */
  ghost predicate GoodRow(rd: Reader, row: Tag) {
    var c := Cells(row.children);
    (|c| == 4 || |c| == 5) && GoodLinks(c[1]) && (|c| == 4 <==> IsSize(rd, c[2]))
  }

  /** The size in the last cell but one; -1 when a cell looks like a size and cannot be read, and 0 when
      none does. */
  ghost function RowSize(rd: Reader, row: Tag): real
    requires GoodRow(rd, row)
  {
    var c := Cells(row.children);
    if IsSize(rd, c[|c| - 2]) then rd.sizeOf(c[|c| - 2].inner).value
    else if rd.sizeLike(c[2].inner) || rd.sizeLike(c[3].inner) then -1.0
    else 0.0
  }

  /** The result of a row, from its own cells. */
  ghost function RowResult(rd: Reader, row: Tag): SearchResult
    requires GoodRow(rd, row)
  {
    var c := Cells(row.children);
    var r := Links(c[1].children, None).value.value;
    Counts(rd, c[|c| - 1].children, r.(size := RowSize(rd, row))).(engine := ENGINE)
  }

  ghost function RowResults(rd: Reader, rows: seq<Tag>): seq<SearchResult>
    requires forall k :: 0 <= k < |rows| ==> GoodRow(rd, rows[k])
  {
    if rows == [] then [] else [RowResult(rd, rows[0])] + RowResults(rd, rows[1..])
  }

  lemma CellsAreCells(ts: seq<Tag>)
    ensures forall k :: 0 <= k < |Cells(ts)| ==> Named(Cells(ts)[k], "td")
  {
    if ts != [] { CellsAreCells(ts[1..]); }
  }

  lemma ReadFour(rd: Reader, a: Tag, b: Tag, c: Tag, d: Tag, st: State)
    ensures ReadTags(rd, [a, b, c, d], st) == ReadTag(rd, d, ReadTag(rd, c, ReadTag(rd, b, ReadTag(rd, a, st))))
  {
    hide ReadTag;
    var st1 := ReadTag(rd, a, st);
    var st2 := ReadTag(rd, b, st1);
    ReadsCons(rd, a, [b, c, d], st);
    ReadsCons(rd, b, [c, d], st1);
    ReadsCons(rd, c, [d], st2);
    ReadsCons(rd, d, [], ReadTag(rd, c, st2));
    assert [a] + [b, c, d] == [a, b, c, d] && [b] + [c, d] == [b, c, d] && [c] + [d] == [c, d] && [d] + [] == [d];
  }

  lemma ReadsCons(rd: Reader, t: Tag, ts: seq<Tag>, st: State)
    ensures ReadTags(rd, [t] + ts, st) == ReadTags(rd, ts, ReadTag(rd, t, st))
  {
    hide ReadTag;
    assert ([t] + ts)[1..] == ts;
  }

  lemma ReadFive(rd: Reader, a: Tag, b: Tag, c: Tag, d: Tag, e: Tag, st: State)
    ensures ReadTags(rd, [a, b, c, d, e], st) ==
            ReadTag(rd, e, ReadTag(rd, d, ReadTag(rd, c, ReadTag(rd, b, ReadTag(rd, a, st)))))
  {
    hide ReadTag;
    assert [a, b, c, d, e][1..] == [b, c, d, e];
    ReadFour(rd, b, c, d, e, ReadTag(rd, a, st));
  }

  /** A row starts and ends with the counter at 0 and adds its own result. */
  lemma ReadsRow(rd: Reader, row: Tag, results: seq<SearchResult>)
    requires GoodRow(rd, row)
    ensures ReadTags(rd, Cells(row.children), State(0, None, results)) ==
            State(0, None, results + [RowResult(rd, row)])
  {
    hide Links, Counts, Cells, Named;
    var c := Cells(row.children);
    CellsAreCells(row.children);
    var st := State(0, None, results);
    FreshLink(c[1].children);
    if |c| == 4 {
      assert c == [c[0], c[1], c[2], c[3]];
      ReadFour(rd, c[0], c[1], c[2], c[3], st);
    } else {
      assert c == [c[0], c[1], c[2], c[3], c[4]];
      ReadFive(rd, c[0], c[1], c[2], c[3], c[4], st);
    }
  }

  lemma {:induction false} ReadsRows(rd: Reader, rows: seq<Tag>, results: seq<SearchResult>)
    requires forall k :: 0 <= k < |rows| ==> GoodRow(rd, rows[k])
    ensures ReadTags(rd, Cells(Kids(rows)), State(0, None, results)) ==
            State(0, None, results + RowResults(rd, rows))
    decreases |rows|
  {
    hide Named, ReadTag, GoodRow, RowResult;
    if rows == [] {
      assert results + [] == results;
    } else {
      var st := State(0, None, results);
      CellsAppend(rows[0].children, Kids(rows[1..]));
      ReadsAppend(rd, Cells(rows[0].children), Cells(Kids(rows[1..])), st);
      ReadsRow(rd, rows[0], results);
      ReadsRows(rd, rows[1..], results + [RowResult(rd, rows[0])]);
      assert results + [RowResult(rd, rows[0])] + RowResults(rd, rows[1..]) == results + RowResults(rd, rows);
    }
  }

  /** For any mix of rows of four and of five cells the walk ends in step, and the results are those of
      the rows, in order: result i comes from row i. */
  lemma ResultsAreTheRows(rd: Reader, rows: seq<Tag>)
    requires NoCells(rows) && NoCells(Below(Kids(Kids(rows))))
    requires forall k :: 0 <= k < |rows| ==> GoodRow(rd, rows[k])
    ensures ReadTags(rd, Visit(rows), START) == State(0, None, RowResults(rd, rows))
    ensures |RowResults(rd, rows)| == |rows|
    ensures forall k :: 0 <= k < |rows| ==> RowResults(rd, rows)[k] == RowResult(rd, rows[k])
  {
    hide NoCells, GoodRow, Visit, ReadTags, RowResult;
    WalkReadsRows(rd, rows, START);
    ReadsRows(rd, rows, []);
    assert [] + RowResults(rd, rows) == RowResults(rd, rows);
    RowResultAt(rd, rows);
  }

  lemma {:induction false} RowResultAt(rd: Reader, rows: seq<Tag>)
    requires forall k :: 0 <= k < |rows| ==> GoodRow(rd, rows[k])
    ensures |RowResults(rd, rows)| == |rows|
    ensures forall k :: 0 <= k < |rows| ==> RowResults(rd, rows)[k] == RowResult(rd, rows[k])
    decreases |rows|
  {
    hide GoodRow, RowResult;
    if rows != [] { RowResultAt(rd, rows[1..]); }
  }

  // ----- when the walk breaks

  /** A link to the description comes before any download link. */
  ghost predicate DescribedFirst(cs: seq<Tag>) {
    exists i :: 0 <= i < |cs| && IsDescription(cs[i]) && forall j :: 0 <= j < i ==> !IsDownload(cs[j])
  }

  lemma {:induction false} LinksBreak(cs: seq<Tag>, current: Option<SearchResult>)
    ensures Links(cs, current).None? <==> current.None? && DescribedFirst(cs)
    decreases |cs|
  {
    hide Named, Href, StartsWith, DescribedFirst;
    if cs == [] {
      assert !DescribedFirst(cs) by { NoneDescribed(); }
    } else {
      var rest := cs[1..];
      var next := OneLink(cs[0], current);
      if next.Some? { LinksBreak(rest, next.value); }
      DescribedFirstCons(cs);
    }
  }

  lemma NoneDescribed()
    ensures !DescribedFirst([])
  {
  }

  lemma DescribedFirstCons(cs: seq<Tag>)
    requires cs != []
    ensures DescribedFirst(cs) <==> IsDescription(cs[0]) || (!IsDownload(cs[0]) && DescribedFirst(cs[1..]))
  {
    hide Named, Href;
    var rest := cs[1..];
    if !IsDownload(cs[0]) && DescribedFirst(rest) {
      var i :| 0 <= i < |rest| && IsDescription(rest[i]) && forall j :: 0 <= j < i ==> !IsDownload(rest[j]);
      assert IsDescription(cs[i + 1]);
      forall j | 0 <= j < i + 1 ensures !IsDownload(cs[j]) { if j > 0 { assert cs[j] == rest[j - 1]; } }
    }
    if DescribedFirst(cs) && !IsDescription(cs[0]) {
      var i :| 0 <= i < |cs| && IsDescription(cs[i]) && forall j :: 0 <= j < i ==> !IsDownload(cs[j]);
      assert IsDescription(rest[i - 1]);
      forall j | 0 <= j < i - 1 ensures !IsDownload(rest[j]) { assert rest[j] == cs[j + 1]; }
    }
  }

  /** A cell that the walk would read as cell 1 of a row, and that would break it. */
  ghost predicate BreaksAt(rd: Reader, ts: seq<Tag>, st: State, k: nat)
    requires k < |ts|
  {
    var before := ReadTags(rd, ts[..k], st);
    before.State? && before.tdCounter == 1 && Named(ts[k], "td") && DescribedFirst(ts[k].children)
  }

  /** There is a current result in the middle of a row only. */
  ghost predicate InStep(st: State) {
    st.State? ==> st.tdCounter <= 4 && (st.tdCounter <= 1 ==> st.current.None?)
  }

  lemma OneTagBreaks(rd: Reader, t: Tag, st: State)
    requires InStep(st)
    ensures InStep(ReadTag(rd, t, st))
    ensures st.State? ==>
      (ReadTag(rd, t, st).Broken? <==> st.tdCounter == 1 && Named(t, "td") && DescribedFirst(t.children))
  {
    hide Links, Named, DescribedFirst, Counts;
    if st.State? { LinksBreak(t.children, st.current); }
  }

  /** From the start, or between two rows, the walk dereferences null exactly when some cell 1 has a
      link to the description before any download link. */
  lemma {:induction false} BreaksExactly(rd: Reader, ts: seq<Tag>, st: State)
    requires st.State? && InStep(st)
    ensures ReadTags(rd, ts, st).Broken? <==> exists k :: 0 <= k < |ts| && BreaksAt(rd, ts, st, k)
    decreases |ts|
  {
    hide ReadTag, DescribedFirst, Named;
    if ts != [] {
      var next := ReadTag(rd, ts[0], st);
      OneTagBreaks(rd, ts[0], st);
      FirstBreaks(rd, ts, st);
      if next.State? {
        BreaksExactly(rd, ts[1..], next);
        LaterBreaks(rd, ts, st);
      } else {
        StaysBroken(rd, ts[1..]);
        assert BreaksAt(rd, ts, st, 0);
      }
    }
  }

  lemma FirstBreaks(rd: Reader, ts: seq<Tag>, st: State)
    requires ts != [] && st.State?
    ensures BreaksAt(rd, ts, st, 0) <==> st.tdCounter == 1 && Named(ts[0], "td") && DescribedFirst(ts[0].children)
  {
    hide Named, DescribedFirst;
    assert ts[..0] == [];
  }

  lemma LaterBreaks(rd: Reader, ts: seq<Tag>, st: State)
    requires ts != []
    ensures forall k :: 0 <= k < |ts| - 1 ==>
      (BreaksAt(rd, ts[1..], ReadTag(rd, ts[0], st), k) <==> BreaksAt(rd, ts, st, k + 1))
    ensures forall k :: 1 <= k < |ts| ==>
      (BreaksAt(rd, ts[1..], ReadTag(rd, ts[0], st), k - 1) <==> BreaksAt(rd, ts, st, k))
  {
    hide ReadTag, DescribedFirst, Named;
    forall k | 0 <= k < |ts| - 1
      ensures BreaksAt(rd, ts[1..], ReadTag(rd, ts[0], st), k) <==> BreaksAt(rd, ts, st, k + 1)
    {
      assert ts[..k + 1][1..] == ts[1..][..k];
    }
  }

  lemma {:induction false} StaysBroken(rd: Reader, ts: seq<Tag>)
    ensures ReadTags(rd, ts, Broken) == Broken
    decreases |ts|
  {
    if ts != [] { StaysBroken(rd, ts[1..]); }
  }

  /** A row whose cell 1 has a link to the description before any download link. */
  ghost predicate BadRow(row: Tag) {
    |Cells(row.children)| >= 2 && DescribedFirst(Cells(row.children)[1].children)
  }

  lemma BadRowBreaks(rd: Reader, row: Tag, results: seq<SearchResult>)
    requires BadRow(row)
    ensures ReadTags(rd, Cells(row.children), State(0, None, results)) == Broken
  {
    hide Links, Counts, Cells, DescribedFirst, Named;
    var c := Cells(row.children);
    var st := State(0, None, results);
    CellsAreCells(row.children);
    assert c == [c[0]] + ([c[1]] + c[2..]);
    ReadsCons(rd, c[0], [c[1]] + c[2..], st);
    ReadsCons(rd, c[1], c[2..], ReadTag(rd, c[0], st));
    OneTagBreaks(rd, c[1], ReadTag(rd, c[0], st));
    StaysBroken(rd, c[2..]);
  }

  /** A table of rows that are either good or have such a cell breaks exactly when it has one of the
      second kind, whatever rows surround it. */
  lemma {:induction false} TableBreaks(rd: Reader, rows: seq<Tag>, results: seq<SearchResult>)
    requires forall k :: 0 <= k < |rows| ==> GoodRow(rd, rows[k]) || BadRow(rows[k])
    ensures ReadTags(rd, Cells(Kids(rows)), State(0, None, results)).Broken? <==>
            exists k :: 0 <= k < |rows| && BadRow(rows[k])
    decreases |rows|
  {
    hide Named, ReadTag, GoodRow, BadRow, RowResult;
    if rows != [] {
      var st := State(0, None, results);
      CellsAppend(rows[0].children, Kids(rows[1..]));
      ReadsAppend(rd, Cells(rows[0].children), Cells(Kids(rows[1..])), st);
      if BadRow(rows[0]) {
        BadRowBreaks(rd, rows[0], results);
        StaysBroken(rd, Cells(Kids(rows[1..])));
      } else {
        ReadsRow(rd, rows[0], results);
        TableBreaks(rd, rows[1..], results + [RowResult(rd, rows[0])]);
        assert forall k :: 1 <= k < |rows| ==> rows[k] == rows[1..][k - 1];
      }
    }
  }

  // ----- rows by the links and spans in them

  predicate IsLink(c: Tag, start: string) { ToLower(c.name) == "a" && start <= Href(c) }

  predicate IsSpan(c: Tag, value: string) {
    ToLower(c.name) == "span" && "class" in c.attributes && c.attributes["class"] == value
  }

  /** The last of the tags that are links to such an address, from i on. */
  ghost predicate LastLink(cs: seq<Tag>, start: string, i: int, k: int) {
    0 <= i <= k < |cs| && IsLink(cs[k], start) && forall j :: k < j < |cs| ==> !IsLink(cs[j], start)
  }

  ghost predicate NoLink(cs: seq<Tag>, start: string,
                         i: int) { forall j :: 0 <= i <= j < |cs| ==> !IsLink(cs[j], start) }

  ghost predicate LastSpan(cs: seq<Tag>, value: string, k: int) {
    0 <= k < |cs| && IsSpan(cs[k], value) && forall j :: k < j < |cs| ==> !IsSpan(cs[j], value)
  }

  ghost predicate NoSpan(cs: seq<Tag>, value: string) { forall j :: 0 <= j < |cs| ==> !IsSpan(cs[j], value) }

  const FILES := "http://d.rutor.org"
  const DESCRIPTIONS := "/torrent"

  lemma StartIsPrefix(s: string, p: string)
    ensures StartsWith(s, p) <==> p <= s
  {
    if p <= s { assert s[0..0 + |p|] == p; }
  }

  lemma LinkKinds(c: Tag)
    ensures IsDownload(c) <==> IsLink(c, FILES)
    ensures IsDescription(c) <==> IsLink(c, DESCRIPTIONS)
  {
    hide ToLower;
    StartIsPrefix(Href(c), FILES);
    StartIsPrefix(Href(c), DESCRIPTIONS);
    assert FILES <= Href(c) ==> Href(c)[0] == 'h';
    assert DESCRIPTIONS <= Href(c) ==> Href(c)[0] == '/';
  }

  /** Of several links or spans the last counts. */
  ghost predicate Describes(cs: seq<Tag>, i: int, name: string, descUrl: string, r: SearchResult) {
    && (NoLink(cs, DESCRIPTIONS, i) ==> r.name == name && r.descUrl == descUrl)
    && forall k :: LastLink(cs, DESCRIPTIONS, i, k) ==>
       0 <= k < |cs| && r.name == cs[k].inner && r.descUrl == SITE + Href(cs[k])
  }

  lemma DescribesLater(cs: seq<Tag>, name: string, descUrl: string, r: SearchResult)
    requires cs != []
    requires if IsLink(cs[0], DESCRIPTIONS) then Describes(cs[1..], 0, cs[0].inner, SITE + Href(cs[0]), r)
             else Describes(cs[1..], 0, name, descUrl, r)
    ensures Describes(cs, 0, name, descUrl, r)
  {
    hide IsLink, Href;
    var rest := cs[1..];
    assert forall j :: 0 < j < |cs| ==> cs[j] == rest[j - 1];
    assert forall j :: 0 <= j < |rest| ==> rest[j] == cs[j + 1];
    forall k | LastLink(cs, DESCRIPTIONS, 0, k)
      ensures 0 <= k < |cs| && r.name == cs[k].inner && r.descUrl == SITE + Href(cs[k]) {
      if k == 0 { assert NoLink(rest, DESCRIPTIONS, 0); } else { assert LastLink(rest, DESCRIPTIONS, 0, k - 1); }
    }
    if NoLink(cs, DESCRIPTIONS, 0) { assert NoLink(rest, DESCRIPTIONS, 0); }
  }

  /** Without a download link the names are set, and nothing else. */
  lemma {:induction false} LinksDescribe(cs: seq<Tag>, start: SearchResult)
    requires NoLink(cs, FILES, 0)
    ensures Links(cs, Some(start)).Some? && Links(cs, Some(start)).value.Some?
    ensures var r := Links(cs, Some(start)).value.value;
            && r == start.(name := r.name, descUrl := r.descUrl)
            && Describes(cs, 0, start.name, start.descUrl, r)
    decreases |cs|
  {
    hide IsDownload, IsDescription, IsLink, Href, Describes;
    if cs == [] {
      NothingDescribed(start);
    } else {
      LinkKinds(cs[0]);
      var next := if IsLink(cs[0], DESCRIPTIONS) then
          start.(name := cs[0].inner, descUrl := SITE + Href(cs[0])) else start;
      assert !IsLink(cs[0], FILES) && forall j :: 0 <= j < |cs[1..]| ==> cs[1..][j] == cs[j + 1];
      LinksDescribe(cs[1..], next);
      DescribesLater(cs, start.name, start.descUrl, Links(cs, Some(start)).value.value);
    }
  }

  lemma NothingDescribed(r: SearchResult)
    ensures Describes([], 0, r.name, r.descUrl, r)
  {
  }

  lemma {:induction false} LinksFrom(cs: seq<Tag>, k: nat, current: Option<SearchResult>)
    requires k <= |cs|
    ensures Links(cs, current) ==
            match Links(cs[..k], current)
            case None => None
            case Some(next) => Links(cs[k..], next)
    decreases k
  {
    hide OneLink;
    if k > 0 {
      var next := OneLink(cs[0], current);
      assert cs[..k][1..] == cs[1..][..k - 1] && cs[1..][k - 1..] == cs[k..];
      if next.Some? { LinksFrom(cs[1..], k - 1, next.value); }
    } else {
      assert cs[0..] == cs && cs[..0] == [];
    }
  }

  lemma {:induction false} FindLast(cs: seq<Tag>, start: string) returns (k: int)
    ensures k == -1 ==> NoLink(cs, start, 0)
    ensures k != -1 ==> LastLink(cs, start, 0, k)
    decreases |cs|
  {
    hide IsLink;
    if cs == [] {
      k := -1;
    } else {
      var n := |cs| - 1;
      if IsLink(cs[n], start) {
        k := n;
      } else {
        k := FindLast(cs[..n], start);
        assert forall j :: 0 <= j < n ==> cs[j] == cs[..n][j];
      }
    }
  }

  /** The links of a cell make a result exactly when there is a download link, and no link to the
      description before the first one. */
  lemma GoodLinksExactly(cell: Tag)
    ensures GoodLinks(cell) <==> !DescribedFirst(cell.children) && !NoLink(cell.children, FILES, 0)
  {
    hide Links, DescribedFirst, IsLink;
    var cs := cell.children;
    LinksBreak(cs, None);
    var k := FindLast(cs, FILES);
    if k == -1 { NoResult(cs); } else if Links(cs, None).Some? { var r := LastCounts(cs, k); }
  }

  lemma {:induction false} NoResult(cs: seq<Tag>)
    requires NoLink(cs, FILES, 0)
    ensures Links(cs, None).Some? ==> Links(cs, None) == Some(None)
    decreases |cs|
  {
    hide IsDownload, IsDescription, IsLink;
    if cs != [] {
      LinkKinds(cs[0]);
      assert !IsLink(cs[0], FILES) && forall j :: 0 <= j < |cs[1..]| ==> cs[1..][j] == cs[j + 1];
      NoResult(cs[1..]);
    }
  }

  /** The last download link starts the result, and what is behind it describes it. */
  lemma LastCounts(cs: seq<Tag>, k: int) returns (r: SearchResult)
    requires LastLink(cs, FILES, 0, k) && Links(cs, None).Some?
    ensures Links(cs, None) == Some(Some(r))
    ensures r == NEW_RESULT.(fileUrl := Href(cs[k]), name := r.name, descUrl := r.descUrl)
    ensures Describes(cs, k, "", "", r)
  {
    hide Links, OneLink, IsLink, Href, Describes;
    LinksFrom(cs, k, None);
    var start := NEW_RESULT.(fileUrl := Href(cs[k]));
    LinkKinds(cs[k]);
    StartsResult(cs[k..], Links(cs[..k], None).value);
    var rest := cs[k..][1..];
    assert rest == cs[k + 1..];
    assert forall j :: 0 <= j < |rest| ==> rest[j] == cs[k + 1 + j];
    LinksDescribe(rest, start);
    r := Links(rest, Some(start)).value.value;
    DescribesBehind(cs, k, rest, r);
  }

  lemma StartsResult(cs: seq<Tag>, current: Option<SearchResult>)
    requires cs != [] && IsDownload(cs[0])
    ensures Links(cs, current) == Links(cs[1..], Some(NEW_RESULT.(fileUrl := Href(cs[0]))))
  {
    hide IsDownload, Href;
  }

  lemma DescribesBehind(cs: seq<Tag>, k: int, rest: seq<Tag>, r: SearchResult)
    requires 0 <= k < |cs| && rest == cs[k + 1..] && IsLink(cs[k], FILES) && Describes(rest, 0, "", "", r)
    ensures Describes(cs, k, "", "", r)
  {
    hide Href;
    NotBoth(cs[k]);
    hide IsLink;
    assert forall j :: 0 <= j < |rest| ==> rest[j] == cs[k + 1 + j];
    assert forall j :: k < j < |cs| ==> cs[j] == rest[j - k - 1];
    forall m | LastLink(cs, DESCRIPTIONS, k, m)
      ensures 0 <= m < |cs| && r.name == cs[m].inner && r.descUrl == SITE + Href(cs[m]) {
      assert LastLink(rest, DESCRIPTIONS, 0, m - k - 1);
    }
    if NoLink(cs, DESCRIPTIONS, k) { assert NoLink(rest, DESCRIPTIONS, 0); }
  }

  lemma NotBoth(c: Tag)
    requires IsLink(c, FILES)
    ensures !IsLink(c, DESCRIPTIONS)
  {
    assert Href(c)[0] == FILES[0] == 'h' && DESCRIPTIONS[0] == '/';
  }

  lemma FreshLink(cs: seq<Tag>)
    requires Links(cs, None).Some? && Links(cs, None).value.Some?
    ensures Links(cs, None).value.value.size == 0.0
  {
    hide Links, IsLink, Href, Describes;
    var k := FindLast(cs, FILES);
    if k == -1 { NoResult(cs); } else { var r := LastCounts(cs, k); }
  }

  /** A count is that of the last span of its class, or 0. */
  ghost predicate CountsSpan(cs: seq<Tag>, value: string, read: string -> int, base: int, count: int) {
    && (NoSpan(cs, value) ==> count == base)
    && forall k :: LastSpan(cs, value, k) ==> 0 <= k < |cs| && count == read(cs[k].inner)
  }

  lemma CountsLater(cs: seq<Tag>, value: string, read: string -> int, base: int, count: int)
    requires cs != []
    requires CountsSpan(cs[1..], value, read, if IsSpan(cs[0], value) then read(cs[0].inner) else base, count)
    ensures CountsSpan(cs, value, read, base, count)
  {
    hide IsSpan;
    var rest := cs[1..];
    assert forall j :: 0 < j < |cs| ==> cs[j] == rest[j - 1];
    assert forall j :: 0 <= j < |rest| ==> rest[j] == cs[j + 1];
    forall k | LastSpan(cs, value, k) ensures 0 <= k < |cs| && count == read(cs[k].inner) {
      if k == 0 { assert NoSpan(rest, value); } else { assert LastSpan(rest, value, k - 1); }
    }
    if NoSpan(cs, value) { assert NoSpan(rest, value); }
  }

  lemma OneCountIs(rd: Reader, c: Tag, r: SearchResult)
    ensures OneCount(rd, c, r) ==
            r.(seeders := if IsSpan(c, "green") then rd.seedersOf(c.inner) else r.seeders,
               leechers := if IsSpan(c, "red") then rd.leechersOf(c.inner) else r.leechers)
  {
    hide ToLower;
  }

  lemma {:induction false} CountsAreThem(rd: Reader, cs: seq<Tag>, r: SearchResult)
    ensures var q := Counts(rd, cs, r);
            && q == r.(seeders := q.seeders, leechers := q.leechers)
            && CountsSpan(cs, "green", rd.seedersOf, r.seeders, q.seeders)
            && CountsSpan(cs, "red", rd.leechersOf, r.leechers, q.leechers)
    decreases |cs|
  {
    hide OneCount, IsSpan, CountsSpan;
    if cs == [] {
      NothingCounted(rd.seedersOf, "green", r.seeders);
      NothingCounted(rd.leechersOf, "red", r.leechers);
    } else {
      OneCountIs(rd, cs[0], r);
      var next, q := OneCount(rd, cs[0], r), Counts(rd, cs, r);
      CountsAreThem(rd, cs[1..], next);
      CountsLater(cs, "green", rd.seedersOf, r.seeders, q.seeders);
      CountsLater(cs, "red", rd.leechersOf, r.leechers, q.leechers);
    }
  }

  lemma NothingCounted(read: string -> int, value: string, base: int)
    ensures CountsSpan([], value, read, base, base)
  {
  }

  /** A result and the row it comes from: the address of the last download link, name and address of the
      last link to the description behind it, the size, the counts of the last green and the last red span. */
  ghost predicate IsResultOf(rd: Reader, row: Tag, x: SearchResult) {
    var c := Cells(row.children);
    && (|c| == 4 || |c| == 5)
    && var links, spans := c[1].children, c[|c| - 1].children;
       (exists k :: LastLink(links, FILES, 0, k) && 0 <= k < |links| && x.fileUrl == Href(links[k]) &&
                    Describes(links, k, "", "", x))
       && CountsSpan(spans, "green", rd.seedersOf, 0, x.seeders)
       && CountsSpan(spans, "red", rd.leechersOf, 0, x.leechers)
       && (IsSize(rd, c[|c| - 2]) ==> Some(x.size) == rd.sizeOf(c[|c| - 2].inner))
       && (!IsSize(rd, c[|c| - 2]) ==>
             x.size == if rd.sizeLike(c[2].inner) || rd.sizeLike(c[3].inner) then -1.0 else 0.0)
       && x.engine == "Rutor"
  }

  lemma RowIsItsResult(rd: Reader, row: Tag)
    requires GoodRow(rd, row)
    ensures IsResultOf(rd, row, RowResult(rd, row))
  {
    hide Links, Counts, Cells, IsLink, Href, LastLink, NoLink, DescribedFirst, CountsSpan;
    var c := Cells(row.children);
    var links, spans := c[1].children, c[|c| - 1].children;
    GoodLinksExactly(c[1]);
    var k := FindLast(links, FILES);
    LinkInside(links, FILES, k);
    var r := LastCounts(links, k);
    var sized := r.(size := RowSize(rd, row));
    CountsAreThem(rd, spans, sized);
    SameDescription(links, k, r, RowResult(rd, row));
  }

  lemma LinkInside(cs: seq<Tag>, start: string, k: int)
    requires LastLink(cs, start, 0, k)
    ensures 0 <= k < |cs|
  {
  }

  lemma SameDescription(cs: seq<Tag>, k: int, r: SearchResult, q: SearchResult)
    requires Describes(cs, k, "", "", r) && q.name == r.name && q.descUrl == r.descUrl
    ensures Describes(cs, k, "", "", q)
  {
  }

  /** Row by row: the walk ends in step, and result i is made of the links, the size and the spans of
      row i. */
  lemma ResultsByIndex(rd: Reader, rows: seq<Tag>)
    requires NoCells(rows) && NoCells(Below(Kids(Kids(rows))))
    requires forall k :: 0 <= k < |rows| ==> GoodRow(rd, rows[k])
    ensures var st := ReadTags(rd, Visit(rows), START);
            && st.State? && st.tdCounter == 0 && st.current.None? && |st.results| == |rows|
            && forall k :: 0 <= k < |rows| ==> IsResultOf(rd, rows[k], st.results[k])
  {
    hide NoCells, GoodRow, Visit, ReadTags, RowResult, IsResultOf;
    ResultsAreTheRows(rd, rows);
    forall k | 0 <= k < |rows| ensures IsResultOf(rd, rows[k], RowResults(rd, rows)[k]) {
      RowIsItsResult(rd, rows[k]);
    }
  }

  /** A row of four or five cells that can be read brings the counter back to 0 exactly when it is good:
      with another number of cells or the size elsewhere, the rows behind it are out of step. */
  lemma StaysInStep(rd: Reader, row: Tag, results: seq<SearchResult>)
    requires var c := Cells(row.children); (|c| == 4 || |c| == 5) && GoodLinks(c[1])
    ensures var st := ReadTags(rd, Cells(row.children), State(0, None, results));
            st.State? && (st.tdCounter == 0 <==> GoodRow(rd, row))
  {
    hide Links, Counts, Cells, Named;
    var c := Cells(row.children);
    CellsAreCells(row.children);
    var st := State(0, None, results);
    if |c| == 4 {
      assert c == [c[0], c[1], c[2], c[3]];
      ReadFour(rd, c[0], c[1], c[2], c[3], st);
    } else {
      assert c == [c[0], c[1], c[2], c[3], c[4]];
      ReadFive(rd, c[0], c[1], c[2], c[3], c[4], st);
    }
  }
}
