/**
  The list of torrents with its filtered view (TorrentStorrage.cpp).  A torrent is known by its
  info hash; what libtorrent reports about it is a snapshot that may change between two steps.
*/
module TorrentStorage {
  import opened QtText
  import opened Sequences
  import opened FilteredViews
  import opened NameOrder

  datatype Torrent = Torrent(
    active: bool, downloading: bool, seeding: bool, progress: int, uploads: bool, downloads: bool,
    group: string, name: string)

  datatype TorrentFilterType = ACTIVE | NOT_ACTIVE | SEEDING | DOWNLOADING | COMPLETED | NONE

  datatype FilterType = GROUP_FILTER_TYPE | SEARCH | RSS_FEED | TORRENT | NONE_TYPE

  /** What filterData looks at. */
  datatype Settings = Settings(filterType: FilterType, torrentFilter: TorrentFilterType, groupFilter: string)

  /** The test of filterData. */
  predicate Passes(f: Settings, t: Torrent) {
    match f.filterType
    case GROUP_FILTER_TYPE => f.groupFilter == "" || ToLower(t.group) == ToLower(f.groupFilter)
    case TORRENT =>
      (match f.torrentFilter
       case ACTIVE => t.active
       case NOT_ACTIVE => !t.uploads && !t.downloads
       case DOWNLOADING => t.downloading
       case SEEDING => t.seeding
       case COMPLETED => t.progress == 100
       case NONE => true)
    case _ => true
  }

  /** The test of append: it looks at the torrent filter only, and has no case for NOT_ACTIVE. */
  predicate AppendPasses(f: Settings, t: Torrent) {
    match f.torrentFilter
    case ACTIVE => t.active
    case DOWNLOADING => t.downloading
    case SEEDING => t.seeding
    case COMPLETED => t.progress == 100
    case _ => true
  }

  datatype Lookup = Found(hash: string) | Null | OutOfRange

  /** The view at an index: the guard compares with the number of all torrents. */
  function LookUp(view: seq<string>, all: nat, index: int): Lookup {
    if index >= all then Null
    else if 0 <= index < |view| then Found(view[index])
    else OutOfRange
  }

  /** An index into the view gives the torrent that stands there.  The look-up is safe for every index up
      to some bound exactly when the view shows all torrents or the caller keeps to its length. */
  lemma LookUpIsSafe(view: seq<string>, all: nat, index: int)
    requires |view| <= all
    ensures forall h :: LookUp(view, all, index) == Found(h) <==> 0 <= index < |view| && h == view[index]
    ensures LookUp(view, all, index) == Null <==> index >= all
    ensures LookUp(view, all, index) != OutOfRange <==> 0 <= index < |view| || index >= all
    ensures (forall i: nat :: LookUp(view, all, i) != OutOfRange) <==> |view| == all
  {
    if |view| < all { assert LookUp(view, all, |view|) == OutOfRange; }
  }

  ghost predicate ValidLists(m: map<string, Torrent>, list: seq<string>, view: seq<string>) {
    && Distinct(list)
    && (forall h :: h in list <==> h in m)
    && Distinct(view)
    && (forall h :: h in view ==> h in m)
  }

  class TorrentStorrage {
    var torrentsMap: map<string, Torrent>
    var torrents: seq<string>
    var filteredTorrents: seq<string>
    var filterType: FilterType
    var torrentFilter: TorrentFilterType
    var groupFilter: string

    function Filters(): Settings
      reads `filterType, `torrentFilter, `groupFilter
    {
      Settings(filterType, torrentFilter, groupFilter)
    }

    /** List and map hold the same torrents, each once, and the view holds no other. */
    ghost predicate Valid()
      reads this
    {
      ValidLists(torrentsMap, torrents, filteredTorrents)
    }

    ghost function Shows(): string -> bool
      reads this
    {
      ShowsIn(torrentsMap, Filters())
    }

    /** The view is the filtered list, in the order of the list. */
    ghost predicate UpToDate()
      reads this
    {
      filteredTorrents == Filter(torrents, Shows())
    }

    /** m_filterType is not initialised: it may have any value. */
    constructor (garbage: FilterType)
      ensures Valid() && UpToDate() && torrents == [] && Filters() == Settings(garbage, NONE, "")
    {
      torrentsMap, torrents, filteredTorrents := map[], [], [];
      filterType, torrentFilter, groupFilter := garbage, NONE, "";
    }

    method Append(hash: string, torrent: Torrent)
      requires Valid()
      modifies `torrentsMap, `torrents, `filteredTorrents
      ensures Valid() && hash in torrentsMap
      ensures hash in old(torrentsMap) ==>
        torrentsMap == old(torrentsMap) && torrents == old(torrents) && filteredTorrents == old(filteredTorrents)
      ensures hash !in old(torrentsMap) ==>
        && torrentsMap == old(torrentsMap)[hash := torrent] && torrents == old(torrents) + [hash]
        && filteredTorrents == old(filteredTorrents) + (if AppendPasses(Filters(), torrent) then [hash] else [])
        && (old(UpToDate()) ==> (UpToDate() <==> AppendPasses(Filters(), torrent) == Passes(Filters(), torrent)))
      ensures hash !in old(torrentsMap) ==>
        && (torrentFilter == ACTIVE ==> (hash in filteredTorrents <==> torrent.active))
        && (torrentFilter == DOWNLOADING ==> (hash in filteredTorrents <==> torrent.downloading))
        && (torrentFilter == SEEDING ==> (hash in filteredTorrents <==> torrent.seeding))
        && (torrentFilter == COMPLETED ==> (hash in filteredTorrents <==> torrent.progress == 100))
        && (torrentFilter == NOT_ACTIVE || torrentFilter == NONE ==> hash in filteredTorrents)
    {
      hide *;
      Meaning();
      if hash in torrentsMap {
        return;
      }
      Appended(torrentsMap, torrents, filteredTorrents, Filters(), hash, torrent);
      NotShownYet(torrentsMap, torrents, filteredTorrents, hash);
      AppendCases(Filters(), torrent);
      torrentsMap := torrentsMap[hash := torrent];
      torrents := torrents + [hash];
      AppendToView(hash);
      Meaning();
    }

    lemma Meaning()
      ensures Valid() <==> ValidLists(torrentsMap, torrents, filteredTorrents)
      ensures UpToDate() <==> filteredTorrents == Filter(torrents, ShowsIn(torrentsMap, Filters()))
      ensures Filters() == Settings(filterType, torrentFilter, groupFilter)
    {
    }

    /** Show a new torrent if it passes the torrent filter. */
    method AppendToView(hash: string)
      requires hash in torrentsMap
      modifies `filteredTorrents
      ensures filteredTorrents == old(filteredTorrents) +
              if AppendPasses(Filters(), torrentsMap[hash]) then [hash] else []
    {
      match torrentFilter {
        case ACTIVE =>
          if torrentsMap[hash].active { filteredTorrents := filteredTorrents + [hash]; }
        case DOWNLOADING =>
          if torrentsMap[hash].downloading { filteredTorrents := filteredTorrents + [hash]; }
        case SEEDING =>
          if torrentsMap[hash].seeding { filteredTorrents := filteredTorrents + [hash]; }
        case COMPLETED =>
          if torrentsMap[hash].progress == 100 { filteredTorrents := filteredTorrents + [hash]; }
        case _ =>
          filteredTorrents := filteredTorrents + [hash];
      }
    }

    method Remove(hash: string)
      requires Valid()
      modifies `torrentsMap, `torrents, `filteredTorrents
      ensures Valid()
      ensures torrents == Without(old(torrents), hash) && filteredTorrents == Without(old(filteredTorrents), hash)
      ensures torrentsMap == old(torrentsMap) - {hash}
      ensures old(UpToDate()) ==> UpToDate()
    {
      hide Without, Filter, Passes;
      WithoutMembers(torrents, hash);
      WithoutMembers(filteredTorrents, hash);
      OneLess(torrents, torrentsMap, hash, Filters());
      var index := Position(torrents, hash);
      var index2 := Position(filteredTorrents, hash);
      if index >= 0 {
        torrents := RemoveAt(torrents, index);
        torrentsMap := torrentsMap - {hash};
      } else {
        WithoutAbsent(torrents, hash);
      }
      if index2 >= 0 {
        filteredTorrents := RemoveAt(filteredTorrents, index2);
      } else {
        WithoutAbsent(filteredTorrents, hash);
      }
    }

    method FilterData()
      requires Valid()
      modifies `filteredTorrents
      ensures Valid() && UpToDate()
      ensures filterType != GROUP_FILTER_TYPE && filterType != TORRENT ==> filteredTorrents == torrents
    {
      hide Passes;
      filteredTorrents := [];
      if filterType == GROUP_FILTER_TYPE {
        FilterByGroup();
      } else if filterType == TORRENT && torrentFilter != NONE {
        FilterByState();
      } else {
        filteredTorrents := torrents;
        AllPass();
      }
      FilterDistinct(torrents, Shows());
      FilterMembers(torrents, Shows());
    }

    lemma AllPass()
      requires filterType != GROUP_FILTER_TYPE && (filterType != TORRENT || torrentFilter == NONE)
      requires forall h :: h in torrents <==> h in torrentsMap
      ensures Filter(torrents, Shows()) == torrents
    {
      FilterAll(torrents, Shows());
    }

    method FilterByGroup()
      requires Valid() && filteredTorrents == [] && filterType == GROUP_FILTER_TYPE
      modifies `filteredTorrents
      ensures UpToDate()
    {
      hide ToLower;
      if groupFilter == "" {
        filteredTorrents := torrents;
        FilterAll(torrents, Shows());
      } else {
        var i := 0;
        assert torrents[..0] == [];
        while i < |torrents|
          invariant 0 <= i <= |torrents|
          invariant filteredTorrents == Filter(torrents[..i], Shows())
        {
          NextFiltered(i);
          if ToLower(torrentsMap[torrents[i]].group) == ToLower(groupFilter) {
            filteredTorrents := filteredTorrents + [torrents[i]];
          }
          i := i + 1;
        }
        assert torrents[..i] == torrents;
      }
    }

    lemma NextFiltered(i: int)
      requires (forall h :: h in torrents ==> h in torrentsMap) && 0 <= i < |torrents|
      ensures torrents[i] in torrentsMap && Shows()(torrents[i]) == Passes(Filters(), torrentsMap[torrents[i]])
      ensures Filter(torrents[..i + 1], Shows()) ==
              Filter(torrents[..i], Shows()) + if Passes(Filters(), torrentsMap[torrents[i]]) then [torrents[i]] else []
    {
      hide Passes;
      assert torrents[i] in torrents;
      assert torrents[..i + 1] == torrents[..i] + [torrents[i]];
      FilterSnoc(torrents[..i], torrents[i], Shows());
    }

    /** The five loops over the torrents, one for each torrent filter. */
    method FilterByState()
      requires Valid() && filteredTorrents == [] && filterType == TORRENT && torrentFilter != NONE
      modifies `filteredTorrents
      ensures UpToDate()
    {
      var i := 0;
      assert torrents[..0] == [];
      while i < |torrents|
        invariant 0 <= i <= |torrents|
        invariant filteredTorrents == Filter(torrents[..i], Shows())
      {
        NextFiltered(i);
        var t := torrentsMap[torrents[i]];
        var chosen := match torrentFilter
          case ACTIVE => t.active
          case NOT_ACTIVE => !t.uploads && !t.downloads
          case DOWNLOADING => t.downloading
          case SEEDING => t.seeding
          case COMPLETED => t.progress == 100
          case NONE => true;
        if chosen {
          filteredTorrents := filteredTorrents + [torrents[i]];
        }
        i := i + 1;
      }
      assert torrents[..i] == torrents;
    }

    method SetTorrentFilter(filter: TorrentFilterType)
      requires Valid()
      modifies this
      ensures Valid() && UpToDate() && torrents == old(torrents) && torrentsMap == old(torrentsMap)
      ensures Filters() == Settings(TORRENT, filter, "")
      ensures forall h :: h in filteredTorrents <==>
        h in torrentsMap && var t := torrentsMap[h];
          && (filter == ACTIVE ==> t.active)
          && (filter == NOT_ACTIVE ==> !t.uploads && !t.downloads)
          && (filter == DOWNLOADING ==> t.downloading)
          && (filter == SEEDING ==> t.seeding)
          && (filter == COMPLETED ==> t.progress == 100)
    {
      filterType, torrentFilter, groupFilter := TORRENT, filter, "";
      FilterData();
      FilterMembers(torrents, Shows());
      ShownByState(torrentsMap, filter);
      hide Filter, ShowsIn, Distinct;
    }

    /** The torrent filter stays what it was, and goes on deciding about appended torrents. */
    method SetGroupFilter(filter: string)
      requires Valid()
      modifies this
      ensures Valid() && UpToDate() && torrents == old(torrents) && torrentsMap == old(torrentsMap)
      ensures Filters() == Settings(GROUP_FILTER_TYPE, old(torrentFilter), filter)
      ensures forall h :: h in filteredTorrents <==>
        h in torrentsMap && (filter == "" || ToLower(torrentsMap[h].group) == ToLower(filter))
    {
      filterType, groupFilter := GROUP_FILTER_TYPE, filter;
      FilterData();
      FilterMembers(torrents, Shows());
    }

    method At(index: int) returns (r: Lookup)
      requires Valid()
      ensures r == LookUp(filteredTorrents, |torrentsMap|, index)
    {
      if index < |torrentsMap| {
        if 0 <= index < |filteredTorrents| {
          r := Found(filteredTorrents[index]);
        } else {
          r := OutOfRange;
        }
      } else {
        r := Null;
      }
    }

    /** libtorrent reports something new about a torrent; the timer calls FilterData later. */
    method Report(hash: string, torrent: Torrent)
      requires Valid() && hash in torrentsMap
      modifies `torrentsMap
      ensures Valid() && torrentsMap == old(torrentsMap)[hash := torrent]
      ensures old(UpToDate()) && Passes(Filters(), torrent) == Passes(Filters(), old(torrentsMap)[hash]) ==> UpToDate()
    {
      hide Passes;
      ghost var before := Shows();
      torrentsMap := torrentsMap[hash := torrent];
      if Passes(Filters(), torrent) == Passes(Filters(), old(torrentsMap)[hash]) {
        FilterAgrees(torrents, before, Shows());
      }
    }

    /** The list is ordered by name; the view is not touched, so that it goes on showing the list
        exactly when it is ordered by name itself; only then, when two torrents in it share a name. */
    method Sort()
      requires Valid()
      modifies `torrents
      ensures Valid() && filteredTorrents == old(filteredTorrents)
      ensures multiset(torrents) == multiset(old(torrents)) && Ordered(torrents, NamesIn(torrentsMap))
      ensures old(UpToDate()) && UpToDate() ==> Ordered(filteredTorrents, NamesIn(torrentsMap))
      ensures old(UpToDate()) && NamesDiffer(filteredTorrents, NamesIn(torrentsMap)) ==>
        (UpToDate() <==> Ordered(filteredTorrents, NamesIn(torrentsMap)))
    {
      hide Ordered, NamesDiffer, Passes, Filter;
      var sorted := QSort(torrents, NamesIn(torrentsMap));
      SameMembers(torrents, sorted);
      ViewAfterSort(torrents, sorted, Shows(), NamesIn(torrentsMap));
      torrents := sorted;
    }

    method Clear()
      modifies `torrentsMap, `torrents, `filteredTorrents
      ensures Valid() && UpToDate() && torrents == []
    {
      torrentsMap, torrents, filteredTorrents := map[], [], [];
    }
  }

  function NamesIn(m: map<string, Torrent>): string -> string {
    (h: string) => if h in m then m[h].name else ""
  }

  ghost function ShowsIn(m: map<string, Torrent>, f: Settings): string -> bool {
    (h: string) => h in m && Passes(f, m[h])
  }

  lemma ShownByState(m: map<string, Torrent>, filter: TorrentFilterType)
    ensures var p := ShowsIn(m, Settings(TORRENT, filter, ""));
            forall h :: p(h) <==>
              h in m && var t := m[h];
                && (filter == ACTIVE ==> t.active)
                && (filter == NOT_ACTIVE ==> !t.uploads && !t.downloads)
                && (filter == DOWNLOADING ==> t.downloading)
                && (filter == SEEDING ==> t.seeding)
                && (filter == COMPLETED ==> t.progress == 100)
  {
  }

  lemma NotShownYet(m: map<string, Torrent>, list: seq<string>, view: seq<string>, hash: string)
    requires ValidLists(m, list, view) && hash !in m
    ensures hash !in view
  {
  }

  lemma AppendCases(f: Settings, t: Torrent)
    ensures f.torrentFilter == ACTIVE ==> AppendPasses(f, t) == t.active
    ensures f.torrentFilter == DOWNLOADING ==> AppendPasses(f, t) == t.downloading
    ensures f.torrentFilter == SEEDING ==> AppendPasses(f, t) == t.seeding
    ensures f.torrentFilter == COMPLETED ==> AppendPasses(f, t) == (t.progress == 100)
    ensures f.torrentFilter == NOT_ACTIVE || f.torrentFilter == NONE ==> AppendPasses(f, t)
  {
  }

  /** Appending keeps list, map and view together, and the view up to date when the tests agree. */
  lemma Appended(m: map<string, Torrent>, list: seq<string>, view: seq<string>, f: Settings, hash: string, t: Torrent)
    requires ValidLists(m, list, view) && hash !in m
    ensures var m1, list1 := m[hash := t], list + [hash];
            var view1 := view + if AppendPasses(f, t) then [hash] else [];
            && ValidLists(m1, list1, view1)
            && (view == Filter(list, ShowsIn(m, f)) ==>
                 (view1 == Filter(list1, ShowsIn(m1, f)) <==> AppendPasses(f, t) == Passes(f, t)))
  {
    hide AppendPasses, Passes, Filter, ShowsIn;
    assert view + [] == view;
    OneMore(list, m, hash, t, f);
    SameTail(view, hash, AppendPasses(f, t), Passes(f, t));
  }

  lemma SameTail(view: seq<string>, hash: string, a: bool, b: bool)
    ensures view + (if a then [hash] else []) == view + (if b then [hash] else []) <==> a == b
  {
    if a != b { assert |view + [hash]| != |view + []|; }
  }

  lemma OneMore(list: seq<string>, m: map<string, Torrent>, hash: string, t: Torrent, f: Settings)
    requires hash !in m && forall h :: h in list ==> h in m
    ensures Filter(list + [hash], ShowsIn(m[hash := t], f)) ==
            Filter(list, ShowsIn(m, f)) + if Passes(f, t) then [hash] else []
  {
    hide Passes;
    var p, q := ShowsIn(m, f), ShowsIn(m[hash := t], f);
    FilterSnoc(list, hash, q);
    FilterAgrees(list, p, q);
  }

  lemma OneLess(list: seq<string>, m: map<string, Torrent>, hash: string, f: Settings)
    requires Distinct(list) && forall h :: h in list <==> h in m
    ensures Filter(Without(list, hash), ShowsIn(m - {hash}, f)) == Without(Filter(list, ShowsIn(m, f)), hash)
    ensures hash !in m ==> m - {hash} == m
  {
    hide Passes, Without, Filter;
    WithoutMembers(list, hash);
    FilterAgrees(Without(list, hash), ShowsIn(m, f), ShowsIn(m - {hash}, f));
    FilterWithout(list, hash, ShowsIn(m, f));
  }

  lemma SameMembers(a: seq<string>, b: seq<string>)
    requires Distinct(a) && multiset(a) == multiset(b)
    ensures Distinct(b) && forall h :: h in b <==> h in a
  {
    forall h ensures h in b <==> h in a {
      assert h in b <==> h in multiset(b);
      assert h in a <==> h in multiset(a);
    }
    DistinctCount(a);
    forall i, j | 0 <= i < j < |b| ensures b[i] != b[j] {
      if b[i] == b[j] { TwiceCount(b, i, j); }
    }
  }

  lemma {:induction false} DistinctCount(a: seq<string>)
    requires Distinct(a)
    ensures forall h :: multiset(a)[h] <= 1
  {
    if a != [] {
      var n := |a| - 1;
      DistinctCount(a[..n]);
      assert a == a[..n] + [a[n]];
      assert a[n] !in a[..n];
    }
  }

  lemma TwiceCount(b: seq<string>, i: int, j: int)
    requires 0 <= i < j < |b| && b[i] == b[j]
    ensures multiset(b)[b[i]] >= 2
  {
    assert b == b[..j] + [b[j]] + b[j + 1..];
    assert b[i] in b[..j];
    assert multiset(b) == multiset(b[..j]) + multiset([b[j]]) + multiset(b[j + 1..]);
  }

  /** Appending keeps the view up to date whatever the torrent is, exactly for the settings in which
      the two tests agree: a torrent filter other than NOT_ACTIVE, or no filter of either kind. */
  lemma WhenAppendAgrees(f: Settings)
    ensures (forall t: Torrent :: AppendPasses(f, t) == Passes(f, t)) <==>
            (match f.filterType
             case TORRENT => f.torrentFilter != NOT_ACTIVE
             case GROUP_FILTER_TYPE => f.groupFilter == "" && f.torrentFilter in {NONE, NOT_ACTIVE}
             case _ => f.torrentFilter in {NONE, NOT_ACTIVE})
  {
    var idle := Torrent(false, false, false, 0, true, true, "", "");
    var other := Torrent(false, false, false, 0, true, true, f.groupFilter + "x", "");
    assert |ToLower(other.group)| != |ToLower(f.groupFilter)|;
    if f.filterType == TORRENT {
      if f.torrentFilter == NOT_ACTIVE { assert AppendPasses(f, idle) != Passes(f, idle); }
    } else if f.torrentFilter !in {NONE, NOT_ACTIVE} {
      var same := other.(group := f.groupFilter);
      assert AppendPasses(f, same) != Passes(f, same);
    } else if f.filterType == GROUP_FILTER_TYPE && f.groupFilter != "" {
      assert AppendPasses(f, other) != Passes(f, other);
    }
  }
}
