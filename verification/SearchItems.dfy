/**
  The list of search results with its view for one search engine (SearchItemsStorrage.cpp).
*/
module SearchItems {
  import opened QtText
  import opened Sequences
  import opened FilteredViews

  class SearchResult {
    const engine: string

    constructor (engine: string)
      ensures this.engine == engine
    {
      this.engine := engine;
    }
  }

  function OfEngine(engine: string): SearchResult -> bool {
    (item: SearchResult) => engine == "" || ToLower(item.engine) == ToLower(engine)
  }

  class SearchItemsStorrage {
    var engineName: string
    var items: seq<SearchResult>
    var filteredItems: seq<SearchResult>

    ghost predicate Valid()
      reads this
    {
      ValidLists(items, filteredItems)
    }

    /** The view is the filtered list, in the order of the list. */
    ghost predicate UpToDate()
      reads this
    {
      filteredItems == Filter(items, OfEngine(engineName))
    }

    constructor ()
      ensures Valid() && UpToDate() && items == [] && engineName == ""
    {
      engineName, items, filteredItems := "", [], [];
    }

    method FilterData()
      requires Valid()
      modifies `filteredItems
      ensures Valid() && UpToDate()
    {
      hide ToLower;
      ghost var p := OfEngine(engineName);
      if engineName == "" {
        filteredItems := items;
        FilterAll(items, p);
      } else {
        filteredItems := [];
        var i := 0;
        assert items[..0] == [];
        while i < |items|
          invariant 0 <= i <= |items|
          invariant filteredItems == Filter(items[..i], p)
        {
          assert items[..i + 1] == items[..i] + [items[i]];
          FilterSnoc(items[..i], items[i], p);
          if ToLower(items[i].engine) == ToLower(engineName) {
            filteredItems := filteredItems + [items[i]];
          }
          i := i + 1;
        }
        assert items[..i] == items;
      }
      FilterDistinct(items, p);
      FilterMembers(items, p);
    }

    method SetFilter(engine: string)
      requires Valid()
      modifies `engineName, `filteredItems
      ensures Valid() && UpToDate() && engineName == engine
      ensures forall x :: x in filteredItems <==>
        x in items && (engine == "" || ToLower(x.engine) == ToLower(engine))
    {
      engineName := engine;
      FilterData();
      FilterMembers(items, OfEngine(engine));
    }

    /** The comparison for the view is the wrong way round: with a filter set, exactly the results of
        the other engines are shown.  The view stays right exactly when no filter is set. */
    method Append(item: SearchResult)
      requires Valid()
      modifies `items, `filteredItems
      ensures Valid() && item in items
      ensures item in old(items) ==> items == old(items) && filteredItems == old(filteredItems)
      ensures item !in old(items) ==>
        && items == old(items) + [item]
        && filteredItems ==
           old(filteredItems) + (if engineName == "" || ToLower(item.engine) != ToLower(engineName) then [item] else [])
        && (old(UpToDate()) ==> (UpToDate() <==> engineName == ""))
    {
      hide ToLower, Filter;
      if item in items {
        return;
      }
      assert filteredItems + [] == filteredItems && |filteredItems + [item]| == |filteredItems| + 1;
      FilterSnoc(items, item, OfEngine(engineName));
      items := items + [item];
      if engineName == "" {
        filteredItems := filteredItems + [item];
      } else {
        if ToLower(item.engine) != ToLower(engineName) {
          filteredItems := filteredItems + [item];
        }
      }
    }

    method Remove(item: SearchResult)
      requires Valid()
      modifies `items, `filteredItems
      ensures Valid()
      ensures items == Without(old(items), item) && filteredItems == Without(old(filteredItems), item)
      ensures old(UpToDate()) ==> UpToDate()
    {
      hide Without, Filter, OfEngine, Distinct;
      StaysValid(items, filteredItems, item);
      FilterWithout(items, item, OfEngine(engineName));
      var itemIndex := Position(items, item);
      if itemIndex < 0 {
        WithoutAbsent(items, item);
        WithoutAbsent(filteredItems, item);
        return;
      }
      var iterIndex := Position(filteredItems, item);
      if iterIndex >= 0 {
        filteredItems := RemoveAt(filteredItems, iterIndex);
      } else {
        WithoutAbsent(filteredItems, item);
      }
      items := RemoveAt(items, itemIndex);
    }
  }

  ghost predicate ValidLists(items: seq<SearchResult>, view: seq<SearchResult>) {
    Distinct(items) && Distinct(view) && forall x :: x in view ==> x in items
  }

  lemma StaysValid(items: seq<SearchResult>, view: seq<SearchResult>, item: SearchResult)
    requires ValidLists(items, view)
    ensures ValidLists(Without(items, item), Without(view, item))
  {
    WithoutMembers(items, item);
    WithoutMembers(view, item);
  }
}
