/**
  Lists ordered by name, as qSort leaves them: elements of the same name may stand in any order.
*/
module NameOrder {
  import opened QtMaps
  import opened FilteredViews

  /** No element has a smaller name than one in front of it. */
  ghost predicate Ordered<T(!new)>(s: seq<T>, name: T -> string) {
    forall i, j :: 0 <= i < j < |s| ==> !Less(name(s[j]), name(s[i]))
  }

  ghost predicate NamesDiffer<T(!new)>(s: seq<T>, name: T -> string) {
    forall x, y :: x in s && y in s && name(x) == name(y) ==> x == y
  }

  lemma NotLessTransitive(a: string, b: string, c: string)
    requires !Less(b, a) && !Less(c, b)
    ensures !Less(c, a)
  {
    LessTotal(a, b);
    LessTotal(b, c);
    if Less(c, a) && b != c && a != b { LessTransitive(c, a, b); }
    if Less(c, a) && Less(b, c) { LessTransitive(b, c, a); }
  }

  /** x goes in front of the first element whose name is not smaller. */
  function InsertByName<T>(s: seq<T>, x: T, name: T -> string): seq<T> {
    if s == [] || !Less(name(s[0]), name(x)) then [x] + s else [s[0]] + InsertByName(s[1..], x, name)
  }

  lemma {:induction false} InsertedMembers<T(!new)>(s: seq<T>, x: T, name: T -> string)
    ensures multiset(InsertByName(s, x, name)) == multiset(s) + multiset{x}
  {
    if s != [] {
      assert s == [s[0]] + s[1..];
      if Less(name(s[0]), name(x)) { InsertedMembers(s[1..], x, name); }
    }
  }

  /** Smallest first, and the rest ordered. */
  lemma OrderedCons<T(!new)>(x: T, s: seq<T>, name: T -> string)
    requires Ordered(s, name) && (s != [] ==> !Less(name(s[0]), name(x)))
    ensures Ordered([x] + s, name)
  {
    var r := [x] + s;
    forall i, j | 0 <= i < j < |r| ensures !Less(name(r[j]), name(r[i])) {
      if i == 0 && j > 1 { NotLessTransitive(name(x), name(s[0]), name(s[j - 1])); }
    }
  }

  lemma OrderedTail<T(!new)>(s: seq<T>, name: T -> string)
    requires Ordered(s, name) && s != []
    ensures Ordered(s[1..], name)
  {
    var rest := s[1..];
    forall i, j | 0 <= i < j < |rest| ensures !Less(name(rest[j]), name(rest[i])) {
      assert rest[i] == s[i + 1] && rest[j] == s[j + 1];
    }
  }

  lemma {:induction false} InsertKeepsOrder<T(!new)>(s: seq<T>, x: T, name: T -> string)
    requires Ordered(s, name)
    ensures Ordered(InsertByName(s, x, name), name)
  {
    if s != [] && Less(name(s[0]), name(x)) {
      OrderedTail(s, name);
      InsertKeepsOrder(s[1..], x, name);
      var r := InsertByName(s[1..], x, name);
      LessAsymmetric(name(s[0]), name(x));
      if s[1..] != [] { assert !Less(name(s[1]), name(s[0])); }
      OrderedCons(s[0], r, name);
    } else {
      OrderedCons(x, s, name);
    }
  }

  lemma LessAsymmetric(a: string, b: string)
    requires Less(a, b)
    ensures !Less(b, a)
  {
    if Less(b, a) {
      LessTransitive(a, b, a);
      LessIrreflexive(a);
    }
  }

  /** The library's sort: some order of the same elements by name. */
  method QSort<T(!new)>(s: seq<T>, name: T -> string) returns (r: seq<T>)
    ensures multiset(r) == multiset(s) && Ordered(r, name)
  {
    r := [];
    var i := 0;
    assert s[..0] == [];
    while i < |s|
      invariant 0 <= i <= |s| && multiset(r) == multiset(s[..i]) && Ordered(r, name)
    {
      InsertedMembers(r, s[i], name);
      InsertKeepsOrder(r, s[i], name);
      r := InsertByName(r, s[i], name);
      assert s[..i + 1] == s[..i] + [s[i]];
      i := i + 1;
    }
    assert s[..i] == s;
  }

  /** A view of an ordered list is ordered. */
  lemma {:induction false} OrderedFilter<T(!new)>(s: seq<T>, p: T -> bool, name: T -> string)
    requires Ordered(s, name)
    ensures Ordered(Filter(s, p), name)
  {
    if s != [] {
      var n := |s| - 1;
      var front, view := s[..n], Filter(s[..n], p);
      OrderedFilter(front, p, name);
      FilterMembers(front, p);
      forall i | 0 <= i < |view| ensures !Less(name(s[n]), name(view[i])) {
        assert view[i] in front;
        var k :| 0 <= k < n && s[k] == view[i];
      }
    }
  }

  /** There is one order by name when the names differ. */
  lemma {:induction false} OneOrder<T(!new)>(a: seq<T>, b: seq<T>, name: T -> string)
    requires Ordered(a, name) && Ordered(b, name) && NamesDiffer(a, name) && multiset(a) == multiset(b)
    ensures a == b
  {
    if a != [] {
      assert a == [a[0]] + a[1..];
      assert a[0] in multiset(b) && b != [];
      assert b == [b[0]] + b[1..];
      FirstIsSmallest(a, name);
      FirstIsSmallest(b, name);
      assert b[0] in multiset(a);
      LessTotal(name(a[0]), name(b[0]));
      OrderedTail(a, name);
      OrderedTail(b, name);
      assert a[0] == b[0];
      TailMembers(a);
      TailMembers(b);
      OneOrder(a[1..], b[1..], name);
    } else {
      assert multiset(b) == multiset{};
    }
  }

  lemma TailMembers<T>(s: seq<T>)
    requires s != []
    ensures multiset(s[1..]) == multiset(s) - multiset{s[0]} && forall x :: x in s[1..] ==> x in s
  {
    assert s == [s[0]] + s[1..];
  }

  lemma FirstIsSmallest<T(!new)>(s: seq<T>, name: T -> string)
    requires Ordered(s, name) && s != []
    ensures forall x :: x in s ==> !Less(name(x), name(s[0]))
  {
    LessIrreflexive(name(s[0]));
  }

  lemma {:induction false} FilterPermuted<T(!new)>(s: seq<T>, p: T -> bool)
    ensures forall x :: multiset(Filter(s, p))[x] == if p(x) then multiset(s)[x] else 0
  {
    if s != [] {
      var n := |s| - 1;
      assert s == s[..n] + [s[n]];
      FilterPermuted(s[..n], p);
    }
  }

  /** After the list has been ordered by name, a view that showed it before shows it still only if the
      view is ordered by name, and, where the names in the view differ, exactly then. */
  lemma ViewAfterSort<T(!new)>(list: seq<T>, sorted: seq<T>, p: T -> bool, name: T -> string)
    requires multiset(sorted) == multiset(list) && Ordered(sorted, name)
    ensures Filter(sorted, p) == Filter(list, p) ==> Ordered(Filter(list, p), name)
    ensures NamesDiffer(Filter(list, p), name) ==>
      (Filter(sorted, p) == Filter(list, p) <==> Ordered(Filter(list, p), name))
  {
    OrderedFilter(sorted, p, name);
    FilterPermuted(sorted, p);
    FilterPermuted(list, p);
    var a, b := Filter(list, p), Filter(sorted, p);
    assert multiset(a) == multiset(b) by {
      forall x ensures multiset(a)[x] == multiset(b)[x] {}
    }
    if NamesDiffer(a, name) && Ordered(a, name) { OneOrder(a, b, name); }
  }
}
