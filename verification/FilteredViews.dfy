/**
  Lists and the views that filter them: the common part of TorrentStorrage.cpp and
  SearchItemsStorrage.cpp.
*/
module FilteredViews {
  import opened Sequences

  /** The elements of s that satisfy p, in the order of s. */
  function Filter<T>(s: seq<T>, p: T -> bool): seq<T> {
    if s == [] then []
    else
      var n := |s| - 1;
      Filter(s[..n], p) + if p(s[n]) then [s[n]] else []
  }

  /** The list without its element x. */
  function Without<T(==)>(s: seq<T>, x: T): seq<T> {
    if s == [] then []
    else
      var n := |s| - 1;
      if s[n] == x then s[..n] else Without(s[..n], x) + [s[n]]
  }

  lemma FilterSnoc<T>(s: seq<T>, x: T, p: T -> bool)
    ensures Filter(s + [x], p) == Filter(s, p) + if p(x) then [x] else []
  {
    assert (s + [x])[..|s|] == s;
  }

  lemma {:induction false} FilterMembers<T>(s: seq<T>, p: T -> bool)
    ensures forall x :: x in Filter(s, p) <==> x in s && p(x)
  {
    if s != [] {
      var n := |s| - 1;
      FilterMembers(s[..n], p);
      assert s == s[..n] + [s[n]];
    }
  }

  /** The indices ks, in ascending order, of the elements that satisfy p are those of r. */
  ghost predicate Chosen<T(!new)>(s: seq<T>, p: T -> bool, r: seq<T>, ks: seq<int>) {
    && |ks| == |r| && (forall i :: 0 <= i < |ks| ==> 0 <= ks[i] < |s| && r[i] == s[ks[i]])
    && (forall i, j :: 0 <= i < j < |ks| ==> ks[i] < ks[j])
    && (forall k :: 0 <= k < |s| ==> (k in ks <==> p(s[k])))
  }

  lemma ChooseNext<T(!new)>(s: seq<T>, p: T -> bool, r: seq<T>, ks: seq<int>)
    requires s != [] && Chosen(s[..|s| - 1], p, r, ks)
    ensures var n := |s| - 1;
            if p(s[n]) then Chosen(s, p, r + [s[n]], ks + [n]) else Chosen(s, p, r, ks)
  {
    var n := |s| - 1;
    assert n !in ks && forall k :: 0 <= k < n ==> s[..n][k] == s[k];
    assert forall k :: k in ks + [n] <==> k in ks || k == n;
  }

  /** A view holds exactly the elements that satisfy p, each as often as the list, in the order of the
      list. */
  lemma {:induction false} FilterIs<T(!new)>(s: seq<T>, p: T -> bool) returns (ks: seq<int>)
    ensures Chosen(s, p, Filter(s, p), ks)
    decreases |s|
  {
    hide Chosen;
    if s == [] {
      ks := [];
      NoneChosen(p);
    } else {
      var n := |s| - 1;
      ks := FilterIs(s[..n], p);
      ChooseNext(s, p, Filter(s[..n], p), ks);
      assert Filter(s[..n], p) + [] == Filter(s[..n], p);
      if p(s[n]) { ks := ks + [n]; }
    }
  }

  lemma NoneChosen<T(!new)>(p: T -> bool)
    ensures Chosen([], p, [], [])
  {
  }

  lemma {:induction false} FilterAll<T>(s: seq<T>, p: T -> bool)
    requires forall x :: x in s ==> p(x)
    ensures Filter(s, p) == s
  {
    if s != [] {
      var n := |s| - 1;
      assert s[n] in s;
      FrontMembers(s);
      FilterAll(s[..n], p);
      assert s == s[..n] + [s[n]];
    }
  }

  lemma {:induction false} FilterDistinct<T>(s: seq<T>, p: T -> bool)
    requires Distinct(s)
    ensures Distinct(Filter(s, p))
  {
    if s != [] {
      var n := |s| - 1;
      FilterDistinct(s[..n], p);
      FilterMembers(s[..n], p);
      var front := Filter(s[..n], p);
      forall i | 0 <= i < |front| ensures front[i] != s[n] {
        assert front[i] in front;
      }
    }
  }

  lemma {:induction false} FilterAgrees<T>(s: seq<T>, p: T -> bool, q: T -> bool)
    requires forall x :: x in s ==> p(x) == q(x)
    ensures Filter(s, p) == Filter(s, q)
  {
    if s != [] {
      var n := |s| - 1;
      assert s[n] in s && forall x :: x in s[..n] ==> x in s;
      FilterAgrees(s[..n], p, q);
    }
  }

  lemma {:induction false} WithoutAbsent<T>(s: seq<T>, x: T)
    requires x !in s
    ensures Without(s, x) == s
  {
    if s != [] {
      var n := |s| - 1;
      assert s[n] in s && forall y :: y in s[..n] ==> y in s;
      WithoutAbsent(s[..n], x);
      assert s == s[..n] + [s[n]];
    }
  }

  lemma {:induction false} WithoutMembers<T>(s: seq<T>, x: T)
    requires Distinct(s)
    ensures Distinct(Without(s, x)) && forall y :: y in Without(s, x) <==> y in s && y != x
  {
    if s != [] {
      var n := |s| - 1;
      var front := s[..n];
      assert s == front + [s[n]];
      assert s[n] !in front;
      if s[n] != x {
        WithoutMembers(front, x);
        var w := Without(front, x);
        forall i | 0 <= i < |w| ensures w[i] != s[n] { assert w[i] in w; }
      }
    }
  }

  /** Taking an element out of the list and then filtering is the same as taking it out of the view. */
  lemma {:induction false} FilterWithout<T>(s: seq<T>, x: T, p: T -> bool)
    requires Distinct(s)
    ensures Filter(Without(s, x), p) == Without(Filter(s, p), x)
  {
    if s != [] {
      var n := |s| - 1;
      var front := s[..n];
      if s[n] == x {
        FilterMembers(front, p);
        assert x !in front;
        var f := Filter(front, p);
        WithoutAbsent(f, x);
        if p(x) {
          assert Filter(s, p) == f + [x] && (f + [x])[..|f|] == f;
        } else {
          assert Filter(s, p) == f + [] == f;
        }
      } else {
        FilterWithout(front, x, p);
        FilterSnoc(Without(front, x), s[n], p);
        var f := Filter(front, p);
        if p(s[n]) {
          WithoutSnoc(f, s[n], x);
        } else {
          assert f + [] == f && Filter(Without(front, x), p) + [] == Filter(Without(front, x), p);
        }
      }
    }
  }

  lemma WithoutSnoc<T>(s: seq<T>, y: T, x: T)
    requires y != x
    ensures Without(s + [y], x) == Without(s, x) + [y]
  {
    assert (s + [y])[..|s|] == s;
  }

  lemma {:induction false} WithoutAt<T>(s: seq<T>, k: nat)
    requires k < |s| && Distinct(s)
    ensures Without(s, s[k]) == s[..k] + s[k + 1..]
    decreases |s|
  {
    var n := |s| - 1;
    if k < n {
      WithoutAt(s[..n], k);
      assert s[..n][k] == s[k] && s[..n][..k] == s[..k];
      assert s[k + 1..] == s[..n][k + 1..] + [s[n]];
    }
  }

  /** QList::removeAt. */
  method RemoveAt<T(==)>(s: seq<T>, k: nat) returns (r: seq<T>)
    requires k < |s| && Distinct(s)
    ensures r == Without(s, s[k])
  {
    WithoutAt(s, k);
    r := s[..k] + s[k + 1..];
  }

  /** QList::indexOf. */
  method Position<T(==)>(s: seq<T>, x: T) returns (k: int)
    ensures -1 <= k < |s| && (k == -1 <==> x !in s) && (k >= 0 ==> s[k] == x)
  {
    k := 0;
    while k < |s|
      invariant 0 <= k <= |s| && x !in s[..k]
    {
      if s[k] == x {
        return;
      }
      assert s[..k + 1] == s[..k] + [s[k]];
      k := k + 1;
    }
    assert s[..k] == s;
    k := -1;
  }
}
