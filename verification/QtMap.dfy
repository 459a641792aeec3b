/**
  QMap with byte strings as keys: the entries in ascending order of their keys.
*/
module QtMaps {
  import opened QtText

  type StringMap<V> = seq<(string, V)>

  /** Order of byte strings. */
  predicate Less(a: string, b: string) {
    b != "" && (a == "" || a[0] < b[0] || (a[0] == b[0] && Less(a[1..], b[1..])))
  }

  ghost predicate Sorted<V>(m: StringMap<V>) {
    forall i, j :: 0 <= i < j < |m| ==> Less(m[i].0, m[j].0)
  }

  /** Insert an entry, or replace the one with the same key. */
  function Insert<V>(m: StringMap<V>, key: string, value: V): StringMap<V> {
    if m == [] then [(key, value)]
    else if m[0].0 == key then [(key, value)] + m[1..]
    else if Less(key, m[0].0) then [(key, value)] + m
    else [m[0]] + Insert(m[1..], key, value)
  }

  function Get<V>(m: StringMap<V>, key: string): Option<V> {
    if m == [] then None else if m[0].0 == key then Some(m[0].1) else Get(m[1..], key)
  }

  lemma {:induction false} LessTotal(a: string, b: string)
    ensures a == b || Less(a, b) || Less(b, a)
  {
    if a != "" && b != "" {
      LessTotal(a[1..], b[1..]);
      if a[0] == b[0] && a[1..] == b[1..] { assert a == [a[0]] + a[1..] && b == [b[0]] + b[1..]; }
    }
  }

  lemma {:induction false} LessTransitive(a: string, b: string, c: string)
    requires Less(a, b) && Less(b, c)
    ensures Less(a, c)
  {
    if a != "" && b != "" && c != "" && a[0] == b[0] == c[0] { LessTransitive(a[1..], b[1..], c[1..]); }
  }

  lemma {:induction false} LessIrreflexive(a: string)
    ensures !Less(a, a)
  {
    if a != "" { LessIrreflexive(a[1..]); }
  }

  /** The texts agree up to k, and there the first one ends or has the smaller character. */
  predicate DiffersAt(a: string, b: string, k: nat) {
    k <= |a| && k < |b| && a[..k] == b[..k] && (k == |a| || a[k] < b[k])
  }

  /** The order is decided by the first character in which two texts differ. */
  lemma {:induction false} LessIsFirstDifference(a: string, b: string)
    ensures Less(a, b) <==> exists k: nat :: DiffersAt(a, b, k)
    decreases |a|
  {
    if a == "" {
      assert b != "" ==> DiffersAt(a, b, 0);
    } else if b != "" {
      LessIsFirstDifference(a[1..], b[1..]);
      if Less(a, b) {
        if a[0] < b[0] {
          assert DiffersAt(a, b, 0);
        } else {
          var k: nat :| DiffersAt(a[1..], b[1..], k);
          DiffersLater(a, b, k + 1);
        }
      }
      if k: nat :| DiffersAt(a, b, k) {
        if k > 0 { DiffersLater(a, b, k); }
      }
    }
  }

  lemma DiffersLater(a: string, b: string, k: nat)
    requires a != "" && b != "" && k > 0
    ensures DiffersAt(a, b, k) <==> a[0] == b[0] && DiffersAt(a[1..], b[1..], k - 1)
  {
    if k <= |a| && k <= |b| {
      assert a[..k] == [a[0]] + a[1..][..k - 1] && b[..k] == [b[0]] + b[1..][..k - 1];
      assert a[..k][0] == a[0] && a[..k][1..] == a[1..][..k - 1];
      assert b[..k][0] == b[0] && b[..k][1..] == b[1..][..k - 1];
    }
  }

  lemma {:induction false} NotInside<V>(m: StringMap<V>, key: string)
    requires forall i :: 0 <= i < |m| ==> m[i].0 != key
    ensures Get(m, key) == None
  {
    if m != [] { NotInside(m[1..], key); }
  }

  lemma {:induction false} InsertedKeys<V>(m: StringMap<V>, key: string, value: V)
    ensures forall e :: e in Insert(m, key, value) ==> e == (key, value) || e in m
  {
    if m != [] { InsertedKeys(m[1..], key, value); }
  }

  /** Insertion keeps the order, and afterwards only that key has a new value. */
  lemma {:induction false} InsertSorted<V>(m: StringMap<V>, key: string, value: V, other: string)
    requires Sorted(m)
    ensures Sorted(Insert(m, key, value))
    ensures Get(Insert(m, key, value), other) == if other == key then Some(value) else Get(m, other)
  {
    hide Less;
    if m != [] {
      var m1 := Insert(m, key, value);
      if m[0].0 == key {
        assert m1[1..] == m[1..];
      } else if Less(key, m[0].0) {
        assert m1[1..] == m;
        forall j | 0 <= j < |m| ensures Less(key, m[j].0) {
          if j > 0 { LessTransitive(key, m[0].0, m[j].0); }
        }
      } else {
        InsertSorted(m[1..], key, value, other);
        var rest := Insert(m[1..], key, value);
        assert m1[1..] == rest;
        InsertedKeys(m[1..], key, value);
        LessTotal(key, m[0].0);
        forall j | 0 <= j < |rest| ensures Less(m[0].0, rest[j].0) {
          assert rest[j] in rest;
        }
      }
    }
  }

  /** Looking up a key finds exactly its entry. */
  lemma {:induction false} GetIsEntry<V>(m: StringMap<V>, key: string, value: V)
    requires Sorted(m)
    ensures Get(m, key) == Some(value) <==> (key, value) in m
    ensures Get(m, key) == None <==> forall i :: 0 <= i < |m| ==> m[i].0 != key
  {
    hide Less;
    if m != [] {
      GetIsEntry(m[1..], key, value);
      if m[0].0 == key {
        LessIrreflexive(key);
        assert forall i :: 0 < i < |m| ==> m[i].0 != key;
      }
    }
  }
}
