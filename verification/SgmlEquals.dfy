/**
  Values with an equals sign in them (QSgmlTag.cpp:80-128): outside double quotes it is taken for that of
  a next attribute, and the tag does not get what was written.
*/
module SgmlEquals {
  import opened QtText
  import opened SgmlModel
  import opened SgmlAttributes
  import opened SgmlTagText
  import opened SgmlWritten

  /** All values are shorter than n. */
  predicate Shorter(a: Attributes, n: nat) { forall i :: 0 <= i < |a| ==> |a[i].1| < n }

  predicate HasKey(a: Attributes, key: string) { exists i :: 0 <= i < |a| && a[i].0 == key }

  lemma {:induction false} PutKeeps(a: Attributes, key: string, value: string, other: string, n: nat)
    ensures HasKey(Put(a, key, value), key) && (HasKey(a, other) ==> HasKey(Put(a, key, value), other))
    ensures Shorter(a, n) && |value| < n ==> Shorter(Put(a, key, value), n)
  {
    var r := Put(a, key, value);
    if a == [] || a[0].0 == key {
      assert r[0].0 == key;
      if HasKey(a, other) {
        var i :| 0 <= i < |a| && a[i].0 == other;
        assert r[i].0 == other;
      }
    } else {
      PutKeeps(a[1..], key, value, other, n);
      var rest := Put(a[1..], key, value);
      var k :| 0 <= k < |rest| && rest[k].0 == key;
      assert r[k + 1].0 == key;
      if HasKey(a, other) {
        var i :| 0 <= i < |a| && a[i].0 == other;
        if i == 0 {
          assert r[0].0 == other;
        } else {
          assert a[1..][i - 1].0 == other;
          var j :| 0 <= j < |rest| && rest[j].0 == other;
          assert r[j + 1].0 == other;
        }
      }
    }
  }

  lemma ValueIsInside(all: string, e: int)
    requires -1 <= e < |all|
    ensures |ValueText(all, e)| <= |all|
    ensures ValueText(all, e) != "" ==> |Unquote(ValueText(all, e))| <= |ValueText(all, e)|
  {
    hide Trim, LastBlank;
  }

  /** Keys stay, the key that is being read comes in, and no value is longer than the text that is left. */
  lemma {:induction false} ReadingKeeps(sc: Scan, a: Attributes, other: string, n: nat)
    requires ReadAttributes(sc, a).Some?
    ensures var r := ReadAttributes(sc, a).value;
            && (HasKey(a, other) ==> HasKey(r, other))
            && (sc.endName != -1 ==> HasKey(r, ToLower(sc.attrName)))
            && (Shorter(a, n) && |sc.all| < n ==> Shorter(r, n))
    decreases if sc.endName == -1 then 0 else |sc.all| + 1
  {
    hide NextEquals, ValueText, Unquote, ToLower, HasKey, Shorter, Put, NextScan;
    if sc.endName != -1 {
      var e := NextEquals(sc.all);
      var text := ValueText(sc.all, e);
      ValueIsInside(sc.all, e);
      var key, a1 := ToLower(sc.attrName), Put(a, ToLower(sc.attrName), Unquote(text));
      PutKeeps(a, key, Unquote(text), other, n);
      PutKeeps(a, key, Unquote(text), key, n);
      if e != -1 {
        NextIsBehind(sc, e);
        ReadingKeeps(NextScan(sc, e), a1, other, n);
        ReadingKeeps(NextScan(sc, e), a1, key, n);
      }
    }
  }

  lemma NextIsBehind(sc: Scan, e: int)
    requires 0 <= e < |sc.all|
    ensures var next := NextScan(sc, e); next.endName == e && |next.all| <= |sc.all| - e - 1
    ensures LastBlank(sc.all[..e]) == -1 ==> NextScan(sc, e).attrName == Trim(sc.all[..e])
  {
    hide Trim, LastBlank;
    if LastBlank(sc.all[..e]) == -1 { assert Mid(sc.all, -1, e + 1) == sc.all[..e]; }
  }

  /** An equals sign outside double quotes is taken for that of a next attribute. */
  lemma EqualsInside(w: Written)
    requires CanStand(w) && !w.quotes.DoubleQuotes? && !NoChar(w.value, '=')
    ensures var all := ValueOf(w); var e := NextEquals(all);
            && 0 <= e < |all| && all[e] == '=' && e < |w.value| + 1 && (w.quotes.SingleQuotes? ==> e >= 1)
            && (w.quotes.NoQuotes? ==> e < |w.value|)
  {
    var all := ValueOf(w);
    var i :| 0 <= i < |w.value| && w.value[i] == '=';
    var j := if w.quotes.SingleQuotes? then i + 1 else i;
    assert all[j] == '=';
    assert FindChar(all, '\"', 0) == -1;
    assert FindChar(all, '=', 0) == NextEquals(all);
  }

  lemma FirstValue(all: string, e: int)
    requires 0 <= e < |all|
    ensures var st := LastBlank(all[..e]);
            ValueText(all, e) == Trim(if st == -1 then all else all[..st])
    ensures |ValueText(all, e)| <= if LastBlank(all[..e]) == -1 then |all| else LastBlank(all[..e])
  {
    hide Trim, LastBlank;
  }

  /** Then the result is not the one attribute. */
  lemma NotTheOne(sc: Scan, w: Written)
    requires CanStand(w) && GoodKey(w.key) && !w.quotes.DoubleQuotes? && !NoChar(w.value, '=')
    requires sc.endName != -1 && sc.attrName == w.key && sc.all == ValueOf(w)
    ensures ReadAttributes(sc, []) != Some([(ToLower(w.key), w.value)])
  {
    hide *;
    var all, n, key := ValueOf(w), |w.value|, ToLower(w.key);
    EqualsInside(w);
    var e := NextEquals(all);
    FirstValue(all, e);
    ValueIsInside(all, e);
    NextIsBehind(sc, e);
    Sizes(w);
    var text, next := ValueText(all, e), NextScan(sc, e);
    OneRead(sc, e);
    if text == "" { return; }
    var a := Put([], key, Unquote(text));
    if ReadAttributes(next, a).Some? {
      var q := ReadAttributes(next, a).value;
      ReadingKeeps(next, a, key, n);
      if LastBlank(all[..e]) == -1 && (w.quotes.SingleQuotes? || ToLower(next.attrName) != key) {
        if w.quotes.SingleQuotes? { StartsWithQuote(all, e, w.key); }
        TwoKeys(q, key, ToLower(next.attrName), w.value);
      } else if LastBlank(all[..e]) == -1 {
        PutAlone(key, Unquote(text), n);
        KeyAgain(next, a, key, n);
        TooShort(q, key, w.value);
      } else {
        BlankIsEarlier(w, e);
        PutAlone(key, Unquote(text), n);
        TooShort(q, key, w.value);
      }
    }
  }

  lemma Sizes(w: Written)
    ensures !w.quotes.DoubleQuotes? ==> |ValueOf(w)| == |w.value| + if w.quotes.SingleQuotes? then 2 else 0
    ensures w.quotes.SingleQuotes? ==> ValueOf(w)[0] == '\''
  {
  }

  lemma OneRead(sc: Scan, e: int)
    requires sc.endName != -1 && 0 <= e < |sc.all| && e == NextEquals(sc.all)
    ensures var text := ValueText(sc.all, e);
            if text == "" then ReadAttributes(sc, []) == None
            else ReadAttributes(sc, []) ==
                 ReadAttributes(NextScan(sc, e), Put([], ToLower(sc.attrName), Unquote(text)))
  {
    hide NextEquals, ValueText, NextScan, Put, ToLower, Unquote;
  }

  lemma {:induction false} TrimRightKeeps(s: string)
    requires s != "" && !IsSpace(s[0])
    ensures TrimRight(s) != "" && TrimRight(s)[0] == s[0]
    decreases |s|
  {
    hide IsSpace;
    if IsSpace(s[|s| - 1]) { TrimRightKeeps(s[..|s| - 1]); }
  }

  lemma KeepsFirst(s: string)
    requires s != "" && !IsSpace(s[0])
    ensures Trim(s) != "" && Trim(s)[0] == s[0]
  {
    TrimRightKeeps(s);
    hide TrimRight;
  }

  lemma StartsWithQuote(all: string, e: int, key: string)
    requires 0 < e <= |all| && all[0] == '\'' && GoodKey(key)
    ensures ToLower(Trim(all[..e])) != ToLower(key)
  {
    var s := all[..e];
    KeepsFirst(s);
    hide Trim;
    var t := Trim(s);
    assert ToLower(t)[0] == '\'';
    assert forall i :: 0 <= i < |key| ==> ToLower(key)[i] != '\'';
  }

  lemma TwoKeys(q: Attributes, key: string, other: string, value: string)
    requires HasKey(q, other) && other != key
    ensures q != [(key, value)]
  {
    OnlyKey(key, value, other);
  }

  lemma OnlyKey(key: string, value: string, other: string)
    ensures HasKey([(key, value)], other) <==> key == other
  {
    assert [(key, value)][0].0 == key;
  }

  lemma TooShort(q: Attributes, key: string, value: string)
    requires Shorter(q, |value|)
    ensures q != [(key, value)]
  {
    assert !Shorter([(key, value)], |value|) by { assert [(key, value)][0].1 == value; }
  }

  lemma PutAlone(key: string, value: string, n: nat)
    ensures Put([], key, value) == [(key, value)] && (|value| < n ==> Shorter(Put([], key, value), n))
  {
  }

  /** A key that comes again gets a shorter value. */
  lemma KeyAgain(sc: Scan, a: Attributes, key: string, n: nat)
    requires sc.endName != -1 && ToLower(sc.attrName) == key && |sc.all| < n
    requires |a| == 1 && a[0].0 == key && ReadAttributes(sc, a).Some?
    ensures Shorter(ReadAttributes(sc, a).value, n)
  {
    hide NextEquals, ValueText, NextScan, Unquote, ToLower;
    var e := NextEquals(sc.all);
    ValueIsInside(sc.all, e);
    var a1 := Put(a, key, Unquote(ValueText(sc.all, e)));
    assert a1 == [(key, Unquote(ValueText(sc.all, e)))];
    if e != -1 {
      NextIsBehind(sc, e);
      ReadingKeeps(NextScan(sc, e), a1, key, n);
    }
  }

  lemma BlankIsEarlier(w: Written, e: int)
    requires 0 <= e <= |ValueOf(w)| && LastBlank(ValueOf(w)[..e]) != -1
    ensures LastBlank(ValueOf(w)[..e]) < e && (w.quotes.SingleQuotes? ==> LastBlank(ValueOf(w)[..e]) > 0)
  {
  }

  /** One attribute in single quotes or bare is read as it is if and only if there is no equals sign in its
      value. */
  lemma OneAttributeExactly(name: string, w: Written)
    requires ReadableTag(name, [w]) && !w.quotes.DoubleQuotes?
    ensures ParseTag(TagWritten(name, [w])) == Some((ToLower(name), [(ToLower(w.key), w.value)])) <==> '=' !in w.value
  {
    hide *;
    ReadableHead(name, [w]);
    ReadableParts(w);
    FirstPart(name, [w]);
    NameOfWritten(name, [w]);
    EqualsOrNot(w);
    if NoChar(w.value, '=') {
      AloneIsGood(name, w);
      ReadsAttributesAsWritten(name, [w]);
      OnePair(w);
    } else {
      var sc := FirstScan(AttributePart(TagWritten(name, [w])));
      NothingBehind(w);
      NotTheOne(sc, w);
      ParsesAs(TagWritten(name, [w]), ToLower(name));
    }
  }

  lemma EqualsOrNot(w: Written)
    ensures NoChar(w.value, '=') <==> '=' !in w.value
  {
  }

  lemma AloneIsGood(name: string, w: Written)
    requires ReadableTag(name, [w]) && NoChar(w.value, '=')
    ensures GoodTag(name, [w]) && KeysDiffer([w])
  {
    hide CanStand, Blanks, GoodKey, GoodName;
    assert Readable([w][0]);
  }

  lemma OnePair(w: Written)
    ensures KeysAndValues([w]) == [(ToLower(w.key), w.value)]
  {
    hide ToLower;
  }

  lemma NothingBehind(w: Written)
    ensures Behind([w][0], [w][1..]) == ValueOf(w)
  {
    assert [w][1..] == [];
    assert ValueOf(w) + "" == ValueOf(w);
  }

  lemma ParsesAs(inner: string, name: string)
    requires TagName(inner) == Some(name)
    ensures ParseTag(inner) ==
            match ReadAttributes(FirstScan(AttributePart(inner)), [])
            case None => None
            case Some(a) => Some((name, a))
  {
    hide TagName, ReadAttributes, FirstScan, AttributePart;
  }
}
