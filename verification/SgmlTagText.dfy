/**
  Printing the inside of a tag and reading it back: SetNameAttributes undoes the printer for
  every name and every attribute list the printer can be given without changing its meaning.
*/
module SgmlTagText {
  import opened QtText
  import opened SgmlModel
  import opened SgmlAttributes
  import opened SgmlPrint

  predicate NoChar(s: string, c: char) {
    forall i :: 0 <= i < |s| ==> s[i] != c
  }

  predicate NoSpace(s: string) {
    forall i :: 0 <= i < |s| ==> !IsSpace(s[i])
  }

  /** A word that can stand as a name or key in a tag. */
  predicate IsWord(s: string) {
    && s != [] && IsLower(s) && NoSpace(s)
    && NoChar(s, '=') && NoChar(s, '\"') && NoChar(s, '\'') && NoChar(s, '<') && NoChar(s, '>')
  }

  predicate IsName(s: string) {
    IsWord(s) && s[0] != '!' && s[0] != '/' && s[|s| - 1] != '/'
  }

  predicate NoKey(a: Attributes, key: string) {
    forall i :: 0 <= i < |a| ==> a[i].0 != key
  }

  predicate GoodAttributes(a: Attributes) {
    a == [] || (IsWord(a[0].0) && NoChar(a[0].1, '\"') && NoKey(a[1..], a[0].0) && GoodAttributes(a[1..]))
  }

  // ----- searching in a text made of parts

  lemma FindCharSkip(a: string, b: string, c: char, i: nat)
    requires i <= |a| && forall k :: i <= k < |a| ==> a[k] != c
    ensures FindChar(a + b, c, i) == if FindChar(b, c, 0) == -1 then -1 else |a| + FindChar(b, c, 0)
  {
    var r := FindChar(b, c, 0);
    if r != -1 { assert (a + b)[|a| + r] == c; }
    if FindChar(a + b, c, i) != -1 { assert b[FindChar(a + b, c, i) - |a|] == c; }
  }

  lemma FindCharHere(a: string, b: string, c: char, i: nat)
    requires i <= |a| && forall k :: i <= k < |a| ==> a[k] != c
    requires b != [] && b[0] == c
    ensures FindChar(a + b, c, i) == |a|
  {
    FindCharSkip(a, b, c, i);
  }

  lemma {:induction false} LastBlankAt(a: string, word: string)
    requires NoSpace(word)
    ensures LastBlank(a + " " + word) == |a|
  {
    if word == [] {
      assert a + " " + word == a + " ";
    } else {
      var n := |word| - 1;
      var s := a + " " + word;
      assert s[..|s| - 1] == a + " " + word[..n];
      LastBlankAt(a, word[..n]);
    }
  }

  // ----- one attribute

  /** `all` at a turn of the loop: a quoted value, and then the other attributes. */
  function ValueAndRest(value: string, rest: Attributes): string {
    "\"" + value + "\"" + AttrText(rest)
  }

  lemma ValueAndRestTrimmed(value: string, rest: Attributes)
    ensures Trimmed(ValueAndRest(value, rest))
  {
    AttrTextEnd(rest);
  }

  lemma {:induction false} AttrTextEnd(a: Attributes)
    ensures a != [] ==> AttrText(a) != [] && AttrText(a)[|AttrText(a)| - 1] == '\"' && AttrText(a)[0] == ' '
  {
    if a != [] { AttrTextEnd(a[1..]); }
  }

  /** Position of the next equals sign behind a quoted value: the value itself is skipped. */
  lemma NextEqualsLast(value: string)
    requires NoChar(value, '\"')
    ensures NextEquals(ValueAndRest(value, [])) == -1
  {
    var all := "\"" + value + "\"";
    assert ValueAndRest(value, []) == all;
    assert FindChar(all, '\"', 0) == 0;
    if FindChar(all, '=', 0) != -1 {
      QuoteCloses(value, "");
      assert FindChar(all, '=', |all|) == -1;
    }
  }

  lemma QuoteCloses(value: string, rest: string)
    requires NoChar(value, '\"')
    ensures FindChar("\"" + value + "\"" + rest, '\"', 1) == |value| + 1
  {
    assert "\"" + value + "\"" + rest == ("\"" + value) + ("\"" + rest);
    FindCharHere("\"" + value, "\"" + rest, '\"', 1);
  }

  lemma NextEqualsMore(value: string, key: string, v2: string, rest: Attributes)
    requires NoChar(value, '\"') && IsWord(key)
    ensures NextEquals(ValueAndRest(value, [(key, v2)] + rest)) == |value| + 3 + |key|
  {
    var a := [(key, v2)] + rest;
    var all := ValueAndRest(value, a);
    assert a[1..] == rest;
    var tail := "=\"" + v2 + "\"" + AttrText(rest);
    var head := "\"" + value + "\"" + " " + key;
    assert AttrText(a) == " " + key + tail;
    assert all == head + tail;
    assert FindChar(all, '\"', 0) == 0;
    assert all == "\"" + value + "\"" + AttrText(a);
    QuoteCloses(value, AttrText(a));
    assert head[|value| + 2] == ' ';
    assert forall k :: |value| + 2 < k < |head| ==> head[k] == key[k - |value| - 3];
    FindCharHere(head, tail, '=', |value| + 2);
    assert all[|head|] == '=';
  }

  lemma UnquoteValue(value: string)
    ensures Unquote("\"" + value + "\"") == value
  {
    assert ("\"" + value + "\"")[1..1 + |value|] == value;
  }

  lemma TrimQuoted(value: string)
    ensures Trim("\"" + value + "\"") == "\"" + value + "\""
  {
    TrimNothing("\"" + value + "\"");
  }

  lemma ValueOfLast(value: string)
    ensures ValueText(ValueAndRest(value, []), -1) == "\"" + value + "\""
  {
    TrimQuoted(value);
    assert ValueAndRest(value, []) == "\"" + value + "\"";
  }

  /** `all` cut at the equals sign of the next attribute. */
  lemma CutAtKey(value: string, key: string, v2: string, rest: Attributes)
    requires IsWord(key)
    ensures var all := ValueAndRest(value, [(key, v2)] + rest);
            var quoted, e := "\"" + value + "\"", |value| + 3 + |key|;
            && e < |all|
            && all[..e] == quoted + " " + key
            && all[e + 1..] == ValueAndRest(v2, rest)
            && LastBlank(all[..e]) == |quoted| && all[..|quoted|] == quoted && all[|quoted|..e] == " " + key
  {
    assert ([(key, v2)] + rest)[1..] == rest;
    var quoted := "\"" + value + "\"";
    var all := ValueAndRest(value, [(key, v2)] + rest);
    var tail := ValueAndRest(v2, rest);
    AttrTextCons([(key, v2)] + rest);
    hide AttrText;
    assert all == quoted + (" " + (key + "=" + tail));
    CutParts(quoted, key, tail);
    LastBlankAt(quoted, key);
  }

  lemma CutParts(quoted: string, key: string, tail: string)
    ensures var all := quoted + (" " + (key + "=" + tail));
            var e := |quoted| + 1 + |key|;
            && e < |all|
            && all[..e] == quoted + " " + key
            && all[e + 1..] == tail
            && all[..|quoted|] == quoted && all[|quoted|..e] == " " + key
  {
  }

  /** The value in front, and the scan behind it, when another attribute follows. */
  lemma ValueAndNext(sc: Scan, value: string, key: string, v2: string, rest: Attributes)
    requires IsWord(key) && sc.all == ValueAndRest(value, [(key, v2)] + rest)
    ensures var e := |value| + 3 + |key|;
            && e < |sc.all|
            && ValueText(sc.all, e) == "\"" + value + "\""
            && NextScan(sc, e) == Scan(key, ValueAndRest(v2, rest), e)
  {
    hide ValueAndRest, LastBlank, Trim, IsWord;
    var e := |value| + 3 + |key|;
    CutAtKey(value, key, v2, rest);
    TrimQuoted(value);
    TrimWord(key);
    TrimValueAndRest(v2, rest);
    assert MidAll(sc.all, e + 1) == sc.all[e + 1..];
  }

  lemma TrimWord(key: string)
    requires IsWord(key)
    ensures Trim(" " + key) == key
  {
    assert " " + key == " " + key + "";
    TrimAround(" ", key, "");
  }

  lemma TrimValueAndRest(value: string, rest: Attributes)
    ensures Trim(ValueAndRest(value, rest)) == ValueAndRest(value, rest)
  {
    ValueAndRestTrimmed(value, rest);
    TrimNothing(ValueAndRest(value, rest));
  }

  lemma {:induction false} PutNew(a: Attributes, key: string, value: string)
    requires NoKey(a, key)
    ensures Put(a, key, value) == a + [(key, value)]
  {
    if a != [] {
      PutNew(a[1..], key, value);
      assert [a[0]] + (a[1..] + [(key, value)]) == a + [(key, value)];
    }
  }

  lemma NoKeySnoc(a: Attributes, key: string, value: string, other: string)
    requires NoKey(a, other) && key != other
    ensures NoKey(a + [(key, value)], other)
  {
  }

  /** From a value on, the loop reads the rest of the printed list. */
  lemma {:induction false} ReadsAttributes(sc: Scan, value: string, rest: Attributes, done: Attributes)
    requires sc.endName != -1 && IsWord(sc.attrName) && NoChar(value, '\"')
    requires sc.all == ValueAndRest(value, rest) && GoodAttributes(rest)
    requires NoKey(done, sc.attrName) && NoKey(rest, sc.attrName)
    requires forall i :: 0 <= i < |rest| ==> NoKey(done, rest[i].0)
    ensures ReadAttributes(sc, done) == Some(done + [(sc.attrName, value)] + rest)
    decreases |rest|
  {
    hide AttrText, ValueAndRest, NextEquals, ValueText, NextScan, Unquote, Put, ToLower, IsWord;
    WordIsLower(sc.attrName);
    UnquoteValue(value);
    PutNew(done, sc.attrName, value);
    var done1 := done + [(sc.attrName, value)];
    if rest == [] {
      NextEqualsLast(value);
      ValueOfLast(value);
      assert done1 + rest == done1;
    } else {
      var (key, v2) := rest[0];
      assert rest == [(key, v2)] + rest[1..];
      NextEqualsMore(value, key, v2, rest[1..]);
      ValueAndNext(sc, value, key, v2, rest[1..]);
      var e := |value| + 3 + |key|;
      assert NextEquals(sc.all) == e;
      forall i | 0 <= i < |rest[1..]| ensures NoKey(done1, rest[1..][i].0) {
        assert rest[1..][i] == rest[i + 1];
        NoKeySnoc(done, sc.attrName, value, rest[i + 1].0);
      }
      NoKeySnoc(done, sc.attrName, value, key);
      ReadsAttributes(NextScan(sc, e), v2, rest[1..], done1);
      assert done1 + [(key, v2)] + rest[1..] == done1 + rest;
    }
  }

  lemma WordIsLower(key: string)
    requires IsWord(key)
    ensures ToLower(key) == key && key != []
  {
    LowerNothing(key);
  }

  // ----- the whole tag

  lemma InnerTrimmed(name: string, attrs: Attributes)
    requires IsName(name)
    ensures Trimmed(name + AttrText(attrs)) && Trim(name + AttrText(attrs)) == name + AttrText(attrs)
  {
    AttrTextEnd(attrs);
    TrimNothing(name + AttrText(attrs));
  }

  lemma NameOf(name: string, attrs: Attributes)
    requires IsName(name)
    ensures TagName(name + AttrText(attrs)) == Some(name)
    ensures FindChar(name + AttrText(attrs), ' ', 0) == if attrs == [] then -1 else |name|
  {
    hide AttrText, Trim;
    var s := name + AttrText(attrs);
    InnerTrimmed(name, attrs);
    AttrTextEnd(attrs);
    if attrs == [] { assert AttrText(attrs) == "" by { NoAttrText(); } }
    if attrs != [] { FindCharHere(name, AttrText(attrs), ' ', 0); } else { assert s == name; }
    assert Left(s, FindChar(s, ' ', 0)) == name;
    TrimNothing(name);
    LowerNothing(name);
  }

  lemma NoAttrText()
    ensures AttrText([]) == ""
  {
  }

  lemma AttrTextCons(attrs: Attributes)
    requires attrs != []
    ensures AttrText(attrs) == " " + (attrs[0].0 + "=" + ValueAndRest(attrs[0].1, attrs[1..]))
  {
    var (key, value) := attrs[0];
    var rest := AttrText(attrs[1..]);
    hide AttrText;
    assert " " + key + "=\"" + value + "\"" + rest == " " + (key + "=" + ("\"" + value + "\"" + rest));
  }

  lemma BodyTrimmed(key: string, value: string, rest: Attributes)
    requires IsWord(key)
    ensures Trim(" " + (key + "=" + ValueAndRest(value, rest))) == key + "=" + ValueAndRest(value, rest)
  {
    var body := key + "=" + ValueAndRest(value, rest);
    ValueAndRestTrimmed(value, rest);
    assert " " + body == " " + body + "";
    TrimAround(" ", body, "");
  }

  lemma AttributePartOf(name: string, attrs: Attributes)
    requires IsName(name) && attrs != [] && IsWord(attrs[0].0)
    ensures AttributePart(name + AttrText(attrs)) == attrs[0].0 + "=" + ValueAndRest(attrs[0].1, attrs[1..])
  {
    hide AttrText, ValueAndRest, Trim, FindChar, IsName, IsWord;
    var s := name + AttrText(attrs);
    InnerTrimmed(name, attrs);
    NameOf(name, attrs);
    assert MidAll(s, |name|) == s[|name|..] == AttrText(attrs);
    AttrTextCons(attrs);
    BodyTrimmed(attrs[0].0, attrs[0].1, attrs[1..]);
  }

  /** Reading what was printed gives the name and the attributes back, in order. */
  lemma ParseTagUndoesPrint(name: string, attrs: Attributes)
    requires IsName(name) && GoodAttributes(attrs)
    ensures ParseTag(name + AttrText(attrs)) == Some((name, attrs))
  {
    hide *;
    NameOf(name, attrs);
    if attrs == [] {
      NoAttributes(name);
    } else {
      var (key, value) := attrs[0];
      FirstAttribute(attrs);
      AttributePartOf(name, attrs);
      FirstScanOf(key, value, attrs[1..]);
      var sc := FirstScan(AttributePart(name + AttrText(attrs)));
      ReadsAttributes(sc, value, attrs[1..], []);
      assert [] + [(key, value)] + attrs[1..] == attrs;
      ParseIs(name + AttrText(attrs), name, attrs);
    }
  }

  lemma FirstAttribute(attrs: Attributes)
    requires GoodAttributes(attrs) && attrs != []
    ensures IsWord(attrs[0].0) && NoChar(attrs[0].1, '\"') && NoKey(attrs[1..], attrs[0].0) &&
            GoodAttributes(attrs[1..])
    ensures NoKey([], attrs[0].0) && forall i :: 0 <= i < |attrs[1..]| ==> NoKey([], attrs[1..][i].0)
  {
    hide IsWord, NoChar;
  }

  lemma ParseIs(inner: string, name: string, attrs: Attributes)
    requires TagName(inner) == Some(name) && ReadAttributes(FirstScan(AttributePart(inner)), []) == Some(attrs)
    ensures ParseTag(inner) == Some((name, attrs))
  {
    hide TagName, FirstScan, AttributePart, ReadAttributes;
  }

  lemma FirstScanOf(key: string, value: string, rest: Attributes)
    requires IsWord(key)
    ensures var sc := FirstScan(key + "=" + ValueAndRest(value, rest));
            sc.endName == |key| && sc.attrName == key && sc.all == ValueAndRest(value, rest)
  {
    var tail := ValueAndRest(value, rest);
    var all := key + "=" + tail;
    assert all == key + ("=" + tail);
    FindCharHere(key, "=" + tail, '=', 0);
    assert Left(all, |key|) == key;
    TrimNothing(key);
    assert MidAll(all, |key| + 1) == all[|key| + 1..] == tail;
    ValueAndRestTrimmed(value, rest);
    TrimNothing(tail);
  }

  lemma NoAttributes(name: string)
    requires IsName(name)
    ensures name + AttrText([]) == name && ParseTag(name) == Some((name, []))
  {
    assert name + AttrText([]) == name;
    NameOf(name, []);
    InnerTrimmed(name, []);
    TrimNothing(name);
    NoAttributePart(name);
    hide *;
    ParseWithout(name);
  }

  lemma ParseWithout(name: string)
    requires TagName(name) == Some(name) && FirstScan(AttributePart(name)).endName == -1
    ensures ParseTag(name) == Some((name, []))
  {
    hide TagName, FirstScan, AttributePart;
  }

  /** A name alone is its own attribute part, which holds no equals sign. */
  lemma NoAttributePart(name: string)
    requires IsName(name) && FindChar(name, ' ', 0) == -1
    ensures FirstScan(AttributePart(name)).endName == -1
  {
    TrimNothing(name);
    assert FindChar(name, '=', 0) == -1;
    hide FindChar, Trim;
    assert MidAll(name, -1) == name;
  }

  /** The inside of an end tag. */
  lemma ParseEndTag(name: string)
    requires IsName(name)
    ensures Trim("/" + name) == "/" + name && ParseTag("/" + name) == Some((name, []))
  {
    hide Trim, TrimLeft, TrimRight;
    var s := "/" + name;
    TrimNothing(s);
    NoCharFound(s);
    LowerNothing(s);
    assert s[1..] == name;
    assert Left(s, -1) == s && MidAll(s, -1) == s;
    assert TagName(s) == Some(name);
    assert FirstScan(AttributePart(s)).endName == -1;
  }

  lemma NoCharFound(s: string)
    requires |s| > 0 && s[0] == '/' && IsWord(s[1..])
    ensures FindChar(s, ' ', 0) == -1 && FindChar(s, '=', 0) == -1
  {
    assert forall i :: 1 <= i < |s| ==> s[i] == s[1..][i - 1];
  }
}
