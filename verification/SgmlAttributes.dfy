/**
  Name and attributes of a tag from the text between its angle brackets
  (QSgmlTag.cpp:53-129).  The hash of attributes is a list of pairs with distinct keys in
  iteration order.
*/
module SgmlAttributes {
  import opened QtText
  import opened SgmlModel

  function Put(a: Attributes, key: string, value: string): (r: Attributes) {
    if a == [] then [(key, value)]
    else if a[0].0 == key then [(key, value)] + a[1..]
    else [a[0]] + Put(a[1..], key, value)
  }

  function Lookup(a: Attributes, key: string): Option<string> {
    if a == [] then None else if a[0].0 == key then Some(a[0].1) else Lookup(a[1..], key)
  }

  /** One turn of the attribute loop: the value at the front of `all`, then the name of the next
      attribute and the text behind its equals sign. */
  datatype Scan = Scan(attrName: string, all: string, endName: int)

  function NextEquals(all: string): (r: int)
    ensures -1 <= r < |all|
  {
    var e := FindChar(all, '=', 0);
    var q := FindChar(all, '\"', 0);
    if q < e then FindChar(all, '=', FindChar(all, '\"', q + 1) + 1) else e
  }

  function Unquote(s: string): string
    requires s != []
  {
    if s[0] == '\"' || s[|s| - 1] == '\"' then Mid(s, 1, |s| - 2)
    else if s[0] == '\'' || s[|s| - 1] == '\'' then Mid(s, 1, |s| - 2)
    else s
  }

  /** The text of the value at the front of `all` when the next equals sign is at e. */
  function ValueText(all: string, e: int): string
    requires -1 <= e < |all|
  {
    Trim(if e == -1 then all else Left(all, LastBlank(all[..e])))
  }

  function NextScan(sc: Scan, e: int): (r: Scan)
    requires 0 <= e < |sc.all|
    ensures |r.all| < |sc.all|
  {
    var st := LastBlank(sc.all[..e]);
    Scan(Trim(Mid(sc.all, st, e - st)), Trim(MidAll(sc.all, e + 1)), e)
  }

  /** None where the program reads a character of an empty value. */
  function ReadAttributes(sc: Scan, attrs: Attributes): Option<Attributes>
    decreases if sc.endName == -1 then 0 else |sc.all| + 1
  {
    if sc.endName == -1 then Some(attrs)
    else
      var e := NextEquals(sc.all);
      var text := ValueText(sc.all, e);
      if text == [] then None
      else
        var attrs1 := Put(attrs, ToLower(sc.attrName), Unquote(text));
        if e == -1 then Some(attrs1) else ReadAttributes(NextScan(sc, e), attrs1)
  }

  function FirstScan(all: string): Scan {
    var e := FindChar(all, '=', 0);
    Scan(Trim(Left(all, e)), Trim(MidAll(all, e + 1)), e)
  }

  /** None where the program reads the first character of an empty name. */
  function TagName(inner: string): Option<string> {
    var s := Trim(inner);
    var name := ToLower(Trim(Left(s, FindChar(s, ' ', 0))));
    if name == [] then None
    else if name[0] == '!' || name[0] == '/' then Some(name[1..])
    else Some(name)
  }

  function AttributePart(inner: string): string {
    var s := Trim(inner);
    Trim(MidAll(Trim(s), FindChar(s, ' ', 0)))
  }

  function ParseTag(inner: string): Option<(string, Attributes)> {
    if TagName(inner).None? then None
    else
      match ReadAttributes(FirstScan(AttributePart(inner)), [])
      case None => None
      case Some(a) => Some((TagName(inner).value, a))
  }
}
