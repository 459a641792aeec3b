/**
  Percent decoding (httprequest.cpp:378-398).  The program edits a buffer in place; the result is
  that of one pass from left to right, and it undoes every percent-encoding.
*/
module UrlDecoding {
  import opened QtText
  import opened Numbers

  function Spaces(s: string): (r: string)
    ensures |r| == |s|
  {
    seq(|s|, i requires 0 <= i < |s| => if s[i] == '+' then ' ' else s[i])
  }

  /** QByteArray::toInt with base 16. */
  function HexNumber(s: string): Option<int> { Integer(s, 16) }

  /** Conversion to a byte. */
  function ByteChar(i: int): char { (i % 256) as char }

  /** What stands for the escape at the front of s, if it can be read. */
  function Escape(s: string): Option<char> {
    if s != [] && s[0] == '%' then
      match HexNumber(Mid(s, 1, 2))
      case None => None
      case Some(i) => Some(ByteChar(i))
    else None
  }

  function After(s: string, n: nat): string { if n <= |s| then s[n..] else [] }

  /** One pass from left to right. */
  function DecodePercent(s: string): (r: string)
    ensures |r| <= |s|
    decreases |s|
  {
    if s == [] then []
    else
      match Escape(s)
      case Some(c) => [c] + DecodePercent(After(s, 3))
      case None => [s[0]] + DecodePercent(s[1..])
  }

  function UrlDecode(s: string): (r: string)
    ensures |r| <= |s|
  {
    DecodePercent(Spaces(s))
  }

  // ----- the loop

  lemma {:induction false} NoPercent(s: string)
    requires '%' !in s
    ensures DecodePercent(s) == s
  {
    if s != [] { NoPercent(s[1..]); }
  }

  lemma {:induction false} SkipToPercent(s: string, k: nat)
    requires k <= |s| && forall i :: 0 <= i < k ==> s[i] != '%'
    ensures DecodePercent(s) == s[..k] + DecodePercent(s[k..])
    decreases k
  {
    hide *;
    if k == 0 {
      assert s[..0] + DecodePercent(s) == DecodePercent(s);
    } else {
      SkipToPercent(s[1..], k - 1);
      PlainFront(s);
      TakeOneMore(s, k, DecodePercent(s[k..]));
    }
  }

  lemma PlainFront(s: string)
    requires s != [] && s[0] != '%'
    ensures DecodePercent(s) == [s[0]] + DecodePercent(s[1..])
  {
    DecodesFront(s);
  }

  lemma TakeOneMore(s: string, k: nat, x: string)
    requires 0 < k <= |s|
    ensures [s[0]] + (s[1..][..k - 1] + x) == s[..k] + x && s[1..][k - 1..] == s[k..]
  {
    assert [s[0]] + s[1..][..k - 1] == s[..k];
  }

  lemma NextPercent(b: string, from: nat, k: int)
    requires from <= |b| && k == FindChar(b, '%', from)
    ensures b[..from] + DecodePercent(b[from..]) == if k >= 0 then b[..k] + DecodePercent(b[k..]) else b
  {
    hide DecodePercent, FindChar;
    var s := b[from..];
    if k == -1 {
      forall i | 0 <= i < |s| ensures s[i] != '%' { assert s[i] == b[from + i]; }
      NoPercent(s);
    } else {
      forall i | 0 <= i < k - from ensures s[i] != '%' { assert s[i] == b[from + i]; }
      SkipToPercent(s, k - from);
      Regroup(b, from, k);
    }
  }

  lemma Regroup(b: string, from: nat, k: nat)
    requires from <= k <= |b|
    ensures b[..from] + (b[from..][..k - from] + DecodePercent(b[from..][k - from..])) == b[..k] + DecodePercent(b[k..])
  {
    hide DecodePercent;
    assert b[from..][k - from..] == b[k..];
    assert b[..from] + b[from..][..k - from] == b[..k];
  }

  /** The text with the three characters at k, or as many as there are, replaced by c. */
  function Replaced(b: string, k: nat, c: char): (r: string)
    requires k < |b|
    ensures |r| <= |b|
  {
    b[..k] + [c] + After(b, k + 3)
  }

  lemma OneEscape(b: string, k: nat)
    requires k < |b| && b[k] == '%'
    ensures var e := Escape(b[k..]);
            var r := if e.Some? then Replaced(b, k, e.value) else b;
            k < |r| && b[..k] + DecodePercent(b[k..]) == r[..k + 1] + DecodePercent(r[k + 1..])
  {
    hide Escape, DecodePercent, After;
    var s := b[k..];
    var e := Escape(s);
    DecodesFront(s);
    if e.Some? {
      AfterFrom(b, k);
      var r := Replaced(b, k, e.value);
      assert r[k + 1..] == After(s, 3) && r[..k + 1] == b[..k] + [e.value];
      assert b[..k] + ([e.value] + DecodePercent(After(s, 3))) == b[..k] + [e.value] + DecodePercent(After(s, 3));
    } else {
      assert s[1..] == b[k + 1..] && b[..k + 1] == b[..k] + [b[k]];
      assert b[..k] + ([b[k]] + DecodePercent(s[1..])) == b[..k] + [b[k]] + DecodePercent(s[1..]);
    }
  }

  lemma DecodesFront(s: string)
    requires s != []
    ensures DecodePercent(s) ==
            if Escape(s).Some? then [Escape(s).value] + DecodePercent(After(s, 3)) else [s[0]] + DecodePercent(s[1..])
  {
    hide Escape, After;
  }

  lemma AfterFrom(b: string, k: nat)
    requires k < |b|
    ensures After(b[k..], 3) == After(b, k + 3)
  {
  }

  lemma Begins(s: string)
    ensures Spaces(s)[..0] + DecodePercent(Spaces(s)[0..]) == UrlDecode(s)
  {
    assert Spaces(s)[0..] == Spaces(s);
  }

  lemma EscapeAt(b: string, k: nat)
    requires k < |b| && b[k] == '%'
    ensures Mid(b, k + 1, 2) == Mid(b[k..], 1, 2)
    ensures var i := HexNumber(Mid(b, k + 1, 2));
            Escape(b[k..]) == match i case None => None case Some(v) => Some(ByteChar(v))
  {
    hide HexNumber;
  }

  /** The loop: decode the escapes one after the other, each in place. */
  method Decode(source: string) returns (buffer: string)
    ensures buffer == UrlDecode(source)
  {
    hide *;
    buffer := Spaces(source);
    ghost var from: nat := 0;
    Begins(source);
    var percentChar := FindChar(buffer, '%', 0);
    while percentChar >= 0
      invariant from <= |buffer| && percentChar == FindChar(buffer, '%', from)
      invariant buffer[..from] + DecodePercent(buffer[from..]) == UrlDecode(source)
      decreases if percentChar < 0 then 0 else |buffer| - percentChar
    {
      NextPercent(buffer, from, percentChar);
      OneEscape(buffer, percentChar);
      EscapeAt(buffer, percentChar);
      var byte := HexNumber(Mid(buffer, percentChar + 1, 2));
      if byte.Some? {
        buffer := Replaced(buffer, percentChar, ByteChar(byte.value));
      }
      from := percentChar + 1;
      percentChar := FindChar(buffer, '%', percentChar + 1);
    }
    NextPercent(buffer, from, percentChar);
  }

  lemma SpacesTail(e: string, k: nat)
    requires k <= |e|
    ensures Spaces(e)[k..] == Spaces(e[k..])
  {
  }

  // ----- encoding

  predicate IsByte(c: char) { c as int < 256 }

  /** Two hexadecimal digits for c. */
  predicate HexPair(a: char, b: char, c: char) {
    DigitValue(a) >= 0 && DigitValue(b) >= 0 && DigitValue(a) * 16 + DigitValue(b) == c as int
  }

  /** Is e an encoding of s: characters stand for themselves, '+' for a space, and '%' with two
      hexadecimal digits for any byte? */
  predicate Encodes(e: string, s: string)
    decreases |e|
  {
    if e == [] then s == []
    else if s == [] then false
    else if e[0] == '%' then |e| >= 3 && HexPair(e[1], e[2], s[0]) && Encodes(e[3..], s[1..])
    else if e[0] == '+' then s[0] == ' ' && Encodes(e[1..], s[1..])
    else e[0] == s[0] && Encodes(e[1..], s[1..])
  }

  lemma HexPairReads(a: char, b: char, c: char)
    requires HexPair(a, b, c)
    ensures HexNumber([a, b]) == Some(c as int) && ByteChar(c as int) == c
  {
    var s := [a, b];
    assert CString(s) == s && TrimLeft(s) == s;
    assert s[..1] == [a] && [a][..0] == [];
    assert ValueOf([a], 16) == Some(DigitValue(a));
    assert ValueOf(s, 16) == Some(c as int);
  }

  /** Decoding undoes every encoding.  A '%' that an escape stands for is not decoded again. */
  lemma {:induction false} DecodeUndoesEncoding(e: string, s: string)
    requires Encodes(e, s)
    ensures UrlDecode(e) == s
    decreases |e|
  {
    hide HexNumber, DecodePercent, Spaces, Mid, ByteChar, UrlDecode;
    if e == [] {
      assert UrlDecode(e) == [] by { EmptyDecodes(); }
    } else if e[0] == '%' {
      DecodesEscape(e);
      DecodeUndoesEncoding(e[3..], s[1..]);
    } else {
      DecodesPlain(e);
      DecodeUndoesEncoding(e[1..], s[1..]);
    }
  }

  lemma EmptyDecodes()
    ensures UrlDecode("") == ""
  {
  }

  /** Every '%' is followed by two hexadecimal digits. */
  predicate WellFormed(e: string)
    decreases |e|
  {
    if e == [] then true
    else if e[0] == '%' then
      |e| >= 3 && DigitValue(e[1]) >= 0 && DigitValue(e[2]) >= 0 && WellFormed(e[3..])
    else WellFormed(e[1..])
  }

  /** A text is an encoding of something exactly when its escapes are well formed, and then it
      is an encoding of what it decodes to. */
  lemma {:induction false} EncodesExactlyItsDecoding(e: string)
    ensures WellFormed(e) <==> Encodes(e, UrlDecode(e))
    decreases |e|
  {
    hide HexNumber, DigitValue, DecodePercent, Spaces, Mid, ByteChar, UrlDecode;
    if e != [] {
      if e[0] != '%' {
        DecodesPlain(e);
        EncodesExactlyItsDecoding(e[1..]);
      } else if |e| >= 3 && DigitValue(e[1]) >= 0 && DigitValue(e[2]) >= 0 {
        DecodesEscape(e);
        EncodesExactlyItsDecoding(e[3..]);
      }
    }
  }

  lemma DecodesPlain(e: string)
    requires e != [] && e[0] != '%'
    ensures UrlDecode(e) == [if e[0] == '+' then ' ' else e[0]] + UrlDecode(e[1..])
  {
    SpacesTail(e, 1);
  }

  lemma DecodesEscape(e: string)
    requires |e| >= 3 && e[0] == '%' && DigitValue(e[1]) >= 0 && DigitValue(e[2]) >= 0
    ensures var r := UrlDecode(e); r != [] && HexPair(e[1], e[2], r[0]) && r[1..] == UrlDecode(e[3..])
  {
    var c := (DigitValue(e[1]) * 16 + DigitValue(e[2])) as char;
    HexPairReads(e[1], e[2], c);
    assert e[1] != '+' && e[2] != '+';
    hide HexNumber, DigitValue, DecodePercent;
    var t := Spaces(e);
    assert Mid(t, 1, 2) == [e[1], e[2]];
    SpacesTail(e, 3);
    assert DecodePercent(t) == [c] + DecodePercent(t[3..]) by { DecodesOne(t, c); }
  }

  lemma DecodesOne(t: string, c: char)
    requires |t| >= 3 && Escape(t) == Some(c)
    ensures DecodePercent(t) == [c] + DecodePercent(t[3..])
  {
    hide Escape;
  }

  function HexEscape(c: char): string
    requires IsByte(c)
  {
    ['%', Digit(c as int / 16), Digit(c as int % 16)]
  }

  /** Percent-encoding: the characters of `keep` stay, the others become escapes. */
  function PercentEncode(s: string, keep: set<char>): string
    requires forall i :: 0 <= i < |s| ==> IsByte(s[i])
  {
    if s == [] then []
    else
      (if s[0] in keep then [s[0]] else HexEscape(s[0])) +
      PercentEncode(s[1..], keep)
  }

  lemma {:induction false} PercentEncodeEncodes(s: string, keep: set<char>)
    requires '%' !in keep && '+' !in keep && forall i :: 0 <= i < |s| ==> IsByte(s[i])
    ensures Encodes(PercentEncode(s, keep), s)
  {
    if s != [] {
      PercentEncodeEncodes(s[1..], keep);
      var e, rest := PercentEncode(s, keep), PercentEncode(s[1..], keep);
      if s[0] in keep {
        assert e[1..] == rest;
      } else {
        DigitIs(s[0] as int / 16);
        DigitIs(s[0] as int % 16);
        assert e[3..] == rest;
      }
    }
  }

  /** Decoding undoes percent-encoding for every byte string, whatever characters are kept. */
  lemma DecodeUndoesPercentEncode(s: string, keep: set<char>)
    requires '%' !in keep && '+' !in keep && forall i :: 0 <= i < |s| ==> IsByte(s[i])
    ensures UrlDecode(PercentEncode(s, keep)) == s
  {
    PercentEncodeEncodes(s, keep);
    DecodeUndoesEncoding(PercentEncode(s, keep), s);
  }
}
