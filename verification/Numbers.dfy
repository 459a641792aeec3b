/**
  Numbers as Qt prints and reads them: QByteArray::number and QByteArray::toInt with base 10 or
  16.
*/
module Numbers {
  import opened QtText

  function Minimum(a: int, b: int): int { if a < b then a else b }

  predicate IsBase(base: nat) { base == 10 || base == 16 }

  function Digit(d: nat): char
    requires d < 16
  {
    "0123456789abcdef"[d]
  }

  function DigitValue(c: char): (v: int)
    ensures -1 <= v < 16
  {
    if '0' <= c <= '9' then c as int - '0' as int
    else if 'a' <= c <= 'f' then c as int - 'a' as int + 10
    else if 'A' <= c <= 'F' then c as int - 'A' as int + 10
    else -1
  }

  function Digits(n: nat, base: nat): (s: string)
    requires IsBase(base)
    ensures s != []
    ensures forall i :: 0 <= i < |s| ==> 0 <= DigitValue(s[i]) < base
  {
    if n < base then [Digit(n)] else Digits(n / base, base) + [Digit(n % base)]
  }

  /** The number written in s, if s consists of digits. */
  function ValueOf(s: string, base: nat): Option<nat>
    requires IsBase(base)
  {
    if s == [] then None
    else
      var d := DigitValue(s[|s| - 1]);
      var front := s[..|s| - 1];
      if !(0 <= d < base) then None
      else if front == [] then Some(d)
      else
        match ValueOf(front, base)
        case None => None
        case Some(v) => Some(v * base + d)
  }

  lemma {:induction false} ValueOfDigits(n: nat, base: nat)
    requires IsBase(base)
    ensures ValueOf(Digits(n, base), base) == Some(n)
  {
    if n < base {
      DigitIs(n);
    } else {
      ValueOfDigits(n / base, base);
      ValueOfSnoc(Digits(n / base, base), n / base, n % base, base);
      Recompose(n, base);
    }
  }

  lemma ValueOfSnoc(front: string, v: nat, d: nat, base: nat)
    requires IsBase(base) && d < base && front != [] && ValueOf(front, base) == Some(v)
    ensures ValueOf(front + [Digit(d)], base) == Some(v * base + d)
  {
    DigitIs(d);
    hide Digit, DigitValue;
    assert (front + [Digit(d)])[..|front|] == front;
  }

  lemma DigitIs(d: nat)
    requires d < 16
    ensures DigitValue(Digit(d)) == d
  {
  }

  lemma Recompose(n: nat, base: nat)
    requires IsBase(base)
    ensures n / base * base + n % base == n
  {
    if base == 10 { assert n / 10 * 10 + n % 10 == n; } else { assert n / 16 * 16 + n % 16 == n; }
  }

  predicate Int32(i: int) { -0x8000_0000 <= i < 0x8000_0000 }

  /** QByteArray::number */
  function Number(i: int): string {
    if i < 0 then "-" + Digits(-i, 10) else Digits(i, 10)
  }

  /** The text before a NUL character, where a C string ends. */
  function CString(s: string): string {
    var n := FindChar(s, '\0', 0);
    if n == -1 then s else s[..n]
  }

  /** A number with white space and a sign in front. */
  function Integer(s: string, base: nat): Option<int>
    requires IsBase(base)
  {
    var t := TrimLeft(CString(s));
    var signed := t != [] && (t[0] == '-' || t[0] == '+');
    match ValueOf(if signed then t[1..] else t, base)
    case None => None
    case Some(v) => Some(if signed && t[0] == '-' then -(v as int) else v as int)
  }

  /** QByteArray::toInt; 0 when the text is not a number of 32 bits. */
  function ToInt(s: string): (r: int)
    ensures Int32(r)
  {
    match Integer(s, 10)
    case None => 0
    case Some(i) => if Int32(i) then i else 0
  }

  lemma SignsAreNoDigits()
    ensures DigitValue('-') == DigitValue('+') == DigitValue('\0') == -1
    ensures forall c :: IsSpace(c) ==> DigitValue(c) == -1
  {
  }

  /** A text of digits, with or without a minus in front, has nothing to strip. */
  lemma NothingToStrip(s: string)
    requires forall k :: 0 <= k < |s| ==> s[k] == '-' || DigitValue(s[k]) >= 0
    ensures CString(s) == s && TrimLeft(s) == s
  {
    SignsAreNoDigits();
    hide DigitValue;
  }

  lemma IntegerOfDigits(d: string, v: nat)
    requires d != [] && ValueOf(d, 10) == Some(v) && forall k :: 0 <= k < |d| ==> DigitValue(d[k]) >= 0
    ensures Integer(d, 10) == Some(v)
  {
    NothingToStrip(d);
    SignsAreNoDigits();
    hide DigitValue, ValueOf, CString, TrimLeft;
  }

  lemma IntegerOfMinus(d: string, v: nat)
    requires d != [] && ValueOf(d, 10) == Some(v) && forall k :: 0 <= k < |d| ==> DigitValue(d[k]) >= 0
    ensures Integer("-" + d, 10) == Some(-(v as int))
  {
    hide DigitValue, ValueOf, CString, TrimLeft;
    var s := "-" + d;
    assert s[1..] == d && s[0] == '-';
    forall k | 0 <= k < |s| ensures s[k] == '-' || DigitValue(s[k]) >= 0 {
      if k > 0 { assert s[k] == d[k - 1]; }
    }
    NothingToStrip(s);
  }

  lemma IntegerUndoesNumber(i: int)
    ensures Integer(Number(i), 10) == Some(i)
  {
    hide Integer, Digits, DigitValue, ValueOf;
    if i < 0 {
      ValueOfDigits(-i, 10);
      IntegerOfMinus(Digits(-i, 10), -i);
    } else {
      ValueOfDigits(i, 10);
      IntegerOfDigits(Digits(i, 10), i);
    }
  }

  /** A number of 32 bits is read back as it was printed, and a larger one as 0. */
  lemma ToIntUndoesNumber(i: int)
    ensures ToInt(Number(i)) == if Int32(i) then i else 0
  {
    hide Integer, Number;
    IntegerUndoesNumber(i);
  }

  lemma {:induction false} ValueNeedsDigits(s: string, base: nat, c: char)
    requires IsBase(base) && c in s && !(0 <= DigitValue(c) < base)
    ensures ValueOf(s, base) == None
    decreases |s|
  {
    hide DigitValue;
    var n := |s| - 1;
    assert s == s[..n] + [s[n]];
    if s[n] != c {
      ValueNeedsDigits(s[..n], base, c);
    }
  }

  lemma {:induction false} TrimLeftKeeps(s: string, c: char)
    requires c in s && !IsSpace(c)
    ensures c in TrimLeft(s)
    decreases |s|
  {
    if IsSpace(s[0]) { TrimLeftKeeps(s[1..], c); }
  }

  /** A text with anything else in it than digits, signs and white space counts as 0. */
  lemma NoNumberIsZero(s: string, c: char)
    requires '\0' !in s && c in s && !IsSpace(c) && c != '-' && c != '+' && !('0' <= c <= '9')
    ensures ToInt(s) == 0
  {
    hide ValueOf, TrimLeft;
    assert CString(s) == s;
    TrimLeftKeeps(s, c);
    var t := TrimLeft(s);
    assert !(0 <= DigitValue(c) < 10);
    hide DigitValue;
    ValueNeedsDigits(t, 10, c);
    if t[0] == '-' || t[0] == '+' {
      assert t == [t[0]] + t[1..];
      ValueNeedsDigits(t[1..], 10, c);
    }
  }

  /** A number has no leading zeros, and its digits above 9 are lower case. */
  lemma {:induction false} DigitsAreUsual(n: nat, base: nat)
    requires IsBase(base)
    ensures var s := Digits(n, base);
            && (s[0] == '0' ==> s == "0")
            && forall i :: 0 <= i < |s| ==> '0' <= s[i] <= '9' || (base == 16 && 'a' <= s[i] <= 'f')
  {
    hide DigitValue;
    if n >= base {
      DigitsAreUsual(n / base, base);
      FrontIsPositive(n, base);
    }
  }

  lemma FrontIsPositive(n: nat, base: nat)
    requires IsBase(base) && n >= base
    ensures Digits(n / base, base) != "0"
  {
    if base == 10 { assert n / 10 > 0; } else { assert n / 16 > 0; }
    ValueOfDigits(n / base, base);
    hide DigitValue, Digits;
    assert ValueOf("0", base) == Some(0) by { ZeroValue(base); }
  }

  lemma ZeroValue(base: nat)
    requires IsBase(base)
    ensures ValueOf("0", base) == Some(0)
  {
    assert "0"[..0] == "";
  }
}
