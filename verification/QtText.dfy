/**
  The string operations of Qt that the parsers use, with Qt's conventions for positions:
  `IndexOf` and `LastIndexOf` answer -1 when nothing is found, a negative start counts from
  the end, and a negative length or position in `Mid` and `Left` means "all".
*/
module QtText {

  datatype Option<+T> = None | Some(value: T)

  predicate IsSpace(c: char) {
    c == ' ' || c == '\t' || c == '\n' || c == '\r' || c == '\U{000B}' || c == '\U{000C}'
  }

  predicate AllSpace(s: string) {
    forall i :: 0 <= i < |s| ==> IsSpace(s[i])
  }

  function TrimLeft(s: string): (r: string)
    ensures |r| <= |s|
    ensures r != [] ==> !IsSpace(r[0])
  {
    if s != [] && IsSpace(s[0]) then TrimLeft(s[1..]) else s
  }

  function TrimRight(s: string): (r: string)
    ensures |r| <= |s| && r == s[..|r|]
    ensures r != [] ==> !IsSpace(r[|r| - 1])
  {
    if s != [] && IsSpace(s[|s| - 1]) then TrimRight(s[..|s| - 1]) else s
  }

  function Trim(s: string): (r: string)
    ensures |r| <= |s|
    ensures r != [] ==> !IsSpace(r[0]) && !IsSpace(r[|r| - 1])
  {
    TrimRight(TrimLeft(s))
  }

  predicate Trimmed(s: string) {
    s != [] ==> !IsSpace(s[0]) && !IsSpace(s[|s| - 1])
  }

  lemma {:induction false} TrimLeftSpace(w: string, s: string)
    requires AllSpace(w) && (s != [] ==> !IsSpace(s[0]))
    ensures TrimLeft(w + s) == s
  {
    if w == [] {
      assert w + s == s;
    } else {
      assert (w + s)[1..] == w[1..] + s;
      TrimLeftSpace(w[1..], s);
    }
  }

  lemma {:induction false} TrimRightSpace(s: string, w: string)
    requires AllSpace(w) && (s != [] ==> !IsSpace(s[|s| - 1]))
    ensures TrimRight(s + w) == s
  {
    if w == [] {
      assert s + w == s;
    } else {
      var n := |w| - 1;
      assert (s + w)[..|s + w| - 1] == s + w[..n];
      TrimRightSpace(s, w[..n]);
    }
  }

  /** Trimming removes exactly the white space around a trimmed text. */
  lemma TrimAround(v: string, s: string, w: string)
    requires AllSpace(v) && AllSpace(w) && Trimmed(s)
    ensures Trim(v + s + w) == s
  {
    if s == [] {
      assert AllSpace(v + w);
      assert v + s + w == (v + w) + [];
      TrimLeftSpace(v + w, []);
    } else {
      assert v + s + w == v + (s + w);
      TrimLeftSpace(v, s + w);
      TrimRightSpace(s, w);
    }
  }

  lemma TrimNothing(s: string)
    requires Trimmed(s)
    ensures Trim(s) == s
  {
  }

  /** White space is what isspace accepts: the blank, and the control characters 9 to 13. */
  predicate White(s: string) { forall i :: 0 <= i < |s| ==> s[i] as int == 32 || 9 <= s[i] as int <= 13 }

  lemma WhiteIsSpace(c: char)
    ensures IsSpace(c) <==> c as int == 32 || 9 <= c as int <= 13
  {
    assert '\U{000B}' as int == 11 && '\U{000C}' as int == 12;
  }

  lemma {:induction false} TrimLeftIs(s: string) returns (a: string)
    ensures s == a + TrimLeft(s) && White(a)
    decreases |s|
  {
    a := "";
    if s != "" && IsSpace(s[0]) {
      WhiteIsSpace(s[0]);
      a := TrimLeftIs(s[1..]);
      a := [s[0]] + a;
    }
  }

  lemma {:induction false} TrimRightIs(s: string) returns (b: string)
    ensures s == TrimRight(s) + b && White(b)
    decreases |s|
  {
    b := "";
    var n := |s| - 1;
    if s != "" && IsSpace(s[n]) {
      WhiteIsSpace(s[n]);
      b := TrimRightIs(s[..n]);
      b := b + [s[n]];
    }
  }

  /** Trimming takes white space away at both ends, and nothing else, as long as there is some. */
  lemma TrimIs(s: string) returns (a: string, b: string)
    ensures s == a + Trim(s) + b && White(a) && White(b)
    ensures var t := Trim(s); t != "" ==> !White([t[0]]) && !White([t[|t| - 1]])
  {
    hide TrimLeft, TrimRight, IsSpace;
    a := TrimLeftIs(s);
    b := TrimRightIs(TrimLeft(s));
    var t := Trim(s);
    assert a + (t + b) == a + t + b;
    if t != "" {
      WhiteIsSpace(t[0]);
      WhiteIsSpace(t[|t| - 1]);
      assert [t[0]][0] == t[0] && [t[|t| - 1]][0] == t[|t| - 1];
    }
  }

  // ----- searching

  predicate At(s: string, p: string, i: int) {
    0 <= i && i + |p| <= |s| && s[i..i + |p|] == p
  }

  /** The first position at or after i where p occurs, or -1. */
  function Find(s: string, p: string, i: nat): (r: int)
    ensures r == -1 || (i <= r && At(s, p, r))
    ensures forall k :: i <= k && At(s, p, k) ==> 0 <= r <= k
    decreases |s| - i
  {
    if i + |p| > |s| then -1
    else if s[i..i + |p|] == p then i
    else Find(s, p, i + 1)
  }

  predicate StartsWith(s: string, p: string) { At(s, p, 0) }

  function Contains(s: string, p: string): bool { Find(s, p, 0) != -1 }

  const CRLF := "\r\n"

  function IndexOf(s: string, p: string, from: int): int {
    Find(s, p, if from >= 0 then from else if from + |s| >= 0 then from + |s| else 0)
  }

  function FindChar(s: string, c: char, i: nat): (r: int)
    ensures r == -1 || (i <= r < |s| && s[r] == c)
    ensures forall k :: i <= k < |s| && s[k] == c ==> 0 <= r <= k
    decreases |s| - i
  {
    if i >= |s| then -1
    else if s[i] == c then i
    else FindChar(s, c, i + 1)
  }

  function Left(s: string, n: int): string {
    if n < 0 || n >= |s| then s else s[..n]
  }

  function Mid(s: string, pos: int, n: int): (r: string)
    ensures pos >= 0 ==> |r| <= |s| - pos || r == []
  {
    if pos > |s| then []
    else
      var n1 := if n < 0 then |s| - pos else n;
      var n2 := if pos < 0 then n1 + pos else n1;
      var p := if pos < 0 then 0 else pos;
      var n3 := if n2 < 0 then 0 else if n2 + p > |s| then |s| - p else n2;
      s[p..p + n3]
  }

  function MidAll(s: string, pos: int): (r: string)
    ensures pos >= 0 ==> |r| <= |s| - pos || r == []
  {
    Mid(s, pos, -1)
  }

  /** The last position of a blank, line break or tabulator, or -1. */
  function LastBlank(s: string): (r: int)
    ensures -1 <= r < |s|
    ensures r >= 0 ==> s[r] in {' ', '\r', '\n', '\t'}
    ensures forall k :: r < k < |s| ==> s[k] !in {' ', '\r', '\n', '\t'}
  {
    if s == [] then -1
    else if s[|s| - 1] in {' ', '\r', '\n', '\t'} then |s| - 1
    else LastBlank(s[..|s| - 1])
  }

  /** The parts between the separators. */
  function Split(s: string, c: char): (r: seq<string>)
    ensures r != []
    decreases |s|
  {
    var k := FindChar(s, c, 0);
    if k == -1 then [s] else [s[..k]] + Split(s[k + 1..], c)
  }

  /** The parts with the separator between them. */
  function Join(ps: seq<string>, c: char): string
    decreases |ps|
  {
    if ps == [] then "" else if |ps| == 1 then ps[0] else ps[0] + [c] + Join(ps[1..], c)
  }

  lemma CutAt(s: string, k: nat)
    requires k < |s|
    ensures s == s[..k] + [s[k]] + s[k + 1..]
  {
  }

  lemma JoinCons(p: string, rest: seq<string>, c: char)
    requires rest != []
    ensures Join([p] + rest, c) == p + [c] + Join(rest, c)
  {
    assert ([p] + rest)[1..] == rest;
  }

  /** Joining the parts gives the text again, and no part holds the separator. */
  lemma {:induction false} SplitThenJoin(s: string, c: char)
    ensures Join(Split(s, c), c) == s
    ensures forall i :: 0 <= i < |Split(s, c)| ==> c !in Split(s, c)[i]
    decreases |s|
  {
    hide Join;
    var k := FindChar(s, c, 0);
    if k == -1 {
      OnePart(s, c);
    } else {
      SplitThenJoin(s[k + 1..], c);
      CutAt(s, k);
      JoinCons(s[..k], Split(s[k + 1..], c), c);
      NotBefore(s, c, k);
    }
  }

  lemma OnePart(s: string, c: char)
    requires FindChar(s, c, 0) == -1
    ensures Join([s], c) == s && c !in s
  {
    assert [s][0] == s;
  }

  lemma NotBefore(s: string, c: char, k: nat)
    requires FindChar(s, c, 0) == k
    ensures c !in s[..k]
  {
  }

  lemma FirstSeparator(p: string, c: char, rest: string)
    requires c !in p
    ensures FindChar(p + [c] + rest, c, 0) == |p|
    ensures var s := p + [c] + rest; |p| < |s| && s[..|p|] == p && s[|p| + 1..] == rest
  {
    assert (p + [c] + rest)[|p|] == c;
  }

  /** Splitting gives the parts again, for any list of parts without the separator but the empty one. */
  lemma {:induction false} JoinThenSplit(ps: seq<string>, c: char)
    requires ps != [] && forall i :: 0 <= i < |ps| ==> c !in ps[i]
    ensures Split(Join(ps, c), c) == ps
    decreases |ps|
  {
    if |ps| == 1 {
      assert FindChar(ps[0], c, 0) == -1;
    } else {
      FirstSeparator(ps[0], c, Join(ps[1..], c));
      JoinThenSplit(ps[1..], c);
    }
  }

  // ----- case

  function LowerChar(c: char): char {
    if 'A' <= c <= 'Z' then (c as int + 32) as char else c
  }

  function ToLower(s: string): (r: string)
    ensures |r| == |s|
    ensures forall i :: 0 <= i < |s| ==> r[i] == LowerChar(s[i])
  {
    seq(|s|, i requires 0 <= i < |s| => LowerChar(s[i]))
  }

  predicate IsLower(s: string) {
    forall i :: 0 <= i < |s| ==> LowerChar(s[i]) == s[i]
  }

  /** The 26 capitals become small letters, and every other character stays. */
  lemma LowerIs(c: char)
    ensures 65 <= c as int <= 90 ==> LowerChar(c) as int == c as int + 32
    ensures !(65 <= c as int <= 90) ==> LowerChar(c) == c
  {
    assert 'A' as int == 65 && 'Z' as int == 90;
  }

  lemma LowerNothing(s: string)
    requires IsLower(s)
    ensures ToLower(s) == s
  {
  }
}
