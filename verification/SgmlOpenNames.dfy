/**
  The names of the open tags, the outermost first.  They are all that a pass of the parser looks at
  in the document read so far, and an end tag acts on them like an end of block on a stack: it
  closes everything up to the innermost tag of its name (QSgml.cpp:213-227 and 289-338).
*/
module SgmlOpenNames {
  import opened TreeShape
  import opened SgmlModel

  /** The names on the way from tag i up to the document tag, which is left out. */
  function NamesTo(par: Shape, info: seq<Info>, i: int): seq<string>
    decreases i
  {
    if 0 < i < |par| && i < |info| && 0 <= par[i] < i then NamesTo(par, info, par[i]) + [info[i].name] else []
  }

  function OpenNames(d: Doc): seq<string> { NamesTo(d.par, d.info, d.cur) }

  /** What is left open when everything up to the innermost tag of that name is closed. */
  function PopTo(names: seq<string>, name: string): seq<string> {
    if names == [] then []
    else
      var n := |names| - 1;
      if names[n] == name then names[..n]
      else PopTo(names[..n], name)
  }

  /** These are the names in front of the last place where it stands. */
  lemma {:induction false} PopToIsFront(names: seq<string>, name: string)
    ensures var r := PopTo(names, name);
            && (name in names ==> |r| < |names| && r == names[..|r|] && names[|r|] == name && name !in names[|r| + 1..])
            && (name !in names ==> r == [])
    decreases |names|
  {
    if names != [] {
      var n := |names| - 1;
      var front := names[..n];
      assert names == front + [names[n]];
      if names[n] != name {
        PopToIsFront(front, name);
        var r := PopTo(front, name);
        if name in front { assert names[|r| + 1..] == front[|r| + 1..] + [names[n]]; }
      }
    }
  }

  /** Only the part of the document up to tag i counts. */
  lemma {:induction false} NamesAgree(par: Shape, info: seq<Info>, par1: Shape, info1: seq<Info>, i: int)
    requires i < |par| == |info| && i < |par1| == |info1|
    requires forall k :: 0 < k <= i ==> par[k] == par1[k] && info[k].name == info1[k].name
    ensures NamesTo(par, info, i) == NamesTo(par1, info1, i)
    decreases i
  {
    if 0 < i && 0 <= par[i] < i { NamesAgree(par, info, par1, info1, par[i]); }
  }

  lemma LeafKeepsNames(d: Doc, x: Info)
    requires Valid(d)
    ensures OpenNames(AddLeaf(d, x)) == OpenNames(d)
  {
    hide HangsOnSpine, Anc;
    NamesAgree(d.par, d.info, d.par + [d.cur], d.info + [x], d.cur);
  }

  lemma OpenAddsName(d: Doc, x: Info)
    requires Valid(d)
    ensures OpenNames(AddOpen(d, x)) == OpenNames(d) + [x.name]
  {
    hide HangsOnSpine, Anc;
    NamesAgree(d.par, d.info, d.par + [d.cur], d.info + [x], d.cur);
  }

  /** The current tag is the document tag exactly when nothing is open; else its name comes last. */
  lemma CurrentName(d: Doc)
    requires Valid(d)
    ensures OpenNames(d) == [] <==> d.cur == 0
    ensures d.cur > 0 ==> OpenNames(d)[|OpenNames(d)| - 1] == d.info[d.cur].name
  {
    hide HangsOnSpine, Anc;
  }

  /** The tag that an end tag closes is the innermost one of that name; there is one exactly when
      the name is among the open ones. */
  lemma {:induction false} MatchUpIsInnermost(d: Doc, name: string, i: int)
    requires Valid(d) && 0 <= i < |d.par|
    ensures var t, names := MatchUp(d, name, i), NamesTo(d.par, d.info, i);
            && (t > 0 <==> name in names)
            && (t > 0 ==>
                 Anc(d.par, t, i) && d.info[t].name == name &&
                 NamesTo(d.par, d.info, d.par[t]) == PopTo(names, name))
            && (forall k :: t < k && Anc(d.par, k, i) ==> d.info[k].name != name)
    decreases i
  {
    hide HangsOnSpine;
    if i > 0 && d.info[i].name != name {
      MatchUpIsInnermost(d, name, d.par[i]);
      var names := NamesTo(d.par, d.info, i);
      assert names[..|names| - 1] == NamesTo(d.par, d.info, d.par[i]);
      forall k | k != i && Anc(d.par, k, i) ensures Anc(d.par, k, d.par[i]) { AncOfParent(d.par, k, i); }
    }
  }

  /** An end tag is matched exactly when its name is open, and closes everything up to the innermost
      tag of that name. */
  lemma EndTagPops(d: Doc, name: string, pos: int, len: int)
    requires Valid(d)
    ensures var r := ReadEnd(d, name, pos, len);
            && (r.Ended? <==> name in OpenNames(d))
            && (r.Ended? ==> OpenNames(r.doc) == PopTo(OpenNames(d), name))
  {
    MatchUpIsInnermost(d, name, d.cur);
    var t := MatchUp(d, name, d.cur);
    if t > 0 {
      DemoteToIsDemoted(d, t);
      ClosedNames(d, t, pos, len);
    }
  }

  lemma ClosedNames(d: Doc, t: int, pos: int, len: int)
    requires Valid(d) && 0 < t && Anc(d.par, t, d.cur)
    requires DemoteTo(d, t) == Demoted(d, t)
    ensures OpenNames(CloseTop(DemoteTo(d, t), pos, len)) == NamesTo(d.par, d.info, d.par[t])
  {
    hide HangsOnSpine, Anc, DemoteTo;
    var r := CloseTop(DemoteTo(d, t), pos, len);
    assert r.cur == d.par[t];
    NamesAgree(d.par, d.info, r.par, r.info, d.par[t]);
  }
}
