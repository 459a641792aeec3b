/**
  The tag objects (QSgmlTag.cpp): parent and child pointers, levels, and the walk through the
  tree.  `order` lists the tags of a tree in preorder and `par` is its parent vector; the
  contracts say what each method does to the objects in those terms.
*/
module SgmlTags {
  import opened Sequences
  import opened QtText
  import opened TreeShape
  import opened SgmlModel
  import opened SgmlAttributes

  ghost function KidTag(order: seq<SgmlTag>, par: Shape, p: int, m: int): SgmlTag
    requires |order| == |par| && 0 <= m < |Kids(par, p)|
  {
    KidsInRange(par, p);
    order[Kids(par, p)[m]]
  }

  lemma ChildTagAt(order: seq<SgmlTag>, par: Shape, p: int, m: int)
    requires |order| == |par| && 0 <= m < |Kids(par, p)|
    ensures 0 <= Kids(par, p)[m] < |order| && KidsOf(order, par, p)[m] == order[Kids(par, p)[m]]
  {
    KidsInRange(par, p);
  }

  /** The child lists are those of the parent vector. */
  ghost predicate ChildrenOk(order: seq<SgmlTag>, par: Shape)
    reads order`children
  {
    |order| == |par| && forall i :: 0 <= i < |order| ==> order[i].children == KidsOf(order, par, i)
  }

  ghost function ParentTag(order: seq<SgmlTag>, par: Shape, i: int): SgmlTag?
    requires 0 <= i < |par|
  {
    if 0 <= par[i] < |order| then order[par[i]] else null
  }

  /** The parent pointers of the first n tags are those of the parent vector. */
  ghost predicate ParentsOk(order: seq<SgmlTag>, par: Shape, n: int)
    requires n <= |order| == |par|
    reads order`parent
  {
    forall i :: 0 <= i < n ==> order[i].parent == ParentTag(order, par, i)
  }

  ghost predicate LevelsOk(order: seq<SgmlTag>, par: Shape)
    requires |order| == |par|
    reads order`level
  {
    forall i :: 0 <= i < |order| ==> order[i].level == Level(par, i)
  }

  ghost predicate Downward(par: Shape) {
    |par| > 0 && par[0] == -1 && forall i :: 0 < i < |par| ==> 0 <= par[i] < i
  }

  /** Is x below one of the first k children of i? */
  ghost predicate BelowKids(par: Shape, i: int, k: int, x: int) {
    exists m :: 0 <= m < k && m < |Kids(par, i)| && Anc(par, Kids(par, i)[m], x)
  }

  lemma {:induction false} BelowSomeKid(par: Shape, i: int, x: int)
    requires Downward(par) && 0 <= i < |par| && x < |par| && Anc(par, i, x)
    ensures x == i || BelowKids(par, i, |Kids(par, i)|, x)
    decreases x
  {
    if x != i {
      if par[x] == i {
        KidsComplete(par, i, x);
        var m :| 0 <= m < |Kids(par, i)| && Kids(par, i)[m] == x;
      } else {
        BelowSomeKid(par, i, par[x]);
        var m :| 0 <= m < |Kids(par, i)| && Anc(par, Kids(par, i)[m], par[x]);
        AncTrans(par, Kids(par, i)[m], par[x], x);
      }
    }
  }

  lemma BelowKidIsBelow(par: Shape, i: int, k: int, x: int)
    requires Downward(par) && BelowKids(par, i, k, x)
    ensures 0 <= i ==> Anc(par, i, x)
  {
    var m :| 0 <= m < k && m < |Kids(par, i)| && Anc(par, Kids(par, i)[m], x);
    assert Kids(par, i)[m] in Kids(par, i);
    if 0 <= i { AncTrans(par, i, Kids(par, i)[m], x); }
  }

  /** One turn of the attribute loop. */
  lemma ReadOne(sc: Scan, attrs: Attributes)
    requires sc.endName != -1 && ReadAttributes(sc, attrs).Some?
    ensures var e := NextEquals(sc.all);
            var text := ValueText(sc.all, e);
            && text != []
            && var attrs1 := Put(attrs, ToLower(sc.attrName), Unquote(text));
            && (e != -1 ==> ReadAttributes(sc, attrs) == ReadAttributes(NextScan(sc, e), attrs1))
            && (e == -1 ==> forall n, all :: ReadAttributes(sc, attrs) == ReadAttributes(Scan(n, all, e), attrs1))
  {
  }

  lemma ReadNone(sc: Scan, attrs: Attributes)
    requires sc.endName == -1
    ensures ReadAttributes(sc, attrs) == Some(attrs)
  {
  }

  /** Tags that hold a text instead of a name. */
  predicate IsText(kind: TagType) {
    kind == Doctype || kind == Cdata || kind == Comment
  }

  class SgmlTag {
    var level: int
    var parent: SgmlTag?
    var children: seq<SgmlTag>
    var attributes: Attributes
    var name: string
    var value: string
    var kind: TagType
    var startTagPos: int
    var startTagLength: int
    var endTagPos: int
    var endTagLength: int

    ghost function Record(): Info
      reads `kind, `name, `attributes, `value, `startTagPos, `startTagLength, `endTagPos, `endTagLength
    {
      Info(kind, name, attributes, value, startTagPos, startTagLength, endTagPos, endTagLength)
    }

    /** The end tag of this tag has been read. */
    method MarkEnd(pos: int, len: int)
      modifies `endTagPos, `endTagLength, `kind
      ensures Record() == ClosedInfo(old(Record()), |children| == 0, pos, len)
    {
      endTagPos := pos;
      endTagLength := len;
      if |children| == 0 {
        kind := StartEmpty;
      }
    }

    constructor (inner: string, kind: TagType, parent: SgmlTag?)
      requires IsText(kind) || ParseTag(inner).Some?
      ensures this.kind == kind && this.parent == parent && children == []
      ensures level == if parent == null then 0 else parent.level + 1
      ensures startTagPos == startTagLength == endTagPos == endTagLength == 0
      ensures IsText(kind) ==> name == "" && attributes == [] && value == inner
      ensures !IsText(kind) ==> Some((name, attributes)) == ParseTag(inner) && value == ""
    {
      hide ParseTag;
      this.kind := kind;
      this.parent := parent;
      this.level := if parent == null then 0 else parent.level + 1;
      this.children := [];
      this.attributes := [];
      this.name := "";
      this.value := "";
      this.startTagPos, this.startTagLength, this.endTagPos, this.endTagLength := 0, 0, 0, 0;
      new;
      if kind != Doctype && kind != Cdata && kind != Comment {
        SetNameAttributes(inner);
        value := "";
      } else {
        value := inner;
      }
    }

    method SetNameAttributes(inner: string)
      requires attributes == [] && ParseTag(inner).Some?
      modifies `name, `attributes
      ensures Some((name, attributes)) == ParseTag(inner)
    {
      hide Trim, Mid, MidAll, Left, FindChar, AttributePart, TagName, ReadAttributes, NextEquals, ValueText, NextScan,
          Unquote, Put, ToLower;
      var endName := SetName(inner);
      var allAtr := AttributePart(inner);
      endName := FindChar(allAtr, '=', 0);
      var attrName := Trim(Left(allAtr, endName));
      allAtr := Trim(MidAll(allAtr, endName + 1));
      ghost var all := ReadAttributes(FirstScan(AttributePart(inner)), []);
      while endName != -1
        invariant -1 <= endName && Some(name) == TagName(inner)
        invariant ReadAttributes(Scan(attrName, allAtr, endName), attributes) == all
        decreases if endName == -1 then 0 else |allAtr| + 1
      {
        ghost var sc := Scan(attrName, allAtr, endName);
        ReadOne(sc, attributes);
        var key := ToLower(attrName);
        var atrString;
        atrString, attrName, allAtr, endName := NextAttribute(attrName, allAtr, endName);
        SetAttribute(key, atrString);
      }
      ReadNone(Scan(attrName, allAtr, endName), attributes);
    }

    method SetName(inner: string) returns (endName: int)
      requires TagName(inner).Some?
      modifies `name
      ensures Some(name) == TagName(inner) && endName == FindChar(Trim(inner), ' ', 0)
    {
      var trimmed := Trim(inner);
      endName := FindChar(trimmed, ' ', 0);
      name := ToLower(Trim(Left(trimmed, endName)));
      if name[0] == '!' || name[0] == '/' {
        name := name[1..];
      }
    }

    /** Cut the value off the front of `all`, and read the name of the attribute behind it. */
    method NextAttribute(name: string, all: string, end: int)
      returns (value: string, attrName: string, allAtr: string, endName: int)
      ensures endName == NextEquals(all) && value == ValueText(all, endName)
      ensures endName != -1 ==> Scan(attrName, allAtr, endName) == NextScan(Scan(name, all, end), endName)
      ensures endName != -1 ==> |allAtr| < |all|
    {
      hide Trim, Mid, Left, FindChar, LastBlank;
      attrName, allAtr := name, all;
      endName := FindChar(all, '=', 0);
      var posQuote := FindChar(all, '\"', 0);
      if posQuote < endName {
        var close := FindChar(all, '\"', posQuote + 1);
        endName := FindChar(all, '=', close + 1);
      }
      if endName == -1 {
        value := all;
      } else {
        var startName := LastBlank(all[..endName]);
        value := Left(all, startName);
        attrName := Trim(Mid(all, startName, endName - startName));
        allAtr := Trim(MidAll(all, endName + 1));
      }
      value := Trim(value);
    }

    /** Store a value without the quotes around it. */
    method SetAttribute(key: string, text: string)
      requires text != []
      modifies `attributes
      ensures attributes == Put(old(attributes), key, Unquote(text))
    {
      if text[0] == '\"' || text[|text| - 1] == '\"' {
        attributes := Put(attributes, key, Mid(text, 1, |text| - 2));
      } else if text[0] == '\'' || text[|text| - 1] == '\'' {
        attributes := Put(attributes, key, Mid(text, 1, |text| - 2));
      } else {
        attributes := Put(attributes, key, text);
      }
    }

    /** Set the level of this tag and of everything below it from the parent pointers.
        `kids` describes the child lists and `par` the parent pointers; they may differ at tags
        whose parent has already got its level. */
    method ResetLevel(ghost order: seq<SgmlTag>, ghost kids: Shape, ghost par: Shape, ghost i: int)
      requires Distinct(order) && ChildrenOk(order, kids) && Downward(kids) && Downward(par)
      requires |order| == |par| == |kids| && 0 < i < |order| && order[i] == this
      requires ParentsOk(order, par, |order|)
      requires LevelSet(order, par, par[i]) && ReadyBelow(Levels(order), kids, par, i)
      modifies order`level
      ensures forall x :: 0 <= x < |order| ==>
        order[x].level == if Anc(kids, i, x) then Level(par, x) else old(order[x].level)
      decreases |order| - i, 1
    {
      assert parent == ParentTag(order, par, i);
      level := parent.level + 1;
      assert forall x :: 0 <= x < |order| && x != i ==> order[x].level == old(order[x].level);
      ReadyKept(old(Levels(order)), Levels(order), kids, par, i);
      hide Kids, Anc, Distinct, ParentsOk, ReadyBelow, Downward;
      ResetChildren(order, kids, par, i);
      SubtreeIsKids(kids, i);
    }

    /** The loop of ResetLevel over the children. */
    method ResetChildren(ghost order: seq<SgmlTag>, ghost kids: Shape, ghost par: Shape, ghost i: int)
      requires Distinct(order) && ChildrenOk(order, kids) && Downward(kids) && Downward(par)
      requires |order| == |par| == |kids| && 0 < i < |order| && order[i] == this
      requires ParentsOk(order, par, |order|)
      requires LevelSet(order, par, i) && ReadyBelow(Levels(order), kids, par, i)
      modifies order`level
      ensures forall x :: 0 <= x < |order| ==>
        order[x].level == if BelowKids(kids, i, |Kids(kids, i)|, x) then Level(par, x) else old(order[x].level)
      decreases |order| - i, 0
    {
      hide *;
      KidTags(order, kids, i);
      ghost var ks := Kids(kids, i);
      ghost var tags := children;
      ghost var l0 := Levels(order);
      NoneRaised(l0, kids, par, i);
      var k := 0;
      while k < |children|
        invariant 0 <= k <= |children| && children == tags
        invariant ChildrenOk(order, kids) && ParentsOk(order, par, |order|)
        invariant LevelSet(order, par, i) && ReadyBelow(Levels(order), kids, par, i)
        invariant RaisedBelow(l0, Levels(order), kids, par, i, k)
      {
        KidIsReady(order, kids, par, i, ks[k]);
        LevelIsSet(order, par, i);
        ghost var before := Levels(order);
        children[k].ResetLevel(order, kids, par, ks[k]);
        OneMoreRaised(order, l0, before, kids, par, i, k);
        k := k + 1;
      }
      RaisedAll(l0, order, kids, par, i);
    }

    // ----- walking

    /** The tag behind this one in its parent's child list, or null. */
    method GetNextSibling(ghost order: seq<SgmlTag>, ghost par: Shape, ghost i: int)
      returns (r: SgmlTag?, ghost m: nat)
      requires Walkable(order, par) && 0 < i < |order| - 1 && order[i] == this
      ensures m < |Kids(par, par[i])| && Kids(par, par[i])[m] == i
      ensures r == if m + 1 < |Kids(par, par[i])| then KidTag(order, par, par[i], m + 1) else null
    {
      hide Kids, Anc;
      assert parent == ParentTag(order, par, i);
      KidsComplete(par, par[i], i);
      KidTags(order, par, par[i]);
      ghost var ks := Kids(par, par[i]);
      var siblings := parent.children;
      var k := 0;
      while k < |siblings| && siblings[k] != this
        invariant 0 <= k <= |siblings|
        invariant forall j :: 0 <= j < k ==> ks[j] != i
      {
        k := k + 1;
      }
      assert k < |siblings|;
      m := k;
      assert ks[m] == i by { SameTag(order, ks[m], i); }
      if k == |siblings| - 1 {
        r := null;
      } else {
        r := siblings[k + 1];
      }
    }

    /** The tag before this one in its parent's child list, or null.  A tag that is not in the list
        (the virtual end tag, whose parent pointer is never updated) counts as behind the last. */
    method GetPreviousSibling(ghost order: seq<SgmlTag>, ghost par: Shape, ghost i: int, ghost p: int)
      returns (r: SgmlTag?, ghost m: nat)
      requires Linked(order, par) && 0 < i < |order| && order[i] == this
      requires 0 <= p < |order| && parent == order[p]
      ensures m <= |Kids(par, p)|
      ensures if par[i] == p then m < |Kids(par, p)| && Kids(par, p)[m] == i else m == |Kids(par, p)|
      ensures r == if m > 0 then KidTag(order, par, p, m - 1) else null
    {
      hide Kids, Anc;
      KidTags(order, par, p);
      ghost var ks := Kids(par, p);
      var siblings := parent.children;
      var k := 0;
      while k < |siblings| && siblings[k] != this
        invariant 0 <= k <= |siblings|
        invariant forall j :: 0 <= j < k ==> ks[j] != i
      {
        k := k + 1;
      }
      m := k;
      if par[i] == p {
        KidsComplete(par, p, i);
        assert k < |siblings|;
      }
      if k < |siblings| {
        SameTag(order, ks[k], i);
        assert ks[k] in ks;
      }
      if k == 0 {
        r := null;
      } else {
        r := siblings[k - 1];
      }
    }

    /** The next sibling of this tag, whose subtree ends at i: it is the tag behind i, and
        when there is none, the subtree of the parent ends at i as well. */
    method SiblingBehind(ghost order: seq<SgmlTag>, ghost par: Shape, ghost at: int, ghost i: int)
      returns (r: SgmlTag?)
      requires Walkable(order, par) && 0 < at <= i < |order| - 1 && order[at] == this && EndsAt(par, at, i)
      ensures r != null ==> r == order[i + 1]
      ensures r == null ==> 0 < par[at] < at && parent == order[par[at]] && EndsAt(par, par[at], i)
    {
      hide Kids, Anc, EndsAt;
      ghost var m;
      r, m := GetNextSibling(order, par, at);
      assert parent == ParentTag(order, par, at);
      ClimbOn(par, at, i, m);
    }

    /** The next tag in document order. */
    method GetNextElement(ghost order: seq<SgmlTag>, ghost par: Shape, ghost i: int) returns (r: SgmlTag)
      requires Walkable(order, par) && 0 <= i < |order| - 1 && order[i] == this
      ensures r == order[i + 1]
    {
      hide Anc, EndsAt, Distinct, Preorder, ParentsOk;
      if |children| > 0 {
        FirstKid(par, i);
        KidTags(order, par, i);
        r := children[0];
      } else {
        KidTags(order, par, i);
        LeafEnds(par, i);
        RootNeverEnds(par, i, i);
        hide Kids;
        var tag := this;
        ghost var at := i;
        var sibling := tag.SiblingBehind(order, par, at, i);
        while sibling == null
          invariant EndsAt(par, at, i) && 0 < at <= i && order[at] == tag
          invariant sibling != null ==> sibling == order[i + 1]
          invariant sibling == null ==> 0 < par[at] < at && tag.parent == order[par[at]] && EndsAt(par, par[at], i)
          decreases at
        {
          tag := tag.parent;
          at := par[at];
          sibling := tag.SiblingBehind(order, par, at, i);
        }
        r := sibling;
      }
    }

    /** The previous tag in document order, as the program computes it: the test for a missing
        sibling looks at the address of a local variable and never succeeds, so that a first
        child ends in a null dereference (QSgmlTag.cpp:228-241). */
    method GetPreviousElement(ghost order: seq<SgmlTag>, ghost par: Shape, ghost i: int, ghost p: int) returns (r: Walk)
      requires Linked(order, par) && 0 < i < |order| && order[i] == this
      requires 0 <= p < |order| && parent == order[p]
      requires par[i] != p ==> p == 0 && i == |order| - 1
      ensures par[i] == p ==> r == if par[i] == i - 1 then NullDereference else Reached(order[i - 1])
      ensures par[i] != p ==> r == Reached(this)
    {
      hide Kids, Anc;
      var tag, m := GetPreviousSibling(order, par, i, p);
      ghost var last := if par[i] == p then i - 1 else i;
      StepsBack(par, i, p, m);
      if tag == null {
        return NullDereference;
      }
      ghost var at := Kids(par, p)[m - 1];
      var t: SgmlTag := tag;
      while |t.children| != 0
        invariant EndsAt(par, at, last) && order[at] == t
        decreases |order| - at
      {
        KidTags(order, par, at);
        LastKidEnds(par, at, last);
        at := Kids(par, at)[|Kids(par, at)| - 1];
        t := t.children[|t.children| - 1];
      }
      KidTags(order, par, at);
      LeafEnds(par, at);
      OneLeafEnds(par, at, last);
      return Reached(t);
    }
  }

  /** What a walk that dereferences its result comes to. */
  datatype Walk = Reached(tag: SgmlTag) | NullDereference

  ghost predicate Linked(order: seq<SgmlTag>, par: Shape)
    reads order`children
  {
    Distinct(order) && Preorder(par) && ChildrenOk(order, par)
  }

  /** The tree as it is after parsing: all pointers are right but the parent of the last tag. */
  ghost predicate Walkable(order: seq<SgmlTag>, par: Shape)
    reads order`children, order`parent
  {
    Linked(order, par) && ParentsOk(order, par, |order| - 1)
  }

  lemma SameTag(order: seq<SgmlTag>, i: int, j: int)
    requires Distinct(order) && 0 <= i < |order| && 0 <= j < |order|
    ensures order[i] == order[j] ==> i == j
  {
  }

  lemma RootNeverEnds(par: Shape, r: int, i: int)
    requires Preorder(par) && EndsAt(par, r, i) && i < |par| - 1
    ensures 0 < r <= i
  {
    RootIsAnc(par, i + 1);
  }

  lemma ClimbOn(par: Shape, at: int, i: int, m: nat)
    requires Preorder(par) && 0 < at && EndsAt(par, at, i) && i < |par| - 1
    requires m < |Kids(par, par[at])| && Kids(par, par[at])[m] == at
    ensures m + 1 < |Kids(par, par[at])| ==> Kids(par, par[at])[m + 1] == i + 1
    ensures m + 1 == |Kids(par, par[at])| ==> 0 < par[at] < at && EndsAt(par, par[at], i)
  {
    hide Kids, Anc;
    if m + 1 < |Kids(par, par[at])| {
      NextSiblingFollows(par, at, i, m);
    } else {
      LastSiblingEnds(par, at, i);
      RootNeverEnds(par, par[at], i);
    }
  }

  lemma OneLeafEnds(par: Shape, at: int, last: int)
    requires Preorder(par) && EndsAt(par, at, at) && EndsAt(par, at, last)
    ensures at == last
  {
    if at < last { SubtreeInterval(par, at, at + 1, last); }
  }

  /** Where the previous sibling's subtree ends. */
  lemma StepsBack(par: Shape, i: int, p: int, m: nat)
    requires Preorder(par) && 0 < i < |par| && 0 <= p < |par| && m <= |Kids(par, p)|
    requires if par[i] == p then m < |Kids(par, p)| && Kids(par, p)[m] == i else m == |Kids(par, p)|
    requires par[i] != p ==> p == 0 && i == |par| - 1
    ensures par[i] == p ==> (m == 0 <==> p == i - 1)
    ensures par[i] == p && m > 0 ==> EndsAt(par, Kids(par, p)[m - 1], i - 1)
    ensures par[i] != p ==> m > 0 && EndsAt(par, Kids(par, p)[m - 1], i)
  {
    if par[i] == p {
      FirstKid(par, p);
      if m > 0 {
        PreviousSiblingEnds(par, i, m - 1);
        KidsStep(par, p, m - 1);
        KidsIncreasing(par, p);
      }
    } else {
      RootIsAnc(par, i);
      var b := BranchBelow(par, 0, i);
      KidsComplete(par, 0, b);
      LastKidEnds(par, 0, i);
    }
  }

  lemma KidTags(order: seq<SgmlTag>, par: Shape, i: int)
    requires ChildrenOk(order, par) && 0 <= i < |order|
    ensures |order[i].children| == |Kids(par, i)|
    ensures forall k :: 0 <= k < |Kids(par, i)| ==>
      0 <= Kids(par, i)[k] < |order| && order[i].children[k] == order[Kids(par, i)[k]]
  {
    forall k | 0 <= k < |Kids(par, i)|
      ensures 0 <= Kids(par, i)[k] < |order| && order[i].children[k] == order[Kids(par, i)[k]]
    {
      ChildTagAt(order, par, i, k);
    }
  }

  /** The levels after the first k children of i have been reset. */
  ghost predicate RaisedBelow(l0: seq<int>, l: seq<int>, kids: Shape, par: Shape, i: int, k: int)
    requires |l0| == |l| == |par| == |kids|
  {
    forall x :: 0 <= x < |par| ==> l[x] == if BelowKids(kids, i, k, x) then Level(par, x) else l0[x]
  }

  lemma NoneRaised(l0: seq<int>, kids: Shape, par: Shape, i: int)
    requires |l0| == |par| == |kids|
    ensures RaisedBelow(l0, l0, kids, par, i, 0)
  {
  }

  lemma OneMoreRaised(order: seq<SgmlTag>, l0: seq<int>, before: seq<int>, kids: Shape, par: Shape, i: int, k: int)
    requires |l0| == |before| == |par| == |kids| == |order| && Downward(par) && 0 <= i < |order|
    requires 0 <= k < |Kids(kids, i)|
    requires RaisedBelow(l0, before, kids, par, i, k) && ReadyBelow(before, kids, par, i) && before[i] == Level(par, i)
    requires forall x :: 0 <= x < |order| ==>
      order[x].level == if Anc(kids, Kids(kids, i)[k], x) then Level(par, x) else before[x]
    ensures RaisedBelow(l0, Levels(order), kids, par, i, k + 1)
    ensures ReadyBelow(Levels(order), kids, par, i) && LevelSet(order, par, i)
  {
    hide Kids, Anc, Level, BelowKids, ReadyBelow, Downward;
    BelowOneMore(kids, i, k);
    ReadyKept(before, Levels(order), kids, par, i);
  }

  lemma RaisedAll(l0: seq<int>, order: seq<SgmlTag>, kids: Shape, par: Shape, i: int)
    requires |l0| == |par| == |kids| == |order|
    requires RaisedBelow(l0, Levels(order), kids, par, i, |Kids(kids, i)|)
    ensures forall x :: 0 <= x < |order| ==>
      order[x].level == if BelowKids(kids, i, |Kids(kids, i)|, x) then Level(par, x) else l0[x]
  {
    hide Kids, Level, BelowKids;
  }

  lemma BelowOneMore(par: Shape, i: int, k: int)
    requires 0 <= k < |Kids(par, i)|
    ensures forall x :: BelowKids(par, i, k + 1, x) <==> BelowKids(par, i, k, x) || Anc(par, Kids(par, i)[k], x)
  {
    hide Kids, Anc;
    forall x ensures BelowKids(par, i, k + 1, x) <==> BelowKids(par, i, k, x) || Anc(par, Kids(par, i)[k], x) {
      if Anc(par, Kids(par, i)[k], x) {
        assert BelowKids(par, i, k + 1, x);
      }
    }
  }

  lemma SubtreeIsKids(par: Shape, i: int)
    requires Downward(par) && 0 <= i < |par|
    ensures forall x :: 0 <= x < |par| ==> (Anc(par, i, x) <==> x == i || BelowKids(par, i, |Kids(par, i)|, x))
  {
    forall x | 0 <= x < |par| ensures Anc(par, i, x) <==> x == i || BelowKids(par, i, |Kids(par, i)|, x) {
      if Anc(par, i, x) { BelowSomeKid(par, i, x); }
      if BelowKids(par, i, |Kids(par, i)|, x) { BelowKidIsBelow(par, i, |Kids(par, i)|, x); }
    }
  }

  ghost predicate LevelSet(order: seq<SgmlTag>, par: Shape, i: int)
    requires |order| == |par| && i < |order|
    reads order`level
  {
    0 <= i && order[i].level == Level(par, i)
  }

  lemma LevelIsSet(order: seq<SgmlTag>, par: Shape, i: int)
    requires |order| == |par| && i < |order| && LevelSet(order, par, i)
    ensures 0 <= i && Levels(order)[i] == Level(par, i)
  {
  }

  ghost function Levels(order: seq<SgmlTag>): (r: seq<int>)
    reads order
    ensures |r| == |order| && forall x :: 0 <= x < |order| ==> r[x] == order[x].level
  {
    seq(|order|, x requires 0 <= x < |order| reads order => order[x].level)
  }

  /** Below i the parent of each tag is the tag that lists it, or has got its level already. */
  ghost predicate ReadyBelow(levels: seq<int>, kids: Shape, par: Shape, i: int)
    requires |levels| == |par| == |kids| && Downward(par)
  {
    forall x :: 0 < x < |par| && Anc(kids, i, x) && x != i ==> par[x] == kids[x] || levels[par[x]] == Level(par, par[x])
  }

  lemma ReadyKept(before: seq<int>, after: seq<int>, kids: Shape, par: Shape, i: int)
    requires |before| == |after| == |par| == |kids| && Downward(par)
    requires ReadyBelow(before, kids, par, i)
    requires forall x :: 0 <= x < |par| ==> after[x] == before[x] || after[x] == Level(par, x)
    ensures ReadyBelow(after, kids, par, i)
  {
    hide Anc, Level;
  }

  lemma KidIsReady(order: seq<SgmlTag>, kids: Shape, par: Shape, i: int, c: int)
    requires |order| == |par| == |kids| && Downward(par) && Downward(kids) && 0 < i
    requires c in Kids(kids, i)
    requires LevelSet(order, par, i) && ReadyBelow(Levels(order), kids, par, i)
    ensures i < c < |order| && LevelSet(order, par, par[c]) && ReadyBelow(Levels(order), kids, par, c)
  {
    assert Anc(kids, i, c);
    forall x | 0 < x < |order| && Anc(kids, c, x) && x != c
      ensures par[x] == kids[x] || Levels(order)[par[x]] == Level(par, par[x])
    {
      AncTrans(kids, i, c, x);
    }
  }
}
