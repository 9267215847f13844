/** Copies of nodes and documents (drivers/Mach3/tinyxml2.cpp:781-792, 1768-1793, 1927-1937, 2081-2092). The byte order
    mark flag and the options of a document are not copied by DeepCopy, and are no part of what is said here. */
module XmlClone {
  import opened XmlGrammar
  import opened XmlParsed
  import opened XmlTree
  import opened SiblingLists
  import opened XmlDom
  import opened DomTrees
  import opened NodeAccounting

  // ---------- attributes ----------

  /** SetAttribute: the attribute of that name gets the value, or a new one is put at the end. */
  function SetAttribute(attributes: seq<Attribute>, a: Attribute): seq<Attribute> {
    if attributes == [] then [a]
    else if attributes[0].name == a.name then [a] + attributes[1..]
    else [attributes[0]] + SetAttribute(attributes[1..], a)
  }

  /** The attributes after each of `from` has been set. */
  function SetAll(to: seq<Attribute>, from: seq<Attribute>): seq<Attribute>
    decreases |from|
  {
    if from == [] then to else SetAttribute(SetAll(to, from[..|from| - 1]), from[|from| - 1])
  }

  /** ShallowClone's loop over the attributes of an element. */
  method CloneAttributes(from: seq<Attribute>) returns (to: seq<Attribute>)
    ensures to == SetAll([], from)
  {
    to := [];
    for i := 0 to |from|
      invariant to == SetAll([], from[..i])
    {
      assert from[..i + 1][..i] == from[..i];
      to := SetAttribute(to, from[i]);
    }
    assert from[..|from|] == from;
  }

  predicate NamesDistinct(attributes: seq<Attribute>) {
    forall i, j :: 0 <= i < j < |attributes| ==> attributes[i].name != attributes[j].name
  }

  lemma {:induction false} SetNew(attributes: seq<Attribute>, a: Attribute)
    requires forall i :: 0 <= i < |attributes| ==> attributes[i].name != a.name
    ensures SetAttribute(attributes, a) == attributes + [a]
  {
    if attributes != [] {
      SetNew(attributes[1..], a);
      assert attributes == [attributes[0]] + attributes[1..];
    }
  }

  lemma {:induction false} SetOld(attributes: seq<Attribute>, a: Attribute, k: nat)
    requires k < |attributes| && attributes[k].name == a.name
    ensures |SetAttribute(attributes, a)| == |attributes|
  {
    if attributes[0].name != a.name {
      SetOld(attributes[1..], a, k - 1);
    }
  }

  lemma {:induction false} SetLength(attributes: seq<Attribute>, a: Attribute)
    ensures |SetAttribute(attributes, a)| <= |attributes| + 1
  {
    if attributes != [] {
      SetLength(attributes[1..], a);
    }
  }

  lemma {:induction false} SetAllLength(from: seq<Attribute>)
    ensures |SetAll([], from)| <= |from|
    decreases |from|
  {
    if from != [] {
      SetAllLength(from[..|from| - 1]);
      SetLength(SetAll([], from[..|from| - 1]), from[|from| - 1]);
    }
  }

  /** One attribute more: kept at the end when its name is new, lost into an earlier one otherwise. */
  lemma OneMoreSet(before: seq<Attribute>, a: Attribute)
    ensures (forall k :: 0 <= k < |before| ==> before[k].name != a.name) ==> SetAttribute(before, a) == before + [a]
    ensures (exists k :: 0 <= k < |before| && before[k].name == a.name) ==> |SetAttribute(before, a)| == |before|
  {
    if k :| 0 <= k < |before| && before[k].name == a.name {
      SetOld(before, a, k);
    } else {
      SetNew(before, a);
    }
  }

  lemma NamesOfMore(before: seq<Attribute>, a: Attribute)
    ensures NamesDistinct(before + [a]) <==>
      NamesDistinct(before) && forall k :: 0 <= k < |before| ==> before[k].name != a.name
  {
    var from := before + [a];
    assert from[|before|] == a && forall k :: 0 <= k < |before| ==> from[k] == before[k];
  }

  /** The attributes are copied as they are exactly when their names differ. */
  lemma {:induction false} AttributesClonedExactlyWhen(from: seq<Attribute>)
    ensures SetAll([], from) == from <==> NamesDistinct(from)
    ensures !NamesDistinct(from) ==> |SetAll([], from)| < |from|
    decreases |from|
  {
    hide NamesDistinct, SetAttribute;
    if from == [] {
      assert NamesDistinct([]) by { NoNamesAlike(); }
    } else {
      var n := |from| - 1;
      var before, a := from[..n], from[n];
      AttributesClonedExactlyWhen(before);
      SetAllLength(before);
      SetLength(SetAll([], before), a);
      assert from == before + [a];
      NamesOfMore(before, a);
      OneMoreSet(before, a);
    }
  }

  lemma NoNamesAlike()
    ensures NamesDistinct([])
  {
  }

  // ---------- which attributes a clone has ----------

  /** The names, in the order in which they come up first. */
  function FirstNames(from: seq<Attribute>): seq<string>
    decreases |from|
  {
    if from == [] then []
    else
      var names, name := FirstNames(from[..|from| - 1]), from[|from| - 1].name;
      if name in names then names else names + [name]
  }

  /** The value given last to a name. */
  function LastValue(from: seq<Attribute>, name: string): string
    decreases |from|
  {
    if from == [] then ""
    else if from[|from| - 1].name == name then from[|from| - 1].value
    else LastValue(from[..|from| - 1], name)
  }

  /** These attributes have these names, each with the value it was given last. */
  predicate HasLast(attributes: seq<Attribute>, names: seq<string>, from: seq<Attribute>) {
    && |attributes| == |names|
    && forall i :: 0 <= i < |names| ==> attributes[i] == Attribute(names[i], LastValue(from, names[i]))
  }

  lemma {:induction false} SetAtName(attributes: seq<Attribute>, a: Attribute, k: nat)
    requires k < |attributes| && attributes[k].name == a.name
    requires forall i :: 0 <= i < k ==> attributes[i].name != a.name
    ensures SetAttribute(attributes, a) == attributes[k := a]
  {
    if k > 0 {
      SetAtName(attributes[1..], a, k - 1);
      assert attributes[k := a] == [attributes[0]] + attributes[1..][k - 1 := a];
    } else {
      assert attributes[0 := a] == [a] + attributes[1..];
    }
  }

  predicate Different(names: seq<string>) {
    forall i, j :: 0 <= i < j < |names| ==> names[i] != names[j]
  }

  lemma OneNameMore(names: seq<string>, name: string)
    requires Different(names) && name !in names
    ensures Different(names + [name])
  {
    assert forall i :: 0 <= i < |names| ==> names[i] in names;
  }

  lemma {:induction false} FirstNamesDiffer(from: seq<Attribute>)
    ensures Different(FirstNames(from))
    decreases |from|
  {
    hide Different;
    if from == [] {
      assert Different([]) by { NoneDiffer(); }
    } else {
      var names, name := FirstNames(from[..|from| - 1]), from[|from| - 1].name;
      FirstNamesDiffer(from[..|from| - 1]);
      if name !in names {
        OneNameMore(names, name);
      }
    }
  }

  lemma NoneDiffer()
    ensures Different([])
  {
  }

  lemma SetKeepsLast(attributes: seq<Attribute>, names: seq<string>, before: seq<Attribute>, a: Attribute)
    requires HasLast(attributes, names, before) && Different(names)
    ensures HasLast(SetAttribute(attributes, a), if a.name in names then names else names + [a.name], before + [a])
  {
    hide SetAttribute;
    var from := before + [a];
    assert from[..|from| - 1] == before && from[|from| - 1] == a;
    assert forall i :: 0 <= i < |names| ==> attributes[i].name == names[i];
    if a.name in names {
      var k :| 0 <= k < |names| && names[k] == a.name;
      SetAtName(attributes, a, k);
    } else {
      SetNew(attributes, a);
    }
  }

  /** Setting the attributes one by one keeps each name where it came up first, with the value it was given last. */
  lemma {:induction false} SetAllKeepsLast(from: seq<Attribute>)
    ensures HasLast(SetAll([], from), FirstNames(from), from)
    decreases |from|
  {
    hide SetAttribute, HasLast;
    if from == [] {
      NothingSet();
    } else {
      var before, a := from[..|from| - 1], from[|from| - 1];
      assert from == before + [a];
      SetAllKeepsLast(before);
      FirstNamesDiffer(before);
      SetKeepsLast(SetAll([], before), FirstNames(before), before, a);
    }
  }

  lemma NothingSet()
    ensures HasLast([], [], [])
  {
  }

  // ---------- trees ----------

  /** The tree a clone stands for. */
  function Cloned(t: Node): Node
    decreases t, 0
  {
    if t.Element? then Element(t.name, SetAll([], t.attributes), ClonedAll(t.children)) else t
  }

  function ClonedAll(ts: seq<Node>): (r: seq<Node>)
    ensures |r| == |ts|
    ensures forall i :: 0 <= i < |ts| ==> r[i] == Cloned(ts[i])
    decreases ts, 1
  {
    if ts == [] then [] else [Cloned(ts[0])] + ClonedAll(ts[1..])
  }

  /** No element below has two attributes of one name, as in every document a parse has made. */
  predicate Regular(t: Node)
    decreases t
  {
    t.Element? ==> NamesDistinct(t.attributes) && forall i :: 0 <= i < |t.children| ==> Regular(t.children[i])
  }

  /** A clone is equal to its original exactly when attribute names are distinct throughout. */
  lemma {:induction false} ClonedExactlyWhen(t: Node)
    ensures Cloned(t) == t <==> Regular(t)
    decreases t
  {
    if t.Element? {
      AttributesClonedExactlyWhen(t.attributes);
      forall i | 0 <= i < |t.children|
        ensures Cloned(t.children[i]) == t.children[i] <==> Regular(t.children[i])
      {
        ClonedExactlyWhen(t.children[i]);
      }
      var ts := t.children;
      assert ClonedAll(ts) == ts <==> forall i :: 0 <= i < |ts| ==> Cloned(ts[i]) == ts[i];
    }
  }

  lemma {:induction false} StructuredIsRegular(t: Node)
    requires Structured(t)
    ensures Regular(t)
    decreases t
  {
    if t.Element? {
      forall i | 0 <= i < |t.children|
        ensures Regular(t.children[i])
      {
        StructuredIsRegular(t.children[i]);
      }
    }
  }

  /** Whatever was parsed, its clone is equal to it. */
  lemma ParsedIsClonedAsIs(o: Options, text: string)
    ensures var r := Parse(o, text); r.Ok? ==> ClonedAll(r.document.children) == r.document.children
  {
    hide Parse, Structured, Regular, Cloned;
    ParsedIsStructured(o, text);
    if Parse(o, text).Ok? {
      var ts := Parse(o, text).document.children;
      forall i | 0 <= i < |ts|
        ensures Regular(ts[i])
      {
        StructuredIsRegular(ts[i]);
      }
      CopyIsEqualExactlyWhen(ts);
    }
  }

  // ---------- DeepClone ----------

  /** ShallowClone of a node that is not a document. */
  method ShallowClone(n: XMLNode, target: DocumentTree, ghost t: Node) returns (clone: XMLNode)
    requires target.Valid() && Holds(n.item, t)
    modifies target`forest, target`unlinked, target`currentAllocs, target`untracked
    ensures target.Valid() && fresh(clone) && target.forest == Born(old(target.forest), clone)
    ensures clone !in old(target.forest).kids && Parts(clone.item, t)
  {
    hide Born, Fits, Parentless, DocumentTree.Owned;
    var item := n.item;
    if item.ElementItem? {
      var attributes := CloneAttributes(item.attributes);
      item := ElementItem(item.name, attributes);
    }
    clone := target.CreateUnlinkedNode(item);
  }

  /** A node that holds what a clone of `t` holds. */
  predicate Parts(item: Item, t: Node) {
    Holds(item, if t.Element? then Element(t.name, SetAll([], t.attributes), []) else t)
  }

  /** The first `i` clones stand for the clones of `ts`. */
  ghost predicate BuildsClones(f: Forest, n: XMLNode, ts: seq<Node>, i: nat) {
    i <= |ts| && BuildsLast(f, n, 0, ClonedAll(ts)[..i])
  }

  lemma ClonesBuild(f: Forest, n: XMLNode, t: Node)
    requires n in f.kids && Parts(n.item, t) && BuildsClones(f, n, ChildrenOf(t), |ChildrenOf(t)|)
    ensures Builds(f, n, Cloned(t))
  {
    hide Builds;
    var ts := ClonedAll(ChildrenOf(t));
    assert ts[..|ChildrenOf(t)|] == ts;
    if t.Element? {
      ElementBuilds(f, n, ts);
    } else {
      LeafBuilds(f, n);
    }
  }

  /** One more clone linked: the earlier ones, and the new one, are where they were. */
  lemma OneMoreClone(f: Forest, g: Forest, h: Forest, n: XMLNode, c: XMLNode, k: nat, ts: seq<Node>, i: nat)
    requires Fits(f) && Fits(g) && c !in f.kids && Grown(Born(f, c), g, c, k)
    requires i < |ts| && BuildsClones(f, n, ts, i) && Builds(g, c, Cloned(ts[i]))
    requires n in g.kids && c in g.kids && h == Moved(g, c, n, |g.kids[n]|) && Cut(g, c) == g && !Within(g.up, c, n)
    requires Grown(f, h, n, 1)
    ensures BuildsClones(h, n, ts, i + 1)
  {
    hide Fits, Builds, Grown, Born;
    OthersStay(f, g, h, n, c, k);
    BuildsStays(g, h, c, Cloned(ts[i]));
    BuildsOneMore(f, h, n, 0, ClonedAll(ts)[..i], c, Cloned(ts[i]));
    assert ClonedAll(ts)[..i] + [Cloned(ts[i])] == ClonedAll(ts)[..i + 1];
  }

  lemma BuildsParts(f: Forest, n: XMLNode, t: Node)
    requires Builds(f, n, t)
    ensures n in f.kids && Holds(n.item, t) && |f.kids[n]| == |ChildrenOf(t)|
    ensures forall i :: 0 <= i < |f.kids[n]| ==> Builds(f, f.kids[n][i], ChildrenOf(t)[i])
  {
  }

  /** Source and target are one document, or have no node in common. */
  ghost predicate Known(source: DocumentTree, target: DocumentTree)
    reads source, target
  {
    source == target || source.forest.kids.Keys !! target.forest.kids.Keys
  }

  /** `p` is not `n`, nor below it, if it is in the same forest. */
  ghost predicate Beside(source: DocumentTree, n: XMLNode, p: XMLNode)
    reads source
  {
    p in source.forest.kids ==> p !in Subtree(source.forest, n)
  }

  /** What a node stands for is not touched by growth elsewhere. */
  lemma StaysBeside(f: Forest, g: Forest, p: XMLNode, k: nat, n: XMLNode, t: Node)
    requires Fits(f) && Grown(f, g, p, k) && Builds(f, n, t) && p !in Subtree(f, n)
    ensures Builds(g, n, t) && n in g.kids && g.kids[n] == f.kids[n] && p !in Subtree(g, n)
  {
    hide Fits, Builds;
    SameKeys(f);
    BuildsParts(f, n, t);
    assert n in Subtree(f, n);
    BuildsStays(f, g, n, t);
  }

  /** Nor by a new node. */
  lemma StaysWhenBorn(f: Forest, c: XMLNode, n: XMLNode, t: Node)
    requires Fits(f) && c !in f.kids && Builds(f, n, t)
    ensures Builds(Born(f, c), n, t) && c !in Subtree(Born(f, c), n)
  {
    hide Fits, Builds;
    SameKeys(f);
    BuildsParts(f, n, t);
    BuildsStays(f, Born(f, c), n, t);
  }

  /** DeepClone, into another document or into the node's own: the clone stands for the clone of what the node stands
      for, and belongs to the target; the target is otherwise as it was, and the source stands for what it did. */
  method DeepClone(source: DocumentTree, n: XMLNode, target: DocumentTree, ghost t: Node) returns (clone: XMLNode)
    requires source.Valid() && target.Valid() && Known(source, target)
    requires Builds(source.forest, n, t)
    modifies target, target.forest.kids.Keys
    ensures target.Valid() && fresh(target.forest.kids.Keys - old(target.forest.kids.Keys))
      && target.leaked == old(target.leaked)
    ensures clone !in old(target.forest).kids
    ensures Grown(Born(old(target.forest), clone), target.forest, clone, |ChildrenOf(t)|)
    ensures Builds(target.forest, clone, Cloned(t))
    ensures source.Valid() && Builds(source.forest, n, t)
    decreases t, 2
  {
    hide Fits, Grown, Builds, Holds, Cloned, Subtree, Born;
    hide DocumentTree.Shape, DocumentTree.Owned, DocumentTree.Counted;
    BuildsParts(source.forest, n, t);
    target.Known();
    source.Known();
    clone := ShallowClone(n, target, t);
    BornKeys(old(target.forest), clone);
    if source == target {
      StaysWhenBorn(old(target.forest), clone, n, t);
    }
    assert clone in source.forest.kids ==> source == target;
    CloneChildren(source, n, target, clone, t);
    ClonesBuild(target.forest, clone, t);
  }

  lemma BornKeys(f: Forest, n: XMLNode)
    ensures Born(f, n).kids.Keys == f.kids.Keys + {n} && Born(f, n).kids[n] == []
  {
  }

  /** The loop of DeepClone after `i` children: their clones are linked under `clone`, which is all that has happened to
      the target since it was `start`; the node still stands for `t`, its children being `cs`. */
  ghost predicate Cloning(source: DocumentTree, n: XMLNode, t: Node, cs: seq<XMLNode>, target: DocumentTree,
          clone: XMLNode, start: Forest, i: nat)
    reads source, source.forest.kids.Keys, target, target.forest.kids.Keys
  {
    && source.Valid() && target.Valid() && Known(source, target)
    && SourceIs(source, n, t, cs) && Beside(source, n, clone) && |cs| == |ChildrenOf(t)|
    && Grown(start, target.forest, clone, i) && clone in target.forest.kids
    && BuildsClones(target.forest, clone, ChildrenOf(t), i)
  }

  /** Its loop over the children of `n`. */
  method CloneChildren(source: DocumentTree, n: XMLNode, target: DocumentTree, clone: XMLNode, ghost t: Node)
    requires source.Valid() && target.Valid() && Known(source, target)
    requires Builds(source.forest, n, t) && Beside(source, n, clone)
    requires clone in target.forest.kids && target.forest.kids[clone] == []
    modifies target, target.forest.kids.Keys
    ensures target.Valid() && fresh(target.forest.kids.Keys - old(target.forest.kids.Keys))
      && target.leaked == old(target.leaked)
    ensures Grown(old(target.forest), target.forest, clone, |ChildrenOf(t)|)
    ensures BuildsClones(target.forest, clone, ChildrenOf(t), |ChildrenOf(t)|)
    ensures source.Valid() && Builds(source.forest, n, t)
    decreases t, 1
  {
    hide Grown, Builds, BuildsClones, DocumentTree.Valid, Cloning, ChildrenOf, Known, Beside, Fits, Subtree, SourceIs;
    BuildsParts(source.forest, n, t);
    ghost var start, cs := target.forest, source.forest.kids[n];
    SourceLinks(source, n);
    ghost var i: nat := 0;
    var child := n.firstChild;
    CloningBegins(target, clone, ChildrenOf(t));
    CloningIs(source, n, t, cs, target, clone, start, 0);
    while child != null
      invariant i <= |cs| == |ChildrenOf(t)| && child == At(cs, i)
      invariant Cloning(source, n, t, cs, target, clone, start, i)
      invariant fresh(target.forest.kids.Keys - start.kids.Keys) && target.leaked == old(target.leaked)
      decreases |cs| - i
    {
      child := CloneTurn(source, n, target, clone, child, t, cs, start, i);
      i := i + 1;
    }
    CloningIs(source, n, t, cs, target, clone, start, i);
  }

  lemma CloningIs(source: DocumentTree, n: XMLNode, t: Node, cs: seq<XMLNode>, target: DocumentTree, clone: XMLNode,
          start: Forest, i: nat)
    ensures Cloning(source, n, t, cs, target, clone, start, i) ==>
      && source.Valid() && target.Valid() && Builds(source.forest, n, t)
      && Grown(start, target.forest, clone, i) && BuildsClones(target.forest, clone, ChildrenOf(t), i)
    ensures
      && source.Valid() && target.Valid() && Known(source, target) && Builds(source.forest, n, t)
      && source.forest.kids[n] == cs && Beside(source, n, clone) && |cs| == |ChildrenOf(t)|
      && Grown(start, target.forest, clone, i) && clone in target.forest.kids
      && BuildsClones(target.forest, clone, ChildrenOf(t), i)
      ==> Cloning(source, n, t, cs, target, clone, start, i)
  {
    hide DocumentTree.Valid, Grown, BuildsClones;
  }

  /** One turn: a child is cloned, and its successor is the next. */
  method CloneTurn(source: DocumentTree, n: XMLNode, target: DocumentTree, clone: XMLNode, child: XMLNode,
          ghost t: Node, ghost cs: seq<XMLNode>, ghost start: Forest, ghost i: nat)
    returns (next: XMLNode?)
    requires Cloning(source, n, t, cs, target, clone, start, i) && i < |cs| && child == cs[i]
    modifies target, target.forest.kids.Keys
    ensures Cloning(source, n, t, cs, target, clone, start, i + 1) && next == At(cs, i + 1)
    ensures fresh(target.forest.kids.Keys - old(target.forest.kids.Keys)) && target.leaked == old(target.leaked)
    decreases t, 0
  {
    hide Fits, Grown, Builds, BuildsClones, Subtree, DocumentTree.Valid, Cloning, SourceIs, Beside, Known;
    ghost var was := target.forest;
    TurnBegins(source, n, t, cs, target, clone, start, i);
    CloneChild(source, child, target, clone, ChildrenOf(t), i);
    TurnEnds(source, n, t, cs, target, clone, start, was, i);
    SourceLinks(source, n);
    next := child.next;
  }

  lemma TurnBegins(source: DocumentTree, n: XMLNode, t: Node, cs: seq<XMLNode>, target: DocumentTree, clone: XMLNode,
          start: Forest, i: nat)
    requires Cloning(source, n, t, cs, target, clone, start, i) && i < |cs|
    ensures source.Valid() && target.Valid() && Known(source, target) && clone in target.forest.kids
    ensures i < |ChildrenOf(t)| && Builds(source.forest, cs[i], ChildrenOf(t)[i])
    ensures BuildsClones(target.forest, clone, ChildrenOf(t), i) && Grown(start, target.forest, clone, i)
    ensures SourceIs(source, n, t, cs) && Beside(source, n, clone) && |cs| == |ChildrenOf(t)|
    ensures source == target ==> Fits(target.forest) && BuiltApart(target.forest, n, t, cs, clone)
  {
    hide Fits, Grown, Builds, BuildsClones, Subtree, DocumentTree.Owned, DocumentTree.Counted, AllChained;
    BuildsParts(source.forest, n, t);
  }

  /** The node, as it stood before a child was cloned into the same document. */
  ghost predicate BuiltApart(f: Forest, n: XMLNode, t: Node, cs: seq<XMLNode>, p: XMLNode) {
    Builds(f, n, t) && f.kids[n] == cs && p !in Subtree(f, n)
  }

  lemma TurnEnds(source: DocumentTree, n: XMLNode, t: Node, cs: seq<XMLNode>, target: DocumentTree, clone: XMLNode,
          start: Forest, was: Forest, i: nat)
    requires source.Valid() && target.Valid() && Known(source, target) && |cs| == |ChildrenOf(t)|
    requires Grown(start, was, clone, i) && Grown(was, target.forest, clone, 1)
    requires BuildsClones(target.forest, clone, ChildrenOf(t), i + 1)
    requires source != target ==> SourceIs(source, n, t, cs) && Beside(source, n, clone)
    requires source == target ==> Fits(was) && BuiltApart(was, n, t, cs, clone)
    ensures Cloning(source, n, t, cs, target, clone, start, i + 1) && n in source.forest.kids
    ensures source.forest.kids[n] == cs
  {
    hide Fits, Grown, Builds, BuildsClones, Subtree, DocumentTree.Valid;
    if source == target {
      BuildsParts(was, n, t);
      SourceStays(source, was, n, t, cs, clone);
    }
    GrownTwice(start, was, target.forest, clone, i, 1);
    GrownKeeps(start, target.forest, clone, i + 1);
  }

  /** The node that is cloned stands for `t`, its children being `cs`. */
  ghost predicate SourceIs(source: DocumentTree, n: XMLNode, t: Node, cs: seq<XMLNode>)
    reads source
  {
    n in source.forest.kids && source.forest.kids[n] == cs && Builds(source.forest, n, t)
  }

  lemma SourceStays(source: DocumentTree, was: Forest, n: XMLNode, t: Node, cs: seq<XMLNode>, p: XMLNode)
    requires Fits(was) && Grown(was, source.forest, p, 1) && Builds(was, n, t)
    requires n in was.kids && was.kids[n] == cs && p !in Subtree(was, n)
    ensures SourceIs(source, n, t, cs) && Beside(source, n, p)
  {
    StaysBeside(was, source.forest, p, 1, n, t);
  }

  lemma SourceLinks(source: DocumentTree, n: XMLNode)
    requires source.Valid() && n in source.forest.kids
    ensures var cs := source.forest.kids[n];
      && n.firstChild == At(cs, 0)
      && (forall i :: 0 <= i < |cs| ==> cs[i] in source.forest.kids && cs[i].next == At(cs, i + 1))
  {
    source.ListLinks(n);
  }

  lemma CloningBegins(target: DocumentTree, clone: XMLNode, ts: seq<Node>)
    requires target.Valid() && clone in target.forest.kids && target.forest.kids[clone] == []
    ensures Grown(target.forest, target.forest, clone, 0) && BuildsClones(target.forest, clone, ts, 0)
  {
    GrownFromValid(target, clone);
  }

  /** One turn: clone a child and link the clone last. */
  method CloneChild(source: DocumentTree, child: XMLNode, target: DocumentTree, clone: XMLNode, ghost ts: seq<Node>,
          ghost i: nat)
    requires source.Valid() && target.Valid() && Known(source, target)
    requires i < |ts| && Builds(source.forest, child, ts[i]) && BuildsClones(target.forest, clone, ts, i)
    requires clone in target.forest.kids
    modifies target, target.forest.kids.Keys
    ensures target.Valid() && fresh(target.forest.kids.Keys - old(target.forest.kids.Keys))
      && target.leaked == old(target.leaked)
    ensures Grown(old(target.forest), target.forest, clone, 1) && BuildsClones(target.forest, clone, ts, i + 1)
    ensures source.Valid() && Known(source, target) && (source != target ==> source.forest == old(source.forest))
    decreases ts[i], 3
  {
    hide Fits, Grown, Builds, BuildsClones, Born, Cut, Moved, Within;
    hide DocumentTree.Shape, DocumentTree.Owned, DocumentTree.Counted;
    ghost var f := target.forest;
    target.Known();
    var childClone := DeepClone(source, child, target, ts[i]);
    ghost var g, k := target.forest, |ChildrenOf(ts[i])|;
    target.Known();
    GrownAndLinked(f, g, childClone, k, clone);
    MovedKeys(g, childClone, clone, |g.kids[clone]|);
    var r := target.InsertEndChild(clone, childClone);
    OneMoreClone(f, g, target.forest, clone, childClone, k, ts, i);
  }

  lemma MovedKeys(f: Forest, n: XMLNode, p: XMLNode, k: nat)
    requires Fits(f) && n in f.kids && p in f.kids && Cut(f, n) == f && k <= |f.kids[p]|
    ensures Moved(f, n, p, k).kids.Keys == f.kids.Keys
  {
  }

  // ---------- DeepCopy ----------

  lemma ClonesBuildDocument(doc: DocumentTree, ts: seq<Node>)
    requires BuildsClones(doc.forest, doc.root, ts, |ts|)
    ensures BuildsDocument(doc, ClonedAll(ts))
  {
    assert ClonedAll(ts)[..|ts|] == ClonedAll(ts);
  }

  /** Growth below one node leaves the other trees alone. */
  lemma GrownOrphans(f: Forest, g: Forest, p: XMLNode, n: nat, root: XMLNode)
    requires Fits(g) && Grown(f, g, p, n)
    ensures Parentless(g, root) == Parentless(f, root)
  {
    hide ListFits;
  }

  /** DeepCopy: the target is cleared and then holds a clone of every child of the source, and nothing else. */
  method DeepCopy(source: DocumentTree, target: DocumentTree, ghost ts: seq<Node>)
    requires source.Valid() && target.Valid() && BuildsDocument(source, ts)
    requires source == target || source.forest.kids.Keys !! target.forest.kids.Keys
    modifies target, target.forest.kids.Keys
    ensures target.Valid() && (source != target ==> BuildsDocument(target, ClonedAll(ts)) && target.unlinked == [])
    ensures source.forest == old(source.forest) && source.Valid() && BuildsDocument(source, ts)
  {
    hide Fits, Parentless, Alone, Builds;
    hide DocumentTree.Shape, DocumentTree.Owned, DocumentTree.Counted;
    if source == target {
      return;
    }
    target.Known();
    target.Clear();
    AloneIsEmpty(target);
    assert target.forest.kids.Keys <= {target.root} by { AloneKeys(target.root); }
    CopyChildren(source, target, ts);
    NothingUnlinked(target);
  }

  /** The loop of DeepCopy after `i` children. */
  ghost predicate Copying(source: DocumentTree, target: DocumentTree, ts: seq<Node>, cs: seq<XMLNode>, start: Forest,
          i: nat)
    reads source, source.forest.kids.Keys, target, target.forest.kids.Keys
  {
    && source.Valid() && target.Valid() && source != target && Known(source, target)
    && BuildsDocument(source, ts) && source.forest.kids[source.root] == cs && |cs| == |ts|
    && Grown(start, target.forest, target.root, i) && target.root in target.forest.kids
    && BuildsClones(target.forest, target.root, ts, i)
  }

  /** Its loop. */
  method CopyChildren(source: DocumentTree, target: DocumentTree, ghost ts: seq<Node>)
    requires source.Valid() && target.Valid() && source != target && Known(source, target)
    requires BuildsDocument(source, ts) && target.forest.kids[target.root] == []
    modifies target, target.forest.kids.Keys
    ensures target.Valid() && BuildsDocument(target, ClonedAll(ts))
    ensures Parentless(target.forest, target.root) == old(Parentless(target.forest, target.root))
  {
    hide Fits, Grown, Builds, BuildsClones, Parentless, DocumentTree.Valid, Copying;
    ghost var start, cs := target.forest, source.forest.kids[source.root];
    SourceLinks(source, source.root);
    ghost var i: nat := 0;
    var child := source.root.firstChild;
    CopyingBegins(source, target, ts, cs);
    while child != null
      invariant i <= |cs| == |ts| && child == At(cs, i)
      invariant Copying(source, target, ts, cs, start, i)
      invariant fresh(target.forest.kids.Keys - start.kids.Keys)
      decreases |cs| - i
    {
      child := CopyTurn(source, target, child, ts, cs, start, i);
      i := i + 1;
    }
    CopyingEnds(source, target, ts, cs, start, i);
  }

  lemma CopyingBegins(source: DocumentTree, target: DocumentTree, ts: seq<Node>, cs: seq<XMLNode>)
    requires source.Valid() && target.Valid() && source != target && Known(source, target)
    requires BuildsDocument(source, ts) && source.forest.kids[source.root] == cs
    requires target.forest.kids[target.root] == []
    ensures Copying(source, target, ts, cs, target.forest, 0)
  {
    hide DocumentTree.Owned, DocumentTree.Counted, DocumentTree.Shape, Grown, BuildsClones, Fits;
    target.Known();
    CloningBegins(target, target.root, ts);
  }

  lemma CopyingEnds(source: DocumentTree, target: DocumentTree, ts: seq<Node>, cs: seq<XMLNode>, start: Forest, i: nat)
    requires Copying(source, target, ts, cs, start, i) && i == |cs|
    ensures target.Valid() && BuildsDocument(target, ClonedAll(ts))
    ensures Parentless(target.forest, target.root) == Parentless(start, target.root)
  {
    hide Grown, BuildsClones, Parentless, Fits, BuildsDocument, DocumentTree.Owned, DocumentTree.Counted;
    target.Known();
    ClonesBuildDocument(target, ts);
    GrownOrphans(start, target.forest, target.root, i, target.root);
  }

  /** One turn. */
  method CopyTurn(source: DocumentTree, target: DocumentTree, child: XMLNode, ghost ts: seq<Node>,
          ghost cs: seq<XMLNode>, ghost start: Forest, ghost i: nat)
    returns (next: XMLNode?)
    requires Copying(source, target, ts, cs, start, i) && i < |cs| && child == cs[i]
    modifies target, target.forest.kids.Keys
    ensures Copying(source, target, ts, cs, start, i + 1) && next == At(cs, i + 1)
    ensures fresh(target.forest.kids.Keys - old(target.forest.kids.Keys))
  {
    hide Fits, Grown, Builds, BuildsClones, DocumentTree.Valid;
    ghost var was := target.forest;
    CloneChild(source, child, target, target.root, ts, i);
    GrownTwice(start, was, target.forest, target.root, i, 1);
    GrownKeeps(start, target.forest, target.root, i + 1);
    SourceLinks(source, source.root);
    next := child.next;
  }

  /** The copy of a document stands for the same trees exactly when no element repeats an attribute name. */
  lemma CopyIsEqualExactlyWhen(ts: seq<Node>)
    ensures ClonedAll(ts) == ts <==> forall i :: 0 <= i < |ts| ==> Regular(ts[i])
  {
    forall i | 0 <= i < |ts|
      ensures Cloned(ts[i]) == ts[i] <==> Regular(ts[i])
    {
      ClonedExactlyWhen(ts[i]);
    }
    assert ClonedAll(ts) == ts <==> forall i :: 0 <= i < |ts| ==> Cloned(ts[i]) == ts[i];
  }
}
