/** The trees that linked nodes stand for (drivers/Mach3/tinyxml2.cpp:742-935). */
module DomTrees {
  import opened SiblingLists
  import opened XmlDom
  import opened XmlTree

  predicate Holds(item: Item, t: Node) {
    match item
    case DocumentItem => false
    case ElementItem(name, attributes) => t.Element? && t.name == name && t.attributes == attributes
    case LeafItem(leaf) => t == leaf && !leaf.Element?
  }

  function ChildrenOf(t: Node): seq<Node> {
    if t.Element? then t.children else []
  }

  /** The node `n` and what is below it stand for the tree `t`. */
  ghost predicate Builds(f: Forest, n: XMLNode, t: Node)
    decreases t
  {
    && n in f.kids && Holds(n.item, t) && |f.kids[n]| == |ChildrenOf(t)|
    && forall i :: 0 <= i < |f.kids[n]| ==> Builds(f, f.kids[n][i], ChildrenOf(t)[i])
  }

  /** A tree depends only on the child lists inside it. */
  lemma {:induction false} BuildsStays(f: Forest, g: Forest, n: XMLNode, t: Node)
    requires Fits(f) && Builds(f, n, t)
    requires forall m :: m in Subtree(f, n) ==> m in g.kids && g.kids[m] == f.kids[m]
    ensures Builds(g, n, t)
    decreases t
  {
    hide ListFits;
    SameKeys(f);
    assert n in Subtree(f, n);
    forall i | 0 <= i < |f.kids[n]|
      ensures Builds(g, f.kids[n][i], ChildrenOf(t)[i])
    {
      var c := f.kids[n][i];
      ChildInside(f, n, c);
      BuildsStays(f, g, c, ChildrenOf(t)[i]);
    }
  }

  lemma ChildInside(f: Forest, n: XMLNode, c: XMLNode)
    requires Fits(f) && n in f.kids && c in f.kids[n]
    ensures c in f.kids && f.parents[c] == n && Subtree(f, c) <= Subtree(f, n) && n !in Subtree(f, c)
  {
    hide ListFits;
    SameKeys(f);
    ParentOf(f, n, c);
    assert n in f.up[c];
    forall m | m in Subtree(f, c) && m != c
      ensures m in Subtree(f, n) && m != n
    {
      UpIsTransitive(f.up, f.parents, m, c);
    }
  }

  lemma ParentOf(f: Forest, n: XMLNode, c: XMLNode)
    requires Fits(f) && n in f.kids && c in f.kids[n]
    ensures c in f.parents && f.parents[c] == n
  {
    assert ListFits(f, n);
  }

  /** Every node below `n` can have the children it has. */
  ghost predicate Furnished(f: Forest, n: XMLNode) {
    forall m :: m in Subtree(f, n) && m in f.kids ==>
      m.item.ElementItem? || (m.item.LeafItem? && !m.item.leaf.Element? && f.kids[m] == [])
  }

  /** Such a node stands for a tree. */
  lemma {:induction false} StandsForATree(f: Forest, n: XMLNode) returns (t: Node)
    requires Fits(f) && n in f.kids && Furnished(f, n)
    ensures Builds(f, n, t)
    decreases |Subtree(f, n)|, |f.kids[n]| + 1
  {
    hide Fits, Builds;
    SameKeys(f);
    assert n in Subtree(f, n);
    if n.item.LeafItem? {
      t := n.item.leaf;
      LeafBuilds(f, n);
    } else {
      var ts := StandForTrees(f, n, |f.kids[n]|);
      t := Element(n.item.name, n.item.attributes, ts);
      ElementBuilds(f, n, ts);
    }
  }

  lemma LeafBuilds(f: Forest, n: XMLNode)
    requires n in f.kids && n.item.LeafItem? && !n.item.leaf.Element? && f.kids[n] == []
    ensures Builds(f, n, n.item.leaf)
  {
  }

  lemma ElementBuilds(f: Forest, n: XMLNode, ts: seq<Node>)
    requires n in f.kids && n.item.ElementItem? && |ts| == |f.kids[n]|
    requires forall j :: 0 <= j < |ts| ==> Builds(f, f.kids[n][j], ts[j])
    ensures Builds(f, n, Element(n.item.name, n.item.attributes, ts))
  {
  }

  lemma {:induction false} StandForTrees(f: Forest, n: XMLNode, i: nat) returns (ts: seq<Node>)
    requires Fits(f) && n in f.kids && Furnished(f, n) && i <= |f.kids[n]|
    ensures |ts| == i && forall j :: 0 <= j < i ==> Builds(f, f.kids[n][j], ts[j])
    decreases |Subtree(f, n)|, i
  {
    hide Fits, Builds;
    ts := [];
    if i > 0 {
      ts := StandForTrees(f, n, i - 1);
      var c := f.kids[n][i - 1];
      ChildInside(f, n, c);
      SmallerSubtree(f, n, c);
      var t := StandsForATree(f, c);
      ts := ts + [t];
    }
  }

  lemma SmallerSubtree(f: Forest, n: XMLNode, c: XMLNode)
    requires Fits(f) && n in f.kids && Subtree(f, c) <= Subtree(f, n) && n !in Subtree(f, c)
    ensures |Subtree(f, c)| < |Subtree(f, n)|
  {
    SameKeys(f);
    SubsetIsSmaller(Subtree(f, c) + {n}, Subtree(f, n));
  }

  /** From position `start` on, the children of `n` stand for `ts`, and there are no more. */
  ghost predicate BuildsLast(f: Forest, n: XMLNode, start: nat, ts: seq<Node>) {
    && n in f.kids && |f.kids[n]| == start + |ts|
    && forall j :: 0 <= j < |ts| ==> Builds(f, f.kids[n][start + j], ts[j])
  }

  /** A tree under `n` stays when only the list of `n` itself has changed. */
  lemma BuildsUnder(f: Forest, g: Forest, n: XMLNode, c: XMLNode, t: Node)
    requires Fits(f) && n in f.kids && c in f.kids[n] && Builds(f, c, t)
    requires forall m :: m in f.kids && m != n ==> m in g.kids && g.kids[m] == f.kids[m]
    ensures Builds(g, c, t)
  {
    hide Fits, Builds;
    SameKeys(f);
    ChildInside(f, n, c);
    BuildsStays(f, g, c, t);
  }

  /** One more child at the end of the list. */
  lemma BuildsOneMore(f: Forest, g: Forest, n: XMLNode, start: nat, ts: seq<Node>, c: XMLNode, t: Node)
    requires Fits(f) && BuildsLast(f, n, start, ts) && Builds(g, c, t)
    requires n in g.kids && g.kids[n] == f.kids[n] + [c]
    requires forall m :: m in f.kids && m != n ==> m in g.kids && g.kids[m] == f.kids[m]
    ensures BuildsLast(g, n, start, ts + [t])
  {
    hide Fits, Builds;
    forall j | 0 <= j < |ts + [t]|
      ensures Builds(g, g.kids[n][start + j], (ts + [t])[j])
    {
      if j < |ts| {
        assert g.kids[n][start + j] == f.kids[n][start + j];
        BuildsUnder(f, g, n, f.kids[n][start + j], ts[j]);
      } else {
        assert g.kids[n][start + j] == c;
      }
    }
  }

  /** The document's children stand for `ts`. */
  ghost predicate BuildsDocument(doc: DocumentTree, ts: seq<Node>)
    reads doc
  {
    BuildsLast(doc.forest, doc.root, 0, ts)
  }

  lemma AloneIsEmpty(doc: DocumentTree)
    requires doc.Valid() && doc.forest == Alone(doc.root)
    ensures doc.root in doc.forest.kids && doc.forest.kids[doc.root] == [] && Parentless(doc.forest, doc.root) == {}
  {
    hide Fits;
  }

  lemma SomethingListed(s: seq<XMLNode>, nodes: set<XMLNode>)
    requires Lists(s, nodes) && s != []
    ensures nodes != {}
  {
    assert s[0] in s;
  }

  lemma NothingUnlinked(doc: DocumentTree)
    requires doc.Valid() && Parentless(doc.forest, doc.root) == {}
    ensures doc.unlinked == []
  {
    hide Fits, Lists, DocumentTree.Shape;
    if doc.unlinked != [] {
      SomethingListed(doc.unlinked, Parentless(doc.forest, doc.root) - {});
    }
  }

  lemma AloneKeys(root: XMLNode)
    ensures Alone(root).kids.Keys == {root}
  {
  }
}
