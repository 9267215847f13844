/** What a parse does with the nodes it makes (drivers/Mach3/tinyxml2.cpp:988-1100): each is linked under its parent or
    freed, whatever the input and however the parse ends. */
module NodeAccounting {
  import opened DomTrees
  import opened PoolCounters
  import opened SiblingLists
  import opened XmlDom
  import opened XmlTree

  /** What becomes of a node: linked; a closing tag's, tracked and deleted; or deleted because of an error. */
  datatype Fate = Kept | Closing | Failed

  /** One turn of the loop of XMLNode::ParseDeep: a node is made, the children of an element are parsed, and its fate is
      decided. `head` is what the node holds besides its children. */
  datatype Turn = Turn(head: Node, children: seq<Turn>, fate: Fate)

  /** The nodes discarded without having been marked tracked, by the pools they came from. */
  function Leaks(turns: seq<Turn>): multiset<Pool>
    decreases turns, 1
  {
    if turns == [] then multiset{}
    else TurnLeaks(turns[0]) + if turns[0].fate.Kept? then Leaks(turns[1..]) else multiset{}
  }

  function TurnLeaks(t: Turn): multiset<Pool>
    decreases t, 1
  {
    InnerLeaks(t) + if t.fate.Failed? then multiset{LeafPool(t.head)} else multiset{}
  }

  /** Those inside the node. */
  function InnerLeaks(t: Turn): multiset<Pool>
    decreases t, 0
  {
    if t.head.Element? then Leaks(t.children) else multiset{}
  }

  /** The trees a list of turns links: the loop stops at the first node that is not kept. */
  function Trees(turns: seq<Turn>): seq<Node>
    decreases turns, 1
  {
    if turns == [] || !turns[0].fate.Kept? then [] else [TurnTree(turns[0])] + Trees(turns[1..])
  }

  function TurnTree(t: Turn): Node
    decreases t, 0
  {
    if t.head.Element? then Element(t.head.name, t.head.attributes, Trees(t.children)) else t.head
  }

  function ItemOf(head: Node): Item {
    if head.Element? then ElementItem(head.name, head.attributes) else LeafItem(head)
  }

  /** `g` is `f` with more nodes, all of them below `p`, whose list has `n` more children at its end. */
  ghost predicate Grown(f: Forest, g: Forest, p: XMLNode, n: nat) {
    && f.kids.Keys == f.parents.Keys == f.up.Keys && g.kids.Keys == g.parents.Keys == g.up.Keys
    && f.kids.Keys <= g.kids.Keys && p in f.kids
    && (forall m :: m in f.kids ==> g.parents[m] == f.parents[m] && g.up[m] == f.up[m])
    && (forall m :: m in f.kids && m != p ==> g.kids[m] == f.kids[m])
    && f.kids[p] <= g.kids[p] && |g.kids[p]| == |f.kids[p]| + n
    && (forall m :: m in g.kids && m !in f.kids ==> p in g.up[m])
  }

  lemma GrownNot(f: Forest, p: XMLNode)
    requires Fits(f) && p in f.kids
    ensures Grown(f, f, p, 0)
  {
    SameKeys(f);
  }

  lemma GrownTwice(f: Forest, g: Forest, h: Forest, p: XMLNode, n: nat, k: nat)
    requires Grown(f, g, p, n) && Grown(g, h, p, k)
    ensures Grown(f, h, p, n + k)
  {
  }

  lemma GrownOutside(f: Forest, g: Forest, n: XMLNode, k: nat, p: XMLNode)
    requires Fits(f) && Fits(g) && n !in f.kids && p in f.kids && Grown(Born(f, n), g, n, k)
    ensures n in g.kids && p in g.kids && !Within(g.up, n, p) && g.parents[n] == null && Cut(g, n) == g
  {
    hide Fits;
    SameKeys(f);
    SameKeys(g);
    NotAbove(f, n);
  }

  /** A new node, grown, and then linked under `p`. */
  lemma GrownAndLinked(f: Forest, g: Forest, n: XMLNode, k: nat, p: XMLNode)
    requires Fits(f) && Fits(g) && n !in f.kids && p in f.kids && Grown(Born(f, n), g, n, k)
    ensures n in g.kids && p in g.kids && !Within(g.up, n, p) && g.parents[n] == null
    ensures Cut(g, n) == g && Grown(f, Moved(g, n, p, |g.kids[p]|), p, 1)
  {
    hide Fits, Cut;
    SameKeys(f);
    SameKeys(g);
    GrownOutside(f, g, n, k, p);
    GrownLists(f, g, n, k, p);
    GrownUps(f, g, n, k, p);
  }

  lemma GrownLists(f: Forest, g: Forest, n: XMLNode, k: nat, p: XMLNode)
    requires Fits(f) && Fits(g) && n !in f.kids && p in f.kids && Grown(Born(f, n), g, n, k)
    requires n in g.kids && p in g.kids && Cut(g, n) == g
    ensures var h := Moved(g, n, p, |g.kids[p]|);
      && h.kids.Keys == g.kids.Keys && h.parents.Keys == g.kids.Keys
      && h.kids[p] == f.kids[p] + [n]
      && (forall m :: m in f.kids ==>
            m in h.kids && h.parents[m] == f.parents[m] && (m != p ==> h.kids[m] == f.kids[m]))
  {
    hide Fits, Cut, Attached, Grown, Inserted;
    SameKeys(f);
    SameKeys(g);
    GrownAt(f, g, n, k, p);
    EndOfList(g.kids[p], n);
    forall m | m in f.kids
      ensures m in g.kids && m != n && g.parents[m] == f.parents[m] && (m != p ==> g.kids[m] == f.kids[m])
    {
      GrownAt(f, g, n, k, m);
    }
  }

  /** A node that was there before. */
  lemma GrownAt(f: Forest, g: Forest, n: XMLNode, k: nat, m: XMLNode)
    requires n !in f.kids && m in f.kids && m in f.parents && Grown(Born(f, n), g, n, k)
    ensures m in g.kids && m in g.parents && m != n && g.parents[m] == f.parents[m] && g.kids[m] == f.kids[m]
  {
    assert m in Born(f, n).kids;
  }

  lemma EndOfList(cs: seq<XMLNode>, n: XMLNode)
    ensures Inserted(cs, |cs|, n) == cs + [n]
  {
  }

  lemma GrownUps(f: Forest, g: Forest, n: XMLNode, k: nat, p: XMLNode)
    requires Fits(f) && Fits(g) && n !in f.kids && p in f.kids && Grown(Born(f, n), g, n, k)
    requires n in g.kids && p in g.kids && Cut(g, n) == g
    ensures var h := Moved(g, n, p, |g.kids[p]|);
      && h.up.Keys == g.kids.Keys
      && (forall m :: m in f.kids ==> m in h.up && h.up[m] == f.up[m])
      && (forall m :: m in h.up && m !in f.kids ==> p in h.up[m])
  {
    hide Fits, Cut, Inserted, Attached, Grown;
    SameKeys(f);
    SameKeys(g);
    GrownKeeps(Born(f, n), g, n, k);
    AttachedKeys(g.up, n, p);
    forall m | m in g.up
      ensures m in f.kids ==> Attached(g.up, n, p)[m] == f.up[m]
      ensures m !in f.kids ==> p in Attached(g.up, n, p)[m]
    {
      GrownUp(f, g, n, k, p, m);
    }
  }

  lemma AttachedKeys(up: Ups, n: XMLNode, p: XMLNode)
    requires p in up
    ensures Attached(up, n, p).Keys == up.Keys
  {
  }

  lemma GrownUp(f: Forest, g: Forest, n: XMLNode, k: nat, p: XMLNode, m: XMLNode)
    requires Fits(f) && n !in f.kids && p in f.kids && Grown(Born(f, n), g, n, k) && p in g.up && m in g.up
    ensures m in f.kids ==> Attached(g.up, n, p)[m] == f.up[m]
    ensures m !in f.kids ==> p in Attached(g.up, n, p)[m]
  {
    hide Fits;
    SameKeys(f);
    NotAbove(f, n);
    if m in f.kids {
      assert m in Born(f, n).kids;
    } else {
      assert m == n || m !in Born(f, n).kids;
    }
  }

  lemma OthersStay(f: Forest, g: Forest, h: Forest, n: XMLNode, c: XMLNode, k: nat)
    requires Fits(f) && Fits(g) && c !in f.kids && Grown(Born(f, c), g, c, k)
    requires n in f.kids && n in g.kids && c in g.kids && h == Moved(g, c, n, |g.kids[n]|) && Cut(g, c) == g
    requires !Within(g.up, c, n) && Grown(f, h, n, 1)
    ensures h.kids[n] == f.kids[n] + [c] && n !in Subtree(g, c)
    ensures forall m :: m in f.kids && m != n ==> m in h.kids && h.kids[m] == f.kids[m]
    ensures forall m :: m in g.kids && m != n ==> m in h.kids && h.kids[m] == g.kids[m]
    ensures forall m :: m in Subtree(f, n) ==> m in f.kids
    ensures forall m :: m in Subtree(g, c) ==> m in g.kids
  {
    hide Fits;
    SameKeys(f);
    SameKeys(g);
    assert n in Born(f, c).kids && n != c;
  }

  lemma MovedOrphans(f: Forest, n: XMLNode, p: XMLNode, k: nat, root: XMLNode)
    requires Fits(f) && n in f.kids && p in f.kids && n != root && f.parents[n] == null && k <= |f.kids[p]|
    ensures Cut(f, n) == f && Parentless(Moved(f, n, p, k), root) == Parentless(f, root) - {n}
    ensures Moved(f, n, p, k).kids.Keys == f.kids.Keys
  {
    hide Fits, Inserted, Attached;
    SameKeys(f);
  }

  /** A node that is not there is nobody's ancestor. */
  lemma NotAbove(f: Forest, n: XMLNode)
    requires Fits(f) && n !in f.kids
    ensures forall m :: m in f.up ==> n !in f.up[m]
  {
    hide ListFits;
    SameKeys(f);
    forall m | m in f.up
      ensures n !in f.up[m]
    {
      if n in f.up[m] {
        UpIsTransitive(f.up, f.parents, m, n);
      }
    }
  }

  lemma OnlyTheOldRemain(f: Forest, g: Forest, n: XMLNode, k: nat)
    requires Fits(f) && n !in f.kids && Grown(Born(f, n), g, n, k)
    ensures g.kids.Keys - Subtree(g, n) == f.kids.Keys
  {
    hide Fits;
    SameKeys(f);
    NotAbove(f, n);
    forall m | m in f.kids
      ensures m in g.kids && m !in Subtree(g, n)
    {
      assert m in Born(f, n).kids;
    }
    forall m | m in g.kids && m !in f.kids
      ensures m in Subtree(g, n)
    {
      assert m == n || m !in Born(f, n).kids;
    }
  }

  lemma OldAreAsBefore(f: Forest, g: Forest, n: XMLNode, k: nat, h: Forest)
    requires Fits(f) && n !in f.kids && Grown(Born(f, n), g, n, k) && Removed(g, h, n)
    requires g.kids.Keys - Subtree(g, n) == f.kids.Keys
    ensures h.kids.Keys == h.parents.Keys == h.up.Keys == f.kids.Keys
    ensures forall m :: m in f.kids ==> h.parents[m] == f.parents[m] && h.up[m] == f.up[m] && h.kids[m] == f.kids[m]
  {
    hide Fits, Subtree;
    SameKeys(f);
    forall m | m in f.kids
      ensures h.parents[m] == f.parents[m] && h.up[m] == f.up[m] && h.kids[m] == f.kids[m]
    {
      assert m in Born(f, n).kids;
    }
  }

  /** A new node, grown, and then removed with all that is below it. */
  lemma GrownAndRemoved(f: Forest, g: Forest, n: XMLNode, k: nat, h: Forest)
    requires Fits(f) && n !in f.kids && Grown(Born(f, n), g, n, k) && Removed(g, h, n)
    ensures h == f
  {
    hide Fits, Subtree, Grown, Removed, Born;
    SameKeys(f);
    OnlyTheOldRemain(f, g, n, k);
    OldAreAsBefore(f, g, n, k, h);
    assert h.kids == f.kids && h.parents == f.parents && h.up == f.up;
  }

  /** XMLNode::ParseDeep, as far as nodes are concerned: those kept are linked and stand for the trees of the turns, and
      none of the others is left outside the tree. */
  method ParseChildren(doc: DocumentTree, self: XMLNode, turns: seq<Turn>)
    requires doc.Valid() && self in doc.forest.kids
    modifies doc, doc.forest.kids.Keys
    ensures doc.Valid() && Grown(old(doc.forest), doc.forest, self, |Trees(turns)|)
    ensures BuildsLast(doc.forest, self, |old(doc.forest.kids[self])|, Trees(turns))
    ensures Parentless(doc.forest, doc.root) == old(Parentless(doc.forest, doc.root))
    ensures doc.leaked == old(doc.leaked) + Leaks(turns)
    ensures fresh(doc.forest.kids.Keys - old(doc.forest.kids.Keys))
    decreases turns, 1
  {
    hide Fits, Grown, Parentless, Trees, Leaks, TurnLeaks, TurnTree, BuildsLast, DocumentTree.Valid;
    var i := 0;
    ghost var built, start := [], |doc.forest.kids[self]|;
    GrownFromValid(doc, self);
    CountsBegin(turns);
    while i < |turns|
      invariant i <= |turns| && built + Trees(turns[i..]) == Trees(turns)
      invariant doc.Valid() && Grown(old(doc.forest), doc.forest, self, |built|)
      invariant BuildsLast(doc.forest, self, start, built)
      invariant Parentless(doc.forest, doc.root) == old(Parentless(doc.forest, doc.root))
      invariant doc.leaked + Leaks(turns[i..]) == old(doc.leaked) + Leaks(turns)
      invariant fresh(doc.forest.kids.Keys - old(doc.forest.kids.Keys))
    {
      ghost var was := doc.forest;
      CountsStep(turns, i);
      GrownKeeps(old(doc.forest), was, self, |built|);
      ParseTurn(doc, self, turns[i], start, built);
      GrownTwice(old(doc.forest), was, doc.forest, self, |built|, if turns[i].fate.Kept? then 1 else 0);
      if !turns[i].fate.Kept? {
        assert built + [] == built;
        return;
      }
      Append1(built, TurnTree(turns[i]), Trees(turns[i + 1..]));
      built := built + [TurnTree(turns[i])];
      i := i + 1;
    }
    CountsBegin([]);
    assert turns[i..] == [] && built + [] == built;
  }

  lemma Append1(a: seq<Node>, b: Node, c: seq<Node>)
    ensures a + ([b] + c) == a + [b] + c
  {
  }

  lemma GrownFromValid(doc: DocumentTree, p: XMLNode)
    requires doc.Valid() && p in doc.forest.kids
    ensures Grown(doc.forest, doc.forest, p, 0) && BuildsLast(doc.forest, p, |doc.forest.kids[p]|, [])
  {
    GrownNot(doc.forest, p);
  }

  lemma GrownKeeps(f: Forest, g: Forest, p: XMLNode, n: nat)
    requires Grown(f, g, p, n)
    ensures p in g.kids && f.kids.Keys <= g.kids.Keys
  {
  }

  lemma CountsBegin(turns: seq<Turn>)
    ensures turns[0..] == turns && Trees([]) == [] && Leaks([]) == multiset{} && [] + Trees(turns) == Trees(turns)
  {
  }

  lemma CountsStep(turns: seq<Turn>, i: nat)
    requires i < |turns|
    ensures Trees(turns[i..]) == if turns[i].fate.Kept? then [TurnTree(turns[i])] + Trees(turns[i + 1..]) else []
    ensures Leaks(turns[i..])
         == TurnLeaks(turns[i]) + if turns[i].fate.Kept? then Leaks(turns[i + 1..]) else multiset{}
  {
    assert turns[i..][1..] == turns[i + 1..];
  }

  /** One turn: the node is in the list of unlinked nodes until its fate is decided. */
  method ParseTurn(doc: DocumentTree, self: XMLNode, t: Turn, ghost start: nat, ghost built: seq<Node>)
    requires doc.Valid() && self in doc.forest.kids && BuildsLast(doc.forest, self, start, built)
    modifies doc, doc.forest.kids.Keys
    ensures doc.Valid() && Grown(old(doc.forest), doc.forest, self, if t.fate.Kept? then 1 else 0)
    ensures BuildsLast(doc.forest, self, start, if t.fate.Kept? then built + [TurnTree(t)] else built)
    ensures Parentless(doc.forest, doc.root) == old(Parentless(doc.forest, doc.root))
    ensures doc.leaked == old(doc.leaked) + TurnLeaks(t)
    ensures fresh(doc.forest.kids.Keys - old(doc.forest.kids.Keys))
    decreases t, 1
  {
    hide Fits, Grown, Parentless, Trees, Leaks, TurnTree, Removed, Cut, Born, Within, Moved, BuildsLast, Builds;
    hide DocumentTree.Shape, DocumentTree.Owned, DocumentTree.Counted;
    ghost var was := doc.forest;
    doc.Known();
    var node := MakeNode(doc, t);
    ghost var grown, k := doc.forest, |ChildrenOf(TurnTree(t))|;
    doc.Known();
    BornOrphans(was, node, doc.root);
    GrownAndLinked(was, grown, node, k, self);
    ghost var orphans := Parentless(was, doc.root);
    assert orphans + {node} - {node} == orphans;
    if t.fate.Kept? {
      MovedOrphans(grown, node, self, |grown.kids[self]|, doc.root);
      var r := doc.InsertEndChild(self, node);
      LinkedBuilds(was, grown, doc.forest, self, node, k, start, built, TurnTree(t));
    } else {
      Discard(doc, node, t.fate.Closing?);
      GrownAndRemoved(was, grown, node, k, doc.forest);
      GrownNot(was, self);
    }
  }

  /** The node of a turn, with the children parsed inside it; it has no parent yet. */
  method MakeNode(doc: DocumentTree, t: Turn) returns (node: XMLNode)
    requires doc.Valid()
    modifies doc, doc.forest.kids.Keys
    ensures doc.Valid() && node !in old(doc.forest).kids
    ensures Grown(Born(old(doc.forest), node), doc.forest, node, |ChildrenOf(TurnTree(t))|)
    ensures Builds(doc.forest, node, TurnTree(t))
    ensures Parentless(doc.forest, doc.root) == Parentless(Born(old(doc.forest), node), doc.root)
    ensures doc.leaked == old(doc.leaked) + InnerLeaks(t) && node.item == ItemOf(t.head)
    ensures fresh(doc.forest.kids.Keys - old(doc.forest.kids.Keys)) && node.document == doc.id && node != doc.root
    decreases t, 0
  {
    hide Fits, Grown, Parentless, Trees, Leaks, Builds, DocumentTree.Shape, DocumentTree.Owned, DocumentTree.Counted;
    doc.Known();
    node := doc.CreateUnlinkedNode(ItemOf(t.head));
    BornOrphans(old(doc.forest), node, doc.root);
    if t.head.Element? {
      ParseChildren(doc, node, t.children);
      ListBuilds(doc.forest, node, Trees(t.children));
    } else {
      GrownFromValid(doc, node);
      LeafBuilds(doc.forest, node);
    }
  }

  lemma ListBuilds(f: Forest, n: XMLNode, ts: seq<Node>)
    requires n.item.ElementItem? && BuildsLast(f, n, 0, ts)
    ensures Builds(f, n, Element(n.item.name, n.item.attributes, ts))
  {
    hide Builds;
    ElementBuilds(f, n, ts);
  }

  /** Linking a built node keeps it and the earlier children as they stand. */
  lemma LinkedBuilds(f: Forest, g: Forest, h: Forest, n: XMLNode, c: XMLNode, k: nat, start: nat, built: seq<Node>,
          t: Node)
    requires Fits(f) && Fits(g) && c !in f.kids && Grown(Born(f, c), g, c, k)
    requires n in f.kids && n in g.kids && c in g.kids && h == Moved(g, c, n, |g.kids[n]|) && Cut(g, c) == g
    requires !Within(g.up, c, n) && Grown(f, h, n, 1)
    requires BuildsLast(f, n, start, built) && Builds(g, c, t)
    ensures BuildsLast(h, n, start, built + [t])
  {
    hide Fits, Builds, Grown, Born, BuildsLast;
    OthersStay(f, g, h, n, c, k);
    BuildsStays(g, h, c, t);
    BuildsOneMore(f, h, n, start, built, c, t);
  }

  /** A node that is not kept: tracked first if it was a closing tag. */
  method Discard(doc: DocumentTree, node: XMLNode, tracked: bool)
    requires doc.Valid() && node in doc.forest.kids && node.parent == null
    requires node != doc.root && !node.item.DocumentItem?
    modifies doc, doc.forest.kids.Keys
    ensures doc.Valid() && Removed(old(doc.forest), doc.forest, node)
    ensures Parentless(doc.forest, doc.root) == old(Parentless(doc.forest, doc.root)) - {node}
    ensures doc.leaked == old(doc.leaked) + if tracked then multiset{} else multiset{PoolOf(node.item)}
  {
    hide Fits, Lists, AllChained, Parentless, Removed, Cut, CurrentFits, UntrackedFits, PoolOf, Add;
    ghost var nodes := Parentless(doc.forest, doc.root) - {};
    OrphansOf(doc.forest, doc.root);
    CutOrphans(doc.forest, node, doc.root);
    ghost var was, before := doc.unlinked, doc.untracked;
    if tracked {
      doc.SetTracked(PoolOf(node.item));
    } else {
      doc.leaked := doc.leaked + multiset{PoolOf(node.item)};
    }
    doc.DeleteNode(node, nodes);
    OffTheList(was, doc.unlinked, nodes, node);
    TakenOffFits(before, old(doc.leaked), was, doc.unlinked, node);
    RemovedOrphans(old(doc.forest), doc.forest, node, doc.root);
    assert nodes - {node} == Parentless(doc.forest, doc.root) - {};
    assert nodes == old(Parentless(doc.forest, doc.root));
  }
}
