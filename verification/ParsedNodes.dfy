/** The nodes a parse of a given text makes, and the linked document it leaves (drivers/Mach3/tinyxml2.cpp:988-1100,
    2285-2313, 2380-2394). */
module ParsedNodes {
  import opened DomTrees
  import opened NodeAccounting
  import opened PoolCounters
  import opened SiblingLists
  import opened XmlDom
  import opened XmlGrammar
  import opened XmlTree
  import opened XmlUtil
  import XmlText

  // ---------- the turns of a text ----------

  /** A node that is discarded before it is complete: its kind is all that matters. */
  function Blank(s: string): Node {
    match Identify(s)
    case Some((KElement, _)) => Element("", [], [])
    case Some((k, _)) => Leaf(k, "")
    case None => Comment("")
  }

  /** The loop of XMLNode::ParseDeep on `s`, turn by turn. */
  function ListTurns(o: Options, s: string, depth: nat, inDocument: bool, before: seq<Node>): seq<Turn>
    decreases |s|, 2
  {
    match TakeNode(o, s, depth)
    case None => []
    case Some(Bad(_)) => [Turn(Blank(s), InsideTurns(o, s, depth), Fate.Failed)]
    case Some(ClosingTag(_, _)) => [Turn(Blank(s), InsideTurns(o, s, depth), Closing)]
    case Some(Parsed(n, rest)) =>
      if n.Declaration? && !WellLocated(inDocument, before) then [Turn(n, InsideTurns(o, s, depth), Fate.Failed)]
      else [Turn(n, InsideTurns(o, s, depth), Kept)] + ListTurns(o, rest, depth, inDocument, before + [n])
  }

  /** The turns inside the node that `s` begins with: those of an open element's child list. */
  function InsideTurns(o: Options, s: string, depth: nat): seq<Turn>
    decreases |s|, 1
  {
    match Identify(s)
    case Some((KElement, rest)) =>
      var t := TakeTag(o, rest);
      if t.NoTag? || t.rest == [] || t.closing != OPEN then [] else LevelTurns(o, t.rest, depth, false)
    case _ => []
  }

  function LevelTurns(o: Options, s: string, depth: nat, inDocument: bool): seq<Turn>
    decreases |s|, 3
  {
    if depth + 1 == MAX_ELEMENT_DEPTH then [] else ListTurns(o, s, depth + 1, inDocument, [])
  }

  // ---------- what they link and leak ----------

  lemma {:induction false} InsideTurnsAre(o: Options, s: string, depth: nat)
    ensures var r := TakeNode(o, s, depth);
      && (r.Some? && r.value.Parsed? && r.value.node.Element? ==>
            Trees(InsideTurns(o, s, depth)) == r.value.node.children)
      && (r.Some? && !r.value.Bad? ==> Leaks(InsideTurns(o, s, depth)) == multiset{})
    decreases |s|, 1
  {
    hide TakeLeaf, TakeTag, TakeLevel, LevelTurns, Trees, Leaks;
    NothingTurns();
    match Identify(s) {
      case Some((KElement, rest)) =>
        var t := TakeTag(o, rest);
        if t.Tag? && t.rest != [] && t.closing == OPEN {
          LevelTurnsAre(o, t.rest, depth, false);
          CheckedChildren(t, TakeLevel(o, t.rest, depth, false));
        }
      case Some((k, rest)) => LeafIsLeaf(o, k, rest);
      case None =>
    }
  }

  lemma NothingTurns()
    ensures Trees([]) == [] && Leaks([]) == multiset{}
  {
  }

  lemma LeafIsLeaf(o: Options, k: Kind, s: string)
    requires k != KElement
    ensures var r := TakeLeaf(o, k, s); r.Parsed? ==> !r.node.Element?
  {
  }

  /** A parsed element has the children of its list, which met a closing tag. */
  lemma CheckedChildren(t: TagResult, list: ListResult)
    requires t.Tag?
    ensures var r := CheckElement(WithChildren(t, list));
      !r.Bad? ==> !list.stop.Failed? && (r.Parsed? ==> r.node.children == list.nodes)
  {
  }

  lemma {:induction false} LevelTurnsAre(o: Options, s: string, depth: nat, inDocument: bool)
    ensures var r := TakeLevel(o, s, depth, inDocument);
      && r.nodes == Trees(LevelTurns(o, s, depth, inDocument))
      && (!r.stop.Failed? ==> Leaks(LevelTurns(o, s, depth, inDocument)) == multiset{})
    decreases |s|, 3
  {
    hide TakeList, ListTurns, Trees, Leaks;
    NothingTurns();
    if depth + 1 != MAX_ELEMENT_DEPTH {
      ListTurnsAre(o, s, depth + 1, inDocument, []);
      var turns := ListTurns(o, s, depth + 1, inDocument, []);
      assert [] + Trees(turns) == Trees(turns);
    }
  }

  /** The turns of a list link exactly the nodes the grammar reads, and leak exactly when the list ends in an error. */
  lemma {:induction false} ListTurnsAre(o: Options, s: string, depth: nat, inDocument: bool, before: seq<Node>)
    ensures var r := TakeList(o, s, depth, inDocument, before);
      && r.nodes == before + Trees(ListTurns(o, s, depth, inDocument, before))
      && (r.stop.Failed? <==> Leaks(ListTurns(o, s, depth, inDocument, before)) != multiset{})
    decreases |s|, 2
  {
    hide TakeNode, InsideTurns, WellLocated, Trees, Leaks;
    NothingTurns();
    InsideTurnsAre(o, s, depth);
    var r := TakeNode(o, s, depth);
    assert before + [] == before;
    if r.Some? {
      var inside := InsideTurns(o, s, depth);
      if r.value.Parsed? && (r.value.node.Declaration? ==> WellLocated(inDocument, before)) {
        var n := r.value.node;
        var more := ListTurns(o, r.value.rest, depth, inDocument, before + [n]);
        ListTurnsAre(o, r.value.rest, depth, inDocument, before + [n]);
        KeptFirst(n, inside, more);
        Append1(before, n, Trees(more));
      } else {
        LastTurn(if r.value.Parsed? then r.value.node else Blank(s), inside);
      }
    }
  }

  lemma KeptFirst(n: Node, inside: seq<Turn>, more: seq<Turn>)
    requires n.Element? ==> Trees(inside) == n.children
    requires Leaks(inside) == multiset{}
    ensures Trees([Turn(n, inside, Kept)] + more) == [n] + Trees(more)
    ensures Leaks([Turn(n, inside, Kept)] + more) == Leaks(more)
  {
    assert ([Turn(n, inside, Kept)] + more)[1..] == more;
    assert TurnLeaks(Turn(n, inside, Kept)) == multiset{} && multiset{} + Leaks(more) == Leaks(more);
  }

  lemma LastTurn(head: Node, inside: seq<Turn>)
    ensures Trees([Turn(head, inside, Fate.Failed)]) == [] && Leaks([Turn(head, inside, Fate.Failed)]) != multiset{}
    ensures Trees([Turn(head, inside, Closing)]) == []
    ensures Leaks(inside) == multiset{} ==> Leaks([Turn(head, inside, Closing)]) == multiset{}
  {
    assert multiset{LeafPool(head)}[LeafPool(head)] == 1;
    var t := Turn(head, inside, Closing);
    assert Leaks([t]) == TurnLeaks(t) + multiset{} == InnerLeaks(t);
  }

  // ---------- the document ----------

  /** What a failed parse ends with: the tree is deleted and the pools are reset. */
  method Abandon(doc: DocumentTree)
    requires doc.Valid() && Parentless(doc.forest, doc.root) == {}
    modifies doc, doc.forest.kids.Keys
    ensures doc.Valid() && doc.forest == Alone(doc.root) && doc.unlinked == []
    ensures doc.leaked == multiset{} && forall p :: doc.CountersOf(p) == NO_ITEMS
  {
    hide Fits, Lists, AllChained, Trimmed, Parentless, Orphans, Alone;
    NothingUnlinked(doc);
    OrphansOf(doc.forest, doc.root);
    doc.DeleteChildren(doc.root, Parentless(doc.forest, doc.root) - {});
    TrimmedOrphans(old(doc.forest), doc.forest, doc.root, doc.root);
    assert doc.unlinked == [];
    NobodyLeft(doc.forest, doc.root);
    ResetCounts(doc.root, doc.currentAllocs);
    doc.untracked, doc.leaked := ZERO, multiset{};
  }

  lemma ResetCounts(root: XMLNode, current: PerPool)
    requires root.item.DocumentItem? && CurrentFits(current, {root})
    ensures UntrackedFits(ZERO, multiset{}, []) && forall p: Pool :: Of(current, p) == 0
  {
    hide Slots;
    forall p: Pool
      ensures Slots({root}, p) == {} && Waiting([], p) == {}
    {
      NothingUsed(root, p);
    }
  }

  /** ParseDeep on an empty document. */
  method ReadTree(doc: DocumentTree, o: Options, t: string) returns (failed: bool)
    requires doc.Valid() && doc.forest == Alone(doc.root)
    modifies doc, doc.forest.kids.Keys
    ensures doc.Valid() && Parentless(doc.forest, doc.root) == {} && doc.unlinked == []
    ensures failed == TakeLevel(o, t, 0, true).stop.Failed?
    ensures BuildsDocument(doc, TakeLevel(o, t, 0, true).nodes) && (!failed ==> doc.leaked == old(doc.leaked))
    ensures fresh(doc.forest.kids.Keys - old(doc.forest.kids.Keys))
  {
    hide TakeLevel, Parentless, Alone, BuildsLast, Trees, Leaks, LevelTurns, Grown;
    hide DocumentTree.Shape, DocumentTree.Owned, DocumentTree.Counted;
    AloneIsEmpty(doc);
    LevelTurnsAre(o, t, 0, true);
    ParseChildren(doc, doc.root, LevelTurns(o, t, 0, true));
    NothingUnlinked(doc);
    failed := TakeLevel(o, t, 0, true).stop.Failed?;
  }

  /** XMLDocument::Parse on the linked nodes: the children of a document parsed without error stand for what the grammar
      reads, with nothing beside them; after an error nothing is left at all. */
  method ParseDocument(doc: DocumentTree, o: Options, text: string)
    requires doc.Valid()
    modifies doc, doc.forest.kids.Keys
    ensures doc.Valid() && doc.unlinked == []
    ensures fresh(doc.forest.kids.Keys - old(doc.forest.kids.Keys))
    ensures doc.leaked == if Parse(o, text).Ok? || text == [] then old(doc.leaked) else multiset{}
    ensures match Parse(o, text)
      case Ok(d) => BuildsDocument(doc, d.children)
      case Error(_, _) => doc.forest == Alone(doc.root) && (text != [] ==> forall p :: doc.CountersOf(p) == NO_ITEMS)
  {
    hide XmlText.SkipWhiteSpace, TakeLevel, Parentless, Alone, BuildsDocument, DocumentTree.Valid;
    KnownRoot(doc);
    doc.Clear();
    AloneIsEmpty(doc);
    AloneKeys(doc.root);
    if text == [] {
      return;
    }
    var s := XmlText.SkipWhiteSpace(text);
    var t := if BOM <= s then s[3..] else s;
    var failed := true;
    if t != [] {
      failed := ReadTree(doc, o, t);
    }
    if failed {
      Abandon(doc);
    }
  }

  /** Whatever is parsed, with or without an error, and however often: once the document is cleared, each of the four
      pools has as many items given out as untracked ones, namely none. */
  method ParseAndClear(doc: DocumentTree, o: Options, text: string)
    requires doc.Valid() && doc.leaked == multiset{}
    modifies doc, doc.forest.kids.Keys
    ensures doc.Valid() && doc.leaked == multiset{} && doc.unlinked == [] && doc.forest == Alone(doc.root)
    ensures forall p :: doc.CountersOf(p) == NO_ITEMS
  {
    hide Parse, BuildsDocument, Alone, DocumentTree.Valid;
    ParseDocument(doc, o, text);
    doc.Clear();
  }

  lemma KnownRoot(doc: DocumentTree)
    requires doc.Valid()
    ensures doc.root in doc.forest.kids
  {
  }
}
