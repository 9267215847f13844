/** The nodes that a parse which fails discards without having marked them as tracked: one of each open element around
    the fault, and one of the fault itself (drivers/Mach3/tinyxml2.cpp:656-723, 988-1100). */
module XmlLeaks {
  import opened XmlUtil
  import opened XmlText
  import opened XmlTree
  import opened XmlGrammar
  import opened PoolCounters
  import opened NodeAccounting
  import opened ParsedNodes
  import opened XmlRoundTrip
  import opened XmlWords
  import opened XmlSyntax
  import opened XmlErrors
  import opened XmlErrorLines

  /** By the pools they came from. */
  function Discarded(f: Fault): multiset<Pool> {
    match f
    case Inside(_, _, _, fault) => multiset{ElementPool} + Discarded(fault)
    case Misplaced(_, _, _) => multiset{CommentPool}
    case Unended(_, kind, _) => if kind.KCData? then multiset{TextPool} else multiset{CommentPool}
    case UnendedText(_) => multiset{TextPool}
    case TextAtEnd(_) => multiset{TextPool}
    case _ => multiset{ElementPool}
  }

  /** Nodes that are kept leak nothing. */
  lemma {:induction false} ListLeaksNothing(o: Options, ws: seq<Written>, tail: string, depth: nat, inDocument: bool,
          before: seq<Written>)
    requires ListFits(ws) && TailFits(ws, tail) && depth + AllLevels(ws) < 100
    requires if inDocument then DeclaredFirst(before + ws) else NoneDeclared(ws)
    ensures Leaks(ListTurns(o, ListText(ws, tail), depth, inDocument, ListSaid(o, before)))
         == Leaks(ListTurns(o, tail, depth, inDocument, ListSaid(o, before + ws)))
    decreases |ws|
  {
    hide TakeNode, NodeText, NodeSaid, NodeFits, ListFits, TailFits, StartsTag, Levels, AllLevels, ListTurns, Leaks;
    if ws == [] {
      assert before + [] == before;
    } else {
      var w, rest := ws[0], ListText(ws[1..], tail);
      ListParts(ws, tail);
      NodeIsRead(o, w, rest, depth);
      InPlace(o, before, ws, inDocument);
      KeptLeaksNothing(o, NodeText(w, rest), depth, inDocument, ListSaid(o, before));
      assert (before + [w]) + ws[1..] == before + ws;
      SaidMore(o, before, w);
      ListLeaksNothing(o, ws[1..], tail, depth, inDocument, before + [w]);
    }
  }

  lemma KeptLeaksNothing(o: Options, s: string, depth: nat, inDocument: bool, before: seq<Node>)
    requires TakeNode(o, s, depth).Some? && TakeNode(o, s, depth).value.Parsed?
    requires TakeNode(o, s, depth).value.node.Declaration? ==> WellLocated(inDocument, before)
    ensures var r := TakeNode(o, s, depth).value;
      Leaks(ListTurns(o, s, depth, inDocument, before))
        == Leaks(ListTurns(o, r.rest, depth, inDocument, before + [r.node]))
  {
    hide TakeNode, InsideTurns, WellLocated, Leaks, Trees;
    InsideTurnsAre(o, s, depth);
    var r := TakeNode(o, s, depth).value;
    KeptFirst(r.node, InsideTurns(o, s, depth), ListTurns(o, r.rest, depth, inDocument, before + [r.node]));
  }

  lemma FailedLeaks(head: Node, inside: seq<Turn>)
    ensures Leaks([Turn(head, inside, Fate.Failed)])
         == (if head.Element? then Leaks(inside) else multiset{}) + multiset{LeafPool(head)}
  {
    var t := Turn(head, inside, Fate.Failed);
    assert Leaks([t]) == TurnLeaks(t) + multiset{} == TurnLeaks(t);
  }

  /** What is discarded where the list stops. */
  lemma StopLeaks(o: Options, s: string, depth: nat, inDocument: bool, before: seq<Node>)
    requires TakeNode(o, s, depth).Some?
    ensures TakeNode(o, s, depth).value.Bad? ==>
      Leaks(ListTurns(o, s, depth, inDocument, before))
        == (if Blank(s).Element? then Leaks(InsideTurns(o, s, depth)) else multiset{}) + multiset{LeafPool(Blank(s))}
    ensures var r := TakeNode(o, s, depth).value;
      r.Parsed? && r.node.Declaration? && !WellLocated(inDocument, before) ==>
        Leaks(ListTurns(o, s, depth, inDocument, before)) == multiset{CommentPool}
  {
    hide TakeNode, InsideTurns, WellLocated, Leaks, Blank;
    var r := TakeNode(o, s, depth).value;
    FailedLeaks(if r.Parsed? then r.node else Blank(s), InsideTurns(o, s, depth));
  }

  // ---------- inside the element that fails ----------

  lemma NothingInside(o: Options, s: string, x: string, depth: nat)
    requires Identify(s) == Some((KElement, x))
    requires var t := TakeTag(o, x); t.NoTag? || t.rest == "" || t.closing != OPEN
    ensures Leaks(InsideTurns(o, s, depth)) == multiset{}
  {
    hide Identify, TakeTag;
  }

  lemma ListInside(o: Options, s: string, t: WrittenTag, inside: string, depth: nat)
    requires TagFits(t) && Identify(s) == Some((KElement, TagText(t, false, false, inside))) && inside != ""
    ensures InsideTurns(o, s, depth) == LevelTurns(o, inside, depth, false)
  {
    hide Identify, TakeTag, TagText, TagFits, LevelTurns;
    TagIsRead(o, t, false, false, inside);
  }

  lemma LevelLeaks(o: Options, s: string, depth: nat)
    requires depth < 100
    ensures depth == 99 ==> Leaks(LevelTurns(o, s, depth, false)) == multiset{}
    ensures depth < 99 ==> LevelTurns(o, s, depth, false) == ListTurns(o, s, depth + 1, false, [])
  {
    hide ListTurns;
  }

  /** In an element with a fault, what is discarded before the element itself. */
  lemma {:induction false} InsideLeaks(o: Options, f: Fault, before: seq<Written>, depth: nat, inDocument: bool)
    requires FaultFits(f, before, depth, inDocument) && InTag(f) && depth < 100
    ensures Leaks(InsideTurns(o, FaultText(f), depth)) == if f.Inside? then Discarded(f.fault) else multiset{}
    decreases f, 0
  {
    hide Identify, TagText, PartText, TakeTag, ListText, ListFits, AllLevels, TagFits, AttributeFits, IsBlank, TailFits;
    hide Leaks, InsideTurns, LevelTurns, ListTurns, TakeLevel, TakeList, Discarded, NoneDeclared, NoAttribute;
    FaultIsIdentified(f, before, depth, inDocument);
    var s := FaultText(f);
    if f.Inside? {
      var inside := ListText(f.before, FaultText(f.fault));
      FaultWritten(f.fault, f.before, depth + 1, false);
      NotNothing(f.before, FaultText(f.fault));
      ListInside(o, s, f.tag, inside, depth);
      LevelLeaks(o, inside, depth);
      FaultLeaks(o, f.before, f.fault, depth + 1, false);
    } else if f.TooDeep? {
      ListInside(o, s, f.tag, f.rest, depth);
      LevelLeaks(o, f.rest, depth);
    } else if f.Unclosed? {
      ListRunsOutThere(o, f.children, f.blank, depth + 1);
      WholeLeaksNothing(o, s, f.tag, ListText(f.children, f.blank), depth);
    } else if f.Mismatched? {
      ListIsClosed(o, f.children, f.inner, f.closing, f.rest, depth + 1);
      WholeLeaksNothing(o, s, f.tag,
        ListText(f.children, f.inner + ("<" + TagText(f.closing, true, false, f.rest))), depth);
    } else {
      if f.CutOff? {
        TagIsRead(o, f.tag, false, false, "");
      } else {
        FitsAnywhere(f, before, depth, inDocument);
        TagIsUnread(o, f, depth);
      }
      NothingInside(o, s, TagOf(f), depth);
    }
  }

  /** The list of an open tag that does not fail. */
  lemma WholeLeaksNothing(o: Options, s: string, t: WrittenTag, inside: string, depth: nat)
    requires TagFits(t) && Identify(s) == Some((KElement, TagText(t, false, false, inside))) && inside != ""
    requires depth < 99 && !TakeList(o, inside, depth + 1, false, []).stop.Failed?
    ensures Leaks(InsideTurns(o, s, depth)) == multiset{}
  {
    hide Identify, TagText, TagFits, TakeList, Leaks, InsideTurns, LevelTurns, ListTurns, Trees;
    ListInside(o, s, t, inside, depth);
    LevelLeaks(o, inside, depth);
    ListTurnsAre(o, inside, depth + 1, false, []);
  }

  lemma TagIsUnread(o: Options, f: Fault, depth: nat)
    requires FaultFits(f, [], depth, true) && (f.NoName? || f.BadAttribute? || f.Repeated? || f.BadEnd?)
    ensures TakeTag(o, TagOf(f)).NoTag?
  {
    hide TakeTag, TakeAttributes, TagFits, AttributeFits, AttributeText, PartText, SetOff, NoAttribute, IsBlank;
    if f.NoName? {
      NoNameIsMet(o, f.gap, f.slash, f.rest);
    } else if f.Repeated? {
      RepeatedIsUnread(o, f, depth);
    } else {
      RestIsUnread(o, f, depth);
    }
  }

  lemma RepeatedIsUnread(o: Options, f: Fault, depth: nat)
    requires f.Repeated? && FaultFits(f, [], depth, true)
    ensures TakeTag(o, PartText(f.tag, f.slash, AttributeText(f.again, f.rest))).NoTag?
  {
    hide TakeTag, TakeAttributes, TagFits, AttributeFits, AttributeText, PartText, AttributesSaid;
    RepeatedIsMet(o, f.again, f.rest, f.tag.attributes);
    TagReaches(o, f.tag, f.slash, AttributeText(f.again, f.rest), ErrorParsingAttribute);
  }

  lemma RestIsUnread(o: Options, f: Fault, depth: nat)
    requires (f.BadAttribute? || f.BadEnd?) && FaultFits(f, [], depth, true)
    ensures TakeTag(o, PartText(f.tag, f.slash, f.rest)).NoTag?
  {
    hide TakeTag, TakeAttributes, TagFits, AttributeFits, AttributeText, PartText, SetOff, NoAttribute, IsBlank;
    hide AttributesSaid;
    EndIsBlank(f.tag);
    if f.BadEnd? {
      BadEndIsMet(o, f.tag.end, f.rest, AttributesSaid(o, f.tag.attributes));
      TagReaches(o, f.tag, f.slash, f.rest, ErrorParsingElement);
    } else {
      BadAttributeIsMet(o, f.tag.end, f.rest, AttributesSaid(o, f.tag.attributes));
      TagReaches(o, f.tag, f.slash, f.rest, ErrorParsingAttribute);
    }
  }

  // ---------- the fault ----------

  lemma BlankOf(f: Fault, before: seq<Written>, depth: nat, inDocument: bool)
    requires FaultFits(f, before, depth, inDocument) && !f.Misplaced?
    ensures Blank(FaultText(f)).Element? <==> InTag(f)
    ensures InTag(f) ==> LeafPool(Blank(FaultText(f))) == ElementPool
    ensures !InTag(f) ==> multiset{LeafPool(Blank(FaultText(f)))} == Discarded(f)
  {
    hide Identify, FaultFits, FaultText;
    if InTag(f) {
      FaultIsIdentified(f, before, depth, inDocument);
    } else {
      LeafKind(f, before, depth, inDocument);
    }
  }

  lemma LeafKind(f: Fault, before: seq<Written>, depth: nat, inDocument: bool)
    requires FaultFits(f, before, depth, inDocument) && (f.Unended? || f.UnendedText? || f.TextAtEnd?)
    ensures Identify(FaultText(f)).Some?
    ensures Identify(FaultText(f)).value.0 == if f.Unended? then f.kind else KText
    ensures f.Unended? ==> IsMark(f.kind)
  {
    hide Identify, IsBlank, Find, KindOf, XmlText.SkipWhiteSpace;
    match f {
      case Unended(lead, kind, rest) => MarkIsThere(lead, kind, rest);
      case UnendedText(span) => TextIsThereAlone(span, false);
      case TextAtEnd(span) => TextIsThereAlone(span, true);
    }
  }

  /** A list with a fault discards, without marking it, one node of each element around the fault and one of the fault
      itself, and no other. */
  lemma {:induction false} FaultLeaks(o: Options, before: seq<Written>, f: Fault, depth: nat, inDocument: bool)
    requires ListFits(before) && depth + AllLevels(before) < 100 && TailFits(before, FaultText(f))
    requires if inDocument then DeclaredFirst(before) else NoneDeclared(before)
    requires FaultFits(f, before, depth, inDocument)
    ensures Leaks(ListTurns(o, ListText(before, FaultText(f)), depth, inDocument, [])) == Discarded(f)
    decreases f, 1
  {
    hide TakeNode, FaultText, ListText, ListFits, AllLevels, TailFits, FaultFits, IsDeclared, Leaks, ListTurns, Blank;
    hide InsideTurns, InTag, WellLocated;
    var s := FaultText(f);
    ListLeaksNothing(o, before, s, depth, inDocument, []);
    assert [] + before == before && ListSaid(o, []) == [];
    if f.Misplaced? {
      MisplacedIsThere(o, f, before, depth, inDocument);
    } else {
      FaultIsMet(o, f, before, depth, inDocument);
      BlankOf(f, before, depth, inDocument);
      if InTag(f) {
        InsideLeaks(o, f, before, depth, inDocument);
      }
      InsideOnly(f);
    }
    StopLeaks(o, s, depth, inDocument, ListSaid(o, before));
  }

  lemma InsideOnly(f: Fault)
    ensures InTag(f) ==> Discarded(f) == (if f.Inside? then Discarded(f.fault) else multiset{}) + multiset{ElementPool}
  {
  }

  /** The same for a whole file. */
  lemma FaultyLeaks(o: Options, f: Faulty)
    requires FaultyFits(f)
    ensures Leaks(LevelTurns(o, ListText(f.before, FaultText(f.fault)), 0, true)) == Discarded(f.fault)
  {
    hide FaultText, ListText, ListFits, AllLevels, TailFits, FaultFits, ListTurns, Leaks, DeclaredFirst, IsBlank;
    FaultLeaks(o, f.before, f.fault, 1, true);
  }
}
