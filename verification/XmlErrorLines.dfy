/** The line an error is reported on, told by what stands in the file: one more than the line feeds before the place
    where the fault is (drivers/Mach3/tinyxml2.cpp:656-723, 988-1100, 1147-1171, 1815-1925, 2380-2402). */
module XmlErrorLines {
  import opened XmlUtil
  import opened XmlText
  import opened XmlTree
  import opened XmlGrammar
  import opened InPlaceDecoder
  import opened LazyTree
  import opened NodeLines
  import opened ErrorLines
  import opened XmlPrint
  import opened XmlEscape
  import opened XmlRoundTrip
  import opened XmlSpans
  import opened XmlWords
  import opened XmlSyntax
  import opened XmlErrors

  /** A fault of an element: what follows the `<`. */
  predicate InTag(f: Fault) {
    !f.Misplaced? && !f.Unended? && !f.UnendedText? && !f.TextAtEnd?
  }

  function TagOf(f: Fault): string
    requires InTag(f)
  {
    match f
    case Inside(_, tag, before, fault) => TagText(tag, false, false, ListText(before, FaultText(fault)))
    case TooDeep(_, tag, rest) => TagText(tag, false, false, rest)
    case CutOff(_, tag) => TagText(tag, false, false, "")
    case Unclosed(_, tag, children, blank) => TagText(tag, false, false, ListText(children, blank))
    case Mismatched(_, tag, children, inner, closing, rest) =>
      TagText(tag, false, false, ListText(children, inner + ("<" + TagText(closing, true, false, rest))))
    case NoName(_, gap, slash, rest) => gap + ((if slash then "/" else "") + rest)
    case BadAttribute(_, slash, tag, rest) => PartText(tag, slash, rest)
    case Repeated(_, slash, tag, again, rest) => PartText(tag, slash, AttributeText(again, rest))
    case BadEnd(_, slash, tag, rest) => PartText(tag, slash, rest)
  }

  /** What the file has from the place on that the error is about: a bad attribute, what an open tag too many has in it,
      or the element, mark or text itself. */
  function From(f: Fault): string {
    match f
    case Inside(_, _, _, fault) => From(fault)
    case TooDeep(_, _, rest) => rest
    case BadAttribute(_, _, _, rest) => rest
    case Repeated(_, _, _, again, rest) => AttributeText(again, rest)
    case Misplaced(_, span, rest) => "<?" + (span + ("?>" + rest))
    case Unended(_, kind, rest) => Opening(kind) + rest
    case UnendedText(span) => XmlText.SkipWhiteSpace(span)
    case TextAtEnd(span) => XmlText.SkipWhiteSpace(span) + "<"
    case _ => "<" + TagOf(f)
  }

  // ---------- places told from the end of the text ----------

  function At(text: string, s: string): nat
    requires EndOf(s, text)
  {
    |text| - |s|
  }

  lemma FirstFromEnd(text: string, s: string)
    requires EndOf(s, text)
    ensures EndOf(XmlText.SkipWhiteSpace(s), text)
    ensures First(text, At(text, s)) == At(text, XmlText.SkipWhiteSpace(s))
  {
    hide XmlText.SkipWhiteSpace;
    SpaceLeavesEnd(s);
    EndOfEnd(XmlText.SkipWhiteSpace(s), s, text);
  }

  lemma EndOfTail(a: string, b: string, text: string)
    requires EndOf(a + b, text)
    ensures EndOf(b, text)
  {
    assert (a + b)[|a + b| - |b|..] == b;
    EndOfEnd(b, a + b, text);
  }

  /** A node that is no element reports its own line. */
  lemma LeafLine(o: Options, text: string, s: string, depth: nat)
    requires EndOf(s, text) && Identify(s).Some? && Identify(s).value.0 != KElement
    ensures EndOf(XmlText.SkipWhiteSpace(s), text)
    ensures NodeErrorLine(o, text, At(text, s), depth) == LineAt(text, At(text, XmlText.SkipWhiteSpace(s)))
  {
    hide XmlText.SkipWhiteSpace, First, KindOf;
    FirstFromEnd(text, s);
  }

  /** An element reports where ElementErrorLine says, from what follows its `<`. */
  lemma ElementLine(o: Options, text: string, s: string, x: string, depth: nat)
    requires EndOf(s, text) && Identify(s) == Some((KElement, x))
    ensures EndOf("<" + x, text) && EndOf(x, text)
    ensures NodeErrorLine(o, text, At(text, s), depth)
         == ElementErrorLine(o, text, At(text, x), depth, LineAt(text, At(text, "<" + x)))
  {
    hide XmlText.SkipWhiteSpace, First, KindOf, ElementErrorLine;
    FirstFromEnd(text, s);
    var t := XmlText.SkipWhiteSpace(s);
    assert t == "<" + x;
    EndOfTail("<", x, text);
  }

  // ---------- the attributes of a tag ----------

  /** Attributes are passed one after another. */
  lemma {:induction false} AttributesPass(o: Options, text: string, attributes: seq<WrittenAttribute>, s: string,
          seen: seq<Attribute>, line: nat)
    requires AllFit(attributes) && NoneSeen(seen, attributes) && EndOf(AttributesText(attributes, s), text)
    ensures EndOf(s, text)
    ensures AttributesErrorLine(o, text, At(text, AttributesText(attributes, s)), seen, line)
         == AttributesErrorLine(o, text, At(text, s), seen + AttributesSaid(o, attributes), line)
    decreases |attributes|
  {
    hide TakeAttribute, AttributeText, NoneSeen, AllFit, IsBlank, AttributeSaid, HasAttribute, AttributesErrorLine;
    if attributes == [] {
      assert seen + [] == seen;
    } else {
      var a := attributes[0];
      var rest := AttributesText(attributes[1..], s);
      StillNoneSeen(o, seen, attributes);
      AttributePasses(o, text, a, rest, seen, line);
      AttributesPass(o, text, attributes[1..], s, seen + [AttributeSaid(o, a)], line);
      assert seen + [AttributeSaid(o, a)] + AttributesSaid(o, attributes[1..]) == seen + AttributesSaid(o, attributes);
    }
  }

  lemma AttributePasses(o: Options, text: string, a: WrittenAttribute, rest: string, seen: seq<Attribute>, line: nat)
    requires AttributeFits(a) && EndOf(a.gap + AttributeText(a, rest), text)
    ensures EndOf(rest, text) && EndOf(AttributeText(a, rest), text)
    ensures AttributesErrorLine(o, text, At(text, a.gap + AttributeText(a, rest)), seen, line)
         == if HasAttribute(seen, a.name) then LineAt(text, At(text, AttributeText(a, rest)))
            else AttributesErrorLine(o, text, At(text, rest), seen + [AttributeSaid(o, a)], line)
  {
    hide TakeAttribute, AttributeText, HasAttribute, XmlText.SkipWhiteSpace, First, AttributeSaid;
    var s := AttributeText(a, rest);
    AttributeIsRead(o, a, rest);
    GapIsBlank(a);
    BlankIsSkipped(a.gap, s);
    NothingToSkip(s);
    FirstFromEnd(text, a.gap + s);
    AttributeLeavesEnd(o, s);
    EndOfEnd(rest, s, text);
    NameSaid(o, a);
  }

  /** A bad attribute reports its line, and a bad end that of the element. */
  lemma RestLine(o: Options, text: string, gap: string, rest: string, seen: seq<Attribute>, line: nat)
    requires IsBlank(gap) && EndOf(gap + rest, text) && (rest != "" ==> !IsWhiteSpace(rest[0]))
    ensures EndOf(rest, text)
    ensures NotName(rest) ==> AttributesErrorLine(o, text, At(text, gap + rest), seen, line) == line
    ensures !NotName(rest) && NoAttribute(rest) ==>
      AttributesErrorLine(o, text, At(text, gap + rest), seen, line) == LineAt(text, At(text, rest))
  {
    hide TakeAttribute, HasAttribute, XmlText.SkipWhiteSpace, First, NoAttribute;
    BlankIsSkipped(gap, rest);
    SkipsNothing(rest);
    FirstFromEnd(text, gap + rest);
    if NoAttribute(rest) {
      NothingIsRead(o, rest);
    }
  }

  lemma NothingIsRead(o: Options, s: string)
    requires NoAttribute(s)
    ensures TakeAttribute(o, s).None?
  {
    hide TakeAttribute, AttributeText, AttributeFits;
    if TakeAttribute(o, s).Some? {
      var a := AttributeIsWritten(o, "", s);
    }
  }

  lemma NameIsFound(text: string, t: WrittenTag, slash: bool, tail: string)
    requires TagFits(t) && EndOf(PartText(t, slash, tail), text)
    ensures var named := t.name + AttributesText(t.attributes, t.end + tail);
      EndOf(named, text) && NamePlace(text, At(text, PartText(t, slash, tail))) == At(text, named)
  {
    hide AttributesText, IsBlank, AttributeFits, XmlText.SkipWhiteSpace, First;
    var named := t.name + AttributesText(t.attributes, t.end + tail);
    var s := (if slash then "/" else "") + named;
    TagPartBegins(t, slash, tail);
    BlankIsSkipped(t.gap, s);
    NothingToSkip(s);
    FirstFromEnd(text, t.gap + s);
    EndOfTail(if slash then "/" else "", named, text);
    assert text[At(text, s)] == s[0];
  }

  lemma NameIsPassed(o: Options, text: string, t: WrittenTag, tail: string, line: nat)
    requires TagFits(t) && SetOff(t, tail) && EndOf(t.name + AttributesText(t.attributes, t.end + tail), text)
    ensures EndOf(t.end + tail, text)
    ensures AttributesErrorLine(o, text,
        AfterName(text, At(text, t.name + AttributesText(t.attributes, t.end + tail))), [], line)
      == AttributesErrorLine(o, text, At(text, t.end + tail), AttributesSaid(o, t.attributes), line)
  {
    hide TakeName, AttributesText, IsBlank, AttributeFits, AllFit, NoneSeen, SetOff, AttributesErrorLine;
    hide IsName, AttributesSaid, EndOf, TagFits, AfterName;
    var attributes := AttributesText(t.attributes, t.end + tail);
    AfterPartName(t, tail);
    TagNamed(t);
    AfterNameIs(text, t.name, attributes);
    TagNames(t);
    AttributesPass(o, text, t.attributes, t.end + tail, [], line);
    assert [] + AttributesSaid(o, t.attributes) == AttributesSaid(o, t.attributes);
  }

  lemma TagNamed(t: WrittenTag)
    requires TagFits(t)
    ensures IsName(t.name)
  {
  }

  lemma AfterNameIs(text: string, name: string, s: string)
    requires IsName(name) && (s == "" || !IsNameChar(s[0])) && EndOf(name + s, text)
    ensures EndOf(s, text) && AfterName(text, At(text, name + s)) == At(text, s)
  {
    hide TakeName;
    NameIsTaken(name, s);
    EndOfTail(name, s, text);
  }

  /** The faults of attributes are found behind the readable part of the tag. */
  lemma TagPartLine(o: Options, text: string, t: WrittenTag, slash: bool, tail: string, line: nat)
    requires TagFits(t) && SetOff(t, tail) && EndOf(PartText(t, slash, tail), text)
    ensures EndOf(t.end + tail, text)
    ensures TagErrorLine(o, text, At(text, PartText(t, slash, tail)), line)
         == AttributesErrorLine(o, text, At(text, t.end + tail), AttributesSaid(o, t.attributes), line)
  {
    hide AttributesText, TagFits, SetOff, AttributesErrorLine, PartText, NamePlace, AfterName;
    NameIsFound(text, t, slash, tail);
    NameIsPassed(o, text, t, tail, line);
  }

  // ---------- elements ----------

  lemma FaultIsIdentified(f: Fault, before: seq<Written>, depth: nat, inDocument: bool)
    requires FaultFits(f, before, depth, inDocument) && InTag(f)
    ensures Identify(FaultText(f)) == Some((KElement, TagOf(f)))
  {
    hide Identify, TagText, PartText, AttributeText, ListText, TagFits, IsBlank, ListFits, AllLevels, NoneDeclared;
    hide NoAttribute, AttributeFits;
    TagOfBegins(f, before, depth, inDocument);
    AnyElementIsIdentified(TagOf(f));
    LeadIsSkipped(f.lead, "<" + TagOf(f));
  }

  lemma TagOfBegins(f: Fault, before: seq<Written>, depth: nat, inDocument: bool)
    requires FaultFits(f, before, depth, inDocument) && InTag(f)
    ensures TagOf(f) == "" || (TagOf(f)[0] != '?' && TagOf(f)[0] != '!')
    ensures IsBlank(f.lead) && FaultText(f) == f.lead + ("<" + TagOf(f))
  {
    hide TagText, PartText, AttributeText, ListText, TagFits, ListFits, AllLevels, NoneDeclared, NoAttribute;
    hide AttributeFits;
    match f {
      case Inside(_, tag, inner, fault) => TagBegins(tag, false, false, ListText(inner, FaultText(fault)));
      case TooDeep(_, tag, rest) => TagBegins(tag, false, false, rest);
      case CutOff(_, tag) => TagBegins(tag, false, false, "");
      case Unclosed(_, tag, children, blank) => TagBegins(tag, false, false, ListText(children, blank));
      case Mismatched(_, tag, children, inner, closing, rest) =>
        TagBegins(tag, false, false, ListText(children, inner + ("<" + TagText(closing, true, false, rest))));
      case NoName(_, gap, slash, rest) => NoNameBegins(gap, slash, rest);
      case BadAttribute(_, slash, tag, rest) => TagPartBegins(tag, slash, rest);
      case Repeated(_, slash, tag, again, rest) => TagPartBegins(tag, slash, AttributeText(again, rest));
      case BadEnd(_, slash, tag, rest) => TagPartBegins(tag, slash, rest);
    }
  }

  lemma NoNameBegins(gap: string, slash: bool, rest: string)
    requires IsBlank(gap) && (!slash && gap == "" && rest != "" ==> rest[0] != '?' && rest[0] != '!')
    ensures var s := gap + ((if slash then "/" else "") + rest); s == "" || (s[0] != '?' && s[0] != '!')
  {
    var s := gap + ((if slash then "/" else "") + rest);
    if gap != "" {
      assert s[0] == gap[0];
      BlankIsNoName(gap[0]);
    } else {
      assert s == (if slash then "/" else "") + rest;
    }
  }

  /** In a tag without a name, or an element whose tag is read and whose list does not fail: the line of the element. */
  lemma OwnLine(o: Options, text: string, x: string, depth: nat, line: nat)
    requires EndOf(x, text)
    requires var t := TakeTag(o, x);
      || t == NoTag(None)
      || (t.Tag? && (t.rest == "" || t.closing != OPEN || !TakeLevel(o, t.rest, depth, false).stop.Failed?))
    ensures ElementErrorLine(o, text, At(text, x), depth, line) == line
  {
    hide TakeTag, TakeLevel, TagErrorLine, LevelErrorLine;
  }

  /** A fault of the attributes. */
  lemma AttributesLine(o: Options, text: string, x: string, depth: nat, line: nat)
    requires EndOf(x, text) && TakeTag(o, x).NoTag? && TakeTag(o, x).error.Some?
    ensures ElementErrorLine(o, text, At(text, x), depth, line) == TagErrorLine(o, text, At(text, x), line)
  {
    hide TakeTag, TakeLevel, TagErrorLine, LevelErrorLine;
  }

  /** A list that fails reports a line of its own. */
  lemma ListLine(o: Options, text: string, t: WrittenTag, inside: string, depth: nat, line: nat)
    requires TagFits(t) && inside != "" && EndOf(TagText(t, false, false, inside), text)
    requires TakeLevel(o, inside, depth, false).stop.Failed?
    ensures EndOf(inside, text)
    ensures ElementErrorLine(o, text, At(text, TagText(t, false, false, inside)), depth, line)
         == LevelErrorLine(o, text, At(text, inside), depth, false)
  {
    hide TakeTag, TakeLevel, TagErrorLine, LevelErrorLine, TagText, TagFits;
    TagIsRead(o, t, false, false, inside);
    TagLeavesEnd(o, TagText(t, false, false, inside));
    EndOfEnd(inside, TagText(t, false, false, inside), text);
  }

  /** A list is passed node by node. */
  lemma {:induction false} ListPasses(o: Options, text: string, ws: seq<Written>, tail: string, depth: nat,
          inDocument: bool, before: seq<Written>)
    requires ListFits(ws) && TailFits(ws, tail) && depth + AllLevels(ws) < 100
    requires if inDocument then DeclaredFirst(before + ws) else NoneDeclared(ws)
    requires EndOf(ListText(ws, tail), text)
    ensures EndOf(tail, text)
    ensures ListErrorLine(o, text, At(text, ListText(ws, tail)), depth, inDocument, ListSaid(o, before))
         == ListErrorLine(o, text, At(text, tail), depth, inDocument, ListSaid(o, before + ws))
    decreases |ws|
  {
    hide TakeNode, NodeText, NodeSaid, NodeFits, ListFits, TailFits, StartsTag, Levels, AllLevels, NodeErrorLine;
    hide ListErrorLine, EndOf;
    if ws == [] {
      assert before + [] == before;
    } else {
      var w, rest := ws[0], ListText(ws[1..], tail);
      var s := NodeText(w, rest);
      ListParts(ws, tail);
      NodeIsRead(o, w, rest, depth);
      InPlace(o, before, ws, inDocument);
      NodeLeavesEnd(o, s, depth);
      EndOfEnd(rest, s, text);
      NodePasses(o, text, s, depth, inDocument, ListSaid(o, before));
      assert (before + [w]) + ws[1..] == before + ws;
      SaidMore(o, before, w);
      ListPasses(o, text, ws[1..], tail, depth, inDocument, before + [w]);
    }
  }

  lemma NodePasses(o: Options, text: string, s: string, depth: nat, inDocument: bool, before: seq<Node>)
    requires EndOf(s, text) && TakeNode(o, s, depth).Some? && TakeNode(o, s, depth).value.Parsed?
    requires TakeNode(o, s, depth).value.node.Declaration? ==> WellLocated(inDocument, before)
    requires EndOf(TakeNode(o, s, depth).value.rest, text)
    ensures var r := TakeNode(o, s, depth).value;
      ListErrorLine(o, text, At(text, s), depth, inDocument, before)
        == ListErrorLine(o, text, At(text, r.rest), depth, inDocument, before + [r.node])
  {
    hide TakeNode, NodeErrorLine, WellLocated;
  }

  lemma ListStopsAt(o: Options, text: string, s: string, depth: nat, inDocument: bool, before: seq<Node>)
    requires EndOf(s, text) && TakeNode(o, s, depth).Some?
    ensures TakeNode(o, s, depth).value.Bad? ==>
      ListErrorLine(o, text, At(text, s), depth, inDocument, before) == NodeErrorLine(o, text, At(text, s), depth)
    ensures var r := TakeNode(o, s, depth).value;
      r.Parsed? && r.node.Declaration? && !WellLocated(inDocument, before) ==>
        ListErrorLine(o, text, At(text, s), depth, inDocument, before) == LineAt(text, First(text, At(text, s)))
  {
    hide TakeNode, NodeErrorLine, WellLocated, First;
  }

  // ---------- faults ----------

  /** An open tag that is the last thing in the text, or whose list ends without a fault in it. */
  lemma ShutLine(o: Options, text: string, f: Fault, before: seq<Written>, depth: nat, inDocument: bool, line: nat)
    requires FaultFits(f, before, depth, inDocument) && (f.CutOff? || f.Unclosed? || f.Mismatched?)
    requires EndOf(TagOf(f), text)
    ensures ElementErrorLine(o, text, At(text, TagOf(f)), depth, line) == line
  {
    hide TakeTag, TakeLevel, TakeList, TagText, TagFits, IsBlank, ListText, ListFits, AllLevels, NoneDeclared, TailFits;
    hide ElementErrorLine, EndOf;
    match f {
      case CutOff(_, tag) => TagIsRead(o, tag, false, false, "");
      case Unclosed(_, tag, children, blank) =>
        ListRunsOutThere(o, children, blank, depth + 1);
        LevelOpens(o, ListText(children, blank), depth);
        TagIsRead(o, tag, false, false, ListText(children, blank));
      case Mismatched(_, tag, children, inner, closing, rest) =>
        var inside := ListText(children, inner + ("<" + TagText(closing, true, false, rest)));
        ListIsClosed(o, children, inner, closing, rest, depth + 1);
        LevelOpens(o, inside, depth);
        TagIsRead(o, tag, false, false, inside);
    }
    OwnLine(o, text, TagOf(f), depth, line);
  }

  lemma TooDeepLine(o: Options, text: string, f: Fault, before: seq<Written>, depth: nat, inDocument: bool, line: nat)
    requires f.TooDeep? && FaultFits(f, before, depth, inDocument) && EndOf(TagOf(f), text)
    ensures EndOf(f.rest, text)
    ensures ElementErrorLine(o, text, At(text, TagOf(f)), depth, line) == LineAt(text, At(text, f.rest))
  {
    hide TakeTag, TakeLevel, TagText, TagFits, IsBlank, ElementErrorLine, EndOf;
    LevelIsRefused(o, f.rest);
    ListLine(o, text, f.tag, f.rest, depth, line);
  }

  /** A fault inside the list of an open tag. */
  lemma {:induction false} InsideLine(o: Options, text: string, f: Fault, before: seq<Written>, depth: nat,
          inDocument: bool, line: nat)
    requires f.Inside? && FaultFits(f, before, depth, inDocument) && EndOf(TagOf(f), text)
    ensures EndOf(From(f), text)
    ensures ElementErrorLine(o, text, At(text, TagOf(f)), depth, line) == LineAt(text, At(text, From(f)))
    decreases f, 0, 0
  {
    hide TakeTag, TakeLevel, TakeList, TagText, TagFits, IsBlank, ListText, ListFits, AllLevels, NoneDeclared, TailFits;
    hide ElementErrorLine, ListErrorLine, EndOf, LineAt;
    var inside := ListText(f.before, FaultText(f.fault));
    ListBreaks(o, f.before, f.fault, depth + 1, false);
    NotNothing(f.before, FaultText(f.fault));
    LevelOpens(o, inside, depth);
    ListLine(o, text, f.tag, inside, depth, line);
    LevelLine(o, text, inside, depth);
    FaultInListLine(o, text, f.before, f.fault, depth + 1, false);
  }

  lemma LevelLine(o: Options, text: string, s: string, depth: nat)
    requires EndOf(s, text) && depth + 1 < 100
    ensures LevelErrorLine(o, text, At(text, s), depth, false)
         == ListErrorLine(o, text, At(text, s), depth + 1, false, [])
  {
    hide ListErrorLine;
  }

  lemma LevelIsRefused(o: Options, rest: string)
    ensures TakeLevel(o, rest, 99, false).stop == Failed(ElementDepthExceeded)
  {
    hide TakeList;
  }

  /** A fault in a tag. */
  lemma TagLine(o: Options, text: string, f: Fault, depth: nat, line: nat)
    requires FaultFits(f, [], depth, true) && (f.NoName? || f.BadAttribute? || f.Repeated? || f.BadEnd?)
    requires EndOf(TagOf(f), text)
    ensures f.BadAttribute? || f.Repeated? ==>
      && EndOf(From(f), text)
      && ElementErrorLine(o, text, At(text, TagOf(f)), depth, line) == LineAt(text, At(text, From(f)))
    ensures f.NoName? || f.BadEnd? ==> ElementErrorLine(o, text, At(text, TagOf(f)), depth, line) == line
  {
    hide TakeTag, TagFits, IsBlank, AttributeFits, AttributeText, PartText, SetOff, NoAttribute, TakeAttributes;
    hide ElementErrorLine, AttributesErrorLine, TagErrorLine, EndOf, HasAttribute;
    if f.NoName? {
      NoNameIsMet(o, f.gap, f.slash, f.rest);
      OwnLine(o, text, TagOf(f), depth, line);
    } else if f.Repeated? {
      RepeatedLine(o, text, f, depth, line);
    } else {
      RestOfTagLine(o, text, f, depth, line);
    }
  }

  lemma RepeatedLine(o: Options, text: string, f: Fault, depth: nat, line: nat)
    requires f.Repeated? && FaultFits(f, [], depth, true) && EndOf(TagOf(f), text)
    ensures EndOf(From(f), text)
    ensures ElementErrorLine(o, text, At(text, TagOf(f)), depth, line) == LineAt(text, At(text, From(f)))
  {
    hide TakeTag, TagFits, AttributeFits, AttributeText, PartText, TakeAttributes, AttributesSaid;
    hide ElementErrorLine, AttributesErrorLine, TagErrorLine, EndOf, HasAttribute;
    var s := AttributeText(f.again, f.rest);
    RepeatedIsMet(o, f.again, f.rest, f.tag.attributes);
    TagReaches(o, f.tag, f.slash, s, ErrorParsingAttribute);
    AttributesLine(o, text, TagOf(f), depth, line);
    TagPartLine(o, text, f.tag, f.slash, s, line);
    RepeatedIsSaid(o, f.tag.attributes, f.again.name);
    AttributePasses(o, text, f.again, f.rest, AttributesSaid(o, f.tag.attributes), line);
  }

  lemma RepeatedIsSaid(o: Options, attributes: seq<WrittenAttribute>, name: string)
    requires exists i :: 0 <= i < |attributes| && attributes[i].name == name
    ensures HasAttribute(AttributesSaid(o, attributes), name)
  {
    hide AttributeSaid;
    var i :| 0 <= i < |attributes| && attributes[i].name == name;
    NameSaid(o, attributes[i]);
    assert AttributesSaid(o, attributes)[i].name == name;
  }

  lemma RestOfTagLine(o: Options, text: string, f: Fault, depth: nat, line: nat)
    requires (f.BadAttribute? || f.BadEnd?) && FaultFits(f, [], depth, true) && EndOf(TagOf(f), text)
    ensures EndOf(f.rest, text)
    ensures ElementErrorLine(o, text, At(text, TagOf(f)), depth, line)
         == if f.BadEnd? then line else LineAt(text, At(text, f.rest))
  {
    hide TakeTag, TagFits, AttributeFits, AttributeText, PartText, TakeAttributes, AttributesSaid, SetOff, IsBlank;
    hide ElementErrorLine, AttributesErrorLine, TagErrorLine, EndOf, NoAttribute;
    var seen := AttributesSaid(o, f.tag.attributes);
    EndIsBlank(f.tag);
    if f.BadEnd? {
      BadEndIsMet(o, f.tag.end, f.rest, seen);
      TagReaches(o, f.tag, f.slash, f.rest, ErrorParsingElement);
    } else {
      StartIsNoBlank(f.rest[0]);
      BadAttributeIsMet(o, f.tag.end, f.rest, seen);
      TagReaches(o, f.tag, f.slash, f.rest, ErrorParsingAttribute);
    }
    AttributesLine(o, text, TagOf(f), depth, line);
    TagPartLine(o, text, f.tag, f.slash, f.rest, line);
    RestLine(o, text, f.tag.end, f.rest, seen, line);
  }

  lemma LeafIsIdentified(f: Fault, before: seq<Written>, depth: nat, inDocument: bool)
    requires FaultFits(f, before, depth, inDocument) && !InTag(f)
    ensures Identify(FaultText(f)).Some? && Identify(FaultText(f)).value.0 != KElement
    ensures XmlText.SkipWhiteSpace(FaultText(f)) == From(f)
  {
    hide Identify, IsBlank, Find, KindOf, XmlText.SkipWhiteSpace;
    match f {
      case Misplaced(lead, span, rest) => MarkIsThere(lead, KDeclaration, span + ("?>" + rest));
      case Unended(lead, kind, rest) => MarkIsThere(lead, kind, rest);
      case UnendedText(span) => TextIsThereAlone(span, false);
      case TextAtEnd(span) => TextIsThereAlone(span, true);
    }
  }

  lemma MarkIsThere(lead: string, kind: Kind, rest: string)
    requires IsBlank(lead) && IsMark(kind) && (kind.KUnknown? ==> !("--" <= rest) && !("[CDATA[" <= rest))
    ensures var s := lead + (Opening(kind) + rest);
      && Identify(s).Some? && Identify(s).value.0 == kind && XmlText.SkipWhiteSpace(s) == Opening(kind) + rest
  {
    hide Identify, IsBlank, KindOf, XmlText.SkipWhiteSpace;
    MarksAre(kind);
    if kind == KUnknown {
      UnknownIsToldAlone(rest);
    } else {
      HeadersAreTold(kind, rest);
    }
    MarkIsIdentified(kind, rest);
    LeadIsSkipped(lead, Opening(kind) + rest);
    BlankIsSkipped(lead, Opening(kind) + rest);
    NothingToSkip(Opening(kind) + rest);
  }

  lemma TextIsThereAlone(span: string, ended: bool)
    requires Lacks(span, '<') && XmlText.SkipWhiteSpace(span) != ""
    ensures var s := if ended then span + "<" else span;
      && Identify(s) == Some((KText, s))
      && XmlText.SkipWhiteSpace(s) == XmlText.SkipWhiteSpace(span) + if ended then "<" else ""
  {
    hide Identify, XmlText.SkipWhiteSpace;
    var more := if ended then "<" else "";
    SkipsInside(span, more);
    SkipsBefore(span, more);
    assert span + "" == span;
    TextIsIdentified(span + more);
  }

  lemma {:induction false} SkipsBefore(span: string, more: string)
    requires XmlText.SkipWhiteSpace(span) != ""
    ensures XmlText.SkipWhiteSpace(span + more) == XmlText.SkipWhiteSpace(span) + more
  {
    if IsWhiteSpace(span[0]) {
      assert (span + more)[1..] == span[1..] + more;
      SkipsBefore(span[1..], more);
    }
  }

  /** A fault reports the line of its place. */
  lemma {:induction false} FaultLine(o: Options, text: string, f: Fault, before: seq<Written>, depth: nat,
          inDocument: bool)
    requires FaultFits(f, before, depth, inDocument) && EndOf(FaultText(f), text)
    ensures EndOf(From(f), text)
    ensures InTag(f) ==> NodeErrorLine(o, text, At(text, FaultText(f)), depth) == LineAt(text, At(text, From(f)))
    ensures !InTag(f) ==>
      && NodeErrorLine(o, text, At(text, FaultText(f)), depth) == LineAt(text, At(text, From(f)))
      && First(text, At(text, FaultText(f))) == At(text, From(f))
    decreases f, 1
  {
    hide Identify, NodeErrorLine, ElementErrorLine, EndOf, First, XmlText.SkipWhiteSpace, FaultText, FaultFits, TagOf;
    var s := FaultText(f);
    if InTag(f) {
      var x := TagOf(f);
      FaultIsIdentified(f, before, depth, inDocument);
      ElementLine(o, text, s, x, depth);
      ElementFaultLine(o, text, f, before, depth, inDocument, LineAt(text, At(text, "<" + x)));
    } else {
      LeafIsIdentified(f, before, depth, inDocument);
      LeafLine(o, text, s, depth);
      FirstFromEnd(text, s);
    }
  }

  /** The fault of an element: at a place inside it, or at the element. */
  lemma {:induction false} ElementFaultLine(o: Options, text: string, f: Fault, before: seq<Written>, depth: nat,
          inDocument: bool, line: nat)
    requires FaultFits(f, before, depth, inDocument) && InTag(f) && EndOf(TagOf(f), text) && EndOf("<" + TagOf(f), text)
    requires line == LineAt(text, At(text, "<" + TagOf(f)))
    ensures EndOf(From(f), text)
    ensures ElementErrorLine(o, text, At(text, TagOf(f)), depth, line) == LineAt(text, At(text, From(f)))
    decreases f, 0, 1
  {
    hide ElementErrorLine, EndOf, FaultText, FaultFits, TagOf, LineAt;
    if f.Inside? {
      InsideLine(o, text, f, before, depth, inDocument, line);
    } else if f.TooDeep? {
      TooDeepLine(o, text, f, before, depth, inDocument, line);
    } else if f.CutOff? || f.Unclosed? || f.Mismatched? {
      ShutLine(o, text, f, before, depth, inDocument, line);
    } else {
      FitsAnywhere(f, before, depth, inDocument);
      TagLine(o, text, f, depth, line);
    }
  }

  lemma FitsAnywhere(f: Fault, before: seq<Written>, depth: nat, inDocument: bool)
    requires FaultFits(f, before, depth, inDocument) && (f.NoName? || f.BadAttribute? || f.Repeated? || f.BadEnd?)
    ensures FaultFits(f, [], depth, true)
  {
    hide IsBlank, TagFits, NoAttribute, AttributeFits, SetOff;
  }

  /** A list with a fault reports the line of the fault. */
  lemma {:induction false} FaultInListLine(o: Options, text: string, before: seq<Written>, f: Fault, depth: nat,
          inDocument: bool)
    requires ListFits(before) && depth + AllLevels(before) < 100 && TailFits(before, FaultText(f))
    requires if inDocument then DeclaredFirst(before) else NoneDeclared(before)
    requires FaultFits(f, before, depth, inDocument) && EndOf(ListText(before, FaultText(f)), text)
    ensures EndOf(From(f), text)
    ensures ListErrorLine(o, text, At(text, ListText(before, FaultText(f))), depth, inDocument, [])
         == LineAt(text, At(text, From(f)))
    decreases f, 2
  {
    hide TakeNode, FaultText, ListText, ListFits, AllLevels, TailFits, FaultFits, IsDeclared, EndOf, ListErrorLine;
    hide NodeErrorLine, First, LineAt, InTag;
    var s := FaultText(f);
    ListPasses(o, text, before, s, depth, inDocument, []);
    assert [] + before == before && ListSaid(o, []) == [];
    FaultLine(o, text, f, before, depth, inDocument);
    if f.Misplaced? {
      MisplacedIsThere(o, f, before, depth, inDocument);
    } else {
      FaultIsMet(o, f, before, depth, inDocument);
    }
    ListStopsAt(o, text, s, depth, inDocument, ListSaid(o, before));
  }

  lemma MisplacedIsThere(o: Options, f: Fault, before: seq<Written>, depth: nat, inDocument: bool)
    requires f.Misplaced? && FaultFits(f, before, depth, inDocument) && depth < 100
    ensures !InTag(f)
    ensures var t := TakeNode(o, FaultText(f), depth);
      && t.Some? && t.value.Parsed? && t.value.node.Declaration? && !WellLocated(inDocument, ListSaid(o, before))
  {
    hide TakeNode, NodeSaid, Find, IsBlank;
    var w := Marked(f.lead, KDeclaration, f.span);
    MarkedIsRead(o, w, f.rest, depth);
    DeclarationSaid(o, w);
    if before != [] {
      DeclarationSaid(o, before[|before| - 1]);
    }
  }

  // ---------- files ----------

  lemma {:induction false} LineFeedsAre(s: string)
    ensures LineFeeds(s) == multiset(s)['\n']
  {
    if s != "" {
      LineFeedsAre(s[..|s| - 1]);
      assert s == s[..|s| - 1] + [s[|s| - 1]];
    }
  }

  /** A file with a fault is reported on the line of the fault's place: one more than the line feeds before it. */
  lemma FaultyLine(o: Options, f: Faulty)
    requires FaultyFits(f)
    ensures |From(f.fault)| <= |FaultyText(f)|
    ensures DocumentErrorLine(o, FaultyText(f))
         == 1 + multiset(FaultyText(f)[..|FaultyText(f)| - |From(f.fault)|])['\n']
  {
    hide ListText, FaultText, XmlText.SkipWhiteSpace, First, ListFits, AllLevels, TailFits, FaultFits, EndOf, IsBlank;
    hide ListErrorLine, From, FaultyText, DeclaredFirst;
    var text, s := FaultyText(f), ListText(f.before, FaultText(f.fault));
    ListIsThere(f);
    ListBreaks(o, f.before, f.fault, 1, true);
    NotNothing(f.before, FaultText(f.fault));
    FaultInListLine(o, text, f.before, f.fault, 1, true);
    EndFits(From(f.fault), text);
    LineFeedsAre(text[..|text| - |From(f.fault)|]);
  }

  lemma EndFits(s: string, text: string)
    requires EndOf(s, text)
    ensures |s| <= |text|
  {
  }

  lemma ListIsThere(f: Faulty)
    requires FaultyFits(f)
    ensures var s := ListText(f.before, FaultText(f.fault));
      EndOf(s, FaultyText(f)) && DocumentPlace(FaultyText(f)) == At(FaultyText(f), s)
  {
    hide ListText, FaultText, XmlText.SkipWhiteSpace, First, ListFits, AllLevels, TailFits, FaultFits, IsBlank;
    var text, s := FaultyText(f), ListText(f.before, FaultText(f.fault));
    SkipToList(f);
    var u := (if f.bom then BOM else "") + s;
    assert text[0..] == text;
    assert u == (if f.bom then BOM + s else s);
  }

  /** A file with nothing in it is reported on line 0. */
  lemma EmptyLine(o: Options, text: string)
    requires IsEmpty(text)
    ensures DocumentErrorLine(o, text) == 0
  {
    hide XmlText.SkipWhiteSpace, First;
    assert text[0..] == text;
  }
}
