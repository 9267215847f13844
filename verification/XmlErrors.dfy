/** The files the parser refuses, described by what stands where it stops, and the error each is refused with
    (drivers/Mach3/tinyxml2.cpp:193-235, 988-1100, 1147-1171, 1212-1220, 1261-1269, 1309-1317, 1356-1381, 1815-1925,
    2289-2322, 2380-2402). */
module XmlErrors {
  import opened XmlUtil
  import opened XmlText
  import opened XmlEscape
  import opened XmlTree
  import opened XmlGrammar
  import opened XmlPrint
  import XmlReprint
  import opened XmlRoundTrip
  import opened XmlSpans
  import opened XmlWords
  import opened XmlSyntax

  /** What cannot be read, where the next node of a list should be. In the faults of a tag, `tag` is what can be read of
      it: `tag.end` is the white space before the rest. */
  datatype Fault =
    | Inside(lead: string, tag: WrittenTag, before: seq<Written>, fault: Fault)
    | TooDeep(lead: string, tag: WrittenTag, rest: string)
    | CutOff(lead: string, tag: WrittenTag)
    | Unclosed(lead: string, tag: WrittenTag, children: seq<Written>, blank: string)
    | Mismatched(lead: string, tag: WrittenTag, children: seq<Written>, inner: string, closing: WrittenTag,
                 rest: string)
    | Misplaced(lead: string, span: string, rest: string)
    | Unended(lead: string, kind: Kind, rest: string)
    | UnendedText(span: string)
    | TextAtEnd(span: string)
    | NoName(lead: string, gap: string, slash: bool, rest: string)
    | BadAttribute(lead: string, slash: bool, tag: WrittenTag, rest: string)
    | Repeated(lead: string, slash: bool, tag: WrittenTag, again: WrittenAttribute, rest: string)
    | BadEnd(lead: string, slash: bool, tag: WrittenTag, rest: string)

  /** The readable part of a tag, and whatever follows it. */
  function PartText(t: WrittenTag, slash: bool, tail: string): string {
    t.gap + ((if slash then "/" else "") + (t.name + AttributesText(t.attributes, t.end + tail)))
  }

  function FaultText(f: Fault): string {
    match f
    case Inside(lead, tag, before, fault) =>
      lead + ("<" + TagText(tag, false, false, ListText(before, FaultText(fault))))
    case TooDeep(lead, tag, rest) => lead + ("<" + TagText(tag, false, false, rest))
    case CutOff(lead, tag) => lead + ("<" + TagText(tag, false, false, ""))
    case Unclosed(lead, tag, children, blank) => lead + ("<" + TagText(tag, false, false, ListText(children, blank)))
    case Mismatched(lead, tag, children, inner, closing, rest) =>
      lead + ("<" + TagText(tag, false, false, ListText(children, inner + ("<" + TagText(closing, true, false, rest)))))
    case Misplaced(lead, span, rest) => lead + ("<?" + (span + ("?>" + rest)))
    case Unended(lead, kind, rest) => lead + (Opening(kind) + rest)
    case UnendedText(span) => span
    case TextAtEnd(span) => span + "<"
    case NoName(lead, gap, slash, rest) => lead + ("<" + (gap + ((if slash then "/" else "") + rest)))
    case BadAttribute(lead, slash, tag, rest) => lead + ("<" + PartText(tag, slash, rest))
    case Repeated(lead, slash, tag, again, rest) => lead + ("<" + PartText(tag, slash, AttributeText(again, rest)))
    case BadEnd(lead, slash, tag, rest) => lead + ("<" + PartText(tag, slash, rest))
  }

  function FaultError(f: Fault): XMLError {
    match f
    case Inside(_, _, _, fault) => FaultError(fault)
    case TooDeep(_, _, _) => ElementDepthExceeded
    case CutOff(_, _) => ErrorMismatchedElement
    case Unclosed(_, _, _, _) => ErrorParsing
    case Mismatched(_, _, _, _, _, _) => ErrorMismatchedElement
    case Misplaced(_, _, _) => ErrorParsingDeclaration
    case Unended(_, kind, _) =>
      (match kind
       case KDeclaration => ErrorParsingDeclaration
       case KComment => ErrorParsingComment
       case KCData => ErrorParsingCData
       case _ => ErrorParsingUnknown)
    case UnendedText(_) => ErrorParsingText
    case TextAtEnd(_) => ErrorParsing
    case NoName(_, _, _, _) => ErrorParsing
    case BadAttribute(_, _, _, _) => ErrorParsingAttribute
    case Repeated(_, _, _, _, _) => ErrorParsingAttribute
    case BadEnd(_, _, _, _) => ErrorParsingElement
  }

  predicate NotName(s: string) {
    s == "" || !IsNameStartChar(s[0])
  }

  /** No attribute begins here, in either quote and with any white space. */
  ghost predicate NoAttribute(s: string) {
    forall a, tail :: AttributeFits(a) ==> s != AttributeText(a, tail)
  }

  /** What comes right after the name does not belong to it. */
  predicate SetOff(t: WrittenTag, rest: string) {
    t.attributes == [] && t.end == "" ==> rest == "" || !IsNameChar(rest[0])
  }

  /** A fault in a list that begins with `before`, `depth` lists being open. */
  ghost predicate FaultFits(f: Fault, before: seq<Written>, depth: nat, inDocument: bool)
    decreases f
  {
    match f
    case Inside(lead, tag, inner, fault) =>
      && IsBlank(lead) && TagFits(tag) && ListFits(inner) && NoneDeclared(inner)
      && depth + 1 + AllLevels(inner) < 100 && TailFits(inner, FaultText(fault))
      && FaultFits(fault, inner, depth + 1, false)
    case TooDeep(lead, tag, rest) => IsBlank(lead) && TagFits(tag) && rest != "" && depth == 99
    case CutOff(lead, tag) => IsBlank(lead) && TagFits(tag)
    case Unclosed(lead, tag, children, blank) =>
      && IsBlank(lead) && TagFits(tag) && ListFits(children) && NoneDeclared(children)
      && depth + 1 + AllLevels(children) < 100 && IsBlank(blank)
      && if children == [] then blank != "" else !children[|children| - 1].Plain?
    case Mismatched(lead, tag, children, inner, closing, _) =>
      && IsBlank(lead) && TagFits(tag) && ListFits(children) && NoneDeclared(children)
      && depth + 1 + AllLevels(children) < 100 && IsBlank(inner) && TagFits(closing) && closing.name != tag.name
      && (children != [] && children[|children| - 1].Plain? ==> inner == "")
    case Misplaced(lead, span, _) =>
      IsBlank(lead) && Find(span, "?>").None? && (inDocument ==> before != [] && !IsDeclared(before[|before| - 1]))
    case Unended(lead, kind, rest) =>
      && IsBlank(lead) && IsMark(kind) && Find(rest, Closing(kind)).None?
      && (kind.KUnknown? ==> !("--" <= rest) && !("[CDATA[" <= rest))
    case UnendedText(span) => Lacks(span, '<') && XmlText.SkipWhiteSpace(span) != ""
    case TextAtEnd(span) => Lacks(span, '<') && XmlText.SkipWhiteSpace(span) != ""
    case NoName(lead, gap, slash, rest) =>
      && IsBlank(lead) && IsBlank(gap) && NotName(rest)
      && (!slash && rest != "" ==> !IsWhiteSpace(rest[0]) && rest[0] != '/')
      && (!slash && gap == "" && rest != "" ==> rest[0] != '?' && rest[0] != '!')
    case BadAttribute(lead, _, tag, rest) =>
      IsBlank(lead) && TagFits(tag) && SetOff(tag, rest) && !NotName(rest) && NoAttribute(rest)
    case Repeated(lead, _, tag, again, _) =>
      && IsBlank(lead) && TagFits(tag) && AttributeFits(again) && again.gap == tag.end
      && exists i :: 0 <= i < |tag.attributes| && tag.attributes[i].name == again.name
    case BadEnd(lead, _, tag, rest) =>
      && IsBlank(lead) && TagFits(tag) && SetOff(tag, rest) && NotName(rest)
      && (rest != "" ==> !IsWhiteSpace(rest[0])) && !(">" <= rest) && !("/>" <= rest)
  }

  // ---------- tags that cannot be read ----------

  lemma TagPartBegins(t: WrittenTag, slash: bool, tail: string)
    requires TagFits(t)
    ensures var s := PartText(t, slash, tail); s != "" && s[0] != '?' && s[0] != '!'
    ensures var s := (if slash then "/" else "") + (t.name + AttributesText(t.attributes, t.end + tail));
      s != "" && !IsWhiteSpace(s[0]) && (s[0] == '/' <==> slash)
  {
    hide AttributesText, AttributeFits;
    var named := t.name + AttributesText(t.attributes, t.end + tail);
    var s := (if slash then "/" else "") + named;
    assert named[0] == t.name[0] && s[0] == if slash then '/' else t.name[0];
    if t.gap != "" {
      BlankIsNoName(t.gap[0]);
      assert PartText(t, slash, tail)[0] == t.gap[0];
    } else {
      assert "" + s == s;
    }
  }

  lemma AfterPartName(t: WrittenTag, tail: string)
    requires TagFits(t) && SetOff(t, tail)
    ensures var s := AttributesText(t.attributes, t.end + tail); s == "" || !IsNameChar(s[0])
  {
    hide IsBlank;
    if t.attributes != [] {
      FirstIsBlank(t.attributes[0].gap);
    } else if t.end != "" {
      FirstIsBlank(t.end);
    } else {
      assert "" + tail == tail;
    }
  }

  /** A tag is read up to what follows its attributes. */
  lemma TagReaches(o: Options, t: WrittenTag, slash: bool, tail: string, e: XMLError)
    requires TagFits(t) && SetOff(t, tail)
    requires TakeAttributes(o, t.end + tail, AttributesSaid(o, t.attributes)) == BadAttributes(e)
    ensures TakeTag(o, PartText(t, slash, tail)) == NoTag(Some(e))
  {
    hide TakeName, TakeAttributes, AttributesText, IsBlank, AttributeFits, AllFit, NoneSeen, XmlText.SkipWhiteSpace;
    hide SetOff;
    var attributes := AttributesText(t.attributes, t.end + tail);
    var named := t.name + attributes;
    var s := (if slash then "/" else "") + named;
    TagPartBegins(t, slash, tail);
    BlankIsSkipped(t.gap, s);
    NothingToSkip(s);
    assert slash ==> s[1..] == named;
    assert !slash ==> s == named;
    AfterPartName(t, tail);
    NameIsTaken(t.name, attributes);
    TagNames(t);
    AttributesReach(o, t.attributes, t.end + tail, []);
    assert [] + AttributesSaid(o, t.attributes) == AttributesSaid(o, t.attributes);
  }

  lemma BadAttributeIsMet(o: Options, gap: string, s: string, seen: seq<Attribute>)
    requires IsBlank(gap) && !NotName(s) && NoAttribute(s)
    ensures TakeAttributes(o, gap + s, seen) == BadAttributes(ErrorParsingAttribute)
  {
    hide TakeAttribute, XmlText.SkipWhiteSpace, AttributeText, AttributeFits;
    StartIsNoBlank(s[0]);
    BlankIsSkipped(gap, s);
    NothingToSkip(s);
    if TakeAttribute(o, s).Some? {
      var a := AttributeIsWritten(o, "", s);
    }
  }

  lemma StartIsNoBlank(c: char)
    requires IsNameStartChar(c)
    ensures !IsWhiteSpace(c)
  {
  }

  lemma RepeatedIsMet(o: Options, a: WrittenAttribute, tail: string, attributes: seq<WrittenAttribute>)
    requires AttributeFits(a) && exists i :: 0 <= i < |attributes| && attributes[i].name == a.name
    ensures TakeAttributes(o, a.gap + AttributeText(a, tail), AttributesSaid(o, attributes))
         == BadAttributes(ErrorParsingAttribute)
  {
    hide TakeAttributes, AttributeText, TakeAttribute, AttributeSaid;
    var i :| 0 <= i < |attributes| && attributes[i].name == a.name;
    var seen := AttributesSaid(o, attributes);
    NameSaid(o, a);
    NameSaid(o, attributes[i]);
    assert seen[i].name == a.name;
    GapIsBlank(a);
    AttributeIsRead(o, a, tail);
    AttributeTurn(o, a.gap, AttributeText(a, tail), AttributeSaid(o, a), tail, seen);
  }

  lemma BadEndIsMet(o: Options, gap: string, s: string, seen: seq<Attribute>)
    requires IsBlank(gap) && NotName(s) && (s != "" ==> !IsWhiteSpace(s[0])) && !(">" <= s) && !("/>" <= s)
    ensures TakeAttributes(o, gap + s, seen) == BadAttributes(ErrorParsingElement)
  {
    hide TakeAttribute, XmlText.SkipWhiteSpace;
    BlankIsSkipped(gap, s);
    SkipsNothing(s);
    EndsBegin(s);
  }

  lemma EndsBegin(s: string)
    ensures s != "" && s[0] == '>' ==> ">" <= s
    ensures |s| > 1 && s[0] == '/' && s[1] == '>' ==> "/>" <= s
  {
  }

  lemma SkipsNothing(s: string)
    requires s != "" ==> !IsWhiteSpace(s[0])
    ensures XmlText.SkipWhiteSpace(s) == s
  {
  }

  lemma NoNameIsMet(o: Options, gap: string, slash: bool, rest: string)
    requires IsBlank(gap) && NotName(rest) && (!slash && rest != "" ==> !IsWhiteSpace(rest[0]) && rest[0] != '/')
    ensures TakeTag(o, gap + ((if slash then "/" else "") + rest)) == NoTag(None)
  {
    hide XmlText.SkipWhiteSpace, TakeAttributes;
    var s := (if slash then "/" else "") + rest;
    assert slash ==> s[0] == '/' && s[1..] == rest;
    assert !slash ==> s == rest;
    BlankIsSkipped(gap, s);
    SkipsNothing(s);
  }

  /** The error of a tag is that of its element. */
  lemma TagFails(o: Options, lead: string, s: string, depth: nat)
    requires IsBlank(lead) && (s == "" || (s[0] != '?' && s[0] != '!')) && TakeTag(o, s).NoTag?
    ensures TakeNode(o, lead + ("<" + s), depth)
         == Some(Bad(if TakeTag(o, s).error.None? then ErrorParsing else TakeTag(o, s).error.value))
  {
    hide TakeTag, Identify, IsBlank, TakeLevel;
    AnyElementIsIdentified(s);
    LeadIsSkipped(lead, "<" + s);
    NodeIsElement(o, lead + ("<" + s), s, depth);
  }

  lemma AnyElementIsIdentified(s: string)
    requires s == "" || (s[0] != '?' && s[0] != '!')
    ensures Identify("<" + s) == Some((KElement, s))
  {
    hide Identify;
    if s != "" {
      ElementIsIdentified(s);
    } else {
      LoneIsIdentified();
    }
  }

  lemma LoneIsIdentified()
    ensures Identify("<" + "") == Some((KElement, ""))
  {
    hide XmlText.SkipWhiteSpace;
    assert "<" + "" == "<";
    NothingToSkip("<");
  }

  // ---------- leaves that do not end ----------

  lemma UnendedIsMet(o: Options, lead: string, kind: Kind, rest: string, depth: nat)
    requires FaultFits(Unended(lead, kind, rest), [], depth, true)
    ensures TakeNode(o, lead + (Opening(kind) + rest), depth) == Some(Bad(FaultError(Unended(lead, kind, rest))))
  {
    hide KindOf, Find, ElementDeep, Identify, IsBlank;
    MarksAre(kind);
    if kind == KUnknown {
      UnknownIsToldAlone(rest);
    } else {
      HeadersAreTold(kind, rest);
    }
    MarkIsIdentified(kind, rest);
    LeadIsSkipped(lead, Opening(kind) + rest);
  }

  lemma UnknownIsToldAlone(rest: string)
    requires !("--" <= rest) && !("[CDATA[" <= rest)
    ensures KindOf("<!" + rest) == KUnknown
  {
    PrefixCancels("<!", "--", rest);
    PrefixCancels("<!", "[CDATA[", rest);
    assert "<!" + "--" == "<!--" && "<!" + "[CDATA[" == "<![CDATA[";
    var s := "<!" + rest;
    assert s[1] == '!' && s[..2] == "<!";
  }

  lemma TextIsMet(o: Options, span: string, ended: bool, depth: nat)
    requires Lacks(span, '<') && XmlText.SkipWhiteSpace(span) != ""
    ensures TakeNode(o, if ended then span + "<" else span, depth)
         == Some(Bad(if ended then ErrorParsing else ErrorParsingText))
  {
    hide TakeSpan, ElementDeep, Identify, Value, Find, XmlText.SkipWhiteSpace;
    var s := if ended then span + "<" else span;
    LacksIsNotFound(span, '<');
    if ended {
      SkipsInside(span, "<");
      SpanIsTaken(span, "<", "");
      assert span + "<" + "" == s;
    } else {
      SkipsInside(span, "");
      assert span + "" == span;
      NotFoundIsNotTaken(span);
    }
    TextIsIdentified(s);
  }

  lemma NotFoundIsNotTaken(s: string)
    requires Find(s, "<").None?
    ensures TakeSpan(s, "<").None?
  {
    hide Find;
  }

  // ---------- elements ----------

  lemma LevelOpens(o: Options, s: string, depth: nat)
    requires depth + 1 < 100
    ensures TakeLevel(o, s, depth, false) == TakeList(o, s, depth + 1, false, [])
  {
    hide TakeList;
  }

  lemma TooDeepIsMet(o: Options, lead: string, t: WrittenTag, rest: string)
    requires IsBlank(lead) && TagFits(t) && rest != ""
    ensures TakeNode(o, lead + ("<" + TagText(t, false, false, rest)), 99) == Some(Bad(ElementDepthExceeded))
  {
    hide TagText, TagFits, IsBlank, TakeNode, TakeList;
    OpenIsRead(o, lead, t, rest, 99);
  }

  lemma CutOffIsMet(o: Options, lead: string, t: WrittenTag, depth: nat)
    requires IsBlank(lead) && TagFits(t)
    ensures TakeNode(o, lead + ("<" + TagText(t, false, false, "")), depth) == Some(Bad(ErrorMismatchedElement))
  {
    hide TakeTag, TagText, TagFits, IsBlank, Identify, TakeLevel;
    TagIsRead(o, t, false, false, "");
    ElementIsFound(lead, t, false, false, "");
    NodeIsElement(o, lead + ("<" + TagText(t, false, false, "")), TagText(t, false, false, ""), depth);
  }

  /** How the children of an open tag end: with a closing tag of its own name, with another, not at all, or badly. */
  lemma OpenEnds(o: Options, lead: string, t: WrittenTag, inside: string, depth: nat, list: ListResult)
    requires IsBlank(lead) && TagFits(t) && inside != "" && depth + 1 < 100
    requires TakeList(o, inside, depth + 1, false, []) == list
    ensures TakeNode(o, lead + ("<" + TagText(t, false, false, inside)), depth)
         == Some(match list.stop
                 case EndOfText => Bad(ErrorParsing)
                 case Failed(e) => Bad(e)
                 case Closed(name, rest) =>
                   if name == t.name then Parsed(Element(t.name, AttributesSaid(o, t.attributes), list.nodes), rest)
                   else Bad(ErrorMismatchedElement))
  {
    hide TagText, TagFits, IsBlank, TakeNode, TakeList, TakeLevel;
    LevelOpens(o, inside, depth);
    OpenIsRead(o, lead, t, inside, depth);
  }

  lemma ChildrenThen(o: Options, children: seq<Written>, end: string, depth: nat)
    requires ListFits(children) && NoneDeclared(children) && depth + AllLevels(children) < 100
    requires TailFits(children, end)
    ensures TakeList(o, ListText(children, end), depth, false, [])
         == TakeList(o, end, depth, false, ListSaid(o, children))
  {
    hide TakeList, ListFits, AllLevels, TailFits, IsDeclared;
    ListIsRead(o, children, end, depth, false, []);
    assert [] + children == children && ListSaid(o, []) == [];
  }

  /** The list of an open tag that meets the end of the text. */
  lemma ListRunsOutThere(o: Options, children: seq<Written>, blank: string, depth: nat)
    requires ListFits(children) && NoneDeclared(children) && depth + AllLevels(children) < 100 && IsBlank(blank)
    requires if children == [] then blank != "" else !children[|children| - 1].Plain?
    ensures var inside := ListText(children, blank);
      inside != "" && TakeList(o, inside, depth, false, []) == ListResult(ListSaid(o, children), EndOfText)
  {
    hide IsBlank, TakeNode, TakeList, AllLevels, ListFits, NoneDeclared, ListText;
    NothingAtAll(children, blank);
    ChildrenThen(o, children, blank, depth);
    BlankRunsOut(o, blank, depth, ListSaid(o, children));
  }

  lemma UnclosedIsMet(o: Options, f: Fault, depth: nat)
    requires f.Unclosed? && FaultFits(f, [], depth, false)
    ensures TakeNode(o, FaultText(f), depth) == Some(Bad(ErrorParsing))
  {
    hide TagText, TagFits, IsBlank, TakeNode, TakeList, AllLevels, ListFits, NoneDeclared, ListText;
    ListRunsOutThere(o, f.children, f.blank, depth + 1);
    OpenEnds(o, f.lead, f.tag, ListText(f.children, f.blank), depth,
      ListResult(ListSaid(o, f.children), EndOfText));
  }

  lemma BlankRunsOut(o: Options, blank: string, depth: nat, before: seq<Node>)
    requires IsBlank(blank)
    ensures TakeList(o, blank, depth, false, before) == ListResult(before, EndOfText)
  {
    hide XmlText.SkipWhiteSpace;
    BlankIsDropped(blank);
  }

  lemma NothingAtAll(ws: seq<Written>, blank: string)
    requires ListFits(ws) && (if ws == [] then blank != "" else !ws[|ws| - 1].Plain?)
    ensures ListText(ws, blank) != ""
  {
    hide NodeText, NodeFits;
    if ws != [] {
      SomethingWritten(ws[0], ListText(ws[1..], blank));
    }
  }

  lemma SomethingWritten(w: Written, tail: string)
    requires NodeFits(w)
    ensures NodeText(w, tail) != ""
  {
    hide TagText, ListText, TagFits, ListFits, Find;
    match w {
      case Marked(_, kind, _) => MarksAre(kind);
      case _ =>
    }
    if w.Plain? {
      NothingIsBlank();
    }
  }

  /** The list of an open tag that meets a closing tag, of whatever name. */
  lemma ListIsClosed(o: Options, children: seq<Written>, inner: string, closing: WrittenTag, rest: string, depth: nat)
    requires ListFits(children) && NoneDeclared(children) && depth + AllLevels(children) < 100
    requires IsBlank(inner) && TagFits(closing) && (children != [] && children[|children| - 1].Plain? ==> inner == "")
    ensures var inside := ListText(children, inner + ("<" + TagText(closing, true, false, rest)));
      && inside != ""
      && TakeList(o, inside, depth, false, []) == ListResult(ListSaid(o, children), Closed(closing.name, rest))
  {
    hide TagText, TagFits, IsBlank, TakeNode, TakeList, AllLevels, ListFits, NoneDeclared, ListText;
    var end := inner + ("<" + TagText(closing, true, false, rest));
    EndAfter(children, inner, closing, rest);
    NotNothing(children, end);
    ChildrenThen(o, children, end, depth);
    ClosingIsRead(o, inner, closing, rest, depth);
    ListCloses(o, end, depth, ListSaid(o, children), closing.name, rest);
  }

  /** An element whose closing tag has its own name is read; with any other name it is refused. */
  lemma ClosedIsMet(o: Options, lead: string, tag: WrittenTag, children: seq<Written>, inner: string,
          closing: WrittenTag, rest: string, depth: nat)
    requires IsBlank(lead) && TagFits(tag) && ListFits(children) && NoneDeclared(children)
    requires depth + 1 + AllLevels(children) < 100 && IsBlank(inner) && TagFits(closing)
    requires children != [] && children[|children| - 1].Plain? ==> inner == ""
    ensures TakeNode(o, FaultText(Mismatched(lead, tag, children, inner, closing, rest)), depth)
         == Some(if closing.name == tag.name
                 then Parsed(Element(tag.name, AttributesSaid(o, tag.attributes), ListSaid(o, children)), rest)
                 else Bad(ErrorMismatchedElement))
  {
    hide TagText, TagFits, IsBlank, TakeNode, TakeList, AllLevels, ListFits, NoneDeclared, ListText, FaultText;
    ClosedText(lead, tag, children, inner, closing, rest);
    ListIsClosed(o, children, inner, closing, rest, depth + 1);
    OpenEnds(o, lead, tag, ListText(children, inner + ("<" + TagText(closing, true, false, rest))), depth,
      ListResult(ListSaid(o, children), Closed(closing.name, rest)));
  }

  lemma ClosedText(lead: string, tag: WrittenTag, children: seq<Written>, inner: string, closing: WrittenTag,
          rest: string)
    ensures FaultText(Mismatched(lead, tag, children, inner, closing, rest))
         == lead + ("<" + TagText(tag, false, false,
              ListText(children, inner + ("<" + TagText(closing, true, false, rest)))))
  {
  }

  lemma EndAfter(children: seq<Written>, inner: string, closing: WrittenTag, rest: string)
    requires TagFits(closing) && (children != [] && children[|children| - 1].Plain? ==> inner == "")
    ensures var end := inner + ("<" + TagText(closing, true, false, rest)); end != "" && TailFits(children, end)
  {
    hide TagText, TagFits;
    TagBegins(closing, true, false, rest);
    var t := "<" + TagText(closing, true, false, rest);
    assert "" + t == t;
  }

  // ---------- lists and files ----------

  lemma BadStops(o: Options, s: string, depth: nat, inDocument: bool, before: seq<Node>, e: XMLError)
    requires TakeNode(o, s, depth) == Some(Bad(e))
    ensures TakeList(o, s, depth, inDocument, before) == ListResult(before, Failed(e))
  {
    hide TakeNode;
  }

  /** A declaration out of its place is read, and refused. */
  lemma MisplacedStops(o: Options, f: Fault, before: seq<Written>, depth: nat, inDocument: bool)
    requires f.Misplaced? && FaultFits(f, before, depth, inDocument) && depth < 100
    ensures TakeList(o, FaultText(f), depth, inDocument, ListSaid(o, before))
         == ListResult(ListSaid(o, before), Failed(ErrorParsingDeclaration))
  {
    hide TakeNode, NodeSaid, Find, IsBlank;
    var w := Marked(f.lead, KDeclaration, f.span);
    MarkedIsRead(o, w, f.rest, depth);
    DeclarationSaid(o, w);
    if before != [] {
      DeclarationSaid(o, before[|before| - 1]);
    }
  }

  lemma {:induction false} FaultIsMet(o: Options, f: Fault, before: seq<Written>, depth: nat, inDocument: bool)
    requires FaultFits(f, before, depth, inDocument) && !f.Misplaced?
    ensures TakeNode(o, FaultText(f), depth) == Some(Bad(FaultError(f)))
    decreases f, 0
  {
    hide TakeNode, TagText, PartText, ListText, ListFits, AllLevels, TagFits, AttributeFits, IsBlank, TakeAttributes;
    match f {
      case Inside(lead, tag, inner, fault) =>
        ListBreaks(o, inner, fault, depth + 1, false);
        NotNothing(inner, FaultText(fault));
        OpenEnds(o, lead, tag, ListText(inner, FaultText(fault)), depth,
          ListResult(ListSaid(o, inner), Failed(FaultError(fault))));
      case TooDeep(lead, tag, rest) => TooDeepIsMet(o, lead, tag, rest);
      case CutOff(lead, tag) => CutOffIsMet(o, lead, tag, depth);
      case Unclosed(_, _, _, _) => UnclosedIsMet(o, f, depth);
      case Mismatched(lead, tag, children, inner, closing, rest) =>
        ClosedIsMet(o, lead, tag, children, inner, closing, rest, depth);
      case Unended(lead, kind, rest) => UnendedIsMet(o, lead, kind, rest, depth);
      case UnendedText(span) => TextIsMet(o, span, false, depth);
      case TextAtEnd(span) => TextIsMet(o, span, true, depth);
      case NoName(_, _, _, _) => NoNameFails(o, f, depth);
      case BadAttribute(_, _, _, _) => BadAttributeFails(o, f, depth);
      case Repeated(_, _, _, _, _) => RepeatedFails(o, f, depth);
      case BadEnd(_, _, _, _) => BadEndFails(o, f, depth);
    }
  }

  lemma NoNameFails(o: Options, f: Fault, depth: nat)
    requires f.NoName? && FaultFits(f, [], depth, false)
    ensures TakeNode(o, FaultText(f), depth) == Some(Bad(ErrorParsing))
  {
    hide TakeNode, TakeTag;
    var s := f.gap + ((if f.slash then "/" else "") + f.rest);
    assert f.gap != "" ==> s[0] == f.gap[0];
    assert f.gap == "" ==> s == (if f.slash then "/" else "") + f.rest;
    NoNameIsMet(o, f.gap, f.slash, f.rest);
    TagFails(o, f.lead, s, depth);
  }

  lemma BadAttributeFails(o: Options, f: Fault, depth: nat)
    requires f.BadAttribute? && FaultFits(f, [], depth, false)
    ensures TakeNode(o, FaultText(f), depth) == Some(Bad(ErrorParsingAttribute))
  {
    hide TakeNode, TakeTag, PartText, IsBlank, SetOff, TakeAttributes, NoAttribute, AttributeFits;
    EndIsBlank(f.tag);
    BadAttributeIsMet(o, f.tag.end, f.rest, AttributesSaid(o, f.tag.attributes));
    TagReaches(o, f.tag, f.slash, f.rest, ErrorParsingAttribute);
    TagPartBegins(f.tag, f.slash, f.rest);
    TagFails(o, f.lead, PartText(f.tag, f.slash, f.rest), depth);
  }

  lemma EndIsBlank(t: WrittenTag)
    requires TagFits(t)
    ensures IsBlank(t.end)
  {
  }

  lemma RepeatedFails(o: Options, f: Fault, depth: nat)
    requires f.Repeated? && FaultFits(f, [], depth, false)
    ensures TakeNode(o, FaultText(f), depth) == Some(Bad(ErrorParsingAttribute))
  {
    hide TakeNode, TakeTag, PartText, IsBlank, TakeAttributes, AttributeFits, AttributeText;
    var s := AttributeText(f.again, f.rest);
    RepeatedIsMet(o, f.again, f.rest, f.tag.attributes);
    TagReaches(o, f.tag, f.slash, s, ErrorParsingAttribute);
    TagPartBegins(f.tag, f.slash, s);
    TagFails(o, f.lead, PartText(f.tag, f.slash, s), depth);
  }

  lemma BadEndFails(o: Options, f: Fault, depth: nat)
    requires f.BadEnd? && FaultFits(f, [], depth, false)
    ensures TakeNode(o, FaultText(f), depth) == Some(Bad(ErrorParsingElement))
  {
    hide TakeNode, TakeTag, PartText, IsBlank, SetOff, TakeAttributes, AttributeFits;
    EndIsBlank(f.tag);
    BadEndIsMet(o, f.tag.end, f.rest, AttributesSaid(o, f.tag.attributes));
    TagReaches(o, f.tag, f.slash, f.rest, ErrorParsingElement);
    TagPartBegins(f.tag, f.slash, f.rest);
    TagFails(o, f.lead, PartText(f.tag, f.slash, f.rest), depth);
  }

  lemma FaultWritten(f: Fault, before: seq<Written>, depth: nat, inDocument: bool)
    requires FaultFits(f, before, depth, inDocument)
    ensures FaultText(f) != ""
  {
    hide TagText, PartText, ListText, ListFits, AllLevels, TagFits, AttributeFits, IsBlank, NoAttribute, Find;
    if f.UnendedText? {
      NothingIsBlank();
    } else if f.Unended? {
      MarksAre(f.kind);
    }
  }

  /** A list is read up to its fault, and fails with its error. */
  lemma {:induction false} ListBreaks(o: Options, before: seq<Written>, f: Fault, depth: nat, inDocument: bool)
    requires ListFits(before) && depth + AllLevels(before) < 100 && TailFits(before, FaultText(f))
    requires if inDocument then DeclaredFirst(before) else NoneDeclared(before)
    requires FaultFits(f, before, depth, inDocument)
    ensures FaultText(f) != ""
    ensures TakeList(o, ListText(before, FaultText(f)), depth, inDocument, [])
         == ListResult(ListSaid(o, before), Failed(FaultError(f)))
    decreases f, 1
  {
    hide TakeNode, TakeList, FaultText, ListText, ListFits, AllLevels, TailFits, FaultFits, IsDeclared;
    FaultWritten(f, before, depth, inDocument);
    ListIsRead(o, before, FaultText(f), depth, inDocument, []);
    assert [] + before == before && ListSaid(o, []) == [];
    if f.Misplaced? {
      MisplacedStops(o, f, before, depth, inDocument);
    } else {
      FaultIsMet(o, f, before, depth, inDocument);
      BadStops(o, FaultText(f), depth, inDocument, ListSaid(o, before), FaultError(f));
    }
  }

  /** A file with a fault: its nodes up to there, and the fault. */
  datatype Faulty = Faulty(lead: string, bom: bool, before: seq<Written>, fault: Fault)

  function FaultyText(f: Faulty): string {
    f.lead
    + ((if f.bom then [0xEF as char, 0xBB as char, 0xBF as char] else "") + ListText(f.before, FaultText(f.fault)))
  }

  /** Without a byte order mark the file begins right after the leading white space. */
  ghost predicate FaultyFits(f: Faulty) {
    && IsBlank(f.lead) && ListFits(f.before) && DeclaredFirst(f.before) && AllLevels(f.before) < 99
    && TailFits(f.before, FaultText(f.fault)) && FaultFits(f.fault, f.before, 1, true)
    && (!f.bom ==>
          var s := ListText(f.before, FaultText(f.fault));
          s != "" && !IsWhiteSpace(s[0]) && !([0xEF as char, 0xBB as char, 0xBF as char] <= s))
  }

  lemma SkipToList(f: Faulty)
    requires IsBlank(f.lead)
    requires !f.bom ==> var s := ListText(f.before, FaultText(f.fault)); s != "" && !IsWhiteSpace(s[0])
    ensures XmlText.SkipWhiteSpace(FaultyText(f))
         == (if f.bom then BOM else "") + ListText(f.before, FaultText(f.fault))
    ensures FaultyText(f) != ""
  {
    hide XmlText.SkipWhiteSpace, IsBlank, ListText, FaultText;
    var s := (if f.bom then BOM else "") + ListText(f.before, FaultText(f.fault));
    BlankIsSkipped(f.lead, s);
    NothingToSkip(s);
  }

  /** Every file with a fault is refused with the error of the fault, after the nodes before it. */
  lemma FaultyIsRefused(o: Options, f: Faulty)
    requires FaultyFits(f)
    ensures Parse(o, FaultyText(f)) == Error(FaultError(f.fault), ListSaid(o, f.before))
  {
    hide TakeList, XmlText.SkipWhiteSpace, ListText, ListFits, FaultFits, FaultText, IsBlank, FaultyText, AllLevels;
    hide TailFits, DeclaredFirst;
    SkipToList(f);
    ListBreaks(o, f.before, f.fault, 1, true);
    NotNothing(f.before, FaultText(f.fault));
    var s := ListText(f.before, FaultText(f.fault));
    assert f.bom ==> (BOM + s)[3..] == s;
    assert "" + s == s;
  }

  // ---------- every file that is refused has a fault ----------

  /** A fault in one tag or leaf, which is one in any list. */
  predicate IsLocal(f: Fault) {
    || f.Unended? || f.UnendedText? || f.TextAtEnd? || f.CutOff?
    || f.NoName? || f.BadAttribute? || f.Repeated? || f.BadEnd?
  }

  lemma LocalFits(f: Fault, before: seq<Written>, depth: nat, inDocument: bool)
    requires IsLocal(f) && FaultFits(f, [], 1, true)
    ensures FaultFits(f, before, depth, inDocument) && !f.Misplaced?
  {
    hide IsBlank, AttributeFits, TagFits, NoAttribute, AttributeText, SetOff, Find;
  }

  /** Where attributes stop: what was read of them, the white space after it, and the rest. */
  lemma {:induction false} AttributesStop(o: Options, s: string, seen: seq<Attribute>)
      returns (attributes: seq<WrittenAttribute>, end: string, rest: string)
    requires TakeAttributes(o, s, seen).BadAttributes?
    ensures s == AttributesText(attributes, end + rest) && AllFit(attributes) && NoneSeen(seen, attributes)
    ensures IsBlank(end)
    ensures rest != "" ==> !IsWhiteSpace(rest[0])
    ensures TakeAttributes(o, rest, seen + AttributesSaid(o, attributes)) == TakeAttributes(o, s, seen)
    ensures var all := seen + AttributesSaid(o, attributes);
      NotName(rest) || TakeAttribute(o, rest).None? || HasAttribute(all, TakeAttribute(o, rest).value.0.name)
    ensures attributes != [] && (s == "" || !IsNameStartChar(s[0])) ==> attributes[0].gap != ""
    decreases |s|
  {
    hide TakeAttribute, XmlText.SkipWhiteSpace, HasAttribute, IsBlank, AttributeText, AttributeFits, TakeTagEnd;
    hide AttributeSaid;
    var t := XmlText.SkipWhiteSpace(s);
    BlankBefore(s);
    var gap := s[..|s| - |t|];
    if !NotName(t) && TakeAttribute(o, t).Some? && !HasAttribute(seen, TakeAttribute(o, t).value.0.name) {
      var (b, after) := TakeAttribute(o, t).value;
      var a := AttributeIsWritten(o, gap, t);
      var more;
      NameSaid(o, a);
      AttributeIsRead(o, a, after);
      assert AttributeSaid(o, a) == b;
      more, end, rest := AttributesStop(o, after, seen + [b]);
      attributes := [a] + more;
      assert attributes[1..] == more;
      assert seen + [b] + AttributesSaid(o, more) == seen + AttributesSaid(o, attributes);
      OneMoreFits(a, more, seen, b);
      GapNeeded(s, gap, t);
    } else {
      attributes, end, rest := [], gap, t;
      assert seen + [] == seen;
      StopsAlike(o, s, seen);
    }
  }

  lemma StopsAlike(o: Options, s: string, seen: seq<Attribute>)
    ensures var t := XmlText.SkipWhiteSpace(s); TakeAttributes(o, t, seen) == TakeAttributes(o, s, seen)
    ensures var t := XmlText.SkipWhiteSpace(s); t != "" ==> !IsWhiteSpace(t[0])
  {
    hide TakeAttribute, TakeTagEnd, XmlText.SkipWhiteSpace;
    SkipsOnlySpace(s);
    SkipsNothing(XmlText.SkipWhiteSpace(s));
  }

  lemma EndIsBad(o: Options, rest: string, seen: seq<Attribute>)
    requires NotName(rest) && (rest != "" ==> !IsWhiteSpace(rest[0])) && TakeAttributes(o, rest, seen).BadAttributes?
    ensures !(">" <= rest) && !("/>" <= rest) && TakeAttributes(o, rest, seen) == BadAttributes(ErrorParsingElement)
  {
    hide TakeAttribute, XmlText.SkipWhiteSpace;
    SkipsNothing(rest);
  }

  lemma NothingReadable(o: Options, s: string)
    requires TakeAttribute(o, s).None?
    ensures NoAttribute(s)
  {
    hide TakeAttribute, AttributeText, AttributeFits;
    forall a, tail | AttributeFits(a)
      ensures s != AttributeText(a, tail)
    {
      AttributeIsRead(o, a, tail);
    }
  }

  lemma AttributeIsBad(o: Options, s: string, seen: seq<Attribute>)
    requires !NotName(s)
    requires TakeAttribute(o, s).None? || HasAttribute(seen, TakeAttribute(o, s).value.0.name)
    ensures TakeAttributes(o, s, seen) == BadAttributes(ErrorParsingAttribute)
  {
    hide TakeAttribute, XmlText.SkipWhiteSpace, HasAttribute;
    StartIsNoBlank(s[0]);
    NothingToSkip(s);
  }

  lemma SaidBefore(o: Options, attributes: seq<WrittenAttribute>, name: string)
    requires HasAttribute(AttributesSaid(o, attributes), name)
    ensures exists i :: 0 <= i < |attributes| && attributes[i].name == name
  {
    hide AttributeSaid;
    var said := AttributesSaid(o, attributes);
    var i :| 0 <= i < |said| && said[i].name == name;
    NameSaid(o, attributes[i]);
  }

  lemma PartFits(t: WrittenTag, rest: string, s: string)
    requires IsBlank(t.gap) && IsName(t.name) && AllFit(t.attributes) && IsBlank(t.end)
    requires t.attributes != [] ==> t.attributes[0].gap != ""
    requires s == AttributesText(t.attributes, t.end + rest) && (s == "" || !IsNameChar(s[0]))
    ensures TagFits(t) && SetOff(t, rest)
  {
    hide AttributeFits, IsBlank;
    assert "" + rest == rest;
  }

  lemma BadEndIsOne(lead: string, slash: bool, tag: WrittenTag, rest: string)
    requires IsBlank(lead) && TagFits(tag) && SetOff(tag, rest) && NotName(rest)
    requires (rest != "" ==> !IsWhiteSpace(rest[0])) && !(">" <= rest) && !("/>" <= rest)
    ensures var f := BadEnd(lead, slash, tag, rest);
      FaultFits(f, [], 1, true) && FaultText(f) == lead + ("<" + PartText(tag, slash, rest))
    ensures FaultError(BadEnd(lead, slash, tag, rest)) == ErrorParsingElement
  {
    hide IsBlank, AttributeFits, TagFits, NoAttribute, AttributeText, SetOff, PartText;
  }

  lemma BadAttributeIsOne(lead: string, slash: bool, tag: WrittenTag, rest: string)
    requires IsBlank(lead) && TagFits(tag) && SetOff(tag, rest) && !NotName(rest) && NoAttribute(rest)
    ensures var f := BadAttribute(lead, slash, tag, rest);
      FaultFits(f, [], 1, true) && FaultText(f) == lead + ("<" + PartText(tag, slash, rest))
    ensures FaultError(BadAttribute(lead, slash, tag, rest)) == ErrorParsingAttribute
  {
    hide IsBlank, AttributeFits, TagFits, NoAttribute, AttributeText, SetOff, PartText;
  }

  lemma RepeatedIsOne(lead: string, slash: bool, tag: WrittenTag, again: WrittenAttribute, rest: string)
    requires IsBlank(lead) && TagFits(tag) && AttributeFits(again) && again.gap == tag.end
    requires exists i :: 0 <= i < |tag.attributes| && tag.attributes[i].name == again.name
    ensures var f := Repeated(lead, slash, tag, again, rest);
      FaultFits(f, [], 1, true) && FaultText(f) == lead + ("<" + PartText(tag, slash, AttributeText(again, rest)))
    ensures FaultError(Repeated(lead, slash, tag, again, rest)) == ErrorParsingAttribute
  {
    hide IsBlank, AttributeFits, TagFits, NoAttribute, AttributeText, SetOff, PartText;
  }

  /** A fault after the readable part `tag`: at the end of the tag, or in an attribute. */
  lemma RestIsFaulty(o: Options, lead: string, slash: bool, tag: WrittenTag, rest: string) returns (f: Fault)
    requires IsBlank(lead) && TagFits(tag) && SetOff(tag, rest) && (rest != "" ==> !IsWhiteSpace(rest[0]))
    requires var said := AttributesSaid(o, tag.attributes);
      && TakeAttributes(o, rest, said).BadAttributes?
      && (NotName(rest) || TakeAttribute(o, rest).None? || HasAttribute(said, TakeAttribute(o, rest).value.0.name))
    ensures IsLocal(f) && FaultFits(f, [], 1, true) && FaultText(f) == lead + ("<" + PartText(tag, slash, rest))
    ensures TakeAttributes(o, rest, AttributesSaid(o, tag.attributes)) == BadAttributes(FaultError(f))
  {
    hide TakeAttributes, AttributeFits, AttributeText, IsBlank, NoAttribute, TakeAttribute, HasAttribute, PartText;
    hide SetOff;
    hide FaultFits, FaultText, FaultError, TagFits, AttributesSaid;
    var said := AttributesSaid(o, tag.attributes);
    if NotName(rest) {
      EndIsBad(o, rest, said);
      BadEndIsOne(lead, slash, tag, rest);
      f := BadEnd(lead, slash, tag, rest);
    } else {
      AttributeIsBad(o, rest, said);
      if TakeAttribute(o, rest).None? {
        NothingReadable(o, rest);
        BadAttributeIsOne(lead, slash, tag, rest);
        f := BadAttribute(lead, slash, tag, rest);
      } else {
        EndIsBlank(tag);
        var again := AttributeIsWritten(o, tag.end, rest);
        SaidBefore(o, tag.attributes, again.name);
        RepeatedIsOne(lead, slash, tag, again, TakeAttribute(o, rest).value.1);
        f := Repeated(lead, slash, tag, again, TakeAttribute(o, rest).value.1);
      }
    }
  }

  /** A fault in the attributes of a tag. */
  lemma AttributesAreFaulty(o: Options, lead: string, slash: bool, gap: string, name: string, s: string)
      returns (f: Fault)
    requires IsBlank(lead) && IsBlank(gap) && IsName(name) && (s == "" || !IsNameChar(s[0]))
    requires TakeAttributes(o, s, []).BadAttributes?
    ensures IsLocal(f) && FaultFits(f, [], 1, true)
    ensures FaultText(f) == lead + ("<" + (gap + ((if slash then "/" else "") + (name + s))))
    ensures TakeAttributes(o, s, []) == BadAttributes(FaultError(f))
  {
    hide TakeAttributes, AttributesText, IsBlank, TakeAttribute, HasAttribute, NoneSeen, AllFit, TagFits, SetOff;
    hide FaultFits, FaultText, FaultError;
    var attributes, end, rest := AttributesStop(o, s, []);
    assert [] + AttributesSaid(o, attributes) == AttributesSaid(o, attributes);
    var tag := WrittenTag(gap, name, attributes, end);
    StartIsName(s);
    PartFits(tag, rest, s);
    f := RestIsFaulty(o, lead, slash, tag, rest);
  }

  /** The white space and the slash before a name. */
  lemma TagParts(o: Options, s: string) returns (gap: string, slash: bool, u: string)
    ensures IsBlank(gap) && s == gap + ((if slash then "/" else "") + u) && TakeTag(o, s) == TakeNamed(o, u, slash)
    ensures !slash && u != "" ==> !IsWhiteSpace(u[0]) && u[0] != '/'
  {
    hide TakeTag, XmlText.SkipWhiteSpace, IsBlank, IsWhiteSpace;
    var t := XmlText.SkipWhiteSpace(s);
    BlankBefore(s);
    StopsAlike(o, s, []);
    gap, slash, u := s[..|s| - |t|], t != [] && t[0] == '/', if t != [] && t[0] == '/' then t[1..] else t;
    SlashApart(t, slash, u);
    NamedAfter(o, s, slash, u);
  }

  lemma NamedAfter(o: Options, s: string, slash: bool, u: string)
    requires var t := XmlText.SkipWhiteSpace(s);
      slash == (t != [] && t[0] == '/') && u == if slash then t[1..] else t
    ensures TakeTag(o, s) == TakeNamed(o, u, slash)
  {
    hide TakeNamed, XmlText.SkipWhiteSpace;
  }

  lemma SlashApart(t: string, slash: bool, u: string)
    requires slash == (t != [] && t[0] == '/') && u == if slash then t[1..] else t
    ensures t == (if slash then "/" else "") + u
  {
  }

  /** A fault in a tag. */
  lemma TagIsFaulty(o: Options, lead: string, s: string) returns (f: Fault)
    requires IsBlank(lead) && TakeTag(o, s).NoTag? && (s != "" ==> s[0] != '?' && s[0] != '!')
    ensures IsLocal(f) && FaultFits(f, [], 1, true)
    ensures FaultText(f) == lead + ("<" + s)
    ensures FaultError(f) == if TakeTag(o, s).error.None? then ErrorParsing else TakeTag(o, s).error.value
  {
    hide TakeName, TakeAttributes, TakeTag, IsBlank, FaultFits, FaultText, FaultError, IsWhiteSpace;
    var gap, slash, u := TagParts(o, s);
    if TakeName(u).None? {
      NoNameThere(u);
      FirstOfName(gap, slash, u);
      f := NoName(lead, gap, slash, u);
      NoNameIsOne(lead, gap, slash, u);
    } else {
      var (name, s1) := TakeName(u).value;
      NameIsWritten(u);
      f := AttributesAreFaulty(o, lead, slash, gap, name, s1);
    }
  }

  lemma FirstOfName(gap: string, slash: bool, u: string)
    ensures !slash && gap == "" && u != "" ==> (gap + ((if slash then "/" else "") + u))[0] == u[0]
  {
  }

  lemma NoNameIsOne(lead: string, gap: string, slash: bool, rest: string)
    requires IsBlank(lead) && IsBlank(gap) && NotName(rest)
    requires !slash && rest != "" ==> !IsWhiteSpace(rest[0]) && rest[0] != '/'
    requires !slash && gap == "" && rest != "" ==> rest[0] != '?' && rest[0] != '!'
    ensures var f := NoName(lead, gap, slash, rest);
      && FaultFits(f, [], 1, true) && FaultError(f) == ErrorParsing
      && FaultText(f) == lead + ("<" + (gap + ((if slash then "/" else "") + rest)))
  {
    hide IsBlank;
  }

  lemma NoNameThere(s: string)
    requires TakeName(s).None?
    ensures NotName(s)
  {
  }

  /** A fault in a node without children. */
  lemma LeafIsFaulty(o: Options, s: string, k: Kind, rest: string) returns (f: Fault)
    requires Identify(s) == Some((k, rest)) && k != KElement && TakeLeaf(o, k, rest).Bad?
    ensures IsLocal(f) && FaultFits(f, [], 1, true)
    ensures FaultText(f) == s && FaultError(f) == TakeLeaf(o, k, rest).error
  {
    hide TakeSpan, Value, Find, KindOf, XmlText.SkipWhiteSpace, IsBlank;
    if TakeSpan(rest, LeafTag(k)).None? {
      NotTakenIsNotFound(rest, LeafTag(k));
    }
    if k == KText {
      TextIsIt(s, rest);
      if TakeSpan(rest, "<").None? {
        XmlReprint.NotFoundIsLacking(s, '<');
        f := UnendedText(s);
      } else {
        SpanIsWritten(rest, "<");
        var span := TakeSpan(rest, "<").value.0;
        XmlReprint.NotFoundIsLacking(span, '<');
        TextIsThere(s, span, "");
        f := TextAtEnd(span);
      }
    } else {
      var lead := HeaderIsWritten(s, k, rest);
      MarksAre(k);
      if k == KUnknown {
        UnknownGoesOn(rest);
      }
      f := Unended(lead, k, rest);
    }
  }

  lemma TextIsIt(s: string, rest: string)
    requires Identify(s) == Some((KText, rest))
    ensures rest == s && XmlText.SkipWhiteSpace(s) != ""
  {
    hide KindOf, XmlText.SkipWhiteSpace;
  }

  lemma NotTakenIsNotFound(s: string, tag: string)
    requires tag != [] && TakeSpan(s, tag).None?
    ensures Find(s, tag).None?
  {
    hide Find;
  }

  lemma UnknownGoesOn(rest: string)
    requires KindOf("<!" + rest) == KUnknown
    ensures !("--" <= rest) && !("[CDATA[" <= rest)
  {
    PrefixCancels("<!", "--", rest);
    PrefixCancels("<!", "[CDATA[", rest);
    assert "<!" + "--" == "<!--" && "<!" + "[CDATA[" == "<![CDATA[";
  }

  // ---------- nodes and lists that fail ----------

  lemma {:induction false} NodeIsFaulty(o: Options, s: string, before: seq<Written>, depth: nat, inDocument: bool)
      returns (f: Fault)
    requires depth < 100 && TakeNode(o, s, depth).Some? && TakeNode(o, s, depth).value.Bad?
    ensures FaultFits(f, before, depth, inDocument) && FaultText(f) == s
    ensures TakeNode(o, s, depth) == Some(Bad(FaultError(f)))
    decreases |s|, 1
  {
    hide TakeTag, Identify, TakeLeaf, TakeLevel, FaultFits, FaultText, FaultError, CheckElement, ElementDeep, TakeList;
    var (k, rest) := Identify(s).value;
    if k == KElement {
      f := ElementIsFaulty(o, s, rest, before, depth, inDocument);
    } else {
      f := LeafIsFaulty(o, s, k, rest);
      LocalFits(f, before, depth, inDocument);
    }
  }

  /** How an element fails: in its tag, at its very end, or in its list. */
  lemma RefusedHow(o: Options, s: string, depth: nat)
    requires CheckElement(ElementDeep(o, s, depth)).Bad?
    ensures var t, e := TakeTag(o, s), CheckElement(ElementDeep(o, s, depth)).error;
      && (t.NoTag? ==> e == if t.error.None? then ErrorParsing else t.error.value)
      && (t.Tag? ==> t.closing == OPEN)
      && (t.Tag? && t.rest == "" ==> e == ErrorMismatchedElement)
      && (t.Tag? && t.rest != "" ==>
            var stop := TakeLevel(o, t.rest, depth, false).stop;
            && (stop.EndOfText? ==> e == ErrorParsing)
            && (stop.Failed? ==> e == stop.error)
            && (stop.Closed? ==> stop.name != t.name && e == ErrorMismatchedElement))
  {
    hide TakeTag, TakeLevel;
  }

  lemma ElementIsThere(s: string, rest: string) returns (lead: string)
    requires Identify(s) == Some((KElement, rest))
    ensures IsBlank(lead) && s == lead + ("<" + rest) && (rest != "" ==> rest[0] != '?' && rest[0] != '!')
  {
    hide XmlText.SkipWhiteSpace, IsBlank, Identify, KindOf;
    lead := HeaderIsWritten(s, KElement, rest);
    NoOtherHeader(rest);
  }

  lemma NoOtherHeader(rest: string)
    requires KindOf("<" + rest) == KElement
    ensures rest != "" ==> rest[0] != '?' && rest[0] != '!'
  {
    var s := "<" + rest;
    assert rest != "" ==> s[1] == rest[0] && s[..2] == ['<', rest[0]];
  }

  lemma {:induction false} ElementIsFaulty(o: Options, s: string, rest: string, before: seq<Written>, depth: nat,
          inDocument: bool)
    returns (f: Fault)
    requires depth < 100 && Identify(s) == Some((KElement, rest)) && CheckElement(ElementDeep(o, rest, depth)).Bad?
    ensures FaultFits(f, before, depth, inDocument) && FaultText(f) == s
    ensures CheckElement(ElementDeep(o, rest, depth)) == Bad(FaultError(f))
    decreases |s|, 0
  {
    hide TakeTag, Identify, TakeLevel, TagText, TagFits, IsBlank, ElementDeep, CheckElement, FaultFits, FaultText;
    hide FaultError, TakeList;
    RefusedHow(o, rest, depth);
    var lead := ElementIsThere(s, rest);
    var t := TakeTag(o, rest);
    if t.NoTag? {
      f := TagIsFaulty(o, lead, rest);
      LocalFits(f, before, depth, inDocument);
    } else {
      var tag, slash := TagIsWritten(o, rest);
      if t.rest == "" {
        f := CutOff(lead, tag);
        CutOffIsOne(lead, tag);
        LocalFits(f, before, depth, inDocument);
      } else if depth == 99 {
        f := TooDeep(lead, tag, t.rest);
        TooDeepIsOne(o, lead, tag, t.rest, before, inDocument);
      } else {
        LevelOpens(o, t.rest, depth);
        f := LevelIsFaulty(o, lead, tag, t.rest, before, depth, inDocument);
      }
    }
  }

  lemma CutOffIsOne(lead: string, tag: WrittenTag)
    requires IsBlank(lead) && TagFits(tag)
    ensures var f := CutOff(lead, tag);
      && FaultFits(f, [], 1, true) && FaultText(f) == lead + ("<" + TagText(tag, false, false, ""))
      && FaultError(f) == ErrorMismatchedElement
  {
    hide IsBlank, TagFits, TagText;
  }

  lemma TooDeepIsOne(o: Options, lead: string, tag: WrittenTag, rest: string, before: seq<Written>, inDocument: bool)
    requires IsBlank(lead) && TagFits(tag) && rest != ""
    ensures var f := TooDeep(lead, tag, rest);
      && FaultFits(f, before, 99, inDocument) && FaultText(f) == lead + ("<" + TagText(tag, false, false, rest))
      && FaultError(f) == ElementDepthExceeded
    ensures TakeLevel(o, rest, 99, false).stop == Failed(ElementDepthExceeded)
  {
    hide IsBlank, TagFits, TagText, TakeList;
  }

  /** A fault in or after the list of an open tag. */
  lemma {:induction false} LevelIsFaulty(o: Options, lead: string, tag: WrittenTag, s: string, before: seq<Written>,
          depth: nat, inDocument: bool)
    returns (f: Fault)
    requires IsBlank(lead) && TagFits(tag) && s != "" && depth < 99
    requires var stop := TakeList(o, s, depth + 1, false, []).stop; stop.Closed? ==> stop.name != tag.name
    ensures FaultFits(f, before, depth, inDocument) && FaultText(f) == lead + ("<" + TagText(tag, false, false, s))
    ensures var stop := TakeList(o, s, depth + 1, false, []).stop;
      FaultError(f) == match stop case EndOfText => ErrorParsing case Failed(e) => e case _ => ErrorMismatchedElement
    decreases |s|, 3
  {
    hide TagText, TagFits, IsBlank, FaultFits, FaultText, FaultError, TakeList, NoneDeclared;
    var stop := TakeList(o, s, depth + 1, false, []).stop;
    match stop {
      case EndOfText =>
        var ws, blank := ListRunsOut(o, s, depth + 1);
        f := Unclosed(lead, tag, ws, blank);
        UnclosedIsOne(f, before, depth, inDocument);
      case Failed(e) =>
        var ws, fault := ListIsFaulty(o, s, depth + 1, false);
        f := Inside(lead, tag, ws, fault);
        InsideIsOne(f, before, depth, inDocument);
      case Closed(name, after) =>
        var ws, inner, closing := ListIsWritten(o, s, depth + 1);
        f := Mismatched(lead, tag, ws, inner, closing, after);
        MismatchedIsOne(f, before, depth, inDocument);
    }
  }

  lemma UnclosedIsOne(f: Fault, before: seq<Written>, depth: nat, inDocument: bool)
    requires f.Unclosed? && IsBlank(f.lead) && TagFits(f.tag) && ListFits(f.children) && NoneDeclared(f.children)
    requires depth + 1 + AllLevels(f.children) < 100 && IsBlank(f.blank)
    requires if f.children == [] then f.blank != "" else !f.children[|f.children| - 1].Plain?
    ensures FaultFits(f, before, depth, inDocument) && FaultError(f) == ErrorParsing
    ensures FaultText(f) == f.lead + ("<" + TagText(f.tag, false, false, ListText(f.children, f.blank)))
  {
    hide IsBlank, TagFits, TagText, ListFits, NoneDeclared, AllLevels, ListText;
  }

  lemma InsideIsOne(f: Fault, before: seq<Written>, depth: nat, inDocument: bool)
    requires f.Inside? && IsBlank(f.lead) && TagFits(f.tag) && ListFits(f.before) && NoneDeclared(f.before)
    requires depth + 1 + AllLevels(f.before) < 100 && TailFits(f.before, FaultText(f.fault))
    requires FaultFits(f.fault, f.before, depth + 1, false)
    ensures FaultFits(f, before, depth, inDocument) && FaultError(f) == FaultError(f.fault)
    ensures FaultText(f) == f.lead + ("<" + TagText(f.tag, false, false, ListText(f.before, FaultText(f.fault))))
  {
    hide IsBlank, TagFits, TagText, ListFits, NoneDeclared, AllLevels, ListText, TailFits;
  }

  lemma MismatchedIsOne(f: Fault, before: seq<Written>, depth: nat, inDocument: bool)
    requires f.Mismatched? && IsBlank(f.lead) && TagFits(f.tag) && ListFits(f.children)
    requires NoneDeclared(f.children)
    requires depth + 1 + AllLevels(f.children) < 100 && IsBlank(f.inner) && TagFits(f.closing)
    requires f.closing.name != f.tag.name
    requires f.children != [] && f.children[|f.children| - 1].Plain? ==> f.inner == ""
    ensures FaultFits(f, before, depth, inDocument) && FaultError(f) == ErrorMismatchedElement
    ensures FaultText(f) == f.lead + ("<" + TagText(f.tag, false, false,
      ListText(f.children, f.inner + ("<" + TagText(f.closing, true, false, f.rest)))))
  {
    hide IsBlank, TagFits, TagText, ListFits, AllLevels, ListText, NoneDeclared;
  }

  lemma NothingAfter(o: Options, s: string, depth: nat, inDocument: bool, before: seq<Node>)
    requires StopsHere(o, s, depth, inDocument, before) && TakeList(o, s, depth, inDocument, before).stop.EndOfText?
    ensures TakeNode(o, s, depth).None?
  {
    hide TakeNode, WellLocated;
  }

  lemma {:induction false} ListRunsOut(o: Options, s: string, depth: nat) returns (ws: seq<Written>, blank: string)
    requires depth < 100 && s != "" && TakeList(o, s, depth, false, []).stop.EndOfText?
    ensures s == ListText(ws, blank) && ListFits(ws) && NoneDeclared(ws) && depth + AllLevels(ws) < 100
    ensures IsBlank(blank)
    ensures if ws == [] then blank != "" else !ws[|ws| - 1].Plain?
  {
    hide TakeNode, TakeList, IsBlank, ListFits, AllLevels, SameKinds, StopsHere, NoneDeclared;
    var nodes;
    NothingReadYet(false);
    ws, blank, nodes := ListReaches(o, s, depth, false, [], []);
    assert [] + ws == ws;
    NothingAfter(o, blank, depth, false, nodes);
    BlankIsNothing(o, blank, depth);
  }

  lemma BlankIsNothing(o: Options, s: string, depth: nat)
    requires TakeNode(o, s, depth).None?
    ensures IsBlank(s) && !StartsTag(s)
  {
    hide XmlText.SkipWhiteSpace, IsBlank;
    BlankBefore(s);
    assert s[..|s|] == s;
    if StartsTag(s) {
      NothingToSkip(s);
    }
  }

  /** Where a list that fails stops. */
  lemma StopsBadly(o: Options, s: string, depth: nat, inDocument: bool, before: seq<Node>)
    requires StopsHere(o, s, depth, inDocument, before) && TakeList(o, s, depth, inDocument, before).stop.Failed?
    ensures var t, stop := TakeNode(o, s, depth), TakeList(o, s, depth, inDocument, before).stop;
      && t.Some? && !t.value.ClosingTag?
      && (t.value.Bad? ==> stop.error == t.value.error)
      && (t.value.Parsed? ==>
            t.value.node.Declaration? && !WellLocated(inDocument, before) && stop.error == ErrorParsingDeclaration)
  {
    hide TakeNode, WellLocated;
  }

  lemma {:induction false} ListIsFaulty(o: Options, s: string, depth: nat, inDocument: bool)
      returns (ws: seq<Written>, f: Fault)
    requires depth < 100 && TakeList(o, s, depth, inDocument, []).stop.Failed?
    ensures s == ListText(ws, FaultText(f)) && ListFits(ws) && DeclaredWell(ws, inDocument)
    ensures depth + AllLevels(ws) < 100 && TailFits(ws, FaultText(f)) && FaultFits(f, ws, depth, inDocument)
    ensures TakeList(o, s, depth, inDocument, []).stop == Failed(FaultError(f))
    decreases |s|, 2
  {
    hide TakeNode, TakeList, IsBlank, ListFits, AllLevels, SameKinds, StopsHere, DeclaredWell, FaultFits, FaultText;
    hide FaultError, WellLocated, TailFits;
    var rest, nodes;
    NothingReadYet(inDocument);
    ws, rest, nodes := ListReaches(o, s, depth, inDocument, [], []);
    assert [] + ws == ws;
    StopsBadly(o, rest, depth, inDocument, nodes);
    if TakeNode(o, rest, depth).value.Bad? {
      f := NodeIsFaulty(o, rest, ws, depth, inDocument);
    } else {
      f := MisplacedIsWritten(o, rest, ws, nodes, depth, inDocument);
    }
  }

  lemma MisplacedIsWritten(o: Options, s: string, ws: seq<Written>, nodes: seq<Node>, depth: nat, inDocument: bool)
      returns (f: Fault)
    requires depth < 100 && TakeNode(o, s, depth).Some? && TakeNode(o, s, depth).value.Parsed?
    requires TakeNode(o, s, depth).value.node.Declaration? && !WellLocated(inDocument, nodes)
    requires SameKinds(ws, nodes) && DeclaredWell(ws, inDocument)
    ensures FaultText(f) == s && FaultFits(f, ws, depth, inDocument) && FaultError(f) == ErrorParsingDeclaration
  {
    hide TakeNode, Find, IsBlank;
    var w := NodeIsWritten(o, s, depth);
    f := Misplaced(w.lead, w.span, TakeNode(o, s, depth).value.rest);
    if inDocument {
      DeclaredToTheFront(ws);
    }
  }

  lemma DeclaredToTheFront(ws: seq<Written>)
    requires DeclaredFirst(ws)
    ensures ws != [] && IsDeclared(ws[|ws| - 1]) ==> IsDeclared(ws[0])
  {
  }

  /** A file with nothing in it but white space and perhaps the byte order mark. */
  predicate IsEmpty(text: string) {
    var s := XmlText.SkipWhiteSpace(text);
    s == "" || s == [0xEF as char, 0xBB as char, 0xBF as char]
  }

  lemma EmptyIsRefused(o: Options, lead: string)
    requires IsBlank(lead)
    ensures IsEmpty(lead) && Parse(o, lead) == Error(ErrorEmptyDocument, [])
    ensures var text := lead + [0xEF as char, 0xBB as char, 0xBF as char];
      IsEmpty(text) && Parse(o, text) == Error(ErrorEmptyDocument, [])
  {
    hide XmlText.SkipWhiteSpace, TakeLevel;
    BlankIsDropped(lead);
    BlankIsSkipped(lead, BOM);
    NothingToSkip(BOM);
  }

  /** A parse that fails: where its list begins. */
  lemma RefusedFrom(o: Options, text: string)
    requires Parse(o, text).Error?
    ensures var u := XmlText.SkipWhiteSpace(text);
      var t := if BOM <= u then u[3..] else u;
      if t == "" then IsEmpty(text) && Parse(o, text) == Error(ErrorEmptyDocument, [])
      else TakeList(o, t, 1, true, []).stop == Failed(Parse(o, text).error)
  {
    hide TakeList, XmlText.SkipWhiteSpace;
    var u := XmlText.SkipWhiteSpace(text);
    assert BOM <= u && u[3..] == "" ==> u == BOM;
  }

  lemma EmptyFrom(o: Options, text: string)
    requires IsEmpty(text)
    ensures Parse(o, text) == Error(ErrorEmptyDocument, [])
  {
    hide TakeLevel, XmlText.SkipWhiteSpace;
  }

  /** Every file that is refused is empty or has a fault. */
  lemma RefusedIsFaulty(o: Options, text: string) returns (f: Faulty)
    requires Parse(o, text).Error? && !IsEmpty(text)
    ensures FaultyFits(f) && FaultyText(f) == text
  {
    hide Parse, TakeList, XmlText.SkipWhiteSpace, ListText, ListFits, AllLevels, TailFits, FaultFits, FaultText;
    hide DeclaredFirst, IsBlank;
    RefusedFrom(o, text);
    BlankBefore(text);
    var u := XmlText.SkipWhiteSpace(text);
    var bom := BOM <= u;
    var t := if bom then u[3..] else u;
    var ws, fault := ListIsFaulty(o, t, 1, true);
    f := Faulty(text[..|text| - |u|], bom, ws, fault);
    assert bom ==> u == BOM + t;
    assert !bom ==> "" + t == t;
    StopsAlike(o, text, []);
  }

  /** Exactly which files are refused, and each one's error, with the nodes before it. */
  lemma RefusedExactlyWhen(o: Options, text: string)
    ensures Parse(o, text).Error? <==> IsEmpty(text) || exists f :: FaultyFits(f) && FaultyText(f) == text
    ensures IsEmpty(text) ==> Parse(o, text) == Error(ErrorEmptyDocument, [])
    ensures forall f :: FaultyFits(f) && FaultyText(f) == text ==>
      Parse(o, text) == Error(FaultError(f.fault), ListSaid(o, f.before))
  {
    hide Parse, FaultyFits, FaultyText, IsEmpty, FaultError;
    forall f | FaultyFits(f) && FaultyText(f) == text
      ensures Parse(o, text) == Error(FaultError(f.fault), ListSaid(o, f.before))
    {
      FaultyIsRefused(o, f);
    }
    if IsEmpty(text) {
      EmptyFrom(o, text);
    } else if Parse(o, text).Error? {
      var f := RefusedIsFaulty(o, text);
    }
  }

  /** The options decide what is read, not whether it is refused, nor with what error. */
  lemma OptionsDoNotDecide(o: Options, p: Options, text: string)
    ensures Parse(o, text).Error? <==> Parse(p, text).Error?
    ensures Parse(o, text).Error? ==> Parse(o, text).error == Parse(p, text).error
  {
    hide Parse, FaultyFits, FaultyText, IsEmpty, FaultError;
    RefusedExactlyWhen(o, text);
    RefusedExactlyWhen(p, text);
  }

  // ---------- an element and its closing tag ----------

  /** A file that is one element, closed by a tag of any name, and then anything. */
  lemma ElementFile(o: Options, tag: WrittenTag, children: seq<Written>, inner: string, closing: WrittenTag,
          rest: string)
    requires TagFits(tag) && ListFits(children) && NoneDeclared(children) && AllLevels(children) < 98
    requires IsBlank(inner) && TagFits(closing) && (children != [] && children[|children| - 1].Plain? ==> inner == "")
    ensures var text := "<" + TagText(tag, false, false,
        ListText(children, inner + ("<" + TagText(closing, true, false, rest))));
      && (closing.name != tag.name ==> Parse(o, text) == Error(ErrorMismatchedElement, []))
      && (closing.name == tag.name && IsBlank(rest) ==>
            Parse(o, text) == Ok(Document(false,
              [Element(tag.name, AttributesSaid(o, tag.attributes), ListSaid(o, children))])))
  {
    hide Parse, TagText, ListText, TagFits, ListFits, AllLevels;
    var text := "<" + TagText(tag, false, false,
      ListText(children, inner + ("<" + TagText(closing, true, false, rest))));
    assert "" + text == text;
    if closing.name != tag.name {
      var f := Mismatched("", tag, children, inner, closing, rest);
      MismatchedIsOne(f, [], 1, true);
      OneIsRefused(o, f, text);
    } else if IsBlank(rest) {
      var w := Open("", tag, children, inner, closing);
      OneFits(w, rest, text);
      FileIsRead(o, File("", false, [w], AtEnd(rest)));
      OpenSaid(o, w);
    }
  }

  lemma OneIsRefused(o: Options, f: Fault, text: string)
    requires FaultFits(f, [], 1, true) && FaultText(f) == text && text != "" && text[0] == '<'
    ensures Parse(o, text) == Error(FaultError(f), [])
  {
    hide Parse, FaultText, FaultFits, FaultError;
    var file := Faulty("", false, [], f);
    assert "" + ("" + text) == text;
    FaultyIsRefused(o, file);
  }

  lemma OneFits(w: Written, blank: string, text: string)
    requires w.Open? && w.lead == "" && NodeFits(w) && Levels(w) < 99 && IsBlank(blank) && NodeText(w, blank) == text
    ensures var f := File("", false, [w], AtEnd(blank)); FileFits(f) && FileText(f) == text
  {
    hide NodeText, NodeFits, IsBlank;
    var ws := [w];
    assert ws[1..] == [] && "" + ("" + text) == text;
    assert ListText(ws, blank) == NodeText(w, ListText([], blank)) && ListText([], blank) == blank;
    assert AllLevels(ws[1..]) == 0 && AllLevels(ws) == Levels(w);
    assert ListFits(ws) && DeclaredFirst(ws);
    NothingBeforeIt();
  }

  lemma NothingBeforeIt()
    ensures IsBlank("")
  {
  }
}
