/** The line of every node and attribute of a file that is read, told by what stands in the file: one more than the line
    feeds before its first significant character (drivers/Mach3/tinyxml2.cpp:656-723, 1002-1100, 1815-1871). */
module XmlLines {
  import opened XmlUtil
  import opened XmlText
  import opened XmlEscape
  import opened XmlTree
  import opened XmlGrammar
  import opened InPlaceDecoder
  import opened LazyTree
  import opened NodeLines
  import opened ErrorLines
  import opened XmlPrint
  import opened XmlRoundTrip
  import opened XmlWords
  import opened XmlSyntax
  import opened XmlErrors
  import opened XmlErrorLines

  /** The line of the place from which `s` is left of the text. */
  function LineBefore(text: string, s: string): nat
    requires |s| <= |text|
  {
    1 + multiset(text[..|text| - |s|])['\n']
  }

  predicate OnLine(text: string, s: string, line: nat) {
    |s| <= |text| && line == LineBefore(text, s)
  }

  /** Each attribute is on the line of its name. */
  predicate AttributesOnLines(text: string, attributes: seq<WrittenAttribute>, tail: string, ns: seq<LazyAttribute>) {
    && |ns| == |attributes|
    && forall i :: 0 <= i < |attributes| ==>
         OnLine(text, AttributeText(attributes[i], AttributesText(attributes[i + 1..], tail)), ns[i].line)
  }

  /** A node is on the line of its `<`, or of the first character of its text, and so is what is inside it. */
  predicate NodeOnLine(text: string, w: Written, tail: string, n: LazyNode)
    decreases w, 0
  {
    match w
    case Sealed(_, slash, tag) =>
      && n.LazyElement? && OnLine(text, "<" + TagText(tag, slash, true, tail), n.line)
      && AttributesOnLines(text, tag.attributes, tag.end + ("/>" + tail), n.attributes)
    case Open(_, tag, children, inner, closing) =>
      var inside := ListText(children, inner + ("<" + TagText(closing, true, false, tail)));
      && n.LazyElement? && OnLine(text, "<" + TagText(tag, false, false, inside), n.line)
      && AttributesOnLines(text, tag.attributes, tag.end + (">" + inside), n.attributes)
      && ListOnLines(text, children, inner + ("<" + TagText(closing, true, false, tail)), n.children)
    case Marked(_, kind, span) => OnLine(text, Opening(kind) + (span + (Closing(kind) + tail)), n.line)
    case Plain(span) => OnLine(text, XmlText.SkipWhiteSpace(span) + tail, n.line)
  }

  predicate ListOnLines(text: string, ws: seq<Written>, tail: string, ns: seq<LazyNode>)
    decreases ws, 1
  {
    |ns| == |ws| && forall i :: 0 <= i < |ws| ==> NodeOnLine(text, ws[i], ListText(ws[i + 1..], tail), ns[i])
  }

  // ---------- places ----------

  lemma LineIs(text: string, s: string)
    requires EndOf(s, text)
    ensures OnLine(text, s, LineAt(text, At(text, s)))
  {
    LineFeedsAre(text[..|text| - |s|]);
  }

  /** The attributes from the i-th on. */
  lemma {:induction false} AttributePlaces(o: Options, text: string, attributes: seq<WrittenAttribute>, tail: string,
          i: nat)
    requires AllFit(attributes) && i <= |attributes| && EndOf(AttributesText(attributes, tail), text)
    ensures EndOf(AttributesText(attributes[i..], tail), text)
    ensures AttributePlace(o, text, At(text, AttributesText(attributes, tail)), i)
         == At(text, AttributesText(attributes[i..], tail))
  {
    hide TakeAttribute, AttributeText, IsBlank, AttributeFits, EndOf, AfterAttribute;
    if i == 0 {
      assert attributes[0..] == attributes;
    } else {
      AttributePlaces(o, text, attributes, tail, i - 1);
      var a, rest := attributes[i - 1], AttributesText(attributes[i..], tail);
      assert attributes[i - 1..][0] == a && attributes[i - 1..][1..] == attributes[i..];
      assert AttributesText(attributes[i - 1..], tail) == a.gap + AttributeText(a, rest);
      AttributeIsPassed(o, text, a, rest);
    }
  }

  lemma AttributeIsPassed(o: Options, text: string, a: WrittenAttribute, rest: string)
    requires AttributeFits(a) && EndOf(a.gap + AttributeText(a, rest), text)
    ensures EndOf(rest, text) && EndOf(AttributeText(a, rest), text)
    ensures AfterAttribute(o, text, At(text, a.gap + AttributeText(a, rest))) == At(text, rest)
    ensures First(text, At(text, a.gap + AttributeText(a, rest))) == At(text, AttributeText(a, rest))
  {
    hide TakeAttribute, AttributeText, XmlText.SkipWhiteSpace, First, AttributeSaid;
    var s := AttributeText(a, rest);
    AttributeIsRead(o, a, rest);
    GapIsBlank(a);
    BlankIsSkipped(a.gap, s);
    NothingToSkip(s);
    FirstFromEnd(text, a.gap + s);
    AttributeLeavesEnd(o, s);
    EndOfEnd(rest, s, text);
  }

  lemma AttributesStand(o: Options, text: string, attributes: seq<WrittenAttribute>, tail: string,
          ns: seq<LazyAttribute>)
    requires AllFit(attributes) && EndOf(AttributesText(attributes, tail), text) && |ns| == |attributes|
    requires AttributesLined(o, text, At(text, AttributesText(attributes, tail)), ns)
    ensures AttributesOnLines(text, attributes, tail, ns)
  {
    hide AttributeText, AttributeFits, EndOf, AttributePlace, First, OnLine, LineAt;
    forall i | 0 <= i < |attributes|
      ensures OnLine(text, AttributeText(attributes[i], AttributesText(attributes[i + 1..], tail)), ns[i].line)
    {
      AttributePlaces(o, text, attributes, tail, i);
      var a, rest := attributes[i], AttributesText(attributes[i + 1..], tail);
      assert attributes[i..][0] == a && attributes[i..][1..] == attributes[i + 1..];
      assert AttributesText(attributes[i..], tail) == a.gap + AttributeText(a, rest);
      AttributeIsPassed(o, text, a, rest);
      assert AttributeLined(o, text, At(text, AttributesText(attributes, tail)), i, ns[i]);
      LineIs(text, AttributeText(a, rest));
    }
  }

  // ---------- tags ----------

  lemma TagIsPart(t: WrittenTag, slash: bool, sealed: bool, tail: string)
    ensures TagText(t, slash, sealed, tail) == PartText(t, slash, (if sealed then "/>" else ">") + tail)
  {
    hide AttributesText;
    var named := NameText(t, sealed, tail);
    assert "" + named == named;
  }

  /** Where the attributes of a tag begin, and where it ends. */
  lemma TagPlaces(o: Options, text: string, t: WrittenTag, slash: bool, sealed: bool, tail: string)
    requires TagFits(t) && EndOf(TagText(t, slash, sealed, tail), text)
    ensures var s, p := AttributesText(t.attributes, t.end + ((if sealed then "/>" else ">") + tail)),
                        At(text, TagText(t, slash, sealed, tail));
      EndOf(s, text) && AfterName(text, NamePlace(text, p)) == At(text, s)
    ensures EndOf(tail, text) && AfterTag(o, text, At(text, TagText(t, slash, sealed, tail))) == At(text, tail)
  {
    hide TakeTag, AttributesText, TagText, PartText, AfterName, NamePlace, TagFits, EndOf, IsBlank;
    var more := (if sealed then "/>" else ">") + tail;
    TagIsPart(t, slash, sealed, tail);
    NameIsFound(text, t, slash, more);
    TagNamed(t);
    AfterTagName(t, sealed, tail);
    AfterNameIs(text, t.name, AttributesText(t.attributes, t.end + more));
    TagIsRead(o, t, slash, sealed, tail);
    TagLeavesEnd(o, TagText(t, slash, sealed, tail));
    TagIsPassed(o, text, TagText(t, slash, sealed, tail), tail);
  }

  lemma TagIsPassed(o: Options, text: string, s: string, rest: string)
    requires EndOf(s, text) && TakeTag(o, s).Tag? && TakeTag(o, s).rest == rest && EndOf(rest, s)
    ensures EndOf(rest, text) && AfterTag(o, text, At(text, s)) == At(text, rest)
  {
    hide TakeTag;
    EndOfEnd(rest, s, text);
  }

  // ---------- nodes ----------

  /** What is left of the text from the first significant character of a node on. */
  function Left(w: Written, tail: string): string {
    match w
    case Sealed(_, slash, tag) => "<" + TagText(tag, slash, true, tail)
    case Open(_, tag, children, inner, closing) =>
      "<" + TagText(tag, false, false, ListText(children, inner + ("<" + TagText(closing, true, false, tail))))
    case Marked(_, kind, span) => Opening(kind) + (span + (Closing(kind) + tail))
    case Plain(span) => XmlText.SkipWhiteSpace(span) + tail
  }

  lemma LeadIsPassed(w: Written, tail: string)
    requires NodeFits(w)
    ensures XmlText.SkipWhiteSpace(NodeText(w, tail)) == Left(w, tail)
  {
    hide TagText, TagFits, ListText, ListFits, NoneDeclared, IsBlank, XmlText.SkipWhiteSpace, Find;
    match w {
      case Plain(span) => SkipsBefore(span, tail);
      case Marked(lead, kind, span) =>
        MarksAre(kind);
        BlankIsSkipped(lead, Left(w, tail));
        NothingToSkip(Left(w, tail));
      case Sealed(lead, _, _) =>
        BlankIsSkipped(lead, Left(w, tail));
        NothingToSkip(Left(w, tail));
      case Open(lead, _, _, _, _) =>
        BlankIsSkipped(lead, Left(w, tail));
        NothingToSkip(Left(w, tail));
    }
  }

  lemma {:induction false} NodeStands(o: Options, text: string, w: Written, tail: string, depth: nat,
          values: seq<string>, n: LazyNode)
    requires NodeFits(w) && depth + Levels(w) < 100 && (w.Plain? ==> StartsTag(tail)) && EndOf(NodeText(w, tail), text)
    requires Lined(o, text, At(text, NodeText(w, tail)), depth, n) && Denotes(values, n, NodeSaid(o, w))
    ensures NodeOnLine(text, w, tail, n)
    decreases w, 0
  {
    hide TagText, TagFits, ListText, ListFits, NoneDeclared, IsBlank, First, LineAt, EndOf, OnLine, NodeText, NodeSaid;
    hide XmlText.SkipWhiteSpace, StartsTag, Find, AllLined, AttributesLined, DenotesAll, DenotesAttributes;
    hide AttributesOnLines, ListOnLines;
    FirstFromEnd(text, NodeText(w, tail));
    LeadIsPassed(w, tail);
    LineIs(text, Left(w, tail));
    ElementsAre(o, values, w, n);
    match w {
      case Sealed(_, slash, tag) => SealedStands(o, text, w, tail, depth, values, n);
      case Open(_, tag, children, inner, closing) => OpenStands(o, text, w, tail, depth, values, n);
      case _ =>
    }
  }

  lemma ElementsAre(o: Options, values: seq<string>, w: Written, n: LazyNode)
    requires Denotes(values, n, NodeSaid(o, w))
    ensures w.Sealed? || w.Open? <==> n.LazyElement?
    ensures w.Sealed? || w.Open? ==> DenotesAttributes(values, n.attributes, AttributesSaid(o, w.tag.attributes))
    ensures w.Open? ==> DenotesAll(values, n.children, ListSaid(o, w.children))
  {
    hide Value;
  }

  /** What a lined element says of its attributes and its children, `x` being what follows its `<`. */
  lemma ElementLined(o: Options, text: string, s: string, x: string, depth: nat, n: LazyNode)
    requires EndOf(s, text) && XmlText.SkipWhiteSpace(s) == "<" + x && n.LazyElement?
    requires Lined(o, text, At(text, s), depth, n)
    ensures EndOf(x, text)
    ensures AttributesLined(o, text, AfterName(text, NamePlace(text, At(text, x))), n.attributes)
    ensures AllLined(o, text, AfterTag(o, text, At(text, x)), depth + 1, n.children)
  {
    hide XmlText.SkipWhiteSpace, First, AttributesLined, AllLined, AfterName, NamePlace, AfterTag, LineAt;
    FirstFromEnd(text, s);
    EndOfTail("<", x, text);
  }

  lemma SealedStands(o: Options, text: string, w: Written, tail: string, depth: nat, values: seq<string>, n: LazyNode)
    requires w.Sealed? && NodeFits(w) && EndOf(NodeText(w, tail), text) && n.LazyElement?
    requires DenotesAttributes(values, n.attributes, AttributesSaid(o, w.tag.attributes))
    requires Lined(o, text, At(text, NodeText(w, tail)), depth, n)
    ensures AttributesOnLines(text, w.tag.attributes, w.tag.end + ("/>" + tail), n.attributes)
  {
    hide TagText, TagFits, IsBlank, NodeText, XmlText.SkipWhiteSpace, AttributesText, EndOf, AttributesLined, AllLined;
    hide AfterName, NamePlace, AfterTag, AttributesOnLines, Lined;
    var x := TagText(w.tag, w.slash, true, tail);
    LeadIsPassed(w, tail);
    ElementLined(o, text, NodeText(w, tail), x, depth, n);
    TagPlaces(o, text, w.tag, w.slash, true, tail);
    TagNames(w.tag);
    AttributesStand(o, text, w.tag.attributes, w.tag.end + ("/>" + tail), n.attributes);
  }

  lemma {:induction false} OpenStands(o: Options, text: string, w: Written, tail: string, depth: nat,
          values: seq<string>, n: LazyNode)
    requires w.Open? && NodeFits(w) && depth + Levels(w) < 100 && EndOf(NodeText(w, tail), text) && n.LazyElement?
    requires DenotesAttributes(values, n.attributes, AttributesSaid(o, w.tag.attributes))
    requires DenotesAll(values, n.children, ListSaid(o, w.children))
    requires Lined(o, text, At(text, NodeText(w, tail)), depth, n)
    ensures var end := w.inner + ("<" + TagText(w.closing, true, false, tail));
      && AttributesOnLines(text, w.tag.attributes, w.tag.end + (">" + ListText(w.children, end)), n.attributes)
      && ListOnLines(text, w.children, end, n.children)
    decreases w.children, 2
  {
    hide TagText, TagFits, IsBlank, NodeText, XmlText.SkipWhiteSpace, AttributesText, EndOf, AttributesLined, AllLined;
    hide AfterName, NamePlace, AfterTag, AttributesOnLines, Lined, ListText, ListFits, AllLevels, TailFits, NodeSaid;
    hide ListOnLines, DenotesAll;
    var end := w.inner + ("<" + TagText(w.closing, true, false, tail));
    var inside := ListText(w.children, end);
    LeadIsPassed(w, tail);
    ElementLined(o, text, NodeText(w, tail), TagText(w.tag, false, false, inside), depth, n);
    TagPlaces(o, text, w.tag, false, false, inside);
    TagNames(w.tag);
    AttributesStand(o, text, w.tag.attributes, w.tag.end + (">" + inside), n.attributes);
    EndOfChildren(w, tail);
    ListStands(o, text, w.children, end, depth + 1, values, n.children);
  }

  // ---------- lists ----------

  lemma {:induction false} SuffixFits(ws: seq<Written>, tail: string, i: nat)
    requires ListFits(ws) && TailFits(ws, tail) && i <= |ws|
    ensures ListFits(ws[i..]) && TailFits(ws[i..], tail) && AllLevels(ws[i..]) <= AllLevels(ws)
    decreases i
  {
    hide ListFits, TailFits, Levels;
    if i == 0 {
      assert ws[0..] == ws;
    } else {
      SuffixFits(ws, tail, i - 1);
      assert ws[i - 1..][1..] == ws[i..];
      ListParts(ws[i - 1..], tail);
    }
  }

  /** The nodes from the i-th on. */
  lemma {:induction false} NodePlaces(o: Options, text: string, ws: seq<Written>, tail: string, depth: nat, i: nat)
    requires ListFits(ws) && TailFits(ws, tail) && depth + AllLevels(ws) < 100 && i <= |ws|
    requires EndOf(ListText(ws, tail), text)
    ensures EndOf(ListText(ws[i..], tail), text)
    ensures NodePlace(o, text, At(text, ListText(ws, tail)), depth, i) == At(text, ListText(ws[i..], tail))
  {
    hide TakeNode, NodeText, NodeFits, ListFits, TailFits, StartsTag, Levels, AllLevels, EndOf, AfterNode;
    if i == 0 {
      assert ws[0..] == ws;
    } else {
      NodePlaces(o, text, ws, tail, depth, i - 1);
      SuffixFits(ws, tail, i - 1);
      var rest := ListText(ws[i..], tail);
      assert ws[i - 1..][0] == ws[i - 1] && ws[i - 1..][1..] == ws[i..];
      assert ListText(ws[i - 1..], tail) == NodeText(ws[i - 1], rest);
      ListParts(ws[i - 1..], tail);
      NodeIsRead(o, ws[i - 1], rest, depth);
      NodeLeavesEnd(o, NodeText(ws[i - 1], rest), depth);
      NodeIsPassed(o, text, NodeText(ws[i - 1], rest), rest, depth);
    }
  }

  lemma NodeIsPassed(o: Options, text: string, s: string, rest: string, depth: nat)
    requires EndOf(s, text) && TakeNode(o, s, depth).Some? && TakeNode(o, s, depth).value.Parsed?
    requires TakeNode(o, s, depth).value.rest == rest && EndOf(rest, s)
    ensures EndOf(rest, text) && AfterNode(o, text, At(text, s), depth) == At(text, rest)
  {
    hide TakeNode;
    EndOfEnd(rest, s, text);
  }

  lemma {:induction false} ListStands(o: Options, text: string, ws: seq<Written>, tail: string, depth: nat,
          values: seq<string>, ns: seq<LazyNode>)
    requires ListFits(ws) && TailFits(ws, tail) && depth + AllLevels(ws) < 100 && EndOf(ListText(ws, tail), text)
    requires AllLined(o, text, At(text, ListText(ws, tail)), depth, ns) && DenotesAll(values, ns, ListSaid(o, ws))
    ensures ListOnLines(text, ws, tail, ns)
    decreases ws, 1
  {
    hide NodeText, NodeSaid, NodeFits, ListFits, TailFits, StartsTag, Levels, AllLevels, EndOf, NodePlace, Lined;
    hide Denotes;
    hide NodeOnLine;
    forall i | 0 <= i < |ws|
      ensures NodeOnLine(text, ws[i], ListText(ws[i + 1..], tail), ns[i])
    {
      NodePlaces(o, text, ws, tail, depth, i);
      SuffixFits(ws, tail, i);
      var rest := ListText(ws[i + 1..], tail);
      assert ws[i..][0] == ws[i] && ws[i..][1..] == ws[i + 1..];
      assert ListText(ws[i..], tail) == NodeText(ws[i], rest);
      ListParts(ws[i..], tail);
      NodeStands(o, text, ws[i], rest, depth, values, ns[i]);
    }
  }

  /** In a file that is read, every node and attribute is on the line where it stands. */
  lemma FileIsLined(o: Options, f: File, values: seq<string>, ns: seq<LazyNode>)
    requires FileFits(f) && DenotesAll(values, ns, FileSaid(o, f).children)
    requires AllLined(o, FileText(f), DocumentPlace(FileText(f)), 1, ns)
    ensures ListOnLines(FileText(f), f.nodes, EndingText(f.ending), ns)
  {
    hide ListText, EndingText, ListFits, EndingFits, BeginsFile, IsBlank, FileText, AllLevels, TailFits, EndOf;
    hide AllLined;
    hide DenotesAll, First, DeclaredFirst;
    var text, end := FileText(f), EndingText(f.ending);
    EndingIsRead(o, f.nodes, f.ending, []);
    BodyPlace(f);
    ListStands(o, text, f.nodes, end, 1, values, ns);
  }

  lemma BodyPlace(f: File)
    requires FileFits(f)
    ensures EndOf(Body(f), FileText(f)) && DocumentPlace(FileText(f)) == At(FileText(f), Body(f))
  {
    hide Body, XmlText.SkipWhiteSpace, First, IsBlank, ListFits, DeclaredFirst, AllLevels, EndingFits, BeginsFile;
    SkipToBody(f);
    BodyIs(f);
    var text := FileText(f);
    assert text[0..] == text;
    var u := if f.bom then BOM + Body(f) else Body(f);
    FirstFromEnd(text, text);
    if f.bom {
      EndOfTail(BOM, Body(f), text);
    }
  }
}
