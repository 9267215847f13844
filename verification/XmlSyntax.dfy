/** The files the parser reads, described by what stands in them: white space wherever it may be, either quote, any tag,
    mark or text. A file in this form parses to what it says, and every file that parses has this form
    (drivers/Mach3/tinyxml2.cpp:193-235, 656-723, 988-1171, 1212-1220, 1261-1269, 1309-1317, 1356-1381, 1815-1925,
    2380-2394). */
module XmlSyntax {
  import opened XmlUtil
  import opened XmlText
  import opened XmlEscape
  import opened XmlTree
  import opened XmlGrammar
  import opened XmlParsed
  import opened XmlPrint
  import opened XmlReprint
  import opened XmlRoundTrip
  import opened XmlSpans
  import opened XmlWords

  // ---------- what stands in a file ----------

  /** An attribute as it is written: the white space before it and on both sides of the equals sign, and its quote. */
  datatype WrittenAttribute =
    WrittenAttribute(gap: string, name: string, before: string, after: string, quote: char, span: string)

  /** A tag from its `<` on: white space, perhaps a slash, the name, the attributes, and white space before its end. */
  datatype WrittenTag = WrittenTag(gap: string, name: string, attributes: seq<WrittenAttribute>, end: string)

  /** A node, with the white space before it. A sealed tag may have a slash in front too; it makes no difference. */
  datatype Written =
    | Sealed(lead: string, slash: bool, tag: WrittenTag)
    | Open(lead: string, tag: WrittenTag, children: seq<Written>, inner: string, closing: WrittenTag)
    | Marked(lead: string, kind: Kind, span: string)
    | Plain(span: string)

  /** After the nodes: white space, or a closing tag that belongs to nothing, and whatever comes after that. */
  datatype Ending = AtEnd(blank: string) | AtStray(lead: string, tag: WrittenTag, rest: string)

  datatype File = File(lead: string, bom: bool, nodes: seq<Written>, ending: Ending)

  /** How the four kinds of marked node begin and end. */
  function Opening(k: Kind): string {
    match k
    case KDeclaration => "<?"
    case KComment => "<!--"
    case KCData => "<![CDATA["
    case KUnknown => "<!"
    case _ => ""
  }

  function Closing(k: Kind): string {
    match k
    case KDeclaration => "?>"
    case KComment => "-->"
    case KCData => "]]>"
    case KUnknown => ">"
    case _ => ""
  }

  // ---------- its text, followed by `tail` ----------

  function AttributeText(a: WrittenAttribute, tail: string): string {
    a.name + (a.before + ("=" + (a.after + ([a.quote] + (a.span + ([a.quote] + tail))))))
  }

  function AttributesText(attributes: seq<WrittenAttribute>, tail: string): string {
    if attributes == [] then tail
    else attributes[0].gap + AttributeText(attributes[0], AttributesText(attributes[1..], tail))
  }

  function NameText(t: WrittenTag, sealed: bool, tail: string): string {
    t.name + AttributesText(t.attributes, t.end + ((if sealed then "/>" else ">") + tail))
  }

  function TagText(t: WrittenTag, slash: bool, sealed: bool, tail: string): string {
    t.gap + (if slash then "/" + NameText(t, sealed, tail) else NameText(t, sealed, tail))
  }

  function NodeText(w: Written, tail: string): string
    decreases w, 0
  {
    match w
    case Sealed(lead, slash, tag) => lead + ("<" + TagText(tag, slash, true, tail))
    case Open(lead, tag, children, inner, closing) =>
      lead + ("<" + TagText(tag, false, false,
        ListText(children, inner + ("<" + TagText(closing, true, false, tail)))))
    case Marked(lead, kind, span) => lead + (Opening(kind) + (span + (Closing(kind) + tail)))
    case Plain(span) => span + tail
  }

  function ListText(ws: seq<Written>, tail: string): string
    decreases ws, 1
  {
    if ws == [] then tail else NodeText(ws[0], ListText(ws[1..], tail))
  }

  function EndingText(e: Ending): string {
    match e
    case AtEnd(blank) => blank
    case AtStray(lead, tag, rest) => lead + ("<" + TagText(tag, true, false, rest))
  }

  function FileText(f: File): string {
    f.lead
    + ((if f.bom then [0xEF as char, 0xBB as char, 0xBF as char] else "") + ListText(f.nodes, EndingText(f.ending)))
  }

  // ---------- what it must be like ----------

  predicate AttributeFits(a: WrittenAttribute) {
    && IsBlank(a.gap) && IsName(a.name) && IsBlank(a.before) && IsBlank(a.after)
    && (a.quote == '\"' || a.quote == '\'') && Lacks(a.span, a.quote)
  }

  /** White space sets the first attribute off from the name; no name comes twice. */
  predicate TagFits(t: WrittenTag) {
    && IsBlank(t.gap) && IsName(t.name) && IsBlank(t.end)
    && (forall i :: 0 <= i < |t.attributes| ==> AttributeFits(t.attributes[i]))
    && (t.attributes != [] ==> t.attributes[0].gap != "")
    && (forall i, j :: 0 <= i < j < |t.attributes| ==> t.attributes[i].name != t.attributes[j].name)
  }

  predicate IsMark(k: Kind) {
    k.KDeclaration? || k.KComment? || k.KCData? || k.KUnknown?
  }

  predicate IsDeclared(w: Written) {
    w.Marked? && w.kind.KDeclaration?
  }

  predicate NoneDeclared(ws: seq<Written>) {
    forall i :: 0 <= i < |ws| ==> !IsDeclared(ws[i])
  }

  /** A node that begins with its `<`. */
  predicate Close(w: Written) {
    !w.Plain? && w.lead == ""
  }

  predicate NodeFits(w: Written)
    decreases w, 0
  {
    match w
    case Sealed(lead, _, tag) => IsBlank(lead) && TagFits(tag)
    case Open(lead, tag, children, inner, closing) =>
      && IsBlank(lead) && TagFits(tag) && ListFits(children) && IsBlank(inner) && TagFits(closing)
      && closing.name == tag.name
      && NoneDeclared(children)
      && (children != [] && children[|children| - 1].Plain? ==> inner == "")
    case Marked(lead, kind, span) =>
      && IsBlank(lead) && IsMark(kind) && Find(span, Closing(kind)).None?
      && (kind.KUnknown? ==> !("--" <= span) && !("[CDATA[" <= span))
    case Plain(span) => Lacks(span, '<') && XmlText.SkipWhiteSpace(span) != ""
  }

  /** Text takes up all the white space around it: what follows it is close to it, and is no text. */
  predicate ListFits(ws: seq<Written>)
    decreases ws, 1
  {
    && (forall i :: 0 <= i < |ws| ==> NodeFits(ws[i]))
    && (forall i :: 0 <= i < |ws| - 1 ==> ws[i].Plain? ==> Close(ws[i + 1]))
  }

  /** How many lists are open inside a node; an open tag opens one even with nothing in it. */
  function Levels(w: Written): nat
    decreases w, 0
  {
    if w.Open? then 1 + AllLevels(w.children) else 0
  }

  function AllLevels(ws: seq<Written>): nat
    decreases ws, 1
  {
    if ws == [] then 0
    else
      var h, t := Levels(ws[0]), AllLevels(ws[1..]);
      if h < t then t else h
  }

  /** Declarations come before everything else. */
  predicate DeclaredFirst(ws: seq<Written>) {
    forall i, j :: 0 <= i < j < |ws| && IsDeclared(ws[j]) ==> IsDeclared(ws[i])
  }

  predicate EndingFits(ws: seq<Written>, e: Ending) {
    match e
    case AtEnd(blank) => IsBlank(blank) && (ws != [] ==> !ws[|ws| - 1].Plain?)
    case AtStray(lead, tag, _) =>
      IsBlank(lead) && TagFits(tag) && (ws != [] && ws[|ws| - 1].Plain? ==> lead == "")
  }

  /** The first thing of a file without a byte order mark comes right after the leading white space; a text there does
      not begin like the mark. */
  predicate BeginsFile(f: File) {
    if f.nodes == [] then f.ending.AtStray? && f.ending.lead == ""
    else if f.nodes[0].Plain? then
      var s := f.nodes[0].span;
      s != "" && !IsWhiteSpace(s[0]) && !([0xEF as char, 0xBB as char, 0xBF as char] <= s)
    else f.nodes[0].lead == ""
  }

  /** Fewer than 99 open tags lie inside one another. */
  predicate FileFits(f: File) {
    && IsBlank(f.lead) && ListFits(f.nodes) && DeclaredFirst(f.nodes) && AllLevels(f.nodes) < 99
    && EndingFits(f.nodes, f.ending)
    && if f.bom then ListText(f.nodes, EndingText(f.ending)) != "" else BeginsFile(f)
  }

  // ---------- what it says ----------

  function AttributeSaid(o: Options, a: WrittenAttribute): Attribute {
    Attribute(a.name, Value(Flags(o.processEntities, true, false), a.span))
  }

  function AttributesSaid(o: Options, attributes: seq<WrittenAttribute>): (r: seq<Attribute>)
    ensures |r| == |attributes|
    ensures forall i :: 0 <= i < |r| ==> r[i] == AttributeSaid(o, attributes[i])
  {
    if attributes == [] then [] else [AttributeSaid(o, attributes[0])] + AttributesSaid(o, attributes[1..])
  }

  function NodeSaid(o: Options, w: Written): Node
    decreases w, 0
  {
    match w
    case Sealed(_, _, tag) => Element(tag.name, AttributesSaid(o, tag.attributes), [])
    case Open(_, tag, children, _, _) => Element(tag.name, AttributesSaid(o, tag.attributes), ListSaid(o, children))
    case Marked(_, kind, span) =>
      var value := Value(Flags(false, true, false), span);
      (match kind
       case KDeclaration => Declaration(value)
       case KComment => Comment(value)
       case KUnknown => Unknown(value)
       case _ => Text(value, true))
    case Plain(span) => Text(Value(Flags(o.processEntities, true, o.collapseWhitespace), span), false)
  }

  function ListSaid(o: Options, ws: seq<Written>): (r: seq<Node>)
    ensures |r| == |ws| && forall i :: 0 <= i < |ws| ==> r[i] == NodeSaid(o, ws[i])
    decreases ws, 1
  {
    if ws == [] then []
    else
      var more := ListSaid(o, ws[1..]);
      assert forall i :: 0 <= i < |more| ==> ws[1..][i] == ws[i + 1];
      [NodeSaid(o, ws[0])] + more
  }

  function FileSaid(o: Options, f: File): Document {
    Document(f.bom, ListSaid(o, f.nodes))
  }

  // ---------- attributes are read as they are written ----------

  lemma MarkAfterBlank(blank: string, c: char, rest: string, marks: string)
    requires IsBlank(blank) && !IsWhiteSpace(c) && c in marks
    ensures TakeMark(blank + ([c] + rest), marks) == Some((c, rest))
  {
    hide XmlText.SkipWhiteSpace;
    BlankIsSkipped(blank, [c] + rest);
    NothingToSkip([c] + rest);
    assert ([c] + rest)[0] == c && ([c] + rest)[1..] == rest;
  }

  /** After any white space on both sides of the equals sign, and in either quote, the value is the span up to the next
      quote of the same kind. */
  lemma ValueIsRead(o: Options, before: string, after: string, quote: char, span: string, tail: string)
    requires IsBlank(before) && IsBlank(after) && (quote == '\"' || quote == '\'') && Lacks(span, quote)
    ensures TakeValue(o, before + ("=" + (after + ([quote] + (span + ([quote] + tail))))))
         == Some((Value(Flags(o.processEntities, true, false), span), tail))
  {
    hide TakeMark, TakeSpan, Value, Find;
    var s3 := span + ([quote] + tail);
    MarkAfterBlank(before, '=', after + ([quote] + s3), "=");
    MarkAfterBlank(after, quote, s3, "\"'");
    LacksIsNotFound(span, quote);
    SpanIsTaken(span, [quote], tail);
    assert span + [quote] + tail == s3;
  }

  lemma AfterNameBlank(blank: string, c: char, rest: string)
    requires IsBlank(blank) && !IsNameChar(c)
    ensures var s := blank + ([c] + rest); s != "" && !IsNameChar(s[0])
  {
    if blank != "" {
      assert (blank + ([c] + rest))[0] == blank[0];
      BlankIsNoName(blank[0]);
    }
  }

  lemma BlankIsNoName(c: char)
    requires IsWhiteSpace(c)
    ensures !IsNameChar(c) && !IsNameStartChar(c) && c !in "/<>?!=\"'"
  {
  }

  lemma AttributeIsRead(o: Options, a: WrittenAttribute, tail: string)
    requires AttributeFits(a)
    ensures var s := AttributeText(a, tail);
      s != "" && IsNameStartChar(s[0]) && !IsWhiteSpace(s[0])
      && TakeAttribute(o, s) == Some((AttributeSaid(o, a), tail))
  {
    hide TakeName, TakeValue, Value, IsBlank;
    var s1 := a.before + ("=" + (a.after + ([a.quote] + (a.span + ([a.quote] + tail)))));
    AfterNameBlank(a.before, '=', a.after + ([a.quote] + (a.span + ([a.quote] + tail))));
    NameIsTaken(a.name, s1);
    ValueIsRead(o, a.before, a.after, a.quote, a.span, tail);
    assert AttributeText(a, tail)[0] == a.name[0];
  }

  /** Its turn in the list of attributes, after any white space. */
  lemma AttributeTurn(o: Options, gap: string, s: string, a: Attribute, rest: string, seen: seq<Attribute>)
    requires IsBlank(gap) && s != "" && IsNameStartChar(s[0]) && !IsWhiteSpace(s[0])
    requires TakeAttribute(o, s) == Some((a, rest))
    ensures TakeAttributes(o, gap + s, seen)
         == if HasAttribute(seen, a.name) then BadAttributes(ErrorParsingAttribute)
            else TakeAttributes(o, rest, seen + [a])
  {
    hide TakeAttribute, HasAttribute, XmlText.SkipWhiteSpace;
    BlankIsSkipped(gap, s);
    NothingToSkip(s);
  }

  /** The end of a tag, after any white space. */
  lemma EndTurn(o: Options, end: string, sealed: bool, tail: string, seen: seq<Attribute>)
    requires IsBlank(end)
    ensures TakeAttributes(o, end + ((if sealed then "/>" else ">") + tail), seen) == GoodAttributes(seen, tail, sealed)
  {
    hide XmlText.SkipWhiteSpace;
    var s := (if sealed then "/>" else ">") + tail;
    BlankIsSkipped(end, s);
    NothingToSkip(s);
    assert s[if sealed then 2 else 1..] == tail;
  }

  predicate AllFit(attributes: seq<WrittenAttribute>) {
    && (forall i :: 0 <= i < |attributes| ==> AttributeFits(attributes[i]))
    && (forall i, j :: 0 <= i < j < |attributes| ==> attributes[i].name != attributes[j].name)
  }

  predicate NoneSeen(seen: seq<Attribute>, attributes: seq<WrittenAttribute>) {
    forall i :: 0 <= i < |attributes| ==> !HasAttribute(seen, attributes[i].name)
  }

  lemma StillNoneSeen(o: Options, seen: seq<Attribute>, attributes: seq<WrittenAttribute>)
    requires attributes != [] && AllFit(attributes) && NoneSeen(seen, attributes)
    ensures AllFit(attributes[1..]) && NoneSeen(seen + [AttributeSaid(o, attributes[0])], attributes[1..])
    ensures !HasAttribute(seen, attributes[0].name) && AttributeFits(attributes[0])
  {
    hide AttributeFits, Value;
  }

  /** Attributes are read one after another, up to what follows them. */
  lemma {:induction false} AttributesReach(o: Options, attributes: seq<WrittenAttribute>, s: string,
          seen: seq<Attribute>)
    requires AllFit(attributes) && NoneSeen(seen, attributes)
    ensures TakeAttributes(o, AttributesText(attributes, s), seen)
         == TakeAttributes(o, s, seen + AttributesSaid(o, attributes))
    decreases |attributes|
  {
    hide TakeAttributes, AttributeText, NoneSeen, AllFit, IsBlank, AttributeSaid, HasAttribute;
    if attributes == [] {
      assert seen + [] == seen;
    } else {
      var a := attributes[0];
      var rest := AttributesText(attributes[1..], s);
      StillNoneSeen(o, seen, attributes);
      GapIsBlank(a);
      AttributeIsRead(o, a, rest);
      AttributeTurn(o, a.gap, AttributeText(a, rest), AttributeSaid(o, a), rest, seen);
      AttributesReach(o, attributes[1..], s, seen + [AttributeSaid(o, a)]);
      assert seen + [AttributeSaid(o, a)] + AttributesSaid(o, attributes[1..]) == seen + AttributesSaid(o, attributes);
      NameSaid(o, a);
    }
  }

  lemma GapIsBlank(a: WrittenAttribute)
    requires AttributeFits(a)
    ensures IsBlank(a.gap)
  {
  }

  lemma NameSaid(o: Options, a: WrittenAttribute)
    ensures AttributeSaid(o, a).name == a.name
  {
  }

  // ---------- tags ----------

  lemma AfterTagName(t: WrittenTag, sealed: bool, tail: string)
    requires TagFits(t)
    ensures var s := AttributesText(t.attributes, t.end + ((if sealed then "/>" else ">") + tail));
      s != "" && !IsNameChar(s[0])
  {
    hide IsBlank;
    if t.attributes == [] {
      var c := if sealed then '/' else '>';
      var rest := if sealed then ">" + tail else tail;
      assert (if sealed then "/>" else ">") + tail == [c] + rest;
      AfterNameBlank(t.end, c, rest);
    } else {
      FirstIsBlank(t.attributes[0].gap);
    }
  }

  lemma FirstIsBlank(gap: string)
    requires IsBlank(gap) && gap != ""
    ensures !IsNameChar(gap[0])
  {
    BlankIsNoName(gap[0]);
  }

  lemma NamedIsRead(o: Options, t: WrittenTag, slash: bool, sealed: bool, tail: string)
    requires TagFits(t)
    ensures TakeNamed(o, NameText(t, sealed, tail), slash)
         == Tag(t.name, AttributesSaid(o, t.attributes),
                if sealed then CLOSED else if slash then CLOSING else OPEN, tail)
  {
    hide TakeName, TakeAttributes, AttributesText, IsBlank, AttributeFits, AllFit, NoneSeen;
    var s1 := AttributesText(t.attributes, t.end + ((if sealed then "/>" else ">") + tail));
    AfterTagName(t, sealed, tail);
    NameIsTaken(t.name, s1);
    TagNames(t);
    var s2 := t.end + ((if sealed then "/>" else ">") + tail);
    AttributesReach(o, t.attributes, s2, []);
    EndTurn(o, t.end, sealed, tail, AttributesSaid(o, t.attributes));
    assert [] + AttributesSaid(o, t.attributes) == AttributesSaid(o, t.attributes);
  }

  lemma TagNames(t: WrittenTag)
    requires TagFits(t)
    ensures AllFit(t.attributes) && NoneSeen([], t.attributes)
  {
    hide AttributeFits;
  }

  /** A tag as it is written, wherever the white space in it is. */
  lemma TagIsRead(o: Options, t: WrittenTag, slash: bool, sealed: bool, tail: string)
    requires TagFits(t)
    ensures TakeTag(o, TagText(t, slash, sealed, tail))
         == Tag(t.name, AttributesSaid(o, t.attributes),
                if sealed then CLOSED else if slash then CLOSING else OPEN, tail)
  {
    hide TakeNamed, XmlText.SkipWhiteSpace, NameText, IsBlank, AttributesText;
    var named := NameText(t, sealed, tail);
    var s := if slash then "/" + named else named;
    NameBegins(t, sealed, tail);
    BlankIsSkipped(t.gap, s);
    NothingToSkip(s);
    assert slash ==> s[1..] == named;
    NamedIsRead(o, t, slash, sealed, tail);
  }

  lemma NameBegins(t: WrittenTag, sealed: bool, tail: string)
    requires TagFits(t)
    ensures var s := NameText(t, sealed, tail); s != "" && !IsWhiteSpace(s[0]) && s[0] !in "/?!<>"
  {
    hide AttributesText, AttributeFits;
    assert NameText(t, sealed, tail)[0] == t.name[0];
  }

  lemma TagBegins(t: WrittenTag, slash: bool, sealed: bool, tail: string)
    requires TagFits(t)
    ensures var s := TagText(t, slash, sealed, tail); s != "" && s[0] != '?' && s[0] != '!'
  {
    hide NameText, AttributeFits;
    NameBegins(t, sealed, tail);
    if t.gap != "" {
      BlankIsNoName(t.gap[0]);
      assert TagText(t, slash, sealed, tail)[0] == t.gap[0];
    } else {
      var s := if slash then "/" + NameText(t, sealed, tail) else NameText(t, sealed, tail);
      assert "" + s == s;
    }
  }

  // ---------- nodes ----------

  /** White space before a tag changes nothing. */
  lemma LeadIsSkipped(lead: string, s: string)
    requires IsBlank(lead) && s != "" && s[0] == '<'
    ensures Identify(lead + s) == Identify(s)
  {
    hide XmlText.SkipWhiteSpace;
    BlankIsSkipped(lead, s);
    NothingToSkip(s);
    NoTextAtTag(s);
  }

  lemma NoTextAtTag(s: string)
    requires s != "" && s[0] == '<'
    ensures KindOf(s) != KText
  {
    assert s[..1] == "<";
  }

  lemma ElementIsFound(lead: string, t: WrittenTag, slash: bool, sealed: bool, tail: string)
    requires IsBlank(lead) && TagFits(t)
    ensures Identify(lead + ("<" + TagText(t, slash, sealed, tail)))
         == Some((KElement, TagText(t, slash, sealed, tail)))
  {
    hide Identify, TagText, TagFits, IsBlank;
    TagBegins(t, slash, sealed, tail);
    ElementIsIdentified(TagText(t, slash, sealed, tail));
    LeadIsSkipped(lead, "<" + TagText(t, slash, sealed, tail));
  }

  lemma NodeIsElement(o: Options, s: string, rest: string, depth: nat)
    requires Identify(s) == Some((KElement, rest))
    ensures TakeNode(o, s, depth) == Some(CheckElement(ElementDeep(o, rest, depth)))
  {
    hide Identify, ElementDeep, CheckElement;
  }

  lemma SealedIsRead(o: Options, w: Written, tail: string, depth: nat)
    requires w.Sealed? && NodeFits(w)
    ensures TakeNode(o, NodeText(w, tail), depth) == Some(Parsed(NodeSaid(o, w), tail))
  {
    hide TakeTag, TagText, TagFits, IsBlank, Identify, TakeLevel;
    TagIsRead(o, w.tag, w.slash, true, tail);
    ElementIsFound(w.lead, w.tag, w.slash, true, tail);
    NodeIsElement(o, NodeText(w, tail), TagText(w.tag, w.slash, true, tail), depth);
  }

  /** A closing tag, wherever the white space in it is, and whatever attributes it has. */
  lemma ClosingIsRead(o: Options, lead: string, t: WrittenTag, tail: string, depth: nat)
    requires IsBlank(lead) && TagFits(t)
    ensures TakeNode(o, lead + ("<" + TagText(t, true, false, tail)), depth) == Some(ClosingTag(t.name, tail))
  {
    hide TakeTag, TagText, TagFits, IsBlank, Identify, TakeLevel;
    TagIsRead(o, t, true, false, tail);
    ElementIsFound(lead, t, true, false, tail);
    NodeIsElement(o, lead + ("<" + TagText(t, true, false, tail)), TagText(t, true, false, tail), depth);
  }

  /** An open tag, and the list after it. */
  lemma OpenIsRead(o: Options, lead: string, t: WrittenTag, inside: string, depth: nat)
    requires IsBlank(lead) && TagFits(t) && inside != ""
    ensures TakeNode(o, lead + ("<" + TagText(t, false, false, inside)), depth)
         == Some(CheckElement(WithChildren(Tag(t.name, AttributesSaid(o, t.attributes), OPEN, inside),
                                           TakeLevel(o, inside, depth, false))))
  {
    hide TakeTag, TagText, TagFits, IsBlank, Identify, TakeLevel, CheckElement, WithChildren;
    TagIsRead(o, t, false, false, inside);
    ElementIsFound(lead, t, false, false, inside);
    NodeIsElement(o, lead + ("<" + TagText(t, false, false, inside)), TagText(t, false, false, inside), depth);
  }

  lemma MarksAre(k: Kind)
    requires IsMark(k)
    ensures Opening(k) == Header(k) && Closing(k) == LeafTag(k) && Opening(k) != "" && Opening(k)[0] == '<'
  {
  }

  lemma MarkedIsRead(o: Options, w: Written, tail: string, depth: nat)
    requires w.Marked? && NodeFits(w)
    ensures TakeNode(o, NodeText(w, tail), depth) == Some(Parsed(NodeSaid(o, w), tail))
  {
    hide KindOf, TakeSpan, ElementDeep, TakeLeaf, Identify, Value, Find, IsBlank;
    var k := w.kind;
    MarksAre(k);
    var s := Header(k) + (w.span + (LeafTag(k) + tail));
    MarkedIsFound(k, w.span, tail);
    LeadIsSkipped(w.lead, s);
    MarkedBody(o, k, w.span, tail);
  }

  lemma MarkedIsFound(k: Kind, span: string, tail: string)
    requires IsMark(k) && (k.KUnknown? ==> !("--" <= span) && !("[CDATA[" <= span))
    ensures Identify(Header(k) + (span + (LeafTag(k) + tail))) == Some((k, span + (LeafTag(k) + tail)))
  {
    hide KindOf, Identify;
    if k == KUnknown {
      UnknownIsTold(span, tail);
      assert "<!" + span + ">" + tail == "<!" + (span + (">" + tail));
    } else {
      HeadersAreTold(k, span + (LeafTag(k) + tail));
    }
    MarkIsIdentified(k, span + (LeafTag(k) + tail));
  }

  lemma MarkedBody(o: Options, k: Kind, span: string, tail: string)
    requires IsMark(k) && Find(span, LeafTag(k)).None?
    ensures TakeLeaf(o, k, span + (LeafTag(k) + tail)) == Parsed(NodeSaid(o, Marked("", k, span)), tail)
  {
    hide Value, TakeSpan, Find;
    SpanIsTaken(span, LeafTag(k), tail);
    assert span + LeafTag(k) + tail == span + (LeafTag(k) + tail);
  }

  lemma PlainIsRead(o: Options, w: Written, tail: string, depth: nat)
    requires w.Plain? && NodeFits(w) && StartsTag(tail)
    ensures TakeNode(o, NodeText(w, tail), depth) == Some(Parsed(NodeSaid(o, w), tail))
  {
    hide TakeSpan, ElementDeep, TakeLeaf, Identify, Value, Find, XmlText.SkipWhiteSpace;
    assert tail == "<" + tail[1..];
    SkipsInside(w.span, tail);
    TextIsIdentified(w.span + tail);
    LacksIsNotFound(w.span, '<');
    SpanIsTaken(w.span, "<", tail[1..]);
    assert w.span + "<" + tail[1..] == w.span + tail;
    TextFromSpan(o, w.span + tail, w.span, tail[1..]);
  }

  // ---------- lists ----------

  /** After a text, the next thing begins with a tag. */
  predicate TailFits(ws: seq<Written>, tail: string) {
    ws != [] && ws[|ws| - 1].Plain? ==> StartsTag(tail)
  }

  lemma CloseStarts(w: Written, tail: string)
    requires NodeFits(w) && Close(w)
    ensures StartsTag(NodeText(w, tail))
  {
    hide TagText, ListText, ListFits, TagFits;
    var s := NodeText(w, tail);
    match w {
      case Sealed(_, slash, tag) =>
        TagBegins(tag, slash, true, tail);
        assert "" + ("<" + TagText(tag, slash, true, tail)) == "<" + TagText(tag, slash, true, tail);
      case Open(_, tag, children, inner, closing) =>
        var inside := ListText(children, inner + ("<" + TagText(closing, true, false, tail)));
        TagBegins(tag, false, false, inside);
        assert "" + ("<" + TagText(tag, false, false, inside)) == "<" + TagText(tag, false, false, inside);
      case Marked(_, kind, span) => MarkStarts(kind, span + (Closing(kind) + tail));
    }
  }

  lemma MarkStarts(k: Kind, rest: string)
    requires IsMark(k)
    ensures StartsTag("" + (Opening(k) + rest))
  {
  }

  lemma ListParts(ws: seq<Written>, tail: string)
    requires ws != [] && ListFits(ws) && TailFits(ws, tail)
    ensures NodeFits(ws[0]) && ListFits(ws[1..]) && TailFits(ws[1..], tail)
    ensures Levels(ws[0]) <= AllLevels(ws) && AllLevels(ws[1..]) <= AllLevels(ws)
    ensures ws[0].Plain? ==> StartsTag(ListText(ws[1..], tail))
  {
    hide NodeFits, Levels, NodeText, StartsTag;
    assert forall i :: 0 <= i < |ws[1..]| ==> ws[1..][i] == ws[i + 1];
    if ws[0].Plain? && |ws| > 1 {
      CloseStarts(ws[1], ListText(ws[1..][1..], tail));
    }
  }

  lemma DeclarationSaid(o: Options, w: Written)
    ensures NodeSaid(o, w).Declaration? <==> IsDeclared(w)
  {
    hide Value;
  }

  /** A declaration in its place. */
  lemma InPlace(o: Options, before: seq<Written>, ws: seq<Written>, inDocument: bool)
    requires ws != []
    requires if inDocument then DeclaredFirst(before + ws) else NoneDeclared(ws)
    ensures NodeSaid(o, ws[0]).Declaration? ==> WellLocated(inDocument, ListSaid(o, before))
  {
    hide NodeSaid;
    DeclarationSaid(o, ws[0]);
    if IsDeclared(ws[0]) && before != [] {
      var all := before + ws;
      assert all[|before|] == ws[0] && all[0] == before[0] && all[|before| - 1] == before[|before| - 1];
      assert ListSaid(o, before)[0] == NodeSaid(o, before[0]);
      DeclarationSaid(o, before[0]);
      DeclarationSaid(o, before[|before| - 1]);
    }
  }

  lemma {:induction false} NodeIsRead(o: Options, w: Written, tail: string, depth: nat)
    requires NodeFits(w) && depth + Levels(w) < MAX_ELEMENT_DEPTH && (w.Plain? ==> StartsTag(tail))
    ensures TakeNode(o, NodeText(w, tail), depth) == Some(Parsed(NodeSaid(o, w), tail))
    decreases w, 0
  {
    hide TakeNode, NodeText, NodeSaid, StartsTag, TakeLevel, TagText, ListText, TagFits, IsBlank;
    match w {
      case Sealed(_, _, _) => SealedIsRead(o, w, tail, depth);
      case Marked(_, _, _) => MarkedIsRead(o, w, tail, depth);
      case Plain(_) => PlainIsRead(o, w, tail, depth);
      case Open(lead, tag, children, inner, closing) =>
        var inside := ListText(children, inner + ("<" + TagText(closing, true, false, tail)));
        ChildrenAreRead(o, w, tail, depth);
        OpenIsRead(o, lead, tag, inside, depth);
        OpenText(w, tail);
        OpenSaid(o, w);
    }
  }

  lemma OpenText(w: Written, tail: string)
    requires w.Open?
    ensures NodeText(w, tail) == w.lead + ("<" + TagText(w.tag, false, false,
      ListText(w.children, w.inner + ("<" + TagText(w.closing, true, false, tail)))))
  {
  }

  lemma OpenSaid(o: Options, w: Written)
    requires w.Open?
    ensures NodeSaid(o, w) == Element(w.tag.name, AttributesSaid(o, w.tag.attributes), ListSaid(o, w.children))
  {
  }

  /** The list inside an open tag, up to the closing tag. */
  lemma {:induction false} ChildrenAreRead(o: Options, w: Written, tail: string, depth: nat)
    requires w.Open? && NodeFits(w) && depth + Levels(w) < MAX_ELEMENT_DEPTH
    ensures var inside := ListText(w.children, w.inner + ("<" + TagText(w.closing, true, false, tail)));
      && inside != ""
      && TakeLevel(o, inside, depth, false) == ListResult(ListSaid(o, w.children), Closed(w.tag.name, tail))
    decreases w.children, 2
  {
    hide TakeList, NodeText, TagText, ListText, TagFits, IsBlank, ListFits, NodeSaid, StartsTag, TakeNode;
    var end := w.inner + ("<" + TagText(w.closing, true, false, tail));
    EndOfChildren(w, tail);
    ListIsRead(o, w.children, end, depth + 1, false, []);
    ClosingIsRead(o, w.inner, w.closing, tail, depth + 1);
    assert [] + w.children == w.children && ListSaid(o, []) == [];
    ListCloses(o, end, depth + 1, ListSaid(o, w.children), w.closing.name, tail);
    NotNothing(w.children, end);
  }

  lemma EndOfChildren(w: Written, tail: string)
    requires w.Open? && NodeFits(w)
    ensures var end := w.inner + ("<" + TagText(w.closing, true, false, tail));
      end != "" && TailFits(w.children, end)
  {
    hide TagText, TagFits, ListFits;
    TagBegins(w.closing, true, false, tail);
    var t := "<" + TagText(w.closing, true, false, tail);
    assert "" + t == t;
  }

  lemma {:induction false} NotNothing(ws: seq<Written>, tail: string)
    requires tail != ""
    ensures ListText(ws, tail) != ""
    decreases ws
  {
    if ws != [] {
      NotNothing(ws[1..], tail);
    }
  }

  lemma ListCloses(o: Options, s: string, depth: nat, before: seq<Node>, name: string, rest: string)
    requires TakeNode(o, s, depth) == Some(ClosingTag(name, rest))
    ensures TakeList(o, s, depth, false, before) == ListResult(before, Closed(name, rest))
  {
    hide TakeNode;
  }

  lemma {:induction false} ListIsRead(o: Options, ws: seq<Written>, tail: string, depth: nat, inDocument: bool,
          before: seq<Written>)
    requires ListFits(ws) && TailFits(ws, tail) && depth + AllLevels(ws) < MAX_ELEMENT_DEPTH
    requires if inDocument then DeclaredFirst(before + ws) else NoneDeclared(ws)
    ensures TakeList(o, ListText(ws, tail), depth, inDocument, ListSaid(o, before))
         == TakeList(o, tail, depth, inDocument, ListSaid(o, before + ws))
    decreases ws, 1
  {
    hide TakeNode, NodeText, NodeSaid, NodeFits, ListFits, TailFits, StartsTag, Levels, AllLevels;
    if ws == [] {
      assert before + [] == before;
    } else {
      var w, rest := ws[0], ListText(ws[1..], tail);
      ListParts(ws, tail);
      NodeIsRead(o, w, rest, depth);
      InPlace(o, before, ws, inDocument);
      ListStep(o, NodeText(w, rest), depth, inDocument, ListSaid(o, before), NodeSaid(o, w), rest);
      assert (before + [w]) + ws[1..] == before + ws;
      ListIsRead(o, ws[1..], tail, depth, inDocument, before + [w]);
      SaidMore(o, before, w);
    }
  }

  lemma SaidMore(o: Options, before: seq<Written>, w: Written)
    ensures ListSaid(o, before + [w]) == ListSaid(o, before) + [NodeSaid(o, w)]
  {
    hide NodeSaid;
  }

  // ---------- files are read as they are written ----------

  lemma BlankEndsList(o: Options, blank: string, before: seq<Node>)
    requires IsBlank(blank)
    ensures TakeList(o, blank, 1, true, before) == ListResult(before, EndOfText)
  {
    hide XmlText.SkipWhiteSpace;
    BlankIsDropped(blank);
  }

  lemma StrayEndsList(o: Options, s: string, before: seq<Node>, name: string, rest: string)
    requires TakeNode(o, s, 1) == Some(ClosingTag(name, rest))
    ensures TakeList(o, s, 1, true, before) == ListResult(before, Closed(name, rest))
  {
    hide TakeNode;
  }

  lemma EndingIsRead(o: Options, ws: seq<Written>, e: Ending, before: seq<Node>)
    requires EndingFits(ws, e)
    ensures !TakeList(o, EndingText(e), 1, true, before).stop.Failed?
    ensures TakeList(o, EndingText(e), 1, true, before).nodes == before
    ensures TailFits(ws, EndingText(e))
  {
    hide TakeList, TakeNode, IsBlank, TagFits, TagText;
    match e {
      case AtEnd(blank) => BlankEndsList(o, blank, before);
      case AtStray(lead, tag, rest) =>
        ClosingIsRead(o, lead, tag, rest, 1);
        StrayEndsList(o, EndingText(e), before, tag.name, rest);
        TagBegins(tag, true, false, rest);
        var t := "<" + TagText(tag, true, false, rest);
        assert "" + t == t;
    }
  }

  /** What the file has after its leading white space. */
  function Body(f: File): string {
    ListText(f.nodes, EndingText(f.ending))
  }

  /** Without the mark, the first character of the body is significant, and the body is not taken to begin with it. */
  lemma BodyBegins(f: File)
    requires FileFits(f) && !f.bom
    ensures Body(f) != "" && !IsWhiteSpace(Body(f)[0]) && !(BOM <= Body(f))
  {
    hide NodeText, EndingText, IsBlank, DeclaredFirst, AllLevels, StartsTag, IsWhiteSpace;
    if f.nodes == [] {
      StrayBegins(f.ending);
    } else {
      var w, rest := f.nodes[0], ListText(f.nodes[1..], EndingText(f.ending));
      EndingIsRead(Options(true, true), f.nodes, f.ending, []);
      ListParts(f.nodes, EndingText(f.ending));
      if w.Plain? {
        PlainBegins(w.span, rest);
      } else {
        CloseStarts(w, rest);
        TagIsNoMark(NodeText(w, rest));
      }
    }
  }

  lemma TagIsNoMark(s: string)
    requires StartsTag(s)
    ensures s != "" && !IsWhiteSpace(s[0]) && !(BOM <= s)
  {
  }

  lemma StrayBegins(e: Ending)
    requires e.AtStray? && e.lead == "" && TagFits(e.tag)
    ensures EndingText(e) != "" && !IsWhiteSpace(EndingText(e)[0]) && !(BOM <= EndingText(e))
  {
    hide TagText, TagFits;
    var t := "<" + TagText(e.tag, true, false, e.rest);
    assert "" + t == t && t[0] == '<';
  }

  lemma PlainBegins(span: string, rest: string)
    requires span != "" && !IsWhiteSpace(span[0]) && !(BOM <= span) && StartsTag(rest)
    ensures var s := NodeText(Plain(span), rest); s != "" && !IsWhiteSpace(s[0]) && !(BOM <= s)
  {
    var s := span + rest;
    assert s[|span|] == '<';
    assert |span| >= 3 ==> s[..3] == span[..3];
  }

  lemma SkipToBody(f: File)
    requires FileFits(f)
    ensures var s := XmlText.SkipWhiteSpace(FileText(f));
      s == (if f.bom then BOM + Body(f) else Body(f)) && (f.bom <==> BOM <= s) && Body(f) != ""
  {
    hide XmlText.SkipWhiteSpace, Body, IsBlank, ListFits, DeclaredFirst, AllLevels, EndingFits, BeginsFile;
    BodyIs(f);
    if f.bom {
      BlankIsSkipped(f.lead, BOM + Body(f));
      NothingToSkip(BOM + Body(f));
    } else {
      BodyBegins(f);
      assert "" + Body(f) == Body(f);
      BlankIsSkipped(f.lead, Body(f));
      NothingToSkip(Body(f));
    }
  }

  lemma BodyIs(f: File)
    ensures FileText(f) == f.lead + ((if f.bom then BOM else "") + Body(f))
    ensures f.bom && FileFits(f) ==> Body(f) != ""
  {
    hide ListFits, DeclaredFirst, AllLevels, EndingFits, BeginsFile;
  }

  /** Every file of this form parses, without an error, to what it says. */
  lemma FileIsRead(o: Options, f: File)
    requires FileFits(f)
    ensures Parse(o, FileText(f)) == Ok(FileSaid(o, f))
  {
    hide TakeList, XmlText.SkipWhiteSpace, ListText, EndingText, ListFits, EndingFits, BeginsFile, IsBlank, FileText;
    var end := EndingText(f.ending);
    SkipToBody(f);
    BodyNotNothing(f);
    EndingIsRead(o, f.nodes, f.ending, ListSaid(o, f.nodes));
    ListIsRead(o, f.nodes, end, 1, true, []);
    assert [] + f.nodes == f.nodes && ListSaid(o, []) == [];
    assert f.bom ==> (BOM + Body(f))[3..] == Body(f);
  }

  lemma BodyNotNothing(f: File)
    requires XmlText.SkipWhiteSpace(FileText(f)) != ""
    ensures FileText(f) != ""
  {
  }

  // ---------- every file that parses is written so ----------

  lemma BlankBefore(s: string)
    ensures var t := XmlText.SkipWhiteSpace(s); var blank := s[..|s| - |t|];
      IsBlank(blank) && s == blank + t && (s != "" && !IsWhiteSpace(s[0]) ==> blank == "")
  {
    hide XmlText.SkipWhiteSpace, IsWhiteSpace;
    SkipsOnlySpace(s);
    var t := XmlText.SkipWhiteSpace(s);
    assert s == s[..|s| - |t|] + s[|s| - |t|..];
  }

  /** Where an expected mark was found. */
  lemma MarkIsWritten(s: string, marks: string) returns (blank: string)
    requires TakeMark(s, marks).Some?
    ensures var (c, rest) := TakeMark(s, marks).value;
      IsBlank(blank) && s == blank + ([c] + rest) && c in marks
  {
    hide XmlText.SkipWhiteSpace, IsBlank;
    var t := XmlText.SkipWhiteSpace(s);
    BlankBefore(s);
    blank := s[..|s| - |t|];
    assert t == [t[0]] + t[1..];
  }

  lemma NameIsWritten(s: string)
    requires TakeName(s).Some?
    ensures var (name, rest) := TakeName(s).value;
      IsName(name) && s == name + rest && (rest == "" || !IsNameChar(rest[0]))
  {
    assert forall i :: 1 <= i < 1 + NameRun(s[1..]) ==> s[i] == s[1..][i - 1];
  }

  lemma SpanIsWritten(s: string, tag: string)
    requires tag != [] && TakeSpan(s, tag).Some?
    ensures var (span, rest) := TakeSpan(s, tag).value; s == span + (tag + rest) && Find(span, tag).None?
  {
    hide Find;
    SpanLacksTag(s, tag);
    var (span, rest) := TakeSpan(s, tag).value;
    assert span + tag + rest == span + (tag + rest);
  }

  /** An attribute that is read, after the white space `gap`. */
  lemma AttributeIsWritten(o: Options, gap: string, s: string) returns (a: WrittenAttribute)
    requires IsBlank(gap) && TakeAttribute(o, s).Some?
    ensures var (b, rest) := TakeAttribute(o, s).value;
      AttributeFits(a) && a.gap == gap && s == AttributeText(a, rest) && a.name == b.name
  {
    hide TakeName, TakeMark, TakeSpan, Value, IsBlank, Find;
    var (name, s1) := TakeName(s).value;
    NameIsWritten(s);
    var before := MarkIsWritten(s1, "=");
    var s2 := TakeMark(s1, "=").value.1;
    var after := MarkIsWritten(s2, "\"'");
    var (quote, s3) := TakeMark(s2, "\"'").value;
    SpanIsWritten(s3, [quote]);
    var (span, rest) := TakeSpan(s3, [quote]).value;
    NotFoundIsLacking(span, quote);
    a := WrittenAttribute(gap, name, before, after, quote, span);
  }

  lemma TagEndIsWritten(t: string, seen: seq<Attribute>)
    requires TakeTagEnd(t, seen).GoodAttributes?
    ensures var r := TakeTagEnd(t, seen); t == (if r.sealed then "/>" else ">") + r.rest
  {
  }

  /** The attributes of a tag that is read, and its end. */
  lemma {:induction false} AttributesAreWritten(o: Options, s: string, seen: seq<Attribute>)
      returns (attributes: seq<WrittenAttribute>, end: string)
    requires TakeAttributes(o, s, seen).GoodAttributes?
    ensures var r := TakeAttributes(o, s, seen);
      s == AttributesText(attributes, end + ((if r.sealed then "/>" else ">") + r.rest))
    ensures AllFit(attributes) && NoneSeen(seen, attributes) && IsBlank(end)
    ensures attributes != [] && (s == "" || !IsNameStartChar(s[0])) ==> attributes[0].gap != ""
    decreases |s|
  {
    hide TakeAttribute, XmlText.SkipWhiteSpace, HasAttribute, IsBlank, AttributeText, AttributeFits, TakeTagEnd;
    var t := XmlText.SkipWhiteSpace(s);
    BlankBefore(s);
    var gap := s[..|s| - |t|];
    if t != [] && IsNameStartChar(t[0]) {
      var (b, rest) := TakeAttribute(o, t).value;
      var a := AttributeIsWritten(o, gap, t);
      var more;
      more, end := AttributesAreWritten(o, rest, seen + [b]);
      attributes := [a] + more;
      assert attributes[1..] == more;
      OneMoreFits(a, more, seen, b);
      GapNeeded(s, gap, t);
    } else {
      attributes, end := [], gap;
      TagEndIsWritten(t, seen);
    }
  }

  lemma GapNeeded(s: string, gap: string, t: string)
    requires s == gap + t && t != "" && IsNameStartChar(t[0])
    ensures s == "" || !IsNameStartChar(s[0]) ==> gap != ""
  {
    assert gap == "" ==> s == t;
  }

  lemma OneMoreFits(a: WrittenAttribute, more: seq<WrittenAttribute>, seen: seq<Attribute>, b: Attribute)
    requires AttributeFits(a) && AllFit(more) && NoneSeen(seen + [b], more) && a.name == b.name
    requires !HasAttribute(seen, b.name)
    ensures AllFit([a] + more) && NoneSeen(seen, [a] + more)
  {
    hide AttributeFits;
    forall i | 0 <= i < |more|
      ensures more[i].name != a.name && !HasAttribute(seen, more[i].name)
    {
      assert !HasAttribute(seen + [b], more[i].name);
      assert (seen + [b])[|seen|] == b;
      HasStill(seen, b, more[i].name);
    }
  }

  lemma HasStill(seen: seq<Attribute>, b: Attribute, name: string)
    ensures HasAttribute(seen, name) ==> HasAttribute(seen + [b], name)
  {
    if HasAttribute(seen, name) {
      var k :| 0 <= k < |seen| && seen[k].name == name;
      assert (seen + [b])[k] == seen[k];
    }
  }

  /** A tag that is read. */
  lemma TagIsWritten(o: Options, s: string) returns (tag: WrittenTag, slash: bool)
    requires TakeTag(o, s).Tag?
    ensures var t := TakeTag(o, s);
      && TagFits(tag) && tag.name == t.name && s == TagText(tag, slash, t.closing == CLOSED, t.rest)
      && (t.closing != CLOSED ==> (slash <==> t.closing == CLOSING))
  {
    hide TakeName, TakeAttributes, XmlText.SkipWhiteSpace, IsBlank, AttributesText, AttributeFits;
    var t := XmlText.SkipWhiteSpace(s);
    BlankBefore(s);
    slash := t != [] && t[0] == '/';
    var u := if slash then t[1..] else t;
    assert slash ==> t == "/" + u;
    var (name, s1) := TakeName(u).value;
    NameIsWritten(u);
    StartIsName(s1);
    var attributes, end := AttributesAreWritten(o, s1, []);
    tag := WrittenTag(s[..|s| - |t|], name, attributes, end);
  }

  lemma StartIsName(s: string)
    requires s == "" || !IsNameChar(s[0])
    ensures s == "" || !IsNameStartChar(s[0])
  {
  }

  // ---------- nodes that are read ----------

  /** Where Identify found a tag. */
  lemma HeaderIsWritten(s: string, k: Kind, rest: string) returns (lead: string)
    requires Identify(s) == Some((k, rest)) && k != KText
    ensures IsBlank(lead) && s == lead + (Header(k) + rest) && KindOf(Header(k) + rest) == k
    ensures s != "" && s[0] == '<' ==> lead == ""
  {
    hide KindOf, XmlText.SkipWhiteSpace, IsBlank;
    var t := XmlText.SkipWhiteSpace(s);
    BlankBefore(s);
    lead := s[..|s| - |t|];
    assert t == Header(k) + rest;
  }

  lemma UnknownIsWritten(span: string, rest: string)
    requires KindOf("<!" + (span + (">" + rest))) == KUnknown
    ensures !("--" <= span) && !("[CDATA[" <= span)
  {
    var t := span + (">" + rest);
    PrefixCancels("<!", "--", t);
    PrefixCancels("<!", "[CDATA[", t);
    assert "<!" + "--" == "<!--" && "<!" + "[CDATA[" == "<![CDATA[";
    assert "--" <= span ==> "--" <= t;
    assert "[CDATA[" <= span ==> "[CDATA[" <= t;
  }

  lemma LeafIsWritten(o: Options, s: string, k: Kind, rest: string) returns (w: Written)
    requires Identify(s) == Some((k, rest)) && k != KElement && TakeLeaf(o, k, rest).Parsed?
    ensures NodeFits(w) && s == NodeText(w, TakeLeaf(o, k, rest).rest) && !w.Open? && !w.Sealed?
    ensures s != "" && s[0] == '<' ==> Close(w)
    ensures w.Plain? ==> StartsTag(TakeLeaf(o, k, rest).rest)
    ensures IsDeclared(w) <==> TakeLeaf(o, k, rest).node.Declaration?
  {
    hide TakeSpan, Value, Find, KindOf, XmlText.SkipWhiteSpace, IsBlank;
    SpanIsWritten(rest, LeafTag(k));
    var (span, after) := TakeSpan(rest, LeafTag(k)).value;
    if k == KText {
      w := Plain(span);
      NotFoundIsLacking(span, '<');
      TextIsThere(s, span, after);
    } else {
      var lead := HeaderIsWritten(s, k, rest);
      MarksAre(k);
      if k == KUnknown {
        UnknownIsWritten(span, after);
      }
      w := Marked(lead, k, span);
    }
  }

  lemma TextIsThere(s: string, span: string, after: string)
    requires s == span + ("<" + after) && Lacks(span, '<') && Identify(s) == Some((KText, s))
    ensures XmlText.SkipWhiteSpace(span) != "" && s[0] != '<'
  {
    hide KindOf, XmlText.SkipWhiteSpace;
    var t := XmlText.SkipWhiteSpace(s);
    if XmlText.SkipWhiteSpace(span) == "" {
      BlankBefore(span);
      assert span[..|span|] == span;
      BlankIsSkipped(span, "<" + after);
      NothingToSkip("<" + after);
      NoTextAtTag("<" + after);
    }
    if s[0] == '<' {
      NothingToSkip(s);
      NoTextAtTag(s);
    }
  }

  /** A closing tag that is read. */
  lemma ClosingIsWritten(o: Options, s: string, depth: nat) returns (lead: string, tag: WrittenTag)
    requires TakeNode(o, s, depth).Some? && TakeNode(o, s, depth).value.ClosingTag?
    ensures var r := TakeNode(o, s, depth).value;
      IsBlank(lead) && TagFits(tag) && tag.name == r.name && s == lead + ("<" + TagText(tag, true, false, r.rest))
    ensures s != "" && s[0] == '<' ==> lead == ""
  {
    hide TakeTag, Identify, TakeLeaf, TagText, TagFits, IsBlank, TakeLevel, KindOf;
    var (k, rest) := Identify(s).value;
    ClosingWasElement(o, s, depth);
    lead := HeaderIsWritten(s, k, rest);
    var slash;
    tag, slash := TagIsWritten(o, rest);
  }

  lemma ClosingWasElement(o: Options, s: string, depth: nat)
    requires TakeNode(o, s, depth).Some? && TakeNode(o, s, depth).value.ClosingTag?
    ensures var i := Identify(s);
      && i.Some? && i.value.0 == KElement && TakeTag(o, i.value.1).Tag? && TakeTag(o, i.value.1).closing == CLOSING
      && TakeNode(o, s, depth).value == ClosingTag(TakeTag(o, i.value.1).name, TakeTag(o, i.value.1).rest)
  {
    hide TakeTag, Identify, TakeLeaf, TakeLevel;
  }

  /** What is known of the list before a node: whether its text begins with a tag. */
  predicate AtTag(s: string) {
    s != "" && s[0] == '<'
  }

  /** A node that is read is written so, and after a text comes a tag. */
  predicate WrittenAs(w: Written, s: string, rest: string, depth: nat) {
    && NodeFits(w) && s == NodeText(w, rest) && depth + Levels(w) < 100
    && (AtTag(s) ==> Close(w)) && (w.Plain? ==> StartsTag(rest))
  }

  lemma {:induction false} NodeIsWritten(o: Options, s: string, depth: nat) returns (w: Written)
    requires depth < 100 && TakeNode(o, s, depth).Some? && TakeNode(o, s, depth).value.Parsed?
    ensures var r := TakeNode(o, s, depth).value;
      WrittenAs(w, s, r.rest, depth) && (IsDeclared(w) <==> r.node.Declaration?)
    decreases |s|, 1
  {
    hide TakeTag, Identify, TakeLeaf, TakeLevel, TagText, TagFits, IsBlank, KindOf, ListText, ListFits, NodeFits, Find;
    hide StartsTag, Close, CheckElement;
    var (k, rest) := Identify(s).value;
    if k == KElement {
      w := ElementIsWritten(o, s, rest, depth);
    } else {
      w := LeafIsWritten(o, s, k, rest);
    }
  }

  /** How an element that was accepted was read: sealed, or up to its own closing tag. */
  lemma AcceptedHow(o: Options, rest: string, depth: nat)
    requires CheckElement(ElementDeep(o, rest, depth)).Parsed?
    ensures var t, r := TakeTag(o, rest), CheckElement(ElementDeep(o, rest, depth));
      && t.Tag? && !r.node.Declaration?
      && (t.closing == CLOSED ==> r.rest == t.rest)
      && (t.closing != CLOSED ==>
            var list := TakeLevel(o, t.rest, depth, false);
            t.closing == OPEN && list.stop == Closed(t.name, r.rest))
  {
    hide TakeTag, TakeLevel;
  }

  lemma {:induction false} ElementIsWritten(o: Options, s: string, rest: string, depth: nat) returns (w: Written)
    requires depth < 100 && Identify(s) == Some((KElement, rest)) && CheckElement(ElementDeep(o, rest, depth)).Parsed?
    ensures var r := CheckElement(ElementDeep(o, rest, depth)); WrittenAs(w, s, r.rest, depth) && !IsDeclared(w)
    ensures !CheckElement(ElementDeep(o, rest, depth)).node.Declaration?
    decreases |s|, 0
  {
    hide TakeTag, Identify, TakeLevel, TagText, TagFits, IsBlank, KindOf, ListText, ListFits, ElementDeep, StartsTag;
    hide CheckElement, TakeList;
    var after := CheckElement(ElementDeep(o, rest, depth)).rest;
    AcceptedHow(o, rest, depth);
    var t := TakeTag(o, rest);
    var lead := HeaderIsWritten(s, KElement, rest);
    var tag, slash := TagIsWritten(o, rest);
    if t.closing == CLOSED {
      w := Sealed(lead, slash, tag);
    } else {
      LevelIsShallow(o, t.rest, depth);
      var children, inner, closing := ListIsWritten(o, t.rest, depth + 1);
      w := Open(lead, tag, children, inner, closing);
    }
  }

  lemma LevelIsShallow(o: Options, s: string, depth: nat)
    requires depth < 100 && TakeLevel(o, s, depth, false).stop.Closed?
    ensures depth + 1 < 100 && TakeLevel(o, s, depth, false) == TakeList(o, s, depth + 1, false, [])
  {
    hide TakeList;
  }

  lemma ClosesThere(o: Options, s: string, depth: nat, inDocument: bool, before: seq<Node>)
    requires StopsHere(o, s, depth, inDocument, before) && !TakeList(o, s, depth, inDocument, before).stop.Failed?
    ensures var t, list := TakeNode(o, s, depth), TakeList(o, s, depth, inDocument, before);
      && (t.None? ==> list.stop == EndOfText)
      && (t.Some? ==> t.value.ClosingTag? && list.stop == Closed(t.value.name, t.value.rest))
  {
    hide TakeNode, WellLocated;
  }

  /** The list inside an element, and its closing tag. */
  lemma {:induction false} ListIsWritten(o: Options, s: string, depth: nat)
      returns (ws: seq<Written>, inner: string, closing: WrittenTag)
    requires depth < 100 && TakeList(o, s, depth, false, []).stop.Closed?
    ensures var stop := TakeList(o, s, depth, false, []).stop;
      && s == ListText(ws, inner + ("<" + TagText(closing, true, false, stop.rest)))
      && ListFits(ws) && IsBlank(inner) && TagFits(closing) && closing.name == stop.name
      && depth + AllLevels(ws) < 100 && NoneDeclared(ws)
      && (ws != [] && ws[|ws| - 1].Plain? ==> inner == "")
    decreases |s|, 3
  {
    hide TakeNode, TakeList, TagText, TagFits, IsBlank, ListFits, AllLevels, SameKinds, StopsHere, NoneDeclared;
    var rest, nodes;
    NothingReadYet(false);
    ws, rest, nodes := ListReaches(o, s, depth, false, [], []);
    assert [] + ws == ws;
    ClosesThere(o, rest, depth, false, nodes);
    inner, closing := ClosingIsWritten(o, rest, depth);
  }

  predicate SameKinds(ws: seq<Written>, nodes: seq<Node>) {
    |ws| == |nodes| && forall i :: 0 <= i < |ws| ==> (IsDeclared(ws[i]) <==> nodes[i].Declaration?)
  }

  /** No node is read here that stays in its list. */
  predicate StopsHere(o: Options, s: string, depth: nat, inDocument: bool, before: seq<Node>) {
    var t := TakeNode(o, s, depth);
    t.Some? && t.value.Parsed? ==> t.value.node.Declaration? && !WellLocated(inDocument, before)
  }

  predicate DeclaredWell(ws: seq<Written>, inDocument: bool) {
    if inDocument then DeclaredFirst(ws) else NoneDeclared(ws)
  }

  lemma StillDeclaredWell(ws: seq<Written>, w: Written, nodes: seq<Node>, n: Node, inDocument: bool)
    requires SameKinds(ws, nodes) && DeclaredWell(ws, inDocument) && (IsDeclared(w) <==> n.Declaration?)
    requires n.Declaration? ==> WellLocated(inDocument, nodes)
    ensures SameKinds(ws + [w], nodes + [n]) && DeclaredWell(ws + [w], inDocument)
  {
    hide IsDeclared;
  }

  /** A list is read node by node to where it stops. */
  lemma {:induction false} ListReaches(o: Options, s: string, depth: nat, inDocument: bool, read: seq<Written>,
          before: seq<Node>)
    returns (ws: seq<Written>, rest: string, nodes: seq<Node>)
    requires depth < 100 && SameKinds(read, before) && DeclaredWell(read, inDocument)
    ensures s == ListText(ws, rest) && ListFits(ws) && depth + AllLevels(ws) < 100 && TailFits(ws, rest)
    ensures SameKinds(read + ws, nodes) && DeclaredWell(read + ws, inDocument)
    ensures TakeList(o, s, depth, inDocument, before) == TakeList(o, rest, depth, inDocument, nodes)
    ensures StopsHere(o, rest, depth, inDocument, nodes)
    ensures AtTag(s) ==> if ws == [] then s == rest else Close(ws[0])
    ensures |rest| <= |s|
    decreases |s|, 2
  {
    hide TakeNode, TagText, TagFits, IsBlank, NodeFits, Close, NodeText, WellLocated, IsDeclared, SameKinds;
    hide DeclaredWell;
    var t := TakeNode(o, s, depth);
    if StopsHere(o, s, depth, inDocument, before) {
      ws, rest, nodes := [], s, before;
      assert read + [] == read;
    } else {
      var r := t.value;
      var w := NodeIsWritten(o, s, depth);
      StillDeclaredWell(read, w, before, r.node, inDocument);
      var more;
      more, rest, nodes := ListReaches(o, r.rest, depth, inDocument, read + [w], before + [r.node]);
      ws := [w] + more;
      assert ws[1..] == more && read + [w] + more == read + ws;
      OneMoreWritten(w, more, r.rest);
    }
  }

  lemma NothingReadYet(inDocument: bool)
    ensures SameKinds([], []) && DeclaredWell([], inDocument)
  {
  }

  lemma OneMoreWritten(w: Written, more: seq<Written>, rest: string)
    requires NodeFits(w) && ListFits(more) && (w.Plain? ==> StartsTag(rest))
    requires AtTag(rest) && more != [] ==> Close(more[0])
    ensures ListFits([w] + more) && (w.Plain? ==> AtTag(rest))
  {
    hide NodeFits, Close;
    var ws := [w] + more;
    assert forall i :: 1 <= i < |ws| ==> ws[i] == more[i - 1];
  }

  // ---------- the document ----------

  /** The document's own list, and how it ended without an error. */
  lemma NodesAreWritten(o: Options, s: string) returns (ws: seq<Written>, e: Ending)
    requires !TakeList(o, s, 1, true, []).stop.Failed?
    ensures s == ListText(ws, EndingText(e)) && ListFits(ws) && EndingFits(ws, e) && 1 + AllLevels(ws) < 100
    ensures DeclaredFirst(ws)
    ensures AtTag(s) ==> if ws == [] then e.AtStray? && e.lead == "" else Close(ws[0])
  {
    hide TakeNode, TakeList, TagText, TagFits, IsBlank, ListFits, AllLevels, SameKinds, StopsHere, Close, DeclaredFirst;
    var rest, nodes;
    NothingReadYet(true);
    ws, rest, nodes := ListReaches(o, s, 1, true, [], []);
    assert [] + ws == ws;
    ClosesThere(o, rest, 1, true, nodes);
    if TakeNode(o, rest, 1).None? {
      BlankIsLeft(o, rest);
      e := AtEnd(rest);
    } else {
      var lead, tag := ClosingIsWritten(o, rest, 1);
      e := AtStray(lead, tag, TakeNode(o, rest, 1).value.rest);
    }
  }

  lemma BlankIsLeft(o: Options, s: string)
    requires TakeNode(o, s, 1).None?
    ensures IsBlank(s) && !AtTag(s)
  {
    hide XmlText.SkipWhiteSpace, IsBlank;
    BlankBefore(s);
    assert s[..|s|] == s;
    if AtTag(s) {
      NothingToSkip(s);
    }
  }

  /** A parse without an error: where it begins, and its list. */
  lemma ParsedFrom(o: Options, text: string)
    requires Parse(o, text).Ok?
    ensures var u := XmlText.SkipWhiteSpace(text);
      var t := if BOM <= u then u[3..] else u;
      var list := TakeList(o, t, 1, true, []);
      && t != "" && !list.stop.Failed? && Parse(o, text) == Ok(Document(BOM <= u, list.nodes))
  {
    hide TakeList, XmlText.SkipWhiteSpace;
  }

  /** Every file that is parsed without an error has this form. */
  lemma ParsedIsWritten(o: Options, text: string) returns (f: File)
    requires Parse(o, text).Ok?
    ensures FileFits(f) && FileText(f) == text
  {
    hide Parse, TakeList, XmlText.SkipWhiteSpace, ListText, EndingText, ListFits, EndingFits, IsBlank, AllLevels;
    hide DeclaredFirst, NodeFits, NodeText;
    ParsedFrom(o, text);
    BlankBefore(text);
    var u := XmlText.SkipWhiteSpace(text);
    var bom := BOM <= u;
    var t := if bom then u[3..] else u;
    var nodes, ending := NodesAreWritten(o, t);
    f := File(text[..|text| - |u|], bom, nodes, ending);
    assert bom ==> u == BOM + t;
    assert !bom ==> "" + t == t;
    if !bom {
      UnmarkedBegins(f, t);
    }
  }

  /** The body of a file without the mark. */
  lemma UnmarkedBegins(f: File, t: string)
    requires t != "" && !IsWhiteSpace(t[0]) && !(BOM <= t) && t == Body(f) && ListFits(f.nodes)
    requires EndingFits(f.nodes, f.ending)
    requires AtTag(t) ==> if f.nodes == [] then f.ending.AtStray? && f.ending.lead == "" else Close(f.nodes[0])
    ensures BeginsFile(f)
  {
    hide NodeFits, TagText, TagFits, ListFits, IsBlank;
    NotBlank(t);
    if f.nodes == [] && f.ending.AtStray? {
      TagAfterBlank(f.ending.lead, TagText(f.ending.tag, true, false, f.ending.rest));
    }
    if f.nodes != [] {
      NodeBegins(f.nodes[0], ListText(f.nodes[1..], EndingText(f.ending)), f.nodes);
    }
  }

  lemma NotBlank(s: string)
    requires s != "" && !IsWhiteSpace(s[0])
    ensures !IsBlank(s)
  {
  }

  lemma TagAfterBlank(lead: string, rest: string)
    requires IsBlank(lead)
    ensures var s := lead + ("<" + rest); !IsWhiteSpace(s[0]) ==> lead == ""
  {
    var s := lead + ("<" + rest);
    assert s[0] == if lead == "" then '<' else lead[0];
  }

  lemma NodeBegins(w: Written, rest: string, ws: seq<Written>)
    requires ws != [] && ListFits(ws) && ws[0] == w
    requires var t := NodeText(w, rest); t != "" && !IsWhiteSpace(t[0]) && !(BOM <= t) && (AtTag(t) ==> Close(w))
    ensures if w.Plain? then w.span != "" && !IsWhiteSpace(w.span[0]) && !(BOM <= w.span) else w.lead == ""
  {
    hide TagText, TagFits, ListText;
    assert NodeFits(w);
    match w {
      case Sealed(lead, slash, tag) => TagAfterBlank(lead, TagText(tag, slash, true, rest));
      case Open(lead, tag, children, inner, closing) =>
        TagAfterBlank(lead, TagText(tag, false, false,
          ListText(children, inner + ("<" + TagText(closing, true, false, rest)))));
      case Marked(lead, kind, span) =>
        MarksAre(kind);
        var more := Opening(kind) + (span + (Closing(kind) + rest));
        assert more == "<" + more[1..];
        TagAfterBlank(lead, more[1..]);
      case Plain(span) =>
        NothingIsBlank();
        assert (span + rest)[0] == span[0];
        assert BOM <= span ==> BOM <= span + rest;
    }
  }

  lemma NothingIsBlank()
    ensures XmlText.SkipWhiteSpace("") == ""
  {
  }

  /** Exactly which files are parsed without an error, and what they are parsed to. */
  lemma ParsesExactlyWhen(o: Options, text: string)
    ensures Parse(o, text).Ok? <==> exists f :: FileFits(f) && FileText(f) == text
    ensures forall f :: FileFits(f) && FileText(f) == text ==> Parse(o, text) == Ok(FileSaid(o, f))
  {
    hide Parse, FileFits, FileText, FileSaid;
    forall f | FileFits(f) && FileText(f) == text
      ensures Parse(o, text) == Ok(FileSaid(o, f))
    {
      FileIsRead(o, f);
    }
    if Parse(o, text).Ok? {
      var f := ParsedIsWritten(o, text);
    }
  }
}
