/** The parser as a function of the remaining text (drivers/Mach3/tinyxml2.cpp:193-235, 656-723, 988-1100, 1147-1171,
    1212-1220, 1261-1269, 1309-1317, 1356-1381, 1815-1925). The end of the text is the buffer's NUL. */
module XmlGrammar {
  import opened XmlUtil
  import opened XmlText
  import opened XmlTree

  /** Kinds of node, as Identify tells them apart. */
  datatype Kind = KDeclaration | KComment | KCData | KUnknown | KElement | KText

  function Header(k: Kind): string {
    match k
    case KDeclaration => "<?"
    case KComment => "<!--"
    case KCData => "<![CDATA["
    case KUnknown => "<!"
    case KElement => "<"
    case KText => ""
  }

  /** The kind of the node that begins at the first significant character; the headers are tried in this order. */
  function KindOf(s: string): (k: Kind)
    ensures Header(k) <= s
  {
    if "<?" <= s then KDeclaration
    else if "<!--" <= s then KComment
    else if "<![CDATA[" <= s then KCData
    else if "<!" <= s then KUnknown
    else if "<" <= s then KElement
    else KText
  }

  /** Identify: nothing when only white space is left, else the kind and the text after the header. Text begins where
      the white space did. */
  function Identify(s: string): (r: Option<(Kind, string)>)
    ensures r.Some? ==> |r.value.1| <= |s|
    ensures r.Some? && r.value.0 != KText ==> |r.value.1| < |s|
    ensures r.Some? && r.value.0 == KText ==> r.value.1 == s && s != []
  {
    var t := XmlText.SkipWhiteSpace(s);
    if t == [] then None
    else
      var k := KindOf(t);
      Some((k, if k == KText then s else t[|Header(k)|..]))
  }

  /** The offset of the first occurrence of `tag`. */
  function Find(s: string, tag: string): (r: Option<nat>)
    requires tag != []
    ensures r.Some? ==> r.value + |tag| <= |s| && tag <= s[r.value..]
  {
    if |s| < |tag| then None
    else if tag <= s then Some(0)
    else match Find(s[1..], tag) case None => None case Some(k) => Some(k + 1)
  }

  /** ParseText: the span up to the end tag and the text after the tag. */
  function TakeSpan(s: string, tag: string): (r: Option<(string, string)>)
    requires tag != []
    ensures r.Some? ==> |r.value.0| + |tag| + |r.value.1| == |s|
    ensures r.Some? ==> s == r.value.0 + tag + r.value.1
  {
    match Find(s, tag)
    case None => None
    case Some(k) =>
      assert s[k..][..|tag|] == tag && s[k..][|tag|..] == s[k + |tag|..];
      Some((s[..k], s[k + |tag|..]))
  }

  /** The longest prefix of name characters. */
  function NameRun(s: string): (n: nat)
    ensures n <= |s|
    ensures forall i :: 0 <= i < n ==> IsNameChar(s[i])
    ensures n < |s| ==> !IsNameChar(s[n])
  {
    if s == [] || !IsNameChar(s[0]) then 0 else 1 + NameRun(s[1..])
  }

  /** ParseName: a name-start character and the name characters after it. */
  function TakeName(s: string): (r: Option<(string, string)>)
    ensures r.Some? ==> r.value.0 != [] && s == r.value.0 + r.value.1
    ensures r.Some? ==> |r.value.1| < |s|
  {
    if s == [] || !IsNameStartChar(s[0]) then None
    else
      var n := 1 + NameRun(s[1..]);
      Some((s[..n], s[n..]))
  }

  function TextFlags(o: Options): Flags {
    Flags(o.processEntities, true, o.collapseWhitespace)
  }

  function AttributeFlags(o: Options): Flags {
    Flags(o.processEntities, true, false)
  }

  /** A character of `marks`, past white space: the equals sign, or the opening quote of a value. */
  function TakeMark(s: string, marks: string): (r: Option<(char, string)>)
    ensures r.Some? ==> |r.value.1| < |s| && r.value.0 in marks
  {
    var t := XmlText.SkipWhiteSpace(s);
    if t == [] || t[0] !in marks then None else Some((t[0], t[1..]))
  }

  /** An attribute after its name: equals sign and quoted value. */
  function TakeValue(o: Options, s: string): (r: Option<(string, string)>)
    ensures r.Some? ==> |r.value.1| < |s|
  {
    match TakeMark(s, "=")
    case None => None
    case Some((_, s1)) =>
      match TakeMark(s1, "\"'")
      case None => None
      case Some((quote, s2)) =>
        match TakeSpan(s2, [quote])
        case None => None
        case Some((span, s3)) => Some((Value(AttributeFlags(o), span), s3))
  }

  /** XMLAttribute::ParseDeep: name, equals sign, quoted value. */
  function TakeAttribute(o: Options, s: string): (r: Option<(Attribute, string)>)
    ensures r.Some? ==> |r.value.1| < |s|
  {
    match TakeName(s)
    case None => None
    case Some((name, s1)) =>
      match TakeValue(o, s1)
      case None => None
      case Some((value, s2)) => Some((Attribute(name, value), s2))
  }

  predicate HasAttribute(attributes: seq<Attribute>, name: string) {
    exists i :: 0 <= i < |attributes| && attributes[i].name == name
  }

  datatype AttributesResult =
    | BadAttributes(error: XMLError)
    | GoodAttributes(attributes: seq<Attribute>, rest: string, sealed: bool)

  /** The end of a tag: `>` or `/>`. */
  function TakeTagEnd(t: string, attributes: seq<Attribute>): (r: AttributesResult)
    ensures r.GoodAttributes? ==> |r.rest| < |t|
  {
    if t == [] then BadAttributes(ErrorParsingElement)
    else if t[0] == '>' then GoodAttributes(attributes, t[1..], false)
    else if t[0] == '/' && |t| > 1 && t[1] == '>' then GoodAttributes(attributes, t[2..], true)
    else BadAttributes(ErrorParsingElement)
  }

  /** XMLElement::ParseAttributes, `seen` being the attributes read so far. */
  function TakeAttributes(o: Options, s: string, seen: seq<Attribute>): (r: AttributesResult)
    ensures r.GoodAttributes? ==> |r.rest| < |s|
    decreases |s|
  {
    var t := XmlText.SkipWhiteSpace(s);
    if t != [] && IsNameStartChar(t[0]) then
      match TakeAttribute(o, t)
      case None => BadAttributes(ErrorParsingAttribute)
      case Some((a, rest)) =>
        if HasAttribute(seen, a.name) then BadAttributes(ErrorParsingAttribute)
        else TakeAttributes(o, rest, seen + [a])
    else TakeTagEnd(t, seen)
  }

  /** What a node's ParseDeep leaves: a node; the closing tag of the enclosing element; or a failure. */
  datatype NodeResult =
    | Parsed(node: Node, rest: string)
    | ClosingTag(name: string, rest: string)
    | Bad(error: XMLError)

  /** What a child list's ParseDeep leaves: the children read, and why it stopped. */
  datatype ListResult = ListResult(nodes: seq<Node>, stop: Stop)

  datatype Stop =
    | EndOfText
    | Closed(name: string, rest: string)
    | Failed(error: XMLError)

  function LeafTag(k: Kind): (t: string)
    ensures t != []
  {
    match k
    case KDeclaration => "?>"
    case KComment => "-->"
    case KCData => "]]>"
    case KUnknown => ">"
    case KElement => "<"
    case KText => "<"
  }

  function LeafError(k: Kind): XMLError {
    match k
    case KDeclaration => ErrorParsingDeclaration
    case KComment => ErrorParsingComment
    case KCData => ErrorParsingCData
    case KUnknown => ErrorParsingUnknown
    case KElement => ErrorParsingElement
    case KText => ErrorParsingText
  }

  function LeafFlags(o: Options, k: Kind): Flags {
    if k == KText then TextFlags(o) else NEWLINES
  }

  function Leaf(k: Kind, value: string): Node
    requires k != KElement
  {
    match k
    case KDeclaration => Declaration(value)
    case KComment => Comment(value)
    case KCData => Text(value, true)
    case KUnknown => Unknown(value)
    case KText => Text(value, false)
  }

  /** The ParseDeep of a node without children. Text gives its `<` back, and fails silently (so that the caller
      reports ErrorParsing) when nothing follows it. */
  function TakeLeaf(o: Options, k: Kind, s: string): (r: NodeResult)
    requires k != KElement
    ensures !r.ClosingTag?
    ensures r.Parsed? ==> |r.rest| <= |s| && (k == KText && s != [] && s[0] != '<' ==> |r.rest| < |s|)
    ensures r.Parsed? && k != KText ==> |r.rest| < |s|
  {
    match TakeSpan(s, LeafTag(k))
    case None => Bad(LeafError(k))
    case Some((span, rest)) =>
      if k == KText && rest == [] then Bad(ErrorParsing)
      else Parsed(Leaf(k, Value(LeafFlags(o, k), span)), if k == KText then ['<'] + rest else rest)
  }

  predicate WellLocated(inDocument: bool, before: seq<Node>) {
    inDocument && (before == [] || (before[0].Declaration? && before[|before| - 1].Declaration?))
  }

  datatype ClosingType = OPEN | CLOSED | CLOSING

  /** What XMLElement::ParseDeep leaves: nothing, with the error it has set if any; or the element, the name of the
      closing tag its children ended at, and the text after it. */
  datatype DeepResult =
    | DeepFailed(error: Option<XMLError>)
    | Deep(name: string, attributes: seq<Attribute>, children: seq<Node>, closing: ClosingType,
           endTag: Option<string>, rest: string)

  /** The tag of an element: its name, attributes and closing type; or the error set on the way, if any. */
  datatype TagResult =
    | NoTag(error: Option<XMLError>)
    | Tag(name: string, attributes: seq<Attribute>, closing: ClosingType, rest: string)

  /** The tag after its optional slash. */
  function TakeNamed(o: Options, s: string, slash: bool): (r: TagResult)
    ensures r.Tag? ==> |r.rest| < |s|
  {
    match TakeName(s)
    case None => NoTag(None)
    case Some((name, s1)) =>
      match TakeAttributes(o, s1, [])
      case BadAttributes(e) => NoTag(Some(e))
      case GoodAttributes(attributes, rest, sealed) =>
        Tag(name, attributes, if sealed then CLOSED else if slash then CLOSING else OPEN, rest)
  }

  function TakeTag(o: Options, s: string): (r: TagResult)
    ensures r.Tag? ==> |r.rest| < |s|
  {
    var t := XmlText.SkipWhiteSpace(s);
    var slash := t != [] && t[0] == '/';
    TakeNamed(o, if slash then t[1..] else t, slash)
  }

  /** An open element whose child list gave `list`. */
  function WithChildren(t: TagResult, list: ListResult): DeepResult
    requires t.Tag?
  {
    match list.stop
    case EndOfText => DeepFailed(None)
    case Failed(e) => DeepFailed(Some(e))
    case Closed(tag, after) => Deep(t.name, t.attributes, list.nodes, t.closing, Some(tag), after)
  }

  /** XMLElement::ParseDeep, `depth` child lists being open. */
  function ElementDeep(o: Options, s: string, depth: nat): (r: DeepResult)
    ensures r.Deep? ==> |r.rest| < |s|
    decreases |s|, 0
  {
    var t := TakeTag(o, s);
    if t.NoTag? then DeepFailed(t.error)
    else if t.rest == [] || t.closing != OPEN then Deep(t.name, t.attributes, [], t.closing, None, t.rest)
    else WithChildren(t, TakeLevel(o, t.rest, depth, false))
  }

  /** The checks a parent makes of an element it has parsed. */
  function CheckElement(d: DeepResult): (r: NodeResult)
    ensures !r.Bad? ==> d.Deep? && r.rest == d.rest
  {
    match d
    case DeepFailed(None) => Bad(ErrorParsing)
    case DeepFailed(Some(e)) => Bad(e)
    case Deep(name, attributes, children, closing, endTag, rest) =>
      if closing == CLOSING then ClosingTag(name, rest)
      else if endTag != (if closing == OPEN then Some(name) else None) then Bad(ErrorMismatchedElement)
      else Parsed(Element(name, attributes, children), rest)
  }

  /** XMLNode::ParseDeep: open one more level, refuse the hundredth, and read the child list. */
  function TakeLevel(o: Options, s: string, depth: nat, inDocument: bool): (r: ListResult)
    ensures r.stop.Closed? ==> |r.stop.rest| < |s|
    decreases |s|, 3
  {
    if depth + 1 == MAX_ELEMENT_DEPTH then ListResult([], Failed(ElementDepthExceeded))
    else TakeList(o, s, depth + 1, inDocument, [])
  }

  /** Its loop, `before` being the children already linked. */
  function TakeList(o: Options, s: string, depth: nat, inDocument: bool, before: seq<Node>): (r: ListResult)
    ensures r.stop.Closed? ==> |r.stop.rest| < |s|
    decreases |s|, 2
  {
    match TakeNode(o, s, depth)
    case None => ListResult(before, EndOfText)
    case Some(Bad(e)) => ListResult(before, Failed(e))
    case Some(ClosingTag(name, rest)) => ListResult(before, Closed(name, rest))
    case Some(Parsed(node, rest)) =>
      if node.Declaration? && !WellLocated(inDocument, before) then
        ListResult(before, Failed(ErrorParsingDeclaration))
      else TakeList(o, rest, depth, inDocument, before + [node])
  }

  /** One turn: identify the next node and parse it; nothing when the text has run out. */
  function TakeNode(o: Options, s: string, depth: nat): (r: Option<NodeResult>)
    ensures r.Some? && !r.value.Bad? ==> |r.value.rest| < |s|
    decreases |s|, 1
  {
    match Identify(s)
    case None => None
    case Some((k, rest)) =>
      Some(if k == KElement then CheckElement(ElementDeep(o, rest, depth)) else TakeLeaf(o, k, rest))
  }

  const BOM: string := [0xEF as char, 0xBB as char, 0xBF as char]

  datatype ParseResult = Ok(document: Document) | Error(error: XMLError, partial: seq<Node>)

  /** XMLDocument::Parse. A closing tag at the document's own level ends the parse without an error. */
  function Parse(o: Options, text: string): ParseResult {
    if text == [] then Error(ErrorEmptyDocument, [])
    else
      var s := XmlText.SkipWhiteSpace(text);
      var bom := BOM <= s;
      var t := if bom then s[3..] else s;
      if t == [] then Error(ErrorEmptyDocument, [])
      else
        var list := TakeLevel(o, t, 0, true);
        match list.stop
        case Failed(e) => Error(e, list.nodes)
        case _ => Ok(Document(bom, list.nodes))
  }
}
