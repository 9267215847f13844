/** The compact serialisation as a function of the tree (drivers/Mach3/tinyxml2.cpp:2494-2546, 2561-2835), and which
    trees it can represent. */
module XmlPrint {
  import opened XmlUtil
  import opened XmlText
  import opened XmlEscape
  import opened XmlTree
  import opened XmlGrammar

  /** PrintString: escaped unless entity processing is off. */
  function PrintString(entities: bool, restricted: bool, s: string): string {
    if entities then Escape(restricted, s) else s
  }

  function PrintAttribute(entities: bool, a: Attribute): string {
    " " + a.name + "=\"" + PrintString(entities, false, a.value) + "\""
  }

  function PrintAttributes(entities: bool, attributes: seq<Attribute>): string {
    if attributes == [] then ""
    else PrintAttribute(entities, attributes[0]) + PrintAttributes(entities, attributes[1..])
  }

  function OpenTag(entities: bool, name: string, attributes: seq<Attribute>): string {
    "<" + name + PrintAttributes(entities, attributes)
  }

  function CloseTag(name: string): string {
    "</" + name + ">"
  }

  function PrintNode(entities: bool, n: Node): (r: string)
    decreases n, 0
  {
    match n
    case Element(name, attributes, children) =>
      OpenTag(entities, name, attributes) +
      if children == [] then "/>" else ">" + PrintNodes(entities, children) + CloseTag(name)
    case Text(value, cdata) => if cdata then "<![CDATA[" + value + "]]>" else PrintString(entities, true, value)
    case Comment(value) => "<!--" + value + "-->"
    case Declaration(value) => "<?" + value + "?>"
    case Unknown(value) => "<!" + value + ">"
  }

  function PrintNodes(entities: bool, ns: seq<Node>): string
    decreases ns, 1
  {
    if ns == [] then "" else PrintNode(entities, ns[0]) + PrintNodes(entities, ns[1..])
  }

  function Print(entities: bool, d: Document): string {
    (if d.bom then BOM else "") + PrintNodes(entities, d.children)
  }

  // ---------- representable trees ----------

  predicate IsName(s: string) {
    s != [] && IsNameStartChar(s[0]) && forall i :: 0 <= i < |s| ==> IsNameChar(s[i])
  }

  /** Strings the buffer can carry: no NUL, and no CR, which is read back as LF. */
  predicate IsPlain(s: string) {
    NoNul(s) && NoCR(s)
  }

  predicate AttributeOk(o: Options, a: Attribute) {
    IsName(a.name) && IsPlain(a.value) && (o.processEntities || Lacks(a.value, '\"'))
  }

  predicate AttributesOk(o: Options, attributes: seq<Attribute>) {
    && (forall i :: 0 <= i < |attributes| ==> AttributeOk(o, attributes[i]))
    && (forall i, j :: 0 <= i < j < |attributes| ==> attributes[i].name != attributes[j].name)
  }

  predicate TextOk(o: Options, s: string) {
    && IsPlain(s) && XmlText.SkipWhiteSpace(s) != []
    && (o.processEntities || Lacks(s, '<'))
    && (o.collapseWhitespace ==> Collapse(s) == s)
  }

  predicate IsPlainText(n: Node) {
    n.Text? && !n.cdata
  }

  predicate NodeOk(o: Options, n: Node)
    decreases n, 0
  {
    match n
    case Element(name, attributes, children) =>
      IsName(name) && AttributesOk(o, attributes) && NodesOk(o, children) && NoDeclarations(children)
    case Text(value, cdata) => if cdata then IsPlain(value) && Find(value, "]]>").None? else TextOk(o, value)
    case Comment(value) => IsPlain(value) && Find(value, "-->").None?
    case Declaration(value) => IsPlain(value) && Find(value, "?>").None?
    case Unknown(value) => IsPlain(value) && Find(value, ">").None? && !("--" <= value) && !("[CDATA[" <= value)
  }

  /** Every node is representable, and no plain text follows plain text. */
  predicate NodesOk(o: Options, ns: seq<Node>)
    decreases ns, 1
  {
    ns == [] || (NodeOk(o, ns[0]) && NodesOk(o, ns[1..]) && !(|ns| > 1 && IsPlainText(ns[0]) && IsPlainText(ns[1])))
  }

  predicate NoDeclarations(ns: seq<Node>) {
    forall i :: 0 <= i < |ns| ==> !ns[i].Declaration?
  }

  /** Declarations come before everything else. */
  predicate DeclarationsLead(ns: seq<Node>) {
    forall i, j :: 0 <= i < j < |ns| && ns[j].Declaration? ==> ns[i].Declaration?
  }

  /** How many child lists are open inside `n`; an element without children opens none. */
  function Height(n: Node): nat
    decreases n, 0
  {
    if n.Element? && n.children != [] then 1 + Heights(n.children) else 0
  }

  function Heights(ns: seq<Node>): nat
    decreases ns, 1
  {
    if ns == [] then 0
    else
      var h, t := Height(ns[0]), Heights(ns[1..]);
      if h < t then t else h
  }

  /** A document the compact form can represent. Text at the document's level is kept when something follows it and,
      if it comes first, when it cannot be taken for leading white space or a byte order mark. */
  predicate DocumentOk(o: Options, d: Document) {
    && d.children != [] && NodesOk(o, d.children) && DeclarationsLead(d.children)
    && Heights(d.children) < MAX_ELEMENT_DEPTH - 1
    && !IsPlainText(d.children[|d.children| - 1])
    && (IsPlainText(d.children[0]) && !d.bom ==>
          var s := d.children[0].value;
          s != [] && !IsWhiteSpace(s[0]) && !(BOM <= s))
  }
}
