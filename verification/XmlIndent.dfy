/** Where the printer puts white space of its own, told by what stands around it in the tree: a text switches it off up
    to the end of its element, and white space before a start tag stays (drivers/Mach3/tinyxml2.cpp:2561-2659). */
module XmlIndent {
  import opened XmlTree
  import opened XmlGrammar
  import opened XmlEscape
  import opened XmlPrint
  import opened XmlLayout

  /** In a child list: whether a text has been written in the element of the list, or in one around it. */
  datatype Flow = NoText | OwnText | OuterText

  function Escaped(entities: bool, quotes: bool, s: string): string {
    if entities then Escape(!quotes, s) else s
  }

  function Shown(entities: bool, attributes: seq<Attribute>): string {
    if attributes == [] then ""
    else
      " " + attributes[0].name + "=\"" + Escaped(entities, true, attributes[0].value) + "\""
      + Shown(entities, attributes[1..])
  }

  /** Four spaces a level. */
  function Margin(depth: nat): string {
    seq(4 * depth, _ => ' ')
  }

  /** A list inside a list: a text around it, if any, is an outer one. */
  function Inner(flow: Flow): Flow {
    if flow.NoText? then NoText else OuterText
  }

  /** Past an element: a text of its own ends there, and one around it goes on. */
  function Outer(flow: Flow, inside: Flow): Flow {
    if inside.OuterText? then flow else NoText
  }

  /** The flow past a node of a list at `depth`. */
  function Past(n: Node, depth: nat, flow: Flow): Flow
    decreases n, 0
  {
    match n
    case Element(_, _, children) => Outer(flow, PastAll(children, depth + 1, Inner(flow)))
    case Text(_, _) => if depth == 0 then NoText else OwnText
    case _ => flow
  }

  function PastAll(ns: seq<Node>, depth: nat, flow: Flow): Flow
    decreases ns, 1
  {
    if ns == [] then flow else PastAll(ns[1..], depth, Past(ns[0], depth, flow))
  }

  /** White space before a node: a new line and a margin where no text is near; before the very first node, and in a
      text, only the margin of an element. */
  function Ahead(pretty: bool, n: Node, depth: nat, flow: Flow, first: bool): string {
    if !pretty then ""
    else match n
    case Text(_, _) => ""
    case Element(_, _, _) => if flow.NoText? && !first then "\n" + Margin(depth) else Margin(depth)
    case _ => if flow.NoText? && !first then "\n" + Margin(depth) else ""
  }

  /** A node of a list at `depth`; `first` says that no tag or mark has been written yet. */
  function Drawn(entities: bool, pretty: bool, n: Node, depth: nat, flow: Flow, first: bool): string
    decreases n, 0
  {
    match n
    case Element(name, attributes, children) =>
      Ahead(pretty, n, depth, flow, first) + ("<" + name + Shown(entities, attributes))
      + (if children == [] then "/>"
         else
           ">" + DrawnAll(entities, pretty, children, depth + 1, Inner(flow), false)
           + (if pretty && PastAll(children, depth + 1, Inner(flow)).NoText? then "\n" + Margin(depth) else "")
           + ("</" + name + ">"))
      + (if pretty && depth == 0 then "\n" else "")
    case Text(value, cdata) => if cdata then "<![CDATA[" + value + "]]>" else Escaped(entities, false, value)
    case Comment(value) => Ahead(pretty, n, depth, flow, first) + ("<!--" + value + "-->")
    case Declaration(value) => Ahead(pretty, n, depth, flow, first) + ("<?" + value + "?>")
    case Unknown(value) => Ahead(pretty, n, depth, flow, first) + ("<!" + value + ">")
  }

  function DrawnAll(entities: bool, pretty: bool, ns: seq<Node>, depth: nat, flow: Flow, first: bool): string
    decreases ns, 1
  {
    if ns == [] then ""
    else
      Drawn(entities, pretty, ns[0], depth, flow, first)
      + DrawnAll(entities, pretty, ns[1..], depth, Past(ns[0], depth, flow), first && ns[0].Text?)
  }

  // ---------- the printer's state says the same ----------

  /** The depth of the last text, seen from a list at `depth`. */
  function FlowOf(textDepth: int, depth: nat): Flow {
    if textDepth < 0 then NoText else if textDepth == depth - 1 then OwnText else OuterText
  }

  lemma {:induction false} MarginIsSpaces(depth: nat)
    ensures Spaces(depth) == Margin(depth)
  {
    if depth > 0 {
      MarginIsSpaces(depth - 1);
      assert Margin(depth) == "    " + Margin(depth - 1);
    }
  }

  lemma {:induction false} ShownIsPrinted(entities: bool, attributes: seq<Attribute>)
    ensures PrintAttributes(entities, attributes) == Shown(entities, attributes)
  {
    hide Escape;
    if attributes != [] {
      ShownIsPrinted(entities, attributes[1..]);
    }
  }

  lemma AheadIsLead(pretty: bool, n: Node, depth: nat, m: Mood)
    ensures Lead(!pretty, n, depth, m) == Ahead(pretty, n, depth, FlowOf(m.textDepth, depth), m.first)
  {
    MarginIsSpaces(depth);
  }

  /** After a node at `depth` the depth of the last text is below it. */
  predicate Settled(m: Mood, depth: nat) {
    -1 <= m.textDepth < depth || m.textDepth == -1
  }

  /** Inside an element the depth of an outer text only goes away. */
  predicate Goes(from: int, to: int, depth: nat) {
    to == from || to == -1 || to == depth - 1
  }

  lemma {:induction false} LayIsDrawn(entities: bool, pretty: bool, n: Node, depth: nat, m: Mood)
    requires Settled(m, depth)
    ensures var laid, flow := Lay(entities, !pretty, n, depth, m), FlowOf(m.textDepth, depth);
      && laid.output == Drawn(entities, pretty, n, depth, flow, m.first)
      && FlowOf(laid.mood.textDepth, depth) == Past(n, depth, flow) && laid.mood.first == (m.first && n.Text?)
      && Settled(laid.mood, depth) && Goes(m.textDepth, laid.mood.textDepth, depth)
    decreases n, 0
  {
    hide Escape;
    if n.Element? {
      hide Lay, Drawn, Past, FlowOf, Settled, Goes;
      ElementIsDrawn(entities, pretty, n, depth, m);
    } else {
      LeafIsDrawn(entities, pretty, n, depth, m);
    }
  }

  lemma LeafIsDrawn(entities: bool, pretty: bool, n: Node, depth: nat, m: Mood)
    requires !n.Element? && Settled(m, depth)
    ensures var laid, flow := Lay(entities, !pretty, n, depth, m), FlowOf(m.textDepth, depth);
      && laid.output == Drawn(entities, pretty, n, depth, flow, m.first)
      && FlowOf(laid.mood.textDepth, depth) == Past(n, depth, flow) && laid.mood.first == (m.first && n.Text?)
      && Settled(laid.mood, depth) && Goes(m.textDepth, laid.mood.textDepth, depth)
  {
    hide Lead, Ahead, Escape;
    AheadIsLead(pretty, n, depth, m);
  }

  lemma {:induction false} ElementIsDrawn(entities: bool, pretty: bool, n: Node, depth: nat, m: Mood)
    requires n.Element? && Settled(m, depth)
    ensures var laid, flow := Lay(entities, !pretty, n, depth, m), FlowOf(m.textDepth, depth);
      && laid.output == Drawn(entities, pretty, n, depth, flow, m.first)
      && FlowOf(laid.mood.textDepth, depth) == Past(n, depth, flow) && !laid.mood.first
      && Settled(laid.mood, depth) && Goes(m.textDepth, laid.mood.textDepth, depth)
    decreases n.children, 2
  {
    hide Lead, Ahead, Escape, Spaces, Margin, LayAll, DrawnAll, PastAll, PrintAttributes, Shown;
    hide Settled, Goes, FlowOf, Inner, Outer, AfterClose, CloseLead;
    var inner := m.(first := false);
    MoodInside(m, depth);
    LayAllIsDrawn(entities, pretty, n.children, depth + 1, inner);
    var inside := LayAll(entities, !pretty, n.children, depth + 1, inner).mood;
    MoodPast(m, inside, depth);
    AheadIsLead(pretty, n, depth, m);
    ShownIsPrinted(entities, n.attributes);
    CloseLeadIs(pretty, inside, depth);
  }

  lemma MoodInside(m: Mood, depth: nat)
    requires Settled(m, depth)
    ensures Settled(m.(first := false), depth + 1)
    ensures FlowOf(m.textDepth, depth + 1) == Inner(FlowOf(m.textDepth, depth))
  {
  }

  lemma MoodPast(m: Mood, inside: Mood, depth: nat)
    requires Settled(m, depth) && Settled(inside, depth + 1) && Goes(m.textDepth, inside.textDepth, depth + 1)
    ensures var after := AfterClose(depth, inside);
      && Settled(after, depth) && Goes(m.textDepth, after.textDepth, depth) && after.first == inside.first
      && FlowOf(after.textDepth, depth) == Outer(FlowOf(m.textDepth, depth), FlowOf(inside.textDepth, depth + 1))
  {
  }

  lemma CloseLeadIs(pretty: bool, inside: Mood, depth: nat)
    ensures CloseLead(!pretty, depth, inside)
         == if pretty && FlowOf(inside.textDepth, depth + 1).NoText? then "\n" + Margin(depth) else ""
  {
    MarginIsSpaces(depth);
  }

  lemma {:induction false} LayAllIsDrawn(entities: bool, pretty: bool, ns: seq<Node>, depth: nat, m: Mood)
    requires Settled(m, depth)
    ensures var laid, flow := LayAll(entities, !pretty, ns, depth, m), FlowOf(m.textDepth, depth);
      && laid.output == DrawnAll(entities, pretty, ns, depth, flow, m.first)
      && FlowOf(laid.mood.textDepth, depth) == PastAll(ns, depth, flow)
      && (!m.first ==> !laid.mood.first)
      && Settled(laid.mood, depth) && Goes(m.textDepth, laid.mood.textDepth, depth)
    decreases ns, 1
  {
    hide Lay, Drawn, Past;
    if ns != [] {
      LayIsDrawn(entities, pretty, ns[0], depth, m);
      LayAllIsDrawn(entities, pretty, ns[1..], depth, Lay(entities, !pretty, ns[0], depth, m).mood);
    }
  }

  /** What is printed in either mode, for every tree. */
  lemma LayoutIsDrawn(entities: bool, pretty: bool, d: Document)
    ensures Layout(entities, !pretty, d)
         == (if d.bom then [0xEF as char, 0xBB as char, 0xBF as char] else "")
            + DrawnAll(entities, pretty, d.children, 0, NoText, true)
  {
    LayAllIsDrawn(entities, pretty, d.children, 0, START);
  }
}
