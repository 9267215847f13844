/** What the printer writes, in compact and in pretty mode, as a function of the tree and of the printer's state
    (drivers/Mach3/tinyxml2.cpp:2561-2579, 2633-2835, 2788-2808). */
module XmlLayout {
  import opened XmlTree
  import opened XmlGrammar
  import opened XmlPrint

  function Spaces(depth: nat): string {
    if depth == 0 then "" else "    " + Spaces(depth - 1)
  }

  /** The part of the printer's state that layout depends on: the depth at which text was last written, or -1, and
      whether nothing but text has been written yet. */
  datatype Mood = Mood(textDepth: int, first: bool)

  /** Output, and the mood afterwards. */
  datatype Laid = Laid(output: string, mood: Mood)

  /** What goes before a node that is not text: a new line unless text has been written at this level or nothing at
      all, and indentation. An element is indented even after text. */
  function Lead(compact: bool, n: Node, depth: nat, m: Mood): string {
    if compact || n.Text? then ""
    else if m.textDepth < 0 && !m.first then "\n" + Spaces(depth)
    else if n.Element? then Spaces(depth) else ""
  }

  /** What goes before the closing tag of an element at `depth`. */
  function CloseLead(compact: bool, depth: nat, m: Mood): string {
    if m.textDepth < 0 && !compact then "\n" + Spaces(depth) else ""
  }

  /** The mood once an element at `depth` has been closed. */
  function AfterClose(depth: nat, m: Mood): Mood {
    if m.textDepth == depth then m.(textDepth := -1) else m
  }

  function Lay(entities: bool, compact: bool, n: Node, depth: nat, m: Mood): Laid
    decreases n, 0
  {
    if n.Element? then
      var open := Lead(compact, n, depth, m) + OpenTag(entities, n.name, n.attributes);
      var inside := LayAll(entities, compact, n.children, depth + 1, m.(first := false));
      Laid(open
           + (if n.children == [] then "/>"
              else ">" + inside.output + CloseLead(compact, depth, inside.mood) + CloseTag(n.name))
           + if depth == 0 && !compact then "\n" else "",
           AfterClose(depth, inside.mood))
    else if n.Text? then Laid(PrintNode(entities, n), m.(textDepth := depth - 1))
    else Laid(Lead(compact, n, depth, m) + PrintNode(entities, n), m.(first := false))
  }

  function LayAll(entities: bool, compact: bool, ns: seq<Node>, depth: nat, m: Mood): Laid
    decreases ns, 1
  {
    if ns == [] then Laid("", m)
    else
      var head := Lay(entities, compact, ns[0], depth, m);
      var tail := LayAll(entities, compact, ns[1..], depth, head.mood);
      Laid(head.output + tail.output, tail.mood)
  }

  const START := Mood(-1, true)

  /** XMLDocument::Print to a fresh printer. */
  function Layout(entities: bool, compact: bool, d: Document): string {
    (if d.bom then BOM else "") + LayAll(entities, compact, d.children, 0, START).output
  }

  /** In compact mode the state does not matter: the output is the compact serialisation. */
  lemma {:induction false} CompactLay(entities: bool, n: Node, depth: nat, m: Mood)
    ensures Lay(entities, true, n, depth, m).output == PrintNode(entities, n)
    decreases n, 0
  {
    hide OpenTag, CloseTag;
    if n.Element? {
      CompactLayAll(entities, n.children, depth + 1, m.(first := false));
    }
  }

  lemma {:induction false} CompactLayAll(entities: bool, ns: seq<Node>, depth: nat, m: Mood)
    ensures LayAll(entities, true, ns, depth, m).output == PrintNodes(entities, ns)
    decreases ns, 1
  {
    hide Lay, PrintNode;
    if ns != [] {
      CompactLay(entities, ns[0], depth, m);
      CompactLayAll(entities, ns[1..], depth, Lay(entities, true, ns[0], depth, m).mood);
    }
  }

  lemma CompactLayout(entities: bool, d: Document)
    ensures Layout(entities, true, d) == Print(entities, d)
  {
    CompactLayAll(entities, d.children, 0, START);
  }
}
