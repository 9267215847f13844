/** The line that is reported with the first error of a parse: that of the node, attribute or level it is about
    (drivers/Mach3/tinyxml2.cpp:988-1100, 1147-1171, 1815-1871, 1898-1925, 2380-2402). */
module ErrorLines {
  import opened XmlUtil
  import opened XmlTree
  import opened XmlGrammar
  import opened LazyTree
  import opened NodeLines

  /** Attributes, read from `p` on with `seen` read before them: a bad one is reported on its own line, a bad end of the
      tag on the line of the element. */
  function AttributesErrorLine(o: Options, text: string, p: nat, seen: seq<Attribute>, line: nat): nat
    requires p <= |text|
    decreases |text| - p
  {
    var q := First(text, p);
    if q < |text| && IsNameStartChar(text[q]) then
      match TakeAttribute(o, text[q..])
      case None => LineAt(text, q)
      case Some((a, rest)) =>
        if HasAttribute(seen, a.name) then LineAt(text, q)
        else AttributesErrorLine(o, text, |text| - |rest|, seen + [a], line)
    else line
  }

  /** A tag whose header ends at `p`, of an element on `line`. */
  function TagErrorLine(o: Options, text: string, p: nat, line: nat): nat
    requires p <= |text|
  {
    AttributesErrorLine(o, text, AfterName(text, NamePlace(text, p)), [], line)
  }

  /** The node read from `p`: an error inside its tag or its list is reported there, and every other one on its line. */
  function NodeErrorLine(o: Options, text: string, p: nat, depth: nat): nat
    requires p <= |text|
    decreases |text| - p, 1
  {
    var q := First(text, p);
    if q < |text| && KindOf(text[q..]) == KElement then ElementErrorLine(o, text, q + 1, depth, LineAt(text, q))
    else LineAt(text, q)
  }

  function ElementErrorLine(o: Options, text: string, p: nat, depth: nat, line: nat): nat
    requires p <= |text|
    decreases |text| - p, 0
  {
    match TakeTag(o, text[p..])
    case NoTag(None) => line
    case NoTag(Some(_)) => TagErrorLine(o, text, p, line)
    case Tag(_, _, closing, rest) =>
      if rest != [] && closing == OPEN && TakeLevel(o, rest, depth, false).stop.Failed? then
        LevelErrorLine(o, text, |text| - |rest|, depth, false)
      else line
  }

  /** A child list that begins at `p`: the hundredth level is refused on the line of the parser. */
  function LevelErrorLine(o: Options, text: string, p: nat, depth: nat, inDocument: bool): nat
    requires p <= |text|
    decreases |text| - p, 3
  {
    if depth + 1 == MAX_ELEMENT_DEPTH then LineAt(text, p)
    else ListErrorLine(o, text, p, depth + 1, inDocument, [])
  }

  /** Its nodes from `p` on: the first that fails reports its line, and so does a misplaced declaration. */
  function ListErrorLine(o: Options, text: string, p: nat, depth: nat, inDocument: bool, before: seq<Node>): nat
    requires p <= |text|
    decreases |text| - p, 2
  {
    match TakeNode(o, text[p..], depth)
    case Some(Parsed(node, rest)) =>
      if node.Declaration? && !WellLocated(inDocument, before) then LineAt(text, First(text, p))
      else ListErrorLine(o, text, |text| - |rest|, depth, inDocument, before + [node])
    case _ => NodeErrorLine(o, text, p, depth)
  }

  /** Where the document's own list begins: past leading white space and the byte order mark. */
  function DocumentPlace(text: string): (p: nat)
    ensures p <= |text|
  {
    var q := First(text, 0);
    if BOM <= text[q..] then q + 3 else q
  }

  /** An empty document is reported on line 0. */
  function DocumentErrorLine(o: Options, text: string): nat {
    if DocumentPlace(text) == |text| then 0 else LevelErrorLine(o, text, DocumentPlace(text), 0, true)
  }
}
