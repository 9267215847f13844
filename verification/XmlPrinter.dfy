/** XMLPrinter: the visitor that writes a document (drivers/Mach3/tinyxml2.cpp:2410-2835). The buffer's trailing NUL and
    the choice between a file and a buffer are not modelled: `output` is what has been written. */
module XmlPrinters {
  import opened XmlText
  import opened XmlEscape
  import opened XmlTree
  import opened XmlGrammar
  import opened XmlPrint
  import opened XmlLayout

  class XMLPrinter {
    var output: string
    var elementJustOpened: bool
    var stack: seq<string>
    var firstElement: bool
    var depth: nat
    var textDepth: int
    var processEntities: bool
    const compactMode: bool

    constructor (compact: bool)
      ensures output == "" && !elementJustOpened && stack == [] && firstElement && depth == 0 && textDepth == -1
      ensures processEntities && compactMode == compact
    {
      output, elementJustOpened, stack, firstElement := "", false, [], true;
      depth, textDepth, processEntities, compactMode := 0, -1, true, compact;
    }

    /** The part of the state that decides the layout. */
    function State(): Mood
      reads this
    {
      Mood(textDepth, firstElement)
    }

    /** What has been written once a pending open tag is sealed. */
    function Sealed(): string
      reads this
    {
      output + if elementJustOpened then ">" else ""
    }

    method Write(s: string)
      modifies this`output
      ensures output == old(output) + s
    {
      output := output + s;
    }

    method PrintSpace(n: nat)
      modifies this`output
      ensures output == old(output) + Spaces(n)
    {
      for i := 0 to n
        invariant output + Spaces(n - i) == old(output) + Spaces(n)
      {
        assert output + ("    " + Spaces(n - i - 1)) == output + "    " + Spaces(n - i - 1);
        Write("    ");
      }
    }

    /** PrintString: runs of plain characters are written as they are, flagged ones as entities. */
    method PutString(s: string, restricted: bool)
      modifies this`output
      ensures output == old(output) + PrintString(processEntities, restricted, s)
    {
      hide Escape, EntityText, Pattern;
      if !processEntities {
        Write(s);
        return;
      }
      var p, q := 0, 0;
      assert s[0..] == s;
      while q < |s|
        invariant p <= q <= |s| && forall i :: p <= i < q ==> !IsFlagged(restricted, s[i])
        invariant output + Escape(restricted, s[p..]) == old(output) + Escape(restricted, s)
      {
        if IsFlagged(restricted, s[q]) {
          FlushRun(restricted, s, p, q, output);
          PutRun(s, p, q);
          p := q + 1;
        }
        q := q + 1;
      }
      FlushRest(restricted, s, p);
      if p < q {
        Write(s[p..]);
      }
    }

    /** A run of characters, and the entity for the flagged one that ends it. */
    method PutRun(s: string, p: nat, q: nat)
      requires p <= q < |s|
      modifies this`output
      ensures output == old(output) + (s[p..q] + EntityText(s[q]))
    {
      if p < q {
        Write(s[p..q]);
      }
      Write("&");
      Write(Pattern(s[q]));
      Write(";");
    }

    method SealElementIfJustOpened()
      modifies this`output, this`elementJustOpened
      ensures output == old(Sealed()) && !elementJustOpened
    {
      if elementJustOpened {
        elementJustOpened := false;
        Write(">");
      }
    }

    /** What OpenElement writes before the tag. */
    method LeadElement(ghost name: string)
      modifies this`output
      ensures output == old(output) + Lead(compactMode, Element(name, [], []), depth, State())
    {
      hide Spaces;
      if textDepth < 0 && !firstElement && !compactMode {
        Write("\n");
      }
      if !compactMode {
        PrintSpace(depth);
      }
    }

    method OpenElement(name: string)
      modifies this
      ensures output
           == old(Sealed()) + (Lead(compactMode, Element(name, [], []), old(depth), old(State())) + ("<" + name))
      ensures elementJustOpened && !firstElement && depth == old(depth) + 1 && stack == old(stack) + [name]
      ensures textDepth == old(textDepth) && processEntities == old(processEntities)
    {
      hide Lead;
      ghost var lead := Lead(compactMode, Element(name, [], []), depth, State());
      SealElementIfJustOpened();
      stack := stack + [name];
      LeadElement(name);
      assert output == old(Sealed()) + lead;
      Write("<");
      Write(name);
      assert old(Sealed()) + lead + "<" + name == old(Sealed()) + (lead + ("<" + name));
      elementJustOpened := true;
      firstElement := false;
      depth := depth + 1;
    }

    method PushAttribute(name: string, value: string)
      modifies this`output
      ensures output == old(output) + PrintAttribute(processEntities, Attribute(name, value))
    {
      Write(" ");
      Write(name);
      Write("=\"");
      PutString(value, false);
      Write("\"");
    }

    method PushAttributes(attributes: seq<Attribute>)
      modifies this`output
      ensures output == old(output) + PrintAttributes(processEntities, attributes)
    {
      hide PrintAttribute;
      for i := 0 to |attributes|
        invariant output + PrintAttributes(processEntities, attributes[i..])
               == old(output) + PrintAttributes(processEntities, attributes)
      {
        var a := attributes[i];
        assert attributes[i..][1..] == attributes[i + 1..];
        Append3(output, PrintAttribute(processEntities, a), PrintAttributes(processEntities, attributes[i + 1..]));
        PushAttribute(a.name, a.value);
      }
    }

    /** The closing tag on a line of its own unless text has been written inside. */
    method PutClosingTag(name: string)
      modifies this`output
      ensures output == old(output) + (CloseLead(compactMode, depth, State()) + CloseTag(name))
    {
      hide Spaces;
      if textDepth < 0 && !compactMode {
        Write("\n");
        PrintSpace(depth);
      }
      Write("</");
      Write(name);
      Write(">");
    }

    method CloseElement()
      requires depth > 0 && stack != []
      modifies this
      ensures stack == old(stack)[..|old(stack)| - 1] && depth == old(depth) - 1 && !elementJustOpened
      ensures output == old(output)
        + (if old(elementJustOpened) then "/>"
           else CloseLead(compactMode, depth, old(State())) + CloseTag(old(stack)[|stack|]))
        + (if depth == 0 && !compactMode then "\n" else "")
      ensures State() == AfterClose(depth, old(State())) && processEntities == old(processEntities)
    {
      hide CloseLead, CloseTag;
      depth := depth - 1;
      var name := stack[|stack| - 1];
      stack := stack[..|stack| - 1];
      if elementJustOpened {
        Write("/>");
      } else {
        PutClosingTag(name);
      }
      if textDepth == depth {
        textDepth := -1;
      }
      if depth == 0 && !compactMode {
        Write("\n");
      }
      elementJustOpened := false;
    }

    method PushText(text: string, cdata: bool)
      modifies this`output, this`elementJustOpened, this`textDepth
      ensures output == old(Sealed()) + PrintNode(processEntities, Text(text, cdata))
      ensures textDepth == depth - 1 && !elementJustOpened
    {
      textDepth := depth - 1;
      SealElementIfJustOpened();
      if cdata {
        Write("<![CDATA[");
        Write(text);
        Write("]]>");
      } else {
        PutString(text, true);
      }
    }

    /** What PushComment, PushDeclaration and PushUnknown begin with. */
    method StartLine()
      modifies this`output, this`elementJustOpened, this`firstElement
      ensures output == old(Sealed()) + Lead(compactMode, Comment(""), depth, old(State()))
      ensures !elementJustOpened && !firstElement
    {
      SealElementIfJustOpened();
      if textDepth < 0 && !firstElement && !compactMode {
        Write("\n");
        PrintSpace(depth);
      }
      firstElement := false;
    }

    lemma LineLead(n: Node, depth: nat, m: Mood)
      requires !n.Element? && !n.Text?
      ensures Lead(compactMode, n, depth, m) == Lead(compactMode, Comment(""), depth, m)
    {
    }

    method PutMarked(open: string, value: string, close: string)
      modifies this`output
      ensures output == old(output) + (open + value + close)
    {
      Write(open);
      Write(value);
      Write(close);
    }

    method PushComment(comment: string)
      modifies this`output, this`elementJustOpened, this`firstElement
      ensures output == old(Sealed()) + Lead(compactMode, Comment(comment), depth, old(State()))
        + PrintNode(processEntities, Comment(comment))
      ensures !elementJustOpened && !firstElement
    {
      hide Lead;
      StartLine();
      LineLead(Comment(comment), depth, old(State()));
      PutMarked("<!--", comment, "-->");
    }

    method PushDeclaration(value: string)
      modifies this`output, this`elementJustOpened, this`firstElement
      ensures output == old(Sealed()) + Lead(compactMode, Declaration(value), depth, old(State()))
        + PrintNode(processEntities, Declaration(value))
      ensures !elementJustOpened && !firstElement
    {
      hide Lead;
      StartLine();
      LineLead(Declaration(value), depth, old(State()));
      PutMarked("<?", value, "?>");
    }

    method PushUnknown(value: string)
      modifies this`output, this`elementJustOpened, this`firstElement
      ensures output == old(Sealed()) + Lead(compactMode, Unknown(value), depth, old(State()))
        + PrintNode(processEntities, Unknown(value))
      ensures !elementJustOpened && !firstElement
    {
      hide Lead;
      StartLine();
      LineLead(Unknown(value), depth, old(State()));
      PutMarked("<!", value, ">");
    }

    /** Accept on a node: its layout is written, after the seal of an open tag, and the nesting is as before. */
    method Accept(n: Node)
      modifies this
      ensures output == old(Sealed()) + Lay(old(processEntities), compactMode, n, depth, old(State())).output
      ensures State() == Lay(processEntities, compactMode, n, depth, old(State())).mood
      ensures !elementJustOpened && depth == old(depth) && stack == old(stack)
      ensures processEntities == old(processEntities)
      decreases n, 0
    {
      hide Lay, Lead, PrintNode;
      LeafLaid(processEntities, compactMode, n, depth, State(), Sealed());
      match n {
        case Element(name, attributes, children) => AcceptElement(n, name, attributes, children);
        case Text(value, cdata) => PushText(value, cdata);
        case Comment(value) => PushComment(value);
        case Declaration(value) => PushDeclaration(value);
        case Unknown(value) => PushUnknown(value);
      }
    }

    /** Accept on an element: VisitEnter, the children, VisitExit. */
    method AcceptElement(ghost n: Node, name: string, attributes: seq<Attribute>, children: seq<Node>)
      requires n == Element(name, attributes, children)
      modifies this
      ensures output == old(Sealed()) + Lay(old(processEntities), compactMode, n, depth, old(State())).output
      ensures State() == Lay(processEntities, compactMode, n, depth, old(State())).mood
      ensures !elementJustOpened && depth == old(depth) && stack == old(stack)
      ensures processEntities == old(processEntities)
      decreases children, 2
    {
      hide Lay, LayAll, Lead, PrintNode, PrintAttributes, CloseLead, CloseTag, AfterClose;
      ElementLaid(processEntities, compactMode, n, depth, State(), Sealed());
      OpenElement(name);
      PushAttributes(attributes);
      AcceptAll(children);
      CloseElement();
    }

    /** Accept on a child list. */
    method AcceptAll(ns: seq<Node>)
      modifies this
      ensures output == (if ns == [] then old(output)
        else old(Sealed()) + LayAll(old(processEntities), compactMode, ns, depth, old(State())).output)
      ensures State() == LayAll(processEntities, compactMode, ns, depth, old(State())).mood
      ensures elementJustOpened == (old(elementJustOpened) && ns == [])
      ensures depth == old(depth) && stack == old(stack) && processEntities == old(processEntities)
      decreases ns, 1
    {
      hide Lay, LayAll;
      ghost var all := LayAll(processEntities, compactMode, ns, depth, State());
      NothingLaid(processEntities, compactMode, depth, State());
      assert ns[0..] == ns;
      for i := 0 to |ns|
        invariant depth == old(depth) && stack == old(stack) && processEntities == old(processEntities)
        invariant elementJustOpened == (old(elementJustOpened) && i == 0)
        invariant i == 0 ==> output == old(output)
        invariant LayAll(processEntities, compactMode, ns[i..], depth, State()).mood == all.mood
        invariant Sealed() + LayAll(processEntities, compactMode, ns[i..], depth, State()).output
               == old(Sealed()) + all.output
      {
        ListLaid(processEntities, compactMode, ns, i, depth, State(), Sealed());
        Accept(ns[i]);
      }
      assert ns[|ns|..] == [];
      NothingLaid(processEntities, compactMode, depth, State());
    }

    /** XMLDocument::Accept on a printer that is between elements. */
    method AcceptDocument(d: Document, entities: bool)
      requires !elementJustOpened && depth == 0
      modifies this
      ensures output == old(output) + ((if d.bom then BOM else "")
        + LayAll(entities, compactMode, d.children, 0, old(State())).output)
    {
      hide LayAll;
      NothingLaid(entities, compactMode, 0, State());
      processEntities := entities;
      if d.bom {
        Write(BOM);
        Append3(old(output), BOM, LayAll(entities, compactMode, d.children, 0, State()).output);
      }
      AcceptAll(d.children);
    }
  }

  /** Printing a document to a fresh printer writes its layout; in compact mode that is the compact serialisation. */
  method PrintDocument(d: Document, entities: bool, compact: bool) returns (text: string)
    ensures text == Layout(entities, compact, d)
    ensures compact ==> text == Print(entities, d)
  {
    var printer := new XMLPrinter(compact);
    printer.AcceptDocument(d, entities);
    CompactLayout(entities, d);
    text := printer.output;
  }

  lemma NothingLaid(entities: bool, compact: bool, depth: nat, m: Mood)
    ensures LayAll(entities, compact, [], depth, m) == Laid("", m)
  {
  }

  /** One node of a list and the rest of it, after what has been written. */
  lemma ListLaid(entities: bool, compact: bool, ns: seq<Node>, i: nat, depth: nat, m: Mood, written: string)
    requires i < |ns|
    ensures var head := Lay(entities, compact, ns[i], depth, m);
      var tail := LayAll(entities, compact, ns[i + 1..], depth, head.mood);
      && LayAll(entities, compact, ns[i..], depth, m).mood == tail.mood
      && written + LayAll(entities, compact, ns[i..], depth, m).output == written + head.output + tail.output
  {
    hide Lay;
    var head := Lay(entities, compact, ns[i], depth, m);
    assert ns[i..][1..] == ns[i + 1..] && ns[i..][0] == ns[i];
    Append3(written, head.output, LayAll(entities, compact, ns[i + 1..], depth, head.mood).output);
  }

  /** The layout of a node that is not an element. */
  lemma LeafLaid(entities: bool, compact: bool, n: Node, depth: nat, m: Mood, written: string)
    ensures n.Text? ==> Lay(entities, compact, n, depth, m) == Laid(PrintNode(entities, n), m.(textDepth := depth - 1))
    ensures !n.Text? && !n.Element? ==>
      && Lay(entities, compact, n, depth, m).mood == m.(first := false)
      && written + Lay(entities, compact, n, depth, m).output
           == written + Lead(compact, n, depth, m) + PrintNode(entities, n)
  {
    hide PrintNode, Lead;
    Append3(written, Lead(compact, n, depth, m), PrintNode(entities, n));
  }

  /** The layout of an element, in the order in which the visitor writes it. */
  lemma ElementLaid(entities: bool, compact: bool, n: Node, depth: nat, m: Mood, written: string)
    requires n.Element?
    ensures var inside := LayAll(entities, compact, n.children, depth + 1, m.(first := false));
      var begun := written + (Lead(compact, Element(n.name, [], []), depth, m) + ("<" + n.name))
        + PrintAttributes(entities, n.attributes);
      && Lay(entities, compact, n, depth, m).mood == AfterClose(depth, inside.mood)
      && written + Lay(entities, compact, n, depth, m).output
           == (if n.children == [] then begun + "/>"
               else begun + ">" + inside.output + (CloseLead(compact, depth, inside.mood) + CloseTag(n.name)))
             + (if depth == 0 && !compact then "\n" else "")
  {
    hide LayAll, PrintAttributes, CloseLead, CloseTag, AfterClose, Spaces;
    var inside := LayAll(entities, compact, n.children, depth + 1, m.(first := false));
    var lead := Lead(compact, n, depth, m);
    Opened(written, lead, "<" + n.name, PrintAttributes(entities, n.attributes),
      if n.children == [] then "/>"
      else ">" + inside.output + CloseLead(compact, depth, inside.mood) + CloseTag(n.name),
      if depth == 0 && !compact then "\n" else "");
    var begun := written + (lead + ("<" + n.name)) + PrintAttributes(entities, n.attributes);
    Closed(begun, inside.output, CloseLead(compact, depth, inside.mood), CloseTag(n.name));
  }

  lemma Opened(written: string, lead: string, tag: string, attributes: string, body: string, tail: string)
    ensures written + (lead + (tag + attributes) + body + tail) == written + (lead + tag) + attributes + body + tail
  {
  }

  lemma Closed(begun: string, inside: string, lead: string, tag: string)
    ensures begun + (">" + inside + lead + tag) == begun + ">" + inside + (lead + tag)
  {
  }

  lemma EscapeStep(restricted: bool, s: string, p: nat)
    requires p < |s|
    ensures Escape(restricted, s[p..]) == EscapeChar(restricted, s[p]) + Escape(restricted, s[p + 1..])
  {
    hide EscapeChar;
    assert s[p..][1..] == s[p + 1..];
  }

  /** A run of unflagged characters and the flagged one after it. */
  lemma {:induction false} EscapedRun(restricted: bool, s: string, p: nat, q: nat)
    requires p <= q < |s| && IsFlagged(restricted, s[q]) && forall i :: p <= i < q ==> !IsFlagged(restricted, s[i])
    ensures Escape(restricted, s[p..]) == s[p..q] + EntityText(s[q]) + Escape(restricted, s[q + 1..])
    decreases q - p
  {
    hide Escape, EntityText, Pattern;
    var e, rest := EntityText(s[q]), Escape(restricted, s[q + 1..]);
    EscapeStep(restricted, s, p);
    if p < q {
      EscapedRun(restricted, s, p + 1, q);
      assert s[p..q] == [s[p]] + s[p + 1..q];
      Append3([s[p]], s[p + 1..q], e);
      Append3([s[p]], s[p + 1..q] + e, rest);
    } else {
      assert s[p..q] + e == e;
    }
  }

  lemma FlushRun(restricted: bool, s: string, p: nat, q: nat, output: string)
    requires p <= q < |s| && IsFlagged(restricted, s[q]) && forall i :: p <= i < q ==> !IsFlagged(restricted, s[i])
    ensures output + Escape(restricted, s[p..])
         == output + (s[p..q] + EntityText(s[q])) + Escape(restricted, s[q + 1..])
  {
    hide Escape, EntityText;
    EscapedRun(restricted, s, p, q);
    Append3(output, s[p..q] + EntityText(s[q]), Escape(restricted, s[q + 1..]));
  }

  lemma {:induction false} FlushRest(restricted: bool, s: string, p: nat)
    requires p <= |s| && forall i :: p <= i < |s| ==> !IsFlagged(restricted, s[i])
    ensures Escape(restricted, s[p..]) == s[p..]
    decreases |s| - p
  {
    if p < |s| {
      assert s[p..][1..] == s[p + 1..];
      FlushRest(restricted, s, p + 1);
    }
  }
}
