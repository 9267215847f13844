/** Writing a document with the printer and reading it with the parser, through the objects that do so. */
module XmlReload {
  import opened XmlUtil
  import opened XmlText
  import opened XmlEscape
  import opened XmlTree
  import opened XmlGrammar
  import opened XmlPrint
  import opened XmlLayout
  import opened XmlPrinters
  import opened XmlPretty
  import opened XmlDocuments
  import opened XmlRoundTrip

  // ---------- what is printed has no NUL ----------

  lemma NoNulJoins(a: string, b: string)
    requires NoNul(a) && NoNul(b)
    ensures NoNul(a + b)
  {
  }

  lemma NamesHaveNoNul(s: string)
    requires IsName(s)
    ensures NoNul(s)
  {
  }

  lemma PrintStringHasNoNul(e: bool, restricted: bool, s: string)
    requires NoNul(s)
    ensures NoNul(PrintString(e, restricted, s))
  {
    if e {
      assert Lacks(s, NUL);
      EscapeLacks(restricted, s, NUL);
    }
  }

  lemma {:induction false} AttributesHaveNoNul(o: Options, attributes: seq<Attribute>)
    requires AttributesOk(o, attributes)
    ensures NoNul(PrintAttributes(o.processEntities, attributes))
  {
    hide PrintString;
    if attributes != [] {
      NamesHaveNoNul(attributes[0].name);
      PrintStringHasNoNul(o.processEntities, false, attributes[0].value);
      AttributesHaveNoNul(o, attributes[1..]);
    }
  }

  lemma LeafHasNoNul(o: Options, n: Node)
    requires NodeOk(o, n) && !n.Element?
    ensures NoNul(PrintNode(o.processEntities, n))
  {
    hide PrintString, Collapse;
    if IsPlainText(n) {
      PrintStringHasNoNul(o.processEntities, true, n.value);
    }
  }

  lemma PaddingHasNoNul(s: string)
    requires IsPadding(s)
    ensures NoNul(s)
  {
  }

  lemma LeadsHaveNoNul(compact: bool, n: Node, depth: nat, m: Mood)
    ensures NoNul(Lead(compact, n, depth, m)) && NoNul(CloseLead(compact, depth, m)) && NoNul(Trail(compact, n, depth))
  {
    hide IsPadding, Lead, CloseLead, Trail;
    LeadIsPadding(compact, n, depth, m);
    PaddingHasNoNul(Lead(compact, n, depth, m));
    PaddingHasNoNul(CloseLead(compact, depth, m));
    PaddingHasNoNul(Trail(compact, n, depth));
  }

  lemma {:induction false} LaidHasNoNul(o: Options, compact: bool, n: Node, depth: nat, m: Mood)
    requires NodeOk(o, n)
    ensures NoNul(Lay(o.processEntities, compact, n, depth, m).output)
    decreases n, 0
  {
    hide NodeOk, NodesOk, AttributesOk, LayAll, Lay, Lead, CloseLead, Trail, PrintNode, PrintAttributes, IsName, NoNul;
    var e := o.processEntities;
    LayParts(e, compact, n, depth, m);
    LeadsHaveNoNul(compact, n, depth, m);
    if n.Element? {
      ElementParts(o, n);
      NamesHaveNoNul(n.name);
      AttributesHaveNoNul(o, n.attributes);
      var laid := LayAll(e, compact, n.children, depth + 1, m.(first := false));
      LaidAllHasNoNul(o, compact, n.children, depth + 1, m.(first := false));
      LeadsHaveNoNul(compact, n, depth, laid.mood);
      CoreHasNoNul(e, compact, n, depth, m);
    } else {
      LeafCore(e, compact, n, depth, m);
      LeafHasNoNul(o, n);
    }
    NoNulJoins(Lead(compact, n, depth, m), Core(e, compact, n, depth, m));
    NoNulJoins(Lead(compact, n, depth, m) + Core(e, compact, n, depth, m), Trail(compact, n, depth));
  }

  lemma CoreHasNoNul(e: bool, compact: bool, n: Node, depth: nat, m: Mood)
    requires n.Element? && NoNul(n.name) && NoNul(PrintAttributes(e, n.attributes))
    requires var laid := LayAll(e, compact, n.children, depth + 1, m.(first := false));
      NoNul(laid.output) && NoNul(CloseLead(compact, depth, laid.mood))
    ensures NoNul(Core(e, compact, n, depth, m))
  {
    hide LayAll, CloseLead, PrintAttributes;
  }

  lemma {:induction false} LaidAllHasNoNul(o: Options, compact: bool, ns: seq<Node>, depth: nat, m: Mood)
    requires NodesOk(o, ns)
    ensures NoNul(LayAll(o.processEntities, compact, ns, depth, m).output)
    decreases ns, 1
  {
    hide NodeOk, Lay;
    if ns != [] {
      var head := Lay(o.processEntities, compact, ns[0], depth, m);
      LaidHasNoNul(o, compact, ns[0], depth, m);
      LaidAllHasNoNul(o, compact, ns[1..], depth, head.mood);
    }
  }

  lemma LayoutHasNoNul(o: Options, compact: bool, d: Document)
    requires DocumentOk(o, d)
    ensures NoNul(Layout(o.processEntities, compact, d))
  {
    hide LayAll, NodesOk, Heights, DeclarationsLead;
    LaidAllHasNoNul(o, compact, d.children, 0, START);
  }

  // ---------- the objects ----------

  /** Print a document and parse what was printed: the new document is the old one, but for the white space that the
      pretty layout puts next to plain text. */
  method Reload(o: Options, compact: bool, d: Document) returns (doc: XMLDocument)
    requires DocumentOk(o, d)
    ensures doc.DocumentIs(Ok(Padded(o, compact, d)))
    ensures compact ==> doc.DocumentIs(Ok(d))
  {
    hide DocumentOk, Layout, Print, Parse, Padded;
    LayoutHasNoNul(o, compact, d);
    LayoutIsTaken(o, compact, d);
    if compact {
      RoundTrip(o, d);
      CompactLayout(o.processEntities, d);
    }
    var text := PrintDocument(d, o.processEntities, compact);
    doc := new XMLDocument(o, text);
    doc.Parse();
  }
}
