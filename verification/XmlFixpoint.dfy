/** Exactly which documents come back from printing them compactly and parsing what was printed: those that are
    representable. Whatever else is printed, something that is read differs from it
    (drivers/Mach3/tinyxml2.cpp:656-723, 988-1171, 1356-1381, 1815-1925, 2494-2659). */
module XmlFixpoint {
  import opened XmlUtil
  import opened XmlText
  import opened XmlEscape
  import opened XmlTree
  import opened XmlGrammar
  import opened XmlPrint
  import opened XmlParsed
  import opened XmlRoundTrip
  import opened XmlReprint
  import opened NodeLines

  // ---------- plain text ----------

  /** Where a tag begins, or nothing, no plain text is read. */
  lemma NoTextFromTag(o: Options, s: string, depth: nat)
    requires var t := XmlText.SkipWhiteSpace(s); t == [] || t[0] == '<'
    ensures var r := TakeNode(o, s, depth); r.Some? && r.value.Parsed? ==> !IsPlainText(r.value.node)
  {
    hide TakeLeaf, ElementDeep, CheckElement, XmlText.SkipWhiteSpace;
    var t := XmlText.SkipWhiteSpace(s);
    if t != [] {
      assert "<" <= t;
      var (k, rest) := Identify(s).value;
      if k == KElement {
        ElementIsRead(o, rest, depth);
      } else {
        LeafHasKind(o, k, rest);
      }
    }
  }

  lemma TagIsSignificant(after: string)
    requires after == "" || StartsTag(after)
    ensures XmlText.SkipWhiteSpace(after) == after
  {
    if after != "" {
      NothingToSkip(after);
    }
  }

  /** Leading white space is printed as it is, and skipped. */
  lemma {:induction false} SkipPrinted(entities: bool, v: string, after: string)
    requires after == "" || StartsTag(after)
    ensures XmlText.SkipWhiteSpace(PrintString(entities, true, v) + after)
         == PrintString(entities, true, XmlText.SkipWhiteSpace(v)) + after
  {
    hide PrintString, PrintChar, IsWhiteSpace;
    if v == [] {
      NothingPrints(entities);
      assert "" + after == after;
      TagIsSignificant(after);
    } else {
      var more := PrintString(entities, true, v[1..]) + after;
      PrintHead(entities, v, after);
      PrintedChar(entities, v[0]);
      if IsWhiteSpace(v[0]) {
        assert ([v[0]] + more)[1..] == more;
        SkipPrinted(entities, v[1..], after);
      } else {
        NothingToSkip(PrintChar(entities, v[0]) + more);
      }
    }
  }

  lemma NothingPrints(entities: bool)
    ensures PrintString(entities, true, "") == ""
  {
  }

  /** A text that can stand between tags. */
  predicate TextFits(o: Options, v: string) {
    NoNul(v) && (o.processEntities || Lacks(v, '<'))
  }

  lemma PrintedLacksTag(o: Options, v: string)
    requires TextFits(o, v)
    ensures Find(PrintString(o.processEntities, true, v), "<").None?
  {
    if o.processEntities {
      EscapeLacks(true, v, '<');
    }
    LacksIsNotFound(PrintString(o.processEntities, true, v), '<');
  }

  /** What is read of a printed text has no carriage return and is no longer. */
  lemma PrintedValue(o: Options, v: string)
    requires TextFits(o, v)
    ensures var r := Value(TextFlags(o), PrintString(o.processEntities, true, v)); NoCR(r) && |r| <= |v|
  {
    hide Rewrite, Escape, Collapse, Decode, CString;
    var w := PrintString(o.processEntities, true, v);
    var plain := Value(Flags(o.processEntities, true, false), w);
    CollapseFlagOnlyCollapses(o.processEntities, w, 0, "");
    NormalisedLacks(v, CR);
    if o.processEntities {
      EscapedValue(true, v);
    } else {
      NormalisedValue(v);
    }
    assert NoCR(plain) && |plain| <= |v|;
    assert Lacks(plain, CR);
    CollapseLacks(plain, CR);
  }

  /** A plain text that is read of a printed one: something follows it, it was not blank, and what is read has no
      carriage return and is no longer. */
  lemma TextIsReadAs(o: Options, v: string, after: string, depth: nat)
    requires TextFits(o, v) && (after == "" || StartsTag(after))
    ensures var r := TakeNode(o, PrintString(o.processEntities, true, v) + after, depth);
      r.Some? && r.value.Parsed? && IsPlainText(r.value.node) ==>
        && after != "" && XmlText.SkipWhiteSpace(v) != []
        && NoCR(r.value.node.value) && |r.value.node.value| <= |v|
  {
    hide PrintString, TakeLeaf, Value, XmlText.SkipWhiteSpace, Identify, TextFits, TakeNode, Find;
    var w := PrintString(o.processEntities, true, v);
    SkipPrinted(o.processEntities, v, after);
    if XmlText.SkipWhiteSpace(v) == [] {
      NothingPrints(o.processEntities);
      assert "" + after == after;
      NoTextFromTag(o, w + after, depth);
    } else {
      FitsIsLacking(o, v);
      SignificantText(o.processEntities, v, after);
      TextIsIdentified(w + after);
      PrintedLacksTag(o, v);
      PrintedValue(o, v);
      TextSpan(o, w, after);
      TextNode(o, w + after, depth);
    }
  }

  lemma FitsIsLacking(o: Options, v: string)
    requires TextFits(o, v)
    ensures o.processEntities || Lacks(v, '<')
  {
  }

  lemma TextNode(o: Options, s: string, depth: nat)
    requires Identify(s) == Some((KText, s))
    ensures TakeNode(o, s, depth) == Some(TakeLeaf(o, KText, s))
  {
    hide TakeLeaf, Identify;
  }

  lemma TextSpan(o: Options, w: string, after: string)
    requires Find(w, "<").None? && (after == "" || StartsTag(after))
    ensures var r := TakeLeaf(o, KText, w + after);
      r.Parsed? ==> after != "" && r.node == Text(Value(TextFlags(o), w), false)
  {
    hide Value, TakeSpan, Find;
    if after == "" {
      assert w + after == w;
      NoSpan(w);
    } else {
      assert after == "<" + after[1..] && w + after == w + "<" + after[1..];
      SpanIsTaken(w, "<", after[1..]);
    }
  }

  lemma NoSpan(w: string)
    requires Find(w, "<").None?
    ensures TakeSpan(w, "<").None?
  {
    hide Find;
  }

  // ---------- attributes ----------

  /** What the printer can give back of an attribute. */
  predicate AttributePrintable(o: Options, a: Attribute) {
    NoCR(a.value) && (o.processEntities || Lacks(a.value, '\"'))
  }

  predicate AttributesPrintable(o: Options, attributes: seq<Attribute>) {
    forall i :: 0 <= i < |attributes| ==> AttributePrintable(o, attributes[i])
  }

  /** The value that is read of a printed one that is not printable is another one. */
  lemma ValueMisses(o: Options, v: string, after: string)
    requires NoNul(v) && !(NoCR(v) && (o.processEntities || Lacks(v, '\"')))
    ensures var r := TakeSpan(PrintString(o.processEntities, false, v) + "\"" + after, "\"");
      r.Some? ==> Value(AttributeFlags(o), r.value.0) != v
  {
    hide Value, TakeSpan, Find, Escape, Decode;
    FlagsOfText(o);
    NormalisedLacks(v, CR);
    if o.processEntities {
      var w := Escape(false, v);
      EscapeLacks(false, v, '\"');
      LacksIsNotFound(w, '\"');
      SpanIsTaken(w, "\"", after);
      EscapedValue(false, v);
    } else {
      var s := v + "\"" + after;
      SpanLacksTag(s, "\"");
      if TakeSpan(s, "\"").Some? {
        var span := TakeSpan(s, "\"").value.0;
        NotFoundIsLacking(span, '\"');
        NormalisedValue(span);
        SpanStopsAtQuote(v, after, span, TakeSpan(s, "\"").value.1);
      }
    }
  }

  /** Either the span is the whole value, or it is shorter. */
  lemma SpanStopsAtQuote(v: string, after: string, span: string, rest: string)
    requires v + "\"" + after == span + "\"" + rest && Lacks(span, '\"')
    ensures |span| <= |v| && (Lacks(v, '\"') ==> span == v) && (!Lacks(v, '\"') ==> |span| < |v|)
  {
    var s := v + "\"" + after;
    assert s[|v|] == '\"' && s[|span|] == '\"';
    assert forall i :: 0 <= i < |span| ==> s[i] == span[i];
    assert forall i :: 0 <= i < |v| ==> s[i] == v[i];
    if Lacks(v, '\"') {
      assert |span| == |v|;
      assert s[..|v|] == v && s[..|span|] == span;
    }
  }

  lemma AttributeMisses(o: Options, a: Attribute, after: string)
    requires IsName(a.name) && NoNul(a.value) && !AttributePrintable(o, a)
    ensures var s := PrintAttribute(o.processEntities, a)[1..] + after;
      s != [] && IsNameStartChar(s[0]) && (TakeAttribute(o, s).Some? ==> TakeAttribute(o, s).value.0 != a)
  {
    hide TakeName, TakeMark, TakeSpan, Value, PrintString;
    var w := PrintString(o.processEntities, false, a.value);
    var s := PrintAttribute(o.processEntities, a)[1..] + after;
    var s3 := w + "\"" + after;
    assert s == a.name + ("=" + ("\"" + s3));
    NameIsTaken(a.name, "=" + ("\"" + s3));
    MarkIsTaken('=', "\"" + s3, "=");
    MarkIsTaken('\"', s3, "\"'");
    ValueMisses(o, a.value, after);
  }

  /** The attributes read so far stay. */
  lemma {:induction false} AttributesKeepSeen(o: Options, s: string, seen: seq<Attribute>)
    ensures var r := TakeAttributes(o, s, seen); r.GoodAttributes? ==> seen <= r.attributes
    decreases |s|
  {
    hide TakeAttribute, HasAttribute, XmlText.SkipWhiteSpace;
    var t := XmlText.SkipWhiteSpace(s);
    if t != [] && IsNameStartChar(t[0]) {
      var a := TakeAttribute(o, t);
      if a.Some? && !HasAttribute(seen, a.value.0.name) {
        AttributesKeepSeen(o, a.value.1, seen + [a.value.0]);
      }
    }
  }

  /** One attribute that is read as another one. */
  lemma OtherAttribute(o: Options, t: string, seen: seq<Attribute>, a: Attribute)
    requires t != [] && IsNameStartChar(t[0]) && (TakeAttribute(o, t).Some? ==> TakeAttribute(o, t).value.0 != a)
    ensures var r := TakeAttributes(o, [' '] + t, seen); r.GoodAttributes? ==> !(seen + [a] <= r.attributes)
  {
    hide TakeAttribute, HasAttribute, TakeTagEnd;
    NothingToSkip(t);
    assert ([' '] + t)[1..] == t;
    var b := TakeAttribute(o, t);
    var r := TakeAttributes(o, [' '] + t, seen);
    if r.GoodAttributes? {
      AttributesKeepSeen(o, b.value.1, seen + [b.value.0]);
      assert r.attributes[|seen|] == (seen + [b.value.0])[|seen|];
    }
  }

  lemma {:induction false} AttributesMiss(o: Options, attributes: seq<Attribute>, tail: string, seen: seq<Attribute>)
    requires AttributesTold(attributes) && NamesDiffer(seen, attributes) && ValuesRead(attributes)
    requires !AttributesPrintable(o, attributes)
    ensures var r := TakeAttributes(o, PrintAttributes(o.processEntities, attributes) + tail, seen);
      r.GoodAttributes? ==> !(seen + attributes <= r.attributes)
    decreases |attributes|
  {
    hide TakeAttributes, PrintAttribute, PrintAttributes, NamesDiffer, HasAttribute, IsName, AttributePrintable, NoNul;
    var a, more := attributes[0], attributes[1..];
    var after := PrintAttributes(o.processEntities, more) + tail;
    FirstPrinted(o.processEntities, attributes, tail);
    var t := PrintAttribute(o.processEntities, a)[1..] + after;
    if AttributePrintable(o, a) {
      PrintableIsOk(o, a);
      NamesStillDiffer(seen, attributes);
      FirstIsTaken(o, attributes, tail, seen);
      assert attributes == [a] + more;
      AttributesMiss(o, more, tail, seen + [a]);
      assert seen + [a] + more == seen + attributes;
    } else {
      AttributeMisses(o, a, after);
      OtherAttribute(o, t, seen, a);
      assert seen + [a] <= seen + attributes;
    }
  }

  lemma FirstPrinted(e: bool, attributes: seq<Attribute>, tail: string)
    requires attributes != []
    ensures PrintAttribute(e, attributes[0]) != ""
    ensures PrintAttributes(e, attributes) + tail
         == [' '] + (PrintAttribute(e, attributes[0])[1..] + (PrintAttributes(e, attributes[1..]) + tail))
  {
    hide PrintAttribute;
    var p := PrintAttribute(e, attributes[0]);
    SpaceFirst(e, attributes[0]);
    Regrouped(p, PrintAttributes(e, attributes[1..]), tail);
  }

  lemma SpaceFirst(e: bool, a: Attribute)
    ensures PrintAttribute(e, a) != "" && PrintAttribute(e, a)[0] == ' '
  {
    hide PrintString;
  }

  lemma Regrouped(p: string, q: string, tail: string)
    requires p != ""
    ensures p + q + tail == [p[0]] + (p[1..] + (q + tail))
  {
  }

  lemma PrintableIsOk(o: Options, a: Attribute)
    requires IsName(a.name) && NoNul(a.value)
    ensures AttributePrintable(o, a) ==> AttributeOk(o, a)
  {
  }

  // ---------- nodes ----------

  /** A node of which another one is read, or none. */
  predicate Misses(o: Options, n: Node, after: string, depth: nat) {
    var r := TakeNode(o, PrintNode(o.processEntities, n) + after, depth);
    r.Some? && r.value.Parsed? ==> r.value.node != n
  }

  /** What would be printed, and is not given back. */
  predicate Lost(o: Options, n: Node, after: string) {
    !Printable(o, n) || (IsPlainText(n) && after == "")
  }

  lemma TextMisses(o: Options, n: Node, after: string, depth: nat)
    requires IsPlainText(n) && Read(o, n) && Lost(o, n, after) && (after == "" || StartsTag(after))
    ensures Misses(o, n, after, depth)
  {
    hide PrintString, TakeNode, XmlText.SkipWhiteSpace, Collapse;
    TextIsReadAs(o, n.value, after, depth);
  }

  /** An element that is read has the attributes and children of its tag and list. */
  lemma CheckedIs(d: DeepResult)
    ensures var r := CheckElement(d); r.Parsed? ==> d.Deep? && r.node == Element(d.name, d.attributes, d.children)
  {
  }

  lemma TagMisses(o: Options, n: Node, inside: string)
    requires n.Element? && Structured(n) && ValuesRead(n.attributes) && !AttributesPrintable(o, n.attributes)
    ensures var s := n.name + (PrintAttributes(o.processEntities, n.attributes) + (TagEnd(n.children == []) + inside));
      TakeTag(o, s).Tag? ==> TakeTag(o, s).attributes != n.attributes
  {
    hide TakeAttributes, TakeName, PrintAttribute, AttributesPrintable, AttributesTold;
    var tail := TagEnd(n.children == []) + inside;
    var s1 := PrintAttributes(o.processEntities, n.attributes) + tail;
    TagContinues(o.processEntities, n.attributes, n.children == [], inside);
    NameIsTaken(n.name, s1);
    NothingToSkip(n.name + s1);
    NobodyIsNamed(n.attributes);
    AttributesMiss(o, n.attributes, tail, []);
    assert [] + n.attributes == n.attributes;
  }

  lemma NobodyIsNamed(attributes: seq<Attribute>)
    ensures NamesDiffer([], attributes)
  {
  }

  /** The text of an element from its name on, and what of it is inside. */
  function Inside(o: Options, n: Node, after: string): string
    requires n.Element?
  {
    if n.children == [] then after
    else PrintNodes(o.processEntities, n.children) + (CloseTag(n.name) + after)
  }

  function FromName(o: Options, n: Node, after: string): string
    requires n.Element?
  {
    n.name + (PrintAttributes(o.processEntities, n.attributes) + (TagEnd(n.children == []) + Inside(o, n, after)))
  }

  /** Reading an element is reading its tag and its list. */
  lemma ElementNode(o: Options, n: Node, after: string, depth: nat)
    requires n.Element? && IsName(n.name)
    ensures TakeNode(o, PrintNode(o.processEntities, n) + after, depth)
         == Some(CheckElement(ElementDeep(o, FromName(o, n, after), depth)))
  {
    hide ElementDeep, CheckElement, Identify, PrintNode, PrintAttributes, PrintNodes, CloseTag;
    ElementText(o.processEntities, n, after, Inside(o, n, after));
    assert FromName(o, n, after)[0] == n.name[0];
    ElementIsIdentified(FromName(o, n, after));
  }

  /** An element whose tag gives other attributes. */
  lemma OtherTag(o: Options, s: string, depth: nat, n: Node)
    requires n.Element? && (TakeTag(o, s).Tag? ==> TakeTag(o, s).attributes != n.attributes)
    ensures var r := CheckElement(ElementDeep(o, s, depth)); r.Parsed? ==> r.node != n
  {
    hide TakeTag, TakeLevel, CheckElement;
    CheckedIs(ElementDeep(o, s, depth));
  }

  /** An element whose list gives other children. */
  lemma OtherChildren(o: Options, s: string, depth: nat, n: Node, inside: string)
    requires n.Element? && TakeTag(o, s) == Tag(n.name, n.attributes, OPEN, inside) && inside != []
    requires TakeLevel(o, inside, depth, false).nodes != n.children
    ensures var r := CheckElement(ElementDeep(o, s, depth)); r.Parsed? ==> r.node != n
  {
    hide TakeTag, TakeLevel, CheckElement;
    CheckedIs(ElementDeep(o, s, depth));
  }

  lemma {:induction false} NodeMisses(o: Options, n: Node, after: string, depth: nat)
    requires Structured(n) && Read(o, n) && depth + Height(n) < MAX_ELEMENT_DEPTH && Lost(o, n, after)
    requires IsPlainText(n) ==> after == "" || StartsTag(after)
    ensures Misses(o, n, after, depth)
    decreases n, 0
  {
    hide Structured, Read, Printable, TakeNode, PrintNode, TakeTag, TakeLevel, ElementDeep, CheckElement, StartsTag;
    hide Height, AllRead, AllPrintable, ValuesRead, AttributesPrintable, FromName;
    if IsPlainText(n) {
      TextMisses(o, n, after, depth);
    } else if n.Element? {
      PartsOf(o, n);
      ElementNode(o, n, after, depth);
      var s := FromName(o, n, after);
      if AttributesPrintable(o, n.attributes) {
        ChildrenMiss(o, n, after, depth);
        OtherChildren(o, s, depth, n, Inside(o, n, after));
      } else {
        FromNameIs(o, n, after);
        TagMisses(o, n, Inside(o, n, after));
        OtherTag(o, s, depth, n);
      }
    } else {
      LeavesArePrintable(o, n);
    }
  }

  lemma FromNameIs(o: Options, n: Node, after: string)
    requires n.Element?
    ensures var attributes := PrintAttributes(o.processEntities, n.attributes);
      FromName(o, n, after) == n.name + (attributes + (TagEnd(n.children == []) + Inside(o, n, after)))
  {
  }

  lemma LeavesArePrintable(o: Options, n: Node)
    requires !n.Element? && !IsPlainText(n)
    ensures Printable(o, n)
  {
  }

  lemma PartsOf(o: Options, n: Node)
    requires n.Element? && Structured(n) && Read(o, n)
    ensures IsName(n.name) && AttributesTold(n.attributes) && AllStructuredAs(n.children)
    ensures ValuesRead(n.attributes) && AllRead(o, n.children)
    ensures n.children != [] ==> Height(n) == 1 + Heights(n.children)
    ensures Printable(o, n) <==> AttributesPrintable(o, n.attributes) && AllPrintable(o, n.children)
  {
    hide IsName, AttributesTold;
  }

  /** A tag that is read, and then other children. */
  lemma {:induction false} ChildrenMiss(o: Options, n: Node, after: string, depth: nat)
    requires n.Element? && Structured(n) && Read(o, n) && depth + Height(n) < MAX_ELEMENT_DEPTH
    requires AttributesPrintable(o, n.attributes) && !AllPrintable(o, n.children)
    ensures var inside := Inside(o, n, after);
      && inside != [] && TakeTag(o, FromName(o, n, after)) == Tag(n.name, n.attributes, OPEN, inside)
      && TakeLevel(o, inside, depth, false).nodes != n.children
    decreases n.children, 2
  {
    hide Structured, Read, TakeTag, TakeList, Height, Heights, AllRead, AttributesPrintable, AttributesTold, PrintNodes;
    hide CloseTag, AttributesOk, PrintAttributes;
    PartsOf(o, n);
    AttributesAreOk(o, n.attributes);
    var inside := Inside(o, n, after);
    OpenTagIsTaken(o, n.name, n.attributes, false, inside);
    CloseStartsTag(n.name, after);
    ListMisses(o, n.children, CloseTag(n.name) + after, depth + 1, false, []);
    assert [] + n.children == n.children;
  }

  lemma AttributesAreOk(o: Options, attributes: seq<Attribute>)
    requires AttributesTold(attributes) && ValuesRead(attributes) && AttributesPrintable(o, attributes)
    ensures AttributesOk(o, attributes)
  {
    hide IsName, NoNul, NoCR, Lacks;
    forall i | 0 <= i < |attributes|
      ensures AttributeOk(o, attributes[i])
    {
      PrintableIsOk(o, attributes[i]);
    }
  }

  // ---------- lists ----------

  /** Something in a list is not given back, or the list ends in a text that nothing follows. */
  predicate SomeLost(o: Options, ns: seq<Node>, tail: string) {
    !AllPrintable(o, ns) || (tail == "" && ns != [] && IsPlainText(ns[|ns| - 1]))
  }

  /** One turn that reads another node than the first of `ns`. */
  lemma OtherNode(o: Options, s: string, depth: nat, inDocument: bool, before: seq<Node>, n: Node)
    requires var r := TakeNode(o, s, depth); r.Some? && r.value.Parsed? ==> r.value.node != n
    ensures !(before + [n] <= TakeList(o, s, depth, inDocument, before).nodes)
  {
    hide TakeNode, WellLocated;
    var r := TakeNode(o, s, depth);
    if r.Some? && r.value.Parsed? && (r.value.node.Declaration? ==> WellLocated(inDocument, before)) {
      var m := r.value.node;
      ListKeepsBefore(o, r.value.rest, depth, inDocument, before + [m]);
      var nodes := TakeList(o, s, depth, inDocument, before).nodes;
      assert nodes[|before|] == (before + [m])[|before|] == m;
      assert (before + [n])[|before|] == n;
    }
  }

  /** One turn that reads the node `n`: it is linked, or the list fails. */
  lemma SameNode(o: Options, s: string, depth: nat, inDocument: bool, before: seq<Node>, n: Node, rest: string)
    requires TakeNode(o, s, depth) == Some(Parsed(n, rest))
    ensures var nodes := TakeList(o, s, depth, inDocument, before).nodes;
      nodes == before || nodes == TakeList(o, rest, depth, inDocument, before + [n]).nodes
  {
    hide TakeNode, WellLocated;
  }

  /** Of a list in which something is lost, another list is read. */
  lemma {:induction false} ListMisses(o: Options, ns: seq<Node>, tail: string, depth: nat, inDocument: bool,
          before: seq<Node>)
    requires AllStructuredAs(ns) && AllRead(o, ns) && depth + Heights(ns) < MAX_ELEMENT_DEPTH
    requires SomeLost(o, ns, tail) && (tail == "" || StartsTag(tail))
    ensures !(before + ns <= TakeList(o, PrintNodes(o.processEntities, ns) + tail, depth, inDocument, before).nodes)
    decreases ns, 1
  {
    hide TakeNode, TakeList, PrintNode, Structured, Read, Printable, Height, StartsTag, Misses, PrintNodes, AllRead;
    hide AllStructuredAs, Heights, NodeOk;
    var n, more := ns[0], ns[1..];
    var after := PrintNodes(o.processEntities, more) + tail;
    var s := PrintNode(o.processEntities, n) + after;
    FirstOf(o, ns, tail);
    assert ns == [n] + more;
    AfterStartsTag(o, ns, tail);
    if Lost(o, n, after) {
      NodeMisses(o, n, after, depth);
      MissedIs(o, n, after, depth);
      OtherNode(o, s, depth, inDocument, before, n);
      assert before + [n] <= before + ns;
    } else {
      NodeOkExactlyWhen(o, n);
      NodeIsTaken(o, n, after, depth);
      SameNode(o, s, depth, inDocument, before, n, after);
      RestIsLost(o, ns, tail);
      ListMisses(o, more, tail, depth, inDocument, before + [n]);
      assert (before + [n]) + more == before + ns;
    }
  }

  lemma FirstOf(o: Options, ns: seq<Node>, tail: string)
    requires ns != [] && AllStructuredAs(ns) && AllRead(o, ns)
    ensures Structured(ns[0]) && Read(o, ns[0]) && Height(ns[0]) <= Heights(ns) && Heights(ns[1..]) <= Heights(ns)
    ensures PrintNodes(o.processEntities, ns) + tail
         == PrintNode(o.processEntities, ns[0]) + (PrintNodes(o.processEntities, ns[1..]) + tail)
  {
    hide Structured, Read, Height, PrintNode;
    Append3(PrintNode(o.processEntities, ns[0]), PrintNodes(o.processEntities, ns[1..]), tail);
  }

  lemma MissedIs(o: Options, n: Node, after: string, depth: nat)
    requires Misses(o, n, after, depth)
    ensures var r := TakeNode(o, PrintNode(o.processEntities, n) + after, depth);
      r.Some? && r.value.Parsed? ==> r.value.node != n
  {
  }

  /** After a plain text comes a tag, or nothing. */
  lemma AfterStartsTag(o: Options, ns: seq<Node>, tail: string)
    requires ns != [] && AllRead(o, ns) && (tail == "" || StartsTag(tail))
    ensures var after := PrintNodes(o.processEntities, ns[1..]) + tail;
      IsPlainText(ns[0]) ==> (after == "" || StartsTag(after)) && (after == "" <==> |ns| == 1 && tail == "")
  {
    hide Read, StartsTag, PrintNode;
    if IsPlainText(ns[0]) {
      if |ns| > 1 {
        MarkStartsTag(o, ns[1..], tail);
        TagIsSomething(PrintNodes(o.processEntities, ns[1..]) + tail);
      } else {
        assert "" + tail == tail;
      }
    }
  }

  lemma TagIsSomething(s: string)
    requires StartsTag(s)
    ensures s != ""
  {
  }

  lemma RestIsLost(o: Options, ns: seq<Node>, tail: string)
    requires ns != [] && AllStructuredAs(ns) && AllRead(o, ns) && SomeLost(o, ns, tail)
    requires Printable(o, ns[0]) && !(IsPlainText(ns[0]) && |ns| == 1 && tail == "")
    ensures AllStructuredAs(ns[1..]) && AllRead(o, ns[1..]) && SomeLost(o, ns[1..], tail)
  {
    hide Structured, Read, Printable;
    assert forall i :: 0 <= i < |ns[1..]| ==> ns[1..][i] == ns[i + 1];
    if AllPrintable(o, ns) {
      assert |ns| > 1 && ns[1..][|ns| - 2] == ns[|ns| - 1];
    } else {
      var i :| 0 <= i < |ns| && !Printable(o, ns[i]);
      assert ns[1..][i - 1] == ns[i];
    }
  }

  // ---------- documents ----------

  /** A parse that gives a document: where its list begins, and that nothing failed. */
  lemma ParseGives(o: Options, s: string, d: Document)
    requires Parse(o, s) == Ok(d)
    ensures var u := XmlText.SkipWhiteSpace(s);
      var t := if d.bom then u[3..] else u;
      && (d.bom <==> BOM <= u) && (d.bom ==> 3 <= |u|) && t != ""
      && TakeList(o, t, 1, true, []).nodes == d.children
  {
    hide TakeList, XmlText.SkipWhiteSpace;
  }

  /** Text that is not skipped at the front begins as the document does. */
  lemma FrontIs(o: Options, ns: seq<Node>)
    requires ns != [] && AllRead(o, ns)
    ensures var p := PrintNodes(o.processEntities, ns);
      && (p != "" && !IsPlainText(ns[0]) ==> !IsWhiteSpace(p[0]))
      && (IsPlainText(ns[0]) ==>
            var after := PrintNodes(o.processEntities, ns[1..]);
            && p == PrintString(o.processEntities, true, ns[0].value) + after && (after == "" || StartsTag(after)))
  {
    hide Read, StartsTag, PrintString;
    var after := PrintNodes(o.processEntities, ns[1..]);
    if IsPlainText(ns[0]) {
      AfterStartsTag(o, ns, "");
      assert after + "" == after;
    } else {
      MarkStartsTag(o, ns, "");
      TagBegins(PrintNodes(o.processEntities, ns) + "");
      assert PrintNodes(o.processEntities, ns) + "" == PrintNodes(o.processEntities, ns);
    }
  }

  lemma TagBegins(s: string)
    requires StartsTag(s)
    ensures s != "" && s[0] == '<' && !IsWhiteSpace(s[0])
  {
  }

  /** White space at the front of a document without the mark is skipped, so that its first text comes back shorter. */
  lemma FrontSpaceIsLost(o: Options, ns: seq<Node>)
    requires ns != [] && AllRead(o, ns) && IsPlainText(ns[0]) && ns[0].value != "" && IsWhiteSpace(ns[0].value[0])
    ensures var t := XmlText.SkipWhiteSpace(PrintNodes(o.processEntities, ns));
      !([ns[0]] <= TakeList(o, t, 1, true, []).nodes)
  {
    hide Read, TakeList, TakeNode, PrintString, StartsTag, PrintNodes, XmlText.SkipWhiteSpace, Collapse;
    var v := ns[0].value;
    var w := XmlText.SkipWhiteSpace(v);
    var after := PrintNodes(o.processEntities, ns[1..]);
    FrontIs(o, ns);
    SkipPrinted(o.processEntities, v, after);
    ReadText(o, ns[0]);
    SkippedFits(o, v);
    TextIsReadAs(o, w, after, 1);
    var t := PrintString(o.processEntities, true, w) + after;
    OtherNode(o, t, 1, true, [], ns[0]);
    assert [] + [ns[0]] == [ns[0]];
  }

  lemma ReadText(o: Options, n: Node)
    requires IsPlainText(n) && Read(o, n)
    ensures TextFits(o, n.value)
  {
    hide Collapse;
  }

  lemma SkippedFits(o: Options, v: string)
    requires TextFits(o, v) && v != "" && IsWhiteSpace(v[0])
    ensures var w := XmlText.SkipWhiteSpace(v); TextFits(o, w) && |w| < |v|
  {
    SkipsOnlySpace(v);
    assert XmlText.SkipWhiteSpace(v) == XmlText.SkipWhiteSpace(v[1..]);
  }

  /** A text that begins with the characters of the mark prints them. */
  lemma MarkPrintsItself(e: bool, v: string, after: string)
    requires BOM <= v
    ensures BOM <= PrintString(e, true, v) + after
  {
    hide EscapeChar, PrintString;
    var v1, v2, v3 := v[1..], v[2..], v[3..];
    assert v1[1..] == v2 && v2[1..] == v3 && v[0] == BOM[0] && v1[0] == BOM[1] && v2[0] == BOM[2];
    PrintHead(e, v, after);
    PrintHead(e, v1, after);
    PrintHead(e, v2, after);
    MarkIsPlain(e);
    var more := PrintString(e, true, v3) + after;
    assert PrintString(e, true, v) + after == [BOM[0]] + ([BOM[1]] + ([BOM[2]] + more)) == BOM + more;
  }

  lemma MarkIsPlain(e: bool)
    ensures forall i :: 0 <= i < 3 ==> PrintChar(e, BOM[i]) == [BOM[i]]
  {
  }

  /** What is read back unchanged from the list has nothing lost in it. */
  lemma ListIsKept(o: Options, d: Document, t: string)
    requires AllStructured(d.children, 1) && AllRead(o, d.children) && d.children != []
    requires t == PrintNodes(o.processEntities, d.children) && TakeList(o, t, 1, true, []).nodes == d.children
    ensures !SomeLost(o, d.children, "")
  {
    hide TakeList, PrintNodes, AllRead, Structured, Height, Heights, AllPrintable;
    HeightsBounded(d.children, 1);
    assert t + "" == t && [] + d.children == d.children;
    if SomeLost(o, d.children, "") {
      ListMisses(o, d.children, "", 1, true, []);
    }
  }

  /** The front of the document is kept as well. */
  lemma FrontIsKept(o: Options, d: Document, t: string)
    requires AllRead(o, d.children) && d.children != [] && !d.bom
    requires var u := XmlText.SkipWhiteSpace(PrintNodes(o.processEntities, d.children));
      u != "" && !(BOM <= u) && t == u && TakeList(o, u, 1, true, []).nodes == d.children
    ensures t == PrintNodes(o.processEntities, d.children)
    ensures IsPlainText(d.children[0]) ==>
      var v := d.children[0].value;
      (v != "" ==> !IsWhiteSpace(v[0])) && !(BOM <= v)
  {
    hide TakeList, PrintNodes, AllRead, XmlText.SkipWhiteSpace, StartsTag, IsWhiteSpace, PrintString;
    var ns := d.children;
    var p := PrintNodes(o.processEntities, ns);
    FrontIs(o, ns);
    NothingSkipped();
    if IsPlainText(ns[0]) {
      var v := ns[0].value;
      assert [ns[0]] <= ns;
      if v != "" && IsWhiteSpace(v[0]) {
        FrontSpaceIsLost(o, ns);
      }
      FrontNotSkipped(o, v, PrintNodes(o.processEntities, ns[1..]));
      if BOM <= v {
        MarkPrintsItself(o.processEntities, v, PrintNodes(o.processEntities, ns[1..]));
      }
    } else if p != "" {
      NothingToSkip(p);
    }
  }

  lemma NothingSkipped()
    ensures XmlText.SkipWhiteSpace("") == ""
  {
  }

  lemma FrontNotSkipped(o: Options, v: string, after: string)
    requires (v != "" ==> !IsWhiteSpace(v[0])) && (after == "" || StartsTag(after))
    ensures var p := PrintString(o.processEntities, true, v) + after; XmlText.SkipWhiteSpace(p) == p
  {
    hide PrintString;
    SkipPrinted(o.processEntities, v, after);
    assert XmlText.SkipWhiteSpace(v) == v;
  }

  /** Every document that comes back from printing and parsing meets the printer's condition. */
  lemma GivenBackIsPrintable(o: Options, d: Document)
    requires Parse(o, Print(o.processEntities, d)) == Ok(d)
    ensures DocumentPrintable(o, d)
  {
    hide Parse, TakeList, PrintNodes, AllRead, XmlText.SkipWhiteSpace, AllStructured, DeclarationsLead, AllPrintable;
    hide IsWhiteSpace;
    var s, p := Print(o.processEntities, d), PrintNodes(o.processEntities, d.children);
    ParsedIsStructured(o, s);
    ParsedIsRead(o, s);
    ParseGives(o, s, d);
    assert "" + p == p;
    if d.children == [] {
      NothingGivesNothing(o, d);
    } else {
      if d.bom {
        assert (BOM + p)[3..] == p;
        MarkIsSignificant(p);
      } else {
        FrontIsKept(o, d, XmlText.SkipWhiteSpace(p));
      }
      ListIsKept(o, d, p);
      FirstIsNotBlank(o, d.children);
    }
  }

  lemma MarkIsSignificant(p: string)
    ensures XmlText.SkipWhiteSpace(BOM + p) == BOM + p
  {
    assert (BOM + p)[0] == BOM[0];
    NothingToSkip(BOM + p);
  }

  /** A document without nodes prints nothing, and nothing is no document. */
  lemma NothingGivesNothing(o: Options, d: Document)
    requires d.children == []
    ensures Parse(o, Print(o.processEntities, d)) != Ok(d)
  {
    hide TakeList;
    assert PrintNodes(o.processEntities, []) == "";
    if d.bom {
      MarkIsSignificant("");
      assert BOM + "" == BOM && BOM[3..] == "";
    }
  }

  lemma FirstIsNotBlank(o: Options, ns: seq<Node>)
    requires ns != []
    ensures AllPrintable(o, ns) && IsPlainText(ns[0]) ==> ns[0].value != ""
  {
    assert AllPrintable(o, ns) ==> Printable(o, ns[0]);
  }

  /** A tree, however it was made, comes back from its compact print exactly when it is representable. */
  lemma PrintsBackExactlyWhen(o: Options, d: Document)
    ensures Parse(o, Print(o.processEntities, d)) == Ok(d) <==> DocumentOk(o, d)
  {
    hide Parse, Print, DocumentOk, DocumentPrintable;
    if DocumentOk(o, d) {
      RoundTrip(o, d);
    }
    if Parse(o, Print(o.processEntities, d)) == Ok(d) {
      GivenBackIsPrintable(o, d);
      ParsedIsRepresentableExactlyWhen(o, Print(o.processEntities, d));
    }
  }
}
