/** Parsing the compact serialisation of a representable document gives the document back. */
module XmlRoundTrip {
  import opened XmlUtil
  import opened XmlText
  import opened XmlEscape
  import opened XmlTree
  import opened XmlGrammar
  import opened XmlPrint

  // ---------- spans and names ----------

  /** A tag whose last character occurs nowhere else in it cannot begin inside a span and end after it. */
  lemma {:induction false} FindAfter(v: string, tag: string, rest: string)
    requires tag != [] && Find(v, tag).None?
    requires forall i :: 0 <= i < |tag| - 1 ==> tag[i] != tag[|tag| - 1]
    ensures Find(v + tag + rest, tag) == Some(|v|)
  {
    var s := v + tag + rest;
    if v == [] {
      assert s[..|tag|] == tag;
    } else {
      assert s[1..] == v[1..] + tag + rest;
      FindAfter(v[1..], tag, rest);
    }
  }

  lemma SpanIsTaken(v: string, tag: string, rest: string)
    requires tag != [] && Find(v, tag).None?
    requires forall i :: 0 <= i < |tag| - 1 ==> tag[i] != tag[|tag| - 1]
    ensures TakeSpan(v + tag + rest, tag) == Some((v, rest))
  {
    FindAfter(v, tag, rest);
    var s := v + tag + rest;
    assert s[..|v|] == v && s[|v| + |tag|..] == rest;
  }

  lemma {:induction false} LacksIsNotFound(v: string, c: char)
    requires Lacks(v, c)
    ensures Find(v, [c]).None?
  {
    if v != [] {
      assert v[0] != c && [c][0] == c;
      LacksIsNotFound(v[1..], c);
    }
  }

  lemma NothingToSkip(s: string)
    requires s != [] && !IsWhiteSpace(s[0])
    ensures XmlText.SkipWhiteSpace(s) == s
  {
  }

  lemma {:induction false} RunOf(n: string, rest: string)
    requires forall i :: 0 <= i < |n| ==> IsNameChar(n[i])
    requires rest == [] || !IsNameChar(rest[0])
    ensures NameRun(n + rest) == |n|
  {
    if n == [] {
      assert n + rest == rest;
    } else {
      assert (n + rest)[1..] == n[1..] + rest;
      RunOf(n[1..], rest);
    }
  }

  lemma NameIsTaken(n: string, rest: string)
    requires IsName(n)
    requires rest == [] || !IsNameChar(rest[0])
    ensures TakeName(n + rest) == Some((n, rest))
    ensures !IsWhiteSpace((n + rest)[0]) && (n + rest)[0] !in "/<?!>"
  {
    RunOf(n[1..], rest);
    assert (n + rest)[1..] == n[1..] + rest;
    assert (n + rest)[..|n|] == n && (n + rest)[|n|..] == rest;
  }

  // ---------- attributes ----------

  lemma FlagsOfText(o: Options)
    ensures AttributeFlags(o) == if o.processEntities then TEXT else NEWLINES
  {
  }

  lemma AttributeValue(o: Options, v: string)
    requires IsPlain(v) && (o.processEntities || Lacks(v, '\"'))
    ensures Value(AttributeFlags(o), PrintString(o.processEntities, false, v)) == v
    ensures Find(PrintString(o.processEntities, false, v), "\"").None?
  {
    hide Value;
    FlagsOfText(o);
    if o.processEntities {
      EscapedValue(false, v);
      EscapeLacks(false, v, '\"');
    } else {
      RawValue(v);
    }
    LacksIsNotFound(PrintString(o.processEntities, false, v), '\"');
  }

  lemma AttributeIsTaken(o: Options, a: Attribute, rest: string)
    requires AttributeOk(o, a)
    ensures var s := PrintAttribute(o.processEntities, a)[1..] + rest;
      s != [] && IsNameStartChar(s[0]) && TakeAttribute(o, s) == Some((a, rest))
  {
    hide TakeName, TakeValue;
    var s := PrintAttribute(o.processEntities, a)[1..] + rest;
    var s1 := "=" + ("\"" + (PrintString(o.processEntities, false, a.value) + "\"" + rest));
    assert s == a.name + s1;
    NameIsTaken(a.name, s1);
    ValueIsTaken(o, a.value, rest);
  }

  lemma ValueIsTaken(o: Options, v: string, rest: string)
    requires IsPlain(v) && (o.processEntities || Lacks(v, '\"'))
    ensures TakeValue(o, "=" + ("\"" + (PrintString(o.processEntities, false, v) + "\"" + rest))) == Some((v, rest))
  {
    hide Value, TakeSpan, PrintString;
    var w := PrintString(o.processEntities, false, v);
    MarkIsTaken('=', "\"" + (w + "\"" + rest), "=");
    MarkIsTaken('\"', w + "\"" + rest, "\"'");
    AttributeValue(o, v);
    SpanIsTaken(w, "\"", rest);
  }

  lemma MarkIsTaken(c: char, rest: string, marks: string)
    requires !IsWhiteSpace(c) && c in marks
    ensures TakeMark([c] + rest, marks) == Some((c, rest))
  {
    NothingToSkip([c] + rest);
    assert ([c] + rest)[1..] == rest;
  }

  predicate NamesDiffer(seen: seq<Attribute>, more: seq<Attribute>) {
    forall i :: 0 <= i < |more| ==> !HasAttribute(seen, more[i].name)
  }

  lemma {:induction false} AttributesAreTaken(o: Options, attributes: seq<Attribute>, sealed: bool, rest: string,
          seen: seq<Attribute>)
    requires AttributesOk(o, attributes) && NamesDiffer(seen, attributes)
    ensures TakeAttributes(o, PrintAttributes(o.processEntities, attributes) + (TagEnd(sealed) + rest), seen)
         == GoodAttributes(seen + attributes, rest, sealed)
  {
    hide TakeAttributes, AttributeOk, PrintAttribute, NamesDiffer, HasAttribute;
    if attributes == [] {
      EndIsTaken(o, sealed, rest, seen);
      assert "" + (TagEnd(sealed) + rest) == TagEnd(sealed) + rest && seen + attributes == seen;
    } else {
      var a := attributes[0];
      NamesStillDiffer(seen, attributes);
      AttributesAreTaken(o, attributes[1..], sealed, rest, seen + [a]);
      assert seen + [a] + attributes[1..] == seen + attributes;
      FirstIsTaken(o, attributes, TagEnd(sealed) + rest, seen);
    }
  }

  lemma EndIsTaken(o: Options, sealed: bool, rest: string, seen: seq<Attribute>)
    ensures TakeAttributes(o, TagEnd(sealed) + rest, seen) == GoodAttributes(seen, rest, sealed)
  {
    hide TakeAttribute;
    var s := TagEnd(sealed) + rest;
    NothingToSkip(s);
    assert s[|TagEnd(sealed)|..] == rest;
    assert s[0] == TagEnd(sealed)[0] && (sealed ==> s[1] == '>');
  }

  lemma FirstIsTaken(o: Options, attributes: seq<Attribute>, tail: string, seen: seq<Attribute>)
    requires attributes != [] && AttributeOk(o, attributes[0]) && !HasAttribute(seen, attributes[0].name)
    ensures TakeAttributes(o, PrintAttributes(o.processEntities, attributes) + tail, seen)
         == TakeAttributes(o, PrintAttributes(o.processEntities, attributes[1..]) + tail, seen + [attributes[0]])
  {
    hide TakeAttribute, TakeAttributes, HasAttribute;
    var a := attributes[0];
    var after := PrintAttributes(o.processEntities, attributes[1..]) + tail;
    var t := PrintAttribute(o.processEntities, a)[1..] + after;
    assert PrintAttributes(o.processEntities, attributes) + tail == [' '] + t;
    AttributeIsTaken(o, a, after);
    AttributeStep(o, a, t, after, seen);
  }

  lemma AttributeStep(o: Options, a: Attribute, t: string, rest: string, seen: seq<Attribute>)
    requires t != [] && IsNameStartChar(t[0]) && TakeAttribute(o, t) == Some((a, rest)) && !HasAttribute(seen, a.name)
    ensures TakeAttributes(o, [' '] + t, seen) == TakeAttributes(o, rest, seen + [a])
  {
    hide TakeAttribute;
    NothingToSkip(t);
    assert ([' '] + t)[1..] == t;
  }

  function TagEnd(sealed: bool): string {
    if sealed then "/>" else ">"
  }

  lemma NamesStillDiffer(seen: seq<Attribute>, attributes: seq<Attribute>)
    requires attributes != [] && NamesDiffer(seen, attributes)
    requires forall i, j :: 0 <= i < j < |attributes| ==> attributes[i].name != attributes[j].name
    ensures !HasAttribute(seen, attributes[0].name)
    ensures NamesDiffer(seen + [attributes[0]], attributes[1..])
  {
  }

  // ---------- leaves ----------

  function LeafKind(n: Node): Kind
    requires !n.Element?
  {
    match n
    case Text(_, cdata) => if cdata then KCData else KText
    case Comment(_) => KComment
    case Declaration(_) => KDeclaration
    case Unknown(_) => KUnknown
  }

  lemma HeadersAreTold(k: Kind, rest: string)
    requires k in {KDeclaration, KComment, KCData}
    ensures KindOf(Header(k) + rest) == k
  {
    var s := Header(k) + rest;
    assert s[1] == Header(k)[1];
    if k != KDeclaration {
      assert s[2] == Header(k)[2];
    }
  }

  lemma UnknownIsTold(v: string, rest: string)
    requires !("--" <= v) && !("[CDATA[" <= v)
    ensures KindOf("<!" + v + ">" + rest) == KUnknown
  {
    var t := v + ">" + rest;
    assert "<!" + v + ">" + rest == "<!" + t;
    NotAPrefix("--", v, rest);
    NotAPrefix("[CDATA[", v, rest);
    PrefixCancels("<!", "--", t);
    PrefixCancels("<!", "[CDATA[", t);
    assert "<!" + "--" == "<!--" && "<!" + "[CDATA[" == "<![CDATA[";
    assert ("<!" + t)[1] == '!' && ("<!" + t)[..2] == "<!";
  }

  lemma PrefixCancels(a: string, b: string, c: string)
    ensures a + b <= a + c <==> b <= c
  {
    if a + b <= a + c {
      assert (a + b)[|a|..] == b && (a + c)[|a|..] == c;
    }
  }

  lemma NotAPrefix(mark: string, v: string, rest: string)
    requires !(mark <= v) && Lacks(mark, '>')
    ensures !(mark <= v + ">" + rest)
  {
    assert (v + ">" + rest)[|v|] == '>';
  }

  /** A leaf with a header: identified, taken up to its end tag, and its raw value read back. */
  lemma MarkedLeafIsTaken(o: Options, n: Node, tail: string, depth: nat)
    requires !n.Element? && !IsPlainText(n) && NodeOk(o, n)
    ensures TakeNode(o, PrintNode(o.processEntities, n) + tail, depth) == Some(Parsed(n, tail))
  {
    hide KindOf, TakeSpan, ElementDeep, TakeLeaf, Identify, PrintNode, NodeOk, LeafTag, Header;
    var k, v := LeafKind(n), n.value;
    KindIsTold(o, n, tail);
    PrintedLeaf(o.processEntities, n, tail);
    MarkIsIdentified(k, v + LeafTag(k) + tail);
    MarkedLeafBody(o, n, tail);
  }

  lemma MarkIsIdentified(k: Kind, rest: string)
    requires k != KText && KindOf(Header(k) + rest) == k
    ensures Identify(Header(k) + rest) == Some((k, rest))
  {
    hide KindOf;
    NothingToSkip(Header(k) + rest);
    assert (Header(k) + rest)[|Header(k)|..] == rest;
  }

  lemma MarkedLeafBody(o: Options, n: Node, tail: string)
    requires !n.Element? && !IsPlainText(n) && NodeOk(o, n)
    ensures TakeLeaf(o, LeafKind(n), n.value + LeafTag(LeafKind(n)) + tail) == Parsed(n, tail)
  {
    hide Value, TakeSpan;
    SpanIsTaken(n.value, LeafTag(LeafKind(n)), tail);
    RawValue(n.value);
  }

  lemma KindIsTold(o: Options, n: Node, tail: string)
    requires !n.Element? && !IsPlainText(n) && NodeOk(o, n)
    ensures KindOf(PrintNode(o.processEntities, n) + tail) == LeafKind(n)
  {
    hide KindOf, Find, IsPlain;
    if n.Unknown? {
      UnknownIsTold(n.value, tail);
    } else {
      var k := LeafKind(n);
      PrintedLeaf(o.processEntities, n, tail);
      HeadersAreTold(k, n.value + LeafTag(k) + tail);
    }
  }

  lemma PrintedLeaf(entities: bool, n: Node, tail: string)
    requires !n.Element? && !IsPlainText(n)
    ensures PrintNode(entities, n) + tail
         == Header(LeafKind(n)) + (n.value + LeafTag(LeafKind(n)) + tail)
  {
    var k := LeafKind(n);
    assert PrintNode(entities, n) == Header(k) + n.value + LeafTag(k);
  }

  // ---------- plain text ----------

  lemma {:induction false} CollapseFlagOnlyCollapses(e: bool, s: string, p: nat, out: string)
    requires |out| <= p <= |s|
    ensures Rewrite(Flags(e, true, true), s, p, out) == Rewrite(Flags(e, true, false), s, p, out)
    decreases |s| - p
  {
    hide NextToken;
    if p < |s| {
      var t := NextToken(Flags(e, true, false), s[p..]);
      TokenIgnoresCollapse(e, s[p..]);
      if t.Skip? {
        CollapseFlagOnlyCollapses(e, s, p + 1, out + [s[|out|]]);
      } else {
        CollapseFlagOnlyCollapses(e, s, p + t.used, out + t.out);
      }
    }
  }

  lemma TokenIgnoresCollapse(e: bool, s: string)
    requires s != []
    ensures NextToken(Flags(e, true, true), s) == NextToken(Flags(e, true, false), s)
  {
  }

  lemma TextValue(o: Options, v: string)
    requires TextOk(o, v)
    ensures Value(TextFlags(o), PrintString(o.processEntities, true, v)) == v
    ensures Find(PrintString(o.processEntities, true, v), "<").None?
  {
    hide Rewrite, Escape;
    var w := PrintString(o.processEntities, true, v);
    CollapseFlagOnlyCollapses(o.processEntities, w, 0, "");
    if o.processEntities {
      EscapedValue(true, v);
      EscapeLacks(true, v, '<');
    } else {
      RawValue(v);
    }
    LacksIsNotFound(w, '<');
  }

  function PrintChar(entities: bool, c: char): string {
    if entities then EscapeChar(true, c) else [c]
  }

  lemma PrintHead(entities: bool, v: string, rest: string)
    requires v != []
    ensures PrintString(entities, true, v) + rest
         == PrintChar(entities, v[0]) + (PrintString(entities, true, v[1..]) + rest)
  {
    hide EscapeChar;
    assert v == [v[0]] + v[1..];
  }

  lemma PrintedChar(entities: bool, c: char)
    ensures PrintChar(entities, c) != []
    ensures IsWhiteSpace(c) ==> PrintChar(entities, c) == [c]
    ensures !IsWhiteSpace(c) ==> !IsWhiteSpace(PrintChar(entities, c)[0])
    ensures entities || c != '<' ==> PrintChar(entities, c)[0] != '<'
  {
  }

  /** Escaping keeps white space where it was, so that text stays text. */
  lemma {:induction false} SignificantText(entities: bool, v: string, rest: string)
    requires XmlText.SkipWhiteSpace(v) != [] && (entities || Lacks(v, '<'))
    ensures var s := XmlText.SkipWhiteSpace(PrintString(entities, true, v) + rest);
      s != [] && s[0] != '<'
  {
    hide PrintString, PrintChar, IsWhiteSpace;
    var more := PrintString(entities, true, v[1..]) + rest;
    PrintHead(entities, v, rest);
    PrintedChar(entities, v[0]);
    if IsWhiteSpace(v[0]) {
      assert ([v[0]] + more)[1..] == more;
      SignificantText(entities, v[1..], rest);
    } else {
      NothingToSkip(PrintChar(entities, v[0]) + more);
    }
  }

  lemma TextPrints(entities: bool, v: string)
    ensures PrintNode(entities, Text(v, false)) == PrintString(entities, true, v)
  {
  }

  lemma TextIsTaken(o: Options, v: string, more: string, depth: nat)
    requires TextOk(o, v) && more != []
    ensures TakeNode(o, PrintNode(o.processEntities, Text(v, false)) + ("<" + more), depth)
         == Some(Parsed(Text(v, false), "<" + more))
  {
    hide PrintString, PrintNode, ElementDeep, TakeLeaf, Identify, XmlText.SkipWhiteSpace, Collapse, IsPlain;
    TextPrints(o.processEntities, v);
    SignificantText(o.processEntities, v, "<" + more);
    TextIsIdentified(PrintString(o.processEntities, true, v) + ("<" + more));
    TextBody(o, v, more);
  }

  lemma TextIsIdentified(s: string)
    requires var t := XmlText.SkipWhiteSpace(s); t != [] && t[0] != '<'
    ensures Identify(s) == Some((KText, s))
  {
  }

  lemma TextBody(o: Options, v: string, more: string)
    requires TextOk(o, v) && more != []
    ensures TakeLeaf(o, KText, PrintString(o.processEntities, true, v) + ("<" + more))
         == Parsed(Text(v, false), "<" + more)
  {
    hide PrintString, TakeSpan, Value, Find, TakeLeaf;
    var w := PrintString(o.processEntities, true, v);
    TextValue(o, v);
    assert w + ("<" + more) == w + "<" + more;
    SpanIsTaken(w, "<", more);
    TextFromSpan(o, w + ("<" + more), w, more);
  }

  lemma TextFromSpan(o: Options, s: string, span: string, more: string)
    requires TakeSpan(s, "<") == Some((span, more)) && more != []
    ensures TakeLeaf(o, KText, s) == Parsed(Text(Value(TextFlags(o), span), false), "<" + more)
  {
    hide TakeSpan, Value;
  }

  // ---------- elements and child lists ----------

  /** The head of an element up to the end of its open tag. */
  lemma OpenTagIsTaken(o: Options, name: string, attributes: seq<Attribute>, sealed: bool, rest: string)
    requires IsName(name) && AttributesOk(o, attributes)
    ensures TakeTag(o, name + (PrintAttributes(o.processEntities, attributes) + (TagEnd(sealed) + rest)))
         == Tag(name, attributes, if sealed then CLOSED else OPEN, rest)
  {
    hide TakeAttributes, AttributesOk, TakeName, PrintAttribute;
    var s1 := PrintAttributes(o.processEntities, attributes) + (TagEnd(sealed) + rest);
    TagContinues(o.processEntities, attributes, sealed, rest);
    NameIsTaken(name, s1);
    NothingToSkip(name + s1);
    AttributesAreTaken(o, attributes, sealed, rest, []);
    assert [] + attributes == attributes;
  }

  lemma TagContinues(entities: bool, attributes: seq<Attribute>, sealed: bool, rest: string)
    ensures var s1 := PrintAttributes(entities, attributes) + (TagEnd(sealed) + rest);
      s1 != [] && !IsNameChar(s1[0])
  {
    if attributes != [] {
      assert PrintAttribute(entities, attributes[0])[0] == ' ';
    }
  }

  /** An element with a head of this form, in terms of the child list it then reads. */
  lemma ElementStep(o: Options, name: string, attributes: seq<Attribute>, sealed: bool, rest: string, depth: nat)
    requires IsName(name) && AttributesOk(o, attributes) && (sealed || rest != [])
    ensures var s := name + (PrintAttributes(o.processEntities, attributes) + (TagEnd(sealed) + rest));
      var list := TakeLevel(o, rest, depth, false);
      && (sealed ==> CheckElement(ElementDeep(o, s, depth)) == Parsed(Element(name, attributes, []), rest))
      && (!sealed && list.stop.Closed? && list.stop.name == name ==>
            CheckElement(ElementDeep(o, s, depth)) == Parsed(Element(name, attributes, list.nodes), list.stop.rest))
  {
    hide TakeTag, AttributesOk, PrintAttributes, TakeLevel;
    OpenTagIsTaken(o, name, attributes, sealed, rest);
  }

  lemma CloseTagIsTaken(o: Options, name: string, tail: string, depth: nat)
    requires IsName(name)
    ensures TakeNode(o, CloseTag(name) + tail, depth) == Some(ClosingTag(name, tail))
  {
    hide TakeAttributes, TakeName, TakeLeaf, Identify, ElementDeep;
    var rest := "/" + (name + (">" + tail));
    assert CloseTag(name) + tail == "<" + rest;
    ElementIsIdentified(rest);
    ClosingStep(o, name, tail, depth);
  }

  lemma ClosingStep(o: Options, name: string, tail: string, depth: nat)
    requires IsName(name)
    ensures ElementDeep(o, "/" + (name + (">" + tail)), depth) == Deep(name, [], [], CLOSING, None, tail)
  {
    hide TakeAttributes, TakeName, TakeLevel;
    var rest := "/" + (name + (">" + tail));
    NothingToSkip(rest);
    assert rest[0] == '/' && rest[1..] == name + (">" + tail);
    NameIsTaken(name, ">" + tail);
    EndIsTaken(o, false, tail, []);
  }

  lemma ElementIsIdentified(rest: string)
    requires rest != [] && rest[0] != '?' && rest[0] != '!'
    ensures Identify("<" + rest) == Some((KElement, rest))
  {
    var s := "<" + rest;
    NothingToSkip(s);
    assert s[1] == rest[0] && s[1..] == rest && s[..1] == "<";
  }

  /** What being representable gives an element. */
  lemma ElementParts(o: Options, n: Node)
    requires NodeOk(o, n) && n.Element?
    ensures IsName(n.name) && AttributesOk(o, n.attributes) && NodesOk(o, n.children) && NoDeclarations(n.children)
    ensures n.children != [] ==> Height(n) == 1 + Heights(n.children)
  {
  }

  lemma LeafIsTaken(o: Options, n: Node, tail: string, depth: nat)
    requires NodeOk(o, n) && !n.Element? && (IsPlainText(n) ==> StartsTag(tail))
    ensures TakeNode(o, PrintNode(o.processEntities, n) + tail, depth) == Some(Parsed(n, tail))
  {
    hide TakeNode, PrintNode;
    if IsPlainText(n) {
      assert tail == "<" + tail[1..] && n == Text(n.value, false);
      TextIsTaken(o, n.value, tail[1..], depth);
    } else {
      MarkedLeafIsTaken(o, n, tail, depth);
    }
  }

  lemma {:induction false} NodeIsTaken(o: Options, n: Node, tail: string, depth: nat)
    requires NodeOk(o, n) && depth + Height(n) < MAX_ELEMENT_DEPTH
    requires IsPlainText(n) ==> StartsTag(tail)
    ensures TakeNode(o, PrintNode(o.processEntities, n) + tail, depth) == Some(Parsed(n, tail))
    decreases n, 0
  {
    hide TakeNode, PrintNode, PrintNodes, TakeList, NodeOk, NodesOk, AttributesOk, NoDeclarations, Height, CloseTag;
    hide StartsTag, PrintAttributes, TakeLevel, IsName;
    if !n.Element? {
      LeafIsTaken(o, n, tail, depth);
    } else {
      ElementParts(o, n);
      var inside := if n.children == [] then tail
                    else PrintNodes(o.processEntities, n.children) + (CloseTag(n.name) + tail);
      if n.children != [] {
        CloseStartsTag(n.name, tail);
        ListIsTaken(o, n.children, CloseTag(n.name) + tail, depth + 1, false, []);
        ChildrenAreClosed(o, n, tail, depth);
      }
      ElementText(o.processEntities, n, tail, inside);
      ElementIsTaken(o, n, tail, inside, depth);
    }
  }

  predicate StartsTag(s: string) {
    |s| > 1 && s[0] == '<'
  }

  lemma CloseStartsTag(name: string, tail: string)
    ensures StartsTag(CloseTag(name) + tail)
  {
  }

  lemma ElementText(entities: bool, n: Node, tail: string, inside: string)
    requires n.Element?
    requires inside == if n.children == [] then tail else PrintNodes(entities, n.children) + (CloseTag(n.name) + tail)
    ensures PrintNode(entities, n) + tail
         == "<" + (n.name + (PrintAttributes(entities, n.attributes) + (TagEnd(n.children == []) + inside)))
  {
    hide PrintNodes, PrintAttributes, CloseTag;
  }

  /** After its children an element's list meets the closing tag. */
  lemma ChildrenAreClosed(o: Options, n: Node, tail: string, depth: nat)
    requires n.Element? && IsName(n.name) && depth + 1 < MAX_ELEMENT_DEPTH
    requires var s := PrintNodes(o.processEntities, n.children) + (CloseTag(n.name) + tail);
      TakeList(o, s, depth + 1, false, []) == TakeList(o, CloseTag(n.name) + tail, depth + 1, false, [] + n.children)
    ensures var s := PrintNodes(o.processEntities, n.children) + (CloseTag(n.name) + tail);
      TakeLevel(o, s, depth, false) == ListResult(n.children, Closed(n.name, tail))
  {
    hide TakeNode, PrintNodes, CloseTag;
    CloseTagIsTaken(o, n.name, tail, depth + 1);
    assert [] + n.children == n.children;
  }

  lemma ElementIsTaken(o: Options, n: Node, tail: string, inside: string, depth: nat)
    requires n.Element? && IsName(n.name) && AttributesOk(o, n.attributes)
    requires n.children == [] ==> inside == tail
    requires n.children != [] ==>
      inside != [] && TakeLevel(o, inside, depth, false) == ListResult(n.children, Closed(n.name, tail))
    ensures var s := "<" + (n.name + (PrintAttributes(o.processEntities,
      n.attributes) + (TagEnd(n.children == []) + inside)));
      TakeNode(o, s, depth) == Some(Parsed(n, tail))
  {
    hide ElementDeep, TakeLevel, TakeLeaf, Identify, AttributesOk, PrintAttributes;
    var rest := n.name + (PrintAttributes(o.processEntities, n.attributes) + (TagEnd(n.children == []) + inside));
    assert rest[0] == n.name[0];
    ElementIsIdentified(rest);
    ElementStep(o, n.name, n.attributes, n.children == [], inside, depth);
  }

  lemma {:induction false} ListIsTaken(o: Options, ns: seq<Node>, tail: string, depth: nat, inDocument: bool,
          before: seq<Node>)
    requires NodesOk(o, ns) && depth + Heights(ns) < MAX_ELEMENT_DEPTH
    requires if inDocument then DeclarationsLead(before + ns) else NoDeclarations(ns)
    requires ns != [] && IsPlainText(ns[|ns| - 1]) ==> StartsTag(tail)
    ensures TakeList(o, PrintNodes(o.processEntities, ns) + tail, depth, inDocument, before)
         == TakeList(o, tail, depth, inDocument, before + ns)
    decreases ns, 1
  {
    hide TakeNode, PrintNode;
    if ns == [] {
      assert "" + tail == tail && before + [] == before;
    } else {
      var n := ns[0];
      var after := PrintNodes(o.processEntities, ns[1..]) + tail;
      assert PrintNodes(o.processEntities, ns) + tail == PrintNode(o.processEntities, n) + after;
      if IsPlainText(n) && |ns| > 1 {
        MarkStartsTag(o, ns[1..], tail);
      }
      assert ns[1..] == [] ==> after == tail;
      NodeIsTaken(o, n, after, depth);
      Located(ns, inDocument, before);
      assert (before + [n]) + ns[1..] == before + ns;
      ListIsTaken(o, ns[1..], tail, depth, inDocument, before + [n]);
      ListStep(o, PrintNode(o.processEntities, n) + after, depth, inDocument, before, n, after);
    }
  }

  lemma ListStep(o: Options, s: string, depth: nat, inDocument: bool, before: seq<Node>, n: Node, rest: string)
    requires TakeNode(o, s, depth) == Some(Parsed(n, rest))
    requires n.Declaration? ==> WellLocated(inDocument, before)
    ensures TakeList(o, s, depth, inDocument, before) == TakeList(o, rest, depth, inDocument, before + [n])
  {
    hide TakeNode;
  }

  lemma Located(ns: seq<Node>, inDocument: bool, before: seq<Node>)
    requires ns != []
    requires if inDocument then DeclarationsLead(before + ns) else NoDeclarations(ns)
    ensures ns[0].Declaration? ==> WellLocated(inDocument, before)
  {
    if ns[0].Declaration? && before != [] {
      var all := before + ns;
      assert all[|before|] == ns[0] && all[0] == before[0] && all[|before| - 1] == before[|before| - 1];
    }
  }

  lemma MarkStartsTag(o: Options, ns: seq<Node>, tail: string)
    requires ns != [] && !IsPlainText(ns[0])
    ensures StartsTag(PrintNodes(o.processEntities, ns) + tail)
  {
    var r := PrintNode(o.processEntities, ns[0]);
    assert |r| > 1 && r[0] == '<';
  }

  // ---------- documents ----------

  /** A text without leading white space whose list of nodes ends with the text. */
  lemma ParseIs(o: Options, s: string, bom: bool, t: string, nodes: seq<Node>)
    requires t != [] && XmlText.SkipWhiteSpace(s) == s && (bom <==> BOM <= s) && s == if bom then BOM + t else t
    requires TakeList(o, t, 1, true, []) == ListResult(nodes, EndOfText)
    ensures Parse(o, s) == Ok(Document(bom, nodes))
  {
    hide TakeList, XmlText.SkipWhiteSpace;
    assert bom ==> (BOM + t)[3..] == t;
  }

  /** The whole-document round trip: a representable document is what parsing its compact form gives. */
  lemma RoundTrip(o: Options, d: Document)
    requires DocumentOk(o, d)
    ensures Parse(o, Print(o.processEntities, d)) == Ok(d)
  {
    hide TakeList, PrintNodes, NodesOk, Heights, XmlText.SkipWhiteSpace, Parse, IsPlainText;
    var t := PrintNodes(o.processEntities, d.children);
    ListIsTaken(o, d.children, "", 1, true, []);
    EmptyEndsList(o, 1, true, d.children);
    assert t + "" == t && [] + d.children == d.children && "" + t == t;
    StartIsSignificant(o, d);
    ParseIs(o, Print(o.processEntities, d), d.bom, t, d.children);
  }

  lemma EmptyEndsList(o: Options, depth: nat, inDocument: bool, before: seq<Node>)
    ensures TakeList(o, "", depth, inDocument, before) == ListResult(before, EndOfText)
  {
  }

  /** The printed document does not begin with white space, and begins with a byte order mark only when it has one. */
  lemma StartIsSignificant(o: Options, d: Document)
    requires DocumentOk(o, d)
    ensures var t, s := PrintNodes(o.processEntities, d.children), Print(o.processEntities, d);
      t != [] && XmlText.SkipWhiteSpace(s) == s && (d.bom <==> BOM <= s)
  {
    hide Escape, PrintNodes, Heights;
    var t, s := PrintNodes(o.processEntities, d.children), Print(o.processEntities, d);
    FirstCharacters(o, d.children);
    if d.bom {
      assert s[0] == BOM[0] && s[..3] == BOM;
    } else {
      assert s == t;
    }
    NothingToSkip(s);
  }

  lemma FirstCharacters(o: Options, ns: seq<Node>)
    requires ns != [] && NodesOk(o, ns) && !IsPlainText(ns[|ns| - 1])
    ensures var t := PrintNodes(o.processEntities, ns);
      && t != []
      && (!IsPlainText(ns[0]) ==> t[0] == '<')
      && (IsPlainText(ns[0]) && ns[0].value != [] ==>
            (IsWhiteSpace(t[0]) <==> IsWhiteSpace(ns[0].value[0])) && (BOM <= t ==> BOM <= ns[0].value))
  {
    if IsPlainText(ns[0]) {
      MarkStartsTag(o, ns[1..], "");
      var rest := PrintNodes(o.processEntities, ns[1..]);
      assert rest + "" == rest;
      BomInText(o.processEntities, ns[0].value, rest);
    } else {
      MarkStartsTag(o, ns, "");
      assert PrintNodes(o.processEntities, ns) + "" == PrintNodes(o.processEntities, ns);
    }
  }

  lemma BomInText(entities: bool, v: string, rest: string)
    requires v != [] && rest != [] && rest[0] == '<'
    ensures var t := PrintString(entities, true, v) + rest;
      && t != [] && (IsWhiteSpace(t[0]) <==> IsWhiteSpace(v[0])) && (BOM <= t ==> BOM <= v)
  {
    var t := PrintString(entities, true, v) + rest;
    if BOM <= t {
      assert t[0] == BOM[0] && t[1] == BOM[1] && t[2] == BOM[2];
      if entities {
        SameFirst(v, rest);
        if |v| > 1 {
          SameFirst(v[1..], rest);
          assert t[1..] == Escape(true, v[1..]) + rest;
        }
        if |v| > 2 {
          SameFirst(v[2..], rest);
          assert t[1..][1..] == Escape(true, v[1..][1..]) + rest && v[1..][1..] == v[2..];
        }
      }
      assert |v| >= 3 && v[..3] == BOM;
    }
  }

  lemma SameFirst(v: string, rest: string)
    requires v != []
    ensures (Escape(true, v) + rest)[0] == if IsFlagged(true, v[0]) then '&' else v[0]
    ensures !IsFlagged(true, v[0]) ==> (Escape(true, v) + rest)[1..] == Escape(true, v[1..]) + rest
  {
    hide Escape, Pattern;
    PrintHead(true, v, rest);
    assert EscapeChar(true, v[0]) != [];
  }
}
