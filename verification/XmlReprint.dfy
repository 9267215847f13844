/** Printing what was parsed: exactly which parsed documents the printer can represent, and that those are parsed again
    as they were (drivers/Mach3/tinyxml2.cpp:238-352, 656-723, 988-1171, 1356-1381, 2494-2659). */
module XmlReprint {
  import opened XmlUtil
  import opened XmlText
  import opened XmlEscape
  import opened XmlTree
  import opened XmlGrammar
  import opened XmlPrint
  import opened XmlParsed
  import opened XmlRoundTrip

  // ---------- where a tag does not occur ----------

  /** A tag without line feeds. */
  predicate IsTag(tag: string) {
    tag != [] && Lacks(tag, LF)
  }

  lemma {:induction false} FindNoneIsNowhere(s: string, tag: string)
    requires tag != []
    ensures Find(s, tag).None? <==> forall k :: 0 <= k <= |s| ==> !(tag <= s[k..])
  {
    if |s| >= |tag| && !(tag <= s) {
      FindNoneIsNowhere(s[1..], tag);
      forall k | 0 < k <= |s|
        ensures s[k..] == s[1..][k - 1..]
      {
      }
      assert s[0..] == s;
    } else if |s| >= |tag| {
      assert s[0..] == s;
    }
  }

  lemma PrefixFindsNone(p: string, s: string, tag: string)
    requires p <= s && tag != [] && Find(s, tag).None?
    ensures Find(p, tag).None?
  {
    FindNoneIsNowhere(s, tag);
    FindNoneIsNowhere(p, tag);
    forall k | 0 <= k <= |p|
      ensures !(tag <= p[k..])
    {
      assert p[k..] <= s[k..];
    }
  }

  lemma {:induction false} SpanLacksTag(s: string, tag: string)
    requires tag != []
    ensures TakeSpan(s, tag).Some? ==> Find(TakeSpan(s, tag).value.0, tag).None?
  {
    if |s| >= |tag| && !(tag <= s) {
      SpanLacksTag(s[1..], tag);
      var r := TakeSpan(s, tag);
      if r.Some? {
        var span, inner := r.value.0, TakeSpan(s[1..], tag).value.0;
        assert span == [s[0]] + inner && span[1..] == inner;
        assert tag <= span ==> tag <= s;
      }
    }
  }

  lemma NotFoundFurther(s: string, tag: string, k: nat)
    requires tag != [] && Find(s, tag).None? && k <= |s|
    ensures Find(s[k..], tag).None?
  {
    FindNoneIsNowhere(s, tag);
    FindNoneIsNowhere(s[k..], tag);
    forall j | 0 <= j <= |s[k..]|
      ensures !(tag <= s[k..][j..])
    {
      assert s[k..][j..] == s[k + j..];
    }
  }

  // ---------- values ----------

  lemma NewlineToken(s: string)
    requires s != []
    ensures var t := NextToken(NEWLINES, s);
      t.Emit? && |t.out| == 1 && t.out[0] != CR && (t.out[0] == LF || t.out[0] == s[0])
    ensures s[0] != CR && s[0] != LF ==> NextToken(NEWLINES, s) == Emit(1, [s[0]])
    ensures s[0] == CR || s[0] == LF ==> NextToken(NEWLINES, s).out == [LF]
  {
  }

  lemma {:induction false} NormalisedLacks(s: string, c: char)
    requires c == CR || (c != LF && Lacks(s, c))
    ensures Lacks(Decode(NEWLINES, s), c) && NeverSkips(NEWLINES, s)
    decreases |s|
  {
    hide NextToken;
    if s != [] {
      NewlineToken(s);
      NormalisedLacks(s[NextToken(NEWLINES, s).used..], c);
    }
  }

  lemma {:induction false} NormalisedPrefix(s: string, tag: string)
    requires Lacks(tag, LF) && tag <= Decode(NEWLINES, s)
    ensures tag <= s
  {
    hide NextToken;
    if tag != [] {
      NewlineToken(s);
      assert Decode(NEWLINES, s)[0] == tag[0] && Decode(NEWLINES, s)[1..] == Decode(NEWLINES, s[1..]);
      NormalisedPrefix(s[1..], tag[1..]);
      assert s == [s[0]] + s[1..] && tag == [tag[0]] + tag[1..];
    }
  }

  lemma {:induction false} NormalisedFindsNone(s: string, tag: string)
    requires IsTag(tag) && Find(s, tag).None?
    ensures Find(Decode(NEWLINES, s), tag).None?
    decreases |s|
  {
    hide NextToken;
    if s != [] {
      var t := NextToken(NEWLINES, s);
      NewlineToken(s);
      NotFoundFurther(s, tag, t.used);
      NormalisedFindsNone(s[t.used..], tag);
      assert Decode(NEWLINES, s)[1..] == Decode(NEWLINES, s[t.used..]);
      FindNoneIsNowhere(s, tag);
      assert s[0..] == s;
      if tag <= Decode(NEWLINES, s) {
        NormalisedPrefix(s, tag);
      }
    }
  }

  /** A value without entities: no NUL, no carriage return, and no character that was not in the span. */
  lemma NormalisedValue(span: string)
    ensures var v := Value(NEWLINES, span); IsPlain(v) && v <= Decode(NEWLINES, span)
    ensures var v := Value(NEWLINES, span); forall c :: c != LF && Lacks(span, c) ==> Lacks(v, c)
  {
    var d := Decode(NEWLINES, span);
    NormalisedLacks(span, CR);
    ValueIsMeaning(NEWLINES, span);
    forall c | c != LF && Lacks(span, c)
      ensures Lacks(CString(d), c)
    {
      NormalisedLacks(span, c);
    }
  }

  lemma ValueFindsNone(span: string, tag: string)
    requires IsTag(tag) && Find(span, tag).None?
    ensures Find(Value(NEWLINES, span), tag).None?
  {
    NormalisedValue(span);
    NormalisedFindsNone(span, tag);
    PrefixFindsNone(Value(NEWLINES, span), Decode(NEWLINES, span), tag);
  }

  lemma ValueBegins(span: string, tag: string)
    requires Lacks(tag, LF) && tag <= Value(NEWLINES, span)
    ensures tag <= span
  {
    NormalisedValue(span);
    NormalisedPrefix(span, tag);
  }

  // ---------- collapsed values ----------

  lemma {:induction false} SqueezeTwice(s: string)
    ensures Squeeze(Squeeze(s)) == Squeeze(s)
    decreases |s|
  {
    if s != [] {
      if IsWhiteSpace(s[0]) {
        var rest := XmlText.SkipWhiteSpace(s);
        if rest != [] {
          var more := Squeeze(rest[1..]);
          SqueezeTwice(rest[1..]);
          var r := [' ', rest[0]] + more;
          assert r[1..] == [rest[0]] + more;
          NothingToSkip(r[1..]);
          assert r[1..][1..] == more;
        }
      } else {
        SqueezeTwice(s[1..]);
        assert Squeeze(s)[1..] == Squeeze(s[1..]);
      }
    }
  }

  lemma CollapseTwice(s: string)
    ensures Collapse(Collapse(s)) == Collapse(s)
  {
    var t := XmlText.SkipWhiteSpace(s);
    SqueezeTwice(t);
    if t != [] {
      assert Squeeze(t)[0] == t[0];
      NothingToSkip(Squeeze(t));
    }
  }

  lemma CollapseLacks(s: string, c: char)
    requires Lacks(s, c) && c != ' '
    ensures Lacks(Collapse(s), c)
  {
    hide Collapse;
    CollapseMembers(s);
    assert forall i :: 0 <= i < |Collapse(s)| ==> Collapse(s)[i] in Collapse(s);
  }

  /** What holds of every text that is read. */
  predicate TextRead(o: Options, v: string) {
    NoNul(v) && (o.processEntities || Lacks(v, '<')) && (o.collapseWhitespace ==> Collapse(v) == v)
  }

  lemma TextIsRead(o: Options, span: string)
    requires Lacks(span, '<')
    ensures TextRead(o, Value(TextFlags(o), span))
  {
    hide Collapse, Rewrite;
    var f := TextFlags(o);
    var plain := f.(collapse := false);
    var v := Value(plain, span);
    CollapseFlagOnlyCollapses(o.processEntities, span, 0, "");
    assert Lacks(v, NUL);
    if !o.processEntities {
      NormalisedValue(span);
    }
    if o.collapseWhitespace {
      CollapseTwice(v);
      CollapseLacks(v, NUL);
      if !o.processEntities {
        CollapseLacks(v, '<');
      }
    }
  }

  // ---------- trees ----------

  /** What holds of every node that is read. */
  predicate Read(o: Options, n: Node)
    decreases n, 0
  {
    match n
    case Element(_, attributes, children) =>
      (forall i :: 0 <= i < |attributes| ==> NoNul(attributes[i].value)) && AllRead(o, children)
    case Text(v, cdata) => if cdata then IsPlain(v) && Find(v, "]]>").None? else TextRead(o, v)
    case Comment(v) => IsPlain(v) && Find(v, "-->").None?
    case Declaration(v) => IsPlain(v) && Find(v, "?>").None?
    case Unknown(v) => IsPlain(v) && Find(v, ">").None? && !("--" <= v) && !("[CDATA[" <= v)
  }

  predicate AllRead(o: Options, ns: seq<Node>)
    decreases ns, 1
  {
    (forall i :: 0 <= i < |ns| ==> Read(o, ns[i])) && Spaced(ns)
  }

  /** No plain text follows plain text. */
  predicate Spaced(ns: seq<Node>) {
    forall i :: 0 <= i < |ns| - 1 ==> !(IsPlainText(ns[i]) && IsPlainText(ns[i + 1]))
  }

  /** What the printer needs besides: no carriage return, which only a character reference or a stale character can
      have brought in; no text made blank by decoding; and no double quote in an attribute value when it cannot be
      escaped. */
  predicate Printable(o: Options, n: Node)
    decreases n
  {
    match n
    case Element(_, attributes, children) =>
      && (forall i :: 0 <= i < |attributes| ==>
            NoCR(attributes[i].value) && (o.processEntities || Lacks(attributes[i].value, '\"')))
      && (forall i :: 0 <= i < |children| ==> Printable(o, children[i]))
    case Text(v, cdata) => cdata || (NoCR(v) && XmlText.SkipWhiteSpace(v) != [])
    case _ => true
  }

  predicate AllPrintable(o: Options, ns: seq<Node>) {
    forall i :: 0 <= i < |ns| ==> Printable(o, ns[i])
  }

  predicate AllStructuredAs(ns: seq<Node>) {
    forall i :: 0 <= i < |ns| ==> Structured(ns[i])
  }

  lemma AttributesOkExactlyWhen(o: Options, attributes: seq<Attribute>)
    requires AttributesTold(attributes) && forall i :: 0 <= i < |attributes| ==> NoNul(attributes[i].value)
    ensures AttributesOk(o, attributes) <==> forall i :: 0 <= i < |attributes| ==>
      NoCR(attributes[i].value) && (o.processEntities || Lacks(attributes[i].value, '\"'))
  {
    hide IsName;
  }

  lemma {:induction false} NodeOkExactlyWhen(o: Options, n: Node)
    requires Structured(n) && Read(o, n)
    ensures NodeOk(o, n) <==> Printable(o, n)
    decreases n, 0
  {
    hide AttributesOk, AttributesTold, IsName, XmlText.SkipWhiteSpace, Collapse, NodesOk;
    if n.Element? {
      AttributesOkExactlyWhen(o, n.attributes);
      NodesOkExactlyWhen(o, n.children);
    }
  }

  lemma {:induction false} NodesOkExactlyWhen(o: Options, ns: seq<Node>)
    requires AllStructuredAs(ns) && AllRead(o, ns)
    ensures NodesOk(o, ns) <==> AllPrintable(o, ns)
    decreases ns, 1
  {
    hide NodeOk, Structured, Read, Printable;
    if ns != [] {
      assert ns == [ns[0]] + ns[1..];
      assert forall i :: 0 <= i < |ns[1..]| ==> ns[1..][i] == ns[i + 1];
      NodeOkExactlyWhen(o, ns[0]);
      NodesOkExactlyWhen(o, ns[1..]);
    }
  }

  // ---------- what is read ----------

  lemma ValueHasNoNul(f: Flags, span: string)
    requires !f.collapse
    ensures NoNul(Value(f, span))
  {
  }

  lemma AttributeIsRead(o: Options, s: string)
    ensures TakeAttribute(o, s).Some? ==> NoNul(TakeAttribute(o, s).value.0.value)
  {
    hide TakeName, TakeMark, TakeSpan, Value;
    if TakeName(s).Some? {
      var s1 := TakeName(s).value.1;
      if TakeMark(s1, "=").Some? {
        var s2 := TakeMark(s1, "=").value.1;
        if TakeMark(s2, "\"'").Some? {
          var (quote, s3) := TakeMark(s2, "\"'").value;
          if TakeSpan(s3, [quote]).Some? {
            ValueHasNoNul(AttributeFlags(o), TakeSpan(s3, [quote]).value.0);
          }
        }
      }
    }
  }

  predicate ValuesRead(attributes: seq<Attribute>) {
    forall i :: 0 <= i < |attributes| ==> NoNul(attributes[i].value)
  }

  lemma {:induction false} AttributesAreRead(o: Options, s: string, seen: seq<Attribute>)
    requires ValuesRead(seen)
    ensures var r := TakeAttributes(o, s, seen); r.GoodAttributes? ==> ValuesRead(r.attributes)
    decreases |s|
  {
    hide TakeAttribute, XmlText.SkipWhiteSpace, HasAttribute, NoNul;
    var t := XmlText.SkipWhiteSpace(s);
    if t != [] && IsNameStartChar(t[0]) {
      AttributeIsRead(o, t);
      var a := TakeAttribute(o, t);
      if a.Some? && !HasAttribute(seen, a.value.0.name) {
        AttributesAreRead(o, a.value.1, seen + [a.value.0]);
      }
    }
  }

  lemma TagIsRead(o: Options, s: string)
    ensures TakeTag(o, s).Tag? ==> ValuesRead(TakeTag(o, s).attributes)
  {
    hide TakeName, TakeAttributes, XmlText.SkipWhiteSpace, NoNul;
    var t := XmlText.SkipWhiteSpace(s);
    var u := if t != [] && t[0] == '/' then t[1..] else t;
    if TakeName(u).Some? {
      AttributesAreRead(o, TakeName(u).value.1, []);
    }
  }

  lemma MarkedLeafIsRead(o: Options, k: Kind, t: string)
    requires k != KElement && k != KText && KindOf(t) == k
    ensures var r := TakeLeaf(o, k, t[|Header(k)|..]); r.Parsed? ==> Read(o, r.node)
  {
    hide Value, TakeSpan, Find, KindOf;
    var s, tag := t[|Header(k)|..], LeafTag(k);
    if TakeSpan(s, tag).Some? {
      var (span, rest) := TakeSpan(s, tag).value;
      SpanLacksTag(s, tag);
      NormalisedValue(span);
      ValueFindsNone(span, tag);
      if k == KUnknown {
        UnknownBegins(t, span);
      }
    }
  }

  /** An unknown node is not a comment and not CDATA. */
  lemma UnknownBegins(t: string, span: string)
    requires KindOf(t) == KUnknown && span <= t[2..]
    ensures !("--" <= Value(NEWLINES, span)) && !("[CDATA[" <= Value(NEWLINES, span))
  {
    hide Value;
    assert t == "<!" + t[2..];
    PrefixCancels("<!", "--", t[2..]);
    PrefixCancels("<!", "[CDATA[", t[2..]);
    assert "<!" + "--" == "<!--" && "<!" + "[CDATA[" == "<![CDATA[";
    if "--" <= Value(NEWLINES, span) {
      ValueBegins(span, "--");
    }
    if "[CDATA[" <= Value(NEWLINES, span) {
      ValueBegins(span, "[CDATA[");
    }
  }

  lemma {:induction false} NotFoundIsLacking(s: string, c: char)
    requires Find(s, [c]).None?
    ensures Lacks(s, c)
  {
    if s != [] {
      assert [c] <= s <==> s[0] == c;
      NotFoundIsLacking(s[1..], c);
    }
  }

  lemma PlainTextIsRead(o: Options, s: string)
    ensures var r := TakeLeaf(o, KText, s); r.Parsed? ==> Read(o, r.node) && r.rest != [] && r.rest[0] == '<'
  {
    hide Value, TakeSpan, Find, TextRead;
    if TakeSpan(s, "<").Some? {
      var (span, rest) := TakeSpan(s, "<").value;
      SpanLacksTag(s, "<");
      NotFoundIsLacking(span, '<');
      TextIsRead(o, span);
    }
  }

  /** A node that is read; after a plain text comes a tag, and where a tag begins no plain text is read. */
  predicate NodeRead(o: Options, s: string, n: Node, rest: string) {
    Read(o, n) && (IsPlainText(n) ==> rest != [] && rest[0] == '<' && s != [] && s[0] != '<')
  }

  lemma LeafIsRead(o: Options, s: string, k: Kind, rest: string)
    requires Identify(s) == Some((k, rest)) && k != KElement
    ensures var r := TakeLeaf(o, k, rest); r.Parsed? ==> NodeRead(o, s, r.node, r.rest)
  {
    hide TakeLeaf, KindOf, XmlText.SkipWhiteSpace, Read;
    var t := XmlText.SkipWhiteSpace(s);
    LeafHasKind(o, k, rest);
    if k == KText {
      PlainTextIsRead(o, s);
      NoTagBegins(s);
    } else {
      MarkedLeafIsRead(o, k, t);
    }
  }

  lemma LeafHasKind(o: Options, k: Kind, s: string)
    requires k != KElement
    ensures var r := TakeLeaf(o, k, s); r.Parsed? ==> (IsPlainText(r.node) <==> k == KText)
  {
    hide TakeSpan, Value;
  }

  lemma NoTagBegins(s: string)
    requires s != [] && KindOf(XmlText.SkipWhiteSpace(s)) == KText && XmlText.SkipWhiteSpace(s) != []
    ensures s[0] != '<'
  {
    if s[0] == '<' {
      NothingToSkip(s);
    }
  }

  lemma {:induction false} NodeIsRead(o: Options, s: string, depth: nat)
    ensures var r := TakeNode(o, s, depth);
      r.Some? && r.value.Parsed? ==> NodeRead(o, s, r.value.node, r.value.rest)
    decreases |s|, 1
  {
    hide Identify, TakeLeaf, ElementDeep, CheckElement, Read;
    var i := Identify(s);
    if i.Some? {
      var (k, rest) := i.value;
      if k == KElement {
        ElementIsRead(o, rest, depth);
      } else {
        LeafIsRead(o, s, k, rest);
      }
    }
  }

  /** An element is read, and it is no text. */
  lemma {:induction false} ElementIsRead(o: Options, s: string, depth: nat)
    ensures var r := CheckElement(ElementDeep(o, s, depth)); r.Parsed? ==> r.node.Element? && Read(o, r.node)
    decreases |s|, 0
  {
    hide TakeTag, TakeLevel, CheckElement, WithChildren, Read, AllRead;
    var t := TakeTag(o, s);
    TagIsRead(o, s);
    if t.Tag? {
      if t.rest == [] || t.closing != OPEN {
        NothingWasRead(o);
        ElementReadIs(o, Deep(t.name, t.attributes, [], t.closing, None, t.rest));
      } else {
        LevelIsRead(o, t.rest, depth, false);
        ListedIsRead(o, t, TakeLevel(o, t.rest, depth, false));
      }
    } else {
      FailedIsNotParsed(t.error);
    }
  }

  lemma NothingWasRead(o: Options)
    ensures AllRead(o, [])
  {
  }

  lemma ElementReadIs(o: Options, d: DeepResult)
    requires d.Deep? ==> ValuesRead(d.attributes) && AllRead(o, d.children)
    ensures var r := CheckElement(d); r.Parsed? ==> r.node.Element? && Read(o, r.node)
  {
    hide AllRead;
  }

  lemma ListedIsRead(o: Options, t: TagResult, list: ListResult)
    requires t.Tag? && ValuesRead(t.attributes) && AllRead(o, list.nodes)
    ensures var r := CheckElement(WithChildren(t, list)); r.Parsed? ==> r.node.Element? && Read(o, r.node)
  {
    hide AllRead, CheckElement, Read;
    ElementReadIs(o, WithChildren(t, list));
  }

  lemma {:induction false} LevelIsRead(o: Options, s: string, depth: nat, inDocument: bool)
    ensures AllRead(o, TakeLevel(o, s, depth, inDocument).nodes)
    decreases |s|, 3
  {
    hide TakeList, AllRead;
    NothingWasRead(o);
    if depth + 1 != MAX_ELEMENT_DEPTH {
      ListIsRead(o, s, depth + 1, inDocument, []);
    }
  }

  lemma {:induction false} ListIsRead(o: Options, s: string, depth: nat, inDocument: bool, before: seq<Node>)
    requires AllRead(o, before)
    requires before != [] && IsPlainText(before[|before| - 1]) ==> s != [] && s[0] == '<'
    ensures AllRead(o, TakeList(o, s, depth, inDocument, before).nodes)
    decreases |s|, 2
  {
    hide TakeNode, AllRead, WellLocated, Read;
    NodeIsRead(o, s, depth);
    var r := TakeNode(o, s, depth);
    if r.Some? && r.value.Parsed? && (r.value.node.Declaration? ==> WellLocated(inDocument, before)) {
      OneMoreRead(o, before, r.value.node);
      ListIsRead(o, r.value.rest, depth, inDocument, before + [r.value.node]);
    }
  }

  lemma OneMoreRead(o: Options, before: seq<Node>, n: Node)
    requires AllRead(o, before) && Read(o, n)
    requires before != [] ==> !(IsPlainText(before[|before| - 1]) && IsPlainText(n))
    ensures AllRead(o, before + [n])
  {
    hide Read;
  }

  // ---------- documents ----------

  /** The condition on a parsed document: printable nodes, something to print, no text at the very end (where a closing
      tag ended the parse), and a first text that is not taken for leading white space or a byte order mark. */
  predicate DocumentPrintable(o: Options, d: Document) {
    && d.children != [] && AllPrintable(o, d.children) && !IsPlainText(d.children[|d.children| - 1])
    && (IsPlainText(d.children[0]) && !d.bom ==>
          var s := d.children[0].value;
          s != [] && !IsWhiteSpace(s[0]) && !(BOM <= s))
  }

  lemma ParsedIsRead(o: Options, text: string)
    ensures Parse(o, text).Ok? ==> AllRead(o, Parse(o, text).document.children)
  {
    hide TakeLevel, XmlText.SkipWhiteSpace, AllRead;
    var s := XmlText.SkipWhiteSpace(text);
    LevelIsRead(o, if BOM <= s then s[3..] else s, 0, true);
  }

  /** Exactly which parsed documents are representable, whatever the text. */
  lemma ParsedIsRepresentableExactlyWhen(o: Options, text: string)
    ensures Parse(o, text).Ok? ==>
      (DocumentOk(o, Parse(o, text).document) <==> DocumentPrintable(o, Parse(o, text).document))
  {
    hide Parse, AllRead, NodesOk, Structured, Height, Heights, DeclarationsLead, AllPrintable;
    if Parse(o, text).Ok? {
      var ns := Parse(o, text).document.children;
      ParsedIsStructured(o, text);
      ParsedIsRead(o, text);
      NodesOkExactlyWhen(o, ns);
      HeightsBounded(ns, 1);
    }
  }

  /** What was parsed and can be printed is parsed again as it was. */
  lemma ReprintedIsParsedAgain(o: Options, text: string)
    ensures var r := Parse(o, text);
      r.Ok? && DocumentPrintable(o, r.document) ==> Parse(o, Print(o.processEntities, r.document)) == r
  {
    hide Parse, DocumentPrintable, DocumentOk, Print;
    ParsedIsRepresentableExactlyWhen(o, text);
    if Parse(o, text).Ok? && DocumentPrintable(o, Parse(o, text).document) {
      RoundTrip(o, Parse(o, text).document);
    }
  }
}
