/** How the decoding of a text shows in the document that is parsed (drivers/Mach3/tinyxml2.cpp:238-352, 1147-1171). */
module XmlSpans {
  import opened XmlUtil
  import opened XmlText
  import opened XmlEscape
  import opened XmlTree
  import opened XmlGrammar
  import opened XmlPrint
  import opened XmlRoundTrip

  /** An element around a text, as it stands in a file. */
  function Around(name: string, span: string): string {
    "<" + (name + ("" + (TagEnd(false) + (span + CloseTag(name)))))
  }

  /** The document with this one element. */
  function OneText(name: string, value: string): Document {
    Document(false, [Element(name, [], [Text(value, false)])])
  }

  lemma TextIsRead(o: Options, name: string, span: string, depth: nat)
    requires IsName(name) && Lacks(span, '<') && XmlText.SkipWhiteSpace(span) != []
    ensures TakeNode(o, span + CloseTag(name), depth)
         == Some(Parsed(Text(Value(TextFlags(o), span), false), CloseTag(name)))
  {
    hide Value, TakeSpan, XmlText.SkipWhiteSpace, TakeLeaf, Identify, ElementDeep;
    var more := "/" + name + ">";
    assert span + CloseTag(name) == span + "<" + more;
    SkipsInside(span, CloseTag(name));
    TextIsIdentified(span + CloseTag(name));
    LacksIsNotFound(span, '<');
    SpanIsTaken(span, "<", more);
    TextFromSpan(o, span + CloseTag(name), span, more);
    assert "<" + more == CloseTag(name);
  }

  lemma {:induction false} SkipsInside(span: string, more: string)
    requires Lacks(span, '<') && XmlText.SkipWhiteSpace(span) != []
    ensures var t := XmlText.SkipWhiteSpace(span + more); t != [] && t[0] != '<'
  {
    if span != [] && IsWhiteSpace(span[0]) {
      assert (span + more)[1..] == span[1..] + more;
      SkipsInside(span[1..], more);
    }
  }

  lemma InsideIsRead(o: Options, name: string, span: string)
    requires IsName(name) && Lacks(span, '<') && XmlText.SkipWhiteSpace(span) != []
    ensures TakeLevel(o, span + CloseTag(name), 1, false)
         == ListResult([Text(Value(TextFlags(o), span), false)], Closed(name, ""))
  {
    hide TakeNode, CloseTag, Value, IsName;
    var s, n := span + CloseTag(name), Text(Value(TextFlags(o), span), false);
    TextIsRead(o, name, span, 2);
    ListStep(o, s, 2, false, [], n, CloseTag(name));
    CloseTagIsTaken(o, name, "", 2);
    assert CloseTag(name) + "" == CloseTag(name) && [] + [n] == [n];
  }

  /** Whatever is between the tags, the document's text is the value of that span. */
  lemma AroundIsRead(o: Options, name: string, span: string)
    requires IsName(name) && Lacks(span, '<') && XmlText.SkipWhiteSpace(span) != []
    ensures Parse(o, Around(name, span)) == Ok(OneText(name, Value(TextFlags(o), span)))
  {
    hide TakeLevel, TakeNode, Value, CloseTag, XmlText.SkipWhiteSpace;
    var s, inside := Around(name, span), span + CloseTag(name);
    var n := Element(name, [], [Text(Value(TextFlags(o), span), false)]);
    InsideIsRead(o, name, span);
    ElementIsTaken(o, n, "", inside, 1);
    assert PrintAttributes(o.processEntities, []) == "";
    ListStep(o, s, 1, true, [], n, "");
    EmptyEndsList(o, 1, true, [n]);
    assert [] + [n] == [n];
    NothingToSkip(s);
    LevelIsList(o, s);
  }

  lemma LevelIsList(o: Options, s: string)
    ensures TakeLevel(o, s, 0, true) == TakeList(o, s, 1, true, [])
  {
  }

  /** The document holds what its text means exactly when no skip keeps a stale character. */
  lemma DocumentIsMeantExactlyWhen(o: Options, name: string, span: string)
    requires IsName(name) && Lacks(span, '<') && XmlText.SkipWhiteSpace(span) != []
    requires NoNul(Decode(TextFlags(o), span))
    ensures Parse(o, Around(name, span)) == Ok(OneText(name, Meaning(TextFlags(o), span)))
      <==> StaleSkips(TextFlags(o), span, 0, 0) == 0
  {
    hide Parse, Around, StaleSkips, Decode, Value, Meaning;
    AroundIsRead(o, name, span);
    ValueIsMeaningExactlyWhen(TextFlags(o), span);
    var v, w := Value(TextFlags(o), span), Meaning(TextFlags(o), span);
    assert OneText(name, v).children[0].children[0].value == v && OneText(name, w).children[0].children[0].value == w;
  }

  /** A whole file that is read wrongly: the text meant is "&&z". */
  lemma StaleDocumentExample(o: Options)
    requires o.processEntities && !o.collapseWhitespace
    ensures Parse(o, "<a>&amp;&z</a>") == Ok(Document(false, [Element("a", [], [Text("&az", false)])]))
  {
    hide Parse, Value, Around, XmlText.SkipWhiteSpace, Lacks, IsName, Parse, OneText;
    ExampleSpan();
    AroundIsRead(o, "a", "&amp;&z");
    ExampleValue(o);
    ExampleDocument();
  }

  lemma ExampleSpan()
    ensures IsName("a") && Lacks("&amp;&z", '<') && XmlText.SkipWhiteSpace("&amp;&z") != []
    ensures Around("a", "&amp;&z") == "<a>&amp;&z</a>"
  {
    NothingToSkip("&amp;&z");
    assert "" + (">" + ("&amp;&z" + "</a>")) == ">&amp;&z</a>";
  }

  lemma ExampleDocument()
    ensures OneText("a", "&az") == Document(false, [Element("a", [], [Text("&az", false)])])
  {
  }

  lemma ExampleValue(o: Options)
    requires o.processEntities && !o.collapseWhitespace
    ensures Value(TextFlags(o), "&amp;&z") == "&az"
  {
    hide Rewrite;
    StaleCharacterExample();
    assert NoNul("&az");
  }
}
