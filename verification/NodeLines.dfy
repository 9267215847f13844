/** Where in the text every node and attribute is read, and the line it carries: that of its first significant
    character (drivers/Mach3/tinyxml2.cpp:656-723, 988-1100, 1356-1381, 1815-1925). */
module NodeLines {
  import opened XmlUtil
  import opened XmlText
  import opened XmlTree
  import opened XmlGrammar
  import opened LazyTree

  /** The first significant character at or after `p`, or the end of the text. */
  function First(text: string, p: nat): (q: nat)
    requires p <= |text|
    ensures p <= q <= |text| && text[q..] == SkipWhiteSpace(text[p..])
    ensures q < |text| ==> !IsWhiteSpace(text[q])
  {
    SkipsOnlySpace(text[p..]);
    var r := SkipWhiteSpace(text[p..]);
    assert text[p..][|text| - p - |r|..] == text[|text| - |r|..];
    |text| - |r|
  }

  // ---------- attributes ----------

  /** Where the name of a tag begins whose header ends at `p`: past white space and the slash of a closing tag. */
  function NamePlace(text: string, p: nat): (q: nat)
    requires p <= |text|
    ensures p <= q <= |text|
  {
    var q := First(text, p);
    if q < |text| && text[q] == '/' then q + 1 else q
  }

  function AfterName(text: string, p: nat): (q: nat)
    requires p <= |text|
    ensures p <= q <= |text|
  {
    match TakeName(text[p..])
    case None => p
    case Some((_, rest)) => |text| - |rest|
  }

  /** The place after the attribute that is read from `p`. */
  function AfterAttribute(o: Options, text: string, p: nat): (q: nat)
    requires p <= |text|
    ensures p <= q <= |text|
  {
    match TakeAttribute(o, SkipWhiteSpace(text[p..]))
    case None => p
    case Some((_, rest)) => |text| - |rest|
  }

  /** Where attribute `i` is read, the name before the attributes ending at `p`. */
  function AttributePlace(o: Options, text: string, p: nat, i: nat): (q: nat)
    requires p <= |text|
    ensures p <= q <= |text|
  {
    if i == 0 then p else AfterAttribute(o, text, AttributePlace(o, text, p, i - 1))
  }

  predicate AttributeLined(o: Options, text: string, p: nat, i: nat, a: LazyAttribute)
    requires p <= |text|
  {
    a.line == LineAt(text, First(text, AttributePlace(o, text, p, i)))
  }

  /** Each attribute carries the line of the first character of its name. */
  predicate AttributesLined(o: Options, text: string, p: nat, a: seq<LazyAttribute>)
    requires p <= |text|
  {
    forall i :: 0 <= i < |a| ==> AttributeLined(o, text, p, i, a[i])
  }

  lemma AttributesStayLined(o: Options, text: string, p: nat, a: seq<LazyAttribute>, b: LazyAttribute)
    requires p <= |text| && AttributesLined(o, text, p, a) && AttributeLined(o, text, p, |a|, b)
    ensures AttributesLined(o, text, p, a + [b])
  {
    hide AttributeLined;
  }

  // ---------- nodes ----------

  /** The place after the tag whose header ends at `p`. */
  function AfterTag(o: Options, text: string, p: nat): (q: nat)
    requires p <= |text|
    ensures p <= q <= |text|
  {
    match TakeTag(o, text[p..])
    case NoTag(_) => p
    case Tag(_, _, _, rest) => |text| - |rest|
  }

  /** The place after the node that is read from `p`. */
  function AfterNode(o: Options, text: string, p: nat, depth: nat): (q: nat)
    requires p <= |text|
    ensures p <= q <= |text|
  {
    match TakeNode(o, text[p..], depth)
    case Some(Parsed(_, rest)) => |text| - |rest|
    case _ => p
  }

  /** Where node `i` of a child list that begins at `p` is read. */
  function NodePlace(o: Options, text: string, p: nat, depth: nat, i: nat): (q: nat)
    requires p <= |text|
    ensures p <= q <= |text|
  {
    if i == 0 then p else AfterNode(o, text, NodePlace(o, text, p, depth, i - 1), depth)
  }

  /** The node read from `p` carries the line of the first significant character there, and so do the attributes and
      nodes in it. */
  predicate Lined(o: Options, text: string, p: nat, depth: nat, n: LazyNode)
    requires p <= |text|
    decreases n, 0
  {
    var q := First(text, p);
    && n.line == LineAt(text, q)
    && (n.LazyElement? ==>
          && q < |text|
          && AttributesLined(o, text, AfterName(text, NamePlace(text, q + 1)), n.attributes)
          && AllLined(o, text, AfterTag(o, text, q + 1), depth + 1, n.children))
  }

  predicate AllLined(o: Options, text: string, p: nat, depth: nat, ns: seq<LazyNode>)
    requires p <= |text|
    decreases ns, 1
  {
    forall i :: 0 <= i < |ns| ==> Lined(o, text, NodePlace(o, text, p, depth, i), depth, ns[i])
  }

  lemma AllStayLined(o: Options, text: string, p: nat, depth: nat, ns: seq<LazyNode>, n: LazyNode)
    requires p <= |text| && AllLined(o, text, p, depth, ns)
    requires Lined(o, text, NodePlace(o, text, p, depth, |ns|), depth, n)
    ensures AllLined(o, text, p, depth, ns + [n])
  {
    hide Lined, NodePlace;
  }

  // ---------- what is left is always the end of the text ----------

  predicate EndOf(r: string, s: string) {
    |r| <= |s| && s[|s| - |r|..] == r
  }

  lemma EndOfEnd(a: string, b: string, c: string)
    requires EndOf(a, b) && EndOf(b, c)
    ensures EndOf(a, c)
  {
    assert c[|c| - |b|..][|b| - |a|..] == c[|c| - |a|..];
  }

  lemma EndOfText(text: string, p: nat, rest: string)
    requires p <= |text| && EndOf(rest, text[p..])
    ensures text[|text| - |rest|..] == rest
  {
    EndOfEnd(rest, text[p..], text);
  }

  lemma MarkLeavesEnd(s: string, marks: string)
    ensures TakeMark(s, marks).Some? ==> EndOf(TakeMark(s, marks).value.1, s)
  {
    hide SkipWhiteSpace;
    var t := SkipWhiteSpace(s);
    SpaceLeavesEnd(s);
    if t != [] {
      EndOfEnd(t[1..], t, s);
    }
  }

  lemma SpanLeavesEnd(s: string, tag: string)
    requires tag != []
    ensures TakeSpan(s, tag).Some? ==> EndOf(TakeSpan(s, tag).value.1, s)
  {
    hide TakeSpan;
  }

  lemma ValueLeavesEnd(o: Options, s: string)
    ensures TakeValue(o, s).Some? ==> EndOf(TakeValue(o, s).value.1, s)
  {
    hide TakeMark, TakeSpan, EndOf, Value;
    MarkLeavesEnd(s, "=");
    if TakeMark(s, "=").Some? {
      var s1 := TakeMark(s, "=").value.1;
      MarkLeavesEnd(s1, "\"'");
      if TakeMark(s1, "\"'").Some? {
        var (quote, s2) := TakeMark(s1, "\"'").value;
        SpanLeavesEnd(s2, [quote]);
        EndOfEnd(s2, s1, s);
        if TakeSpan(s2, [quote]).Some? {
          EndOfEnd(TakeSpan(s2, [quote]).value.1, s2, s);
        }
      }
    }
  }

  lemma AttributeLeavesEnd(o: Options, s: string)
    ensures TakeAttribute(o, s).Some? ==> EndOf(TakeAttribute(o, s).value.1, s)
  {
    hide TakeName, TakeValue;
    if TakeName(s).Some? {
      var s1 := TakeName(s).value.1;
      assert EndOf(s1, s);
      ValueLeavesEnd(o, s1);
      if TakeValue(o, s1).Some? {
        EndOfEnd(TakeValue(o, s1).value.1, s1, s);
      }
    }
  }

  lemma SpaceLeavesEnd(s: string)
    ensures EndOf(SkipWhiteSpace(s), s)
  {
    SkipsOnlySpace(s);
  }

  lemma TagEndLeavesEnd(t: string, seen: seq<Attribute>)
    ensures var r := TakeTagEnd(t, seen); r.GoodAttributes? ==> EndOf(r.rest, t)
  {
  }

  lemma {:induction false} AttributesLeaveEnd(o: Options, s: string, seen: seq<Attribute>)
    ensures var r := TakeAttributes(o, s, seen); r.GoodAttributes? ==> EndOf(r.rest, s)
    decreases |s|
  {
    hide TakeAttribute, HasAttribute, EndOf, SkipWhiteSpace, TakeTagEnd;
    var t, r := SkipWhiteSpace(s), TakeAttributes(o, s, seen);
    SpaceLeavesEnd(s);
    if r.GoodAttributes? {
      if t != [] && IsNameStartChar(t[0]) {
        var (a, rest) := TakeAttribute(o, t).value;
        AttributeLeavesEnd(o, t);
        AttributesLeaveEnd(o, rest, seen + [a]);
        EndOfEnd(r.rest, rest, t);
      } else {
        TagEndLeavesEnd(t, seen);
      }
      EndOfEnd(r.rest, t, s);
    }
  }

  lemma NameLeavesEnd(s: string)
    ensures TakeName(s).Some? ==> EndOf(TakeName(s).value.1, s)
  {
    hide TakeName;
  }

  lemma TagLeavesEnd(o: Options, s: string)
    ensures TakeTag(o, s).Tag? ==> EndOf(TakeTag(o, s).rest, s)
  {
    hide TakeName, TakeAttributes, EndOf, SkipWhiteSpace;
    var t := SkipWhiteSpace(s);
    SpaceLeavesEnd(s);
    var slash := t != [] && t[0] == '/';
    var u := if slash then t[1..] else t;
    SlashLeavesEnd(t, u);
    EndOfEnd(u, t, s);
    NameLeavesEnd(u);
    if TakeTag(o, s).Tag? {
      var s1 := TakeName(u).value.1;
      AttributesLeaveEnd(o, s1, []);
      EndOfEnd(TakeTag(o, s).rest, s1, u);
      EndOfEnd(TakeTag(o, s).rest, u, s);
    }
  }

  lemma SlashLeavesEnd(t: string, u: string)
    requires u == t || (t != [] && u == t[1..])
    ensures EndOf(u, t)
  {
  }

  lemma LeafLeavesEnd(o: Options, k: Kind, s: string)
    requires k != KElement
    ensures var r := TakeLeaf(o, k, s); r.Parsed? ==> EndOf(r.rest, s)
  {
    hide TakeSpan, Value;
    if TakeSpan(s, LeafTag(k)).Some? {
      var (span, rest) := TakeSpan(s, LeafTag(k)).value;
      assert s == span + LeafTag(k) + rest;
      assert k == KText ==> s == span + (['<'] + rest);
    }
  }

  lemma IdentifyLeavesEnd(s: string)
    ensures Identify(s).Some? ==> EndOf(Identify(s).value.1, s)
  {
    hide KindOf, SkipWhiteSpace;
    var t := SkipWhiteSpace(s);
    SpaceLeavesEnd(s);
    if t != [] {
      var h := |Header(KindOf(t))|;
      assert EndOf(t[h..], t);
      EndOfEnd(t[h..], t, s);
    }
  }

  /** The text left after a node. */
  lemma {:induction false} NodeLeavesEnd(o: Options, s: string, depth: nat)
    ensures var r := TakeNode(o, s, depth); r.Some? && !r.value.Bad? ==> EndOf(r.value.rest, s)
    decreases |s|, 1
  {
    hide Identify, ElementDeep, TakeLeaf, EndOf;
    IdentifyLeavesEnd(s);
    var r := TakeNode(o, s, depth);
    if r.Some? && !r.value.Bad? {
      var (k, rest) := Identify(s).value;
      if k == KElement {
        ElementLeavesEnd(o, rest, depth);
      } else {
        LeafLeavesEnd(o, k, rest);
      }
      EndOfEnd(r.value.rest, rest, s);
    }
  }

  lemma {:induction false} ElementLeavesEnd(o: Options, s: string, depth: nat)
    ensures var r := ElementDeep(o, s, depth); r.Deep? ==> EndOf(r.rest, s)
    decreases |s|, 0
  {
    hide TakeTag, TakeLevel, EndOf;
    var t := TakeTag(o, s);
    TagLeavesEnd(o, s);
    if t.Tag? {
      LevelLeavesEnd(o, t.rest, depth, false);
      var list := TakeLevel(o, t.rest, depth, false);
      if list.stop.Closed? {
        EndOfEnd(list.stop.rest, t.rest, s);
      }
    }
  }

  lemma {:induction false} LevelLeavesEnd(o: Options, s: string, depth: nat, inDocument: bool)
    ensures var r := TakeLevel(o, s, depth, inDocument); r.stop.Closed? ==> EndOf(r.stop.rest, s)
    decreases |s|, 3
  {
    hide TakeList, EndOf;
    ListLeavesEnd(o, s, depth + 1, inDocument, []);
  }

  lemma {:induction false} ListLeavesEnd(o: Options, s: string, depth: nat, inDocument: bool, before: seq<Node>)
    ensures var r := TakeList(o, s, depth, inDocument, before); r.stop.Closed? ==> EndOf(r.stop.rest, s)
    decreases |s|, 2
  {
    hide TakeNode, EndOf, WellLocated;
    NodeLeavesEnd(o, s, depth);
    var r, list := TakeNode(o, s, depth), TakeList(o, s, depth, inDocument, before);
    if r.Some? && r.value.Parsed? && list.stop.Closed? {
      ListLeavesEnd(o, r.value.rest, depth, inDocument, before + [r.value.node]);
      EndOfEnd(list.stop.rest, r.value.rest, s);
    }
  }

  // ---------- the places are those of the nodes ----------

  /** What a list has read when it is done begins with what it had read before. */
  lemma {:induction false} ListKeepsBefore(o: Options, s: string, depth: nat, inDocument: bool, before: seq<Node>)
    ensures before <= TakeList(o, s, depth, inDocument, before).nodes
    decreases |s|
  {
    hide TakeNode, WellLocated;
    match TakeNode(o, s, depth)
    case Some(Parsed(node, rest)) =>
      if !(node.Declaration? && !WellLocated(inDocument, before)) {
        ListKeepsBefore(o, rest, depth, inDocument, before + [node]);
      }
    case _ =>
  }

  /** At its place, the node read is the one that stands there in the list, and the next place is where it ends. */
  lemma {:induction false} NodesAreReadInPlace(o: Options, text: string, p: nat, depth: nat, inDocument: bool, i: nat)
    requires p <= |text| && i < |TakeList(o, text[p..], depth, inDocument, []).nodes|
    ensures var list, q := TakeList(o, text[p..], depth, inDocument, []), NodePlace(o, text, p, depth, i + 1);
      TakeNode(o, text[NodePlace(o, text, p, depth, i)..], depth) == Some(Parsed(list.nodes[i], text[q..]))
      && NodePlace(o, text, p, depth, i) < q && TakeList(o, text[q..], depth, inDocument, list.nodes[..i + 1]) == list
  {
    hide TakeNode, TakeList;
    var list, c := TakeList(o, text[p..], depth, inDocument, []), NodePlace(o, text, p, depth, i);
    if i > 0 {
      NodesAreReadInPlace(o, text, p, depth, inDocument, i - 1);
    }
    assert list.nodes[..0] == [];
    assert TakeList(o, text[c..], depth, inDocument, list.nodes[..i]) == list;
    NodeIsReadInPlace(o, text, c, depth, inDocument, list.nodes[..i], list);
    assert list.nodes[..i] + [list.nodes[i]] == list.nodes[..i + 1];
  }

  /** One turn of the list. */
  lemma NodeIsReadInPlace(o: Options, text: string, c: nat, depth: nat, inDocument: bool, before: seq<Node>,
          list: ListResult)
    requires c <= |text| && TakeList(o, text[c..], depth, inDocument, before) == list && |before| < |list.nodes|
    ensures var q := AfterNode(o, text, c, depth);
      TakeNode(o, text[c..], depth) == Some(Parsed(list.nodes[|before|], text[q..])) && c < q
      && TakeList(o, text[q..], depth, inDocument, before + [list.nodes[|before|]]) == list
  {
    hide TakeNode, WellLocated;
    var r, q := TakeNode(o, text[c..], depth), AfterNode(o, text, c, depth);
    assert r.Some? && r.value.Parsed?;
    var node, rest := r.value.node, r.value.rest;
    NodeLeavesEnd(o, text[c..], depth);
    EndOfText(text, c, rest);
    ListKeepsBefore(o, rest, depth, inDocument, before + [node]);
  }
}
