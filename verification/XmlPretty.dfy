/** What comes back from parsing a pretty-printed document: the white space of the layout is dropped, except where it
    touches plain text, which takes it in. */
module XmlPretty {
  import opened XmlUtil
  import opened XmlText
  import opened XmlEscape
  import opened XmlTree
  import opened XmlGrammar
  import opened XmlPrint
  import opened XmlLayout
  import opened XmlRoundTrip

  /** The white space a layout consists of. */
  predicate IsPadding(s: string) {
    forall i :: 0 <= i < |s| ==> s[i] == ' ' || s[i] == LF
  }

  /** What the parser makes of plain text that holds `v`. */
  function Shown(o: Options, v: string): string {
    if o.collapseWhitespace then Collapse(v) else v
  }

  /** The new line that closing an element of the document's own level leaves. */
  function Trail(compact: bool, n: Node, depth: nat): string {
    if n.Element? && depth == 0 && !compact then "\n" else ""
  }

  /** What the layout puts between a plain text and the node after it. */
  function After(compact: bool, ns: seq<Node>, depth: nat, m: Mood): string {
    if |ns| > 1 then Lead(compact, ns[1], depth, m.(textDepth := depth - 1)) else ""
  }

  /** The trees that come back, `gap` being what has been left before them. */
  function Pad(o: Options, compact: bool, n: Node, depth: nat, m: Mood): Node
    decreases n, 0
  {
    if n.Element? then
      Element(n.name, n.attributes, PadAll(o, compact, n.children, depth + 1, m.(first := false), ""))
    else n
  }

  function PadAll(o: Options, compact: bool, ns: seq<Node>, depth: nat, m: Mood, gap: string): seq<Node>
    decreases ns, 1
  {
    if ns == [] then []
    else
      var head := if IsPlainText(ns[0]) then Text(Shown(o, gap + ns[0].value + After(compact, ns, depth, m)), false)
                  else Pad(o, compact, ns[0], depth, m);
      [head] + PadAll(o, compact, ns[1..], depth, MoodAfter(compact, ns[0], depth, m), Trail(compact, ns[0], depth))
  }

  /** The mood after a node, whatever the entities. */
  function MoodAfter(compact: bool, n: Node, depth: nat, m: Mood): Mood {
    Lay(false, compact, n, depth, m).mood
  }

  function Padded(o: Options, compact: bool, d: Document): Document {
    Document(d.bom, PadAll(o, compact, d.children, 0, START, ""))
  }

  // ---------- moods and padding ----------

  lemma {:induction false} MoodIgnoresEntities(e: bool, compact: bool, n: Node, depth: nat, m: Mood)
    ensures Lay(e, compact, n, depth, m).mood == Lay(false, compact, n, depth, m).mood
    decreases n, 0
  {
    hide OpenTag, CloseTag, PrintNode, Lead;
    if n.Element? {
      MoodAllIgnoresEntities(e, compact, n.children, depth + 1, m.(first := false));
    }
  }

  lemma {:induction false} MoodAllIgnoresEntities(e: bool, compact: bool, ns: seq<Node>, depth: nat, m: Mood)
    ensures LayAll(e, compact, ns, depth, m).mood == LayAll(false, compact, ns, depth, m).mood
    decreases ns, 1
  {
    hide Lay;
    if ns != [] {
      MoodIgnoresEntities(e, compact, ns[0], depth, m);
      MoodAllIgnoresEntities(e, compact, ns[1..], depth, Lay(e, compact, ns[0], depth, m).mood);
    }
  }

  lemma {:induction false} SpacesArePadding(depth: nat)
    ensures IsPadding(Spaces(depth)) && (Spaces(depth) == "" <==> depth == 0)
  {
    if depth > 0 {
      SpacesArePadding(depth - 1);
    }
  }

  lemma LeadIsPadding(compact: bool, n: Node, depth: nat, m: Mood)
    ensures IsPadding(Lead(compact, n, depth, m)) && IsPadding(CloseLead(compact, depth, m))
      && IsPadding(Trail(compact, n, depth))
    ensures n.Text? ==> Lead(compact, n, depth, m) == ""
  {
    SpacesArePadding(depth);
  }

  lemma PaddingJoins(a: string, b: string)
    requires IsPadding(a) && IsPadding(b)
    ensures IsPadding(a + b)
  {
  }

  // ---------- white space between tags ----------

  lemma {:induction false} PaddingIsSkipped(pre: string, s: string)
    requires IsPadding(pre)
    ensures XmlText.SkipWhiteSpace(pre + s) == XmlText.SkipWhiteSpace(s)
  {
    if pre == [] {
      assert pre + s == s;
    } else {
      assert (pre + s)[0] == pre[0] && (pre + s)[1..] == pre[1..] + s;
      PaddingIsSkipped(pre[1..], s);
    }
  }

  lemma KindAtTag(s: string)
    requires s != [] && s[0] == '<'
    ensures KindOf(s) != KText
  {
    assert s == "<" + s[1..];
  }

  lemma SameIdentity(pre: string, s: string)
    requires IsPadding(pre) && (s == [] || s[0] == '<')
    ensures Identify(pre + s) == Identify(s)
  {
    hide KindOf, XmlText.SkipWhiteSpace, IsPadding;
    PaddingIsSkipped(pre, s);
    SkipAtTag(s);
    if s != [] {
      KindAtTag(s);
    }
  }

  /** White space before a tag, or before the end of the text, does not matter to a turn of the parser's loop. */
  lemma NodeAfterPadding(o: Options, pre: string, s: string, depth: nat)
    requires IsPadding(pre) && (s == [] || s[0] == '<')
    ensures TakeNode(o, pre + s, depth) == TakeNode(o, s, depth)
  {
    hide Identify, ElementDeep, TakeLeaf, CheckElement, IsPadding;
    SameIdentity(pre, s);
  }

  lemma SkipAtTag(s: string)
    requires s == [] || s[0] == '<'
    ensures XmlText.SkipWhiteSpace(s) == s
  {
  }

  lemma ListAfterPadding(o: Options, pre: string, s: string, depth: nat, inDocument: bool, before: seq<Node>)
    requires IsPadding(pre) && (s == [] || s[0] == '<')
    ensures TakeList(o, pre + s, depth, inDocument, before) == TakeList(o, s, depth, inDocument, before)
  {
    hide TakeNode;
    NodeAfterPadding(o, pre, s, depth);
  }

  // ---------- padded text ----------

  lemma {:induction false} PaddingIsPrinted(entities: bool, pre: string, s: string)
    requires IsPadding(pre)
    ensures PrintString(entities, true, pre + s) == pre + PrintString(entities, true, s)
  {
    if pre == [] {
      assert pre + s == s;
    } else {
      hide PrintString;
      var c, more := pre[0], pre[1..];
      assert pre + s == [c] + (more + s) && pre == [c] + more;
      PaddingIsPrinted(entities, more, s);
      PrintedPadding(entities, pre + s);
      assert (pre + s)[1..] == more + s;
      Append3([c], more, PrintString(entities, true, s));
    }
  }

  lemma PrintedPadding(entities: bool, s: string)
    requires s != [] && (s[0] == ' ' || s[0] == LF)
    ensures PrintString(entities, true, s) == [s[0]] + PrintString(entities, true, s[1..])
  {
    PrintHead(entities, s, "");
    assert PrintString(entities, true, s) + "" == PrintString(entities, true, s);
    assert PrintString(entities, true, s[1..]) + "" == PrintString(entities, true, s[1..]);
  }

  lemma {:induction false} PrintedSplits(entities: bool, s: string, t: string)
    ensures PrintString(entities, true, s + t) == PrintString(entities, true, s) + PrintString(entities, true, t)
  {
    if s == [] {
      assert s + t == t;
    } else {
      assert (s + t)[1..] == s[1..] + t;
      PrintedSplits(entities, s[1..], t);
      PrintHead(entities, s + t, "");
      PrintHead(entities, s, PrintString(entities, true, t));
      assert PrintString(entities, true, s + t) + "" == PrintString(entities, true, s + t);
      assert PrintString(entities, true, (s + t)[1..]) + "" == PrintString(entities, true, (s + t)[1..]);
    }
  }

  /** Plain text printed with padding on both sides. */
  lemma PaddedPrint(entities: bool, pre: string, v: string, post: string)
    requires IsPadding(pre) && IsPadding(post)
    ensures PrintString(entities, true, pre + v + post) == pre + PrintString(entities, true, v) + post
  {
    hide PrintString;
    PrintedSplits(entities, pre + v, post);
    PaddingIsPrinted(entities, pre, v);
    PaddingIsPrinted(entities, post, "");
    assert post + "" == post && PrintString(entities, true, "") == "" by { NothingPrinted(entities); }
  }

  lemma NothingPrinted(entities: bool)
    ensures PrintString(entities, true, "") == ""
  {
  }

  /** The options without white-space collapsing. */
  function Preserving(o: Options): Options {
    Options(o.processEntities, false)
  }

  lemma PaddedPlain(pre: string, v: string, post: string, c: char)
    requires IsPlain(v) && IsPadding(pre) && IsPadding(post)
    ensures IsPlain(pre + v + post)
    ensures Lacks(v, c) && c != ' ' && c != LF ==> Lacks(pre + v + post, c)
  {
  }

  lemma PaddedTextOk(o: Options, pre: string, v: string, post: string)
    requires TextOk(o, v) && IsPadding(pre) && IsPadding(post)
    ensures TextOk(Preserving(o), pre + v + post)
  {
    hide Collapse, XmlText.SkipWhiteSpace, IsPadding, IsPlain, Lacks;
    assert pre + v + post == pre + (v + post);
    PaddingIsSkipped(pre, v + post);
    SignificantSomewhere(v, post);
    PaddedPlain(pre, v, post, '<');
  }

  lemma {:induction false} SignificantSomewhere(v: string, post: string)
    requires XmlText.SkipWhiteSpace(v) != []
    ensures XmlText.SkipWhiteSpace(v + post) != []
  {
    if IsWhiteSpace(v[0]) {
      assert (v + post)[1..] == v[1..] + post;
      SignificantSomewhere(v[1..], post);
    } else {
      assert (v + post)[0] == v[0];
    }
  }

  lemma ShownValue(o: Options, w: string)
    requires TextOk(Preserving(o), w)
    ensures Value(TextFlags(o), PrintString(o.processEntities, true, w)) == Shown(o, w)
    ensures Find(PrintString(o.processEntities, true, w), "<").None?
  {
    hide Rewrite, Escape, Collapse, CString, Find, TextOk;
    TextValue(Preserving(o), w);
    CollapseFlagOnlyCollapses(o.processEntities, PrintString(o.processEntities, true, w), 0, "");
  }

  lemma ShownTextIsTaken(o: Options, w: string, more: string, depth: nat)
    requires TextOk(Preserving(o), w) && more != []
    ensures TakeNode(o, PrintString(o.processEntities, true, w) + ("<" + more), depth)
         == Some(Parsed(Text(Shown(o, w), false), "<" + more))
  {
    hide PrintString, TakeSpan, Value, Find, TakeLeaf, Identify, ElementDeep, Shown, Collapse;
    var p := PrintString(o.processEntities, true, w);
    SignificantText(o.processEntities, w, "<" + more);
    TextIsIdentified(p + ("<" + more));
    ShownValue(o, w);
    assert p + ("<" + more) == p + "<" + more;
    SpanIsTaken(p, "<", more);
    TextFromSpan(o, p + ("<" + more), p, more);
  }

  // ---------- nodes and lists ----------

  /** A node's layout without what goes before and after it. */
  function Core(e: bool, compact: bool, n: Node, depth: nat, m: Mood): string {
    if n.Element? && n.children != [] then
      var inside := LayAll(e, compact, n.children, depth + 1, m.(first := false));
      OpenTag(e, n.name, n.attributes)
      + (">" + inside.output + CloseLead(compact, depth, inside.mood) + CloseTag(n.name))
    else if n.Element? then OpenTag(e, n.name, n.attributes) + "/>"
    else PrintNode(e, n)
  }

  lemma CoreStartsTag(e: bool, compact: bool, n: Node, depth: nat, m: Mood)
    ensures !IsPlainText(n) ==> StartsTag(Core(e, compact, n, depth, m))
  {
    hide LayAll, CloseLead, PrintAttributes, CloseTag, PrintString;
  }

  lemma LaidElement(e: bool, compact: bool, n: Node, depth: nat, m: Mood)
    requires n.Element?
    ensures Lay(e, compact, n, depth, m).output
         == Lead(compact, n, depth, m) + Core(e, compact, n, depth, m) + Trail(compact, n, depth)
  {
    hide LayAll, CloseLead, Lead, CloseTag, OpenTag;
    var inside := LayAll(e, compact, n.children, depth + 1, m.(first := false));
    var body := if n.children == [] then "/>"
                else ">" + inside.output + CloseLead(compact, depth, inside.mood) + CloseTag(n.name);
    Append3(Lead(compact, n, depth, m), OpenTag(e, n.name, n.attributes), body);
  }

  lemma LaidLeaf(e: bool, compact: bool, n: Node, depth: nat, m: Mood)
    requires !n.Element?
    ensures Lay(e, compact, n, depth, m).output
         == Lead(compact, n, depth, m) + Core(e, compact, n, depth, m) + Trail(compact, n, depth)
  {
    hide PrintNode;
    var lead, core := Lead(compact, n, depth, m), PrintNode(e, n);
    assert lead + core + "" == lead + core && "" + core == core;
  }

  lemma LayParts(e: bool, compact: bool, n: Node, depth: nat, m: Mood)
    ensures Lay(e, compact, n, depth, m).output
         == Lead(compact, n, depth, m) + Core(e, compact, n, depth, m) + Trail(compact, n, depth)
    ensures !IsPlainText(n) ==> StartsTag(Core(e, compact, n, depth, m))
  {
    hide LayAll, CloseLead, Lead, CloseTag, PrintNode, OpenTag, StartsTag, Core;
    CoreStartsTag(e, compact, n, depth, m);
    if n.Element? {
      LaidElement(e, compact, n, depth, m);
    } else {
      LaidLeaf(e, compact, n, depth, m);
    }
  }

  /** What follows a node in the layout of a list. */
  lemma LayStep(e: bool, compact: bool, ns: seq<Node>, depth: nat, m: Mood, pre: string, tail: string)
    requires ns != []
    ensures pre + LayAll(e, compact, ns, depth, m).output + tail
         == pre + Lead(compact, ns[0], depth, m) + (Core(e, compact, ns[0], depth, m)
            + (Trail(compact, ns[0], depth)
               + LayAll(e, compact, ns[1..], depth, MoodAfter(compact, ns[0], depth, m)).output + tail))
  {
    hide Lay, Core, Lead, Trail;
    LayParts(e, compact, ns[0], depth, m);
    MoodIgnoresEntities(e, compact, ns[0], depth, m);
    Regroup(pre, Lead(compact, ns[0], depth, m), Core(e, compact, ns[0], depth, m), Trail(compact, ns[0], depth),
      LayAll(e, compact, ns[1..], depth, MoodAfter(compact, ns[0], depth, m)).output, tail);
  }

  lemma Regroup(pre: string, lead: string, core: string, trail: string, more: string, tail: string)
    ensures pre + (lead + core + trail + more) + tail == pre + lead + (core + (trail + more + tail))
  {
  }

  lemma {:induction false} TextEndsMood(e: bool, compact: bool, ns: seq<Node>, depth: nat, m: Mood)
    requires ns != [] && IsPlainText(ns[|ns| - 1])
    ensures LayAll(e, compact, ns, depth, m).mood.textDepth == depth - 1
    decreases ns
  {
    hide Lay;
    if |ns| > 1 {
      assert ns[1..][|ns[1..]| - 1] == ns[|ns| - 1];
      TextEndsMood(e, compact, ns[1..], depth, Lay(e, compact, ns[0], depth, m).mood);
    } else {
      TextMood(e, compact, ns[0], depth, m);
      assert ns[1..] == [];
    }
  }

  lemma TextMood(e: bool, compact: bool, n: Node, depth: nat, m: Mood)
    requires n.Text?
    ensures Lay(e, compact, n, depth, m).mood == m.(textDepth := depth - 1)
  {
  }

  /** The end of an element's child list: padding and the closing tag. */
  lemma ListIsClosed(o: Options, name: string, s: string, lead: string, tail: string, depth: nat, kids: seq<Node>)
    requires IsName(name) && IsPadding(lead) && depth + 1 < MAX_ELEMENT_DEPTH
    requires TakeList(o, s, depth + 1, false, [])
          == TakeList(o, lead + (CloseTag(name) + tail), depth + 1, false, kids)
    ensures TakeLevel(o, s, depth, false) == ListResult(kids, Closed(name, tail))
  {
    hide TakeNode, IsPadding, IsName;
    var u := CloseTag(name) + tail;
    NodeAfterPadding(o, lead, u, depth + 1);
    CloseTagIsTaken(o, name, tail, depth + 1);
  }

  function EndGap(compact: bool, ns: seq<Node>, depth: nat, gap: string): string {
    if ns == [] then gap else Trail(compact, ns[|ns| - 1], depth)
  }

  lemma {:induction false} NodeIsLaid(o: Options, compact: bool, n: Node, depth: nat, m: Mood, tail: string)
    requires NodeOk(o, n) && !IsPlainText(n) && depth + 1 + Height(n) < MAX_ELEMENT_DEPTH
    ensures TakeNode(o, Core(o.processEntities, compact, n, depth, m) + tail, depth + 1)
         == Some(Parsed(Pad(o, compact, n, depth, m), tail))
    decreases n, 0
  {
    hide TakeNode, PrintNode, Core, LayAll, TakeList, NodeOk, NodesOk, AttributesOk, NoDeclarations, Height, CloseTag;
    hide StartsTag, PrintAttributes, TakeLevel, IsName, IsPadding, PadAll, CloseLead;
    var e := o.processEntities;
    if !n.Element? {
      LeafCore(e, compact, n, depth, m);
      LeafIsTaken(o, n, tail, depth + 1);
    } else {
      ElementParts(o, n);
      var laid := LayAll(e, compact, n.children, depth + 1, m.(first := false));
      var close := CloseLead(compact, depth, laid.mood);
      var inside := if n.children == [] then tail else laid.output + (close + (CloseTag(n.name) + tail));
      PadLength(o, compact, n.children, depth + 1, m.(first := false), "");
      if n.children != [] {
        LeadIsPadding(compact, n, depth, laid.mood);
        EndsAtTag(e, compact, n, depth, m, tail);
        NothingLaidOut(e, compact, depth, m);
        ListIsLaid(o, compact, n.children, depth + 1, m.(first := false), "", close + (CloseTag(n.name) + tail), false,
                   []);
        InsideIsTaken(o, compact, n, depth, m, tail);
      }
      ElementCore(e, compact, n, depth, m, tail, inside);
      ElementIsTaken(o, Pad(o, compact, n, depth, m), tail, inside, depth + 1);
    }
  }

  lemma LeafCore(e: bool, compact: bool, n: Node, depth: nat, m: Mood)
    requires !n.Element?
    ensures Core(e, compact, n, depth, m) == PrintNode(e, n)
  {
  }

  lemma PadLength(o: Options, compact: bool, ns: seq<Node>, depth: nat, m: Mood, gap: string)
    ensures PadAll(o, compact, ns, depth, m, gap) == [] <==> ns == []
  {
  }

  lemma ElementCore(e: bool, compact: bool, n: Node, depth: nat, m: Mood, tail: string, inside: string)
    requires n.Element?
    requires var laid := LayAll(e, compact, n.children, depth + 1, m.(first := false));
      inside == if n.children == [] then tail
                else laid.output + (CloseLead(compact, depth, laid.mood) + (CloseTag(n.name) + tail))
    ensures Core(e, compact, n, depth, m) + tail
         == "<" + (n.name + (PrintAttributes(e, n.attributes) + (TagEnd(n.children == []) + inside)))
  {
    hide LayAll, PrintAttributes, CloseTag, CloseLead;
  }

  /** Plain text at the end of an element is followed by the closing tag at once. */
  lemma EndsAtTag(e: bool, compact: bool, n: Node, depth: nat, m: Mood, tail: string)
    requires n.Element? && n.children != []
    ensures var laid := LayAll(e, compact, n.children, depth + 1, m.(first := false));
      IsPlainText(n.children[|n.children| - 1]) ==>
        StartsTag(CloseLead(compact, depth, laid.mood) + (CloseTag(n.name) + tail))
  {
    hide LayAll;
    if IsPlainText(n.children[|n.children| - 1]) {
      TextEndsMood(e, compact, n.children, depth + 1, m.(first := false));
      CloseStartsTag(n.name, tail);
    }
  }

  lemma InsideIsTaken(o: Options, compact: bool, n: Node, depth: nat, m: Mood, tail: string)
    requires n.Element? && n.children != [] && IsName(n.name) && depth + 2 < MAX_ELEMENT_DEPTH
    requires var laid := LayAll(o.processEntities, compact, n.children, depth + 1, m.(first := false));
      var s := CloseLead(compact, depth, laid.mood) + (CloseTag(n.name) + tail);
      TakeList(o, "" + laid.output + s, depth + 2, false, [])
      == TakeList(o, EndGap(compact, n.children, depth + 1, "") + s, depth + 2, false,
                  [] + PadAll(o, compact, n.children, depth + 1, m.(first := false), ""))
    ensures var laid := LayAll(o.processEntities, compact, n.children, depth + 1, m.(first := false));
      TakeLevel(o, laid.output + (CloseLead(compact, depth, laid.mood) + (CloseTag(n.name) + tail)), depth + 1, false)
      == ListResult(PadAll(o, compact, n.children, depth + 1, m.(first := false), ""), Closed(n.name, tail))
  {
    hide LayAll, TakeList, TakeLevel, PadAll, CloseTag, IsName, IsPadding, CloseLead;
    var laid := LayAll(o.processEntities, compact, n.children, depth + 1, m.(first := false));
    var close := CloseLead(compact, depth, laid.mood);
    var kids := PadAll(o, compact, n.children, depth + 1, m.(first := false), "");
    LeadIsPadding(compact, n, depth, laid.mood);
    assert [] + kids == kids && "" + laid.output == laid.output;
    var more := close + (CloseTag(n.name) + tail);
    assert EndGap(compact, n.children, depth + 1, "") + more == more;
    ListIsClosed(o, n.name, laid.output + (close + (CloseTag(n.name) + tail)), close, tail, depth + 1, kids);
  }

  /** A list that begins with a node other than plain text, after that node has been taken. */
  lemma TagLeads(o: Options, compact: bool, ns: seq<Node>, depth: nat, m: Mood, gap: string, tail: string,
          inDocument: bool, before: seq<Node>)
    requires ns != [] && !IsPlainText(ns[0]) && IsPadding(gap)
    requires var after := Trail(compact, ns[0], depth)
        + LayAll(o.processEntities, compact, ns[1..], depth, MoodAfter(compact, ns[0], depth, m)).output + tail;
      TakeNode(o, Core(o.processEntities, compact, ns[0], depth, m) + after, depth + 1)
      == Some(Parsed(Pad(o, compact, ns[0], depth, m), after))
    requires ns[0].Declaration? ==> WellLocated(inDocument, before)
    ensures TakeList(o, gap + LayAll(o.processEntities, compact, ns, depth, m).output + tail, depth + 1, inDocument,
                     before)
         == TakeList(o, Trail(compact, ns[0], depth)
              + LayAll(o.processEntities, compact, ns[1..], depth, MoodAfter(compact, ns[0], depth, m)).output + tail,
              depth + 1, inDocument, before + [Pad(o, compact, ns[0], depth, m)])
  {
    hide TakeNode, TakeList, LayAll, Core, Trail, Lead, MoodAfter, PadAll, IsPadding, WellLocated, StartsTag;
    var e := o.processEntities;
    var mood := MoodAfter(compact, ns[0], depth, m);
    var after := Trail(compact, ns[0], depth) + LayAll(e, compact, ns[1..], depth, mood).output + tail;
    var lead, core := Lead(compact, ns[0], depth, m), Core(e, compact, ns[0], depth, m);
    LayStep(e, compact, ns, depth, m, gap, tail);
    LeadIsPadding(compact, ns[0], depth, m);
    PaddingJoins(gap, lead);
    LayParts(e, compact, ns[0], depth, m);
    TagStarts(core, after);
    NodeAfterPadding(o, gap + lead, core + after, depth + 1);
    ListStep(o, gap + lead + (core + after), depth + 1, inDocument, before, Pad(o, compact, ns[0], depth, m), after);
  }

  lemma TagStarts(core: string, after: string)
    requires StartsTag(core)
    ensures StartsTag(core + after) && (core + after)[0] == '<' && core + after == "<" + (core + after)[1..]
    ensures (core + after)[1..] != []
  {
  }

  /** A list that begins with plain text, after that text and the padding on both sides have been taken. */
  lemma TextLeads(o: Options, compact: bool, ns: seq<Node>, depth: nat, m: Mood, gap: string, tail: string,
          inDocument: bool, before: seq<Node>)
    requires ns != [] && IsPlainText(ns[0]) && TextOk(o, ns[0].value) && IsPadding(gap)
    requires if |ns| > 1 then !IsPlainText(ns[1]) else StartsTag(tail)
    ensures TakeList(o, gap + LayAll(o.processEntities, compact, ns, depth, m).output + tail, depth + 1, inDocument,
                     before)
         == TakeList(o, LayAll(o.processEntities, compact, ns[1..], depth, MoodAfter(compact, ns[0], depth,
           m)).output + tail,
              depth + 1, inDocument,
              before + [Text(Shown(o, gap + ns[0].value + After(compact, ns, depth, m)), false)])
  {
    hide TakeNode, TakeList, LayAll, Core, MoodAfter, IsPadding, WellLocated, TextOk, PrintString, Lead, Shown;
    var e, v, post := o.processEntities, ns[0].value, After(compact, ns, depth, m);
    var w := gap + v + post;
    var u := FromTag(e, compact, ns, depth, m, tail);
    PaddedTextOk(o, gap, v, post);
    PaddedPrint(e, gap, v, post);
    assert u == "<" + u[1..];
    ShownTextIsTaken(o, w, u[1..], depth + 1);
    assert PrintString(e, true, w) + u == gap + LayAll(e, compact, ns, depth, m).output + tail by {
      TextThenTag(e, compact, ns, depth, m, gap, tail, post, u);
    }
    ListStep(o, PrintString(e, true, w) + u, depth + 1, inDocument, before, Text(Shown(o, w), false), u);
    ListAfterPadding(o, post, u, depth + 1, inDocument, before + [Text(Shown(o, w), false)]);
  }

  lemma TextThenTag(e: bool, compact: bool, ns: seq<Node>, depth: nat, m: Mood, gap: string, tail: string,
          post: string, u: string)
    requires ns != [] && IsPlainText(ns[0]) && IsPadding(gap) && IsPadding(post)
    requires post + u == LayAll(e, compact, ns[1..], depth, MoodAfter(compact, ns[0], depth, m)).output + tail
    ensures PrintString(e, true, gap + ns[0].value + post) + u == gap + LayAll(e, compact, ns, depth, m).output + tail
  {
    hide LayAll, MoodAfter, IsPadding, PrintString;
    var p := PrintString(e, true, ns[0].value);
    PaddedPrint(e, gap, ns[0].value, post);
    LayStep(e, compact, ns, depth, m, gap, tail);
    TextCore(e, compact, ns[0], depth, m);
    var mood := MoodAfter(compact, ns[0], depth, m);
    assert gap + "" == gap && "" + LayAll(e, compact, ns[1..], depth, mood).output + tail == post + u;
    Append3(gap + p, post, u);
    Append3(gap, p, post + u);
  }

  lemma TextCore(e: bool, compact: bool, n: Node, depth: nat, m: Mood)
    requires IsPlainText(n)
    ensures Core(e, compact, n, depth, m) == PrintString(e, true, n.value)
    ensures Lead(compact, n, depth, m) == "" && Trail(compact, n, depth) == ""
    ensures MoodAfter(compact, n, depth, m) == m.(textDepth := depth - 1)
  {
  }

  /** What stands after a plain text and its padding: a tag. */
  lemma FromTag(e: bool, compact: bool, ns: seq<Node>, depth: nat, m: Mood, tail: string) returns (u: string)
    requires ns != [] && IsPlainText(ns[0])
    requires if |ns| > 1 then !IsPlainText(ns[1]) else StartsTag(tail)
    ensures StartsTag(u) && IsPadding(After(compact, ns, depth, m))
    ensures After(compact, ns, depth, m) + u
         == LayAll(e, compact, ns[1..], depth, MoodAfter(compact, ns[0], depth, m)).output + tail
  {
    hide LayAll, MoodAfter, IsPadding, Core, StartsTag, Lead, Trail;
    TextCore(e, compact, ns[0], depth, m);
    var mood := MoodAfter(compact, ns[0], depth, m);
    if |ns| > 1 {
      var more := ns[1..];
      LayStep(e, compact, more, depth, mood, "", tail);
      LeadIsPadding(compact, more[0], depth, mood);
      LayParts(e, compact, more[0], depth, mood);
      u := Core(e, compact, more[0], depth, mood)
        + (Trail(compact, more[0], depth) + LayAll(e, compact, more[1..], depth, MoodAfter(compact, more[0], depth,
          mood)).output + tail);
      TagStarts(Core(e, compact, more[0], depth, mood), u[|Core(e, compact, more[0], depth, mood)|..]);
      assert u == Core(e, compact, more[0], depth, mood) + u[|Core(e, compact, more[0], depth, mood)|..];
      assert "" + Lead(compact, more[0], depth, mood) == Lead(compact, more[0], depth, mood);
      assert "" + LayAll(e, compact, more, depth, mood).output == LayAll(e, compact, more, depth, mood).output;
    } else {
      u := tail;
      NothingLaidOut(e, compact, depth, mood);
      assert ns[1..] == [];
    }
  }

  lemma NothingLaidOut(e: bool, compact: bool, depth: nat, m: Mood)
    ensures LayAll(e, compact, [], depth, m) == Laid("", m) && IsPadding("")
  {
  }

  lemma DeclarationsStay(before: seq<Node>, ns: seq<Node>, head: Node)
    requires ns != [] && DeclarationsLead(before + ns) && (head.Declaration? <==> ns[0].Declaration?)
    ensures DeclarationsLead((before + [head]) + ns[1..])
  {
    var a, b := before + ns, (before + [head]) + ns[1..];
    assert |a| == |b| && forall i :: 0 <= i < |a| ==> (a[i].Declaration? <==> b[i].Declaration?);
  }

  /** What the parser makes of the first node of a list. */
  function Head(o: Options, compact: bool, ns: seq<Node>, depth: nat, m: Mood, gap: string): Node
    requires ns != []
  {
    if IsPlainText(ns[0]) then Text(Shown(o, gap + ns[0].value + After(compact, ns, depth, m)), false)
    else Pad(o, compact, ns[0], depth, m)
  }

  lemma {:induction false} HeadIsLaid(o: Options, compact: bool, ns: seq<Node>, depth: nat, m: Mood, gap: string,
          tail: string, inDocument: bool, before: seq<Node>)
    requires ns != [] && NodesOk(o, ns) && depth + 1 + Heights(ns) < MAX_ELEMENT_DEPTH && IsPadding(gap)
    requires if inDocument then DeclarationsLead(before + ns) else NoDeclarations(ns)
    requires IsPlainText(ns[|ns| - 1]) ==> StartsTag(tail)
    ensures TakeList(o, gap + LayAll(o.processEntities, compact, ns, depth, m).output + tail, depth + 1, inDocument,
                     before)
         == TakeList(o, Trail(compact, ns[0], depth)
              + LayAll(o.processEntities, compact, ns[1..], depth, MoodAfter(compact, ns[0], depth, m)).output + tail,
              depth + 1, inDocument, before + [Head(o, compact, ns, depth, m, gap)])
    decreases ns, 0
  {
    hide TakeNode, TakeList, LayAll, Core, MoodAfter, IsPadding, WellLocated, StartsTag, DeclarationsLead, Height;
    hide After;
    hide TextOk, Pad, Shown, Lead;
    Located(ns, inDocument, before);
    if IsPlainText(ns[0]) {
      TextLeads(o, compact, ns, depth, m, gap, tail, inDocument, before);
      assert "" + LayAll(o.processEntities, compact, ns[1..], depth, MoodAfter(compact, ns[0], depth, m)).output
          == LayAll(o.processEntities, compact, ns[1..], depth, MoodAfter(compact, ns[0], depth, m)).output;
    } else {
      NodeIsLaid(o, compact, ns[0], depth, m, Trail(compact, ns[0], depth)
        + LayAll(o.processEntities, compact, ns[1..], depth, MoodAfter(compact, ns[0], depth, m)).output + tail);
      TagLeads(o, compact, ns, depth, m, gap, tail, inDocument, before);
    }
  }

  lemma {:induction false} ListIsLaid(o: Options, compact: bool, ns: seq<Node>, depth: nat, m: Mood, gap: string,
          tail: string, inDocument: bool, before: seq<Node>)
    requires NodesOk(o, ns) && depth + 1 + Heights(ns) < MAX_ELEMENT_DEPTH && IsPadding(gap)
    requires if inDocument then DeclarationsLead(before + ns) else NoDeclarations(ns)
    requires ns != [] && IsPlainText(ns[|ns| - 1]) ==> StartsTag(tail)
    ensures TakeList(o, gap + LayAll(o.processEntities, compact, ns, depth, m).output + tail, depth + 1, inDocument,
                     before)
         == TakeList(o, EndGap(compact, ns, depth, gap) + tail, depth + 1, inDocument,
                     before + PadAll(o, compact, ns, depth, m, gap))
    decreases ns, 1
  {
    hide TakeNode, TakeList, LayAll, Trail, MoodAfter, IsPadding, StartsTag, NodeOk, DeclarationsLead, Height, Head;
    hide PadAll;
    PadUnfolds(o, compact, ns, depth, m, gap);
    if ns == [] {
      NothingLaidOut(o.processEntities, compact, depth, m);
      assert gap + "" == gap && before + [] == before;
    } else {
      HeadIsLaid(o, compact, ns, depth, m, gap, tail, inDocument, before);
      var head, mood, trail := Head(o, compact, ns, depth, m, gap), MoodAfter(compact, ns[0], depth, m),
        Trail(compact, ns[0], depth);
      LeadIsPadding(compact, ns[0], depth, m);
      if inDocument {
        DeclarationsStay(before, ns, head);
      }
      LastOf(compact, ns, depth, gap);
      ListIsLaid(o, compact, ns[1..], depth, mood, trail, tail, inDocument, before + [head]);
      assert (before + [head]) + PadAll(o, compact, ns[1..], depth, mood, trail)
          == before + ([head] + PadAll(o, compact, ns[1..], depth, mood, trail));
    }
  }

  lemma PadUnfolds(o: Options, compact: bool, ns: seq<Node>, depth: nat, m: Mood, gap: string)
    ensures ns == [] ==> PadAll(o, compact, ns, depth, m, gap) == []
    ensures ns != [] ==>
      var more := PadAll(o, compact, ns[1..], depth, MoodAfter(compact, ns[0], depth, m), Trail(compact, ns[0], depth));
      PadAll(o, compact, ns, depth, m, gap) == [Head(o, compact, ns, depth, m, gap)] + more
    ensures ns != [] ==> (Head(o, compact, ns, depth, m, gap).Declaration? <==> ns[0].Declaration?)
  {
    hide Pad, Shown, After;
    if ns != [] {
      PadKeepsKind(o, compact, ns[0], depth, m);
    }
  }

  lemma PadKeepsKind(o: Options, compact: bool, n: Node, depth: nat, m: Mood)
    ensures Pad(o, compact, n, depth, m).Declaration? <==> n.Declaration?
  {
  }

  lemma LastOf(compact: bool, ns: seq<Node>, depth: nat, gap: string)
    requires ns != []
    ensures EndGap(compact, ns, depth, gap) == EndGap(compact, ns[1..], depth, Trail(compact, ns[0], depth))
    ensures ns[1..] != [] ==> ns[1..][|ns[1..]| - 1] == ns[|ns| - 1]
  {
  }

  // ---------- documents ----------

  /** The layout of a document begins as its compact form does. */
  lemma LayoutStarts(o: Options, compact: bool, d: Document)
    requires DocumentOk(o, d)
    ensures var t := LayAll(o.processEntities, compact, d.children, 0, START).output;
      var s := Layout(o.processEntities, compact, d);
      t != [] && XmlText.SkipWhiteSpace(s) == s && (d.bom <==> BOM <= s)
  {
    hide LayAll, Heights, NodesOk, TextOk, PrintString;
    var t, s := LayAll(o.processEntities, compact, d.children, 0, START).output, Layout(o.processEntities, compact, d);
    FirstLaid(o, compact, d.children);
    if d.bom {
      assert s[0] == BOM[0] && s[..3] == BOM;
    } else {
      assert s == t;
    }
    NothingToSkip(s);
  }

  lemma FirstLaid(o: Options, compact: bool, ns: seq<Node>)
    requires ns != [] && NodesOk(o, ns) && !IsPlainText(ns[|ns| - 1])
    ensures var t := LayAll(o.processEntities, compact, ns, 0, START).output;
      && t != []
      && (!IsPlainText(ns[0]) ==> t[0] == '<')
      && (IsPlainText(ns[0]) && ns[0].value != [] ==>
            (IsWhiteSpace(t[0]) <==> IsWhiteSpace(ns[0].value[0])) && (BOM <= t ==> BOM <= ns[0].value))
  {
    hide LayAll, Core, MoodAfter, IsPadding, PrintString, StartsTag, NodeOk, Lead, Trail, IsWhiteSpace;
    var e := o.processEntities;
    var t := LayAll(e, compact, ns, 0, START).output;
    if IsPlainText(ns[0]) {
      var u := TextLaidFirst(o, compact, ns);
      StartOfTag(u);
      if ns[0].value != [] {
        BomInText(e, ns[0].value, u);
      } else {
        assert t[|t| - |u|] == '<';
      }
    } else {
      var after := LaidFirst(e, compact, ns);
      LayParts(e, compact, ns[0], 0, START);
      TagStarts(Core(e, compact, ns[0], 0, START), after);
    }
  }

  /** Nothing comes before the first node. */
  lemma LaidFirst(e: bool, compact: bool, ns: seq<Node>) returns (after: string)
    requires ns != []
    ensures LayAll(e, compact, ns, 0, START).output == Core(e, compact, ns[0], 0, START) + after
    ensures after == Trail(compact, ns[0], 0)
                     + LayAll(e, compact, ns[1..], 0, MoodAfter(compact, ns[0], 0, START)).output
  {
    hide LayAll, Core, MoodAfter, Trail, Lead;
    var mood := MoodAfter(compact, ns[0], 0, START);
    var core, trail, more := Core(e, compact, ns[0], 0, START), Trail(compact, ns[0], 0),
                             LayAll(e, compact, ns[1..], 0, mood).output;
    after := trail + more;
    LayStep(e, compact, ns, 0, START, "", "");
    LayParts(e, compact, ns[0], 0, START);
    LeadAtStart(compact, ns[0]);
    Unpadded(LayAll(e, compact, ns, 0, START).output, core, trail, more);
  }

  lemma Unpadded(out: string, core: string, trail: string, more: string)
    requires "" + out + "" == "" + "" + (core + (trail + more + ""))
    ensures out == core + (trail + more)
  {
    assert "" + out + "" == out && trail + more + "" == trail + more;
    assert "" + "" + (core + (trail + more)) == core + (trail + more);
  }

  /** A first text is followed by a tag, with nothing between. */
  lemma TextLaidFirst(o: Options, compact: bool, ns: seq<Node>) returns (u: string)
    requires ns != [] && NodesOk(o, ns) && IsPlainText(ns[0]) && !IsPlainText(ns[|ns| - 1])
    ensures StartsTag(u)
    ensures LayAll(o.processEntities, compact, ns, 0, START).output
         == PrintString(o.processEntities, true, ns[0].value) + u
  {
    hide LayAll, Core, MoodAfter, IsPadding, PrintString, StartsTag, NodeOk, Lead, Trail;
    var e := o.processEntities;
    var after := LaidFirst(e, compact, ns);
    TextCore(e, compact, ns[0], 0, START);
    u := FromTag(e, compact, ns, 0, START, "");
    assert START.(textDepth := -1) == START;
    LeadAtStart(compact, ns[1]);
    var more := LayAll(e, compact, ns[1..], 0, START).output;
    assert "" + u == u && more + "" == more && "" + more == more;
  }

  lemma StartOfTag(u: string)
    requires StartsTag(u)
    ensures u != [] && u[0] == '<'
  {
  }

  lemma LeadAtStart(compact: bool, n: Node)
    ensures Lead(compact, n, 0, START) == ""
  {
  }

  /** Parsing what the printer wrote, in either mode, gives the document with the layout's white space taken in by the
      plain text it touches. */
  lemma LayoutIsTaken(o: Options, compact: bool, d: Document)
    requires DocumentOk(o, d)
    ensures Parse(o, Layout(o.processEntities, compact, d)) == Ok(Padded(o, compact, d))
  {
    hide TakeList, LayAll, NodesOk, Heights, XmlText.SkipWhiteSpace, PadAll, DeclarationsLead, IsPadding, Parse;
    hide IsPlainText, EndGap;
    var e := o.processEntities;
    var t := LayAll(e, compact, d.children, 0, START).output;
    var kids := PadAll(o, compact, d.children, 0, START, "");
    NothingLaidOut(e, compact, 0, START);
    assert [] + d.children == d.children && [] + kids == kids && "" + t + "" == t && "" + t == t;
    ListIsLaid(o, compact, d.children, 0, START, "", "", true, []);
    GapEndsList(o, compact, d.children, kids);
    LayoutStarts(o, compact, d);
    ParseIs(o, Layout(e, compact, d), d.bom, t, kids);
  }

  lemma GapEndsList(o: Options, compact: bool, ns: seq<Node>, kids: seq<Node>)
    ensures TakeList(o, EndGap(compact, ns, 0, "") + "", 1, true, kids) == ListResult(kids, EndOfText)
  {
    hide TakeList, IsPadding;
    if ns != [] {
      LeadIsPadding(compact, ns[|ns| - 1], 0, START);
    } else {
      NothingLaidOut(false, compact, 0, START);
    }
    ListAfterPadding(o, EndGap(compact, ns, 0, ""), "", 1, true, kids);
    EmptyEndsList(o, 1, true, kids);
  }

  // ---------- when the document comes back unchanged ----------

  /** No plain text touches white space of the layout. */
  predicate Snug(compact: bool, n: Node, depth: nat, m: Mood)
    decreases n, 0
  {
    n.Element? ==> SnugAll(compact, n.children, depth + 1, m.(first := false), "")
  }

  predicate SnugAll(compact: bool, ns: seq<Node>, depth: nat, m: Mood, gap: string)
    decreases ns, 1
  {
    ns == [] ||
    (&& (if IsPlainText(ns[0]) then gap == "" && After(compact, ns, depth, m) == "" else Snug(compact, ns[0], depth, m))
     && SnugAll(compact, ns[1..], depth, MoodAfter(compact, ns[0], depth, m), Trail(compact, ns[0], depth)))
  }

  lemma SqueezeStep(s: string)
    requires s != []
    ensures !IsWhiteSpace(s[0]) ==> Squeeze(s) == [s[0]] + Squeeze(s[1..])
    ensures IsWhiteSpace(s[0]) ==> var rest := XmlText.SkipWhiteSpace(s);
      Squeeze(s) == if rest == [] then [] else [' ', rest[0]] + Squeeze(rest[1..])
  {
    hide XmlText.SkipWhiteSpace;
  }

  lemma {:induction false} SqueezeDropsPadding(s: string, post: string)
    requires IsPadding(post)
    ensures Squeeze(s + post) == Squeeze(s)
    decreases |s|
  {
    hide Squeeze, XmlText.SkipWhiteSpace, IsPadding, IsWhiteSpace;
    if s == [] {
      OnlyPadding(post);
      OnlyPadding("");
      assert s + post == post;
    } else {
      var t := s + post;
      assert t[0] == s[0] && t[1..] == s[1..] + post;
      SqueezeStep(s);
      SqueezeStep(t);
      SkipBeforePadding(s, post);
      if !IsWhiteSpace(s[0]) {
        SqueezeDropsPadding(s[1..], post);
      } else {
        var rest := XmlText.SkipWhiteSpace(s);
        if rest != [] {
          assert (rest + post)[0] == rest[0] && (rest + post)[1..] == rest[1..] + post;
          SqueezeDropsPadding(rest[1..], post);
        }
      }
    }
  }

  lemma {:induction false} OnlyPadding(post: string)
    requires IsPadding(post)
    ensures XmlText.SkipWhiteSpace(post) == [] && Squeeze(post) == []
  {
    if post != [] {
      OnlyPadding(post[1..]);
    }
  }

  lemma {:induction false} SkipBeforePadding(s: string, post: string)
    requires IsPadding(post)
    ensures var rest := XmlText.SkipWhiteSpace(s);
      XmlText.SkipWhiteSpace(s + post) == if rest == [] then [] else rest + post
  {
    if s == [] {
      OnlyPadding(post);
      assert s + post == post;
    } else if IsWhiteSpace(s[0]) {
      assert (s + post)[1..] == s[1..] + post;
      SkipBeforePadding(s[1..], post);
    } else {
      assert (s + post)[0] == s[0];
    }
  }

  /** Collapsing white space removes the padding. */
  lemma CollapseDropsPadding(pre: string, v: string, post: string)
    requires IsPadding(pre) && IsPadding(post)
    ensures Collapse(pre + v + post) == Collapse(v)
  {
    hide IsPadding, XmlText.SkipWhiteSpace, Squeeze;
    assert pre + v + post == pre + (v + post);
    PaddingIsSkipped(pre, v + post);
    SkipBeforePadding(v, post);
    if XmlText.SkipWhiteSpace(v) != [] {
      SqueezeDropsPadding(XmlText.SkipWhiteSpace(v), post);
    }
  }

  lemma AfterIsPadding(compact: bool, ns: seq<Node>, depth: nat, m: Mood)
    ensures IsPadding(After(compact, ns, depth, m))
  {
    hide IsPadding;
    if |ns| > 1 {
      LeadIsPadding(compact, ns[1], depth, m.(textDepth := depth - 1));
    } else {
      NothingLaidOut(false, compact, depth, m);
    }
  }

  lemma TextComesBackExactlyWhen(o: Options, v: string, gap: string, post: string)
    requires TextOk(o, v) && IsPadding(gap) && IsPadding(post)
    ensures Shown(o, gap + v + post) == v <==> o.collapseWhitespace || (gap == "" && post == "")
  {
    hide IsPadding, Collapse;
    CollapseDropsPadding(gap, v, post);
    assert |gap + v + post| == |gap| + |v| + |post|;
    assert gap == "" && post == "" ==> gap + v + post == v;
  }

  lemma {:induction false} PadExactlyWhen(o: Options, compact: bool, n: Node, depth: nat, m: Mood)
    requires NodeOk(o, n)
    ensures Pad(o, compact, n, depth, m) == n <==> o.collapseWhitespace || Snug(compact, n, depth, m)
    decreases n, 0
  {
    hide NodesOk, PadAll, SnugAll, AttributesOk, NoDeclarations;
    if n.Element? {
      NothingLaidOut(false, compact, depth, m);
      PadAllExactlyWhen(o, compact, n.children, depth + 1, m.(first := false), "");
    }
  }

  lemma {:induction false} PadAllExactlyWhen(o: Options, compact: bool, ns: seq<Node>, depth: nat, m: Mood, gap: string)
    requires NodesOk(o, ns) && IsPadding(gap)
    ensures PadAll(o, compact, ns, depth, m, gap) == ns <==> o.collapseWhitespace || SnugAll(compact, ns, depth, m, gap)
    decreases ns, 1
  {
    hide PadAll, Head, NodeOk, Pad, IsPadding, MoodAfter, Trail, After;
    PadUnfolds(o, compact, ns, depth, m, gap);
    if ns != [] {
      var mood, trail := MoodAfter(compact, ns[0], depth, m), Trail(compact, ns[0], depth);
      LeadIsPadding(compact, ns[0], depth, m);
      HeadExactlyWhen(o, compact, ns, depth, m, gap);
      PadAllExactlyWhen(o, compact, ns[1..], depth, mood, trail);
      SameParts(Head(o, compact, ns, depth, m, gap), PadAll(o, compact, ns[1..], depth, mood, trail), ns);
    }
  }

  lemma SameParts(head: Node, more: seq<Node>, ns: seq<Node>)
    requires ns != []
    ensures [head] + more == ns <==> head == ns[0] && more == ns[1..]
  {
    if [head] + more == ns {
      assert ns[1..] == more;
    }
  }

  lemma {:induction false} HeadExactlyWhen(o: Options, compact: bool, ns: seq<Node>, depth: nat, m: Mood, gap: string)
    requires ns != [] && NodeOk(o, ns[0]) && IsPadding(gap)
    ensures Head(o, compact, ns, depth, m, gap) == ns[0] <==>
      o.collapseWhitespace
      || (if IsPlainText(ns[0]) then gap == "" && After(compact, ns, depth, m) == ""
          else Snug(compact, ns[0], depth, m))
    decreases ns, 0
  {
    hide Pad, Snug, IsPadding, After, Shown;
    if IsPlainText(ns[0]) {
      AfterIsPadding(compact, ns, depth, m);
      TextComesBackExactlyWhen(o, ns[0].value, gap, After(compact, ns, depth, m));
    } else {
      PadExactlyWhen(o, compact, ns[0], depth, m);
    }
  }

  /** The printed document parses to the document itself exactly when white space is collapsed or no plain text
      touches the layout. */
  lemma LayoutRoundTripsExactlyWhen(o: Options, compact: bool, d: Document)
    requires DocumentOk(o, d)
    ensures Parse(o, Layout(o.processEntities, compact, d)) == Ok(d)
      <==> o.collapseWhitespace || SnugAll(compact, d.children, 0, START, "")
  {
    hide Parse, Layout, SnugAll, PadAll, NodesOk, Heights, DeclarationsLead;
    NothingLaidOut(false, compact, 0, START);
    LayoutIsTaken(o, compact, d);
    PadAllExactlyWhen(o, compact, d.children, 0, START, "");
  }

  // ---------- content that is not mixed ----------

  /** No plain text stands beside an element, at any level. */
  predicate Unmixed(ns: seq<Node>)
    decreases ns
  {
    && ((forall i :: 0 <= i < |ns| ==> !IsPlainText(ns[i])) || (forall i :: 0 <= i < |ns| ==> !ns[i].Element?))
    && (forall i :: 0 <= i < |ns| && ns[i].Element? ==> Unmixed(ns[i].children))
  }

  lemma UnmixedRest(ns: seq<Node>)
    requires ns != [] && Unmixed(ns)
    ensures Unmixed(ns[1..]) && (ns[0].Element? ==> Unmixed(ns[0].children))
    ensures IsPlainText(ns[0]) ==> forall i :: 0 <= i < |ns| ==> !ns[i].Element?
  {
    assert forall i :: 0 <= i < |ns[1..]| ==> ns[1..][i] == ns[i + 1];
  }

  /** Below the document's own level, unmixed content comes back as it was. */
  lemma {:induction false} UnmixedIsSnug(compact: bool, ns: seq<Node>, depth: nat, m: Mood)
    requires Unmixed(ns) && depth > 0
    ensures SnugAll(compact, ns, depth, m, "")
    decreases ns
  {
    hide MoodAfter, Unmixed;
    if ns != [] {
      UnmixedRest(ns);
      if ns[0].Element? {
        UnmixedIsSnug(compact, ns[0].children, depth + 1, m.(first := false));
      }
      UnmixedIsSnug(compact, ns[1..], depth, MoodAfter(compact, ns[0], depth, m));
    }
  }

  lemma {:induction false} TagsAreSnug(compact: bool, ns: seq<Node>, m: Mood, gap: string)
    requires forall i :: 0 <= i < |ns| ==> !IsPlainText(ns[i])
    requires forall i :: 0 <= i < |ns| && ns[i].Element? ==> Unmixed(ns[i].children)
    ensures SnugAll(compact, ns, 0, m, gap)
  {
    hide MoodAfter, Unmixed, Trail;
    if ns != [] {
      if ns[0].Element? {
        UnmixedIsSnug(compact, ns[0].children, 1, m.(first := false));
      }
      assert forall i :: 0 <= i < |ns[1..]| ==> ns[1..][i] == ns[i + 1];
      TagsAreSnug(compact, ns[1..], MoodAfter(compact, ns[0], 0, m), Trail(compact, ns[0], 0));
    }
  }

  /** A document without plain text at its own level and without mixed content survives printing in either mode. */
  lemma UnmixedRoundTrip(o: Options, compact: bool, d: Document)
    requires DocumentOk(o, d) && forall i :: 0 <= i < |d.children| ==> !IsPlainText(d.children[i])
    requires forall i :: 0 <= i < |d.children| && d.children[i].Element? ==> Unmixed(d.children[i].children)
    ensures Parse(o, Layout(o.processEntities, compact, d)) == Ok(d)
  {
    hide Parse, Layout, DocumentOk, SnugAll, Unmixed;
    TagsAreSnug(compact, d.children, START, "");
    LayoutRoundTripsExactlyWhen(o, compact, d);
  }

  // ---------- pretty printing, exactly ----------

  /** In this list, or in the children of an element in it, a plain text stands directly before an element. */
  predicate TextMeetsElement(ns: seq<Node>)
    decreases ns
  {
    && ns != []
    && ((|ns| > 1 && IsPlainText(ns[0]) && ns[1].Element?)
        || (ns[0].Element? && TextMeetsElement(ns[0].children))
        || TextMeetsElement(ns[1..]))
  }

  lemma AfterBelow(ns: seq<Node>, depth: nat, m: Mood)
    requires depth > 0
    ensures After(false, ns, depth, m) == "" <==> !(|ns| > 1 && ns[1].Element?)
    ensures ns != [] ==> Trail(false, ns[0], depth) == ""
  {
    SpacesArePadding(depth);
  }

  /** Below the document's own level, exactly the plain texts directly before an element take layout in. */
  lemma {:induction false} SnugBelowExactlyWhen(ns: seq<Node>, depth: nat, m: Mood)
    requires depth > 0
    ensures SnugAll(false, ns, depth, m, "") <==> !TextMeetsElement(ns)
    decreases ns
  {
    hide MoodAfter, Trail, After;
    if ns != [] {
      AfterBelow(ns, depth, m);
      if ns[0].Element? {
        SnugBelowExactlyWhen(ns[0].children, depth + 1, m.(first := false));
      }
      SnugBelowExactlyWhen(ns[1..], depth, MoodAfter(false, ns[0], depth, m));
    }
  }

  lemma {:induction false} FirstStaysOver(ns: seq<Node>, depth: nat, m: Mood)
    requires !m.first
    ensures !LayAll(false, false, ns, depth, m).mood.first
    decreases ns, 1
  {
    hide Lay;
    if ns != [] {
      FirstIsOver(ns[0], depth, m);
      FirstStaysOver(ns[1..], depth, Lay(false, false, ns[0], depth, m).mood);
    }
  }

  /** After anything but text, something has been written. */
  lemma {:induction false} FirstIsOver(n: Node, depth: nat, m: Mood)
    requires !m.first || !n.Text?
    ensures !MoodAfter(false, n, depth, m).first
    decreases n, 0
  {
    hide OpenTag, CloseTag, PrintNode, Lead, LayAll;
    if n.Element? {
      FirstStaysOver(n.children, depth + 1, m.(first := false));
    }
  }

  /** Nothing but text comes before place `k`. */
  predicate OnlyTextBefore(ns: seq<Node>, k: nat)
    requires k <= |ns|
  {
    forall i :: 0 <= i < k ==> ns[i].Text?
  }

  /** Child `i` of a document comes back as it was: a plain text does when no element comes before it, and CDATA,
      nothing, or the first thing that is not text comes after it; an element does when no text in it meets an
      element. */
  predicate Undisturbed(ns: seq<Node>, i: nat)
    requires i < |ns|
  {
    if IsPlainText(ns[i]) then
      (i == 0 || !ns[i - 1].Element?) && (i + 1 == |ns| || ns[i + 1].Text? || OnlyTextBefore(ns, i))
    else ns[i].Element? ==> !TextMeetsElement(ns[i].children)
  }

  /** The new line that comes before child `k`. */
  function GapBefore(ns: seq<Node>, k: nat): string
    requires k <= |ns|
  {
    if k > 0 && ns[k - 1].Element? then "\n" else ""
  }

  lemma FirstUntilMarked(ns: seq<Node>, k: nat, m: Mood)
    requires k < |ns| && (m.first <==> OnlyTextBefore(ns, k))
    ensures MoodAfter(false, ns[k], 0, m).first <==> OnlyTextBefore(ns, k + 1)
  {
    if m.first && ns[k].Text? {
      assert MoodAfter(false, ns[k], 0, m).first;
    } else {
      FirstIsOver(ns[k], 0, m);
    }
  }

  lemma AfterAtTop(ns: seq<Node>, m: Mood)
    ensures After(false, ns, 0, m) == "" <==> |ns| <= 1 || ns[1].Text? || m.first
  {
  }

  lemma ChildExactlyWhen(ns: seq<Node>, k: nat, m: Mood)
    requires k < |ns| && (m.first <==> OnlyTextBefore(ns, k))
    ensures (if IsPlainText(ns[k]) then GapBefore(ns, k) == "" && After(false, ns[k..], 0, m) == ""
             else Snug(false, ns[k], 0, m))
      <==> Undisturbed(ns, k)
  {
    hide SnugAll, TextMeetsElement, After, OnlyTextBefore;
    AfterAtTop(ns[k..], m);
    if ns[k].Element? {
      SnugBelowExactlyWhen(ns[k].children, 1, m.(first := false));
    }
  }

  lemma {:induction false} SnugAtTopExactlyWhen(ns: seq<Node>, k: nat, m: Mood)
    requires k <= |ns| && (m.first <==> OnlyTextBefore(ns, k))
    ensures SnugAll(false, ns[k..], 0, m, GapBefore(ns, k)) <==> forall i :: k <= i < |ns| ==> Undisturbed(ns, i)
    decreases |ns| - k
  {
    hide MoodAfter, After, Snug, OnlyTextBefore, Undisturbed;
    if k < |ns| {
      FirstUntilMarked(ns, k, m);
      ChildExactlyWhen(ns, k, m);
      assert ns[k..][1..] == ns[k + 1..];
      SnugAtTopExactlyWhen(ns, k + 1, MoodAfter(false, ns[k], 0, m));
    }
  }

  /** Pretty printing with white space preserved on reading returns the document exactly when every child of it is
      undisturbed: a condition on the tree alone, whatever its depth. */
  lemma PrettyRoundTripsExactlyWhen(o: Options, d: Document)
    requires DocumentOk(o, d)
    ensures Parse(o, Layout(o.processEntities, false, d)) == Ok(d)
      <==> o.collapseWhitespace || forall i :: 0 <= i < |d.children| ==> Undisturbed(d.children, i)
  {
    hide Parse, Layout, DocumentOk, SnugAll, Undisturbed;
    assert d.children[0..] == d.children;
    SnugAtTopExactlyWhen(d.children, 0, START);
    LayoutRoundTripsExactlyWhen(o, false, d);
  }

  /** Mixed content does not survive pretty printing with white space preserved: whatever the document, a text directly
      before an element, at any depth inside a child of the document, comes back changed. */
  lemma MixedContentChanges(o: Options, d: Document, k: nat)
    requires DocumentOk(o, d) && !o.collapseWhitespace
    requires k < |d.children| && d.children[k].Element? && TextMeetsElement(d.children[k].children)
    ensures Parse(o, Layout(o.processEntities, false, d)) != Ok(d)
  {
    hide Parse, Layout, DocumentOk, TextMeetsElement;
    PrettyRoundTripsExactlyWhen(o, d);
    assert !Undisturbed(d.children, k);
  }
}
