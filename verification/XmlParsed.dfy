/** What every parse gives, whatever the text: well-formed names, attributes told apart by their names, declarations
    that come first, and nesting within the limit (drivers/Mach3/tinyxml2.cpp:988-1100, 1815-1925, 2380-2408). */
module XmlParsed {
  import opened XmlUtil
  import opened XmlText
  import opened XmlTree
  import opened XmlGrammar
  import opened XmlPrint

  predicate AttributesTold(attributes: seq<Attribute>) {
    && (forall i :: 0 <= i < |attributes| ==> IsName(attributes[i].name))
    && (forall i, j :: 0 <= i < j < |attributes| ==> attributes[i].name != attributes[j].name)
  }

  predicate Structured(n: Node)
    decreases n
  {
    n.Element? ==>
      && IsName(n.name) && AttributesTold(n.attributes) && NoDeclarations(n.children)
      && (forall i :: 0 <= i < |n.children| ==> Structured(n.children[i]))
  }

  /** Nodes read while `depth` child lists are open. */
  predicate AllStructured(ns: seq<Node>, depth: nat) {
    forall i :: 0 <= i < |ns| ==> Structured(ns[i]) && depth + Height(ns[i]) < MAX_ELEMENT_DEPTH
  }

  predicate WellPlaced(ns: seq<Node>, inDocument: bool) {
    if inDocument then DeclarationsLead(ns) else NoDeclarations(ns)
  }

  // ---------- tags ----------

  lemma TakenNameIsName(s: string)
    ensures TakeName(s).Some? ==> IsName(TakeName(s).value.0)
  {
  }

  lemma TakenAttributeIsNamed(o: Options, s: string)
    ensures TakeAttribute(o, s).Some? ==> IsName(TakeAttribute(o, s).value.0.name)
  {
    hide TakeName, TakeValue, IsName;
    TakenNameIsName(s);
  }

  lemma {:induction false} TakenAttributesAreTold(o: Options, s: string, seen: seq<Attribute>)
    requires AttributesTold(seen)
    ensures var r := TakeAttributes(o, s, seen); r.GoodAttributes? ==> AttributesTold(r.attributes)
    decreases |s|
  {
    hide TakeAttribute, XmlText.SkipWhiteSpace, IsName, HasAttribute, AttributesTold;
    var t := XmlText.SkipWhiteSpace(s);
    if t != [] && IsNameStartChar(t[0]) {
      TakenAttributeIsNamed(o, t);
      var a := TakeAttribute(o, t);
      if a.Some? && !HasAttribute(seen, a.value.0.name) {
        OneMoreTold(seen, a.value.0);
        TakenAttributesAreTold(o, a.value.1, seen + [a.value.0]);
      }
    }
  }

  lemma OneMoreTold(seen: seq<Attribute>, a: Attribute)
    requires AttributesTold(seen) && IsName(a.name) && !HasAttribute(seen, a.name)
    ensures AttributesTold(seen + [a])
  {
    hide IsName;
  }

  lemma NothingToTell()
    ensures AttributesTold([])
  {
  }

  lemma TakenTagIsNamed(o: Options, s: string)
    ensures var t := TakeTag(o, s); t.Tag? ==> IsName(t.name) && AttributesTold(t.attributes)
  {
    hide TakeName, TakeAttributes, XmlText.SkipWhiteSpace, IsName, AttributesTold;
    var t := XmlText.SkipWhiteSpace(s);
    var rest := if t != [] && t[0] == '/' then t[1..] else t;
    TakenNameIsName(rest);
    NothingToTell();
    if TakeName(rest).Some? {
      TakenAttributesAreTold(o, TakeName(rest).value.1, []);
    }
  }

  // ---------- nodes ----------

  lemma LeafIsStructured(o: Options, k: Kind, s: string, depth: nat)
    requires k != KElement && depth < MAX_ELEMENT_DEPTH
    ensures var r := TakeLeaf(o, k, s); r.Parsed? ==> Structured(r.node) && depth + Height(r.node) < MAX_ELEMENT_DEPTH
  {
    hide TakeSpan, Value;
  }

  lemma {:induction false} HeightsBounded(ns: seq<Node>, depth: nat)
    requires depth < MAX_ELEMENT_DEPTH && AllStructured(ns, depth)
    ensures depth + Heights(ns) < MAX_ELEMENT_DEPTH
    decreases ns
  {
    hide Structured, Height;
    if ns != [] {
      assert forall i :: 0 <= i < |ns[1..]| ==> ns[1..][i] == ns[i + 1];
      HeightsBounded(ns[1..], depth);
    }
  }

  lemma ElementIsStructured(name: string, attributes: seq<Attribute>, children: seq<Node>, depth: nat)
    requires IsName(name) && AttributesTold(attributes) && WellPlaced(children, false) && depth < MAX_ELEMENT_DEPTH
    requires children != [] ==> depth + 1 < MAX_ELEMENT_DEPTH && AllStructured(children, depth + 1)
    ensures var n := Element(name, attributes, children); Structured(n) && depth + Height(n) < MAX_ELEMENT_DEPTH
  {
    hide IsName, AttributesTold;
    if children != [] {
      HeightsBounded(children, depth + 1);
    }
  }

  /** An element whose list gave `list`, once its parent has checked it. */
  lemma CheckedIsStructured(t: TagResult, list: ListResult, depth: nat)
    requires t.Tag? && IsName(t.name) && AttributesTold(t.attributes) && depth < MAX_ELEMENT_DEPTH
    requires WellPlaced(list.nodes, false)
    requires list.nodes != [] ==> depth + 1 < MAX_ELEMENT_DEPTH && AllStructured(list.nodes, depth + 1)
    ensures var r := CheckElement(WithChildren(t, list));
      r.Parsed? ==> Structured(r.node) && depth + Height(r.node) < MAX_ELEMENT_DEPTH
  {
    hide IsName, AttributesTold, WellPlaced, AllStructured;
    ElementIsStructured(t.name, t.attributes, list.nodes, depth);
  }

  lemma ChildlessIsStructured(t: TagResult, depth: nat)
    requires t.Tag? && IsName(t.name) && AttributesTold(t.attributes) && depth < MAX_ELEMENT_DEPTH
    ensures var r := CheckElement(Deep(t.name, t.attributes, [], t.closing, None, t.rest));
      r.Parsed? ==> Structured(r.node) && depth + Height(r.node) < MAX_ELEMENT_DEPTH
  {
    hide IsName, AttributesTold;
    ElementIsStructured(t.name, t.attributes, [], depth);
  }

  lemma {:induction false} DeepIsStructured(o: Options, s: string, depth: nat)
    requires depth < MAX_ELEMENT_DEPTH
    ensures var r := CheckElement(ElementDeep(o, s, depth));
      r.Parsed? ==> Structured(r.node) && depth + Height(r.node) < MAX_ELEMENT_DEPTH
    decreases |s|, 0
  {
    hide TakeTag, TakeLevel, WithChildren, Structured, IsName, AttributesTold, CheckElement, Height, WellPlaced;
    var t := TakeTag(o, s);
    TakenTagIsNamed(o, s);
    if t.Tag? {
      if t.rest == [] || t.closing != OPEN {
        ChildlessIsStructured(t, depth);
      } else {
        LevelIsStructured(o, t.rest, depth, false);
        CheckedIsStructured(t, TakeLevel(o, t.rest, depth, false), depth);
      }
    } else {
      FailedIsNotParsed(t.error);
    }
  }

  lemma FailedIsNotParsed(e: Option<XMLError>)
    ensures !CheckElement(DeepFailed(e)).Parsed?
  {
  }

  lemma {:induction false} LevelIsStructured(o: Options, s: string, depth: nat, inDocument: bool)
    requires depth < MAX_ELEMENT_DEPTH
    ensures var r := TakeLevel(o, s, depth, inDocument);
      && WellPlaced(r.nodes, inDocument)
      && (r.nodes != [] ==> depth + 1 < MAX_ELEMENT_DEPTH && AllStructured(r.nodes, depth + 1))
    decreases |s|, 3
  {
    hide TakeList, AllStructured;
    if depth + 1 < MAX_ELEMENT_DEPTH {
      NothingRead(depth + 1);
      ListIsStructured(o, s, depth + 1, inDocument, []);
    }
  }

  lemma NothingRead(depth: nat)
    ensures AllStructured([], depth)
  {
  }

  lemma {:induction false} ListIsStructured(o: Options, s: string, depth: nat, inDocument: bool, before: seq<Node>)
    requires depth < MAX_ELEMENT_DEPTH && AllStructured(before, depth) && WellPlaced(before, inDocument)
    ensures var r := TakeList(o, s, depth, inDocument, before);
      AllStructured(r.nodes, depth) && WellPlaced(r.nodes, inDocument)
    decreases |s|, 2
  {
    hide TakeNode, AllStructured, WellPlaced, WellLocated, Structured, Height;
    NodeIsStructured(o, s, depth);
    var t := TakeNode(o, s, depth);
    if t.Some? && t.value.Parsed? && (t.value.node.Declaration? ==> WellLocated(inDocument, before)) {
      OneMoreStructured(before, t.value.node, depth, inDocument);
      ListIsStructured(o, t.value.rest, depth, inDocument, before + [t.value.node]);
    }
  }

  lemma OneMoreStructured(before: seq<Node>, n: Node, depth: nat, inDocument: bool)
    requires AllStructured(before, depth) && Structured(n) && depth + Height(n) < MAX_ELEMENT_DEPTH
    requires WellPlaced(before, inDocument) && (n.Declaration? ==> WellLocated(inDocument, before))
    ensures AllStructured(before + [n], depth) && WellPlaced(before + [n], inDocument)
  {
    hide Structured, Height;
  }

  lemma {:induction false} NodeIsStructured(o: Options, s: string, depth: nat)
    requires depth < MAX_ELEMENT_DEPTH
    ensures var r := TakeNode(o, s, depth);
      r.Some? && r.value.Parsed? ==> Structured(r.value.node) && depth + Height(r.value.node) < MAX_ELEMENT_DEPTH
    decreases |s|, 1
  {
    hide Identify, TakeLeaf, ElementDeep, CheckElement, Structured, Height;
    var i := Identify(s);
    if i.Some? {
      if i.value.0 == KElement {
        DeepIsStructured(o, i.value.1, depth);
      } else {
        LeafIsStructured(o, i.value.0, i.value.1, depth);
      }
    }
  }

  /** Every document a parse gives has this structure. */
  lemma ParsedIsStructured(o: Options, text: string)
    ensures var r := Parse(o, text);
      r.Ok? ==> AllStructured(r.document.children, 1) && DeclarationsLead(r.document.children)
  {
    hide TakeLevel, XmlText.SkipWhiteSpace, AllStructured;
    var s := XmlText.SkipWhiteSpace(text);
    NothingRead(1);
    LevelIsStructured(o, if BOM <= s then s[3..] else s, 0, true);
  }
}
