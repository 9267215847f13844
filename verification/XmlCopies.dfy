/** What the copy of a document prints (drivers/Mach3/tinyxml2.cpp:2081-2092, 2561-2579). */
module XmlCopies {
  import opened XmlTree
  import opened XmlGrammar
  import opened XmlPrint
  import opened XmlClone

  /** The document DeepCopy leaves: the children are cloned, and the target keeps its own byte order mark flag. */
  function Copied(bom: bool, d: Document): Document {
    Document(bom, ClonedAll(d.children))
  }

  lemma PrintedAttribute(e: bool, a: Attribute)
    ensures PrintAttribute(e, a) != ""
  {
  }

  /** Setting an attribute adds no more than that attribute to what is printed, and less if the name was there. */
  lemma {:induction false} SetPrints(e: bool, attributes: seq<Attribute>, a: Attribute)
    ensures |PrintAttributes(e, SetAttribute(attributes, a))|
         <= |PrintAttributes(e, attributes)| + |PrintAttribute(e, a)|
    ensures HasAttribute(attributes, a.name) ==>
      |PrintAttributes(e, SetAttribute(attributes, a))| < |PrintAttributes(e, attributes)| + |PrintAttribute(e, a)|
  {
    hide PrintAttribute;
    if attributes != [] {
      PrintedAttribute(e, attributes[0]);
      if attributes[0].name != a.name {
        SetPrints(e, attributes[1..], a);
        HasInRest(attributes, a.name);
      }
    }
  }

  lemma HasInRest(attributes: seq<Attribute>, name: string)
    requires attributes != [] && attributes[0].name != name
    ensures HasAttribute(attributes, name) ==> HasAttribute(attributes[1..], name)
  {
    if i :| 0 <= i < |attributes| && attributes[i].name == name {
      assert attributes[1..][i - 1] == attributes[i];
    }
  }

  lemma {:induction false} PrintsAppend(e: bool, attributes: seq<Attribute>, a: Attribute)
    ensures PrintAttributes(e, attributes + [a]) == PrintAttributes(e, attributes) + PrintAttribute(e, a)
  {
    hide PrintAttribute;
    var all := attributes + [a];
    if attributes == [] {
      assert all == [a] && all[1..] == [];
    } else {
      assert all[0] == attributes[0] && all[1..] == attributes[1..] + [a];
      PrintsAppend(e, attributes[1..], a);
    }
  }

  lemma RepeatedAtTheEnd(before: seq<Attribute>, a: Attribute)
    requires NamesDistinct(before) && !NamesDistinct(before + [a])
    ensures HasAttribute(before, a.name)
  {
    NamesOfMore(before, a);
  }

  /** A clone's attributes print shorter when a name is repeated. */
  lemma {:induction false} AttributesShrink(e: bool, from: seq<Attribute>)
    ensures |PrintAttributes(e, SetAll([], from))| <= |PrintAttributes(e, from)|
    ensures !NamesDistinct(from) ==> |PrintAttributes(e, SetAll([], from))| < |PrintAttributes(e, from)|
    decreases |from|
  {
    hide PrintAttributes, NamesDistinct, SetAttribute, HasAttribute;
    if from == [] {
      NoNamesAlike();
    } else {
      var before, a := from[..|from| - 1], from[|from| - 1];
      assert from == before + [a];
      AttributesShrink(e, before);
      SetPrints(e, SetAll([], before), a);
      PrintsAppend(e, before, a);
      if NamesDistinct(before) && !NamesDistinct(from) {
        AttributesClonedExactlyWhen(before);
        RepeatedAtTheEnd(before, a);
      }
    }
  }

  predicate AllRegular(ts: seq<Node>) {
    forall i :: 0 <= i < |ts| ==> Regular(ts[i])
  }

  lemma ElementLength(e: bool, t: Node)
    requires t.Element?
    ensures |PrintNode(e, t)| == 1 + |t.name| + |PrintAttributes(e, t.attributes)|
      + if t.children == [] then 2 else 1 + |PrintNodes(e, t.children)| + 3 + |t.name|
  {
    hide PrintAttributes, PrintNodes;
  }

  /** A clone prints shorter, or it is equal to its original. */
  lemma {:induction false} CloneShrinks(e: bool, t: Node)
    ensures |PrintNode(e, Cloned(t))| <= |PrintNode(e, t)|
    ensures !Regular(t) ==> |PrintNode(e, Cloned(t))| < |PrintNode(e, t)|
    decreases t, 0
  {
    hide PrintNode, PrintAttributes, PrintNodes, NamesDistinct;
    if t.Element? {
      ElementLength(e, t);
      ElementLength(e, Cloned(t));
      AttributesShrink(e, t.attributes);
      ClonesShrink(e, t.children);
    }
  }

  lemma {:induction false} ClonesShrink(e: bool, ts: seq<Node>)
    ensures |PrintNodes(e, ClonedAll(ts))| <= |PrintNodes(e, ts)|
    ensures !AllRegular(ts) ==> |PrintNodes(e, ClonedAll(ts))| < |PrintNodes(e, ts)|
    decreases ts, 1
  {
    hide PrintNode, Cloned, Regular;
    if ts != [] {
      CloneShrinks(e, ts[0]);
      ClonesShrink(e, ts[1..]);
      assert ts == [ts[0]] + ts[1..];
      assert ClonedAll(ts)[1..] == ClonedAll(ts[1..]);
    }
  }

  // ---------- the byte order mark ----------

  /** What the plain texts at the front print; a tag, or nothing, comes after it. */
  function FrontText(e: bool, ts: seq<Node>): string {
    if ts == [] || !IsPlainText(ts[0]) then "" else PrintNode(e, ts[0]) + FrontText(e, ts[1..])
  }

  predicate StartsOrEnds(s: string) {
    s == "" || s[0] == '<'
  }

  lemma MarkPrints(e: bool, t: Node)
    requires !IsPlainText(t)
    ensures PrintNode(e, t) != "" && PrintNode(e, t)[0] == '<'
  {
    hide PrintNodes, PrintAttributes, PrintString;
  }

  lemma {:induction false} AfterFront(e: bool, ts: seq<Node>) returns (rest: string)
    ensures PrintNodes(e, ts) == FrontText(e, ts) + rest && StartsOrEnds(rest)
  {
    hide PrintNode;
    if ts == [] {
      rest := "";
    } else if !IsPlainText(ts[0]) {
      MarkPrints(e, ts[0]);
      rest := PrintNodes(e, ts);
      assert "" + rest == rest;
    } else {
      rest := AfterFront(e, ts[1..]);
      var front := FrontText(e, ts[1..]);
      assert PrintNode(e, ts[0]) + (front + rest) == PrintNode(e, ts[0]) + front + rest;
    }
  }

  /** Clones have the same text at the front. */
  lemma {:induction false} FrontIsCloned(e: bool, ts: seq<Node>)
    ensures FrontText(e, ClonedAll(ts)) == FrontText(e, ts)
  {
    hide PrintNode;
    if ts != [] {
      FrontIsCloned(e, ts[1..]);
      assert ClonedAll(ts)[1..] == ClonedAll(ts[1..]);
    }
  }

  /** If `u` begins with the mark and then with itself, as far as the text at the front goes, that text is made of the
      characters of the mark. */
  lemma {:induction false} OnlyTheMark(front: string, rest: string, rest': string, i: nat)
    requires front + rest == BOM + (front + rest') && i <= |front|
    ensures (front + rest)[..i] == front[..i] && forall j :: 0 <= j < i ==> front[j] in BOM
  {
    var u, w := front + rest, front + rest';
    if i > 0 {
      OnlyTheMark(front, rest, rest', i - 1);
      var k := i - 1;
      assert front[k] == u[k] == (BOM + w)[k];
      if k < 3 {
        assert (BOM + w)[k] == BOM[k];
      } else {
        assert (BOM + w)[k] == w[k - 3] == front[k - 3];
      }
    }
  }

  /** Then what comes after it begins with such a character too. */
  lemma MarkGoesOn(front: string, rest: string, rest': string)
    requires front + rest == BOM + (front + rest')
    ensures rest != "" && rest[0] in BOM
  {
    var u, w, n := front + rest, front + rest', |front|;
    OnlyTheMark(front, rest, rest', n);
    assert |rest| == 3 + |rest'|;
    assert rest[0] == u[n] == (BOM + w)[n];
    if n < 3 {
      assert (BOM + w)[n] == BOM[n];
    } else {
      assert (BOM + w)[n] == w[n - 3] == front[n - 3];
    }
  }

  /** A mark more at the front cannot be made up for by what comes after the text. */
  lemma MarkShows(front: string, rest: string, rest': string)
    requires StartsOrEnds(rest)
    ensures front + rest != BOM + (front + rest')
  {
    if front + rest == BOM + (front + rest') {
      MarkGoesOn(front, rest, rest');
    }
  }

  /** The copy prints as the original exactly when no element repeats an attribute name and the target has the same byte
      order mark flag. */
  lemma CopyPrintsAlikeExactlyWhen(e: bool, bom: bool, d: Document)
    ensures Print(e, Copied(bom, d)) == Print(e, d) <==> bom == d.bom && AllRegular(d.children)
  {
    hide PrintNodes, Cloned, Regular, FrontText, StartsOrEnds;
    ClonesShrink(e, d.children);
    CopyIsEqualExactlyWhen(d.children);
    if bom && !d.bom {
      var rest := AfterFront(e, d.children);
      var rest' := AfterFront(e, ClonedAll(d.children));
      FrontIsCloned(e, d.children);
      MarkShows(FrontText(e, d.children), rest, rest');
      assert "" + PrintNodes(e, d.children) == PrintNodes(e, d.children);
    }
  }

  /** Of whatever was parsed, the copy prints the same exactly when the flags agree. */
  lemma ParsedCopyPrintsAlike(o: Options, text: string, e: bool, bom: bool)
    requires Parse(o, text).Ok?
    ensures var d := Parse(o, text).document;
      Print(e, Copied(bom, d)) == Print(e, d) <==> bom == d.bom
  {
    hide Parse, PrintNodes, Cloned, Regular;
    var d := Parse(o, text).document;
    ParsedIsClonedAsIs(o, text);
    CopyIsEqualExactlyWhen(d.children);
    CopyPrintsAlikeExactlyWhen(e, bom, d);
  }
}
