/** Parsing a text with both halves of the parser: the object that reads the buffer, and the linked nodes it makes
    (drivers/Mach3/tinyxml2.cpp:2285-2313, 2380-2394). */
module XmlReading {
  import opened XmlUtil
  import opened XmlTree
  import opened XmlGrammar
  import opened LazyTree
  import opened SiblingLists
  import opened XmlDom
  import opened DomTrees
  import opened ParsedNodes
  import opened XmlDocuments

  /** A node with its strings still in the buffer, and a linked node, are one and the same tree. */
  ghost predicate SameTree(values: seq<string>, lazy: LazyNode, f: Forest, n: XMLNode) {
    exists v :: Denotes(values, lazy, v) && Builds(f, n, v)
  }

  lemma SameTrees(values: seq<string>, lazies: seq<LazyNode>, doc: DocumentTree, vs: seq<Node>)
    requires DenotesAll(values, lazies, vs) && BuildsDocument(doc, vs)
    ensures doc.root in doc.forest.kids && |doc.forest.kids[doc.root]| == |lazies|
    ensures forall i :: 0 <= i < |lazies| ==> SameTree(values, lazies[i], doc.forest, doc.forest.kids[doc.root][i])
  {
    hide Denotes, Builds;
    var cs := doc.forest.kids[doc.root];
    forall i | 0 <= i < |lazies|
      ensures SameTree(values, lazies[i], doc.forest, cs[i])
    {
      assert Denotes(values, lazies[i], vs[i]) && Builds(doc.forest, cs[0 + i], vs[i]);
    }
  }

  /** Both succeed or neither does, and then the children are the same trees in the same order; after an error neither
      has any. */
  method ReadDocument(o: Options, text: string, doc: DocumentTree) returns (parser: XMLDocument)
    requires NoNul(text) && doc.Valid()
    modifies doc, doc.forest.kids.Keys
    ensures fresh(parser) && parser.chars.text == text && doc.Valid() && doc.unlinked == []
    ensures parser.error.None? <==> Parse(o, text).Ok?
    ensures parser.error.None? ==>
      && doc.root in doc.forest.kids && |doc.forest.kids[doc.root]| == |parser.children|
      && forall i :: 0 <= i < |parser.children| ==>
           SameTree(parser.chars.values, parser.children[i], doc.forest, doc.forest.kids[doc.root][i])
    ensures parser.error.Some? ==> parser.children == [] && doc.forest == Alone(doc.root)
  {
    hide Parse, DocumentTree.Valid, Alone, DenotesAll, BuildsDocument, SameTree;
    ParseDocument(doc, o, text);
    parser := new XMLDocument(o, text);
    parser.Parse();
    if parser.error.None? {
      SameTrees(parser.chars.values, parser.children, doc, Parse(o, text).document.children);
    }
  }
}
