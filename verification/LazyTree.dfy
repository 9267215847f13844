/** The tree a parse builds: names and values are indices into the table of lazy strings, and every node and attribute
    carries its line. */
module LazyTree {
  import opened XmlUtil
  import opened XmlTree
  import opened XmlGrammar
  import opened InPlaceDecoder

  datatype LazyAttribute = LazyAttribute(line: nat, name: nat, value: nat)

  datatype LazyNode =
    | LazyElement(line: nat, name: nat, attributes: seq<LazyAttribute>, children: seq<LazyNode>)
    | LazyLeaf(line: nat, kind: Kind, value: nat)

  /** Index `i` of the table stands for the string `s`. */
  predicate Names(values: seq<string>, i: nat, s: string) {
    i < |values| && values[i] == s
  }

  predicate DenotesAttribute(values: seq<string>, a: LazyAttribute, v: Attribute) {
    Names(values, a.name, v.name) && Names(values, a.value, v.value)
  }

  predicate DenotesAttributes(values: seq<string>, a: seq<LazyAttribute>, v: seq<Attribute>) {
    |a| == |v| && forall i :: 0 <= i < |a| ==> DenotesAttribute(values, a[i], v[i])
  }

  /** The lazy node, read through the table, is the node `v`. */
  predicate Denotes(values: seq<string>, n: LazyNode, v: Node)
    decreases n, 0
  {
    match n
    case LazyLeaf(_, kind, value) => kind != KElement && !v.Element? && Names(values, value, v.value)
      && v == Leaf(kind, v.value)
    case LazyElement(_, name, attributes, children) =>
      && v.Element? && Names(values, name, v.name) && DenotesAttributes(values, attributes, v.attributes)
      && DenotesAll(values, children, v.children)
  }

  predicate DenotesAll(values: seq<string>, ns: seq<LazyNode>, vs: seq<Node>)
    decreases ns, 1
  {
    |ns| == |vs| && forall i :: 0 <= i < |ns| ==> Denotes(values, ns[i], vs[i])
  }

  /** A table that grew still says the same of what was in it. */
  lemma {:induction false} DenotesGrows(values: seq<string>, more: seq<string>, n: LazyNode, v: Node)
    requires Denotes(values, n, v) && values <= more
    ensures Denotes(more, n, v)
    decreases n, 0
  {
    if n.LazyElement? {
      AttributesGrow(values, more, n.attributes, v.attributes);
      DenotesAllGrows(values, more, n.children, v.children);
    }
  }

  lemma {:induction false} DenotesAllGrows(values: seq<string>, more: seq<string>, ns: seq<LazyNode>, vs: seq<Node>)
    requires DenotesAll(values, ns, vs) && values <= more
    ensures DenotesAll(more, ns, vs)
    decreases ns, 1
  {
    forall i | 0 <= i < |ns|
      ensures Denotes(more, ns[i], vs[i])
    {
      DenotesGrows(values, more, ns[i], vs[i]);
    }
  }

  lemma AttributesGrow(values: seq<string>, more: seq<string>, a: seq<LazyAttribute>, v: seq<Attribute>)
    requires DenotesAttributes(values, a, v) && values <= more
    ensures DenotesAttributes(more, a, v)
  {
    forall i | 0 <= i < |a|
      ensures DenotesAttribute(more, a[i], v[i])
    {
      assert DenotesAttribute(values, a[i], v[i]);
    }
  }

  // ---------- lines ----------

  /** The line of offset `p`: one more than the line feeds before it. */
  function LineAt(text: string, p: nat): nat
    requires p <= |text|
  {
    1 + LineFeeds(text[..p])
  }

  lemma {:induction false} LineFeedsSplit(a: string, b: string)
    ensures LineFeeds(a + b) == LineFeeds(a) + LineFeeds(b)
  {
    if b == [] {
      assert a + b == a;
    } else {
      LineFeedsSplit(a, b[..|b| - 1]);
      assert a + b == (a + b[..|b| - 1]) + [b[|b| - 1]];
      LineFeedsAppend(a + b[..|b| - 1], b[|b| - 1]);
    }
  }

  lemma LineMoves(text: string, p: nat, q: nat)
    requires p <= q <= |text|
    ensures LineAt(text, q) == LineAt(text, p) + LineFeeds(text[p..q])
  {
    assert text[..q] == text[..p] + text[p..q];
    LineFeedsSplit(text[..p], text[p..q]);
  }

  lemma {:induction false} NoLineFeeds(s: string)
    requires forall i :: 0 <= i < |s| ==> s[i] != LF
    ensures LineFeeds(s) == 0
  {
    if s != [] {
      NoLineFeeds(s[..|s| - 1]);
    }
  }
}
