/** The pointers that make a node's children a list (drivers/Mach3/tinyxml2.cpp:804-935). */
module SiblingLists {
  import opened XmlTree

  /** What a node holds besides its links. */
  datatype Item = DocumentItem | ElementItem(name: string, attributes: seq<Attribute>) | LeafItem(leaf: Node)

  /** A node; `document` names the document that made it. */
  class XMLNode {
    const document: nat
    const item: Item
    var parent: XMLNode?
    var prev: XMLNode?
    var next: XMLNode?
    var firstChild: XMLNode?
    var lastChild: XMLNode?

    constructor (document: nat, item: Item)
      ensures parent == null && prev == null && next == null && firstChild == null && lastChild == null
      ensures this.document == document && this.item == item
    {
      parent, prev, next, firstChild, lastChild := null, null, null, null, null;
      this.document := document;
      this.item := item;
    }
  }

  function At(cs: seq<XMLNode>, i: int): XMLNode? {
    if 0 <= i < |cs| then cs[i] else null
  }

  /** Child `i` of `p` points to its parent and to its neighbours. */
  ghost predicate Placed(p: XMLNode, cs: seq<XMLNode>, i: nat)
    requires i < |cs|
    reads cs[i]
  {
    cs[i].parent == p && cs[i].prev == At(cs, i - 1) && cs[i].next == At(cs, i + 1)
  }

  predicate Distinct(cs: seq<XMLNode>) {
    forall i, j :: 0 <= i < j < |cs| ==> cs[i] != cs[j]
  }

  /** The links of `p` and of its children spell out `cs`. */
  ghost predicate Chain(p: XMLNode, cs: seq<XMLNode>)
    reads p, cs
  {
    && p.firstChild == At(cs, 0) && p.lastChild == At(cs, |cs| - 1) && Distinct(cs)
    && (forall i :: 0 <= i < |cs| ==> Placed(p, cs, i))
  }

  function Without(cs: seq<XMLNode>, k: nat): seq<XMLNode>
    requires k < |cs|
  {
    cs[..k] + cs[k + 1..]
  }

  lemma Differ(cs: seq<XMLNode>, i: nat, j: nat)
    requires Distinct(cs) && i < |cs| && j < |cs| && i != j
    ensures cs[i] != cs[j]
  {
  }

  lemma WithoutIsDistinct(cs: seq<XMLNode>, k: nat)
    requires Distinct(cs) && k < |cs|
    ensures Distinct(Without(cs, k)) && cs[k] !in Without(cs, k)
  {
  }

  function Maybe(n: XMLNode?): set<XMLNode> {
    if n == null then {} else {n}
  }

  /** A change to the children of `self` that moves only `n`: every other list and every other parent is as before. */
  twostate predicate OnlyMoves(self: XMLNode, n: XMLNode, live: set<XMLNode>)
    reads live
  {
    && (forall m :: m in live && m != self ==> m.firstChild == old(m.firstChild) && m.lastChild == old(m.lastChild))
    && (forall m :: m in live && m != n && old(m.parent) != self ==> m.prev == old(m.prev) && m.next == old(m.next))
    && (forall m :: m in live && m != n ==> m.parent == old(m.parent))
  }

  type Kids = map<XMLNode, seq<XMLNode>>

  /** Every list of `kids` is spelt out by the links, and nobody outside them has neighbours. */
  ghost predicate AllChained(kids: Kids)
    reads kids.Keys
  {
    && (forall p :: p in kids ==> forall c :: c in kids[p] ==> c in kids)
    && (forall p :: p in kids ==> Chain(p, kids[p]))
    && (forall p :: p in kids && p.parent == null ==> p.prev == null && p.next == null)
  }

  // ---------- Unlink ----------

  /** XMLNode::Unlink, field by field. */
  method UnlinkFields(self: XMLNode, child: XMLNode)
    requires child.prev != child && child.next != child
    modifies self`firstChild, self`lastChild, child`parent, child`prev, child`next
    modifies Maybe(child.prev)`next, Maybe(child.next)`prev
    ensures self.firstChild == if old(self.firstChild) == child then old(child.next) else old(self.firstChild)
    ensures self.lastChild == if old(self.lastChild) == child then old(child.prev) else old(self.lastChild)
    ensures old(child.prev) != null ==> old(child.prev).next == old(child.next)
    ensures old(child.next) != null ==> old(child.next).prev == old(child.prev)
    ensures child.parent == null && child.prev == null && child.next == null
  {
    if child == self.firstChild {
      self.firstChild := self.firstChild.next;
    }
    if child == self.lastChild {
      self.lastChild := self.lastChild.prev;
    }
    if child.prev != null {
      child.prev.next := child.next;
    }
    if child.next != null {
      child.next.prev := child.prev;
    }
    child.next := null;
    child.prev := null;
    child.parent := null;
  }

  /** XMLNode::Unlink: the list loses child `k`; nodes with another parent, and what is below any node, stay. */
  method Unlink(self: XMLNode, child: XMLNode, ghost cs: seq<XMLNode>, ghost k: nat, ghost live: set<XMLNode>)
    requires Chain(self, cs) && k < |cs| && cs[k] == child
    requires self in live && forall i :: 0 <= i < |cs| ==> cs[i] in live
    modifies live
    ensures Chain(self, Without(cs, k)) && child.parent == null && child.prev == null && child.next == null
    ensures OnlyMoves(self, child, live)
  {
    assert Placed(self, cs, k);
    if k > 0 {
      Differ(cs, k - 1, k);
      assert Placed(self, cs, k - 1);
    }
    if k + 1 < |cs| {
      Differ(cs, k, k + 1);
      assert Placed(self, cs, k + 1);
    }
    hide Distinct;
    UnlinkFields(self, child);
    ghost var ds := Without(cs, k);
    WithoutIsDistinct(cs, k);
    forall i | 0 <= i < |ds|
      ensures Placed(self, ds, i)
    {
      var j := if i < k then i else i + 1;
      assert ds[i] == cs[j];
      assert old(Placed(self, cs, j));
      Differ(cs, j, k);
      if k > 0 && j != k - 1 { Differ(cs, k - 1, j); }
      if k + 1 < |cs| && j != k + 1 { Differ(cs, k + 1, j); }
    }
    assert k != 0 ==> self.firstChild == old(self.firstChild) by { if k != 0 { Differ(cs, 0, k); } }
    assert k + 1 != |cs| ==> self.lastChild == old(self.lastChild) by { if k + 1 != |cs| { Differ(cs, |cs| - 1, k); } }
  }

  // ---------- Insert ----------

  function Inserted(cs: seq<XMLNode>, k: nat, n: XMLNode): seq<XMLNode>
    requires k <= |cs|
  {
    cs[..k] + [n] + cs[k..]
  }

  lemma InsertedIsDistinct(cs: seq<XMLNode>, k: nat, n: XMLNode)
    requires Distinct(cs) && k <= |cs| && n !in cs
    ensures Distinct(Inserted(cs, k, n))
  {
  }

  /** Child `i` of the old list after `n` has been put in at `k`. */
  ghost predicate SplicedAt(self: XMLNode, n: XMLNode, cs: seq<XMLNode>, k: nat, i: nat)
    requires k <= |cs| && i < |cs|
    reads cs[i]
  {
    && cs[i].parent == self
    && cs[i].prev == (if i == k then n else At(cs, i - 1))
    && cs[i].next == (if i == k - 1 then n else At(cs, i + 1))
  }

  /** The fields after an insertion: `n` stands between its neighbours, and the rest of `cs` is as it was. */
  ghost predicate Spliced(self: XMLNode, n: XMLNode, cs: seq<XMLNode>, k: nat)
    requires k <= |cs|
    reads self, n, cs
  {
    && n.parent == self && n.prev == At(cs, k - 1) && n.next == At(cs, k)
    && self.firstChild == (if k == 0 then n else At(cs, 0))
    && self.lastChild == (if k == |cs| then n else At(cs, |cs| - 1))
    && (forall i :: 0 <= i < |cs| ==> SplicedAt(self, n, cs, k, i))
  }

  lemma SplicedChain(self: XMLNode, n: XMLNode, cs: seq<XMLNode>, k: nat)
    requires k <= |cs| && n !in cs && Distinct(cs) && Spliced(self, n, cs, k)
    ensures Chain(self, Inserted(cs, k, n))
  {
    var ds := Inserted(cs, k, n);
    InsertedIsDistinct(cs, k, n);
    hide Distinct;
    forall i | 0 <= i < |ds|
      ensures Placed(self, ds, i)
    {
      if i != k {
        var j := if i < k then i else i - 1;
        assert ds[i] == cs[j];
        assert SplicedAt(self, n, cs, k, j);
      }
    }
  }

  /** The last lines of InsertEndChild. */
  method LinkEnd(self: XMLNode, addThis: XMLNode, ghost cs: seq<XMLNode>, ghost live: set<XMLNode>)
    requires Chain(self, cs) && self in live && addThis in live && forall i :: 0 <= i < |cs| ==> cs[i] in live
    requires addThis !in cs && addThis.parent == null
    modifies live
    ensures Chain(self, Inserted(cs, |cs|, addThis)) && addThis.parent == self && OnlyMoves(self, addThis, live)
  {
    ghost var k := |cs|;
    assert cs != [] ==> Placed(self, cs, k - 1);
    if self.lastChild != null {
      self.lastChild.next := addThis;
      addThis.prev := self.lastChild;
      self.lastChild := addThis;
      addThis.next := null;
    } else {
      self.lastChild := addThis;
      self.firstChild := addThis;
      addThis.prev := null;
      addThis.next := null;
    }
    addThis.parent := self;
    hide Distinct, Inserted;
    forall i | 0 <= i < |cs|
      ensures SplicedAt(self, addThis, cs, k, i)
    {
      assert old(Placed(self, cs, i)) && cs[i] != addThis;
      if i != k - 1 { Differ(cs, i, k - 1); }
    }
    SplicedChain(self, addThis, cs, k);
  }

  /** The last lines of InsertFirstChild. */
  method LinkFirst(self: XMLNode, addThis: XMLNode, ghost cs: seq<XMLNode>, ghost live: set<XMLNode>)
    requires Chain(self, cs) && self in live && addThis in live && forall i :: 0 <= i < |cs| ==> cs[i] in live
    requires addThis !in cs && addThis.parent == null
    modifies live
    ensures Chain(self, Inserted(cs, 0, addThis)) && addThis.parent == self && OnlyMoves(self, addThis, live)
  {
    assert cs != [] ==> Placed(self, cs, 0);
    if self.firstChild != null {
      self.firstChild.prev := addThis;
      addThis.next := self.firstChild;
      self.firstChild := addThis;
      addThis.prev := null;
    } else {
      self.lastChild := addThis;
      self.firstChild := addThis;
      addThis.prev := null;
      addThis.next := null;
    }
    addThis.parent := self;
    hide Distinct, Inserted;
    forall i | 0 <= i < |cs|
      ensures SplicedAt(self, addThis, cs, 0, i)
    {
      assert old(Placed(self, cs, i)) && cs[i] != addThis;
      if i != 0 { Differ(cs, i, 0); }
    }
    SplicedChain(self, addThis, cs, 0);
  }

  /** The last lines of InsertAfterChild; `afterThis` has a successor. */
  method LinkAfter(self: XMLNode, afterThis: XMLNode, addThis: XMLNode, ghost cs: seq<XMLNode>, ghost k: nat,
          ghost live: set<XMLNode>)
    requires Chain(self, cs) && self in live && addThis in live && forall i :: 0 <= i < |cs| ==> cs[i] in live
    requires addThis !in cs && addThis.parent == null && k + 1 < |cs| && cs[k] == afterThis
    modifies live
    ensures Chain(self, Inserted(cs, k + 1, addThis)) && addThis.parent == self && OnlyMoves(self, addThis, live)
  {
    assert Placed(self, cs, k) && Placed(self, cs, k + 1);
    Differ(cs, k, k + 1);
    addThis.prev := afterThis;
    addThis.next := afterThis.next;
    afterThis.next.prev := addThis;
    afterThis.next := addThis;
    addThis.parent := self;
    ghost var at := k + 1;
    hide Distinct, Inserted;
    forall i | 0 <= i < |cs|
      ensures SplicedAt(self, addThis, cs, at, i)
    {
      assert old(Placed(self, cs, i)) && cs[i] != addThis;
      if i != k { Differ(cs, i, k); }
      if i != at { Differ(cs, i, at); }
    }
    SplicedChain(self, addThis, cs, at);
  }

  // ---------- among all lists ----------

  /** The links spell all the lists once the list of `self` has become `cs`. */
  lemma ChainedAfter(kids: Kids, self: XMLNode, cs: seq<XMLNode>)
    requires self in kids && Chain(self, cs) && (forall c :: c in cs ==> c in kids)
    requires forall p :: p in kids && p != self ==> Chain(p, kids[p]) && forall c :: c in kids[p] ==> c in kids
    requires forall p :: p in kids && p.parent == null ==> p.prev == null && p.next == null
    ensures AllChained(kids[self := cs])
  {
    hide Chain;
  }

  /** XMLNode::Unlink among all the lists of a document. */
  method UnlinkAmong(self: XMLNode, child: XMLNode, ghost kids: Kids, ghost k: nat)
    requires AllChained(kids) && self in kids && k < |kids[self]| && kids[self][k] == child
    requires forall p :: p in kids && p != self ==> child !in kids[p]
    modifies kids.Keys
    ensures AllChained(kids[self := Without(kids[self], k)]) && child.parent == null
    ensures forall n :: n in kids && n != child ==> n.parent == old(n.parent)
  {
    hide Distinct, Without;
    ghost var cs := kids[self];
    assert child in cs;
    WithoutMembers(cs, k);
    Unlink(self, child, cs, k, kids.Keys);
    assert forall p :: p in kids && p != child && old(p.parent) == self ==> p.parent != null;
    forall p | p in kids && p != self
      ensures Chain(p, kids[p])
    {
      assert old(Chain(p, kids[p]));
      forall i | 0 <= i < |kids[p]|
        ensures Placed(p, kids[p], i)
      {
        assert old(Placed(p, kids[p], i)) && kids[p][i] in kids[p];
      }
    }
    ChainedAfter(kids, self, Without(cs, k));
  }

  /** Where an insertion puts a node: last, first, or after a child that has a successor. */
  datatype Place = AtEnd | AtStart | After(afterThis: XMLNode)

  predicate PlaceOk(place: Place, cs: seq<XMLNode>, k: nat) {
    match place
    case AtEnd => k == |cs|
    case AtStart => k == 0
    case After(afterThis) => 0 < k < |cs| && cs[k - 1] == afterThis
  }

  method Link(self: XMLNode, addThis: XMLNode, place: Place, ghost cs: seq<XMLNode>, ghost k: nat,
          ghost live: set<XMLNode>)
    requires Chain(self, cs) && self in live && addThis in live && forall i :: 0 <= i < |cs| ==> cs[i] in live
    requires addThis !in cs && addThis.parent == null && PlaceOk(place, cs, k)
    modifies live
    ensures k <= |cs| && Chain(self, Inserted(cs, k, addThis)) && addThis.parent == self
    ensures OnlyMoves(self, addThis, live)
  {
    match place
    case AtEnd => LinkEnd(self, addThis, cs, live);
    case AtStart => LinkFirst(self, addThis, cs, live);
    case After(afterThis) => LinkAfter(self, afterThis, addThis, cs, k - 1, live);
  }

  lemma WithoutMembers(cs: seq<XMLNode>, k: nat)
    requires k < |cs|
    ensures forall c :: c in Without(cs, k) ==> c in cs
  {
  }

  lemma InsertedMembers(cs: seq<XMLNode>, k: nat, n: XMLNode)
    requires k <= |cs|
    ensures forall c :: c in Inserted(cs, k, n) ==> c == n || c in cs
  {
  }

  /** The end of an insertion among all the lists of a document. */
  method LinkAmong(self: XMLNode, addThis: XMLNode, place: Place, ghost kids: Kids, ghost k: nat)
    requires AllChained(kids) && self in kids && addThis in kids && addThis.parent == null
    requires PlaceOk(place, kids[self], k) && forall p :: p in kids ==> addThis !in kids[p]
    modifies kids.Keys
    ensures k <= |kids[self]| && AllChained(kids[self := Inserted(kids[self], k, addThis)])
    ensures addThis.parent == self && forall n :: n in kids && n != addThis ==> n.parent == old(n.parent)
  {
    hide Distinct, PlaceOk, Inserted;
    ghost var cs := kids[self];
    Link(self, addThis, place, cs, k, kids.Keys);
    InsertedMembers(cs, k, addThis);
    forall p | p in kids && p != self
      ensures Chain(p, kids[p])
    {
      assert old(Chain(p, kids[p]));
      forall i | 0 <= i < |kids[p]|
        ensures Placed(p, kids[p], i)
      {
        assert old(Placed(p, kids[p], i)) && kids[p][i] in kids[p];
      }
    }
    ChainedAfter(kids, self, Inserted(cs, k, addThis));
  }
}
