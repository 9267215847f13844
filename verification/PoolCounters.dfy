/** The counters of a document's four pools (drivers/Mach3/tinyxml2.h:343-455, 1920-1931;
    drivers/Mach3/tinyxml2.cpp:1884-1892, 2067-2077). */
module PoolCounters {
  import opened SiblingLists
  import opened XmlTree

  datatype Pool = ElementPool | TextPool | CommentPool | AttributePool

  /** One pool's counters: items handed out and not taken back, and items never marked as tracked. */
  datatype Counters = Counters(current: int, untracked: int)

  const NO_ITEMS := Counters(0, 0)

  /** What Alloc, Free and SetTracked do to a pool's counters. */
  function Alloced(c: Counters): Counters {
    Counters(c.current + 1, c.untracked + 1)
  }

  function TakenBack(c: Counters): Counters {
    c.(current := c.current - 1)
  }

  function Tracked(c: Counters): Counters {
    c.(untracked := c.untracked - 1)
  }

  /** One number for each pool. */
  datatype PerPool = PerPool(element: int, text: int, comment: int, attribute: int)

  const ZERO := PerPool(0, 0, 0, 0)

  function Of(c: PerPool, p: Pool): int {
    match p
    case ElementPool => c.element
    case TextPool => c.text
    case CommentPool => c.comment
    case AttributePool => c.attribute
  }

  function Add(c: PerPool, p: Pool, k: int): (r: PerPool)
    ensures forall q :: Of(r, q) == Of(c, q) + if q == p then k else 0
  {
    match p
    case ElementPool => c.(element := c.element + k)
    case TextPool => c.(text := c.text + k)
    case CommentPool => c.(comment := c.comment + k)
    case AttributePool => c.(attribute := c.attribute + k)
  }

  // ---------- what nodes take from the pools ----------

  /** The pool a leaf comes from: comments, declarations and unknown nodes share one. */
  function LeafPool(t: Node): Pool {
    match t
    case Element(_, _, _) => ElementPool
    case Text(_, _) => TextPool
    case _ => CommentPool
  }

  /** The pool a node comes from; the document itself comes from none. */
  function PoolOf(item: Item): Pool
    requires !item.DocumentItem?
  {
    if item.ElementItem? then ElementPool else LeafPool(item.leaf)
  }

  predicate ComesFrom(item: Item, p: Pool) {
    !item.DocumentItem? && PoolOf(item) == p
  }

  /** How many items of a pool a node and its attributes occupy. */
  function Uses(item: Item, p: Pool): nat {
    if p.AttributePool? then if item.ElementItem? then |item.attributes| else 0
    else if ComesFrom(item, p) then 1 else 0
  }

  /** The items of a pool that some nodes occupy. */
  ghost function Slots(nodes: set<XMLNode>, p: Pool): set<(XMLNode, nat)> {
    set n, i: nat | n in nodes && 0 <= i < Uses(n.item, p) :: (n, i)
  }

  /** The nodes of a list that come from a pool. */
  ghost function Waiting(s: seq<XMLNode>, p: Pool): set<XMLNode> {
    set n | n in s && ComesFrom(n.item, p)
  }

  /** Each pool has given out exactly what the nodes occupy. */
  ghost predicate CurrentFits(current: PerPool, nodes: set<XMLNode>) {
    forall p: Pool :: Of(current, p) == |Slots(nodes, p)|
  }

  /** Each pool's untracked items are the nodes that are not linked, and those that were discarded untracked. */
  ghost predicate UntrackedFits(untracked: PerPool, leaked: multiset<Pool>, unlinked: seq<XMLNode>) {
    forall p: Pool :: Of(untracked, p) == |Waiting(unlinked, p)| + leaked[p]
  }

  ghost function OwnSlots(n: XMLNode, k: nat): set<(XMLNode, nat)> {
    set i: nat | 0 <= i < k :: (n, i)
  }

  lemma {:induction false} OwnSlotsCount(n: XMLNode, k: nat)
    ensures |OwnSlots(n, k)| == k
  {
    if k > 0 {
      OwnSlotsCount(n, k - 1);
      assert OwnSlots(n, k) == OwnSlots(n, k - 1) + {(n, k - 1)};
    }
  }

  lemma OneMoreUses(nodes: set<XMLNode>, n: XMLNode, p: Pool)
    requires n !in nodes
    ensures |Slots(nodes + {n}, p)| == |Slots(nodes, p)| + Uses(n.item, p)
  {
    hide Uses;
    OwnSlotsCount(n, Uses(n.item, p));
    assert Slots(nodes + {n}, p) == Slots(nodes, p) + OwnSlots(n, Uses(n.item, p));
    assert Slots(nodes, p) !! OwnSlots(n, Uses(n.item, p));
  }

  /** The counters when a node is made: its own item, and its attributes. */
  function WithNode(current: PerPool, item: Item, k: int): PerPool
    requires !item.DocumentItem?
  {
    Add(Add(current, AttributePool, k * Uses(item, AttributePool)), PoolOf(item), k)
  }

  lemma WithOneNode(current: PerPool, item: Item)
    requires !item.DocumentItem?
    ensures WithNode(current, item, 1) == Add(Add(current, AttributePool, Uses(item, AttributePool)), PoolOf(item), 1)
  {
    hide Uses, Add, PoolOf;
  }

  /** What each kind of node takes: an element one of its pool and its attributes, a text one of the texts', and
      comments, declarations and unknown nodes one of the comments'. */
  lemma TakesFrom(current: PerPool, item: Item)
    requires !item.DocumentItem?
    ensures item.ElementItem? ==>
      WithNode(current, item, 1)
        == current.(element := current.element + 1, attribute := current.attribute + |item.attributes|)
    ensures item.LeafItem? && item.leaf.Text? ==> WithNode(current, item, 1) == current.(text := current.text + 1)
    ensures item.LeafItem? && (item.leaf.Comment? || item.leaf.Declaration? || item.leaf.Unknown?) ==>
      WithNode(current, item, 1) == current.(comment := current.comment + 1)
  {
  }

  lemma WithNodeOf(current: PerPool, item: Item, k: int, p: Pool)
    requires !item.DocumentItem? && (k == 1 || k == -1)
    ensures Of(WithNode(current, item, k), p) == Of(current, p) + k * Uses(item, p)
  {
    assert !PoolOf(item).AttributePool?;
  }

  lemma MadeCounts(current: PerPool, nodes: set<XMLNode>, n: XMLNode)
    requires CurrentFits(current, nodes) && n !in nodes && !n.item.DocumentItem?
    ensures CurrentFits(WithNode(current, n.item, 1), nodes + {n})
  {
    hide Slots, WithNode, Uses;
    forall p: Pool
      ensures Of(WithNode(current, n.item, 1), p) == |Slots(nodes + {n}, p)|
    {
      OneMoreUses(nodes, n, p);
      WithNodeOf(current, n.item, 1, p);
    }
  }

  lemma FreedCounts(current: PerPool, nodes: set<XMLNode>, n: XMLNode)
    requires CurrentFits(current, nodes) && n in nodes && !n.item.DocumentItem?
    ensures CurrentFits(WithNode(current, n.item, -1), nodes - {n})
  {
    hide Slots, WithNode, Uses;
    assert nodes - {n} + {n} == nodes;
    forall p: Pool
      ensures Of(WithNode(current, n.item, -1), p) == |Slots(nodes - {n}, p)|
    {
      OneMoreUses(nodes - {n}, n, p);
      WithNodeOf(current, n.item, -1, p);
    }
  }

  lemma NothingUsed(root: XMLNode, p: Pool)
    requires root.item.DocumentItem?
    ensures Slots({root}, p) == {} && Waiting([], p) == {}
  {
  }

  // ---------- the list of unlinked nodes ----------

  lemma ListedFits(untracked: PerPool, leaked: multiset<Pool>, s: seq<XMLNode>, n: XMLNode)
    requires UntrackedFits(untracked, leaked, s) && n !in s && !n.item.DocumentItem?
    ensures UntrackedFits(Add(untracked, PoolOf(n.item), 1), leaked, s + [n])
  {
    forall p: Pool
      ensures |Waiting(s + [n], p)| == |Waiting(s, p)| + if p == PoolOf(n.item) then 1 else 0
    {
      hide PoolOf;
      assert Waiting(s + [n], p) == Waiting(s, p) + if ComesFrom(n.item, p) then {n} else {};
    }
  }

  /** `n` is taken off the list. */
  lemma TakenOff(s: seq<XMLNode>, t: seq<XMLNode>, n: XMLNode, p: Pool)
    requires n in s && n !in t && (forall m :: m in t ==> m in s) && (forall m :: m in s && m != n ==> m in t)
    requires !n.item.DocumentItem?
    ensures |Waiting(t, p)| == |Waiting(s, p)| - if p == PoolOf(n.item) then 1 else 0
  {
    hide PoolOf;
    assert Waiting(s, p) == Waiting(t, p) + if ComesFrom(n.item, p) then {n} else {};
  }

  /** It is marked as tracked, or it leaks. */
  lemma TakenOffFits(untracked: PerPool, leaked: multiset<Pool>, s: seq<XMLNode>, t: seq<XMLNode>, n: XMLNode)
    requires UntrackedFits(untracked, leaked, s) && !n.item.DocumentItem?
    requires n in s && n !in t && (forall m :: m in t ==> m in s) && (forall m :: m in s && m != n ==> m in t)
    ensures UntrackedFits(Add(untracked, PoolOf(n.item), -1), leaked, t)
    ensures UntrackedFits(untracked, leaked + multiset{PoolOf(n.item)}, t)
  {
    hide PoolOf, Waiting, Add;
    forall p: Pool
      ensures |Waiting(t, p)| == |Waiting(s, p)| - if p == PoolOf(n.item) then 1 else 0
    {
      TakenOff(s, t, n, p);
    }
  }

  lemma SameListed(untracked: PerPool, leaked: multiset<Pool>, s: seq<XMLNode>, t: seq<XMLNode>)
    requires UntrackedFits(untracked, leaked, s) && forall n :: n in s <==> n in t
    ensures UntrackedFits(untracked, leaked, t)
  {
    forall p: Pool
      ensures Waiting(s, p) == Waiting(t, p)
    {
    }
  }
}
