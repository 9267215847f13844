/** The pool nodes and attributes come from (drivers/Mach3/tinyxml2.h:343-455). Items are numbered in the order their
    blocks were made; a free item's `next` is the item after it in the free list. */
module MemPools {
  import opened XmlUtil
  import opened PoolCounters

  /** A list of items, from its first on, as the `next` links spell it. */
  ghost predicate Spelt(root: Option<nat>, next: seq<Option<nat>>, free: seq<nat>)
    decreases free
  {
    if free == [] then root.None?
    else root == Some(free[0]) && free[0] < |next| && Spelt(next[free[0]], next, free[1..])
  }

  predicate Distinct(free: seq<nat>) {
    forall i, j :: 0 <= i < j < |free| ==> free[i] != free[j]
  }

  /** Every item below `n` is free or live, and not both; the free list is what the links spell. */
  ghost predicate Divided(root: Option<nat>, next: seq<Option<nat>>, free: seq<nat>, live: set<nat>) {
    && Spelt(root, next, free) && Distinct(free)
    && (forall i :: i in free ==> i < |next| && i !in live)
    && (forall i :: i in live ==> i < |next|)
    && |live| + |free| == |next|
  }

  class MemPool {
    const itemsPerBlock: nat
    var blocks: nat
    var next: seq<Option<nat>>
    var root: Option<nat>
    var currentAllocs: int
    var nAllocs: int
    var maxAllocs: int
    var untracked: int
    ghost var free: seq<nat>
    ghost var live: set<nat>
    ghost var trackings: nat

    /** The counters: live items, and the allocations no SetTracked has answered yet. */
    ghost predicate Counted()
      reads this
    {
      && currentAllocs == |live| && currentAllocs <= maxAllocs <= |next| && nAllocs >= currentAllocs
      && untracked == nAllocs - trackings
    }

    ghost predicate Valid()
      reads this
    {
      itemsPerBlock > 0 && |next| == blocks * itemsPerBlock && Divided(root, next, free, live) && Counted()
    }

    /** The two counters a document compares. */
    function TheCounters(): Counters
      reads this
    {
      Counters(currentAllocs, untracked)
    }

    constructor (itemsPerBlock: nat)
      requires itemsPerBlock > 0
      ensures Valid() && live == {} && blocks == 0 && TheCounters() == NO_ITEMS && trackings == 0
    {
      this.itemsPerBlock := itemsPerBlock;
      blocks, next, root := 0, [], None;
      currentAllocs, nAllocs, maxAllocs, untracked := 0, 0, 0, 0;
      free, live, trackings := [], {}, 0;
    }

    /** A new block when nothing is free, and then the first free item. */
    method Alloc() returns (item: nat)
      requires Valid()
      modifies this
      ensures Valid() && item !in old(live) && live == old(live) + {item}
      ensures old(free) != [] ==> item == old(free)[0] && free == old(free)[1..] && blocks == old(blocks)
      ensures old(free) == [] ==> item == old(|next|) && blocks == old(blocks) + 1
      ensures TheCounters() == Alloced(old(TheCounters())) && nAllocs == old(nAllocs) + 1
      ensures maxAllocs == if old(maxAllocs) < currentAllocs then currentAllocs else old(maxAllocs)
      ensures trackings == old(trackings)
    {
      hide Distinct, Spelt, Divided;
      RootIsFirst(root, next, free, live);
      if root.None? {
        NewBlock();
        RootIsFirst(root, next, free, live);
      }
      item := root.value;
      FirstTaken(root, next, free, live);
      root := next[item];
      free, live := free[1..], live + {item};
      currentAllocs := currentAllocs + 1;
      if currentAllocs > maxAllocs {
        maxAllocs := currentAllocs;
      }
      nAllocs := nAllocs + 1;
      untracked := untracked + 1;
    }

    method NewBlock()
      requires Valid() && root.None?
      modifies this`blocks, this`next, this`root, this`free
      ensures Valid() && old(free) == [] && |free| == itemsPerBlock && free[0] == old(|next|)
      ensures blocks == old(blocks) + 1
    {
      hide Distinct, Spelt, Run, Divided;
      RootIsFirst(root, next, free, live);
      var first := |next|;
      ghost var was := next;
      blocks := blocks + 1;
      var links: seq<Option<nat>> := [];
      for i := 0 to itemsPerBlock - 1
        invariant |links| == i && forall j :: 0 <= j < i ==> links[j] == Some(first + j + 1)
      {
        links := links + [Some(first + i + 1)];
      }
      next := next + links + [None];
      root := Some(first);
      free := Run(first, itemsPerBlock);
      BlockDivides(was, next, live, itemsPerBlock);
    }

    method Free(item: nat)
      requires Valid() && item in live
      modifies this
      ensures Valid() && live == old(live) - {item} && free == [item] + old(free) && blocks == old(blocks)
      ensures TheCounters() == TakenBack(old(TheCounters())) && nAllocs == old(nAllocs)
      ensures maxAllocs == old(maxAllocs) && trackings == old(trackings)
    {
      hide Distinct, Spelt, Divided;
      currentAllocs := currentAllocs - 1;
      ItemFreed(root, next, free, live, item);
      next := next[item := root];
      root := Some(item);
      free, live := [item] + free, live - {item};
    }

    method SetTracked()
      requires Valid()
      modifies this`untracked, this`trackings
      ensures Valid() && TheCounters() == Tracked(old(TheCounters())) && trackings == old(trackings) + 1
    {
      untracked, trackings := untracked - 1, trackings + 1;
    }

    method Clear()
      requires Valid()
      modifies this
      ensures Valid() && live == {} && free == [] && blocks == 0 && nAllocs == 0
      ensures TheCounters() == NO_ITEMS && trackings == 0
    {
      blocks, next, root := 0, [], None;
      currentAllocs, nAllocs, maxAllocs, untracked := 0, 0, 0, 0;
      free, live, trackings := [], {}, 0;
    }
  }

  lemma RootIsFirst(root: Option<nat>, next: seq<Option<nat>>, free: seq<nat>, live: set<nat>)
    requires Divided(root, next, free, live)
    ensures root.None? <==> free == []
    ensures root.None? ==> |live| == |next|
    ensures forall i :: i in live ==> i < |next|
    ensures root.Some? ==> root.value == free[0] < |next| && root.value !in live
  {
    assert free != [] ==> free[0] in free;
  }

  /** The first free item becomes live. */
  lemma FirstTaken(root: Option<nat>, next: seq<Option<nat>>, free: seq<nat>, live: set<nat>)
    requires Divided(root, next, free, live) && free != []
    ensures free[0] < |next| && Divided(next[free[0]], next, free[1..], live + {free[0]})
    ensures |live + {free[0]}| == |live| + 1 <= |next|
  {
    hide Distinct;
    FirstIsFree(free);
    assert forall i :: i in free[1..] ==> i in free;
  }

  /** An item given back becomes the first free one. */
  lemma ItemFreed(root: Option<nat>, next: seq<Option<nat>>, free: seq<nat>, live: set<nat>, item: nat)
    requires Divided(root, next, free, live) && item in live
    ensures item < |next| && Divided(Some(item), next[item := root], [item] + free, live - {item})
    ensures |live - {item}| == |live| - 1
  {
    SpeltElsewhere(root, next, free, item, root);
    assert ([item] + free)[1..] == free;
  }

  /** The items of a new block are free. */
  lemma BlockDivides(was: seq<Option<nat>>, next: seq<Option<nat>>, live: set<nat>, n: nat)
    requires n > 0 && |next| == |was| + n && next[|next| - 1].None? && |live| == |was|
    requires forall j :: |was| <= j < |next| - 1 ==> next[j] == Some(j + 1)
    requires forall i :: i in live ==> i < |was|
    ensures Divided(Some(|was|), next, Run(|was|, n), live)
  {
    RunIsSpelt(next, |was|, n);
  }

  lemma FirstIsFree(free: seq<nat>)
    requires Distinct(free) && free != []
    ensures free[0] in free && free[0] !in free[1..] && Distinct(free[1..])
  {
  }

  /** The numbers from `first` on. */
  function Run(first: nat, n: nat): (r: seq<nat>)
    ensures |r| == n && forall i :: 0 <= i < n ==> r[i] == first + i
  {
    seq(n, i => first + i)
  }

  lemma {:induction false} RunIsSpelt(next: seq<Option<nat>>, first: nat, n: nat)
    requires n > 0 && first + n == |next| && next[|next| - 1].None?
    requires forall j :: first <= j < |next| - 1 ==> next[j] == Some(j + 1)
    ensures Spelt(Some(first), next, Run(first, n))
    decreases n
  {
    var free := Run(first, n);
    if n > 1 {
      RunIsSpelt(next, first + 1, n - 1);
      assert free[1..] == Run(first + 1, n - 1);
    } else {
      assert free[1..] == [];
    }
  }

  /** A link outside a list does not matter to it. */
  lemma {:induction false} SpeltElsewhere(root: Option<nat>, next: seq<Option<nat>>, free: seq<nat>, item: nat,
          link: Option<nat>)
    requires Spelt(root, next, free) && item < |next| && item !in free
    ensures Spelt(root, next[item := link], free)
    decreases free
  {
    if free != [] {
      SpeltElsewhere(next[free[0]], next, free[1..], item, link);
    }
  }
}
