/** A document's nodes: the forest their links form, the list of unlinked nodes and the pool counters
    (drivers/Mach3/tinyxml2.cpp:742-935, 1102-1129, 2034-2065, 2149-2164; drivers/Mach3/tinyxml2.h:1920-1931). */
module XmlDom {
  import opened DynArrays
  import opened PoolCounters
  import opened SiblingLists

  // ---------- ancestors ----------

  type Ups = map<XMLNode, set<XMLNode>>
  type Parents = map<XMLNode, XMLNode?>

  /** `up` gives each node its ancestors, and none is its own. */
  predicate UpFits(up: Ups, parents: Parents) {
    && parents.Keys == up.Keys
    && (forall n :: n in up ==> n !in up[n])
    && (forall n :: n in up && parents[n] == null ==> up[n] == {})
    && (forall n :: n in up && parents[n] != null ==> parents[n] in up && up[n] == up[parents[n]] + {parents[n]})
  }

  predicate Within(up: Ups, a: XMLNode, n: XMLNode)
    requires n in up
  {
    n == a || a in up[n]
  }

  lemma {:induction false} UpIsTransitive(up: Ups, parents: Parents, n: XMLNode, m: XMLNode)
    requires UpFits(up, parents) && n in up && m in up[n]
    ensures m in up && up[m] <= up[n]
    decreases up[n]
  {
    var p := parents[n];
    if m != p {
      UpIsTransitive(up, parents, p, m);
    }
  }

  /** Ancestors after `a` has lost its parent. */
  function Detached(up: Ups, a: XMLNode): Ups
    requires a in up
  {
    map n | n in up :: if Within(up, a, n) then up[n] - up[a] else up[n]
  }

  lemma DetachedFits(up: Ups, parents: Parents, a: XMLNode)
    requires UpFits(up, parents) && a in up
    ensures UpFits(Detached(up, a), parents[a := null])
  {
    var after := Detached(up, a);
    forall n | n in up && n != a && parents[n] != null
      ensures after[n] == after[parents[n]] + {parents[n]}
    {
      DetachedStep(up, parents, a, n);
    }
  }

  lemma DetachedStep(up: Ups, parents: Parents, a: XMLNode, n: XMLNode)
    requires UpFits(up, parents) && a in up && n in up && n != a && parents[n] != null
    ensures Detached(up, a)[n] == Detached(up, a)[parents[n]] + {parents[n]}
  {
    var p := parents[n];
    if Within(up, a, n) && p in up[a] {
      UpIsTransitive(up, parents, a, p);
    }
    assert Within(up, a, n) <==> Within(up, a, p);
  }

  /** Ancestors after the parentless `a` has been given the parent `t`. */
  function Attached(up: Ups, a: XMLNode, t: XMLNode): Ups
    requires t in up
  {
    map n | n in up :: if Within(up, a, n) then up[n] + up[t] + {t} else up[n]
  }

  lemma AttachedFits(up: Ups, parents: Parents, a: XMLNode, t: XMLNode)
    requires UpFits(up, parents) && a in up && t in up && parents[a] == null && !Within(up, a, t)
    ensures UpFits(Attached(up, a, t), parents[a := t])
  {
    var after := Attached(up, a, t);
    forall n | n in up && Within(up, a, n)
      ensures n !in after[n]
    {
      if n in up[t] {
        UpIsTransitive(up, parents, t, n);
      }
    }
  }

  // ---------- child lists ----------

  /** `cs` without `n`. */
  function Drop(cs: seq<XMLNode>, n: XMLNode): seq<XMLNode> {
    if cs == [] then [] else if cs[0] == n then cs[1..] else [cs[0]] + Drop(cs[1..], n)
  }

  lemma {:induction false} DropIsWithout(cs: seq<XMLNode>, k: nat)
    requires Distinct(cs) && k < |cs|
    ensures Drop(cs, cs[k]) == Without(cs, k)
  {
    hide Distinct, Without;
    WithoutStep(cs, k);
    if k > 0 {
      Differ(cs, 0, k);
      RestIsDistinct(cs);
      DropIsWithout(cs[1..], k - 1);
    }
  }

  lemma WithoutStep(cs: seq<XMLNode>, k: nat)
    requires k < |cs|
    ensures Without(cs, k) == if k == 0 then cs[1..] else [cs[0]] + Without(cs[1..], k - 1)
  {
    if k == 0 {
      assert cs[..0] == [];
    } else {
      assert cs[..k] == [cs[0]] + cs[1..][..k - 1] && cs[1..][k..] == cs[k + 1..];
    }
  }

  lemma RestIsDistinct(cs: seq<XMLNode>)
    requires Distinct(cs) && cs != []
    ensures Distinct(cs[1..])
  {
  }

  lemma {:induction false} InDrop(cs: seq<XMLNode>, n: XMLNode, m: XMLNode)
    requires m in cs && m != n
    ensures m in Drop(cs, n)
  {
    if cs[0] != n && cs[0] != m {
      InDrop(cs[1..], n, m);
    }
  }

  // ---------- the forest ----------

  /** The live nodes with their child lists, parents and ancestors. */
  datatype Forest = Forest(kids: Kids, parents: Parents, up: Ups)

  /** A child list holds distinct live nodes that have this parent. */
  predicate ListFits(f: Forest, p: XMLNode)
    requires p in f.kids
  {
    Distinct(f.kids[p]) && forall c :: c in f.kids[p] ==> c in f.parents && f.parents[c] == p
  }

  predicate Fits(f: Forest) {
    && f.kids.Keys == f.parents.Keys && UpFits(f.up, f.parents)
    && (forall p :: p in f.kids ==> ListFits(f, p))
    && (forall n :: n in f.kids && f.parents[n] != null ==> n in f.kids[f.parents[n]])
  }

  /** The child lists after `n` has left its parent's, if it has one. */
  function Cut(f: Forest, n: XMLNode): Forest
    requires Fits(f) && n in f.kids
  {
    if f.parents[n] == null then f
    else
      var p := f.parents[n];
      Forest(f.kids[p := Drop(f.kids[p], n)], f.parents[n := null], Detached(f.up, n))
  }

  /** The forest after the parentless `n` has become child `k` of `p`. */
  function Graft(f: Forest, n: XMLNode, p: XMLNode, k: nat): Forest
    requires p in f.kids && p in f.up && k <= |f.kids[p]|
  {
    Forest(f.kids[p := Inserted(f.kids[p], k, n)], f.parents[n := p], Attached(f.up, n, p))
  }

  /** A move: the list operations on both parents' child lists. */
  function Moved(f: Forest, n: XMLNode, p: XMLNode, k: nat): Forest
    requires Fits(f) && n in f.kids && p in f.kids && k <= |Cut(f, n).kids[p]|
  {
    Graft(Cut(f, n), n, p, k)
  }

  lemma CutKeepsOutside(f: Forest, n: XMLNode, p: XMLNode)
    requires Fits(f) && n in f.kids && p in f.kids && !Within(f.up, n, p)
    ensures p in Cut(f, n).up && !Within(Cut(f, n).up, n, p) && Cut(f, n).kids.Keys == f.kids.Keys
  {
    hide UpFits, ListFits, Drop;
    UpKeys(f.up, f.parents);
  }

  lemma {:induction false} DropFits(cs: seq<XMLNode>, n: XMLNode)
    requires Distinct(cs)
    ensures Distinct(Drop(cs, n)) && n !in Drop(cs, n)
    ensures forall m :: m in Drop(cs, n) ==> m in cs
    ensures forall m :: m in cs && m != n ==> m in Drop(cs, n)
  {
    if n in cs {
      var k :| 0 <= k < |cs| && cs[k] == n;
      DropIsWithout(cs, k);
      WithoutIsDistinct(cs, k);
      forall m | m in cs && m != n
        ensures m in Drop(cs, n)
      {
        InDrop(cs, n, m);
      }
    } else {
      DropNothing(cs, n);
    }
  }

  lemma {:induction false} DropNothing(cs: seq<XMLNode>, n: XMLNode)
    requires n !in cs
    ensures Drop(cs, n) == cs
  {
    if cs != [] {
      DropNothing(cs[1..], n);
    }
  }

  lemma CutList(f: Forest, n: XMLNode, q: XMLNode)
    requires Fits(f) && n in f.kids && q in f.kids
    ensures ListFits(Cut(f, n), q)
  {
    hide UpFits, Detached, Drop, Distinct;
    assert ListFits(f, q);
    DropFits(f.kids[q], n);
  }

  lemma CutHome(f: Forest, n: XMLNode, m: XMLNode)
    requires Fits(f) && n in f.kids && m in f.kids && Cut(f, n).parents[m] != null
    ensures Cut(f, n).parents[m] in f.kids && m in Cut(f, n).kids[Cut(f, n).parents[m]]
  {
    hide UpFits, Detached, Drop, Distinct;
    UpKeys(f.up, f.parents);
    var p := f.parents[m];
    assert m in f.kids[p] && ListFits(f, p);
    DropFits(f.kids[p], n);
  }

  lemma CutFits(f: Forest, n: XMLNode)
    requires Fits(f) && n in f.kids
    ensures Fits(Cut(f, n)) && Cut(f, n).parents[n] == null
  {
    hide UpFits, Detached, Drop, ListFits;
    UpKeys(f.up, f.parents);
    if f.parents[n] != null {
      DetachedFits(f.up, f.parents, n);
      forall q | q in f.kids
        ensures ListFits(Cut(f, n), q)
      {
        CutList(f, n, q);
      }
      forall m | m in f.kids && Cut(f, n).parents[m] != null
        ensures Cut(f, n).parents[m] in f.kids && m in Cut(f, n).kids[Cut(f, n).parents[m]]
      {
        CutHome(f, n, m);
      }
    }
  }

  lemma UpKeys(up: Ups, parents: Parents)
    requires UpFits(up, parents)
    ensures up.Keys == parents.Keys
    ensures forall n :: n in parents && parents[n] != null ==> parents[n] in parents && parents[n] != n
  {
  }

  lemma SameKeys(f: Forest)
    requires Fits(f)
    ensures f.kids.Keys == f.parents.Keys == f.up.Keys
    ensures forall n :: n in f.kids && f.parents[n] != null ==> f.parents[n] in f.kids && n in f.kids[f.parents[n]]
  {
    hide ListFits;
  }

  lemma GraftFits(f: Forest, n: XMLNode, p: XMLNode, k: nat)
    requires Fits(f) && n in f.kids && p in f.kids && k <= |f.kids[p]|
    requires f.parents[n] == null && !Within(f.up, n, p)
    ensures Fits(Graft(f, n, p, k))
  {
    hide UpFits, Attached, Distinct;
    UpKeys(f.up, f.parents);
    var g := Graft(f, n, p, k);
    AttachedFits(f.up, f.parents, n, p);
    forall q | q in g.kids
      ensures ListFits(g, q)
    {
      assert ListFits(f, q);
      if q == p { InsertedIsDistinct(f.kids[p], k, n); }
    }
    assert Inserted(f.kids[p], k, n)[k] == n;
    forall m | m in g.kids && g.parents[m] != null && m != n
      ensures m in g.kids[g.parents[m]]
    {
      InInserted(f.kids[p], k, n, m);
    }
  }

  lemma InInserted(cs: seq<XMLNode>, k: nat, n: XMLNode, m: XMLNode)
    requires k <= |cs|
    ensures m in cs ==> m in Inserted(cs, k, n)
  {
    if m in cs {
      var i :| 0 <= i < |cs| && cs[i] == m;
      assert Inserted(cs, k, n)[if i < k then i else i + 1] == m;
    }
  }

  /** The forest with the new node `n`, which has no parent. */
  function Born(f: Forest, n: XMLNode): Forest {
    Forest(f.kids[n := []], f.parents[n := null], f.up[n := {}])
  }

  lemma BornUpFits(up: Ups, parents: Parents, n: XMLNode)
    requires UpFits(up, parents) && n !in up
    ensures UpFits(up[n := {}], parents[n := null])
  {
  }

  lemma BornList(f: Forest, n: XMLNode, q: XMLNode)
    requires Fits(f) && n !in f.kids && (q == n || q in f.kids)
    ensures ListFits(Born(f, n), q)
  {
    hide Distinct, UpFits;
    SameKeys(f);
    NoneIsDistinct();
    assert q != n ==> ListFits(f, q);
  }

  lemma BornFits(f: Forest, n: XMLNode)
    requires Fits(f) && n !in f.kids
    ensures Fits(Born(f, n))
  {
    hide ListFits, UpFits;
    var g := Born(f, n);
    SameKeys(f);
    BornUpFits(f.up, f.parents, n);
    forall q | q in g.kids
      ensures ListFits(g, q)
    {
      BornList(f, n, q);
    }
  }

  lemma NoneIsDistinct()
    ensures Distinct([])
  {
  }

  /** The forest without `n`. */
  function Freed(f: Forest, n: XMLNode): Forest {
    Forest(f.kids - {n}, f.parents - {n}, f.up - {n})
  }

  /** A node without children is nobody's ancestor. */
  lemma {:induction false} NothingBelow(f: Forest, p: XMLNode, m: XMLNode)
    requires Fits(f) && p in f.kids && f.kids[p] == [] && m in f.up
    ensures p !in f.up[m]
    decreases f.up[m]
  {
    if p in f.up[m] {
      var q := f.parents[m];
      if q != p {
        NothingBelow(f, p, q);
      }
    }
  }

  lemma FreedUpFits(up: Ups, parents: Parents, n: XMLNode)
    requires UpFits(up, parents) && n in up && forall m :: m in up ==> n !in up[m]
    ensures UpFits(up - {n}, parents - {n})
  {
    assert (up - {n}).Keys == up.Keys - {n} == (parents - {n}).Keys;
  }

  lemma FreedList(f: Forest, n: XMLNode, q: XMLNode)
    requires Fits(f) && n in f.kids && f.parents[n] == null && q in f.kids && q != n
    ensures ListFits(Freed(f, n), q)
  {
    hide UpFits, Distinct;
    OnlyAtHome(f, n);
    assert ListFits(f, q);
  }

  lemma FreedFits(f: Forest, n: XMLNode)
    requires Fits(f) && n in f.kids && f.kids[n] == [] && f.parents[n] == null
    ensures Fits(Freed(f, n))
  {
    hide ListFits, UpFits;
    var g := Freed(f, n);
    SameKeys(f);
    assert g.kids.Keys == f.kids.Keys - {n} == g.parents.Keys;
    forall m | m in f.up
      ensures n !in f.up[m]
    {
      NothingBelow(f, n, m);
    }
    FreedUpFits(f.up, f.parents, n);
    forall q | q in g.kids
      ensures ListFits(g, q)
    {
      FreedList(f, n, q);
    }
  }

  /** `n` and everything below it. */
  ghost function Subtree(f: Forest, n: XMLNode): set<XMLNode> {
    set m | m in f.up && Within(f.up, n, m)
  }

  /** `g` is `f` without some nodes below `p`, and perhaps with a shorter list for `p`. */
  ghost predicate Trimmed(f: Forest, g: Forest, p: XMLNode) {
    && g.kids.Keys == g.parents.Keys == g.up.Keys && p in g.kids
    && g.kids.Keys <= f.kids.Keys == f.parents.Keys == f.up.Keys
    && (forall m :: m in g.kids ==> g.parents[m] == f.parents[m] && g.up[m] == f.up[m])
    && (forall m :: m in g.kids && m != p ==> g.kids[m] == f.kids[m])
    && (forall m :: m in f.kids && m !in g.kids ==> p in f.up[m])
  }

  /** `g` is `f` without `n` and what is below it. */
  ghost predicate Removed(f: Forest, g: Forest, n: XMLNode) {
    && g.kids.Keys == g.parents.Keys == g.up.Keys == f.kids.Keys - Subtree(f, n)
    && f.kids.Keys == f.parents.Keys == f.up.Keys
    && (forall m :: m in g.kids ==> g.parents[m] == f.parents[m] && g.up[m] == f.up[m] && g.kids[m] == f.kids[m])
  }

  lemma TrimmedTwice(f: Forest, g: Forest, h: Forest, p: XMLNode)
    requires Trimmed(f, g, p) && Trimmed(g, h, p)
    ensures Trimmed(f, h, p)
  {
  }

  lemma OnlyTheSubtreeIsGone(f: Forest, g: Forest, n: XMLNode)
    requires Fits(g) && Trimmed(f, g, n) && g.kids[n] == []
    ensures f.kids.Keys - Subtree(f, n) == g.kids.Keys - {n}
  {
    hide Fits;
    forall m | m in g.up
      ensures n !in g.up[m]
    {
      NothingBelow(g, n, m);
    }
  }

  /** Emptying the list of `n` and freeing `n` takes away its whole subtree. */
  lemma EmptiedAndFreed(f: Forest, g: Forest, n: XMLNode)
    requires Fits(g) && Trimmed(f, g, n) && g.kids[n] == []
    ensures Removed(f, Freed(g, n), n)
  {
    hide Fits, Subtree;
    OnlyTheSubtreeIsGone(f, g, n);
    var h := Freed(g, n);
    assert h.kids.Keys == g.kids.Keys - {n} && h.parents.Keys == g.kids.Keys - {n} && h.up.Keys == g.kids.Keys - {n};
  }

  lemma BelowAChild(f: Forest, c: XMLNode)
    requires Fits(f) && c in f.kids && f.parents[c] != null
    ensures forall m :: m in f.up && Within(f.up, c, m) ==> f.parents[c] in f.up[m]
  {
    hide ListFits;
    SameKeys(f);
    forall m | m in f.up && c in f.up[m]
      ensures f.parents[c] in f.up[m]
    {
      UpIsTransitive(f.up, f.parents, m, c);
    }
  }

  lemma NotInOwnSubtree(f: Forest, c: XMLNode)
    requires Fits(f) && c in f.kids && f.parents[c] != null
    ensures Subtree(Cut(f, c), c) == Subtree(f, c) && f.parents[c] !in Subtree(f, c)
  {
    hide ListFits, Drop;
    SameKeys(f);
    BelowAChild(f, c);
  }

  /** Cutting a child off and removing it trims its parent. */
  lemma CutAndRemoved(f: Forest, g: Forest, p: XMLNode, c: XMLNode)
    requires Fits(f) && c in f.kids && f.parents[c] == p && Removed(Cut(f, c), g, c)
    ensures Trimmed(f, g, p)
  {
    hide Fits, Drop;
    SameKeys(f);
    BelowAChild(f, c);
    NotInOwnSubtree(f, c);
  }

  ghost function Below(f: Forest, n: XMLNode): set<XMLNode> {
    set m | m in f.up && n in f.up[m]
  }

  lemma BelowIsSmaller(f: Forest, n: XMLNode)
    requires Fits(f) && n in f.kids
    ensures |Below(f, n)| < |Subtree(f, n)|
  {
    hide ListFits;
    assert Subtree(f, n) == Below(f, n) + {n} && n !in Below(f, n);
  }

  lemma SubsetIsSmaller<T>(a: set<T>, b: set<T>)
    requires a <= b
    ensures |a| <= |b|
  {
    assert b == a + (b - a);
  }

  /** The subtree of a child, before and after it has been cut off, is below its parent. */
  lemma ChildIsSmaller(f: Forest, c: XMLNode)
    requires Fits(f) && c in f.kids && f.parents[c] != null
    ensures Subtree(Cut(f, c), c) <= Below(f, f.parents[c])
    ensures |Subtree(Cut(f, c), c)| <= |Below(f, f.parents[c])|
  {
    hide ListFits, Drop;
    SameKeys(f);
    var p := f.parents[c];
    forall m | m in Subtree(Cut(f, c), c)
      ensures m in Below(f, p)
    {
      if m != c {
        UpIsTransitive(f.up, f.parents, m, c);
      }
    }
    SubsetIsSmaller(Subtree(Cut(f, c), c), Below(f, p));
  }

  lemma TrimmedNot(f: Forest, p: XMLNode)
    requires Fits(f) && p in f.kids
    ensures Trimmed(f, f, p)
  {
    SameKeys(f);
  }

  predicate Orphans(f: Forest, nodes: set<XMLNode>) {
    forall n :: n in nodes ==> n in f.parents && f.parents[n] == null
  }

  lemma OrphansStay(f: Forest, c: XMLNode, nodes: set<XMLNode>)
    requires Fits(f) && c in f.kids && f.parents[c] != null && Orphans(f, nodes)
    ensures Orphans(Cut(f, c), nodes) && c !in nodes && Cut(f, c).kids.Keys == f.kids.Keys
  {
    hide UpFits, ListFits;
    UpKeys(f.up, f.parents);
  }

  lemma TrimmedFacts(f: Forest, g: Forest, p: XMLNode, nodes: set<XMLNode>)
    requires Fits(f) && Trimmed(f, g, p) && Orphans(f, nodes)
    ensures p in g.kids && p in g.parents && g.parents[p] == f.parents[p]
    ensures |Below(g, p)| <= |Below(f, p)| && g.kids.Keys <= f.kids.Keys && Orphans(g, nodes)
  {
    hide ListFits;
    SubsetIsSmaller(Below(g, p), Below(f, p));
  }

  lemma RemovedIsGone(f: Forest, g: Forest, n: XMLNode)
    requires Removed(f, g, n)
    ensures n !in g.kids
  {
  }

  lemma TrimmedShrinks(f: Forest, g: Forest, p: XMLNode, c: XMLNode)
    requires Trimmed(f, g, p) && c in f.kids && c !in g.kids
    ensures |g.kids| < |f.kids|
  {
    SubsetIsSmaller(g.kids.Keys + {c}, f.kids.Keys);
    assert |g.kids.Keys + {c}| == |g.kids.Keys| + 1;
    assert |g.kids| == |g.kids.Keys| && |f.kids| == |f.kids.Keys|;
  }

  lemma BornLists(f: Forest, n: XMLNode, root: XMLNode, unlinked: seq<XMLNode>)
    requires Fits(f) && n !in f.kids && n != root && Lists(unlinked, Parentless(f, root) - {})
    ensures Lists(unlinked + [n], Parentless(Born(f, n), root) - {})
    ensures Born(f, n).kids == f.kids[n := []] && Born(f, n).parents == f.parents[n := null]
    ensures |Born(f, n).kids.Keys| == |f.kids.Keys| + 1
  {
    hide Fits, Lists, Parentless;
    SameKeys(f);
    BornOrphans(f, n, root);
    ListsGrow(unlinked, Parentless(f, root) - {}, n);
    assert Parentless(f, root) - {} + {n} == Parentless(f, root) + {n} - {};
  }

  lemma BornOrphans(f: Forest, n: XMLNode, root: XMLNode)
    requires Fits(f) && n !in f.kids && n != root
    ensures Parentless(Born(f, n), root) == Parentless(f, root) + {n} && n !in Parentless(f, root)
    ensures Born(f, n).kids.Keys == f.kids.Keys + {n}
  {
    hide Fits;
    SameKeys(f);
  }

  lemma ListsGrow(s: seq<XMLNode>, nodes: set<XMLNode>, n: XMLNode)
    requires Lists(s, nodes) && n !in nodes
    ensures Lists(s + [n], nodes + {n})
  {
    var t := s + [n];
    assert t[|s|] == n && forall i :: 0 <= i < |s| ==> t[i] == s[i];
    forall m | m in nodes
      ensures m in t
    {
      assert m in s;
    }
  }

  lemma BornIsChained(kids: Kids, n: XMLNode)
    requires AllChained(kids) && n !in kids
    requires n.parent == null && n.prev == null && n.next == null && n.firstChild == null && n.lastChild == null
    ensures AllChained(kids[n := []])
  {
  }

  lemma OrphansOf(f: Forest, root: XMLNode)
    ensures Orphans(f, Parentless(f, root) - {})
  {
  }

  lemma RemovedOrphans(f: Forest, g: Forest, n: XMLNode, root: XMLNode)
    requires Fits(f) && n in f.kids && f.parents[n] == null && n != root && root in f.kids && f.parents[root] == null
    requires Removed(f, g, n)
    ensures Parentless(g, root) == Parentless(f, root) - {n} && root in g.kids && g.kids[root] == f.kids[root]
    ensures g.kids.Keys <= f.kids.Keys
  {
    hide ListFits;
  }

  lemma RootIsCutFrom(f: Forest, n: XMLNode, root: XMLNode)
    requires Fits(f) && n in f.kids && root in f.kids && f.parents[root] == null && n != root
    ensures root in Cut(f, n).kids && root in Cut(f, n).parents && Cut(f, n).parents[root] == null
    ensures n in Cut(f, n).kids && n in Cut(f, n).parents && Cut(f, n).parents[n] == null
  {
    hide UpFits, ListFits, Drop;
    UpKeys(f.up, f.parents);
  }

  lemma TrimmedOrphans(f: Forest, g: Forest, p: XMLNode, root: XMLNode)
    requires Fits(f) && Trimmed(f, g, p)
    ensures Parentless(g, root) - {} == Parentless(f, root) - {} && p in g.kids && g.kids.Keys <= f.kids.Keys
  {
    hide ListFits;
  }

  lemma UnlinkedIsOrphan(s: seq<XMLNode>, f: Forest, root: XMLNode)
    requires Lists(s, Parentless(f, root) - {}) && s != []
    ensures s[0] in f.parents && f.parents[s[0]] == null && s[0] != root
  {
    assert s[0] in s;
  }

  /** A forest all of whose trees but one are gone, and that one a single node. */
  lemma {:induction false} UnderTheRoot(f: Forest, root: XMLNode, m: XMLNode)
    requires Fits(f) && m in f.kids && Parentless(f, root) == {} && m != root
    ensures root in f.up[m]
    decreases f.up[m]
  {
    hide ListFits;
    SameKeys(f);
    assert m !in Parentless(f, root);
    var p := f.parents[m];
    if p != root {
      UnderTheRoot(f, root, p);
    }
  }

  lemma NobodyLeft(f: Forest, root: XMLNode)
    requires Fits(f) && root in f.kids && f.kids[root] == [] && f.parents[root] == null
    requires Lists([], Parentless(f, root) - {})
    ensures f == Alone(root) && f.kids.Keys == {root}
  {
    hide ListFits;
    SameKeys(f);
    NoOrphans(Parentless(f, root) - {});
    assert Parentless(f, root) == Parentless(f, root) - {};
    forall m | m in f.kids
      ensures m == root
    {
      if m != root {
        UnderTheRoot(f, root, m);
        NothingBelow(f, root, m);
      }
    }
    assert f.kids.Keys == {root};
  }

  lemma NoOrphans(nodes: set<XMLNode>)
    requires Lists([], nodes)
    ensures nodes == {}
  {
    assert forall n :: n in nodes ==> n in [];
  }

  /** A document without nodes. */
  function Alone(root: XMLNode): Forest {
    Forest(map[root := []], map[root := null], map[root := {}])
  }

  lemma AloneFits(root: XMLNode)
    ensures Fits(Alone(root)) && Alone(root).kids.Keys == {root} && Parentless(Alone(root), root) == {}
  {
  }

  // ---------- the document ----------

  class DocumentTree {
    const id: nat
    const root: XMLNode
    var unlinked: seq<XMLNode>
    var currentAllocs: PerPool
    var untracked: PerPool
    ghost var forest: Forest
    ghost var leaked: multiset<Pool>

    /** The live nodes' fields spell out the forest. */
    ghost predicate Shape()
      reads this, forest.kids.Keys
    {
      && Fits(forest) && root in forest.kids && forest.parents[root] == null
      && AllChained(forest.kids)
      && (forall n :: n in forest.kids ==> n.document == id && n.parent == forest.parents[n])
      && (forall n :: n in forest.kids ==> (n.item.DocumentItem? <==> n == root))
    }

    /** The list of unlinked nodes holds exactly the live nodes without a parent, once each, apart from `loose`. */
    ghost predicate Owned(loose: set<XMLNode>)
      reads this
    {
      Lists(unlinked, Parentless(forest, root) - loose)
    }

    /** The two counters of a pool. */
    function CountersOf(p: Pool): Counters
      reads this`currentAllocs, this`untracked
    {
      Counters(Of(currentAllocs, p), Of(untracked, p))
    }

    /** Pool by pool: the items given out are those of the live nodes and their attributes, and the untracked ones are
        the nodes in the list of unlinked nodes, besides those that were discarded without being tracked. */
    ghost predicate Counted()
      reads this
    {
      Living() && UntrackedFits(untracked, leaked, unlinked)
    }

    /** Its first half. */
    ghost predicate Living()
      reads this
    {
      CurrentFits(currentAllocs, forest.kids.Keys)
    }

    ghost predicate Valid()
      reads this, forest.kids.Keys
    {
      Shape() && Owned({}) && Counted()
    }

    /** The links of a list, from its first child on. */
    lemma ListLinks(self: XMLNode)
      requires Shape() && self in forest.kids
      ensures var cs := forest.kids[self];
        && self.firstChild == At(cs, 0)
        && (forall i :: 0 <= i < |cs| ==> cs[i] in forest.kids && cs[i].next == At(cs, i + 1))
    {
      hide Fits;
      var cs := forest.kids[self];
      assert Chain(self, cs);
      forall i | 0 <= i < |cs|
        ensures cs[i] in forest.kids && cs[i].next == At(cs, i + 1)
      {
        assert Placed(self, cs, i) && cs[i] in cs;
      }
    }

    /** What users of a document need of its shape. */
    lemma Known()
      requires Shape()
      ensures Fits(forest) && root in forest.kids && forest.parents[root] == null
      ensures forall n :: n in forest.kids ==> n.document == id && n.parent == forest.parents[n]
      ensures forall n :: n in forest.kids ==> (n.item.DocumentItem? <==> n == root)
    {
      hide Fits;
    }

    constructor (id: nat)
      ensures Valid() && this.id == id && fresh(root) && unlinked == [] && leaked == multiset{}
      ensures forest == Alone(root) && currentAllocs == ZERO && untracked == ZERO
    {
      this.id := id;
      var node := new XMLNode(id, DocumentItem);
      root := node;
      unlinked, currentAllocs, untracked, leaked := [], ZERO, ZERO, multiset{};
      forest := Alone(node);
      hide Fits, Slots, Waiting;
      AloneFits(node);
      NothingCounted(node, ZERO, ZERO, multiset{});
    }

    /** XMLNode::Unlink on a child of `self`. */
    method Detach(self: XMLNode, child: XMLNode)
      requires Shape() && child in forest.kids && child.parent == self
      modifies this`forest, forest.kids.Keys
      ensures Shape() && forest == Cut(old(forest), child) && child.parent == null
    {
      hide Fits, Drop, Distinct, Detached, AllChained;
      SameKeys(forest);
      ghost var cs := forest.kids[self];
      ghost var k :| 0 <= k < |cs| && cs[k] == child;
      OnlyAtHome(forest, child);
      CutFits(forest, child);
      DropAt(forest, child, k);
      UnlinkAmong(self, child, forest.kids, k);
      forest := Cut(forest, child);
    }

    // ---------- the pools ----------

    method Alloc(p: Pool)
      modifies this`currentAllocs, this`untracked
      ensures currentAllocs == Add(old(currentAllocs), p, 1) && untracked == Add(old(untracked), p, 1)
      ensures forall q :: CountersOf(q) == if q == p then Alloced(old(CountersOf(q))) else old(CountersOf(q))
    {
      currentAllocs, untracked := Add(currentAllocs, p, 1), Add(untracked, p, 1);
    }

    method TakeBack(p: Pool)
      modifies this`currentAllocs
      ensures currentAllocs == Add(old(currentAllocs), p, -1)
      ensures forall q :: CountersOf(q) == if q == p then TakenBack(old(CountersOf(q))) else old(CountersOf(q))
    {
      currentAllocs := Add(currentAllocs, p, -1);
    }

    method SetTracked(p: Pool)
      modifies this`untracked
      ensures untracked == Add(old(untracked), p, -1)
      ensures forall q :: CountersOf(q) == if q == p then Tracked(old(CountersOf(q))) else old(CountersOf(q))
    {
      untracked := Add(untracked, p, -1);
    }

    /** CreateAttribute, once for each attribute of a node: made and tracked at once. */
    method CreateAttributes(item: Item)
      modifies this`currentAllocs, this`untracked
      ensures currentAllocs == Add(old(currentAllocs), AttributePool, Uses(item, AttributePool))
      ensures untracked == old(untracked)
    {
      if item.ElementItem? {
        for i := 0 to |item.attributes|
          invariant currentAllocs == Add(old(currentAllocs), AttributePool, i) && untracked == old(untracked)
        {
          Alloc(AttributePool);
          SetTracked(AttributePool);
        }
      }
    }

    /** The destructor of an element, as far as its attributes are concerned. */
    method DeleteAttributes(item: Item)
      modifies this`currentAllocs
      ensures currentAllocs == Add(old(currentAllocs), AttributePool, 0 - Uses(item, AttributePool))
    {
      if item.ElementItem? {
        for i := 0 to |item.attributes|
          invariant currentAllocs == Add(old(currentAllocs), AttributePool, 0 - i)
        {
          TakeBack(AttributePool);
        }
      }
    }

    /** MarkInUse: a linear search, and the last entry put where the node was found. */
    method MarkInUse(node: XMLNode, ghost nodes: set<XMLNode>)
      requires Lists(unlinked, nodes)
      modifies this`unlinked
      ensures Lists(unlinked, nodes - {node})
      ensures |unlinked| == |old(unlinked)| - if node in nodes then 1 else 0
    {
      hide Distinct;
      for i := 0 to |unlinked|
        invariant unlinked == old(unlinked) && node !in unlinked[..i]
      {
        if node == unlinked[i] {
          SwapRemoveLists(unlinked, i, nodes);
          unlinked := SwapRemoved(unlinked, i);
          return;
        }
      }
      assert unlinked[..|unlinked|] == unlinked;
    }

    /** InsertChildPreamble: the node leaves its parent, or the list of unlinked nodes. */
    method InsertChildPreamble(insertThis: XMLNode)
      requires Valid() && insertThis in forest.kids && insertThis != root
      modifies this`forest, this`unlinked, this`untracked, forest.kids.Keys
      ensures Shape() && forest == Cut(old(forest), insertThis) && insertThis.parent == null
      ensures Owned({insertThis}) && Counted() && leaked == old(leaked)
    {
      hide Fits, Lists, AllChained, Parentless, Cut, CurrentFits, UntrackedFits, PoolOf, Add;
      CutOrphans(forest, insertThis, root);
      if insertThis.parent != null {
        assert Parentless(forest, root) + {insertThis} - {insertThis} == Parentless(forest, root) - {};
        Detach(insertThis.parent, insertThis);
      } else {
        assert Parentless(forest, root) - {} - {insertThis} == Parentless(forest, root) - {insertThis};
        ghost var was := unlinked;
        MarkInUse(insertThis, Parentless(forest, root) - {});
        OffTheList(was, unlinked, Parentless(forest, root) - {}, insertThis);
        TakenOffFits(untracked, leaked, was, unlinked, insertThis);
        SetTracked(PoolOf(insertThis.item));
      }
    }

    /** The rest of an insertion, once the node has been taken from where it was. */
    method Adopt(self: XMLNode, addThis: XMLNode, place: Place, ghost k: nat)
      requires Shape() && Owned({addThis}) && Counted() && self in forest.kids && addThis in forest.kids
      requires addThis != root && addThis.parent == null && !Within(forest.up, addThis, self)
      requires PlaceOk(place, forest.kids[self], k)
      modifies this`forest, forest.kids.Keys
      ensures k <= |old(forest).kids[self]| && Valid() && forest == Graft(old(forest), addThis, self, k)
    {
      hide Fits, Graft, Distinct, AllChained, Inserted, PlaceOk, Lists, Parentless, Within, CurrentFits, UntrackedFits;
      SameKeys(forest);
      OnlyAtHome(forest, addThis);
      LinkAmong(self, addThis, place, forest.kids, k);
      GraftFits(forest, addThis, self, k);
      GraftLists(forest, addThis, self, k, root);
      ghost var was := forest;
      forest := Graft(forest, addThis, self, k);
      assert Owned({});
      assert Counted();
      assert forall n :: n in was.kids ==> n.document == id && n.parent == was.parents[addThis := self][n];
    }

    /** The nodes an insertion may be given: a foreign one, or a live one that is not `self` nor above it. */
    ghost predicate Insertable(self: XMLNode, addThis: XMLNode)
      requires Shape()
      reads this, forest.kids.Keys
    {
      self in forest.kids &&
      (addThis.document == id ==> addThis in forest.kids && addThis != root && !Within(forest.up, addThis, self))
    }

    method InsertEndChild(self: XMLNode, addThis: XMLNode) returns (r: XMLNode?)
      requires Valid() && Insertable(self, addThis)
      modifies this`forest, this`unlinked, this`untracked, forest.kids.Keys
      ensures Valid() && r == (if addThis.document == id then addThis else null)
      ensures r == null ==> forest == old(forest) && unlinked == old(unlinked)
      ensures r != null ==>
        forest == Moved(old(forest), addThis, self, |Cut(old(forest), addThis).kids[self]|)
    {
      hide Fits, Cut, Graft, Lists, AllChained, Parentless, Distinct;
      if addThis.document != id {
        return null;
      }
      CutKeepsOutside(forest, addThis, self);
      InsertChildPreamble(addThis);
      Adopt(self, addThis, AtEnd, |forest.kids[self]|);
      return addThis;
    }

    method InsertFirstChild(self: XMLNode, addThis: XMLNode) returns (r: XMLNode?)
      requires Valid() && Insertable(self, addThis)
      modifies this`forest, this`unlinked, this`untracked, forest.kids.Keys
      ensures Valid() && r == (if addThis.document == id then addThis else null)
      ensures r == null ==> forest == old(forest) && unlinked == old(unlinked)
      ensures r != null ==> forest == Moved(old(forest), addThis, self, 0)
    {
      hide Fits, Cut, Graft, Lists, AllChained, Parentless, Distinct;
      if addThis.document != id {
        return null;
      }
      CutKeepsOutside(forest, addThis, self);
      InsertChildPreamble(addThis);
      Adopt(self, addThis, AtStart, 0);
      return addThis;
    }

    /** InsertAfterChild; `afterThis` may be any node, of this document or not. `fault` stands for the null pointer the
        C++ follows when `addThis` was both the last child and the successor of `afterThis`: it has been unlinked by
        then, and belongs nowhere. */
    method InsertAfterChild(self: XMLNode, afterThis: XMLNode, addThis: XMLNode)
      returns (r: XMLNode?, fault: bool, ghost k: nat)
      requires Valid() && Insertable(self, addThis) && (afterThis.parent == self ==> afterThis in forest.kids)
      modifies this`forest, this`unlinked, this`untracked, forest.kids.Keys
      ensures fault <==> addThis.document == id && EndsWith(old(forest).kids[self], afterThis, addThis)
      ensures !fault ==> Valid()
      ensures !fault ==> r == if addThis.document == id && old(afterThis.parent) == self then addThis else null
      ensures !fault && (r == null || afterThis == addThis) ==> forest == old(forest) && unlinked == old(unlinked)
      ensures !fault && r != null && afterThis != addThis ==>
        var cs := Cut(old(forest), addThis).kids[self];
        0 < k <= |cs| && cs[k - 1] == afterThis && forest == Moved(old(forest), addThis, self, k)
    {
      hide Fits, Cut, Graft, Lists, AllChained, Parentless, Distinct, EndsWith;
      fault, r, k := false, null, 0;
      if addThis.document != id {
        return;
      }
      if afterThis.parent != self {
        NoEnd(forest, self, afterThis, addThis);
        return;
      }
      r := addThis;
      if afterThis == addThis {
        NoEnd(forest, self, afterThis, addThis);
        return;
      }
      ghost var i := NextInList(self, afterThis);
      AfterTheCut(forest, self, i, addThis);
      if afterThis.next == null {
        k := |Cut(forest, addThis).kids[self]|;
        r := InsertEndChild(self, addThis);
        return;
      }
      CutKeepsOutside(forest, addThis, self);
      InsertChildPreamble(addThis);
      i := NextInList(self, afterThis);
      if afterThis.next == null {
        fault := true;
        return;
      }
      k := i + 1;
      Adopt(self, addThis, After(afterThis), k);
    }

    // ---------- making and deleting nodes ----------

    method CreateUnlinkedNode(item: Item) returns (n: XMLNode)
      requires Valid() && !item.DocumentItem?
      modifies this`forest, this`unlinked, this`currentAllocs, this`untracked
      ensures Valid() && fresh(n) && n.document == id && n.item == item && forest == Born(old(forest), n)
        && unlinked == old(unlinked) + [n]
      ensures currentAllocs == WithNode(old(currentAllocs), item, 1)
        && untracked == Add(old(untracked), PoolOf(item), 1)
    {
      hide Fits, Distinct, AllChained, Parentless, Lists, Born, CurrentFits, UntrackedFits, PoolOf, Add, Uses, WithNode;
      n := new XMLNode(id, item);
      NewlyListed(n);
      CreateAttributes(item);
      Alloc(PoolOf(item));
      MadeCounts(old(currentAllocs), forest.kids.Keys, n);
      ListedFits(old(untracked), leaked, unlinked, n);
      unlinked := unlinked + [n];
      BornFits(forest, n);
      BornLists(forest, n, root, old(unlinked));
      forest := Born(forest, n);
      assert AllChained(forest.kids) by { BornIsChained(old(forest).kids, n); }
      WithOneNode(old(currentAllocs), item);
      assert forest.kids.Keys == old(forest).kids.Keys + {n};
      assert Counted() && Owned({});
    }

    lemma NewlyListed(n: XMLNode)
      requires Valid() && n !in forest.kids
      ensures n !in unlinked && n != root
    {
      hide Fits;
      SameKeys(forest);
    }

    /** The pool takes back a node that has no parent and no children left. */
    method Free(node: XMLNode)
      requires Shape() && Living() && node in forest.kids && node != root
      requires node.parent == null && forest.kids[node] == []
      modifies this`forest, this`currentAllocs
      ensures Shape() && Living() && forest == Freed(old(forest), node)
    {
      hide Fits, Distinct, AllChained, Freed, CurrentFits, PoolOf, Add, Uses;
      FreedCounts(currentAllocs, forest.kids.Keys, node);
      DeleteAttributes(node.item);
      TakeBack(PoolOf(node.item));
      SameKeys(forest);
      FreedFits(forest, node);
      FreedIsChained(node);
      forest := Freed(forest, node);
    }

    /** XMLNode::DeleteNode on a node without a parent; `nodes` is what the list of unlinked nodes holds. */
    method DeleteNode(node: XMLNode, ghost nodes: set<XMLNode>)
      requires Shape() && Living() && node in forest.kids && node != root && node.parent == null
      requires Lists(unlinked, nodes) && Orphans(forest, nodes)
      modifies this`forest, this`unlinked, this`currentAllocs, forest.kids.Keys
      ensures Shape() && Living() && Removed(old(forest), forest, node)
      ensures Lists(unlinked, nodes - {node}) && |unlinked| == |old(unlinked)| - if node in nodes then 1 else 0
      decreases |Subtree(forest, node)|, 0
    {
      hide Fits, Lists, AllChained, Trimmed, Removed, Subtree, Below, CurrentFits;
      MarkInUse(node, nodes);
      BelowIsSmaller(forest, node);
      DeleteChildren(node, nodes - {node});
      TrimmedFacts(old(forest), forest, node, nodes);
      EmptiedAndFreed(old(forest), forest, node);
      Free(node);
    }

    method DeleteChild(self: XMLNode, node: XMLNode, ghost nodes: set<XMLNode>)
      requires Shape() && Living() && node in forest.kids && node.parent == self
      requires Lists(unlinked, nodes) && Orphans(forest, nodes)
      modifies this`forest, this`unlinked, this`currentAllocs, forest.kids.Keys
      ensures Shape() && Living() && Trimmed(old(forest), forest, self) && node !in forest.kids
      ensures Removed(Cut(old(forest), node), forest, node)
      ensures Lists(unlinked, nodes) && |unlinked| == |old(unlinked)|
      decreases |Below(forest, self)|, 1
    {
      hide Fits, Lists, AllChained, Trimmed, Removed, Cut, Orphans, Below, Subtree, CurrentFits;
      ChildIsSmaller(forest, node);
      OrphansStay(forest, node, nodes);
      Detach(self, node);
      DeleteNode(node, nodes);
      CutAndRemoved(old(forest), forest, self, node);
      RemovedIsGone(Cut(old(forest), node), forest, node);
      assert nodes - {node} == nodes;
    }

    method DeleteChildren(self: XMLNode, ghost nodes: set<XMLNode>)
      requires Shape() && Living() && self in forest.kids && Lists(unlinked, nodes) && Orphans(forest, nodes)
      modifies this`forest, this`unlinked, this`currentAllocs, forest.kids.Keys
      ensures Shape() && Living() && Trimmed(old(forest), forest, self) && forest.kids[self] == []
      ensures Lists(unlinked, nodes) && |unlinked| == |old(unlinked)|
      decreases |Below(forest, self)|, 2
    {
      hide Fits, Lists, AllChained, Trimmed, Below, Orphans, CurrentFits;
      TrimmedNot(forest, self);
      while self.firstChild != null
        invariant Shape() && Living() && Trimmed(old(forest), forest, self)
        invariant Lists(unlinked, nodes) && |unlinked| == |old(unlinked)|
        decreases |forest.kids|
      {
        ghost var was := forest;
        TrimmedFacts(old(forest), forest, self, nodes);
        FirstChildIs(self);
        var child := self.firstChild;
        DeleteChild(self, child, nodes);
        TrimmedShrinks(was, forest, self, child);
        TrimmedTwice(old(forest), was, forest, self);
      }
      TrimmedFacts(old(forest), forest, self, nodes);
      FirstChildIs(self);
    }

    /** XMLDocument::DeleteNode: a node in the tree is unlinked first, another one is marked tracked. */
    method DeleteNodeOf(node: XMLNode)
      requires Valid() && node in forest.kids && node != root
      modifies this`forest, this`unlinked, this`currentAllocs, this`untracked, forest.kids.Keys
      ensures Valid() && Removed(Cut(old(forest), node), forest, node)
      ensures |unlinked| == |old(unlinked)| - if old(node.parent) == null then 1 else 0
      ensures old(node.parent) == null ==> forest.kids[root] == old(forest).kids[root]
      ensures forest.kids.Keys <= old(forest).kids.Keys
    {
      hide Fits, Lists, AllChained, Trimmed, Removed, Cut, Parentless, Orphans, CurrentFits, UntrackedFits, PoolOf, Add;
      ghost var nodes := Parentless(forest, root) - {};
      ghost var was := unlinked;
      OrphansOf(forest, root);
      CutOrphans(forest, node, root);
      CutFits(forest, node);
      RootIsCutFrom(forest, node, root);
      if node.parent != null {
        DeleteChild(node.parent, node, nodes);
        assert Parentless(old(forest), root) + {node} - {node} == nodes;
        OnTheList(was, unlinked, nodes);
        SameListed(untracked, leaked, was, unlinked);
      } else {
        ghost var before := untracked;
        SetTracked(PoolOf(node.item));
        DeleteNode(node, nodes);
        assert Parentless(old(forest), root) - {node} == nodes - {node};
        OffTheList(was, unlinked, nodes, node);
        TakenOffFits(before, leaked, was, unlinked, node);
      }
      RemovedOrphans(Cut(old(forest), node), forest, node, root);
      assert Parentless(forest, root) - {} == Parentless(forest, root);
    }

    /** Clear: the tree, then every unlinked node. */
    method Clear()
      requires Valid()
      modifies this`forest, this`unlinked, this`currentAllocs, this`untracked, forest.kids.Keys
      ensures Valid() && forest == Alone(root) && unlinked == []
      ensures forall p :: CountersOf(p) == Counters(0, leaked[p])
    {
      hide Fits, Lists, AllChained, Trimmed, Parentless, Orphans, Alone, CurrentFits, UntrackedFits;
      OrphansOf(forest, root);
      DeleteChildren(root, Parentless(forest, root) - {});
      TrimmedOrphans(old(forest), forest, root, root);
      OnTheList(old(unlinked), unlinked, Parentless(forest, root) - {});
      SameListed(untracked, leaked, old(unlinked), unlinked);
      DeleteUnlinked();
      NobodyLeft(forest, root);
      ClearedCounts(root, currentAllocs, untracked, leaked);
    }

    /** Its loop: each round takes one node from the list. */
    method DeleteUnlinked()
      requires Valid() && forest.kids[root] == []
      modifies this`forest, this`unlinked, this`currentAllocs, this`untracked, forest.kids.Keys
      ensures Valid() && forest.kids[root] == [] && unlinked == []
    {
      hide Fits, Lists, AllChained, Removed, Cut, Parentless, CurrentFits, UntrackedFits;
      while |unlinked| > 0
        invariant Valid() && forest.kids[root] == [] && forest.kids.Keys <= old(forest).kids.Keys
        decreases |unlinked|
      {
        SameKeys(forest);
        UnlinkedIsOrphan(unlinked, forest, root);
        DeleteNodeOf(unlinked[0]);
      }
    }

    lemma FirstChildIs(self: XMLNode)
      requires Shape() && self in forest.kids
      ensures self.firstChild == null <==> forest.kids[self] == []
      ensures self.firstChild != null ==> self.firstChild in forest.kids && self.firstChild.parent == self
    {
      hide Fits;
      var cs := forest.kids[self];
      assert Chain(self, cs);
      if cs != [] {
        assert Placed(self, cs, 0) && cs[0] in cs;
      }
    }

    lemma FreedIsChained(n: XMLNode)
      requires Shape() && n in forest.kids && forest.kids[n] == [] && forest.parents[n] == null
      ensures AllChained(Freed(forest, n).kids)
      ensures Freed(forest, n).kids.Keys == forest.kids.Keys - {n}
      ensures Freed(forest, n).parents == forest.parents - {n}
    {
      hide Fits, Chain;
      OnlyAtHome(forest, n);
    }

    /** The successor of a child is the next one of its parent's list. */
    lemma NextInList(self: XMLNode, child: XMLNode) returns (i: nat)
      requires Shape() && child in forest.kids && child.parent == self
      ensures self in forest.kids && i < |forest.kids[self]| && forest.kids[self][i] == child
      ensures child.next == null <==> i + 1 == |forest.kids[self]|
      ensures child.next == null <==> forest.kids[self][|forest.kids[self]| - 1] == child
    {
      hide UpFits, ListFits;
      UpKeys(forest.up, forest.parents);
      var cs := forest.kids[self];
      i :| 0 <= i < |cs| && cs[i] == child;
      assert Chain(self, cs) && Placed(self, cs, i);
    }
  }

  /** A list without a node that was in it. */
  lemma OffTheList(s: seq<XMLNode>, t: seq<XMLNode>, nodes: set<XMLNode>, n: XMLNode)
    requires Lists(s, nodes) && Lists(t, nodes - {n}) && n in nodes
    ensures n in s && n !in t && (forall m :: m in t ==> m in s) && (forall m :: m in s && m != n ==> m in t)
  {
  }

  lemma OnTheList(s: seq<XMLNode>, t: seq<XMLNode>, nodes: set<XMLNode>)
    requires Lists(s, nodes) && Lists(t, nodes)
    ensures forall n :: n in s <==> n in t
  {
  }

  /** The counters of a document without nodes. */
  lemma ClearedCounts(root: XMLNode, current: PerPool, untracked: PerPool, leaked: multiset<Pool>)
    requires root.item.DocumentItem? && CurrentFits(current, {root}) && UntrackedFits(untracked, leaked, [])
    ensures forall p: Pool :: Of(current, p) == 0 && Of(untracked, p) == leaked[p]
  {
    hide Slots, Waiting;
    forall p: Pool
      ensures Slots({root}, p) == {} && Waiting([], p) == {}
    {
      NothingUsed(root, p);
    }
  }

  lemma NothingCounted(root: XMLNode, current: PerPool, untracked: PerPool, leaked: multiset<Pool>)
    requires root.item.DocumentItem? && forall p: Pool :: Of(current, p) == 0 && Of(untracked, p) == leaked[p]
    ensures CurrentFits(current, {root}) && UntrackedFits(untracked, leaked, [])
  {
    hide Slots, Waiting;
    forall p: Pool
      ensures Slots({root}, p) == {} && Waiting([], p) == {}
    {
      NothingUsed(root, p);
    }
  }

  predicate EndsWith(cs: seq<XMLNode>, a: XMLNode, b: XMLNode) {
    |cs| >= 2 && cs[|cs| - 2] == a && cs[|cs| - 1] == b
  }

  lemma NoEnd(f: Forest, p: XMLNode, a: XMLNode, n: XMLNode)
    requires Fits(f) && p in f.kids && (a in f.kids ==> f.parents[a] != p || a == n)
    ensures !EndsWith(f.kids[p], a, n)
  {
    assert ListFits(f, p);
  }

  /** A child with a successor becomes the last child when `n` is cut exactly if `n` was its successor, and last. */
  lemma AfterTheCut(f: Forest, p: XMLNode, i: nat, n: XMLNode)
    requires Fits(f) && p in f.kids && n in f.kids && i < |f.kids[p]| && f.kids[p][i] != n
    ensures p in Cut(f, n).kids && f.kids[p][i] in Cut(f, n).kids[p]
    ensures f.kids[p][i] in Cut(f, n).parents && Cut(f, n).parents[f.kids[p][i]] == p
    ensures i + 1 == |f.kids[p]| ==> !EndsWith(f.kids[p], f.kids[p][i], n)
    ensures i + 1 == |f.kids[p]| ==> Cut(f, n).kids[p][|Cut(f, n).kids[p]| - 1] == f.kids[p][i]
    ensures i + 1 < |f.kids[p]| ==>
      (EndsWith(f.kids[p], f.kids[p][i], n) <==> Cut(f, n).kids[p][|Cut(f, n).kids[p]| - 1] == f.kids[p][i])
  {
    hide UpFits, Detached, Drop;
    var cs := f.kids[p];
    assert ListFits(f, p);
    if f.parents[n] == p {
      var k :| 0 <= k < |cs| && cs[k] == n;
      DropAt(f, n, k);
      assert Without(cs, k)[if i < k then i else i - 1] == cs[i];
    }
  }

  /** A node without a parent becomes the last child. */
  lemma MovedToEnd(f: Forest, n: XMLNode, p: XMLNode)
    requires Fits(f) && n in f.kids && p in f.kids && n != p && f.parents[n] == null && f.parents[p] == null
    ensures Cut(f, n) == f && !Within(f.up, n, p)
    ensures var g := Moved(f, n, p, |f.kids[p]|);
      && g.kids == f.kids[p := f.kids[p] + [n]] && g.parents == f.parents[n := p]
  {
    hide ListFits, Attached;
    SameKeys(f);
    assert Inserted(f.kids[p], |f.kids[p]|, n) == f.kids[p] + [n];
  }

  /** Two children, and the second one inserted after the first: InsertAfterChild follows a null pointer. */
  method InsertLastAfterFirst(id: nat, item: Item) returns (fault: bool)
    requires !item.DocumentItem?
    ensures fault
  {
    hide Fits, DocumentTree.Shape, DocumentTree.Owned, DocumentTree.Counted, Within;
    var doc := new DocumentTree(id);
    var a := AddLast(doc, item);
    var b := AddLast(doc, item);
    assert doc.forest.kids[doc.root] == [a, b];
    OneInside(doc, a);
    OneInside(doc, b);
    var r;
    ghost var k;
    r, fault, k := doc.InsertAfterChild(doc.root, a, b);
  }

  /** A node of the document may be inserted into the document. */
  lemma OneInside(doc: DocumentTree, n: XMLNode)
    requires doc.Shape() && n in doc.forest.kids && n != doc.root
    ensures doc.Insertable(doc.root, n)
  {
    hide ListFits;
  }

  /** A new node as the last child of the document. */
  method AddLast(doc: DocumentTree, item: Item) returns (n: XMLNode)
    requires doc.Valid() && !item.DocumentItem?
    modifies doc, doc.forest.kids.Keys
    ensures doc.Valid() && fresh(n) && n.document == doc.id && n in doc.forest.kids && n != doc.root
    ensures doc.root in old(doc.forest.kids)
    ensures doc.forest.kids == old(doc.forest.kids)[n := []][doc.root := old(doc.forest.kids[doc.root]) + [n]]
  {
    hide Fits, Moved, Cut, Within, DocumentTree.Owned, DocumentTree.Counted, ListFits;
    doc.Known();
    n := doc.CreateUnlinkedNode(item);
    doc.Known();
    MovedToEnd(doc.forest, n, doc.root);
    var r := doc.InsertEndChild(doc.root, n);
  }

  /** The live nodes without a parent, other than the document. */
  ghost function Parentless(f: Forest, root: XMLNode): set<XMLNode> {
    set n | n in f.parents && f.parents[n] == null && n != root
  }

  /** `s` holds exactly `nodes`, once each. */
  ghost predicate Lists(s: seq<XMLNode>, nodes: set<XMLNode>) {
    Distinct(s) && (forall n :: n in s ==> n in nodes) && (forall n :: n in nodes ==> n in s)
  }

  lemma CutOrphans(f: Forest, n: XMLNode, root: XMLNode)
    requires Fits(f) && n in f.kids && n != root
    ensures Cut(f, n).kids.Keys == f.kids.Keys
    ensures f.parents[n] == null ==> Cut(f, n) == f && n in Parentless(f, root)
    ensures f.parents[n] != null ==>
      n !in Parentless(f, root) && Parentless(Cut(f, n), root) == Parentless(f, root) + {n}
  {
    hide UpFits, ListFits, Drop, Detached;
    UpKeys(f.up, f.parents);
  }

  lemma GraftLists(f: Forest, n: XMLNode, p: XMLNode, k: nat, root: XMLNode)
    requires Fits(f) && n in f.kids && p in f.kids && k <= |f.kids[p]|
    ensures p in f.up && Graft(f, n, p, k).kids == f.kids[p := Inserted(f.kids[p], k, n)]
    ensures Graft(f, n, p, k).parents == f.parents[n := p] && Graft(f, n, p, k).kids.Keys == f.kids.Keys
    ensures Parentless(Graft(f, n, p, k), root) - {} == Parentless(f, root) - {n}
  {
    hide UpFits, ListFits, Inserted, Attached;
    UpKeys(f.up, f.parents);
  }

  lemma SwapRemoveLists(s: seq<XMLNode>, i: nat, nodes: set<XMLNode>)
    requires Lists(s, nodes) && i < |s|
    ensures Lists(SwapRemoved(s, i), nodes - {s[i]}) && s[i] in nodes
  {
    var t := SwapRemoved(s, i);
    assert forall j :: 0 <= j < |t| ==> t[j] == s[if j == i then |s| - 1 else j];
    forall n | n in nodes - {s[i]}
      ensures n in t
    {
      var j :| 0 <= j < |s| && s[j] == n;
      assert t[if j == |s| - 1 then i else j] == n;
    }
  }

  lemma OnlyAtHome(f: Forest, n: XMLNode)
    requires Fits(f) && n in f.kids
    ensures forall q :: q in f.kids && q != f.parents[n] ==> n !in f.kids[q]
  {
    hide UpFits, Distinct;
    forall q | q in f.kids && q != f.parents[n]
      ensures n !in f.kids[q]
    {
      assert ListFits(f, q);
    }
  }

  lemma DropAt(f: Forest, n: XMLNode, k: nat)
    requires Fits(f) && n in f.kids && f.parents[n] != null
    requires f.parents[n] in f.kids && k < |f.kids[f.parents[n]]| && f.kids[f.parents[n]][k] == n
    ensures Drop(f.kids[f.parents[n]], n) == Without(f.kids[f.parents[n]], k)
  {
    assert ListFits(f, f.parents[n]);
    DropIsWithout(f.kids[f.parents[n]], k);
  }
}
