/** The growable array (drivers/Mach3/tinyxml2.h:202-320). */
module DynArrays {

  const INITIAL_SIZE: nat := 10

  class DynArray<T(0)> {
    var mem: array<T>
    var capacity: nat
    var size: nat
    ghost var copied: nat
    ghost var peak: nat

    ghost predicate Valid()
      reads this
    {
      size <= capacity == mem.Length && INITIAL_SIZE <= capacity && size <= peak
    }

    /** What regrowth has cost and taken: no more elements copied than there is room for, and no more room than twice
        the largest size there has been. */
    ghost predicate Amortised()
      reads this
    {
      copied <= capacity && (capacity <= INITIAL_SIZE || capacity <= 2 * peak)
    }

    ghost function Contents(): seq<T>
      requires Valid()
      reads this, mem
    {
      mem[..size]
    }

    constructor ()
      ensures Valid() && Amortised() && Contents() == [] && fresh(mem)
    {
      mem := new T[INITIAL_SIZE];
      capacity, size, copied, peak := INITIAL_SIZE, 0, 0, 0;
    }

    method EnsureCapacity(cap: nat)
      requires Valid() && Amortised() && cap <= peak
      modifies this`mem, this`capacity, this`copied
      ensures Valid() && Amortised() && cap <= capacity && Contents() == old(Contents())
      ensures if cap <= old(capacity) then mem == old(mem) && copied == old(copied)
              else fresh(mem) && capacity == 2 * cap && copied == old(copied) + size
    {
      if cap > capacity {
        var newAllocated := cap * 2;
        var newMem := new T[newAllocated];
        CopyElements(mem, newMem, size);
        mem := newMem;
        capacity := newAllocated;
        copied := copied + size;
      }
    }

    method Push(t: T)
      requires Valid() && Amortised()
      modifies this, mem
      ensures Valid() && Amortised() && Contents() == old(Contents()) + [t] && (mem == old(mem) || fresh(mem))
    {
      peak := if peak < size + 1 then size + 1 else peak;
      EnsureCapacity(size + 1);
      mem[size] := t;
      size := size + 1;
    }

    /** Room for `count` more elements, to be written by the caller from `start` on. */
    method PushArr(count: nat) returns (start: nat)
      requires Valid() && Amortised()
      modifies this, mem
      ensures Valid() && Amortised() && start == old(size) && size == start + count
      ensures Contents()[..start] == old(Contents()) && (mem == old(mem) || fresh(mem))
    {
      peak := if peak < size + count then size + count else peak;
      EnsureCapacity(size + count);
      start := size;
      size := size + count;
      assert Contents()[..start] == mem[..start];
    }

    method Pop() returns (t: T)
      requires Valid() && size > 0
      modifies this`size
      ensures Valid() && Contents() + [t] == old(Contents())
    {
      size := size - 1;
      return mem[size];
    }

    method PopArr(count: nat)
      requires Valid() && count <= size
      modifies this`size
      ensures Valid() && Contents() == old(Contents())[..old(size) - count]
    {
      size := size - count;
    }

    /** The last element takes the place of the one removed. */
    method SwapRemove(i: nat)
      requires Valid() && i < size
      modifies this`size, mem
      ensures Valid() && Contents() == SwapRemoved(old(Contents()), i)
    {
      mem[i] := mem[size - 1];
      size := size - 1;
    }
  }

  /** memcpy of the first `n` elements. */
  method CopyElements<T>(source: array<T>, target: array<T>, n: nat)
    requires source != target && n <= source.Length && n <= target.Length
    modifies target
    ensures target[..n] == source[..n]
  {
    for i := 0 to n
      invariant target[..i] == source[..i]
    {
      target[i] := source[i];
    }
  }

  /** The last element moved to `i`. */
  function SwapRemoved<T>(s: seq<T>, i: nat): seq<T>
    requires i < |s|
  {
    s[i := s[|s| - 1]][..|s| - 1]
  }

  /** It takes out one element and keeps the rest, in whatever order. */
  lemma SwapRemoveIs<T>(s: seq<T>, i: nat)
    requires i < |s|
    ensures multiset(SwapRemoved(s, i)) == multiset(s) - multiset{s[i]}
  {
    var n := |s| - 1;
    if i == n {
      assert SwapRemoved(s, i) == s[..n] && s == s[..n] + [s[i]];
    } else {
      SwapRemovedParts(s, i);
      Exchanged(s[..i], s[i], s[i + 1..n], s[n]);
    }
  }

  lemma SwapRemovedParts<T>(s: seq<T>, i: nat)
    requires i < |s| - 1
    ensures var n := |s| - 1;
      SwapRemoved(s, i) == s[..i] + [s[n]] + s[i + 1..n] && s == s[..i] + [s[i]] + s[i + 1..n] + [s[n]]
  {
  }

  lemma Exchanged<T>(a: seq<T>, x: T, b: seq<T>, y: T)
    ensures multiset(a + [y] + b) == multiset(a + [x] + b + [y]) - multiset{x}
  {
    assert multiset(a + [x] + b + [y]) == multiset(a) + multiset{x} + multiset(b) + multiset{y};
    assert multiset(a + [y] + b) == multiset(a) + multiset{y} + multiset(b);
  }
}
