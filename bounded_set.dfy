/**
 * A set that never holds more elements than its capacity (SetWithCapacity in
 * src/bounded_set.rs). The Rust type wraps a HashSet; iterating that HashSet
 * yields its elements in an order the program does not control, which is
 * modelled here by `Enumerate`, a method that lists a set in an arbitrary order.
 */
module BoundedSet {
  import opened Collections

  datatype Option<T> = None | Some(value: T)

  /** A value copy of a bounded set: what cloning one yields. */
  datatype SetValue<E(==)> = SetValue(capacity: nat, elements: set<E>)

  /**
   * `r` holds as many members of `p` as a set of at most `capacity` elements can:
   * all of them when they fit, otherwise `capacity` of them.
   */
  ghost predicate KeepsMost<E>(r: set<E>, capacity: nat, p: set<E>)
  {
    |r * p| == Min(capacity, |p|)
  }

  /**
   * `r` is a possible result of filling an empty set of the given capacity, in
   * this order, with the members of `toMerge`, then the members of `current`
   * outside `dropPriority`, then the members of `current` inside it, stopping
   * once the set is full.
   */
  ghost predicate IsBoundedUnion<E>(r: set<E>, capacity: nat, current: set<E>, toMerge: set<E>, dropPriority: set<E>)
  {
    && r <= toMerge + current
    && KeepsMost(r, capacity, toMerge)
    && KeepsMost(r, capacity, toMerge + (current - dropPriority))
    && KeepsMost(r, capacity, toMerge + current)
  }

  /** Lists the members of `s` once each, in an order the caller does not control. */
  method Enumerate<E(==)>(s: set<E>) returns (xs: seq<E>)
    ensures Elems(xs) == s
    ensures Distinct(xs)
    ensures |xs| == |s|
  {
    xs := [];
    var rest := s;
    while rest != {}
      invariant Elems(xs) + rest == s
      invariant Elems(xs) !! rest
      invariant Distinct(xs)
      invariant |xs| + |rest| == |s|
      decreases |rest|
    {
      var x :| x in rest;
      DistinctSnoc(xs, x);
      assert (Elems(xs) + {x}) + (rest - {x}) == s;
      xs := xs + [x];
      rest := rest - {x};
    }
  }

  /**
   * Filling a set front to back from `xs`, stopping once `capacity` is reached,
   * keeps as many members of every prefix of `xs` as fit.
   */
  lemma PrefixFillKeepsMost<E>(xs: seq<E>, k: nat, b: nat, capacity: nat)
    requires k <= |xs| && b <= |xs|
    requires |Elems(xs[..k])| <= capacity
    requires k == |xs| || |Elems(xs[..k])| == capacity
    ensures KeepsMost(Elems(xs[..k]), capacity, Elems(xs[..b]))
  {
    var r, p := Elems(xs[..k]), Elems(xs[..b]);
    if k <= b {
      ElemsPrefixGrows(xs, k, b);
      assert r * p == r;
      SubsetCard(r, p);
      if k == |xs| {
        assert xs[..k] == xs[..b];
      }
    } else {
      ElemsPrefixGrows(xs, b, k);
      assert r * p == p;
      SubsetCard(p, r);
    }
  }

  class SetWithCapacity<E(==)> {
    var capacity: nat
    var wraps: set<E>

    /** The size bound every operation keeps. */
    ghost predicate Valid()
      reads this
    {
      |wraps| <= capacity
    }

    /** An empty set with the given capacity. */
    constructor New(capacity: nat)
      ensures Valid()
      ensures this.capacity == capacity && wraps == {}
    {
      this.capacity := capacity;
      wraps := {};
    }

    /** The set holding just `singleton`; a capacity of 0 is a fatal error in the source. */
    constructor Single(capacity: nat, singleton: E)
      requires 1 <= capacity
      ensures Valid()
      ensures this.capacity == capacity && wraps == {singleton}
    {
      this.capacity := capacity;
      wraps := {singleton};
    }

    /** A set with initial members `wraps`; more members than `capacity` is a fatal error in the source. */
    constructor Init(capacity: nat, wraps: set<E>)
      requires |wraps| <= capacity
      ensures Valid()
      ensures this.capacity == capacity && this.wraps == wraps
    {
      this.capacity := capacity;
      this.wraps := wraps;
    }

    /** A value copy of the current state. */
    function Cloned(): (v: SetValue<E>)
      reads this
      ensures v.capacity == capacity && v.elements == wraps
    {
      SetValue(capacity, wraps)
    }

    /** Full means there is no room left: every further insert is refused. */
    function IsFull(): (full: bool)
      reads this
      requires Valid()
      ensures full <==> |wraps| >= capacity
    {
      capacity == |wraps|
    }

    function Contains(elem: E): (present: bool)
      reads this
      ensures present <==> elem in wraps
    {
      elem in wraps
    }

    function Len(): (n: nat)
      reads this
      requires Valid()
      ensures n == |wraps| && n <= capacity
    {
      |wraps|
    }

    /** The first member in iteration order, if there is one. */
    method SampleOne() returns (r: Option<E>)
      ensures r.None? <==> wraps == {}
      ensures r.Some? ==> r.value in wraps
      ensures |wraps| == 1 ==> r.Some? && wraps == {r.value}
    {
      var order := Enumerate(wraps);
      if |order| == 0 {
        r := None;
      } else {
        r := Some(order[0]);
        if |wraps| == 1 {
          assert wraps - {order[0]} == {};
        }
      }
    }

    /** The first `maxSize` members in iteration order. */
    method Sample(maxSize: nat) returns (s: set<E>)
      ensures s <= wraps
      ensures |s| == Min(maxSize, |wraps|)
    {
      var order := Enumerate(wraps);
      var taken := order[..Min(maxSize, |order|)];
      assert Distinct(taken);
      DistinctCard(taken);
      ElemsPrefixGrows(order, |taken|, |order|);
      assert order[..|order|] == order;
      s := Elems(taken);
    }

    /** Adds `elem` when there is room; the result says whether the set grew. */
    method Insert(elem: E) returns (inserted: bool)
      requires Valid()
      modifies this
      ensures Valid() && capacity == old(capacity)
      ensures old(|wraps|) < capacity ==> wraps == old(wraps) + {elem} && (inserted <==> elem !in old(wraps))
      ensures old(|wraps|) >= capacity ==> wraps == old(wraps) && !inserted
      ensures |wraps| == old(|wraps|) + (if inserted then 1 else 0)
    {
      if capacity > |wraps| {
        inserted := elem !in wraps;
        if inserted {
          assert |wraps + {elem}| == |wraps| + 1;
        } else {
          assert wraps + {elem} == wraps;
        }
        wraps := wraps + {elem};
      } else {
        inserted := false;
      }
    }

    /** Takes `elem` out; the result says whether it was there. */
    method Remove(elem: E) returns (removed: bool)
      requires Valid()
      modifies this
      ensures Valid() && capacity == old(capacity)
      ensures removed <==> elem in old(wraps)
      ensures wraps == old(wraps) - {elem}
      ensures |wraps| == old(|wraps|) - (if removed then 1 else 0)
    {
      removed := elem in wraps;
      wraps := wraps - {elem};
    }

    /**
     * Rebuilds the set from `toMerge`, then the old members outside
     * `dropPriority`, then the old members inside it, stopping when full.
     */
    method BoundedUnion(toMerge: set<E>, dropPriority: set<E>)
      requires Valid()
      modifies this
      ensures Valid() && capacity == old(capacity)
      ensures IsBoundedUnion(wraps, capacity, old(wraps), toMerge, dropPriority)
    {
      var replacement := wraps;
      wraps := {};
      var merged := Enumerate(toMerge);
      var kept := Enumerate(replacement - dropPriority);
      var dropped := Enumerate(dropPriority * replacement);
      var iter := merged + kept + dropped;
      ChainedPrefixes(merged, kept, dropped, replacement, toMerge, dropPriority);
      for k := 0 to |iter|
        invariant capacity == old(capacity)
        invariant wraps == Elems(iter[..k])
        invariant |wraps| <= capacity
      {
        if capacity > |wraps| {
          ElemsSnoc(iter, k);
          wraps := wraps + {iter[k]};
        } else {
          ChainedFillIsBoundedUnion(iter, k, |merged|, |merged| + |kept|, capacity, replacement, toMerge, dropPriority);
          return;
        }
      }
      ChainedFillIsBoundedUnion(iter, |iter|, |merged|, |merged| + |kept|, capacity, replacement, toMerge, dropPriority);
    }
  }

  /** The three enumerations chained in fill order cover the three fill-order prefixes. */
  lemma ChainedPrefixes<E>(merged: seq<E>, kept: seq<E>, dropped: seq<E>, current: set<E>, toMerge: set<E>, dropPriority: set<E>)
    requires Elems(merged) == toMerge
    requires Elems(kept) == current - dropPriority
    requires Elems(dropped) == dropPriority * current
    ensures Elems((merged + kept + dropped)[..|merged|]) == toMerge
    ensures Elems((merged + kept + dropped)[..|merged| + |kept|]) == toMerge + (current - dropPriority)
    ensures Elems(merged + kept + dropped) == toMerge + current
  {
    var iter := merged + kept + dropped;
    assert iter[..|merged|] == merged;
    assert iter[..|merged| + |kept|] == merged + kept;
    ElemsConcat(merged + kept, dropped);
    ElemsConcat(merged, kept);
  }

  /**
   * Stopping a front-to-back fill of the chained enumeration when the set is
   * full, or at its end, yields a bounded union.
   */
  lemma ChainedFillIsBoundedUnion<E>(iter: seq<E>, k: nat, b1: nat, b2: nat, capacity: nat, current: set<E>, toMerge: set<E>, dropPriority: set<E>)
    requires k <= |iter| && b1 <= |iter| && b2 <= |iter|
    requires Elems(iter[..b1]) == toMerge
    requires Elems(iter[..b2]) == toMerge + (current - dropPriority)
    requires Elems(iter) == toMerge + current
    requires |Elems(iter[..k])| <= capacity
    requires k == |iter| || |Elems(iter[..k])| == capacity
    ensures IsBoundedUnion(Elems(iter[..k]), capacity, current, toMerge, dropPriority)
  {
    assert iter[..|iter|] == iter;
    PrefixFillKeepsMost(iter, k, b1, capacity);
    PrefixFillKeepsMost(iter, k, b2, capacity);
    PrefixFillKeepsMost(iter, k, |iter|, capacity);
    ElemsPrefixGrows(iter, k, |iter|);
  }

  /** The union never exceeds the capacity and is as large as the capacity allows. */
  lemma BoundedUnionSize<E>(r: set<E>, capacity: nat, current: set<E>, toMerge: set<E>, dropPriority: set<E>)
    requires IsBoundedUnion(r, capacity, current, toMerge, dropPriority)
    ensures |r| == Min(capacity, |toMerge + current|)
    ensures |r| <= capacity
  {
    assert r * (toMerge + current) == r;
  }

  /** When `toMerge` fits, all of it is present afterwards. */
  lemma BoundedUnionKeepsMerge<E>(r: set<E>, capacity: nat, current: set<E>, toMerge: set<E>, dropPriority: set<E>)
    requires IsBoundedUnion(r, capacity, current, toMerge, dropPriority)
    requires |toMerge| <= capacity
    ensures toMerge <= r
  {
    SubsetCard(r * toMerge, toMerge);
  }

  /** When `toMerge` alone fills the capacity, no old member survives that is not also in it. */
  lemma BoundedUnionPrefersMerge<E>(r: set<E>, capacity: nat, current: set<E>, toMerge: set<E>, dropPriority: set<E>)
    requires IsBoundedUnion(r, capacity, current, toMerge, dropPriority)
    requires capacity <= |toMerge|
    ensures r <= toMerge
  {
    SubsetCard(toMerge, toMerge + current);
    BoundedUnionSize(r, capacity, current, toMerge, dropPriority);
    SubsetCard(r * toMerge, r);
  }

  /** When everything fits, the result is the plain union. */
  lemma BoundedUnionFits<E>(r: set<E>, capacity: nat, current: set<E>, toMerge: set<E>, dropPriority: set<E>)
    requires IsBoundedUnion(r, capacity, current, toMerge, dropPriority)
    requires |toMerge + current| <= capacity
    ensures r == toMerge + current
  {
    BoundedUnionSize(r, capacity, current, toMerge, dropPriority);
    SubsetCard(r, toMerge + current);
  }

  /**
   * Drop priority: an old member marked for dropping (and not re-merged) only
   * survives when every unmarked old member survived too.
   */
  lemma BoundedUnionDropPriority<E>(r: set<E>, capacity: nat, current: set<E>, toMerge: set<E>, dropPriority: set<E>, x: E)
    requires IsBoundedUnion(r, capacity, current, toMerge, dropPriority)
    requires x in r && x in current && x in dropPriority && x !in toMerge
    ensures current - dropPriority <= r
  {
    var preferred := toMerge + (current - dropPriority);
    BoundedUnionSize(r, capacity, current, toMerge, dropPriority);
    assert x in r && x !in r * preferred;
    SubsetCard(r * preferred, r);
    SubsetCard(r * preferred, preferred);
  }

  /** With capacity 1, old {1}, merging {2} while marking 1 for dropping leaves {2}. */
  lemma BoundedUnionDropPriorityExample(r: set<int>)
    requires IsBoundedUnion(r, 1, {1}, {2}, {1})
    ensures r == {2}
  {
    BoundedUnionKeepsMerge(r, 1, {1}, {2}, {1});
    BoundedUnionSize(r, 1, {1}, {2}, {1});
    SubsetCard({2}, r);
  }

  /** With room to spare, merging {2} into {1} keeps both. */
  lemma BoundedUnionExample(r: set<int>)
    requires IsBoundedUnion(r, 10, {1}, {2}, {})
    ensures 1 in r && 2 in r
  {
    BoundedUnionFits(r, 10, {1}, {2}, {});
  }
}
