/** Small facts about finite sets and sequences that the bounded-set model relies on. */
module Collections {

  function Min(a: nat, b: nat): nat
  {
    if a <= b then a else b
  }

  /** The set of elements that occur in a sequence. */
  function Elems<E(==)>(xs: seq<E>): set<E>
  {
    set x | x in xs
  }

  /** No element occurs twice in `xs`. */
  predicate Distinct<E(==)>(xs: seq<E>)
  {
    forall i, j :: 0 <= i < j < |xs| ==> xs[i] != xs[j]
  }

  /** A subset is no larger than its superset, and equally large only when they coincide. */
  lemma SubsetCard<E>(a: set<E>, b: set<E>)
    requires a <= b
    ensures |a| <= |b|
    ensures |a| == |b| ==> a == b
  {
    assert b == a + (b - a);
    assert a !! (b - a);
    if |a| == |b| {
      assert |b - a| == 0;
      assert b - a == {};
    }
  }

  /** A sequence without repetitions has as many distinct elements as it has positions. */
  lemma {:induction false} DistinctCard<E>(xs: seq<E>)
    requires Distinct(xs)
    ensures |Elems(xs)| == |xs|
  {
    if xs != [] {
      var tail := xs[1..];
      assert Distinct(tail) by {
        forall i, j | 0 <= i < j < |tail| ensures tail[i] != tail[j] {
          assert tail[i] == xs[i + 1] && tail[j] == xs[j + 1];
        }
      }
      DistinctCard(tail);
      assert Elems(xs) == {xs[0]} + Elems(tail) by {
        assert xs == [xs[0]] + tail;
      }
      assert xs[0] !in Elems(tail);
    }
  }

  /** The elements of a concatenation are those of its parts. */
  lemma ElemsConcat<E>(xs: seq<E>, ys: seq<E>)
    ensures Elems(xs + ys) == Elems(xs) + Elems(ys)
  {
    forall x | x in Elems(xs + ys) ensures x in Elems(xs) + Elems(ys) {
      var k :| 0 <= k < |xs + ys| && (xs + ys)[k] == x;
      if k >= |xs| {
        assert ys[k - |xs|] == x;
      }
    }
  }

  /** Appending an element not yet present keeps a sequence free of repetitions. */
  lemma DistinctSnoc<E>(xs: seq<E>, x: E)
    requires Distinct(xs) && x !in Elems(xs)
    ensures Distinct(xs + [x])
    ensures Elems(xs + [x]) == Elems(xs) + {x}
  {
    ElemsConcat(xs, [x]);
    assert Elems([x]) == {x};
  }

  /** Growing a prefix by one position adds exactly the element at that position. */
  lemma ElemsSnoc<E>(xs: seq<E>, k: nat)
    requires k < |xs|
    ensures Elems(xs[..k + 1]) == Elems(xs[..k]) + {xs[k]}
  {
    assert xs[..k + 1] == xs[..k] + [xs[k]];
  }

  /** A longer prefix holds every element of a shorter one. */
  lemma ElemsPrefixGrows<E>(xs: seq<E>, i: nat, j: nat)
    requires i <= j <= |xs|
    ensures Elems(xs[..i]) <= Elems(xs[..j])
  {
    forall x | x in Elems(xs[..i]) ensures x in Elems(xs[..j]) {
      var k :| 0 <= k < i && xs[..i][k] == x;
      assert xs[..j][k] == x;
    }
  }
}
