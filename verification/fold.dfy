/**
 * Folding a sequence with a commutative, associative operation. The result
 * does not depend on the order of the sequence, which is why XOR-folding
 * makes the action hash order-independent.
 */
module Folding {

  /** A commutative monoid: `op` is commutative and associative, `unit` its identity. */
  ghost predicate CommutativeMonoid<B(!new)>(op: (B, B) -> B, unit: B)
  {
    (forall a, b :: op(a, b) == op(b, a)) &&
    (forall a, b, c :: op(op(a, b), c) == op(a, op(b, c))) &&
    (forall a :: op(a, unit) == a)
  }

  /** `op` over `f` of every element, left to right, starting from `unit`. */
  function Fold<T, B>(op: (B, B) -> B, unit: B, f: T -> B, xs: seq<T>): B
  {
    if xs == [] then unit else op(Fold(op, unit, f, xs[..|xs| - 1]), f(xs[|xs| - 1]))
  }

  lemma Swap<B(!new)>(op: (B, B) -> B, unit: B, a: B, b: B, c: B)
    requires CommutativeMonoid(op, unit)
    ensures op(op(a, b), c) == op(op(a, c), b)
  {
    calc {
      op(op(a, b), c);
      op(a, op(b, c));
      { assert op(b, c) == op(c, b); }
      op(a, op(c, b));
      op(op(a, c), b);
    }
  }

  lemma {:induction false} FoldAppend<T, B(!new)>(op: (B, B) -> B, unit: B, f: T -> B, xs: seq<T>, ys: seq<T>)
    requires CommutativeMonoid(op, unit)
    ensures Fold(op, unit, f, xs + ys) == op(Fold(op, unit, f, xs), Fold(op, unit, f, ys))
    decreases |ys|
  {
    if ys == [] {
      assert xs + ys == xs;
    } else {
      var n := |ys|;
      assert (xs + ys)[..|xs + ys| - 1] == xs + ys[..n - 1];
      assert (xs + ys)[|xs + ys| - 1] == ys[n - 1];
      FoldAppend(op, unit, f, xs, ys[..n - 1]);
      var a, b, c := Fold(op, unit, f, xs), Fold(op, unit, f, ys[..n - 1]), f(ys[n - 1]);
      assert op(op(a, b), c) == op(a, op(b, c));
    }
  }

  /** Taking the last element off one sequence and one occurrence of it off a permutation. */
  lemma RemoveMatching<T>(xs: seq<T>, ys: seq<T>, j: nat)
    requires multiset(xs) == multiset(ys) && xs != []
    requires j < |ys| && ys[j] == xs[|xs| - 1]
    ensures multiset(xs[..|xs| - 1]) == multiset(ys[..j] + ys[j + 1..])
  {
    var x := xs[|xs| - 1];
    assert xs == xs[..|xs| - 1] + [x];
    assert ys == ys[..j] + [x] + ys[j + 1..];
    calc {
      multiset(xs[..|xs| - 1]);
      multiset(xs) - multiset{x};
      multiset(ys) - multiset{x};
      multiset(ys[..j]) + multiset(ys[j + 1..]);
      multiset(ys[..j] + ys[j + 1..]);
    }
  }

  /** Moving the element at `j` to the end is a permutation. */
  lemma MoveToEnd<T>(xs: seq<T>, j: nat)
    requires j < |xs|
    ensures multiset(xs) == multiset(xs[..j] + xs[j + 1..] + [xs[j]])
  {
    assert xs == xs[..j] + [xs[j]] + xs[j + 1..];
  }

  /** The fold of a permutation is the fold of the original. */
  lemma {:induction false} FoldPermutation<T, B(!new)>(op: (B, B) -> B, unit: B, f: T -> B, xs: seq<T>, ys: seq<T>)
    requires CommutativeMonoid(op, unit)
    requires multiset(xs) == multiset(ys)
    ensures Fold(op, unit, f, xs) == Fold(op, unit, f, ys)
    decreases |xs|
  {
    if xs == [] {
      assert |ys| == |multiset(ys)| == 0;
    } else {
      var n := |xs|;
      var x := xs[n - 1];
      assert x in multiset(ys);
      var j :| 0 <= j < |ys| && ys[j] == x;
      var before, after := ys[..j], ys[j + 1..];
      RemoveMatching(xs, ys, j);
      FoldPermutation(op, unit, f, xs[..n - 1], before + after);
      var b, a := Fold(op, unit, f, before), Fold(op, unit, f, after);
      assert Fold(op, unit, f, ys) == op(op(b, f(x)), a) by {
        assert ys == (before + [x]) + after;
        FoldAppend(op, unit, f, before + [x], after);
        FoldAppend(op, unit, f, before, [x]);
        assert [x][..0] == [];
        assert op(unit, f(x)) == f(x) by {
          assert op(unit, f(x)) == op(f(x), unit);
        }
      }
      FoldAppend(op, unit, f, before, after);
      Swap(op, unit, b, f(x), a);
    }
  }
}
