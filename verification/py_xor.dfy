/**
 * Python's `^` on `int`: bitwise exclusive or on unbounded two's-complement
 * integers. `hash()` returns such an integer, so the action hash is XOR over
 * Python ints. Halving with `/ 2` is floor division here, which is an
 * arithmetic right shift, and `% 2` is the low bit.
 */
module PyXor {
  import opened Folding

  function Abs(x: int): nat
  {
    if x < 0 then -x else x
  }

  /** `x` is all zero bits or all one bits. */
  predicate SignOnly(x: int)
  {
    x == 0 || x == -1
  }

  /** The low bit of `a ^ b`. */
  function LowBit(a: int, b: int): int
  {
    if a % 2 == b % 2 then 0 else 1
  }

  /** `a ^ b` on Python ints. */
  function Xor(a: int, b: int): int
    decreases Abs(a) + Abs(b)
  {
    if SignOnly(a) && SignOnly(b) then (if a == b then 0 else -1)
    else 2 * Xor(a / 2, b / 2) + LowBit(a, b)
  }

  /** The high bits of `a ^ b` are the XOR of the high bits, its low bit the XOR of the low bits. */
  lemma Split(a: int, b: int)
    ensures Xor(a, b) == 2 * Xor(a / 2, b / 2) + LowBit(a, b)
  {
    if SignOnly(a) && SignOnly(b) {
      assert a / 2 == a && b / 2 == b;
    }
  }

  lemma HalfOf(q: int, r: int)
    requires 0 <= r < 2
    ensures (2 * q + r) / 2 == q && (2 * q + r) % 2 == r
  {
  }

  /** Shifting `a ^ b` right gives the XOR of the shifted operands; its low bit is `LowBit(a, b)`. */
  lemma Halves(a: int, b: int)
    ensures Xor(a, b) / 2 == Xor(a / 2, b / 2)
    ensures Xor(a, b) % 2 == LowBit(a, b)
  {
    Split(a, b);
    HalfOf(Xor(a / 2, b / 2), LowBit(a, b));
  }

  lemma {:induction false} XorCommutes(a: int, b: int)
    ensures Xor(a, b) == Xor(b, a)
    decreases Abs(a) + Abs(b)
  {
    if !(SignOnly(a) && SignOnly(b)) {
      XorCommutes(a / 2, b / 2);
    }
  }

  lemma {:induction false} XorZero(a: int)
    ensures Xor(a, 0) == a
    decreases Abs(a)
  {
    if !SignOnly(a) {
      XorZero(a / 2);
    }
  }

  lemma {:induction false} XorSelf(a: int)
    ensures Xor(a, a) == 0
    decreases Abs(a)
  {
    if !SignOnly(a) {
      XorSelf(a / 2);
    }
  }

  lemma Shrinks(a: int, b: int, c: int)
    requires !(SignOnly(a) && SignOnly(b) && SignOnly(c))
    ensures Abs(a / 2) + Abs(b / 2) + Abs(c / 2) < Abs(a) + Abs(b) + Abs(c)
  {
  }

  lemma {:induction false} XorAssociates(a: int, b: int, c: int)
    ensures Xor(Xor(a, b), c) == Xor(a, Xor(b, c))
    decreases Abs(a) + Abs(b) + Abs(c)
  {
    if SignOnly(a) && SignOnly(b) && SignOnly(c) {
      assert SignOnly(Xor(a, b)) && SignOnly(Xor(b, c));
    } else {
      var ab, bc := Xor(a, b), Xor(b, c);
      Halves(a, b);
      Halves(b, c);
      Shrinks(a, b, c);
      XorAssociates(a / 2, b / 2, c / 2);
      Split(ab, c);
      Split(a, bc);
      assert LowBit(ab, c) == LowBit(a, bc);
    }
  }

  /** XOR with a fixed value is injective. */
  lemma XorCancels(c: int, x: int, y: int)
    ensures Xor(c, x) == Xor(c, y) <==> x == y
  {
    if Xor(c, x) == Xor(c, y) {
      calc {
        x;
        { XorZero(x); XorCommutes(x, 0); }
        Xor(0, x);
        { XorSelf(c); }
        Xor(Xor(c, c), x);
        { XorAssociates(c, c, x); }
        Xor(c, Xor(c, x));
        Xor(c, Xor(c, y));
        { XorAssociates(c, c, y); }
        Xor(Xor(c, c), y);
        { XorSelf(c); }
        Xor(0, y);
        { XorZero(y); XorCommutes(y, 0); }
        y;
      }
    }
  }

  /** `^` with 0 forms a commutative monoid, so XOR folds ignore order. */
  lemma XorMonoid()
    ensures CommutativeMonoid(Xor, 0)
  {
    forall a, b ensures Xor(a, b) == Xor(b, a) {
      XorCommutes(a, b);
    }
    forall a, b, c ensures Xor(Xor(a, b), c) == Xor(a, Xor(b, c)) {
      XorAssociates(a, b, c);
    }
    forall a ensures Xor(a, 0) == a {
      XorZero(a);
    }
  }
}
