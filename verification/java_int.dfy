/**
  Java `int` arithmetic on Dafny's unbounded integers: 32-bit two's-complement
  wrap-around, and the truncating `/` and `%` of the Java language (Dafny's own
  `/` and `%` are Euclidean, so the two disagree on negative operands).
*/
module JavaInt {

  const IntMin: int := -0x8000_0000
  const IntMax: int := 0x7FFF_FFFF
  const Modulus: int := 0x1_0000_0000

  /** `x` is representable as a Java `int`. */
  predicate IsInt(x: int) {
    IntMin <= x <= IntMax
  }

  /** The Java `int` an exact result wraps to: the unique 32-bit value congruent to `x`. */
  function Wrap(x: int): (r: int)
    ensures IsInt(r)
    ensures (r - x) % Modulus == 0
    ensures IsInt(x) ==> r == x
  {
    (x - IntMin) % Modulus + IntMin
  }

  /** Wrapping an intermediate result does not change a wrapped sum: Java's
      running `int` total equals the wrapped exact total. */
  lemma WrapAddLeft(a: int, b: int)
    ensures Wrap(Wrap(a) + b) == Wrap(a + b)
  {
  }

  function Abs(x: int): nat {
    if x < 0 then -x else x
  }

  /** `Math.abs` on an `int`: the negation wraps, so `Math.abs(Integer.MIN_VALUE)` is negative. */
  function JavaAbs(x: int): (r: int)
    requires IsInt(x)
    ensures IsInt(r)
    ensures x != IntMin ==> r == Abs(x)
    ensures x == IntMin ==> r == IntMin
  {
    if x < 0 then Wrap(-x) else x
  }

  /** Java's integer quotient on exact integers: rounds toward zero. */
  function Quot(a: int, b: int): (q: int)
    requires b != 0
    ensures Abs(q) == Abs(a) / Abs(b)
    ensures q != 0 ==> ((q < 0) <==> ((a < 0) != (b < 0)))
  {
    var n: nat, d: nat := Abs(a), Abs(b);
    var q0: int := n / d;
    assert 0 <= q0 by {
      assert q0 * d <= n;
    }
    if (a < 0) == (b < 0) then q0 else -q0
  }

  /** Java's `%`: the remainder of the truncating quotient, with the sign of the dividend. */
  function Rem(a: int, b: int): (r: int)
    requires b != 0
    ensures a == Quot(a, b) * b + r
    ensures Abs(r) < Abs(b)
    ensures r != 0 ==> (r < 0 <==> a < 0)
  {
    var m := Abs(a) % Abs(b);
    QuotRemSplit(a, b);
    if a < 0 then -m else m
  }

  lemma QuotRemSplit(a: int, b: int)
    requires b != 0
    ensures a == Quot(a, b) * b + (if a < 0 then -(Abs(a) % Abs(b)) else Abs(a) % Abs(b))
  {
    var n: int, d: int := Abs(a), Abs(b);
    var q0: int, m: int := n / d, n % d;
    assert n == q0 * d + m;
    var q := Quot(a, b);
    assert q * b == (if a < 0 then -(q0 * d) else q0 * d) by {
      SignedProduct(q0, d, (a < 0) != (b < 0), b < 0);
    }
  }

  /** The product of `q0` and `d`, each negated or not. */
  lemma SignedProduct(q0: int, d: int, negQ: bool, negD: bool)
    ensures (if negQ then -q0 else q0) * (if negD then -d else d)
         == (if negQ != negD then -(q0 * d) else q0 * d)
  {
  }

  /** The sign-normalised last decimal digit: `Math.abs(x % 10)` is `|x| mod 10`. */
  lemma AbsRemTen(x: int)
    ensures Abs(Rem(x, 10)) == Abs(x) % 10
  {
  }
}
