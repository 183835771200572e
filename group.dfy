/** The arithmetic the multi-exponentiation algorithms borrow from the curve
    library: a group element type with Identity, Double, Add and Times, and an
    arbitrary-precision non-negative scalar with bit length and bit access.

    A group element is modelled as an integer under addition. Every fact the
    algorithms rely on is a linear identity (distributivity of Times over a sum
    of scalars, Identity as the neutral element), so what is proved here for
    (int, +) holds in every abelian group. */
module Group {

  type Elem = int

  const Identity: Elem := 0

  /** `r.Double()`: the element added to itself. */
  function Double(g: Elem): Elem { g + g }

  /** `GT::Add` and `r.Add`. */
  function Add(g: Elem, h: Elem): Elem { g + h }

  /** `GT::Times`: scalar multiplication by a non-negative scalar. */
  function Times(g: Elem, k: nat): Elem { g * k }

  /** The scalar shifted right by j bits, one halving per bit. */
  function Shift(x: nat, j: nat): nat
  {
    if j == 0 then x else Shift(x / 2, j - 1)
  }

  /** `BNT::getBits()`: the number of binary digits, 0 for the scalar 0. */
  function BitLength(x: nat): nat
  {
    if x == 0 then 0 else 1 + BitLength(x / 2)
  }

  /** `BNT::getBit(j)`: bit j, 0 being the least significant. */
  predicate Bit(x: nat, j: nat)
  {
    Shift(x, j) % 2 == 1
  }

  /** Euclidean division has one quotient and one remainder. */
  lemma DivUnique(x: int, d: int, q: int, r: int)
    requires d > 0 && 0 <= r < d && x == q * d + r
    ensures x / d == q && x % d == r
  {
    var k := q - x / d;
    assert k * d == x % d - r;
  }

  /** Shifting by one more bit halves the shifted scalar. */
  lemma {:induction false} ShiftHalf(x: nat, j: nat)
    ensures Shift(x, j + 1) == Shift(x, j) / 2
  {
    if j > 0 {
      ShiftHalf(x / 2, j - 1);
    }
  }

  /** The step of binary Horner evaluation: shifting x right by j bits is
      doubling its shift by j + 1 bits and adding bit j. */
  lemma HalveShift(x: nat, j: nat)
    ensures Shift(x, j) == 2 * Shift(x, j + 1) + (if Bit(x, j) then 1 else 0)
  {
    ShiftHalf(x, j);
  }

  /** Times distributes over the Horner step, so one doubling and one
      conditional Add of g advance Times(g, .) by one bit. */
  lemma TimesShift(g: Elem, x: nat, j: nat)
    ensures Times(g, Shift(x, j))
         == Add(Double(Times(g, Shift(x, j + 1))), if Bit(x, j) then g else Identity)
  {
    HalveShift(x, j);
    var z := Shift(x, j + 1);
    if Bit(x, j) {
      assert g * (2 * z + 1) == 2 * (g * z) + g;
    } else {
      assert g * (2 * z) == 2 * (g * z);
    }
  }

  /** A scalar of at most m bits shifted right by m bits is 0. */
  lemma {:induction false} ShiftPastWidth(x: nat, m: nat)
    requires BitLength(x) <= m
    ensures Shift(x, m) == 0
  {
    if m > 0 {
      ShiftPastWidth(x / 2, m - 1);
    }
  }

  /** The quotient of a remainder by its own divisor is 0. */
  lemma RemainderQuotient(x: nat, d: nat)
    requires d > 0
    ensures (x % d) / d == 0
  {
    DivUnique(x % d, d, 0, x % d);
  }

  /** One Euclidean step moves weight between two terms without changing
      their sum: g·(x mod d) + (g·(x div d) + h)·d = g·x + h·d. */
  lemma FoldQuotient(g: Elem, h: Elem, x: nat, d: nat)
    requires d > 0
    ensures Add(Times(g, x % d), Times(Add(Times(g, x / d), h), d)) == Add(Times(g, x), Times(h, d))
  {
    var q, r := x / d, x % d;
    assert x == q * d + r;
    assert g * x == g * (q * d) + g * r;
    assert (g * q + h) * d == g * (q * d) + h * d;
  }
}
