/** Machine words as natural numbers: wrap-around, bitwise operators, and what the
    kernel's mask tricks compute when the mask comes from a power of two. */
module Words {

  const TWO16: nat := 0x1_0000
  const TWO32: nat := 0x1_0000_0000
  const TWO64: nat := 0x1_0000_0000_0000_0000
  const UINT32_MAX: nat := TWO32 - 1
  const UINT64_MAX: nat := TWO64 - 1
  const FOUR_GIB: nat := TWO32

  /** The null pointer. */
  const NULL: nat := 0

  function U32(x: int): nat { x % TWO32 }

  function U64(x: int): nat { x % TWO64 }

  function Max(x: nat, y: nat): nat { if x < y then y else x }

  function Min(x: nat, y: nat): nat { if x < y then x else y }

  /** Bitwise and. */
  function And(x: nat, y: nat): nat {
    if x == 0 || y == 0 then 0
    else (if x % 2 == 1 && y % 2 == 1 then 1 else 0) + 2 * And(x / 2, y / 2)
  }

  /** Bitwise or. */
  function Or(x: nat, y: nat): nat {
    if x == 0 then y else if y == 0 then x
    else (if x % 2 == 1 || y % 2 == 1 then 1 else 0) + 2 * Or(x / 2, y / 2)
  }

  function Not32(x: nat): nat
    requires x < TWO32
  {
    TWO32 - 1 - x
  }

  function Not64(x: nat): nat
    requires x < TWO64
  {
    TWO64 - 1 - x
  }

  predicate IsPow2(a: nat) {
    a == 1 || (a > 1 && a % 2 == 0 && IsPow2(a / 2))
  }

  /** `(x + a - 1) & ~(a - 1)` on 64-bit words. */
  function AlignUp(x: nat, a: nat): nat
    requires 0 < a < TWO64
  {
    And(U64(x + a - 1), Not64(a - 1))
  }

  // ---- division ----

  lemma QuotientOrder(q: nat, d: nat, r: nat, q': nat, r': nat)
    requires d > 0 && r < d && r' < d && q * d + r == q' * d + r'
    ensures q <= q'
  {
    if q' < q { MulMonotone(q' + 1, q, d); }
  }

  lemma DivModUnique(x: nat, d: nat, q: nat, r: nat)
    requires d > 0 && r < d && x == q * d + r
    ensures x / d == q && x % d == r
  {
    var q', r' := x / d, x % d;
    QuotientOrder(q, d, r, q', r');
    QuotientOrder(q', d, r', q, r);
  }

  lemma MulMonotone(x: int, y: int, d: nat)
    requires x <= y
    ensures x * d <= y * d
  {
  }

  lemma DivParts(x: nat, d: nat)
    requires d > 0
    ensures x / d >= 0 && 0 <= x % d < d && x == x / d * d + x % d
  {
  }

  /** Two multiples of `d` that differ by less than `d` are equal. */
  lemma MultiplesApart(x: nat, y: nat, d: nat)
    requires d > 0 && x % d == 0 && y % d == 0 && x < y
    ensures x + d <= y
  {
    var p, q := x / d, y / d;
    assert x == p * d && y == q * d;
    if q <= p {
      MulMonotone(q, p, d);
    } else {
      MulMonotone(p + 1, q, d);
    }
  }

  lemma RemainderSmall(x: nat, d: nat)
    requires x < d
    ensures x % d == x
  {
    DivModUnique(x, d, 0, x);
  }

  lemma RemainderBelow(x: nat, d: nat)
    requires d > 0
    ensures x % d <= x
  {
    assert x == x / d * d + x % d;
    MulMonotone(0, x / d, d);
  }

  /** Dropping the remainder leaves a multiple. */
  lemma RoundDown(x: nat, d: nat)
    requires d > 0
    ensures (x - x % d) % d == 0 && x - x % d + d > x
  {
    DivModUnique(x - x % d, d, x / d, 0);
  }

  lemma HalveMod(x: nat, a: nat)
    requires a > 0
    ensures x % (2 * a) == x % 2 + 2 * (x / 2 % a)
  {
    var q, r := x / 2 / a, x / 2 % a;
    assert x / 2 == q * a + r;
    DivModUnique(x, 2 * a, q, x % 2 + 2 * r);
  }

  // ---- masks ----

  lemma {:induction false} AndSelf(x: nat)
    ensures And(x, x) == x
  {
    if x > 0 { AndSelf(x / 2); }
  }

  lemma AndEven(x: nat, y: nat)
    ensures And(x, 2 * y) == 2 * And(x / 2, y)
  {
    assert 2 * y / 2 == y;
  }

  /** `x & (a - 1)` is the remainder of a power of two. */
  lemma {:induction false} AndLowMask(x: nat, a: nat)
    requires IsPow2(a)
    ensures And(x, a - 1) == x % a
  {
    if a == 1 || x == 0 {
    } else {
      AndLowMask(x / 2, a / 2);
      HalveMod(x, a / 2);
      assert (a - 1) / 2 == a / 2 - 1 && (a - 1) % 2 == 1;
    }
  }

  /** Clearing the low bits inside a word of `m` values rounds down to a multiple of `a`. */
  lemma {:induction false} AndHighMask(x: nat, a: nat, m: nat)
    requires IsPow2(a) && IsPow2(m) && a <= m && x < m
    ensures And(x, m - a) == x - x % a
  {
    if a == 1 {
      AndLowMask(x, m);
      RemainderSmall(x, m);
    } else if a == m {
      RemainderSmall(x, m);
    } else {
      var h, n := a / 2, m / 2;
      AndHighMask(x / 2, h, n);
      HalveMod(x, h);
      AndEven(x, n - h);
      calc {
        And(x, m - a);
        { assert m - a == 2 * (n - h); }
        2 * And(x / 2, n - h);
        2 * (x / 2 - x / 2 % h);
        { assert x == 2 * (x / 2) + x % 2; }
        x - (x % 2 + 2 * (x / 2 % h));
        { assert a == 2 * h; }
        x - x % a;
      }
    }
  }

  /** Words without a common bit: or is addition. */
  lemma {:induction false} OrDisjoint(x: nat, y: nat, m: nat)
    requires IsPow2(m) && x < m && y % m == 0
    ensures Or(x, y) == x + y && Or(y, x) == x + y
  {
    if m > 1 && x > 0 && y > 0 {
      HalveMod(y, m / 2);
      OrDisjoint(x / 2, y / 2, m / 2);
    }
  }

  /** `!(a & (a - 1))` recognises exactly the powers of two. */
  lemma {:induction false} PowerOfTwoTest(a: nat)
    requires a > 0
    ensures And(a, a - 1) == 0 <==> IsPow2(a)
  {
    if a == 1 {
    } else if a % 2 == 1 {
      AndSelf(a / 2);
      assert (a - 1) / 2 == a / 2;
    } else {
      PowerOfTwoTest(a / 2);
      assert (a - 1) / 2 == a / 2 - 1;
    }
  }

  /** The kernel's test for a usable alignment. */
  predicate PassesMaskTest(a: nat)
    requires a > 0
    ensures PassesMaskTest(a) <==> IsPow2(a)
  {
    PowerOfTwoTest(a);
    And(a, a - 1) == 0
  }

  /** Of two powers of two the smaller divides the larger. */
  lemma {:induction false} PowersDivide(a: nat, b: nat)
    requires IsPow2(a) && IsPow2(b) && a <= b
    ensures b % a == 0
  {
    if a > 1 {
      PowersDivide(a / 2, b / 2);
      HalveMod(b, a / 2);
    }
  }

  lemma MultipleOfMultiple(x: nat, a: nat, b: nat)
    requires a > 0 && b > 0 && b % a == 0 && x % b == 0
    ensures x % a == 0
  {
    var q, p := x / b, b / a;
    assert x == q * b && b == p * a;
    assert x == (q * p) * a;
    DivModUnique(x, a, q * p, 0);
  }

  lemma {:induction false} Pow2Product(a: nat, b: nat)
    requires IsPow2(a) && IsPow2(b)
    ensures IsPow2(a * b)
  {
    if a > 1 {
      var h := a / 2;
      Pow2Product(h, b);
      assert a * b == 2 * (h * b);
      DoubledPower(h * b);
    }
  }

  lemma DoubledPower(x: nat)
    requires IsPow2(x)
    ensures IsPow2(2 * x)
  {
    assert 2 * x / 2 == x;
  }

  lemma WordSizesArePowers()
    ensures IsPow2(TWO32) && IsPow2(TWO64)
  {
    assert IsPow2(0x100);
    Pow2Product(0x100, 0x100);
    Pow2Product(TWO16, TWO16);
    Pow2Product(TWO32, TWO32);
  }

  /** A power of two that fits in a word is at most half of its range. */
  lemma PowerBelowWord(a: nat)
    requires IsPow2(a) && a < TWO64
    ensures a <= TWO64 / 2
  {
    WordSizesArePowers();
    if TWO64 / 2 < a {
      PowersDivide(a, TWO64);
      DivModUnique(TWO64, a, 1, TWO64 - a);
    }
  }

  /** Rounding up with masks finds the least multiple of `a` at or above `x`. */
  lemma AlignUpIsLeast(x: nat, a: nat)
    requires IsPow2(a) && a < TWO64 && x + a - 1 < TWO64
    ensures var r := AlignUp(x, a); r % a == 0 && x <= r < x + a
    ensures forall y | x <= y && y % a == 0 :: AlignUp(x, a) <= y
  {
    var s := x + a - 1;
    AlignUpRounds(x, a);
    RoundDown(s, a);
    var r := s - s % a;
    forall y | x <= y && y % a == 0
      ensures r <= y
    {
      if y < r { MultiplesApart(y, r, a); }
    }
  }

  /** `s & ~(a - 1)` rounds down to a multiple of `a`. */
  lemma ClearLowBits(s: nat, a: nat)
    requires IsPow2(a) && a < TWO64 && s < TWO64
    ensures And(s, Not64(a - 1)) == s - s % a
  {
    WordSizesArePowers();
    AndHighMask(s, a, TWO64);
  }

  lemma AlignUpRounds(x: nat, a: nat)
    requires IsPow2(a) && a < TWO64 && x + a - 1 < TWO64
    ensures AlignUp(x, a) == x + a - 1 - (x + a - 1) % a
  {
    var s := x + a - 1;
    RemainderSmall(s, TWO64);
    ClearLowBits(s, a);
  }

  /** Rounding up an unaligned address of the lower half stays there and skips no multiple. */
  lemma AlignUpStaysLow(x: nat, a: nat)
    requires IsPow2(a) && a < TWO64 && x <= TWO64 / 2 && x % a != 0
    ensures x < AlignUp(x, a) <= TWO64 / 2
    ensures forall y | x <= y < AlignUp(x, a) :: y % a != 0
  {
    PowerBelowWord(a);
    AlignUpIsLeast(x, a);
    WordSizesArePowers();
    PowersDivide(a, TWO64 / 2);
  }

  // ---- ceiling division ----

  /** Blocks of `d` bytes that cover `n` bytes. */
  function CeilDiv(n: nat, d: nat): nat
    requires d > 0
  {
    (n + d - 1) / d
  }

  lemma CeilDivBounds(n: nat, d: nat)
    requires d > 0
    ensures n <= CeilDiv(n, d) * d < n + d
    ensures n > 0 ==> CeilDiv(n, d) > 0
  {
    var s := n + d - 1;
    assert s == s / d * d + s % d;
  }

  lemma CeilDivAbove(n: nat, d: nat, k: nat)
    requires d > 0
    ensures k < CeilDiv(n, d) <==> k * d < n
  {
    CeilDivBounds(n, d);
    if k < CeilDiv(n, d) { MulMonotone(k + 1, CeilDiv(n, d), d); }
    else { MulMonotone(CeilDiv(n, d), k, d); }
  }
}
