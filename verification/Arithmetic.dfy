/** 64-bit arithmetic, and facts about products and quotients that the solver does not find by itself. */
module Arithmetic {

  const TWO64 := 0x1_0000_0000_0000_0000

  /** A number as a 64-bit unsigned integer. */
  function U64(x: int): nat {
    x % TWO64
  }

  lemma MulMono(a: nat, b: nat, c: nat, d: nat)
    requires a <= b && c <= d
    ensures a * c <= b * d
  {
    assert a * c <= b * c;
    assert b * c <= b * d;
  }

  lemma DivOf(i: nat, per: int, j: nat)
    requires 0 <= j < per
    ensures (i * per + j) / per == i
  {
    var q := (i * per + j) / per;
    if q != i {
      MulAtLeast(if q > i then q - i else i - q, per);
    }
  }

  lemma MulAtLeast(n: int, per: int)
    requires n > 0 && per > 0
    ensures n * per >= per
  {
  }

  lemma DivFacts(x: int, d: int)
    requires x >= 0 && d > 0
    ensures x / d >= 0 && (x / d) * d <= x < (x / d) * d + d
    ensures 0 <= x - (x / d) * d < d
  {
  }

  lemma FullPeriod(n: int, per: int)
    requires 0 < n <= per
    ensures n % per == 0 <==> n == per
  {
  }

  lemma DivStep(c: nat, per: int)
    requires per > 0
    ensures (c + 1) % per == 0 ==> (c + 1) / per == c / per + 1
    ensures (c + 1) % per != 0 ==> (c + 1) / per == c / per
    ensures (c + 1) % per == 0 ==> (c + 1) / per * per == c + 1
  {
    var a, b := c / per, c % per;
    assert c == a * per + b;
    if b + 1 < per {
      DivOf(a, per, b + 1);
      FullPeriod(b + 1, per);
      assert (c + 1) % per == (c + 1) - a * per;
    } else {
      assert c + 1 == (a + 1) * per + 0;
      DivOf(a + 1, per, 0);
    }
  }

  lemma DivMono(x: nat, y: nat, d: nat)
    requires x <= y && d > 0
    ensures x / d <= y / d
  {
    if x / d > y / d {
      DivFacts(x, d);
      DivFacts(y, d);
      MulMono(y / d + 1, x / d, d, d);
    }
  }

  lemma MulAssociates(a: int, b: int, c: int)
    ensures a * (b * c) == a * b * c
  {
  }
}
