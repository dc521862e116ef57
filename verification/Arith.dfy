/** Rounding and fixed-width integer conversions used by every other module. */
module Arith {

  /** The source's round_down(i, g), and ALIGN_DOWN when g is a power of two. */
  function RoundDown(i: nat, g: nat): nat
    requires g > 0
  {
    i / g * g
  }

  /** The source's ALIGN(i, g), for the powers of two it is used with. */
  function RoundUp(i: nat, g: nat): nat
    requires g > 0
  {
    (i + g - 1) / g * g
  }

  /** Conversion to uint64_t. */
  function U64(x: int): nat {
    x % 0x1_0000_0000_0000_0000
  }

  /** Conversion to uint32_t. */
  function U32(x: int): (r: nat)
    ensures r < 0x1_0000_0000
  {
    x % 0x1_0000_0000
  }

  /** Conversion to int32_t, two's complement. */
  function I32(x: int): int {
    var u := x % 0x1_0000_0000;
    if u < 0x8000_0000 then u else u - 0x1_0000_0000
  }

  lemma SmallConversions(x: int)
    ensures -0x8000_0000 <= x < 0x8000_0000 ==> I32(x) == x
    ensures 0 <= x < 0x1_0000_0000 ==> U32(x) == x
    ensures 0 <= x < 0x1_0000_0000_0000_0000 ==> U64(x) == x
    ensures -0x1_0000_0000_0000_0000 <= x < 0 ==> U64(x) == x + 0x1_0000_0000_0000_0000
  {
  }

  lemma MulMonotone(a: int, b: int, g: int)
    requires g >= 0 && a <= b
    ensures a * g <= b * g
  {
  }

  lemma MulCancel(a: int, b: int, g: int)
    requires g > 0 && a * g < b * g + g
    ensures a <= b
  {
    if a > b {
      MulMonotone(b + 1, a, g);
    }
  }

  lemma DivRange(x: int, g: int, q: int)
    requires g > 0
    requires q * g <= x < q * g + g
    ensures x / g == q
  {
    var d := x / g;
    assert d * g <= x < d * g + g;
    MulCancel(d, q, g);
    MulCancel(q, d, g);
  }

  lemma DivMonotone(a: nat, b: nat, g: nat)
    requires g > 0 && a <= b
    ensures a / g <= b / g
  {
    MulCancel(a / g, b / g, g);
  }

  lemma MultipleMod(q: int, g: int)
    requires g > 0
    ensures (q * g) % g == 0 && (q * g) / g == q
  {
    DivRange(q * g, g, q);
    assert q * g == (q * g) / g * g + (q * g) % g;
  }

  lemma RoundUpBounds(i: nat, g: nat)
    requires g > 0
    ensures i <= RoundUp(i, g) < i + g
    ensures RoundUp(i, g) % g == 0
  {
    MultipleMod((i + g - 1) / g, g);
  }

  lemma RoundDownBounds(i: nat, g: nat)
    requires g > 0
    ensures RoundDown(i, g) <= i < RoundDown(i, g) + g
    ensures RoundDown(i, g) % g == 0
  {
    MultipleMod(i / g, g);
  }

  /** RoundUp is the least multiple of g at or above i. */
  lemma RoundUpLeast(i: nat, g: nat, m: nat)
    requires g > 0 && m % g == 0
    ensures RoundUp(i, g) <= m <==> i <= m
  {
    RoundUpBounds(i, g);
    if i <= m {
      MulCancel((i + g - 1) / g, m / g, g);
      MulMonotone((i + g - 1) / g, m / g, g);
    }
  }

  lemma RoundUpMonotone(i: nat, j: nat, g: nat)
    requires g > 0 && i <= j
    ensures RoundUp(i, g) <= RoundUp(j, g)
  {
    RoundUpBounds(j, g);
    RoundUpLeast(i, g, RoundUp(j, g));
  }

  lemma RoundUpExact(m: nat, g: nat)
    requires g > 0 && m % g == 0
    ensures RoundUp(m, g) == m
  {
    RoundUpBounds(m, g);
    RoundUpLeast(m, g, m);
  }

  lemma RoundDownExact(m: nat, g: nat)
    requires g > 0 && m % g == 0
    ensures RoundDown(m, g) == m
  {
    assert m == m / g * g + m % g;
  }

  /** Whole units in between are kept by rounding. */
  lemma RoundDownShift(a: nat, b: nat, g: nat)
    requires g > 0 && a <= b && (b - a) % g == 0
    ensures RoundDown(b, g) - RoundDown(a, g) == b - a
  {
    var q := (b - a) / g;
    assert b - a == q * g;
    DivRange(b, g, a / g + q);
  }

  /** Adding at most one unit moves the rounded value by at most one unit. */
  lemma RoundUpStep(i: nat, j: nat, g: nat)
    requires g > 0 && i <= j <= i + g
    ensures RoundUp(i, g) <= RoundUp(j, g) <= RoundUp(i, g) + g
  {
    RoundUpMonotone(i, j, g);
    RoundUpBounds(i, g);
    var q := (i + g - 1) / g;
    assert RoundUp(i, g) + g == (q + 1) * g;
    MultipleMod(q + 1, g);
    RoundUpLeast(j, g, RoundUp(i, g) + g);
  }
}
