/** The 64-bit floats that integers are compared as. */
module Doubles {
  /** An integer that fits 64 bits, signed or not. */
  type JsonInt = x: int | -0x8000_0000_0000_0000 <= x <= 0xFFFF_FFFF_FFFF_FFFF

  /** The spacing of 64-bit floats at a magnitude. */
  function Spacing(n: nat): nat {
    if n < 0x20_0000_0000_0000 then 1 else 2 * Spacing(n / 2)
  }

  /** The nearest multiple of the spacing, ties to the even multiple. */
  function Nearest(n: nat, unit: nat): nat
    requires unit > 0
  {
    var q, r := n / unit, n % unit;
    if 2 * r < unit || (2 * r == unit && q % 2 == 0) then q * unit else (q + 1) * unit
  }

  lemma {:induction false} SpacingIsPositive(n: nat)
    ensures Spacing(n) > 0
  {
    if n >= 0x20_0000_0000_0000 {
      SpacingIsPositive(n / 2);
    }
  }

  /** `as_f64` of an integer. */
  function Double(whole: JsonInt): real {
    var n: nat := if whole < 0 then -whole else whole;
    SpacingIsPositive(n);
    var rounded := Nearest(n, Spacing(n)) as real;
    if whole < 0 then -rounded else rounded
  }

  /** Comparing as floats is exact up to 2^53, and beyond it off by half a spacing at most. */
  lemma DoubleIsNearest(whole: JsonInt)
    ensures var n := if whole < 0 then -whole else whole;
            && (n <= 0x20_0000_0000_0000 ==> Double(whole) == whole as real)
            && -(Spacing(n) as real) <= 2.0 * (Double(whole) - whole as real) <= Spacing(n) as real
  {
    var n := if whole < 0 then -whole else whole;
    SpacingIsPositive(n);
    NearestIsClose(n, Spacing(n));
    if n == 0x20_0000_0000_0000 {
      assert Spacing(n / 2) == 1;
    }
  }

  lemma NearestIsClose(n: nat, unit: nat)
    requires unit > 0
    ensures 2 * Nearest(n, unit) <= 2 * n + unit && 2 * n <= 2 * Nearest(n, unit) + unit
    ensures n % unit == 0 ==> Nearest(n, unit) == n
  {
    assert n == n / unit * unit + n % unit;
    assert (n / unit + 1) * unit == n / unit * unit + unit;
  }

  /** The spacing suits the magnitude: floats have 53 significant bits. */
  lemma {:induction false} SpacingSuits(n: nat)
    ensures n < 0x20_0000_0000_0000 * Spacing(n)
    ensures Spacing(n) == 1 || 0x10_0000_0000_0000 * Spacing(n) <= n
  {
    if n >= 0x20_0000_0000_0000 {
      SpacingSuits(n / 2);
    }
  }

  lemma {:induction false} SpacingDoubles(m: nat, n: nat)
    requires m <= n
    ensures Spacing(m) == Spacing(n) || 2 * Spacing(m) <= Spacing(n)
    decreases n
  {
    if n >= 0x20_0000_0000_0000 {
      SpacingIsPositive(n / 2);
      if m >= 0x20_0000_0000_0000 {
        SpacingDoubles(m / 2, n / 2);
      }
    }
  }

  lemma Times(a: nat, b: nat, unit: nat)
    ensures a <= b ==> a * unit <= b * unit
    ensures (a + 1) * unit == a * unit + unit
  {
  }

  /** A number lies in the block of its quotient, and so does its rounding. */
  lemma NearestInBlock(n: nat, unit: nat)
    requires unit > 0
    ensures var q := n / unit;
            q * unit <= n < q * unit + unit && q * unit <= Nearest(n, unit) <= q * unit + unit
  {
    Times(n / unit, n / unit, unit);
  }

  /** Rounding stays between two multiples around the number. */
  lemma NearestIsBetween(n: nat, unit: nat, below: nat, above: nat)
    requires unit > 0 && below * unit <= n < above * unit
    ensures below * unit <= Nearest(n, unit) <= above * unit
  {
    var q := n / unit;
    NearestInBlock(n, unit);
    Times(q, q, unit);
    if q < below {
      Times(q + 1, below, unit);
    } else if above <= q {
      Times(above, q, unit);
    } else {
      Times(below, q, unit);
      Times(q + 1, above, unit);
    }
  }

  lemma NearestIsMultiple(n: nat, unit: nat) returns (q: nat)
    requires unit > 0
    ensures Nearest(n, unit) == q * unit
  {
    q := if Nearest(n, unit) == n / unit * unit then n / unit else n / unit + 1;
  }

  /** Roundings are multiples of the unit, and each less than a unit from its number. */
  lemma NearestKeepsOrder(m: nat, n: nat, unit: nat)
    requires unit > 0 && m <= n
    ensures Nearest(m, unit) <= Nearest(n, unit)
  {
    if m < n {
      var q := NearestIsMultiple(m, unit);
      var q' := NearestIsMultiple(n, unit);
      NearestIsClose(m, unit);
      NearestIsClose(n, unit);
      Times(q, q', unit);
      Times(q' + 1, q, unit);
      Times(q', q', unit);
    }
  }

  lemma {:induction false} MagnitudesKeepOrder(m: nat, n: nat)
    requires m <= n
    ensures Spacing(m) > 0 && Spacing(n) > 0
    ensures Nearest(m, Spacing(m)) <= Nearest(n, Spacing(n))
  {
    SpacingIsPositive(m);
    SpacingIsPositive(n);
    if Spacing(m) == Spacing(n) {
      NearestKeepsOrder(m, n, Spacing(m));
    } else {
      SpacingDoubles(m, n);
      SpacingSuits(m);
      SpacingSuits(n);
      NearestIsBetween(m, Spacing(m), 0, 0x20_0000_0000_0000);
      NearestIsBetween(n, Spacing(n), 0x10_0000_0000_0000, 0x20_0000_0000_0000);
    }
  }

  /** Rounding never reverses two integers. */
  lemma DoubleKeepsOrder(a: JsonInt, b: JsonInt)
    requires a <= b
    ensures Double(a) <= Double(b)
  {
    if 0 <= a {
      MagnitudesKeepOrder(a, b);
    } else if b < 0 {
      MagnitudesKeepOrder(-b, -a);
    }
  }

  predicate Small(whole: JsonInt) {
    -0x20_0000_0000_0000 < whole < 0x20_0000_0000_0000
  }

  /** Integers compare as what they are, if one of the two is below 2^53 in magnitude. */
  lemma SmallComparesExactly(a: JsonInt, b: JsonInt)
    requires Small(a) || Small(b)
    ensures Double(a) < Double(b) <==> a < b
  {
    if a < b {
      if Small(a) {
        DoubleIsNearest(a);
        DoubleIsNearest(a + 1);
        DoubleKeepsOrder(a + 1, b);
      } else {
        DoubleIsNearest(b);
        DoubleIsNearest(b - 1);
        DoubleKeepsOrder(a, b - 1);
      }
    } else {
      DoubleKeepsOrder(b, a);
    }
  }
}
