/** The unit of a printed byte count. */
module Sizes {
  const UNIT := 1024
  const INT64_MAX := 0x7FFF_FFFF_FFFF_FFFF
  const SUFFIXES := "KMGTPE"

  function UnitPower(n: nat): (p: nat)
    ensures p >= 1
  {
    if n == 0 then 1 else UNIT * UnitPower(n - 1)
  }

  lemma {:induction false} PowerMonotone(m: nat, n: nat)
    requires m <= n
    ensures UnitPower(m) <= UnitPower(n)
  {
    if m < n {
      PowerMonotone(m, n - 1);
    }
  }

  /** A power of the unit within a byte count is within the suffixes. */
  lemma PowerBound(n: nat)
    requires UnitPower(n) <= INT64_MAX
    ensures n <= 6
  {
    assert UnitPower(7) > INT64_MAX by {
      assert UnitPower(4) == UNIT * UNIT * UNIT * UNIT;
      assert UnitPower(7) == UNIT * UNIT * UNIT * UnitPower(4);
    }
    if n >= 7 {
      PowerMonotone(7, n);
    }
  }

  lemma MultipleBound(k: int, b: int)
    requires b >= 0
    ensures k >= 1 ==> k * b >= b
    ensures k <= -1 ==> k * b <= -b
  {
  }

  lemma DivideOnce(bytes: nat, div: nat)
    requires div > 0
    ensures bytes / (div * UNIT) == bytes / div / UNIT
  {
    var q := bytes / div;
    var r, r1 := bytes % div, q % UNIT;
    assert bytes == q * div + r;
    assert q == q / UNIT * UNIT + r1;
    assert bytes == (q / UNIT) * (div * UNIT) + (r1 * div + r);
    assert r1 * div + r < UNIT * div by {
      assert r1 * div <= (UNIT - 1) * div;
    }
    var q', r' := bytes / (div * UNIT), bytes % (div * UNIT);
    assert (q' - q / UNIT) * (div * UNIT) == r1 * div + r - r';
    MultipleBound(q' - q / UNIT, div * UNIT);
  }

  /** The loop of formatBytes for counts of at least one unit: the divisor and the index of the suffix. */
  method ChooseUnit(bytes: nat) returns (div: nat, exp: nat)
    requires UNIT <= bytes <= INT64_MAX
    ensures div == UnitPower(exp + 1) && div <= bytes
    ensures 1 <= bytes / div < UNIT
    ensures exp < |SUFFIXES|
  {
    div, exp := UNIT, 0;
    var n := bytes / UNIT;
    while n >= UNIT
      invariant div == UnitPower(exp + 1) && n == bytes / div && n >= 1
      decreases n
    {
      DivideOnce(bytes, div);
      n := n / UNIT;
      div := div * UNIT;
      exp := exp + 1;
    }
    assert div <= bytes;
    PowerBound(exp + 1);
  }
}
