/** Rounding up to a power of two, the step size of the minimizer and the trimmer. */
module Powers {
  /** The smallest power of two that is at least `n`, and 1 for 0. */
  function NextPower(n: nat): (p: nat)
    ensures p >= 1 && p >= n
  {
    NextPowerFrom(n, 1)
  }

  function NextPowerFrom(n: nat, p: nat): (r: nat)
    requires p >= 1
    ensures r >= p && r >= n
    decreases n - p
  {
    if n > p then NextPowerFrom(n, 2 * p) else p
  }

  /** A power of two. */
  predicate Power(p: nat) {
    p == 1 || (p > 1 && p % 2 == 0 && Power(p / 2))
  }

  lemma {:induction false} PowersDouble(p: nat, q: nat)
    requires Power(p) && Power(q) && p < q
    ensures 2 * p <= q
    decreases q
  {
    if p > 1 {
      PowersDouble(p / 2, q / 2);
    }
  }

  lemma {:induction false} PowerFromPower(n: nat, p: nat)
    requires Power(p)
    ensures Power(NextPowerFrom(n, p))
    decreases n - p
  {
    if n > p {
      PowerFromPower(n, 2 * p);
    }
  }

  lemma {:induction false} PowerFromLeast(n: nat, p: nat, q: nat)
    requires Power(p) && Power(q) && n <= q && p <= q
    ensures NextPowerFrom(n, p) <= q
    decreases n - p
  {
    if n > p {
      PowersDouble(p, q);
      PowerFromLeast(n, 2 * p, q);
    }
  }

  /** The least power of two that is not below `n`. */
  lemma NextPowerLeast(n: nat)
    ensures Power(NextPower(n)) && n <= NextPower(n)
    ensures forall q :: Power(q) && n <= q ==> NextPower(n) <= q
  {
    PowerFromPower(n, 1);
    forall q | Power(q) && n <= q
      ensures NextPower(n) <= q
    {
      PowerFromLeast(n, 1, q);
    }
  }

  /** Above 2^31 the 32-bit shift never reaches `val`. */
  method NextP2(val: nat) returns (ret: nat)
    requires val <= 0x8000_0000
    ensures ret == NextPower(val)
    ensures ret < 0x1_0000_0000
  {
    ret := 1;
    while val > ret
      invariant 1 <= ret < 0x1_0000_0000
      invariant NextPower(val) == NextPowerFrom(val, ret)
      decreases val - ret
    {
      ret := 2 * ret;
    }
  }
}
