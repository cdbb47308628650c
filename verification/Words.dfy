/** Definitions shared by the other modules: optional values, machine words of any width, and
    the ten integer predicates. */
module Words {
  datatype Option<T> = None | Some(value: T)

  function Min(a: nat, b: nat): nat {
    if a > b then b else a
  }

  function Max(a: nat, b: nat): nat {
    if a < b then b else a
  }

  /** The numbers below `n`. */
  function Indices(n: nat): (s: set<nat>)
    ensures forall i: nat :: i in s <==> i < n
  {
    if n == 0 then {} else Indices(n - 1) + {n - 1}
  }

  lemma MulMonotone(a: nat, b: nat, m: nat)
    requires a <= b
    ensures a * m <= b * m
  {
    assert b * m == a * m + (b - a) * m;
  }

  function Pow2(w: nat): (r: nat)
    ensures r >= 1
  {
    if w == 0 then 1 else 2 * Pow2(w - 1)
  }

  function Quot(v: nat, d: nat): (q: nat)
    requires d >= 1
    ensures q <= v
  {
    DivSmaller(v, d);
    v / d
  }

  function Rem(v: nat, d: nat): (r: nat)
    requires d >= 1
    ensures r < d
  {
    v % d
  }

  lemma DivSmaller(v: nat, d: nat)
    requires d >= 1
    ensures v / d <= v
  {
    var q, r := v / d, v % d;
    assert v == d * q + r;
    MulMonotone(1, d, q);
  }

  lemma ModUnique(v: nat, m: nat, a: nat, c: nat)
    requires m >= 1 && c < m && v == a * m + c
    ensures v % m == c
  {
    var q, r := v / m, v % m;
    assert v == q * m + r;
    if q > a {
      MulMonotone(a + 1, q, m);
    } else if q < a {
      MulMonotone(q + 1, a, m);
    }
  }

  lemma RemUnique(v: nat, m: nat, a: nat, c: nat)
    requires m >= 1 && c < m && v == a * m + c
    ensures Rem(v, m) == c
  {
    ModUnique(v, m, a, c);
  }

  lemma {:induction false} Pow2Split(a: nat, b: nat)
    ensures Pow2(a + b) == Pow2(a) * Pow2(b)
  {
    if b > 0 {
      Pow2Split(a, b - 1);
      DoubleProduct(Pow2(a), Pow2(b - 1));
    }
  }

  lemma DoubleProduct(x: nat, y: nat)
    ensures 2 * (x * y) == x * (2 * y)
  {
  }

  datatype Predicate = EQ | NE | UGT | UGE | ULT | ULE | SGT | SGE | SLT | SLE

  /** A `w`-bit number read as two's complement. */
  function Signed(v: nat, w: nat): int {
    if w > 0 && v >= Pow2(w - 1) then v - Pow2(w) else v
  }

  /** What an integer compare of `w`-bit numbers computes. */
  function Compare(p: Predicate, x: nat, y: nat, w: nat): bool {
    match p
    case EQ => x == y
    case NE => x != y
    case UGT => x > y
    case UGE => x >= y
    case ULT => x < y
    case ULE => x <= y
    case SGT => Signed(x, w) > Signed(y, w)
    case SGE => Signed(x, w) >= Signed(y, w)
    case SLT => Signed(x, w) < Signed(y, w)
    case SLE => Signed(x, w) <= Signed(y, w)
  }
}
