/** The distance an integer compare reports at run time: its sign bit is the truth of the
    predicate, and the first visit of a compare in a run puts it on the list of compares that
    the fuzzer clears before the next run. */
module Distance {
  import opened Conditions
  import opened StackMachine
  import opened Words

  // ----- conversions -----

  /** The low `w` bits of a 64-bit word. */
  function AsUnsigned(v: nat, w: nat): (r: nat)
    ensures r < Pow2(w)
  {
    Rem(v, Pow2(w))
  }

  /** The same bits read as two's complement. */
  function AsSigned(v: nat, w: nat): (r: int)
    requires w > 0
    ensures -(Pow2(w - 1) as int) <= r < Pow2(w - 1)
  {
    Signed(AsUnsigned(v, w), w)
  }

  /** A small integer as a double; the difference of equal numbers is the positive zero. */
  function ToDouble(i: int): Double {
    if i < 0 then Double(true, (-i) as real) else Double(false, i as real)
  }

  const MINUS_ZERO := Double(true, 0.0)

  function Abs(i: int): nat {
    if i < 0 then -i else i
  }

  // ----- what is stored -----

  /** Unequal operands are as far apart as the closer of the two readings says; equal ones are
      at the negative zero. */
  function EqualDistance(s1: int, s2: int, z1: int, z2: int): Double {
    var sreal := ToDouble(Abs(s1 - s2));
    var zreal := ToDouble(Abs(z1 - z2));
    var d := if sreal.Below(zreal) then sreal else zreal;
    if d.Is(ToDouble(0)) then MINUS_ZERO else d
  }

  function NegativeZero(d: Double): Double {
    if d.Is(ToDouble(0)) then MINUS_ZERO else d
  }

  function Stored(p: Predicate, s1: int, s2: int, z1: int, z2: int): Double {
    match p
    case EQ => EqualDistance(s1, s2, z1, z2)
    case NE => EqualDistance(s1, s2, z1, z2).Negated()
    case UGT => ToDouble(z2 - z1)
    case ULE => ToDouble(z2 - z1).Negated()
    case SGT => ToDouble(s2 - s1)
    case SLE => ToDouble(s2 - s1).Negated()
    case UGE => NegativeZero(ToDouble(z2 - z1))
    case ULT => NegativeZero(ToDouble(z2 - z1)).Negated()
    case SGE => NegativeZero(ToDouble(s2 - s1))
    case SLT => NegativeZero(ToDouble(s2 - s1)).Negated()
  }

  /** The runtime gets its operands twice, sign- and zero-extended to 64-bit words, and truncates all
      four to `size` bits when that is 8, 16 or 32. */
  function Written(p: Predicate, sarg1: nat, sarg2: nat, zarg1: nat, zarg2: nat, size: nat): Double
    requires size > 0
  {
    Stored(p, AsSigned(sarg1, size), AsSigned(sarg2, size), AsUnsigned(zarg1, size), AsUnsigned(zarg2, size))
  }

  /** Operands that are passed as they are. */
  function Reported(p: Predicate, a: nat, b: nat, size: nat): Double
    requires size > 0
  {
    Written(p, a, b, a, b, size)
  }

  /** What the compare of the low `w` bits computes. */
  function Truth(p: Predicate, a: nat, b: nat, w: nat): bool
    requires w > 0
  {
    Compare(p, AsUnsigned(a, w), AsUnsigned(b, w), w)
  }

  // ----- the sign is the truth -----

  lemma SameReading(a: nat, b: nat, w: nat)
    requires w > 0
    ensures AsSigned(a, w) == AsSigned(b, w) <==> AsUnsigned(a, w) == AsUnsigned(b, w)
  {
  }

  /** Negative, minus zero included, exactly when the predicate holds of the truncated words. */
  lemma SignIsTruth(p: Predicate, a: nat, b: nat, w: nat)
    requires w > 0
    ensures Reported(p, a, b, w).neg == Truth(p, a, b, w)
  {
    SameReading(a, b, w);
    hide Signed, AsUnsigned;
  }

  /** The distance between two words around the circle of `w`-bit values. */
  function Circular(a: nat, b: nat, w: nat): nat {
    var d := Abs(AsUnsigned(a, w) - AsUnsigned(b, w));
    if d <= Pow2(w) - d then d else Pow2(w) - d
  }

  /** Equality reports how far one operand has to move, wrap-around allowed. */
  lemma MagnitudeIsCircular(a: nat, b: nat, w: nat)
    requires w > 0
    ensures Reported(EQ, a, b, w).mag == Circular(a, b, w) as real
    ensures Reported(NE, a, b, w).mag == Circular(a, b, w) as real
  {
    var u, v, s, t := AsUnsigned(a, w), AsUnsigned(b, w), AsSigned(a, w), AsSigned(b, w);
    assert Pow2(w) == 2 * Pow2(w - 1);
    assert s == u || s == u - Pow2(w);
    assert t == v || t == v - Pow2(w);
  }

  /** Order predicates report how far apart the operands are, in their own reading, and equality the
      smaller of the distances in both readings, for any four arguments. */
  lemma MagnitudeIsDistance(p: Predicate, sarg1: nat, sarg2: nat, zarg1: nat, zarg2: nat, size: nat)
    requires size > 0
    ensures var s := Abs(AsSigned(sarg1, size) - AsSigned(sarg2, size));
            var z := Abs(AsUnsigned(zarg1, size) - AsUnsigned(zarg2, size));
            Written(p, sarg1, sarg2, zarg1, zarg2, size).mag ==
            (if p == UGT || p == UGE || p == ULT || p == ULE then z
             else if p == SGT || p == SGE || p == SLT || p == SLE then s
             else Min(s, z)) as real
  {
    hide AsSigned, AsUnsigned;
  }

  /** Operands passed as they are: the distance grows strictly as they move apart. */
  lemma FartherIsGreater(p: Predicate, a: nat, b: nat, c: nat, w: nat)
    requires w > 0 && a < b < c < Pow2(w) && (p == UGT || p == UGE || p == ULT || p == ULE)
    ensures Reported(p, a, b, w).mag < Reported(p, a, c, w).mag && Reported(p, b, a, w).mag < Reported(p, c, a, w).mag
  {
    MagnitudeIsDistance(p, a, b, a, b, w);
    MagnitudeIsDistance(p, a, c, a, c, w);
    MagnitudeIsDistance(p, b, a, b, a, w);
    MagnitudeIsDistance(p, c, a, c, a, w);
    NarrowUnsigned(a, w, w);
    NarrowUnsigned(b, w, w);
    NarrowUnsigned(c, w, w);
    hide AsSigned, AsUnsigned, Written, Rem;
  }

  /** Distances are whole numbers, so never one of the stack machine's constants. */
  lemma DistanceIsPlain(p: Predicate, sarg1: nat, sarg2: nat, zarg1: nat, zarg2: nat, size: nat)
    requires size > 0
    ensures var d := Written(p, sarg1, sarg2, zarg1, zarg2, size);
            Plain(d) && (d.mag == 0.0 || d.mag >= 1.0)
  {
    hide AsSigned, AsUnsigned;
    WholeDistance(p, AsSigned(sarg1, size), AsSigned(sarg2, size), AsUnsigned(zarg1, size), AsUnsigned(zarg2, size));
  }

  lemma WholeDouble(i: int)
    ensures ToDouble(i).mag == 0.0 || ToDouble(i).mag >= 1.0
  {
  }

  lemma WholeDistance(p: Predicate, s1: int, s2: int, z1: int, z2: int)
    ensures Stored(p, s1, s2, z1, z2).mag == 0.0 || Stored(p, s1, s2, z1, z2).mag >= 1.0
  {
    WholeDouble(s2 - s1);
    WholeDouble(z2 - z1);
    WholeDouble(Abs(s1 - s2));
    WholeDouble(Abs(z1 - z2));
  }

  // ----- operands of other widths -----

  lemma {:induction false} WidthFits(a: nat, b: nat)
    requires a <= b
    ensures Pow2(a) <= Pow2(b)
    decreases b
  {
    if a < b {
      WidthFits(a, b - 1);
    }
  }

  /** A `w`-bit operand sign-extended to `word` bits. */
  function SignExtended(v: nat, w: nat, word: nat): nat
    requires 0 < w <= word && v < Pow2(w)
  {
    if v >= Pow2(w - 1) then WidthFits(w, word); v + Pow2(word) - Pow2(w) else v
  }

  /** Both operands extended, once by sign and once by zeros, and truncated to `size`. */
  function Extended(p: Predicate, a: nat, b: nat, w: nat, size: nat, word: nat): Double
    requires 0 < w <= word && 0 < size && a < Pow2(w) && b < Pow2(w)
  {
    Written(p, SignExtended(a, w, word), SignExtended(b, w, word), a, b, size)
  }

  /** The call the pass inserts: 64-bit arguments, and a size of 32 whatever the width. */
  function Inserted(p: Predicate, a: nat, b: nat, w: nat): Double
    requires 0 < w <= 64 && a < Pow2(w) && b < Pow2(w)
  {
    Extended(p, a, b, w, 32, 64)
  }

  lemma Wrap(v: nat, p: nat, m: nat, k: nat, q: nat)
    requires v < p <= m && k >= 1 && q == k * m
    ensures p <= q && Rem(v + q - p, m) == v + m - p
  {
    hide Rem;
    OneLess(k, m);
    MulMonotone(0, k - 1, m);
    RemUnique(v + q - p, m, k - 1, v + m - p);
  }

  lemma OneLess(k: nat, m: nat)
    requires k >= 1
    ensures k * m == (k - 1) * m + m
  {
  }

  lemma ExtensionMod(v: nat, w: nat, size: nat, word: nat)
    requires 0 < w <= size <= word && v < Pow2(w)
    ensures Pow2(w) <= Pow2(word) && Pow2(w) <= Pow2(size)
    ensures Rem(v + Pow2(word) - Pow2(w), Pow2(size)) == v + Pow2(size) - Pow2(w)
  {
    hide Rem, Pow2;
    WidthFits(w, size);
    WidthFits(size, word);
    Pow2Split(word - size, size);
    Wrap(v, Pow2(w), Pow2(size), Pow2(word - size), Pow2(word));
  }

  /** The low bits are unchanged. */
  lemma NarrowUnsigned(v: nat, w: nat, size: nat)
    requires 0 < w <= size && v < Pow2(w)
    ensures AsUnsigned(v, size) == v == AsUnsigned(v, w)
  {
    hide Rem, Pow2;
    WidthFits(w, size);
    RemUnique(v, Pow2(size), 0, v);
    RemUnique(v, Pow2(w), 0, v);
  }

  lemma NarrowOperand(v: nat, w: nat, size: nat, word: nat)
    requires 0 < w <= size <= word && v < Pow2(w)
    ensures AsUnsigned(v, size) == v == AsUnsigned(v, w)
    ensures AsSigned(SignExtended(v, w, word), size) == AsSigned(v, w)
  {
    hide Rem, Pow2;
    NarrowUnsigned(v, w, size);
    Halved(w);
    Halved(size);
    WidthFits(w - 1, size - 1);
    if v >= Pow2(w - 1) {
      ExtensionMod(v, w, size, word);
    }
  }

  lemma Halved(w: nat)
    requires w > 0
    ensures Pow2(w) == 2 * Pow2(w - 1)
  {
  }

  lemma NarrowCompare(p: Predicate, a: nat, b: nat, w: nat, size: nat, word: nat)
    requires 0 < w <= size <= word && a < Pow2(w) && b < Pow2(w)
    ensures Extended(p, a, b, w, size, word).neg == Truth(p, a, b, w)
  {
    hide Signed, AsUnsigned, SignExtended;
    NarrowOperand(a, w, size, word);
    NarrowOperand(b, w, size, word);
    SameReading(a, b, w);
  }

  lemma MultipleIsZero(v: nat, a: nat, m: nat)
    requires m >= 1 && v == a * m
    ensures Rem(v, m) == 0
  {
    hide Rem;
    RemUnique(v, m, a, 0);
  }

  lemma WrapsToZero(m: nat, p: nat, l: nat, q: nat, k: nat)
    requires m >= 1 && p == l * m && q == k * m && l <= k
    ensures p <= q && Rem(m + q - p, m) == 0
  {
    hide Rem;
    MulMonotone(l, k, m);
    assert (1 + (k - l)) * m == m + (k * m - l * m);
    MultipleIsZero(m + q - p, 1 + (k - l), m);
  }

  /** 2^size and 0 look the same. */
  lemma WideUnsigned(w: nat, size: nat)
    requires 0 < size < w
    ensures Pow2(size) < Pow2(w)
    ensures AsUnsigned(Pow2(size), size) == 0 && AsUnsigned(Pow2(size), w) == Pow2(size)
  {
    hide Rem, Pow2;
    var m := Pow2(size);
    Halved(size + 1);
    WidthFits(size + 1, w);
    MultipleIsZero(m, 1, m);
    RemUnique(m, Pow2(w), 0, m);
  }

  lemma WideRem(w: nat, size: nat, word: nat)
    requires 0 < size < w <= word
    ensures Pow2(w) <= Pow2(word) && Rem(Pow2(size) + Pow2(word) - Pow2(w), Pow2(size)) == 0
  {
    hide Rem, Pow2;
    WidthFits(w - size, word - size);
    Factor(word, size);
    Factor(w, size);
    WrapsToZero(Pow2(size), Pow2(w), Pow2(w - size), Pow2(word), Pow2(word - size));
  }

  lemma Factor(w: nat, size: nat)
    requires size <= w
    ensures Pow2(w) == Pow2(w - size) * Pow2(size)
  {
    hide Pow2;
    Pow2Split(w - size, size);
    assert w - size + size == w;
  }

  lemma WideExtended(w: nat, size: nat, word: nat)
    requires 0 < size < w <= word && Pow2(size) < Pow2(w)
    ensures AsUnsigned(SignExtended(Pow2(size), w, word), size) == 0
  {
    hide Rem, Pow2;
    WideRem(w, size, word);
    MultipleIsZero(Pow2(size), 1, Pow2(size));
  }

  lemma ZeroOperand(w: nat)
    requires w > 0
    ensures AsUnsigned(0, w) == 0 && Signed(0, w) == 0
  {
    hide Rem;
    MultipleIsZero(0, 0, Pow2(w));
  }

  lemma WideOperand(w: nat, size: nat, word: nat)
    requires 0 < size < w <= word
    ensures Pow2(size) < Pow2(w)
    ensures AsUnsigned(Pow2(size), size) == 0 && AsSigned(SignExtended(Pow2(size), w, word), size) == 0
    ensures AsUnsigned(Pow2(size), w) == Pow2(size)
    ensures AsUnsigned(0, size) == 0 && AsUnsigned(0, w) == 0 && AsSigned(SignExtended(0, w, word), size) == 0
  {
    hide AsUnsigned, Signed;
    WideUnsigned(w, size);
    WideExtended(w, size, word);
    ZeroOperand(w);
    ZeroOperand(size);
    assert SignExtended(0, w, word) == 0;
  }

  lemma WideCompare(w: nat, size: nat, word: nat)
    requires 0 < size < w <= word
    ensures Pow2(size) < Pow2(w)
    ensures Extended(EQ, Pow2(size), 0, w, size, word).neg && !Truth(EQ, Pow2(size), 0, w)
  {
    WideOperand(w, size, word);
    hide AsSigned, AsUnsigned, SignExtended;
  }

  /** With the size the pass inserts, the sign is the truth of every compare of a width exactly
      when the width is at most 32: 2^32 and 0 are reported equal. */
  lemma InsertedSignIffNarrow(w: nat)
    requires 0 < w <= 64
    ensures (forall p, a: nat, b: nat :: a < Pow2(w) && b < Pow2(w) ==> Inserted(p, a, b, w).neg == Truth(p, a, b, w)) <==> w <= 32
  {
    hide Extended, Compare, Pow2;
    if w <= 32 {
      forall p, a: nat, b: nat | a < Pow2(w) && b < Pow2(w)
        ensures Inserted(p, a, b, w).neg == Truth(p, a, b, w)
      {
        NarrowCompare(p, a, b, w, 32, 64);
      }
    } else {
      WideCompare(w, 32, 64);
      assert Inserted(EQ, Pow2(32), 0, w).neg != Truth(EQ, Pow2(32), 0, w);
    }
  }

  /** Distances do meet as +0 and -0: on equal operands `a > a || c == c`, which is true, is
      evaluated with `sign` to a positive number, as a false condition is. */
  lemma EqualOperandsClash(a: nat, c: nat)
    ensures var x := Op(BINOP_OR, false, Value(0, 34, false), Value(1, 32, false));
            var cmps := [Reported(UGT, a, a, 32), Reported(EQ, c, c, 32)];
            && ValidExpr(x, 2) && !Result(x, true, cmps).neg
            && LeavesSay(x, cmps, (id: nat) => id == 1) && Xor(Denote(x, Complement((id: nat) => id == 1)), !true)
  {
    hide AsSigned, AsUnsigned;
  }

  // ----- the table of compares -----

  const BR_SUCC := Double(true, 2.0)
  const BR_NOHIT := Double(true, 3.032)

  /** The shared table of the values of leaves, and the list of compares visited in this run. */
  class Table {
    const distances: array<Double>
    ghost const etc: set<nat>   // the leaves that are no compares
    var hit: seq<nat>

    /** The list names, once each, exactly the compares that are not at the no-hit value. */
    ghost predicate Valid()
      reads this, distances
    {
      && (forall i :: 0 <= i < |hit| ==> hit[i] < distances.Length && hit[i] !in etc)
      && (forall i, j :: 0 <= i < j < |hit| ==> hit[i] != hit[j])
      && (forall id :: 0 <= id < distances.Length && id !in etc ==> (distances[id].Is(BR_NOHIT) <==> id !in hit))
    }

    constructor (size: nat, ghost etc: set<nat>)
      ensures Valid() && hit == [] && fresh(distances) && distances.Length == size && this.etc == etc
      ensures forall id :: 0 <= id < size ==> distances[id] == BR_NOHIT
    {
      distances := new Double[size](_ => BR_NOHIT);
      this.etc := etc;
      hit := [];
    }

    /** One execution of a compare.  A distance of -2 cannot be told from the mark for a branch
        already passed, and is not replaced. */
    method VisitCmpInteger(id: nat, p: Predicate, size: nat, sarg1: nat, sarg2: nat, zarg1: nat, zarg2: nat)
      requires Valid() && id < distances.Length && id !in etc && (size == 8 || size == 16 || size == 32)
      modifies this`hit, distances
      ensures Valid()
      ensures distances[..] == if old(distances[id]).Is(BR_SUCC) then old(distances[..])
                               else old(distances[..])[id := Written(p, sarg1, sarg2, zarg1, zarg2, size)]
      ensures hit == if id in old(hit) then old(hit) else old(hit) + [id]
    {
      hide Written;
      if distances[id].Is(BR_SUCC) {
        return;
      }
      if distances[id].Is(BR_NOHIT) {
        hit := hit + [id];
      }
      DistanceIsPlain(p, sarg1, sarg2, zarg1, zarg2, size);
      NeverNoHit(p, sarg1, sarg2, zarg1, zarg2, size);
      distances[id] := Written(p, sarg1, sarg2, zarg1, zarg2, size);
    }

    /** One execution of another leaf: its value is stored, but the leaf is not listed. */
    method VisitEtc(id: nat, value: int)
      requires Valid() && id < distances.Length && id in etc && -0x8000_0000 <= value < 0x8000_0000
      modifies distances
      ensures Valid() && distances[..] == old(distances[..])[id := ToDouble(value)]
    {
      distances[id] := ToDouble(value);
    }

    /** What the fuzzer does before the next run: exactly the listed leaves are cleared.  That is
        every compare, while the other leaves keep their values of this run. */
    method ClearHits()
      requires Valid()
      modifies this`hit, distances
      ensures Valid() && hit == []
      ensures forall id :: 0 <= id < distances.Length ==>
                distances[id] == if id in old(hit) then BR_NOHIT else old(distances[id])
      ensures forall id :: 0 <= id < distances.Length && id !in etc ==> distances[id].Is(BR_NOHIT)
      ensures forall id :: 0 <= id < distances.Length && id in etc ==> distances[id] == old(distances[id])
    {
      var i := 0;
      while i < |hit|
        invariant 0 <= i <= |hit| && hit == old(hit)
        invariant forall id :: 0 <= id < distances.Length ==>
                    distances[id] == if id in hit[..i] then BR_NOHIT else old(distances[id])
      {
        assert hit[..i + 1] == hit[..i] + [hit[i]];
        distances[hit[i]] := BR_NOHIT;
        i := i + 1;
      }
      assert hit[..i] == hit;
      hit := [];
    }
  }

  lemma NeverNoHit(p: Predicate, sarg1: nat, sarg2: nat, zarg1: nat, zarg2: nat, size: nat)
    requires size > 0
    ensures !Written(p, sarg1, sarg2, zarg1, zarg2, size).Is(BR_NOHIT)
  {
    hide AsSigned, AsUnsigned;
    NotNoHit(p, AsSigned(sarg1, size), AsSigned(sarg2, size), AsUnsigned(zarg1, size), AsUnsigned(zarg2, size));
  }

  lemma WholeIsNot(i: int)
    ensures ToDouble(i).mag != 3.032
  {
    if i > 3 || i < -3 {
      assert ToDouble(i).mag >= 4.0;
    }
  }

  lemma NotNoHit(p: Predicate, s1: int, s2: int, z1: int, z2: int)
    ensures Stored(p, s1, s2, z1, z2).mag != 3.032
  {
    WholeIsNot(s2 - s1);
    WholeIsNot(z2 - z1);
    WholeIsNot(Abs(s1 - s2));
    WholeIsNot(Abs(z1 - z2));
  }
}
