/** Turning a switch into a decision tree over the bytes of its operand.

    `Convert` is the tree; class `Splitter` creates its blocks and edits the PHI nodes of the
    case successors, one entry at a time, while it recurses. */
module SplitSwitches {
  import opened Words

  /** Each switch has a new default block of its own, named by the block the switch ended. */
  datatype Label = Block(id: nat) | NewDefault(orig: nat) | Node(id: nat)

  datatype CaseExpr = CaseExpr(val: nat, bb: nat)

  // ----- bytes of a value -----

  /** Byte `i`, the lowest first: shift right by 8 * i, truncate to 8 bits. */
  function ByteAt(v: nat, i: nat): (b: nat)
    ensures b < 256
  {
    if i == 0 then v % 256 else ByteAt(v / 256, i - 1)
  }

  /** 256 to the power `n`. */
  function Radix(n: nat): (r: nat)
    ensures r >= 1
  {
    if n == 0 then 1 else 256 * Radix(n - 1)
  }

  ghost predicate SameBytes(a: nat, b: nat, n: nat) {
    forall i :: 0 <= i < n ==> ByteAt(a, i) == ByteAt(b, i)
  }

  lemma DivMod(v: nat, r: nat)
    requires r >= 1
    ensures v % (256 * r) == v / 256 % r * 256 + v % 256
  {
    var q := v / 256;
    var a, b := q / r, q % r;
    assert v == 256 * q + v % 256;
    assert q == a * r + b by { assert q == r * (q / r) + q % r; }
    assert v == a * (256 * r) + (256 * b + v % 256) by {
      assert 256 * (a * r) == a * (256 * r);
    }
    assert 0 <= 256 * b + v % 256 < 256 * r;
    ModUnique(v, 256 * r, a, 256 * b + v % 256);
  }

  /** Equal bytes are equal remainders modulo 256^n. */
  lemma {:induction false} SameBytesIffSameLow(a: nat, b: nat, n: nat)
    ensures SameBytes(a, b, n) <==> a % Radix(n) == b % Radix(n)
  {
    if n > 0 {
      var r := Radix(n - 1);
      SameBytesIffSameLow(a / 256, b / 256, n - 1);
      DivMod(a, r);
      DivMod(b, r);
      if SameBytes(a, b, n) {
        forall i | 0 <= i < n - 1
          ensures ByteAt(a / 256, i) == ByteAt(b / 256, i)
        {
          assert ByteAt(a, i + 1) == ByteAt(b, i + 1);
        }
        assert ByteAt(a, 0) == ByteAt(b, 0);
      }
      if a % Radix(n) == b % Radix(n) {
        assert a % 256 == b % 256 && a / 256 % r == b / 256 % r;
        forall i | 0 <= i < n
          ensures ByteAt(a, i) == ByteAt(b, i)
        {
          if i > 0 {
            assert ByteAt(a / 256, i - 1) == ByteAt(b / 256, i - 1);
          }
        }
      }
    }
  }

  // ----- choosing a byte and a pivot -----

  function ByteSet(cases: seq<CaseExpr>, i: nat): (s: set<nat>)
    ensures forall b :: b in s ==> b < 256
  {
    set c <- cases :: ByteAt(c.val, i)
  }

  /** The first unchecked byte with the fewest distinct values. */
  ghost predicate IsSmallest(cases: seq<CaseExpr>, checked: seq<bool>, i: nat) {
    && i < |checked| && !checked[i]
    && (forall j :: 0 <= j < |checked| && !checked[j] ==> |ByteSet(cases, i)| <= |ByteSet(cases, j)|)
    && (forall j :: 0 <= j < i && !checked[j] ==> |ByteSet(cases, i)| < |ByteSet(cases, j)|)
  }

  ghost function Below(s: set<nat>, p: nat): set<nat> {
    set x <- s | x < p
  }

  /** The element at index |s| / 2 of the sorted elements. */
  ghost predicate IsPivot(s: set<nat>, p: nat) {
    p in s && |Below(s, p)| == |s| / 2
  }

  function Less(cases: seq<CaseExpr>, i: nat, p: nat): seq<CaseExpr> {
    if |cases| == 0 then []
    else Less(cases[..|cases| - 1], i, p) + if ByteAt(cases[|cases| - 1].val, i) < p then [cases[|cases| - 1]] else []
  }

  function NotLess(cases: seq<CaseExpr>, i: nat, p: nat): seq<CaseExpr> {
    if |cases| == 0 then []
    else NotLess(cases[..|cases| - 1], i, p) + if ByteAt(cases[|cases| - 1].val, i) < p then [] else [cases[|cases| - 1]]
  }

  lemma {:induction false} PartitionMultiset(cases: seq<CaseExpr>, i: nat, p: nat)
    ensures multiset(Less(cases, i, p)) + multiset(NotLess(cases, i, p)) == multiset(cases)
  {
    if |cases| > 0 {
      var n := |cases| - 1;
      PartitionMultiset(cases[..n], i, p);
      assert cases == cases[..n] + [cases[n]];
    }
  }

  lemma {:induction false} PartitionMembers(cases: seq<CaseExpr>, i: nat, p: nat, c: CaseExpr)
    ensures c in Less(cases, i, p) <==> c in cases && ByteAt(c.val, i) < p
    ensures c in NotLess(cases, i, p) <==> c in cases && ByteAt(c.val, i) >= p
  {
    if |cases| > 0 {
      var n := |cases| - 1;
      PartitionMembers(cases[..n], i, p, c);
      assert c in cases <==> c in cases[..n] || c == cases[n];
    }
  }

  lemma SmallerSubset(a: set<nat>, b: set<nat>)
    requires a <= b
    ensures |a| <= |b|
    ensures a != b ==> |a| < |b|
  {
    assert |b| == |a| + |b - a| by { assert b == a + (b - a); }
  }

  /** A pivot exists: both halves keep at least one byte value. */
  lemma {:induction false} PivotExists(s: set<nat>, k: nat) returns (p: nat)
    requires k < |s|
    ensures p in s && |Below(s, p)| == k
    decreases k
  {
    var m := Least(s);
    if k == 0 {
      p := m;
      assert Below(s, p) == {};
    } else {
      p := PivotExists(s - {m}, k - 1);
      assert Below(s, p) == Below(s - {m}, p) + {m};
    }
  }

  lemma {:induction false} Least(s: set<nat>) returns (m: nat)
    requires |s| > 0
    ensures m in s && forall x :: x in s ==> m <= x
    decreases |s|
  {
    var m0 :| m0 in s;
    m := m0;
    if s == {m0} {
    } else {
      assert s - {m0} != {};
      var r := Least(s - {m0});
      if r < m0 {
        m := r;
      }
      assert forall x :: x in s ==> x == m0 || x in s - {m0};
    }
  }

  lemma PivotUnique(s: set<nat>, p: nat, q: nat)
    requires IsPivot(s, p) && IsPivot(s, q)
    ensures p == q
  {
    if p < q {
      assert p in Below(s, q) - Below(s, p);
      SmallerSubset(Below(s, p), Below(s, q));
    } else if q < p {
      assert q in Below(s, p) - Below(s, q);
      SmallerSubset(Below(s, q), Below(s, p));
    }
  }

  ghost function Unchecked(checked: seq<bool>): nat {
    if |checked| == 0 then 0 else Unchecked(checked[..|checked| - 1]) + if checked[|checked| - 1] then 0 else 1
  }

  lemma {:induction false} CheckOne(checked: seq<bool>, i: nat)
    requires i < |checked| && !checked[i]
    ensures Unchecked(checked[i := true]) == Unchecked(checked) - 1
  {
    var n := |checked| - 1;
    if i == n {
      assert checked[i := true][..n] == checked[..n];
    } else {
      assert checked[i := true][..n] == checked[..n][i := true];
      CheckOne(checked[..n], i);
    }
  }

  lemma {:induction false} NoneUnchecked(checked: seq<bool>)
    ensures Unchecked(checked) == 0 <==> forall i :: 0 <= i < |checked| ==> checked[i]
    ensures Unchecked(checked) <= |checked|
  {
    if |checked| > 0 {
      var n := |checked| - 1;
      NoneUnchecked(checked[..n]);
      if forall i :: 0 <= i < n ==> checked[..n][i] {
        assert forall i :: 0 <= i < n ==> checked[i];
      } else {
        var i :| 0 <= i < n && !checked[..n][i];
        assert !checked[i];
      }
    }
  }

  lemma {:induction false} SmallestExists(cases: seq<CaseExpr>, checked: seq<bool>, upto: nat) returns (i: nat)
    requires upto <= |checked| && Unchecked(checked[..upto]) > 0
    ensures i < upto && IsSmallest(cases, checked[..upto], i)
    decreases upto
  {
    var c := checked[..upto];
    var n := upto - 1;
    assert c[..n] == checked[..n];
    if Unchecked(checked[..n]) == 0 {
      NoneUnchecked(checked[..n]);
      i := n;
      forall j | 0 <= j < n ensures c[j] { assert checked[..n][j]; }
    } else {
      i := SmallestExists(cases, checked, n);
      assert forall j :: 0 <= j < n ==> checked[..n][j] == c[j];
      if !c[n] && |ByteSet(cases, n)| < |ByteSet(cases, i)| {
        i := n;
      }
    }
  }

  ghost function Smallest(cases: seq<CaseExpr>, checked: seq<bool>): (i: nat)
    requires Unchecked(checked) > 0
    ensures IsSmallest(cases, checked, i)
  {
    assert exists i :: IsSmallest(cases, checked, i) by {
      assert checked[..|checked|] == checked;
      var i := SmallestExists(cases, checked, |checked|);
    }
    var i: nat :| IsSmallest(cases, checked, i);
    i
  }

  ghost function PivotOf(s: set<nat>): (p: nat)
    requires |s| > 1
    ensures IsPivot(s, p)
  {
    assert exists p :: IsPivot(s, p) by {
      var p := PivotExists(s, |s| / 2);
      assert IsPivot(s, p);
    }
    var p: nat :| IsPivot(s, p);
    p
  }

  lemma InByteSet(cases: seq<CaseExpr>, i: nat, c: CaseExpr)
    requires c in cases
    ensures ByteAt(c.val, i) in ByteSet(cases, i)
  {
  }

  lemma HalfByteSets(cases: seq<CaseExpr>, i: nat, p: nat)
    ensures ByteSet(Less(cases, i, p), i) == Below(ByteSet(cases, i), p)
    ensures ByteSet(NotLess(cases, i, p), i) == ByteSet(cases, i) - Below(ByteSet(cases, i), p)
  {
    forall c: CaseExpr
      ensures c in Less(cases, i, p) <==> c in cases && ByteAt(c.val, i) < p
      ensures c in NotLess(cases, i, p) <==> c in cases && ByteAt(c.val, i) >= p
    {
      PartitionMembers(cases, i, p, c);
    }
  }

  lemma SubsetByteSets(cases: seq<CaseExpr>, i: nat, p: nat, j: nat)
    ensures ByteSet(Less(cases, i, p), j) <= ByteSet(cases, j)
    ensures ByteSet(NotLess(cases, i, p), j) <= ByteSet(cases, j)
  {
    forall c: CaseExpr
      ensures c in Less(cases, i, p) ==> c in cases
      ensures c in NotLess(cases, i, p) ==> c in cases
    {
      PartitionMembers(cases, i, p, c);
    }
  }

  /** Both halves of a pivot split are non-empty, and so smaller than the whole. */
  lemma HalvesSmaller(cases: seq<CaseExpr>, i: nat, p: nat)
    requires |ByteSet(cases, i)| > 1 && IsPivot(ByteSet(cases, i), p)
    ensures 0 < |Less(cases, i, p)| < |cases|
    ensures 0 < |NotLess(cases, i, p)| < |cases|
  {
    hide Less, NotLess;
    var s := ByteSet(cases, i);
    var l, r := Less(cases, i, p), NotLess(cases, i, p);
    HalfByteSets(cases, i, p);
    assert |multiset(l)| + |multiset(r)| == |multiset(cases)| by {
      PartitionMultiset(cases, i, p);
    }
    assert Below(s, p) != {};
    assert p in ByteSet(r, i);
  }

  // ----- the tree -----

  /** `id` numbers the blocks in the order they are created. */
  datatype Tree =
    | Accept(id: nat, index: nat, byte: nat, bb: nat)           // the last byte: the case, or the default
    | Match(id: nat, index: nat, byte: nat, rest: Tree)         // go on, or the default
    | Pivot(id: nat, index: nat, pivot: nat, less: Tree, notLess: Tree)

  function Size(t: Tree): nat {
    match t
    case Accept(_, _, _, _) => 1
    case Match(_, _, _, rest) => 1 + Size(rest)
    case Pivot(_, _, _, l, r) => 1 + Size(l) + Size(r)
  }

  function Eval(t: Tree, orig: nat, v: nat): Label {
    match t
    case Accept(_, i, b, bb) => if ByteAt(v, i) == b then Block(bb) else NewDefault(orig)
    case Match(_, i, b, rest) => if ByteAt(v, i) == b then Eval(rest, orig, v) else NewDefault(orig)
    case Pivot(_, i, p, l, r) => if ByteAt(v, i) < p then Eval(l, orig, v) else Eval(r, orig, v)
  }

  /** What the recursion relies on: there is a byte left to test, there are cases, they differ
      from one another, and agree on the bytes tested so far. */
  ghost predicate Convertible(cases: seq<CaseExpr>, checked: seq<bool>) {
    && |cases| > 0 && Unchecked(checked) > 0
    && (forall c :: multiset(cases)[c] <= 1)
    && (forall a, b :: a in cases && b in cases && SameBytes(a.val, b.val, |checked|) ==> a == b)
    && (forall a, b, i :: a in cases && b in cases && 0 <= i < |checked| && checked[i] ==> ByteAt(a.val, i) == ByteAt(b.val, i))
  }

  lemma SplitConvertible(cases: seq<CaseExpr>, checked: seq<bool>, i: nat, p: nat)
    requires Convertible(cases, checked)
    ensures |Less(cases, i, p)| > 0 ==> Convertible(Less(cases, i, p), checked)
    ensures |NotLess(cases, i, p)| > 0 ==> Convertible(NotLess(cases, i, p), checked)
  {
    hide Less, NotLess, SameBytes;
    PartitionMultiset(cases, i, p);
    forall c: CaseExpr
      ensures c in Less(cases, i, p) ==> c in cases
      ensures c in NotLess(cases, i, p) ==> c in cases
      ensures multiset(Less(cases, i, p))[c] <= 1 && multiset(NotLess(cases, i, p))[c] <= 1
    {
      PartitionMembers(cases, i, p, c);
      assert multiset(cases)[c] <= 1;
    }
  }

  lemma OneByte(cases: seq<CaseExpr>, i: nat, b: nat, c: CaseExpr)
    requires ByteSet(cases, i) == {b} && c in cases
    ensures ByteAt(c.val, i) == b
  {
    assert ByteAt(c.val, i) in ByteSet(cases, i);
  }

  lemma MatchConvertible(cases: seq<CaseExpr>, checked: seq<bool>, i: nat, b: nat)
    requires Convertible(cases, checked) && i < |checked| && !checked[i] && ByteSet(cases, i) == {b}
    ensures Unchecked(checked) == 1 ==> |cases| == 1
    ensures Unchecked(checked) > 1 ==> Convertible(cases, checked[i := true])
  {
    var checked' := checked[i := true];
    CheckOne(checked, i);
    forall a, c, j | a in cases && c in cases && 0 <= j < |checked| && checked'[j]
      ensures ByteAt(a.val, j) == ByteAt(c.val, j)
    {
      if j == i {
        OneByte(cases, i, b, a);
        OneByte(cases, i, b, c);
      }
    }
    if Unchecked(checked) == 1 {
      NoneUnchecked(checked');
      if |cases| > 1 {
        var a, c := cases[0], cases[1];
        assert cases == [a] + [c] + cases[2..];
        assert multiset(cases)[a] == 1 + multiset([c])[a] + multiset(cases[2..])[a];
        forall j | 0 <= j < |checked|
          ensures ByteAt(a.val, j) == ByteAt(c.val, j)
        {
          assert checked'[j];
        }
        assert SameBytes(a.val, c.val, |checked|);
      }
    }
  }

  ghost function Chosen(s: set<nat>): (b: nat)
    requires |s| == 1
    ensures s == {b}
  {
    var b :| b in s;
    assert |s - {b}| == 0;
    b
  }

  lemma SomeByte(cases: seq<CaseExpr>, i: nat)
    requires |cases| > 0
    ensures |ByteSet(cases, i)| > 0
  {
    InByteSet(cases, i, cases[0]);
  }

  /** The tree for these cases, its blocks numbered from `next`. */
  ghost function Convert(cases: seq<CaseExpr>, checked: seq<bool>, next: nat): (t: Tree)
    requires Convertible(cases, checked)
    decreases Unchecked(checked), |cases|
  {
    var i := Smallest(cases, checked);
    var s := ByteSet(cases, i);
    SomeByte(cases, i);
    if |s| == 1 then
      var b := Chosen(s);
      MatchConvertible(cases, checked, i, b);
      CheckOne(checked, i);
      if Unchecked(checked) == 1 then Accept(next, i, b, cases[0].bb)
      else Match(next, i, b, Convert(cases, checked[i := true], next + 1))
    else
      var p := PivotOf(s);
      HalvesSmaller(cases, i, p);
      SplitConvertible(cases, checked, i, p);
      var l := Convert(Less(cases, i, p), checked, next + 1);
      Pivot(next, i, p, l, Convert(NotLess(cases, i, p), checked, next + 1 + Size(l)))
  }

  // ----- meaning -----

  /** What the switch does. */
  ghost function SwitchTarget(cases: seq<CaseExpr>, orig: nat, v: nat): Label {
    if c :| c in cases && c.val == v then Block(c.bb) else NewDefault(orig)
  }

  ghost predicate AgreesOnChecked(cases: seq<CaseExpr>, checked: seq<bool>, v: nat) {
    forall c, i :: c in cases && 0 <= i < |checked| && checked[i] ==> ByteAt(c.val, i) == ByteAt(v, i)
  }

  /** `target` is the block of the case with the same bytes as `v`, or the default if there is
      none. */
  ghost predicate GoesTo(cases: seq<CaseExpr>, orig: nat, n: nat, v: nat, target: Label) {
    && (forall c :: c in cases && SameBytes(c.val, v, n) ==> target == Block(c.bb))
    && ((forall c :: c in cases ==> !SameBytes(c.val, v, n)) ==> target == NewDefault(orig))
  }

  lemma HalfGoesTo(cases: seq<CaseExpr>, orig: nat, n: nat, v: nat, i: nat, p: nat, target: Label)
    requires i < n
    requires GoesTo(if ByteAt(v, i) < p then Less(cases, i, p) else NotLess(cases, i, p), orig, n, v, target)
    ensures GoesTo(cases, orig, n, v, target)
  {
    forall c: CaseExpr
      ensures c in Less(cases, i, p) <==> c in cases && ByteAt(c.val, i) < p
      ensures c in NotLess(cases, i, p) <==> c in cases && ByteAt(c.val, i) >= p
    {
      PartitionMembers(cases, i, p, c);
    }
  }

  lemma HalfAgrees(cases: seq<CaseExpr>, checked: seq<bool>, v: nat, i: nat, p: nat)
    requires AgreesOnChecked(cases, checked, v)
    ensures AgreesOnChecked(Less(cases, i, p), checked, v)
    ensures AgreesOnChecked(NotLess(cases, i, p), checked, v)
  {
    forall c: CaseExpr
      ensures c in Less(cases, i, p) ==> c in cases
      ensures c in NotLess(cases, i, p) ==> c in cases
    {
      PartitionMembers(cases, i, p, c);
    }
  }

  lemma MatchAgrees(cases: seq<CaseExpr>, orig: nat, checked: seq<bool>, v: nat, i: nat, b: nat)
    requires AgreesOnChecked(cases, checked, v)
    requires i < |checked| && ByteSet(cases, i) == {b}
    ensures ByteAt(v, i) == b ==> AgreesOnChecked(cases, checked[i := true], v)
    ensures ByteAt(v, i) != b ==> GoesTo(cases, orig, |checked|, v, NewDefault(orig))
  {
    forall c | c in cases
      ensures ByteAt(c.val, i) == b
    {
      OneByte(cases, i, b, c);
    }
  }

  lemma LastByteGoesTo(cases: seq<CaseExpr>, orig: nat, checked: seq<bool>, v: nat)
    requires |cases| == 1 && AgreesOnChecked(cases, checked, v)
    requires forall j :: 0 <= j < |checked| ==> checked[j]
    ensures GoesTo(cases, orig, |checked|, v, Block(cases[0].bb))
  {
    var c := cases[0];
    assert cases == [c];
    assert SameBytes(c.val, v, |checked|);
  }

  /** A value that agrees with the cases on the bytes already tested goes to the case with the
      same bytes, if there is one, and to the default otherwise. */
  lemma {:induction false} EvalConvert(cases: seq<CaseExpr>, orig: nat, checked: seq<bool>, next: nat, v: nat)
    requires Convertible(cases, checked) && AgreesOnChecked(cases, checked, v)
    ensures GoesTo(cases, orig, |checked|, v, Eval(Convert(cases, checked, next), orig, v))
    decreases Unchecked(checked), |cases|
  {
    hide GoesTo, AgreesOnChecked, Convertible, Less, NotLess, ByteSet, ByteAt, Unchecked, IsPivot;
    SomeCase(cases, checked);
    var i := Smallest(cases, checked);
    var s := ByteSet(cases, i);
    SomeByte(cases, i);
    if |s| == 1 {
      var b := Chosen(s);
      MatchConvertible(cases, checked, i, b);
      CheckOne(checked, i);
      MatchAgrees(cases, orig, checked, v, i, b);
      if Unchecked(checked) > 1 {
        if ByteAt(v, i) == b {
          EvalConvert(cases, orig, checked[i := true], next + 1, v);
        }
      } else {
        NoneUnchecked(checked[i := true]);
        if ByteAt(v, i) == b {
          LastByteGoesTo(cases, orig, checked[i := true], v);
        }
      }
    } else {
      var p := PivotOf(s);
      HalvesSmaller(cases, i, p);
      SplitConvertible(cases, checked, i, p);
      HalfAgrees(cases, checked, v, i, p);
      var l := Convert(Less(cases, i, p), checked, next + 1);
      EvalConvert(Less(cases, i, p), orig, checked, next + 1, v);
      EvalConvert(NotLess(cases, i, p), orig, checked, next + 1 + Size(l), v);
      HalfGoesTo(cases, orig, |checked|, v, i, p, Eval(Convert(cases, checked, next), orig, v));
    }
  }

  lemma SomeCase(cases: seq<CaseExpr>, checked: seq<bool>)
    requires Convertible(cases, checked)
    ensures |cases| > 0 && Unchecked(checked) > 0
  {
  }

  /** The root tests the unchecked byte with the fewest values, and for equality exactly when some
      unchecked byte is the same in all cases. */
  lemma {:induction false} RootTestsFewest(cases: seq<CaseExpr>, checked: seq<bool>, next: nat)
    requires Convertible(cases, checked)
    ensures var t := Convert(cases, checked, next);
            && t.index < |checked| && !checked[t.index]
            && (forall j :: 0 <= j < |checked| && !checked[j] ==> |ByteSet(cases, t.index)| <= |ByteSet(cases, j)|)
            && (!t.Pivot? <==> exists j :: 0 <= j < |checked| && !checked[j] && |ByteSet(cases, j)| == 1)
  {
    SomeCase(cases, checked);
    var i := Smallest(cases, checked);
    assert Convert(cases, checked, next).index == i;
    forall j: nat
      ensures |ByteSet(cases, j)| > 0
    {
      SomeByte(cases, j);
    }
    hide ByteSet, Convertible, Less, NotLess;
  }

  // ----- whole bytes -----

  lemma {:induction false} RadixPow2(n: nat)
    ensures Radix(n) == Pow2(8 * n)
  {
    if n > 0 {
      RadixPow2(n - 1);
      var k := 8 * (n - 1);
      assert Pow2(k + 2) == 4 * Pow2(k) && Pow2(k + 4) == 4 * Pow2(k + 2);
      assert Pow2(k + 6) == 4 * Pow2(k + 4) && Pow2(k + 8) == 4 * Pow2(k + 6);
    }
  }

  lemma {:induction false} Pow2Doubles(a: nat, b: nat)
    requires a < b
    ensures Pow2(b) >= 2 * Pow2(a)
    decreases b
  {
    if a < b - 1 {
      Pow2Doubles(a, b - 1);
    }
  }

  /** What LLVM guarantees of a switch on a `w`-bit value. */
  ghost predicate WellFormedSwitch(cases: seq<CaseExpr>, w: nat) {
    && |cases| > 0
    && (forall c :: multiset(cases)[c] <= 1)
    && (forall c :: c in cases ==> c.val < Pow2(w))
    && (forall a, b :: a in cases && b in cases && a.val == b.val ==> a == b)
  }

  function AllUnchecked(n: nat): (r: seq<bool>)
    ensures |r| == n
  {
    seq(n, _ => false)
  }

  lemma {:induction false} AllUncheckedCount(n: nat)
    ensures Unchecked(AllUnchecked(n)) == n
  {
    if n > 0 {
      AllUncheckedCount(n - 1);
      assert AllUnchecked(n)[..n - 1] == AllUnchecked(n - 1);
    }
  }

  lemma BytesDetermine(a: nat, b: nat, n: nat)
    requires a < Pow2(8 * n) && b < Pow2(8 * n) && SameBytes(a, b, n)
    ensures a == b
  {
    RadixPow2(n);
    SameBytesIffSameLow(a, b, n);
    ModUnique(a, Radix(n), 0, a);
    ModUnique(b, Radix(n), 0, b);
  }

  /** On a whole number of bytes every switch can be converted. */
  lemma WholeBytesConvertible(cases: seq<CaseExpr>, n: nat)
    requires n > 0 && WellFormedSwitch(cases, 8 * n)
    ensures Convertible(cases, AllUnchecked(n))
  {
    AllUncheckedCount(n);
    forall a, b | a in cases && b in cases && SameBytes(a.val, b.val, n)
      ensures a == b
    {
      BytesDetermine(a.val, b.val, n);
    }
  }

  /** The tree does what the switch does, for every value. */
  lemma ConvertMeaning(cases: seq<CaseExpr>, orig: nat, n: nat, next: nat, v: nat)
    requires n > 0 && WellFormedSwitch(cases, 8 * n) && v < Pow2(8 * n)
    ensures Convertible(cases, AllUnchecked(n))
    ensures Eval(Convert(cases, AllUnchecked(n), next), orig, v) == SwitchTarget(cases, orig, v)
  {
    WholeBytesConvertible(cases, n);
    EvalConvert(cases, orig, AllUnchecked(n), next, v);
    forall c | c in cases
      ensures SameBytes(c.val, v, n) <==> c.val == v
    {
      if SameBytes(c.val, v, n) {
        BytesDetermine(c.val, v, n);
      }
    }
  }

  /** The same bits below byte `n`, but another value. */
  lemma Sibling(val: nat, n: nat, w: nat) returns (v: nat)
    requires 8 * n < w && val < Pow2(w)
    ensures v < Pow2(w) && v != val && SameBytes(val, v, n)
  {
    var r := Radix(n);
    RadixPow2(n);
    Pow2Doubles(8 * n, w);
    if val < r {
      v := val + r;
      ModUnique(val, r, 0, val);
      ModUnique(v, r, 1, val);
    } else {
      v := val % r;
      ModUnique(v, r, 0, v);
    }
    SameBytesIffSameLow(val, v, n);
  }

  // ----- where the assertion fails -----

  /** Somewhere in the recursion the last byte has been tested and the number of cases left is
      not one, which the pass asserts. */
  ghost predicate AssertionFails(cases: seq<CaseExpr>, checked: seq<bool>)
    requires |cases| > 0 && Unchecked(checked) > 0
    decreases Unchecked(checked), |cases|
  {
    var i := Smallest(cases, checked);
    var s := ByteSet(cases, i);
    SomeByte(cases, i);
    if |s| == 1 then
      CheckOne(checked, i);
      if Unchecked(checked) == 1 then |cases| != 1 else AssertionFails(cases, checked[i := true])
    else
      var p := PivotOf(s);
      HalvesSmaller(cases, i, p);
      AssertionFails(Less(cases, i, p), checked) || AssertionFails(NotLess(cases, i, p), checked)
  }

  /** Two cases with the same bytes are never separated. */
  lemma {:induction false} CollisionFails(cases: seq<CaseExpr>, checked: seq<bool>, a: CaseExpr, b: CaseExpr)
    requires Unchecked(checked) > 0 && a in cases && b in cases && a != b && SameBytes(a.val, b.val, |checked|)
    ensures AssertionFails(cases, checked)
    decreases Unchecked(checked), |cases|
  {
    hide Less, NotLess, ByteSet, Unchecked, IsPivot, ByteAt;
    var i := Smallest(cases, checked);
    var s := ByteSet(cases, i);
    SomeByte(cases, i);
    if |s| == 1 {
      CheckOne(checked, i);
      if Unchecked(checked) > 1 {
        CollisionFails(cases, checked[i := true], a, b);
      } else {
        assert |cases| != 1;
      }
    } else {
      var p := PivotOf(s);
      HalvesSmaller(cases, i, p);
      PartitionMembers(cases, i, p, a);
      PartitionMembers(cases, i, p, b);
      if ByteAt(a.val, i) < p {
        CollisionFails(Less(cases, i, p), checked, a, b);
      } else {
        CollisionFails(NotLess(cases, i, p), checked, a, b);
      }
    }
  }

  /** Cases that can be told apart are. */
  lemma {:induction false} ConvertibleSucceeds(cases: seq<CaseExpr>, checked: seq<bool>)
    requires Convertible(cases, checked)
    ensures |cases| > 0 && Unchecked(checked) > 0 && !AssertionFails(cases, checked)
    decreases Unchecked(checked), |cases|
  {
    hide Convertible, Less, NotLess, ByteSet, Unchecked, IsPivot;
    SomeCase(cases, checked);
    var i := Smallest(cases, checked);
    var s := ByteSet(cases, i);
    SomeByte(cases, i);
    if |s| == 1 {
      MatchConvertible(cases, checked, i, Chosen(s));
      CheckOne(checked, i);
      if Unchecked(checked) > 1 {
        ConvertibleSucceeds(cases, checked[i := true]);
      }
    } else {
      var p := PivotOf(s);
      HalvesSmaller(cases, i, p);
      SplitConvertible(cases, checked, i, p);
      ConvertibleSucceeds(Less(cases, i, p), checked);
      ConvertibleSucceeds(NotLess(cases, i, p), checked);
    }
  }

  /** Some two cases have the same `n` low bytes. */
  ghost predicate Collide(cases: seq<CaseExpr>, n: nat) {
    exists a, b :: a in cases && b in cases && a != b && a.val % Pow2(8 * n) == b.val % Pow2(8 * n)
  }

  lemma CollideIffNotConvertible(cases: seq<CaseExpr>, w: nat, n: nat)
    requires WellFormedSwitch(cases, w) && n > 0
    ensures Convertible(cases, AllUnchecked(n)) <==> !Collide(cases, n)
  {
    AllUncheckedCount(n);
    RadixPow2(n);
    forall a, b | a in cases && b in cases
      ensures SameBytes(a.val, b.val, n) <==> a.val % Pow2(8 * n) == b.val % Pow2(8 * n)
    {
      SameBytesIffSameLow(a.val, b.val, n);
    }
  }

  /** The pass takes the bytes of a `w`-bit operand to be `w / 8`.  Its assertion fails exactly
      when two cases differ in the bits above them only. */
  lemma AssertionFailsIff(cases: seq<CaseExpr>, w: nat)
    requires WellFormedSwitch(cases, w) && w >= 8
    ensures Unchecked(AllUnchecked(w / 8)) > 0
    ensures AssertionFails(cases, AllUnchecked(w / 8)) <==> Collide(cases, w / 8)
  {
    hide Unchecked, AllUnchecked, Convertible, AssertionFails, SameBytes, WellFormedSwitch;
    var n := w / 8;
    AllUncheckedCount(n);
    CollideIffNotConvertible(cases, w, n);
    SwitchHasCases(cases, w);
    if Collide(cases, n) {
      var a, b :| a in cases && b in cases && a != b && a.val % Pow2(8 * n) == b.val % Pow2(8 * n);
      RadixPow2(n);
      SameBytesIffSameLow(a.val, b.val, n);
      CollisionFails(cases, AllUnchecked(n), a, b);
    } else {
      ConvertibleSucceeds(cases, AllUnchecked(n));
    }
  }

  lemma SwitchHasCases(cases: seq<CaseExpr>, w: nat)
    requires WellFormedSwitch(cases, w)
    ensures |cases| > 0
  {
  }

  /** On 12 bits, two cases that differ above bit 8 only: their low bytes are one, so the one
      byte of the operand is tested for equality, and two cases are left. */
  lemma TwelveBits()
    ensures var cases := [CaseExpr(0x101, 1), CaseExpr(0x201, 2)];
            && WellFormedSwitch(cases, 12) && ByteSet(cases, 0) == {1}
            && Unchecked(AllUnchecked(12 / 8)) == 1 && AssertionFails(cases, AllUnchecked(12 / 8))
  {
    var cases := [CaseExpr(0x101, 1), CaseExpr(0x201, 2)];
    assert Pow2(4) == 16 && Pow2(8) == 16 * Pow2(4) && Pow2(12) == 16 * Pow2(8);
    forall c
      ensures multiset(cases)[c] <= 1
    {
    }
    assert ByteSet(cases, 0) == {1} by {
      assert cases[0] in cases;
      assert ByteAt(cases[0].val, 0) == 1;
    }
    AllUncheckedCount(1);
    assert cases[0] in cases && cases[1] in cases;
    assert SameBytes(0x101, 0x201, 1);
    CollisionFails(cases, AllUnchecked(1), cases[0], cases[1]);
  }

  // ----- which widths keep the meaning -----

  /** Of all switches on at least 8 bits, those on whole bytes, and no others, are converted
      without a failing assertion into a tree that does the same for every value. */
  lemma MeaningKeptIffWholeBytes(cases: seq<CaseExpr>, orig: nat, w: nat, next: nat)
    requires WellFormedSwitch(cases, w) && w >= 8
    ensures (&& Convertible(cases, AllUnchecked(w / 8))
             && forall v: nat :: v < Pow2(w) ==>
                  Eval(Convert(cases, AllUnchecked(w / 8), next), orig, v) == SwitchTarget(cases, orig, v))
            <==> w % 8 == 0
  {
    hide Convert, Eval;
    var n := w / 8;
    if w % 8 == 0 {
      assert 8 * n == w;
      WholeBytesConvertible(cases, n);
      forall v: nat | v < Pow2(w)
        ensures Eval(Convert(cases, AllUnchecked(n), next), orig, v) == SwitchTarget(cases, orig, v)
      {
        ConvertMeaning(cases, orig, n, next, v);
      }
    } else if Convertible(cases, AllUnchecked(n)) {
      var c := cases[0];
      var v := Sibling(c.val, n, w);
      NoneUnchecked(AllUnchecked(n));
      EvalConvert(cases, orig, AllUnchecked(n), next, v);
      assert Eval(Convert(cases, AllUnchecked(n), next), orig, v) == Block(c.bb);
      assert SwitchTarget(cases, orig, v) == NewDefault(orig);
    }
  }

  // ----- how long a path can be -----

  /** The most equality tests on a path from the root. */
  function MatchTests(t: Tree): nat {
    match t
    case Accept(_, _, _, _) => 1
    case Match(_, _, _, rest) => 1 + MatchTests(rest)
    case Pivot(_, _, _, l, r) => Max(MatchTests(l), MatchTests(r))
  }

  /** The most pivot tests on a path from the root. */
  function PivotTests(t: Tree): nat {
    match t
    case Accept(_, _, _, _) => 0
    case Match(_, _, _, rest) => PivotTests(rest)
    case Pivot(_, _, _, l, r) => 1 + Max(PivotTests(l), PivotTests(r))
  }

  /** Ceiling of the binary logarithm. */
  function CeilLog(m: nat): nat {
    if m <= 1 then 0 else 1 + CeilLog((m + 1) / 2)
  }

  lemma {:induction false} CeilLogMonotone(a: nat, b: nat)
    requires a <= b
    ensures CeilLog(a) <= CeilLog(b)
  {
    if a > 1 {
      CeilLogMonotone((a + 1) / 2, (b + 1) / 2);
    }
  }

  /** Halvings still possible: the sum over the unchecked bytes. */
  ghost function Potential(cases: seq<CaseExpr>, checked: seq<bool>, k: nat): nat
    requires k <= |checked|
  {
    if k == 0 then 0
    else Potential(cases, checked, k - 1) + if checked[k - 1] then 0 else CeilLog(|ByteSet(cases, k - 1)|)
  }

  lemma {:induction false} BoundedSet(s: set<nat>, n: nat)
    requires forall b :: b in s ==> b < n
    ensures |s| <= n
  {
    if n > 0 {
      BoundedSet(s - {n - 1}, n - 1);
    } else {
      assert s == {};
    }
  }

  lemma ByteSetLog(cases: seq<CaseExpr>, i: nat)
    ensures CeilLog(|ByteSet(cases, i)|) <= 8
  {
    var s := ByteSet(cases, i);
    BoundedSet(s, 256);
    CeilLogMonotone(|s|, 256);
    assert CeilLog(256) == 8;
  }

  lemma {:induction false} PotentialBound(cases: seq<CaseExpr>, checked: seq<bool>, k: nat)
    requires k <= |checked|
    ensures Potential(cases, checked, k) <= 8 * Unchecked(checked[..k])
  {
    if k > 0 {
      PotentialBound(cases, checked, k - 1);
      assert checked[..k][..k - 1] == checked[..k - 1];
      ByteSetLog(cases, k - 1);
    }
  }

  lemma {:induction false} PotentialDrops(cases: seq<CaseExpr>, half: seq<CaseExpr>, checked: seq<bool>, i: nat, k: nat)
    requires k <= |checked| && i < |checked| && !checked[i]
    requires forall j :: 0 <= j < |checked| ==> ByteSet(half, j) <= ByteSet(cases, j)
    requires CeilLog(|ByteSet(half, i)|) + 1 <= CeilLog(|ByteSet(cases, i)|)
    ensures Potential(half, checked, k) + (if i < k then 1 else 0) <= Potential(cases, checked, k)
  {
    if k > 0 {
      PotentialDrops(cases, half, checked, i, k - 1);
      SmallerSubset(ByteSet(half, k - 1), ByteSet(cases, k - 1));
      CeilLogMonotone(|ByteSet(half, k - 1)|, |ByteSet(cases, k - 1)|);
    }
  }

  lemma {:induction false} PotentialChecked(cases: seq<CaseExpr>, checked: seq<bool>, i: nat, k: nat)
    requires k <= |checked| && i < |checked|
    ensures Potential(cases, checked[i := true], k) <= Potential(cases, checked, k)
  {
    if k > 0 {
      PotentialChecked(cases, checked, i, k - 1);
    }
  }

  lemma HalvesDrop(cases: seq<CaseExpr>, checked: seq<bool>, i: nat, p: nat)
    requires i < |checked| && !checked[i]
    requires |ByteSet(cases, i)| > 1 && IsPivot(ByteSet(cases, i), p)
    ensures Potential(Less(cases, i, p), checked, |checked|) + 1 <= Potential(cases, checked, |checked|)
    ensures Potential(NotLess(cases, i, p), checked, |checked|) + 1 <= Potential(cases, checked, |checked|)
  {
    hide Less, NotLess, ByteSet;
    var s := ByteSet(cases, i);
    var m := |s|;
    HalfByteSets(cases, i, p);
    assert |s - Below(s, p)| == m - m / 2 by {
      assert s == Below(s, p) + (s - Below(s, p));
    }
    assert m - m / 2 == (m + 1) / 2;
    CeilLogMonotone(m / 2, (m + 1) / 2);
    forall j | 0 <= j < |checked|
      ensures ByteSet(Less(cases, i, p), j) <= ByteSet(cases, j) && ByteSet(NotLess(cases, i, p), j) <= ByteSet(cases, j)
    {
      SubsetByteSets(cases, i, p, j);
    }
    PotentialDrops(cases, Less(cases, i, p), checked, i, |checked|);
    PotentialDrops(cases, NotLess(cases, i, p), checked, i, |checked|);
  }

  lemma {:induction false} PathBounds(cases: seq<CaseExpr>, checked: seq<bool>, next: nat)
    requires Convertible(cases, checked)
    ensures MatchTests(Convert(cases, checked, next)) <= Unchecked(checked)
    ensures PivotTests(Convert(cases, checked, next)) <= Potential(cases, checked, |checked|)
    decreases Unchecked(checked), |cases|
  {
    hide Convertible, Less, NotLess, ByteSet, Unchecked, IsPivot, Potential;
    SomeCase(cases, checked);
    var i := Smallest(cases, checked);
    var s := ByteSet(cases, i);
    SomeByte(cases, i);
    if |s| == 1 {
      MatchConvertible(cases, checked, i, Chosen(s));
      CheckOne(checked, i);
      if Unchecked(checked) > 1 {
        PathBounds(cases, checked[i := true], next + 1);
        PotentialChecked(cases, checked, i, |checked|);
      }
    } else {
      var p := PivotOf(s);
      HalvesSmaller(cases, i, p);
      SplitConvertible(cases, checked, i, p);
      HalvesDrop(cases, checked, i, p);
      var l := Convert(Less(cases, i, p), checked, next + 1);
      PathBounds(Less(cases, i, p), checked, next + 1);
      PathBounds(NotLess(cases, i, p), checked, next + 1 + Size(l));
    }
  }

  /** However many cases there are, a path through the tree of an `n`-byte switch makes at most
      `n` equality tests and 8 * n pivot tests. */
  lemma PathLength(cases: seq<CaseExpr>, n: nat, next: nat)
    requires Convertible(cases, AllUnchecked(n))
    ensures MatchTests(Convert(cases, AllUnchecked(n), next)) <= n
    ensures PivotTests(Convert(cases, AllUnchecked(n), next)) <= 8 * n
  {
    AllUncheckedCount(n);
    PathBounds(cases, AllUnchecked(n), next);
    PotentialBound(cases, AllUnchecked(n), n);
    assert AllUnchecked(n)[..n] == AllUnchecked(n);
  }

  // ----- PHI nodes -----

  /** A PHI node of block `bb`: its incoming blocks. */
  datatype Phi = Phi(bb: nat, incoming: seq<Label>)

  function ReplaceFirst(s: seq<Label>, from: Label, to: Label): (r: seq<Label>)
    ensures |r| == |s|
  {
    if |s| == 0 then []
    else if s[0] == from then [to] + s[1..]
    else [s[0]] + ReplaceFirst(s[1..], from, to)
  }

  lemma {:induction false} ReplaceFirstCounts(s: seq<Label>, from: Label, to: Label)
    requires from in s && from != to
    ensures multiset(ReplaceFirst(s, from, to)) == multiset(s) - multiset{from} + multiset{to}
  {
    var r := ReplaceFirst(s, from, to);
    assert s == [s[0]] + s[1..];
    assert multiset(s) == multiset{s[0]} + multiset(s[1..]);
    if s[0] == from {
      assert multiset(r) == multiset{to} + multiset(s[1..]);
    } else {
      ReplaceFirstCounts(s[1..], from, to);
      assert multiset(r) == multiset{s[0]} + multiset(ReplaceFirst(s[1..], from, to));
    }
  }

  /** Only the first entry is updated, and only in the PHI nodes of `bb`. */
  function Redirect(phi: Phi, orig: Label, bb: nat, to: Label): Phi {
    if phi.bb == bb then phi.(incoming := ReplaceFirst(phi.incoming, orig, to)) else phi
  }

  /** The edits of one PHI node while the blocks of `t` are created. */
  function EditPhi(phi: Phi, orig: Label, t: Tree): (r: Phi)
    ensures r.bb == phi.bb
    decreases t
  {
    match t
    case Accept(id, _, _, bb) => Redirect(phi, orig, bb, Node(id))
    case Match(_, _, _, rest) => EditPhi(phi, orig, rest)
    case Pivot(_, _, _, l, r) => EditPhi(EditPhi(phi, orig, l), orig, r)
  }

  /** The nodes that lead into block `bb`. */
  ghost function AcceptsOf(t: Tree, bb: nat): multiset<Label> {
    match t
    case Accept(id, _, _, b) => if b == bb then multiset{Node(id)} else multiset{}
    case Match(_, _, _, rest) => AcceptsOf(rest, bb)
    case Pivot(_, _, _, l, r) => AcceptsOf(l, bb) + AcceptsOf(r, bb)
  }

  ghost function CasesOf(cases: seq<CaseExpr>, bb: nat): nat {
    if |cases| == 0 then 0
    else CasesOf(cases[..|cases| - 1], bb) + if cases[|cases| - 1].bb == bb then 1 else 0
  }

  lemma {:induction false} PartitionCasesOf(cases: seq<CaseExpr>, i: nat, p: nat, bb: nat)
    ensures CasesOf(Less(cases, i, p), bb) + CasesOf(NotLess(cases, i, p), bb) == CasesOf(cases, bb)
  {
    if |cases| > 0 {
      var n := |cases| - 1;
      var c := cases[n];
      PartitionCasesOf(cases[..n], i, p, bb);
      var l, r := Less(cases[..n], i, p), NotLess(cases[..n], i, p);
      assert (l + [c])[..|l|] == l && (r + [c])[..|r|] == r;
      assert l + [] == l && r + [] == r;
    }
  }

  /** Each case owns one node of its own. */
  lemma {:induction false} OneNodePerCase(cases: seq<CaseExpr>, checked: seq<bool>, next: nat, bb: nat)
    requires Convertible(cases, checked)
    ensures |AcceptsOf(Convert(cases, checked, next), bb)| == CasesOf(cases, bb)
    decreases Unchecked(checked), |cases|
  {
    hide Convertible, Less, NotLess, ByteSet, Unchecked, IsPivot;
    SomeCase(cases, checked);
    var i := Smallest(cases, checked);
    var s := ByteSet(cases, i);
    SomeByte(cases, i);
    if |s| == 1 {
      MatchConvertible(cases, checked, i, Chosen(s));
      CheckOne(checked, i);
      if Unchecked(checked) > 1 {
        OneNodePerCase(cases, checked[i := true], next + 1, bb);
      } else {
        assert CasesOf(cases, bb) == CasesOf([], bb) + if cases[0].bb == bb then 1 else 0 by {
          assert cases[..0] == [];
        }
      }
    } else {
      var p := PivotOf(s);
      HalvesSmaller(cases, i, p);
      SplitConvertible(cases, checked, i, p);
      var l := Convert(Less(cases, i, p), checked, next + 1);
      OneNodePerCase(Less(cases, i, p), checked, next + 1, bb);
      OneNodePerCase(NotLess(cases, i, p), checked, next + 1 + Size(l), bb);
      PartitionCasesOf(cases, i, p, bb);
    }
  }

  lemma {:induction false} AcceptsAreNodes(t: Tree, bb: nat, orig: Label)
    requires !orig.Node?
    ensures AcceptsOf(t, bb)[orig] == 0
  {
    match t
    case Accept(_, _, _, _) =>
    case Match(_, _, _, rest) => AcceptsAreNodes(rest, bb, orig);
    case Pivot(_, _, _, l, r) => AcceptsAreNodes(l, bb, orig); AcceptsAreNodes(r, bb, orig);
  }

  /** `m` with as many entries of `orig` traded for `a`. */
  ghost function Traded(m: multiset<Label>, orig: Label, a: multiset<Label>): multiset<Label>
    requires m[orig] >= |a|
  {
    m[orig := m[orig] - |a|] + a
  }

  lemma TradedTwice(m: multiset<Label>, orig: Label, a: multiset<Label>, b: multiset<Label>)
    requires m[orig] >= |a + b| && a[orig] == 0 && b[orig] == 0
    ensures m[orig] >= |a| && Traded(m, orig, a)[orig] >= |b|
    ensures Traded(Traded(m, orig, a), orig, b) == Traded(m, orig, a + b)
  {
    assert |a + b| == |a| + |b|;
  }

  /** With at least as many entries naming the original block as there are nodes to enter,
      each edit trades one of them for a node. */
  lemma {:induction false} EditsTrade(phi: Phi, orig: Label, t: Tree)
    requires !orig.Node?
    requires multiset(phi.incoming)[orig] >= |AcceptsOf(t, phi.bb)|
    ensures multiset(EditPhi(phi, orig, t).incoming) == Traded(multiset(phi.incoming), orig, AcceptsOf(t, phi.bb))
    decreases t
  {
    match t
    case Accept(id, _, _, bb) =>
      if bb == phi.bb {
        assert orig in multiset(phi.incoming);
        ReplaceFirstCounts(phi.incoming, orig, Node(id));
      }
    case Match(_, _, _, rest) =>
      EditsTrade(phi, orig, rest);
    case Pivot(_, _, _, l, r) =>
      hide Traded;
      AcceptsAreNodes(l, phi.bb, orig);
      AcceptsAreNodes(r, phi.bb, orig);
      TradedTwice(multiset(phi.incoming), orig, AcceptsOf(l, phi.bb), AcceptsOf(r, phi.bb));
      EditsTrade(phi, orig, l);
      EditsTrade(EditPhi(phi, orig, l), orig, r);
  }

  /** A PHI node that had an entry for every edge into its block, `others` from elsewhere and
      one per case and default edge of the switch, ends with an entry for every edge into the
      block after the conversion, and none for the original block. */
  lemma PhiMatchesPredecessors(phi: Phi, orig: Label, cases: seq<CaseExpr>, checked: seq<bool>, next: nat, default: nat,
                               others: multiset<Label>)
    requires Convertible(cases, checked) && orig.Block? && others[orig] == 0
    requires multiset(phi.incoming) == others[orig := CasesOf(cases, phi.bb) + if phi.bb == default then 1 else 0]
    ensures var t := Convert(cases, checked, next);
            multiset(Redirect(EditPhi(phi, orig, t), orig, default, NewDefault(orig.id)).incoming)
            == others + AcceptsOf(t, phi.bb) + if phi.bb == default then multiset{NewDefault(orig.id)} else multiset{}
    ensures orig !in Redirect(EditPhi(phi, orig, Convert(cases, checked, next)), orig, default, NewDefault(orig.id)).incoming
  {
    hide Convertible, Convert, EditPhi, AcceptsOf, CasesOf, ReplaceFirst, Traded;
    var t := Convert(cases, checked, next);
    var p := EditPhi(phi, orig, t);
    OneNodePerCase(cases, checked, next, phi.bb);
    EditsTrade(phi, orig, t);
    AcceptsAreNodes(t, phi.bb, orig);
    TradeAll(multiset(phi.incoming), others, orig, AcceptsOf(t, phi.bb), if phi.bb == default then 1 else 0);
    if phi.bb == default {
      ReplaceFirstCounts(p.incoming, orig, NewDefault(orig.id));
      TradeLast(others, orig, AcceptsOf(t, phi.bb));
    }
    NoneLeft(others, orig, AcceptsOf(t, phi.bb));
  }

  lemma TradeAll(m: multiset<Label>, others: multiset<Label>, orig: Label, a: multiset<Label>, d: nat)
    requires others[orig] == 0 && a[orig] == 0 && m == others[orig := |a| + d]
    ensures Traded(m, orig, a) == others[orig := d] + a
    ensures d == 0 ==> Traded(m, orig, a) == others + a
    ensures d > 0 ==> orig in Traded(m, orig, a)
  {
  }

  lemma TradeLast(others: multiset<Label>, orig: Label, a: multiset<Label>)
    requires others[orig] == 0 && a[orig] == 0 && orig.Block?
    ensures others[orig := 1] + a - multiset{orig} + multiset{NewDefault(orig.id)} == others + a + multiset{NewDefault(orig.id)}
  {
  }

  lemma NoneLeft(others: multiset<Label>, orig: Label, a: multiset<Label>)
    requires others[orig] == 0 && a[orig] == 0 && orig.Block?
    ensures (others + a)[orig] == 0 && (others + a + multiset{NewDefault(orig.id)})[orig] == 0
  {
  }

  // ----- all switches of a module -----

  /** A switch on `n` bytes that ends block `orig`. */
  datatype Switch = Switch(orig: nat, n: nat, cases: seq<CaseExpr>, default: nat)

  ghost predicate SwitchOk(s: Switch) {
    s.n > 0 && WellFormedSwitch(s.cases, 8 * s.n)
  }

  ghost function TreeOf(s: Switch, next: nat): Tree
    requires SwitchOk(s)
  {
    WholeBytesConvertible(s.cases, s.n);
    Convert(s.cases, AllUnchecked(s.n), next)
  }

  /** The edits of one PHI node while a switch is replaced. */
  ghost function EditOf(phi: Phi, s: Switch, next: nat): (r: Phi)
    requires SwitchOk(s)
    ensures r.bb == phi.bb
  {
    Redirect(EditPhi(phi, Block(s.orig), TreeOf(s, next)), Block(s.orig), s.default, NewDefault(s.orig))
  }

  ghost function EditSwitches(phi: Phi, switches: seq<Switch>, next: nat): (r: Phi)
    requires forall k :: 0 <= k < |switches| ==> SwitchOk(switches[k])
    ensures r.bb == phi.bb
    decreases |switches|
  {
    if |switches| == 0 then phi
    else EditSwitches(EditOf(phi, switches[0], next), switches[1..], next + Size(TreeOf(switches[0], next)))
  }

  /** The edges of the switches into block `bb`. */
  ghost function EdgesBefore(switches: seq<Switch>, bb: nat): multiset<Label> {
    if |switches| == 0 then multiset{} else EdgesBefore(switches[1..], bb) + EdgesFrom(switches[0], bb)
  }

  /** One for each case and one for the default. */
  ghost function EdgesFrom(s: Switch, bb: nat): multiset<Label> {
    multiset{}[Block(s.orig) := CasesOf(s.cases, bb) + if bb == s.default then 1 else 0]
  }

  /** The edges of the created blocks into it. */
  ghost function EdgesAfter(switches: seq<Switch>, bb: nat, next: nat): multiset<Label>
    requires forall k :: 0 <= k < |switches| ==> SwitchOk(switches[k])
  {
    if |switches| == 0 then multiset{}
    else EdgesInto(switches[0], bb, next) + EdgesAfter(switches[1..], bb, next + Size(TreeOf(switches[0], next)))
  }

  ghost function EdgesInto(s: Switch, bb: nat, next: nat): multiset<Label>
    requires SwitchOk(s)
  {
    AcceptsOf(TreeOf(s, next), bb) + if bb == s.default then multiset{NewDefault(s.orig)} else multiset{}
  }

  ghost predicate OrigsDistinct(switches: seq<Switch>) {
    forall j, k :: 0 <= j < k < |switches| ==> switches[j].orig != switches[k].orig
  }

  lemma {:induction false} EdgesBeforeOf(switches: seq<Switch>, bb: nat, orig: nat)
    requires forall k :: 0 <= k < |switches| ==> switches[k].orig != orig
    ensures EdgesBefore(switches, bb)[Block(orig)] == 0
  {
    if |switches| > 0 {
      EdgesBeforeOf(switches[1..], bb, orig);
    }
  }

  /** However many switches of a module share a successor: a PHI node with an entry for every
      edge ends with an entry for every edge. */
  lemma {:induction false} AllPhisMatch(phi: Phi, switches: seq<Switch>, next: nat, others: multiset<Label>)
    requires (forall k :: 0 <= k < |switches| ==> SwitchOk(switches[k])) && OrigsDistinct(switches)
    requires forall k :: 0 <= k < |switches| ==> others[Block(switches[k].orig)] == 0
    requires multiset(phi.incoming) == others + EdgesBefore(switches, phi.bb)
    ensures multiset(EditSwitches(phi, switches, next).incoming) == others + EdgesAfter(switches, phi.bb, next)
    decreases |switches|
  {
    hide SwitchOk, TreeOf, EditOf, EdgesFrom, EdgesInto, EditSwitches, EdgesBefore, EdgesAfter;
    UnfoldFirst(phi, switches, next);
    if |switches| > 0 {
      var s, rest := switches[0], switches[1..];
      EdgesBeforeOf(rest, phi.bb, s.orig);
      FirstPhi(phi, s, next, others, EdgesBefore(rest, phi.bb));
      EnteredNodes(s, next, phi.bb);
      AllPhisMatch(EditOf(phi, s, next), rest, next + Size(TreeOf(s, next)), others + EdgesInto(s, phi.bb, next));
      Associates(others, EdgesInto(s, phi.bb, next), EdgesAfter(rest, phi.bb, next + Size(TreeOf(s, next))));
    } else {
      assert others + multiset{} == others;
    }
  }

  lemma UnfoldFirst(phi: Phi, switches: seq<Switch>, next: nat)
    requires forall k :: 0 <= k < |switches| ==> SwitchOk(switches[k])
    ensures |switches| == 0 ==>
              EditSwitches(phi, switches, next) == phi && EdgesBefore(switches, phi.bb) == EdgesAfter(switches, phi.bb, next) == multiset{}
    ensures |switches| > 0 ==>
              var s, rest := switches[0], switches[1..];
              var after := next + Size(TreeOf(s, next));
              && EditSwitches(phi, switches, next) == EditSwitches(EditOf(phi, s, next), rest, after)
              && EdgesBefore(switches, phi.bb) == EdgesBefore(rest, phi.bb) + EdgesFrom(s, phi.bb)
              && EdgesAfter(switches, phi.bb, next) == EdgesInto(s, phi.bb, next) + EdgesAfter(rest, phi.bb, after)
  {
    hide SwitchOk, TreeOf, EditOf, EdgesFrom, EdgesInto;
  }

  lemma Associates(a: multiset<Label>, b: multiset<Label>, c: multiset<Label>)
    ensures (a + b) + c == a + (b + c)
  {
  }

  lemma FirstPhi(phi: Phi, s: Switch, next: nat, others: multiset<Label>, later: multiset<Label>)
    requires SwitchOk(s) && others[Block(s.orig)] == 0 && later[Block(s.orig)] == 0
    requires multiset(phi.incoming) == others + (later + EdgesFrom(s, phi.bb))
    ensures multiset(EditOf(phi, s, next).incoming) == (others + EdgesInto(s, phi.bb, next)) + later
  {
    hide WellFormedSwitch, Convertible, Convert, CasesOf, AcceptsOf;
    WholeBytesConvertible(s.cases, s.n);
    var n := CasesOf(s.cases, phi.bb) + if phi.bb == s.default then 1 else 0;
    assert multiset(phi.incoming) == (others + later)[Block(s.orig) := n];
    PhiMatchesPredecessors(phi, Block(s.orig), s.cases, AllUnchecked(s.n), next, s.default, others + later);
  }

  lemma EnteredNodes(s: Switch, next: nat, bb: nat)
    requires SwitchOk(s)
    ensures forall orig: nat :: EdgesInto(s, bb, next)[Block(orig)] == 0
  {
    hide SwitchOk, TreeOf, AcceptsOf;
    forall orig: nat
      ensures EdgesInto(s, bb, next)[Block(orig)] == 0
    {
      AcceptsAreNodes(TreeOf(s, next), bb, Block(orig));
    }
  }

  // ----- the blocks -----

  /** A created block: the test of one byte, and the successors for true and false. */
  datatype NodeBlock =
    | EqBlock(index: nat, byte: nat, yes: Label, no: Label)
    | LtBlock(index: nat, pivot: nat, yes: Label, no: Label)

  function Successor(b: NodeBlock, v: nat): Label {
    match b
    case EqBlock(i, x, yes, no) => if ByteAt(v, i) == x then yes else no
    case LtBlock(i, x, yes, no) => if ByteAt(v, i) < x then yes else no
  }

  function BlocksOf(t: Tree, orig: nat): map<nat, NodeBlock> {
    match t
    case Accept(id, i, b, bb) => map[id := EqBlock(i, b, Block(bb), NewDefault(orig))]
    case Match(id, i, b, rest) => BlocksOf(rest, orig)[id := EqBlock(i, b, Node(rest.id), NewDefault(orig))]
    case Pivot(id, i, p, l, r) => (BlocksOf(l, orig) + BlocksOf(r, orig))[id := LtBlock(i, p, Node(l.id), Node(r.id))]
  }

  /** Branching through at most `fuel` created blocks. */
  function Branch(nodes: map<nat, NodeBlock>, at: Label, v: nat, fuel: nat): Label
    decreases fuel
  {
    if fuel == 0 || !at.Node? || at.id !in nodes then at
    else Branch(nodes, Successor(nodes[at.id], v), v, fuel - 1)
  }

  /** Blocks are numbered upwards: a tree uses the numbers from its own to its last. */
  ghost predicate Numbered(t: Tree) {
    match t
    case Accept(_, _, _, _) => true
    case Match(id, _, _, rest) => rest.id == id + 1 && Numbered(rest)
    case Pivot(id, _, _, l, r) => l.id == id + 1 && r.id == id + 1 + Size(l) && Numbered(l) && Numbered(r)
  }

  lemma {:induction false} ConvertNumbered(cases: seq<CaseExpr>, checked: seq<bool>, next: nat)
    requires Convertible(cases, checked)
    ensures Convert(cases, checked, next).id == next && Numbered(Convert(cases, checked, next))
    decreases Unchecked(checked), |cases|
  {
    hide Convertible, Less, NotLess, ByteSet, Unchecked, IsPivot;
    SomeCase(cases, checked);
    var i := Smallest(cases, checked);
    var s := ByteSet(cases, i);
    SomeByte(cases, i);
    if |s| == 1 {
      MatchConvertible(cases, checked, i, Chosen(s));
      CheckOne(checked, i);
      if Unchecked(checked) > 1 {
        ConvertNumbered(cases, checked[i := true], next + 1);
      }
    } else {
      var p := PivotOf(s);
      HalvesSmaller(cases, i, p);
      SplitConvertible(cases, checked, i, p);
      var l := Convert(Less(cases, i, p), checked, next + 1);
      ConvertNumbered(Less(cases, i, p), checked, next + 1);
      ConvertNumbered(NotLess(cases, i, p), checked, next + 1 + Size(l));
    }
  }

  lemma {:induction false} BlockNumbers(t: Tree, orig: nat)
    requires Numbered(t)
    ensures forall k :: k in BlocksOf(t, orig) <==> t.id <= k < t.id + Size(t)
  {
    match t
    case Accept(_, _, _, _) =>
    case Match(_, _, _, rest) => BlockNumbers(rest, orig);
    case Pivot(_, _, _, l, r) => BlockNumbers(l, orig); BlockNumbers(r, orig);
  }

  ghost predicate Holds(nodes: map<nat, NodeBlock>, part: map<nat, NodeBlock>) {
    forall k :: k in part ==> k in nodes && nodes[k] == part[k]
  }

  lemma UnionHolds(nodes: map<nat, NodeBlock>, l: map<nat, NodeBlock>, r: map<nat, NodeBlock>, id: nat, b: NodeBlock)
    requires id !in l && id !in r && forall k :: k in l ==> k !in r
    requires Holds(nodes, (l + r)[id := b])
    ensures Holds(nodes, l) && Holds(nodes, r) && id in nodes && nodes[id] == b
  {
    var u := (l + r)[id := b];
    assert id in u;
    forall k | k in l
      ensures k in nodes && nodes[k] == l[k]
    {
      assert k in u;
    }
    forall k | k in r
      ensures k in nodes && nodes[k] == r[k]
    {
      assert k in u;
    }
  }

  lemma MatchHolds(nodes: map<nat, NodeBlock>, t: Tree, orig: nat)
    requires t.Match? && Numbered(t) && Holds(nodes, BlocksOf(t, orig))
    ensures t.id in nodes && nodes[t.id] == EqBlock(t.index, t.byte, Node(t.rest.id), NewDefault(orig))
    ensures Holds(nodes, BlocksOf(t.rest, orig))
  {
    hide Holds;
    var r := BlocksOf(t.rest, orig);
    BlockNumbers(t.rest, orig);
    assert r + map[] == r;
    UnionHolds(nodes, r, map[], t.id, EqBlock(t.index, t.byte, Node(t.rest.id), NewDefault(orig)));
  }

  lemma PivotHolds(nodes: map<nat, NodeBlock>, t: Tree, orig: nat)
    requires t.Pivot? && Numbered(t) && Holds(nodes, BlocksOf(t, orig))
    ensures t.id in nodes && nodes[t.id] == LtBlock(t.index, t.pivot, Node(t.less.id), Node(t.notLess.id))
    ensures Holds(nodes, BlocksOf(t.less, orig)) && Holds(nodes, BlocksOf(t.notLess, orig))
  {
    hide Holds;
    BlockNumbers(t.less, orig);
    BlockNumbers(t.notLess, orig);
    UnionHolds(nodes, BlocksOf(t.less, orig), BlocksOf(t.notLess, orig), t.id,
               LtBlock(t.index, t.pivot, Node(t.less.id), Node(t.notLess.id)));
  }

  /** Branching through the blocks of a tree ends where the tree says. */
  lemma {:induction false} BranchIsEval(nodes: map<nat, NodeBlock>, t: Tree, orig: nat, v: nat, fuel: nat)
    requires Numbered(t) && Holds(nodes, BlocksOf(t, orig)) && fuel >= Size(t)
    ensures Branch(nodes, Node(t.id), v, fuel) == Eval(t, orig, v)
    decreases t
  {
    match t
    case Accept(id, _, _, _) =>
      assert id in BlocksOf(t, orig);
    case Match(id, i, b, rest) =>
      hide Holds, BlocksOf, ByteAt;
      MatchHolds(nodes, t, orig);
      if ByteAt(v, i) == b {
        BranchIsEval(nodes, rest, orig, v, fuel - 1);
      }
    case Pivot(id, i, p, l, r) =>
      hide Holds, BlocksOf, ByteAt;
      PivotHolds(nodes, t, orig);
      if ByteAt(v, i) < p {
        BranchIsEval(nodes, l, orig, v, fuel - 1);
      } else {
        BranchIsEval(nodes, r, orig, v, fuel - 1);
      }
  }

  // ----- the program -----

  method BuildByteSets(cases: seq<CaseExpr>, n: nat) returns (byteSets: seq<set<nat>>)
    ensures |byteSets| == n && forall i :: 0 <= i < n ==> byteSets[i] == ByteSet(cases, i)
  {
    byteSets := seq(n, _ => {});
    for k := 0 to |cases|
      invariant |byteSets| == n && forall i :: 0 <= i < n ==> byteSets[i] == ByteSet(cases[..k], i)
    {
      ghost var before := byteSets;
      assert forall c :: c in cases[..k + 1] <==> c in cases[..k] || c == cases[k];
      for i := 0 to n
        invariant |byteSets| == n
        invariant forall j :: 0 <= j < i ==> byteSets[j] == ByteSet(cases[..k + 1], j)
        invariant forall j :: i <= j < n ==> byteSets[j] == before[j]
      {
        byteSets := byteSets[i := byteSets[i] + {ByteAt(cases[k].val, i)}];
      }
    }
    assert cases[..|cases|] == cases;
  }

  method FindSmallest(cases: seq<CaseExpr>, checked: seq<bool>, byteSets: seq<set<nat>>) returns (index: nat, size: nat)
    requires Unchecked(checked) > 0 && |byteSets| == |checked|
    requires forall i :: 0 <= i < |checked| ==> byteSets[i] == ByteSet(cases, i)
    ensures index == Smallest(cases, checked) && size == |byteSets[index]|
  {
    index, size := 0, 257;
    var found := false;
    for i := 0 to |byteSets|
      invariant !found ==> size == 257 && forall j :: 0 <= j < i ==> checked[j]
      invariant found ==> size <= 256 && index < i && !checked[index] && size == |byteSets[index]|
      invariant found ==> forall j :: 0 <= j < i && !checked[j] ==> size <= |byteSets[j]|
      invariant found ==> forall j :: 0 <= j < index && !checked[j] ==> size < |byteSets[j]|
    {
      if !checked[i] {
        BoundedSet(byteSets[i], 256);
        if |byteSets[i]| < size {
          index, size, found := i, |byteSets[i]|, true;
        }
      }
    }
    NoneUnchecked(checked);
    assert !checked[index];
    assert IsSmallest(cases, checked, index);
  }

  /** The bytes in ascending order, as the set iterates. */
  method SortedBytes(s: set<nat>) returns (byteVector: seq<nat>)
    requires forall b :: b in s ==> b < 256
    ensures |byteVector| == |s|
    ensures forall k :: 0 <= k < |s| ==> byteVector[k] in s && |Below(s, byteVector[k])| == k
  {
    byteVector := [];
    assert Below(s, 0) == {};
    for b := 0 to 256
      invariant |byteVector| == |Below(s, b)|
      invariant forall k :: 0 <= k < |byteVector| ==> byteVector[k] in s && |Below(s, byteVector[k])| == k
    {
      if b in s {
        assert Below(s, b + 1) == Below(s, b) + {b};
        byteVector := byteVector + [b];
      } else {
        assert Below(s, b + 1) == Below(s, b);
      }
    }
    assert Below(s, 256) == s;
  }

  method Divide(cases: seq<CaseExpr>, i: nat, pivot: nat) returns (lhs: seq<CaseExpr>, rhs: seq<CaseExpr>)
    ensures lhs == Less(cases, i, pivot) && rhs == NotLess(cases, i, pivot)
  {
    lhs, rhs := [], [];
    for k := 0 to |cases|
      invariant lhs == Less(cases[..k], i, pivot) && rhs == NotLess(cases[..k], i, pivot)
    {
      assert cases[..k + 1][..k] == cases[..k];
      if ByteAt(cases[k].val, i) < pivot {
        lhs := lhs + [cases[k]];
      } else {
        rhs := rhs + [cases[k]];
      }
    }
    assert cases[..|cases|] == cases;
  }

  lemma {:induction false} ReplaceAt(s: seq<Label>, from: Label, to: Label, k: nat)
    requires k <= |s| && from !in s[..k]
    ensures k == |s| ==> ReplaceFirst(s, from, to) == s
    ensures k < |s| && s[k] == from ==> ReplaceFirst(s, from, to) == s[k := to]
  {
    if k > 0 {
      assert s[0] == s[..k][0];
      assert s[1..][..k - 1] == s[..k][1..];
      ReplaceAt(s[1..], from, to, k - 1);
      assert s == [s[0]] + s[1..];
    }
  }

  method SetIncomingBlock(incoming: seq<Label>, from: Label, to: Label) returns (r: seq<Label>)
    ensures r == ReplaceFirst(incoming, from, to)
  {
    hide ReplaceFirst;
    var idx := 0;
    while idx < |incoming| && incoming[idx] != from
      invariant 0 <= idx <= |incoming| && from !in incoming[..idx]
    {
      idx := idx + 1;
    }
    ReplaceAt(incoming, from, to, idx);
    r := if idx < |incoming| then incoming[idx := to] else incoming;
  }

  function EditAll(phis: seq<Phi>, orig: Label, t: Tree): (r: seq<Phi>)
    ensures |r| == |phis|
  {
    seq(|phis|, j requires 0 <= j < |phis| => EditPhi(phis[j], orig, t))
  }

  function RedirectAll(phis: seq<Phi>, orig: Label, bb: nat, to: Label): (r: seq<Phi>)
    ensures |r| == |phis|
  {
    seq(|phis|, j requires 0 <= j < |phis| => Redirect(phis[j], orig, bb, to))
  }

  ghost function EditsOf(phis: seq<Phi>, s: Switch, next: nat): (r: seq<Phi>)
    requires SwitchOk(s)
    ensures |r| == |phis|
    ensures forall j :: 0 <= j < |phis| ==> r[j] == EditOf(phis[j], s, next)
  {
    RedirectAll(EditAll(phis, Block(s.orig), TreeOf(s, next)), Block(s.orig), s.default, NewDefault(s.orig))
  }

  lemma EditNone(phis: seq<Phi>, next: nat)
    ensures forall j :: 0 <= j < |phis| ==> EditSwitches(phis[j], [], next) == phis[j]
  {
  }

  lemma EditFirst(phis: seq<Phi>, switches: seq<Switch>, i: nat, next: nat)
    requires (forall k :: 0 <= k < |switches| ==> SwitchOk(switches[k])) && i < |switches|
    ensures forall j :: 0 <= j < |phis| ==>
              EditSwitches(phis[j], switches[i..], next) ==
              EditSwitches(EditOf(phis[j], switches[i], next), switches[i + 1..], next + Size(TreeOf(switches[i], next)))
  {
    hide SwitchOk, EditOf, TreeOf;
    assert switches[i..][1..] == switches[i + 1..];
  }

  /** The blocks and PHI nodes with `t` added. */
  ghost predicate Built(orig: nat, nodes0: map<nat, NodeBlock>, phis0: seq<Phi>, nodes: map<nat, NodeBlock>, phis: seq<Phi>,
                        t: Tree)
  {
    nodes == nodes0 + BlocksOf(t, orig) && phis == EditAll(phis0, Block(orig), t)
  }

  lemma BuiltAccept(orig: nat, nodes0: map<nat, NodeBlock>, phis0: seq<Phi>, id: nat, i: nat, b: nat, bb: nat)
    ensures Built(orig, nodes0, phis0, nodes0[id := EqBlock(i, b, Block(bb), NewDefault(orig))],
                  RedirectAll(phis0, Block(orig), bb, Node(id)), Accept(id, i, b, bb))
  {
    assert RedirectAll(phis0, Block(orig), bb, Node(id)) == EditAll(phis0, Block(orig), Accept(id, i, b, bb));
  }

  lemma BuiltMatch(orig: nat, nodes0: map<nat, NodeBlock>, phis0: seq<Phi>, nodes: map<nat, NodeBlock>, phis: seq<Phi>,
                   id: nat, i: nat, b: nat, rest: Tree)
    requires Built(orig, nodes0, phis0, nodes, phis, rest)
    ensures Built(orig, nodes0, phis0, nodes[id := EqBlock(i, b, Node(rest.id), NewDefault(orig))], phis, Match(id, i, b, rest))
  {
    assert EditAll(phis0, Block(orig), rest) == EditAll(phis0, Block(orig), Match(id, i, b, rest));
  }

  lemma BuiltPivot(orig: nat, nodes0: map<nat, NodeBlock>, phis0: seq<Phi>, nodes1: map<nat, NodeBlock>, phis1: seq<Phi>,
                   nodes2: map<nat, NodeBlock>, phis2: seq<Phi>, id: nat, i: nat, p: nat, l: Tree, r: Tree)
    requires Built(orig, nodes0, phis0, nodes1, phis1, l) && Built(orig, nodes1, phis1, nodes2, phis2, r)
    ensures Built(orig, nodes0, phis0, nodes2[id := LtBlock(i, p, Node(l.id), Node(r.id))], phis2, Pivot(id, i, p, l, r))
  {
    assert phis2 == EditAll(phis0, Block(orig), Pivot(id, i, p, l, r));
  }

  lemma ConvertMatch(cases: seq<CaseExpr>, checked: seq<bool>, next: nat, i: nat, b: nat)
    requires Convertible(cases, checked) && i == Smallest(cases, checked) && ByteSet(cases, i) == {b}
    ensures Unchecked(checked[i := true]) == Unchecked(checked) - 1
    ensures Unchecked(checked) == 1 ==> |cases| == 1 && Convert(cases, checked, next) == Accept(next, i, b, cases[0].bb)
    ensures Unchecked(checked) > 1 ==> Convertible(cases, checked[i := true])
    ensures Unchecked(checked) > 1 ==> Convert(cases, checked, next) == Match(next, i, b, Convert(cases, checked[i := true], next + 1))
  {
    hide Convertible;
    MatchConvertible(cases, checked, i, b);
    CheckOne(checked, i);
    SomeCase(cases, checked);
    assert Chosen(ByteSet(cases, i)) == b;
  }

  lemma ConvertPivot(cases: seq<CaseExpr>, checked: seq<bool>, next: nat, i: nat, p: nat)
    requires Convertible(cases, checked) && i == Smallest(cases, checked)
    requires |ByteSet(cases, i)| > 1 && IsPivot(ByteSet(cases, i), p)
    ensures |Less(cases, i, p)| < |cases| && |NotLess(cases, i, p)| < |cases|
    ensures Convertible(Less(cases, i, p), checked) && Convertible(NotLess(cases, i, p), checked)
    ensures var l := Convert(Less(cases, i, p), checked, next + 1);
            var r := Convert(NotLess(cases, i, p), checked, next + 1 + Size(l));
            Convert(cases, checked, next) == Pivot(next, i, p, l, r)
  {
    hide Convertible, Less, NotLess, ByteSet, IsPivot, Unchecked;
    PivotUnique(ByteSet(cases, i), p, PivotOf(ByteSet(cases, i)));
    HalvesSmaller(cases, i, p);
    SplitConvertible(cases, checked, i, p);
    SomeCase(cases, checked);
  }

  class Splitter {
    var orig: nat
    var nodes: map<nat, NodeBlock>
    var created: nat
    var phis: seq<Phi>

    ghost predicate Valid()
      reads this
    {
      forall k :: k in nodes ==> k < created
    }

    constructor (orig: nat, phis: seq<Phi>)
      ensures Valid() && this.orig == orig && nodes == map[] && created == 0 && this.phis == phis
    {
      this.orig, this.phis, nodes, created := orig, phis, map[], 0;
    }

    method UpdatePhis(bb: nat, to: Label)
      modifies this`phis
      ensures phis == RedirectAll(old(phis), Block(orig), bb, to)
    {
      for j := 0 to |phis|
        invariant |phis| == |old(phis)|
        invariant forall k :: 0 <= k < j ==> phis[k] == Redirect(old(phis)[k], Block(orig), bb, to)
        invariant forall k :: j <= k < |phis| ==> phis[k] == old(phis)[k]
      {
        if phis[j].bb == bb {
          var incoming := SetIncomingBlock(phis[j].incoming, Block(orig), to);
          phis := phis[j := phis[j].(incoming := incoming)];
        }
      }
    }

    /** Creates the blocks of the tree and edits the PHI nodes of the case successors. */
    method SwitchConvert(cases: seq<CaseExpr>, bytesChecked: seq<bool>) returns (node: nat)
      requires Valid() && Convertible(cases, bytesChecked)
      modifies this`nodes, this`created, this`phis
      ensures Valid() && node == old(created)
      ensures var t := Convert(cases, bytesChecked, old(created));
              created == old(created) + Size(t) && Built(orig, old(nodes), old(phis), nodes, phis, t)
      decreases Unchecked(bytesChecked), |cases|
    {
      hide Convertible, IsPivot, Less, NotLess, ByteSet, Unchecked, Convert, Built;
      ghost var nodes0, phis0 := nodes, phis;
      SomeCase(cases, bytesChecked);
      var byteSets := BuildByteSets(cases, |bytesChecked|);
      var index, size := FindSmallest(cases, bytesChecked, byteSets);
      assert !bytesChecked[index];
      SomeByte(cases, index);
      node := created;
      created := created + 1;
      if size == 1 {
        var byte :| byte in byteSets[index];
        OneElement(byteSets[index], byte);
        ConvertMatch(cases, bytesChecked, node, index, byte);
        var checked := bytesChecked[index := true];
        NoneUnchecked(checked);
        if false !in checked {
          assert |cases| == 1;
          BuiltAccept(orig, nodes0, phis0, node, index, byte, cases[0].bb);
          nodes := nodes[node := EqBlock(index, byte, Block(cases[0].bb), NewDefault(orig))];
          UpdatePhis(cases[0].bb, Node(node));
        } else {
          ghost var rest := Convert(cases, checked, node + 1);
          ConvertNumbered(cases, checked, node + 1);
          var bb := SwitchConvert(cases, checked);
          BuiltMatch(orig, nodes0, phis0, nodes, phis, node, index, byte, rest);
          nodes := nodes[node := EqBlock(index, byte, Node(bb), NewDefault(orig))];
        }
      } else {
        var byteVector := SortedBytes(byteSets[index]);
        var pivot := byteVector[|byteVector| / 2];
        MiddleIsPivot(byteSets[index], byteVector);
        ConvertPivot(cases, bytesChecked, node, index, pivot);
        var lhs, rhs := Divide(cases, index, pivot);
        ghost var l := Convert(lhs, bytesChecked, node + 1);
        ghost var r := Convert(rhs, bytesChecked, node + 1 + Size(l));
        ConvertNumbered(lhs, bytesChecked, node + 1);
        ConvertNumbered(rhs, bytesChecked, node + 1 + Size(l));
        var lbb := SwitchConvert(lhs, bytesChecked);
        ghost var nodes1, phis1 := nodes, phis;
        var rbb := SwitchConvert(rhs, bytesChecked);
        BuiltPivot(orig, nodes0, phis0, nodes1, phis1, nodes, phis, node, index, pivot, l, r);
        nodes := nodes[node := LtBlock(index, pivot, Node(lbb), Node(rbb))];
      }
    }

    /** One switch of a whole number of bytes.  Branching from the new root ends, for every value,
        at the block the switch would take, with the new default in front of the default block. */
    method SplitSwitch(s: Switch) returns (root: nat)
      requires Valid() && orig == s.orig && SwitchOk(s)
      modifies this`nodes, this`created, this`phis
      ensures Valid() && root == old(created) && created == old(created) + Size(TreeOf(s, root))
      ensures Holds(nodes, BlocksOf(TreeOf(s, root), s.orig)) && Holds(nodes, old(nodes))
      ensures phis == EditsOf(old(phis), s, old(created))
      ensures forall v: nat, fuel: nat :: v < Pow2(8 * s.n) && fuel >= created ==>
                Branch(nodes, Node(root), v, fuel) == SwitchTarget(s.cases, s.orig, v)
    {
      hide Convertible, WellFormedSwitch;
      WholeBytesConvertible(s.cases, s.n);
      ghost var t := TreeOf(s, created);
      ConvertNumbered(s.cases, AllUnchecked(s.n), created);
      BlockNumbers(t, orig);
      root := SwitchConvert(s.cases, AllUnchecked(s.n));
      UpdatePhis(s.default, NewDefault(orig));
      forall v: nat, fuel: nat | v < Pow2(8 * s.n) && fuel >= created
        ensures Branch(nodes, Node(root), v, fuel) == SwitchTarget(s.cases, s.orig, v)
      {
        TreeTakesSwitch(nodes, s, root, v, fuel);
      }
    }

    /** All the switches of a module, one after the other.  At the end branching from every new
        root still does what its switch did, and each PHI node has had the edits of
        `AllPhisMatch`. */
    method SplitSwitches(switches: seq<Switch>) returns (roots: seq<nat>)
      requires Valid() && forall k :: 0 <= k < |switches| ==> SwitchOk(switches[k])
      modifies this
      ensures Valid() && |roots| == |switches| && Holds(nodes, old(nodes))
      ensures forall k, v: nat, fuel: nat :: 0 <= k < |switches| && v < Pow2(8 * switches[k].n) && fuel >= created ==>
                Branch(nodes, Node(roots[k]), v, fuel) == SwitchTarget(switches[k].cases, switches[k].orig, v)
      ensures |phis| == |old(phis)|
      ensures forall j :: 0 <= j < |phis| ==> phis[j] == EditSwitches(old(phis)[j], switches, old(created))
    {
      hide WellFormedSwitch, TreeOf, BlocksOf, EditOf, EditSwitches;
      roots := [];
      var i := 0;
      EditNone(phis, created);
      assert switches[0..] == switches;
      while i < |switches|
        invariant 0 <= i <= |switches| && |roots| == i && Valid() && Holds(nodes, old(nodes)) && |phis| == |old(phis)|
        invariant forall k :: 0 <= k < i ==>
                    roots[k] + Size(TreeOf(switches[k], roots[k])) <= created
                    && Holds(nodes, BlocksOf(TreeOf(switches[k], roots[k]), switches[k].orig))
        invariant forall j :: 0 <= j < |phis| ==>
                    EditSwitches(phis[j], switches[i..], created) == EditSwitches(old(phis)[j], switches, old(created))
      {
        var s := switches[i];
        EditFirst(phis, switches, i, created);
        orig := s.orig;
        ghost var nodes0, phis0 := nodes, phis;
        var root := SplitSwitch(s);
        HoldsAll(nodes0, nodes, switches, roots);
        roots := roots + [root];
        i := i + 1;
      }
      EditNone(phis, created);
      assert switches[i..] == [];
      forall k, v: nat, fuel: nat | 0 <= k < |switches| && v < Pow2(8 * switches[k].n) && fuel >= created
        ensures Branch(nodes, Node(roots[k]), v, fuel) == SwitchTarget(switches[k].cases, switches[k].orig, v)
      {
        TreeTakesSwitch(nodes, switches[k], roots[k], v, fuel);
      }
    }
  }

  /** Blocks created before stay as they were. */
  lemma HoldsAll(before: map<nat, NodeBlock>, after: map<nat, NodeBlock>, switches: seq<Switch>, roots: seq<nat>)
    requires Holds(after, before) && |roots| <= |switches| && forall k :: 0 <= k < |switches| ==> SwitchOk(switches[k])
    requires forall k :: 0 <= k < |roots| ==> Holds(before, BlocksOf(TreeOf(switches[k], roots[k]), switches[k].orig))
    ensures forall k :: 0 <= k < |roots| ==> Holds(after, BlocksOf(TreeOf(switches[k], roots[k]), switches[k].orig))
  {
    hide TreeOf, BlocksOf, SwitchOk;
  }

  /** The blocks of a switch's tree do what the switch does. */
  lemma TreeTakesSwitch(nodes: map<nat, NodeBlock>, s: Switch, root: nat, v: nat, fuel: nat)
    requires SwitchOk(s) && Holds(nodes, BlocksOf(TreeOf(s, root), s.orig)) && fuel >= Size(TreeOf(s, root)) && v < Pow2(8 * s.n)
    ensures Branch(nodes, Node(root), v, fuel) == SwitchTarget(s.cases, s.orig, v)
  {
    hide WellFormedSwitch, Convertible, Holds;
    WholeBytesConvertible(s.cases, s.n);
    ConvertNumbered(s.cases, AllUnchecked(s.n), root);
    BranchIsEval(nodes, TreeOf(s, root), s.orig, v, fuel);
    ConvertMeaning(s.cases, s.orig, s.n, root, v);
  }

  lemma OneElement(s: set<nat>, b: nat)
    requires |s| == 1 && b in s
    ensures s == {b}
  {
    assert |s - {b}| == 0;
  }

  lemma MiddleIsPivot(s: set<nat>, sorted: seq<nat>)
    requires |s| > 0 && |sorted| == |s|
    requires forall k :: 0 <= k < |s| ==> sorted[k] in s && |Below(s, sorted[k])| == k
    ensures IsPivot(s, sorted[|sorted| / 2])
  {
  }
}
