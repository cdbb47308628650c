/** Replacing integer compares by smaller ones, three passes over the compares of a module.

    A module is the table of its compare instructions; control flow around them shows only in
    the PHI that replaces a compare: it picks a value by which of the new compares were true. */
module SplitCompares {
  import opened Words

  /** An operand: an argument of some width, shifted and truncated. */
  datatype Operand = Arg(index: nat, bits: nat) | LShr(op: Operand, shift: nat) | Trunc(op: Operand, bits: nat) {
    function Width(): nat {
      match this
      case Arg(_, w) => w
      case LShr(o, _) => o.Width()
      case Trunc(_, w) => w
    }

    function Value(env: nat -> nat): (v: nat)
      ensures v < Pow2(Width())
    {
      match this
      case Arg(i, w) => Rem(env(i), Pow2(w))
      case LShr(o, n) => Quot(o.Value(env), Pow2(n))
      case Trunc(o, w) => Rem(o.Value(env), Pow2(w))
    }
  }

  datatype Choice = Lit(value: bool) | Ref(id: nat)

  datatype Inst =
    | ICmp(pred: Predicate, a: Operand, b: Operand)
    | Phi(cond: nat, yes: Choice, no: Choice)       // two incoming values
    | Phi3(high: nat, inverse: nat, low: nat)       // true, false or the low compare

  type Code = seq<Inst>

  // ----- meaning -----

  ghost predicate ValidChoice(c: Choice, i: nat, n: nat) {
    c.Ref? ==> i < c.id < n
  }

  /** References go to instructions added later. */
  ghost predicate ValidInst(inst: Inst, i: nat, n: nat) {
    match inst
    case ICmp(_, a, b) => a.Width() == b.Width() > 0
    case Phi(c, yes, no) => i < c < n && ValidChoice(yes, i, n) && ValidChoice(no, i, n)
    case Phi3(h, v, l) => i < h < n && i < v < n && i < l < n
  }

  ghost predicate Valid(code: Code) {
    forall i :: 0 <= i < |code| ==> ValidInst(code[i], i, |code|)
  }

  ghost function Meaning(code: Code, i: nat, env: nat -> nat): bool
    requires Valid(code) && i < |code|
    decreases |code| - i
  {
    assert ValidInst(code[i], i, |code|);
    match code[i]
    case ICmp(p, a, b) => Compare(p, a.Value(env), b.Value(env), a.Width())
    case Phi(c, yes, no) => if Meaning(code, c, env) then Chosen(code, i, yes, env) else Chosen(code, i, no, env)
    case Phi3(h, v, l) => Meaning(code, h, env) || (!Meaning(code, v, env) && Meaning(code, l, env))
  }

  ghost function Chosen(code: Code, i: nat, c: Choice, env: nat -> nat): bool
    requires Valid(code) && i < |code| && ValidChoice(c, i, |code|)
    decreases |code| - i, 0
  {
    match c
    case Lit(b) => b
    case Ref(k) => Meaning(code, k, env)
  }

  // ----- the three rewrites -----

  datatype Rewrite = Simplify | Unsign | Split(bits: nat)

  predicate Selected(r: Rewrite, inst: Inst) {
    inst.ICmp? &&
    match r
    case Simplify => inst.pred in {UGE, SGE, ULE, SLE}
    case Unsign => inst.pred in {SGT, SLT}
    case Split(w) => inst.pred in {EQ, NE, UGT, ULT} && inst.a.Width() == w && inst.b.Width() == w
  }

  function Strict(p: Predicate): Predicate {
    match p
    case UGE => UGT
    case SGE => SGT
    case ULE => ULT
    case _ => SLT
  }

  function SignBit(o: Operand): Operand {
    Trunc(LShr(o, if o.Width() == 0 then 0 else o.Width() - 1), 1)
  }

  function High(o: Operand, w: nat): Operand {
    Trunc(LShr(o, w / 2), w / 2)
  }

  function Low(o: Operand, w: nat): Operand {
    Trunc(o, w / 2)
  }

  /** The compares that replace `inst`, to be numbered from `n`, ... */
  function Pieces(r: Rewrite, inst: Inst): (s: seq<Inst>)
    requires Selected(r, inst)
    ensures forall k :: 0 <= k < |s| ==> s[k].ICmp?
  {
    var p, a, b := inst.pred, inst.a, inst.b;
    match r
    case Simplify => [ICmp(Strict(p), a, b), ICmp(EQ, a, b)]
    case Unsign =>
      [ICmp(EQ, SignBit(a), SignBit(b)),
       ICmp(if p == SGT then ULT else UGT, SignBit(a), SignBit(b)),
       ICmp(if p == SGT then UGT else ULT, a, b)]
    case Split(w) =>
      if p == EQ || p == NE then [ICmp(p, High(a, w), High(b, w)), ICmp(p, Low(a, w), Low(b, w))]
      else [ICmp(p, High(a, w), High(b, w)), ICmp(if p == UGT then ULT else UGT, High(a, w), High(b, w)), ICmp(p, Low(a, w), Low(b, w))]
  }

  /** ... and the PHI that takes its place. */
  function Join(r: Rewrite, inst: Inst, n: nat): Inst
    requires Selected(r, inst)
  {
    match r
    case Simplify => Phi(n, Lit(true), Ref(n + 1))
    case Unsign => Phi(n, Ref(n + 2), Ref(n + 1))
    case Split(_) =>
      if inst.pred == EQ then Phi(n, Ref(n + 1), Lit(false))
      else if inst.pred == NE then Phi(n, Lit(true), Ref(n + 1))
      else Phi3(n, n + 1, n + 2)
  }

  function Replaced(r: Rewrite, code: Code, i: nat): Code
    requires i < |code| && Selected(r, code[i])
  {
    code[i := Join(r, code[i], |code|)] + Pieces(r, code[i])
  }

  // ----- one replacement keeps every meaning -----

  /** Comparing by halves. */
  lemma Halves(x: nat, y: nat, m: nat)
    requires m >= 1
    ensures x == y <==> Quot(x, m) == Quot(y, m) && Rem(x, m) == Rem(y, m)
    ensures x > y <==> Quot(x, m) > Quot(y, m) || (Quot(x, m) == Quot(y, m) && Rem(x, m) > Rem(y, m))
  {
    QuotRem(x, m);
    QuotRem(y, m);
    hide Quot, Rem;
    Lexicographic(Quot(x, m), Rem(x, m), Quot(y, m), Rem(y, m), m);
  }

  lemma QuotRem(x: nat, m: nat)
    requires m >= 1
    ensures x == Quot(x, m) * m + Rem(x, m)
  {
  }

  lemma Lexicographic(hx: nat, lx: nat, hy: nat, ly: nat, m: nat)
    requires lx < m && ly < m
    ensures hx * m + lx == hy * m + ly <==> hx == hy && lx == ly
    ensures hx * m + lx > hy * m + ly <==> hx > hy || (hx == hy && lx > ly)
  {
    if hx > hy {
      MulMonotone(hy + 1, hx, m);
    } else if hx < hy {
      MulMonotone(hx + 1, hy, m);
    }
  }

  lemma HighBound(x: nat, h: nat)
    requires x < Pow2(h + h)
    ensures Quot(x, Pow2(h)) < Pow2(h)
  {
    Pow2Split(h, h);
    var m := Pow2(h);
    assert x == (x / m) * m + x % m;
    if x / m >= m {
      MulMonotone(m, x / m, m);
    }
  }

  lemma RemSmall(x: nat, m: nat)
    requires x < m
    ensures Rem(x, m) == x
  {
  }

  /** The value of the halves of an operand of even width. */
  lemma HalfValues(o: Operand, h: nat, env: nat -> nat)
    requires o.Width() == h + h
    ensures High(o, h + h).Value(env) == Quot(o.Value(env), Pow2(h))
    ensures Low(o, h + h).Value(env) == Rem(o.Value(env), Pow2(h))
  {
    hide Quot, Rem;
    assert (h + h) / 2 == h;
    HighBound(o.Value(env), h);
    RemSmall(Quot(o.Value(env), Pow2(h)), Pow2(h));
  }

  lemma QuotientBit(v: nat, m: nat)
    requires m >= 1 && v < 2 * m
    ensures Quot(v, m) == if v >= m then 1 else 0
  {
    var q, r := v / m, v % m;
    assert v == q * m + r;
    if q >= 2 {
      MulMonotone(2, q, m);
    }
  }

  lemma SignBitValue(o: Operand, env: nat -> nat)
    requires o.Width() > 0
    ensures SignBit(o).Value(env) == if o.Value(env) >= Pow2(o.Width() - 1) then 1 else 0
  {
    hide Quot, Rem;
    var v, m := o.Value(env), Pow2(o.Width() - 1);
    assert v < 2 * m by { assert Pow2(o.Width()) == 2 * m; }
    QuotientBit(v, m);
    RemSmall(Quot(v, m), 2);
    SignBitDefinition(o, env);
  }

  lemma SignBitDefinition(o: Operand, env: nat -> nat)
    requires o.Width() > 0
    ensures SignBit(o).Value(env) == Rem(Quot(o.Value(env), Pow2(o.Width() - 1)), 2)
  {
    hide Quot, Rem;
    assert Pow2(1) == 2;
    assert SignBit(o) == Trunc(LShr(o, o.Width() - 1), 1);
    assert LShr(o, o.Width() - 1).Value(env) == Quot(o.Value(env), Pow2(o.Width() - 1));
  }

  ghost predicate Even(r: Rewrite) {
    r.Split? ==> r.bits > 0 && r.bits % 2 == 0
  }

  /** The value of the PHI, from the compares. */
  ghost function JoinValue(r: Rewrite, inst: Inst, env: nat -> nat): bool
    requires Selected(r, inst)
  {
    var s := Pieces(r, inst);
    var v := (k: nat) requires k < |s| => Compare(s[k].pred, s[k].a.Value(env), s[k].b.Value(env), s[k].a.Width());
    match r
    case Simplify => v(0) || v(1)
    case Unsign => if v(0) then v(2) else v(1)
    case Split(_) =>
      if inst.pred == EQ then v(0) && v(1) else if inst.pred == NE then v(0) || v(1) else v(0) || (!v(1) && v(2))
  }

  lemma UnsignSound(x: nat, y: nat, w: nat, sx: nat, sy: nat)
    requires w > 0 && x < Pow2(w) && y < Pow2(w)
    requires sx == (if x >= Pow2(w - 1) then 1 else 0) && sy == (if y >= Pow2(w - 1) then 1 else 0)
    ensures Compare(SGT, x, y, w) == if sx == sy then x > y else sx < sy
    ensures Compare(SLT, x, y, w) == if sx == sy then x < y else sx > sy
  {
  }

  lemma UnsignedSound(inst: Inst, env: nat -> nat)
    requires Selected(Unsign, inst) && inst.a.Width() == inst.b.Width() > 0
    ensures JoinValue(Unsign, inst, env) == Compare(inst.pred, inst.a.Value(env), inst.b.Value(env), inst.a.Width())
  {
    SignBitValue(inst.a, env);
    SignBitValue(inst.b, env);
    hide SignBit, Operand.Value;
    UnsignSound(inst.a.Value(env), inst.b.Value(env), inst.a.Width(), SignBit(inst.a).Value(env), SignBit(inst.b).Value(env));
  }

  lemma SplitSound(inst: Inst, h: nat, env: nat -> nat)
    requires Selected(Split(h + h), inst) && h > 0
    ensures JoinValue(Split(h + h), inst, env) == Compare(inst.pred, inst.a.Value(env), inst.b.Value(env), inst.a.Width())
  {
    var x, y, m := inst.a.Value(env), inst.b.Value(env), Pow2(h);
    HalfValues(inst.a, h, env);
    HalfValues(inst.b, h, env);
    hide High, Low, Operand.Value, Quot, Rem;
    Halves(x, y, m);
    Halves(y, x, m);
  }

  /** Each rewrite computes the compare it replaces, for all operands of every width it takes. */
  lemma RewriteSound(r: Rewrite, inst: Inst, env: nat -> nat)
    requires Selected(r, inst) && Even(r) && inst.a.Width() == inst.b.Width() > 0
    ensures JoinValue(r, inst, env) == Compare(inst.pred, inst.a.Value(env), inst.b.Value(env), inst.a.Width())
  {
    match r
    case Simplify =>
    case Unsign => UnsignedSound(inst, env);
    case Split(w) =>
      assert w == w / 2 + w / 2;
      SplitSound(inst, w / 2, env);
  }

  lemma ReplacedValid(r: Rewrite, code: Code, i: nat)
    requires Valid(code) && i < |code| && Selected(r, code[i]) && Even(r)
    ensures Valid(Replaced(r, code, i))
  {
    var code' := Replaced(r, code, i);
    assert ValidInst(code[i], i, |code|);
    forall j | 0 <= j < |code'|
      ensures ValidInst(code'[j], j, |code'|)
    {
      if j < |code| && j != i {
        assert code'[j] == code[j] && ValidInst(code[j], j, |code|);
      } else if j == i {
        assert code'[j] == Join(r, code[i], |code|);
      } else {
        assert code'[j] == Pieces(r, code[i])[j - |code|];
      }
    }
  }

  lemma PieceMeaning(r: Rewrite, code: Code, i: nat, k: nat, env: nat -> nat)
    requires Valid(code) && i < |code| && Selected(r, code[i]) && Even(r) && k < |Pieces(r, code[i])|
    ensures Valid(Replaced(r, code, i)) && |code| + k < |Replaced(r, code, i)|
    ensures var s := Pieces(r, code[i])[k];
            Meaning(Replaced(r, code, i), |code| + k, env) == Compare(s.pred, s.a.Value(env), s.b.Value(env), s.a.Width())
  {
    ReplacedValid(r, code, i);
    assert Replaced(r, code, i)[|code| + k] == Pieces(r, code[i])[k];
  }

  lemma JoinMeaning(r: Rewrite, code: Code, i: nat, env: nat -> nat)
    requires Valid(code) && i < |code| && Selected(r, code[i]) && Even(r)
    ensures Valid(Replaced(r, code, i))
    ensures Meaning(Replaced(r, code, i), i, env) == JoinValue(r, code[i], env)
  {
    hide Compare, High, Low, SignBit, Operand.Value, Operand.Width;
    ReplacedValid(r, code, i);
    var code' := Replaced(r, code, i);
    assert code'[i] == Join(r, code[i], |code|);
    PieceMeaning(r, code, i, 0, env);
    PieceMeaning(r, code, i, 1, env);
    if |Pieces(r, code[i])| > 2 {
      PieceMeaning(r, code, i, 2, env);
    }
  }

  /** Replacing one compare changes the value of no instruction. */
  lemma {:induction false} ReplacedMeaning(r: Rewrite, code: Code, i: nat, j: nat, env: nat -> nat)
    requires Valid(code) && i < |code| && j < |code| && Selected(r, code[i]) && Even(r)
    ensures Valid(Replaced(r, code, i))
    ensures Meaning(Replaced(r, code, i), j, env) == Meaning(code, j, env)
    decreases |code| - j
  {
    hide Selected, Join, Pieces, Even, Compare;
    ReplacedValid(r, code, i);
    assert ValidInst(code[j], j, |code|);
    if j == i {
      JoinMeaning(r, code, i, env);
      IsCompare(r, code[i]);
      RewriteSound(r, code[i], env);
    } else {
      assert Replaced(r, code, i)[j] == code[j];
      match code[j]
      case ICmp(_, _, _) =>
      case Phi(c, yes, no) =>
        ReplacedMeaning(r, code, i, c, env);
        if yes.Ref? { ReplacedMeaning(r, code, i, yes.id, env); }
        if no.Ref? { ReplacedMeaning(r, code, i, no.id, env); }
      case Phi3(h, v, l) =>
        ReplacedMeaning(r, code, i, h, env);
        ReplacedMeaning(r, code, i, v, env);
        ReplacedMeaning(r, code, i, l, env);
    }
  }

  lemma IsCompare(r: Rewrite, inst: Inst)
    requires Selected(r, inst)
    ensures inst.ICmp?
  {
  }

  // ----- whole passes -----

  ghost predicate SameMeaning(before: Code, after: Code)
    requires Valid(before) && Valid(after)
  {
    && |before| <= |after|
    && forall i: nat, env: nat -> nat :: i < |before| ==> Meaning(after, i, env) == Meaning(before, i, env)
  }

  lemma SameMeaningTransitive(a: Code, b: Code, c: Code)
    requires Valid(a) && Valid(b) && Valid(c) && SameMeaning(a, b) && SameMeaning(b, c)
    ensures SameMeaning(a, c)
  {
    forall i: nat, env: nat -> nat | i < |a|
      ensures Meaning(c, i, env) == Meaning(a, i, env)
    {
      assert Meaning(b, i, env) == Meaning(a, i, env);
    }
  }

  lemma ReplacedSame(r: Rewrite, code: Code, i: nat)
    requires Valid(code) && i < |code| && Selected(r, code[i]) && Even(r)
    ensures Valid(Replaced(r, code, i)) && SameMeaning(code, Replaced(r, code, i))
  {
    ReplacedValid(r, code, i);
    forall j: nat, env: nat -> nat | j < |code|
      ensures Meaning(Replaced(r, code, i), j, env) == Meaning(code, j, env)
    {
      ReplacedMeaning(r, code, i, j, env);
    }
  }

  ghost predicate NoPredicate(code: Code, p: Predicate) {
    forall i :: 0 <= i < |code| && code[i].ICmp? ==> code[i].pred != p
  }

  ghost predicate NoWidth(code: Code, w: nat) {
    forall i :: 0 <= i < |code| && code[i].ICmp? ==> code[i].a.Width() != w
  }

  /** The predicates a rewrite may introduce. */
  function NewPredicates(r: Rewrite): set<Predicate> {
    match r
    case Simplify => {UGT, SGT, ULT, SLT, EQ}
    case Unsign => {EQ, ULT, UGT}
    case Split(_) => {EQ, NE, UGT, ULT}
  }

  /** The kinds of compares a pass can leave behind. */
  ghost predicate Kept(r: Rewrite, before: Code, after: Code) {
    && (forall p :: p !in NewPredicates(r) && NoPredicate(before, p) ==> NoPredicate(after, p))
    && (r.Split? ==> forall w :: w != r.bits / 2 && NoWidth(before, w) ==> NoWidth(after, w))
  }

  lemma ReplacedKinds(r: Rewrite, code: Code, i: nat)
    requires i < |code| && Selected(r, code[i]) && Even(r)
    ensures Kept(r, code, Replaced(r, code, i))
    ensures forall j :: 0 <= j < |Replaced(r, code, i)| && Selected(r, Replaced(r, code, i)[j]) ==> j < |code| && j != i
  {
    var code' := Replaced(r, code, i);
    var s := Pieces(r, code[i]);
    forall k | 0 <= k < |s|
      ensures s[k].pred in NewPredicates(r) && !Selected(r, s[k])
      ensures r.Split? ==> s[k].a.Width() == r.bits / 2
    {
    }
    forall j | |code| <= j < |code'|
      ensures code'[j] == s[j - |code|]
    {
    }
    assert !code'[i].ICmp?;
  }

  class Module {
    var code: Code

    constructor (code: Code)
      requires Valid(code)
      ensures this.code == code
    {
      this.code := code;
    }

    method Collect(r: Rewrite) returns (icomps: seq<nat>)
      ensures Pending(r, code, icomps)
    {
      icomps := [];
      for i := 0 to |code|
        invariant forall k :: 0 <= k < |icomps| ==> icomps[k] < i && Selected(r, code[icomps[k]])
        invariant forall j, k :: 0 <= j < k < |icomps| ==> icomps[j] < icomps[k]
        invariant forall j :: 0 <= j < i && Selected(r, code[j]) ==> j in icomps
      {
        if Selected(r, code[i]) {
          icomps := icomps + [i];
        }
      }
    }

    /** One pass: the compares to replace are collected first, then replaced one by one. */
    method RewriteAll(r: Rewrite)
      requires Valid(code) && Even(r)
      modifies this
      ensures Valid(code) && SameMeaning(old(code), code)
      ensures forall i :: 0 <= i < |code| ==> !Selected(r, code[i])
      ensures Kept(r, old(code), code)
    {
      hide Valid, SameMeaning, Kept, Even, Replaced, Pending, Selected;
      var icomps := Collect(r);
      ghost var code0 := code;
      ReflexiveFacts(r, code);
      for k := 0 to |icomps|
        invariant Valid(code) && SameMeaning(code0, code) && Kept(r, code0, code)
        invariant Pending(r, code, icomps[k..])
      {
        var i := icomps[k];
        assert icomps[k..] == [i] + icomps[k + 1..];
        ReplacedAll(r, code0, code, i, icomps[k + 1..]);
        code := Replaced(r, code, i);
      }
      assert icomps[|icomps|..] == [];
      NothingPending(r, code);
    }

    method RunOnModule(bitw: int)
      requires Valid(code)
      modifies this
      ensures Valid(code) && SameMeaning(old(code), code)
      ensures forall i :: 0 <= i < |code| && code[i].ICmp? ==> code[i].pred in {EQ, NE, UGT, ULT}
      ensures bitw == 64 ==> NoWidth(code, 64)
      ensures bitw == 64 || bitw == 32 ==> NoWidth(code, 32)
      ensures bitw == 64 || bitw == 32 || bitw == 16 ==> NoWidth(code, 16)
    {
      hide Meaning, Valid, SameMeaning, Kept, NoWidth, NoPredicate;
      ghost var c0 := code;
      RewriteAll(Simplify);
      ghost var c1 := code;
      RewriteAll(Unsign);
      ghost var c2 := code;
      AfterUnsign(c0, c1, c2);
      SameMeaningTransitive(c0, c1, c2);
      if bitw == 64 {
        RewriteAll(Split(64));
        AfterSplit(64, c2, code);
        SameMeaningTransitive(c0, c2, code);
      }
      ghost var c3 := code;
      if bitw == 64 || bitw == 32 {
        RewriteAll(Split(32));
        AfterSplit(32, c3, code);
        SameMeaningTransitive(c0, c3, code);
      }
      ghost var c4 := code;
      if bitw == 64 || bitw == 32 || bitw == 16 {
        RewriteAll(Split(16));
        AfterSplit(16, c4, code);
        SameMeaningTransitive(c0, c4, code);
      }
    }
  }

  lemma ReflexiveFacts(r: Rewrite, code: Code)
    ensures Kept(r, code, code)
    ensures Valid(code) ==> SameMeaning(code, code)
  {
  }

  lemma KeptTransitive(r: Rewrite, a: Code, b: Code, c: Code)
    requires Kept(r, a, b) && Kept(r, b, c)
    ensures Kept(r, a, c)
  {
  }

  /** The selected compares are exactly those of a list without repetitions. */
  ghost predicate Pending(r: Rewrite, code: Code, todo: seq<nat>) {
    && (forall k :: 0 <= k < |todo| ==> todo[k] < |code| && Selected(r, code[todo[k]]))
    && (forall j, k :: 0 <= j < k < |todo| ==> todo[j] < todo[k])
    && (forall i :: 0 <= i < |code| && Selected(r, code[i]) ==> i in todo)
  }

  lemma NothingPending(r: Rewrite, code: Code)
    requires Pending(r, code, [])
    ensures forall i :: 0 <= i < |code| ==> !Selected(r, code[i])
  {
  }

  lemma ReplacedPending(r: Rewrite, code: Code, i: nat, todo: seq<nat>)
    requires Even(r) && Pending(r, code, [i] + todo)
    ensures i < |code| && Selected(r, code[i]) && Pending(r, Replaced(r, code, i), todo)
  {
    hide Selected;
    var all := [i] + todo;
    assert all[0] == i;
    ReplacedKinds(r, code, i);
    ReplacedUnchanged(r, code, i);
    forall k | 0 <= k < |todo|
      ensures todo[k] < |code| && todo[k] != i && Selected(r, code[todo[k]])
    {
      assert all[k + 1] == todo[k];
    }
    forall j, k | 0 <= j < k < |todo|
      ensures todo[j] < todo[k]
    {
      assert all[j + 1] < all[k + 1];
    }
  }

  lemma ReplacedAll(r: Rewrite, code0: Code, code: Code, i: nat, todo: seq<nat>)
    requires Valid(code0) && Valid(code) && Even(r) && Pending(r, code, [i] + todo)
    requires SameMeaning(code0, code) && Kept(r, code0, code)
    ensures i < |code| && Selected(r, code[i]) && Pending(r, Replaced(r, code, i), todo)
    ensures Valid(Replaced(r, code, i)) && SameMeaning(code0, Replaced(r, code, i)) && Kept(r, code0, Replaced(r, code, i))
  {
    hide Selected, Kept, SameMeaning, Pending, Valid, Replaced;
    ReplacedPending(r, code, i, todo);
    ReplacedSame(r, code, i);
    ReplacedKinds(r, code, i);
    SameMeaningTransitive(code0, code, Replaced(r, code, i));
    KeptTransitive(r, code0, code, Replaced(r, code, i));
  }

  lemma ReplacedUnchanged(r: Rewrite, code: Code, i: nat)
    requires i < |code| && Selected(r, code[i])
    ensures |code| <= |Replaced(r, code, i)|
    ensures forall j :: 0 <= j < |code| && j != i ==> Replaced(r, code, i)[j] == code[j]
  {
  }

  ghost predicate Unsigned(code: Code) {
    forall i :: 0 <= i < |code| && code[i].ICmp? ==> code[i].pred in {EQ, NE, UGT, ULT}
  }

  lemma AfterUnsign(c0: Code, c1: Code, c2: Code)
    requires forall i :: 0 <= i < |c1| ==> !Selected(Simplify, c1[i])
    requires Kept(Unsign, c1, c2) && forall i :: 0 <= i < |c2| ==> !Selected(Unsign, c2[i])
    ensures Unsigned(c2)
  {
    assert NoPredicate(c1, UGE) && NoPredicate(c1, SGE) && NoPredicate(c1, ULE) && NoPredicate(c1, SLE);
    assert NoPredicate(c2, UGE) && NoPredicate(c2, SGE) && NoPredicate(c2, ULE) && NoPredicate(c2, SLE);
    assert NoPredicate(c2, SGT) && NoPredicate(c2, SLT);
  }

  lemma AfterSplit(w: nat, before: Code, after: Code)
    requires w > 0 && Unsigned(before) && Kept(Split(w), before, after) && Valid(after)
    requires forall i :: 0 <= i < |after| ==> !Selected(Split(w), after[i])
    ensures Unsigned(after) && NoWidth(after, w)
    ensures forall v :: v != w / 2 && NoWidth(before, v) ==> NoWidth(after, v)
  {
    assert NoPredicate(before, UGE) && NoPredicate(before, SGE) && NoPredicate(before, ULE) && NoPredicate(before, SLE);
    assert NoPredicate(before, SGT) && NoPredicate(before, SLT);
    assert NoPredicate(after, UGE) && NoPredicate(after, SGE) && NoPredicate(after, ULE) && NoPredicate(after, SLE);
    assert NoPredicate(after, SGT) && NoPredicate(after, SLT);
    forall i | 0 <= i < |after| && after[i].ICmp?
      ensures after[i].a.Width() != w
    {
      assert ValidInst(after[i], i, |after|);
      assert after[i].pred in {EQ, NE, UGT, ULT};
    }
  }
}
