/** The runtime's evaluation of a branch vector: right to left, on a stack of twenty doubles,
    with two constants standing for a known true and a known false. */
module StackMachine {
  import opened Conditions
  import opened Words

  const STACK_SIZE := 20

  /** A double: a sign bit and a magnitude.  Zero has both signs. */
  datatype Double = Double(neg: bool, mag: real) {
    function Real(): real {
      if neg then -mag else mag
    }

    /** `==` of the language: the two zeros are equal. */
    predicate Is(d: Double) {
      Real() == d.Real()
    }

    predicate Below(d: Double) {
      Real() < d.Real()
    }

    function Negated(): Double {
      Double(!neg, mag)
    }
  }

  const BR_TRUE := Double(true, 0.00293)
  const BR_FALSE := Double(false, 0.00239)

  /** No compare distance is one of the two constants, of either sign. */
  predicate Plain(d: Double) {
    d.mag >= 0.0 && d.mag != BR_TRUE.mag && d.mag != BR_FALSE.mag
  }

  predicate Clean(d: Double) {
    d == BR_TRUE || d == BR_FALSE || Plain(d)
  }

  // ----- one operator -----

  function MinOp(a: Double, b: Double): Double {
    if a.Is(BR_TRUE) || b.Is(BR_TRUE) then BR_TRUE
    else if a.Is(BR_FALSE) then b
    else if b.Is(BR_FALSE) then a
    else if a.Below(b) then a else b
  }

  function MaxOp(a: Double, b: Double): Double {
    if a.Is(BR_FALSE) || b.Is(BR_FALSE) then BR_FALSE
    else if a.Is(BR_TRUE) then b
    else if b.Is(BR_TRUE) then a
    else if b.Below(a) then a else b
  }

  /** `cmpNo` chooses which of the two an operator is. */
  function Combine(opcode: int, cmpNo: bool, a: Double, b: Double): Double {
    if opcode == (if cmpNo then BINOP_OR else BINOP_AND) then MinOp(a, b) else MaxOp(a, b)
  }

  function LeafValue(e: Entry, sign: bool, cmps: seq<Double>): Double
    requires 0 <= e.id < |cmps|
  {
    var cmpNo := Xor(e.no, sign);
    var d := cmps[e.id];
    if e.cmpType == -1 then
      if Xor(d.Real() == 1.0, cmpNo) then BR_TRUE else BR_FALSE
    else if cmpNo then d.Negated() else d
  }

  // ----- the scan -----

  predicate ValidEntry(e: Entry, cmps: nat) {
    if e.id == -1 then e.cmpType == BINOP_AND || e.cmpType == BINOP_OR else 0 <= e.id < cmps
  }

  ghost predicate ValidVector(v: seq<Entry>, cmps: nat) {
    forall i :: 0 <= i < |v| ==> ValidEntry(v[i], cmps)
  }

  /** One entry; `None` when an operator finds fewer than two values. */
  function Step(e: Entry, sign: bool, cmps: seq<Double>, stack: seq<Double>): Option<seq<Double>>
    requires ValidEntry(e, |cmps|)
  {
    var n := |stack|;
    if e.id != -1 then Some(stack + [LeafValue(e, sign, cmps)])
    else if n < 2 then None
    else Some(stack[..n - 2] + [Combine(e.cmpType, Xor(e.no, sign), stack[n - 1], stack[n - 2])])
  }

  /** The stack after the entries from the last to the first. */
  function Scan(v: seq<Entry>, sign: bool, cmps: seq<Double>, stack: seq<Double>): Option<seq<Double>>
    requires ValidVector(v, |cmps|)
  {
    if |v| == 0 then Some(stack)
    else
      match Step(v[|v| - 1], sign, cmps, stack)
      case None => None
      case Some(s) => Scan(v[..|v| - 1], sign, cmps, s)
  }

  // ----- duality -----

  /** True and false exchanged, everything else negated. */
  function Flip(d: Double): Double {
    if d == BR_TRUE then BR_FALSE else if d == BR_FALSE then BR_TRUE else d.Negated()
  }

  /** The operators are each other's dual, on ties and on signed zeros too. */
  lemma OperatorsDual(a: Double, b: Double)
    requires Clean(a) && Clean(b)
    ensures Flip(MinOp(a, b)) == MaxOp(Flip(a), Flip(b))
    ensures Flip(MaxOp(a, b)) == MinOp(Flip(a), Flip(b))
    ensures Clean(MinOp(a, b)) && Clean(MaxOp(a, b))
  {
  }

  function FlipAll(s: seq<Double>): (r: seq<Double>)
    ensures |r| == |s| && forall i :: 0 <= i < |s| ==> r[i] == Flip(s[i])
  {
    seq(|s|, i requires 0 <= i < |s| => Flip(s[i]))
  }

  /** Every distance a compare leaf of the vector reads is a plain one. */
  ghost predicate PlainLeaves(v: seq<Entry>, cmps: seq<Double>)
    requires ValidVector(v, |cmps|)
  {
    forall i :: 0 <= i < |v| && v[i].id != -1 && v[i].cmpType != -1 ==> Plain(cmps[v[i].id])
  }

  function FlipOption(o: Option<seq<Double>>): Option<seq<Double>> {
    match o
    case None => None
    case Some(s) => Some(FlipAll(s))
  }

  ghost predicate AllClean(s: seq<Double>) {
    forall i :: 0 <= i < |s| ==> Clean(s[i])
  }

  lemma StepDual(e: Entry, sign: bool, cmps: seq<Double>, stack: seq<Double>)
    requires ValidEntry(e, |cmps|) && AllClean(stack)
    requires e.id != -1 && e.cmpType != -1 ==> Plain(cmps[e.id])
    ensures Step(e, !sign, cmps, FlipAll(stack)) == FlipOption(Step(e, sign, cmps, stack))
    ensures Step(e, sign, cmps, stack).Some? ==> AllClean(Step(e, sign, cmps, stack).value)
  {
    hide Combine, LeafValue, Clean, Flip, Plain;
    var n := |stack|;
    if e.id != -1 {
      var x := LeafValue(e, sign, cmps);
      LeafDual(e, sign, cmps);
      assert FlipAll(stack) + [Flip(x)] == FlipAll(stack + [x]);
    } else if n >= 2 {
      var c := Combine(e.cmpType, Xor(e.no, sign), stack[n - 1], stack[n - 2]);
      CombineDual(e.cmpType, Xor(e.no, sign), stack[n - 1], stack[n - 2]);
      assert FlipAll(stack)[..n - 2] + [Flip(c)] == FlipAll(stack[..n - 2] + [c]);
    }
  }

  /** Running any vector with the other sign gives exactly the flipped stack, or underflows
      where the first run does. */
  lemma {:induction false} ScanDual(v: seq<Entry>, sign: bool, cmps: seq<Double>, stack: seq<Double>)
    requires ValidVector(v, |cmps|) && PlainLeaves(v, cmps) && AllClean(stack)
    ensures Scan(v, !sign, cmps, FlipAll(stack)) == FlipOption(Scan(v, sign, cmps, stack))
  {
    if |v| > 0 {
      hide Step, AllClean;
      var e := v[|v| - 1];
      StepDual(e, sign, cmps, stack);
      match Step(e, sign, cmps, stack)
      case None =>
      case Some(s) => ScanDual(v[..|v| - 1], sign, cmps, s);
    }
  }

  lemma CombineDual(opcode: int, cmpNo: bool, a: Double, b: Double)
    requires Clean(a) && Clean(b) && (opcode == BINOP_AND || opcode == BINOP_OR)
    ensures Combine(opcode, !cmpNo, Flip(a), Flip(b)) == Flip(Combine(opcode, cmpNo, a, b))
    ensures Clean(Combine(opcode, cmpNo, a, b))
  {
    OperatorsDual(a, b);
  }

  lemma LeafDual(e: Entry, sign: bool, cmps: seq<Double>)
    requires 0 <= e.id < |cmps| && (e.cmpType != -1 ==> Plain(cmps[e.id]))
    ensures LeafValue(e, !sign, cmps) == Flip(LeafValue(e, sign, cmps))
    ensures Clean(LeafValue(e, sign, cmps))
  {
  }

  /** A compare leaf is dual exactly when its distance has not the magnitude of a constant; that of
      a floating-point compare (predicate 2 is `a > b`) can have it. */
  lemma DualityNeedsPlain(e: Entry, cmps: seq<Double>)
    requires 0 <= e.id < |cmps| && e.cmpType != -1 && cmps[e.id].mag >= 0.0
    ensures (forall sign :: LeafValue(e, !sign, cmps) == Flip(LeafValue(e, sign, cmps))) <==> Plain(cmps[e.id])
    ensures LeafValue(Entry(0, 2, false), true, [BR_TRUE]) != Flip(LeafValue(Entry(0, 2, false), false, [BR_TRUE]))
  {
    assert LeafValue(e, !true, cmps) == Flip(LeafValue(e, true, cmps)) && LeafValue(e, !false, cmps) == Flip(LeafValue(e, false, cmps))
           <==> Plain(cmps[e.id]);
  }

  // ----- well-formed vectors -----

  ghost predicate ValidExpr(x: Expr, cmps: nat) {
    match x
    case Value(id, _, _) => id < cmps
    case Op(ty, _, l, r) => (ty == BINOP_AND || ty == BINOP_OR) && ValidExpr(l, cmps) && ValidExpr(r, cmps)
  }

  lemma {:induction false} FlattenValid(x: Expr, cmps: nat)
    requires ValidExpr(x, cmps)
    ensures ValidVector(Flatten(x), cmps)
  {
    match x
    case Value(_, _, _) =>
    case Op(_, _, l, r) =>
      FlattenValid(l, cmps);
      FlattenValid(r, cmps);
  }

  /** The value of an expression; the left operand is on top of the stack. */
  function Result(x: Expr, sign: bool, cmps: seq<Double>): Double
    requires ValidExpr(x, |cmps|)
  {
    match x
    case Value(id, ty, no) => LeafValue(Entry(id, ty, no), sign, cmps)
    case Op(ty, no, l, r) => Combine(ty, Xor(no, sign), Result(l, sign, cmps), Result(r, sign, cmps))
  }

  /** Stack slots needed: the left operand is computed on top of the right one's value. */
  function Height(x: Expr): nat {
    match x
    case Value(_, _, _) => 1
    case Op(_, _, l, r) => if Height(r) < 1 + Height(l) then 1 + Height(l) else Height(r)
  }

  /** The greatest number of values on the stack while a vector is scanned. */
  function Peak(v: seq<Entry>, depth: nat): nat {
    if |v| == 0 then depth
    else
      var next := if v[|v| - 1].id == -1 then (if depth < 1 then 0 else depth - 1) else depth + 1;
      var p := Peak(v[..|v| - 1], next);
      if p < depth then depth else p
  }

  lemma LastOfConcat(a: seq<Entry>, b: seq<Entry>)
    requires |b| > 0
    ensures (a + b)[..|a + b| - 1] == a + b[..|b| - 1]
    ensures (a + b)[|a + b| - 1] == b[|b| - 1]
  {
  }

  lemma ScanLast(before: seq<Entry>, e: Entry, sign: bool, cmps: seq<Double>, stack: seq<Double>)
    requires ValidVector(before, |cmps|) && ValidEntry(e, |cmps|)
    ensures ValidVector(before + [e], |cmps|)
    ensures Scan(before + [e], sign, cmps, stack) ==
            match Step(e, sign, cmps, stack) case None => None case Some(s) => Scan(before, sign, cmps, s)
  {
    var v := before + [e];
    assert v[|v| - 1] == e && v[..|v| - 1] == before;
  }

  lemma ConcatValid(a: seq<Entry>, b: seq<Entry>, cmps: nat)
    requires ValidVector(a, cmps) && ValidVector(b, cmps)
    ensures ValidVector(a + b, cmps)
  {
  }

  /** Scanning the code of an expression pushes its value, whatever was there before. */
  lemma {:induction false} ScanExpr(before: seq<Entry>, x: Expr, sign: bool, cmps: seq<Double>, stack: seq<Double>)
    requires ValidExpr(x, |cmps|) && ValidVector(before, |cmps|)
    ensures ValidVector(before + Flatten(x), |cmps|)
    ensures Scan(before + Flatten(x), sign, cmps, stack) == Scan(before, sign, cmps, stack + [Result(x, sign, cmps)])
    decreases x
  {
    FlattenValid(x, |cmps|);
    ConcatValid(before, Flatten(x), |cmps|);
    hide Combine, LeafValue, Scan, ValidVector;
    match x
    case Value(id, ty, no) =>
      ScanLast(before, Entry(id, ty, no), sign, cmps, stack);
    case Op(ty, no, l, r) =>
      var e := Entry(-1, ty, no);
      FlattenValid(l, |cmps|);
      var vl, vr := Result(l, sign, cmps), Result(r, sign, cmps);
      var s := stack + [vr] + [vl];
      ScanLast(before, e, sign, cmps, s);
      ConcatValid(before + [e], Flatten(l), |cmps|);
      BinarySplit(before, e, Flatten(l), Flatten(r));
      ScanExpr(before + [e] + Flatten(l), r, sign, cmps, stack);
      ScanExpr(before + [e], l, sign, cmps, stack + [vr]);
      assert s[..|s| - 2] == stack;
  }

  lemma BinarySplit(before: seq<Entry>, e: Entry, l: seq<Entry>, r: seq<Entry>)
    ensures before + Binary(e, l, r) == (before + [e] + l) + r
  {
  }

  /** A well-formed vector never underflows and leaves exactly one value. */
  lemma WellFormedScan(x: Expr, sign: bool, cmps: seq<Double>)
    requires ValidExpr(x, |cmps|)
    ensures ValidVector(Flatten(x), |cmps|) && Scan(Flatten(x), sign, cmps, []) == Some([Result(x, sign, cmps)])
  {
    ScanExpr([], x, sign, cmps, []);
    assert [] + Flatten(x) == Flatten(x);
    assert [] + [Result(x, sign, cmps)] == [Result(x, sign, cmps)];
  }

  lemma {:induction false} PeakAtLeast(v: seq<Entry>, depth: nat)
    ensures Peak(v, depth) >= depth
  {
  }

  lemma {:induction false} PeakExpr(before: seq<Entry>, x: Expr, depth: nat)
    ensures Peak(before + Flatten(x), depth) ==
            if Peak(before, depth + 1) < depth + Height(x) then depth + Height(x) else Peak(before, depth + 1)
    decreases x
  {
    match x
    case Value(id, ty, no) =>
      LastOfConcat(before, Flatten(x));
      assert before + Flatten(x)[..0] == before;
      PeakAtLeast(before, depth + 1);
    case Op(ty, no, l, r) =>
      var e := Entry(-1, ty, no);
      assert before + Flatten(x) == (before + [e] + Flatten(l)) + Flatten(r);
      PeakExpr(before + [e] + Flatten(l), r, depth);
      PeakExpr(before + [e], l, depth + 1);
      LastOfConcat(before, [e]);
      assert before + [e][..0] == before;
      PeakAtLeast(before, depth + 1);
      HeightPositive(l);
      HeightPositive(r);
  }

  lemma HeightPositive(x: Expr)
    ensures Height(x) >= 1
  {
  }

  /** Exactly `Height` slots are needed. */
  lemma SlotsNeeded(x: Expr)
    ensures Peak(Flatten(x), 0) == Height(x)
  {
    PeakExpr([], x, 0);
    assert [] + Flatten(x) == Flatten(x);
    HeightPositive(x);
  }

  // ----- the depth a condition needs -----

  function CondHeight(c: Cond): nat
    requires Supported(c)
  {
    match c
    case Leaf(_) => 1
    case Bin(op, Variable(l), Variable(r)) =>
      var h := Max(CondHeight(r), 1 + CondHeight(l));
      if op == BINOP_XOR then 1 + h else h
    case Bin(_, Const(_), Variable(x)) => CondHeight(x)
    case Bin(_, Variable(x), Const(_)) => CondHeight(x)
  }

  lemma {:induction false} CompiledHeight(kind: nat -> int, ids: map<nat, nat>, c: Cond, no: bool)
    requires Supported(c) && Leaves(c) <= ids.Keys
    ensures Height(Compile(kind, ids, c, no)) == CondHeight(c)
    decreases c
  {
    match c
    case Leaf(_) =>
    case Bin(op, Variable(l), Variable(r)) =>
      CompiledHeight(kind, ids, l, no);
      CompiledHeight(kind, ids, r, no);
      CompiledHeight(kind, ids, l, !no);
      CompiledHeight(kind, ids, r, !no);
    case Bin(op, Const(k), Variable(x)) => CompiledHeight(kind, ids, x, no); CompiledHeight(kind, ids, x, !no);
    case Bin(op, Variable(x), Const(k)) => CompiledHeight(kind, ids, x, no); CompiledHeight(kind, ids, x, !no);
  }

  /** `(...(x AND x) AND ...) AND x`, with `n` operators. */
  function LeftChain(n: nat): Cond {
    if n == 0 then Leaf(0) else Bin(BINOP_AND, Variable(LeftChain(n - 1)), Variable(Leaf(0)))
  }

  function RightChain(n: nat): Cond {
    if n == 0 then Leaf(0) else Bin(BINOP_AND, Variable(Leaf(0)), Variable(RightChain(n - 1)))
  }

  /** A left-nested chain of twenty operators no longer fits; a right-nested one always does. */
  lemma {:induction false} ChainHeights(n: nat)
    ensures Supported(LeftChain(n)) && CondHeight(LeftChain(n)) == n + 1
    ensures CondHeight(LeftChain(n)) <= STACK_SIZE <==> n < 20
    ensures Supported(RightChain(n)) && CondHeight(RightChain(n)) <= 2
  {
    if n > 0 {
      ChainHeights(n - 1);
    }
  }

  // ----- what the sign bit of the result says -----

  /** A sign bit, and whether the value is a zero. */
  datatype Side = Side(neg: bool, zero: bool)

  function SideOf(d: Double): Side {
    Side(d.neg, d.mag == 0.0)
  }

  /** Of two zeros the second operand is taken, whatever their signs. */
  function MinSide(a: Side, b: Side): Side {
    if a.zero && b.zero then b
    else if a.zero then (if b.neg then b else a)
    else if b.zero then (if a.neg then a else b)
    else Side(a.neg || b.neg, false)
  }

  function MaxSide(a: Side, b: Side): Side {
    if a.zero && b.zero then b
    else if a.zero then (if b.neg then a else b)
    else if b.zero then (if a.neg then b else a)
    else Side(a.neg && b.neg, false)
  }

  /** The operators act on sides: nothing else of the distances matters. */
  lemma SideOfOperators(a: Double, b: Double)
    requires Clean(a) && Clean(b)
    ensures SideOf(MinOp(a, b)) == MinSide(SideOf(a), SideOf(b))
    ensures SideOf(MaxOp(a, b)) == MaxSide(SideOf(a), SideOf(b))
  {
  }

  /** A minimum is negative when one operand is, a maximum when both are, except when the
      operands are zeros of different sign in the one order. */
  lemma SignOfOperators(a: Double, b: Double)
    requires Clean(a) && Clean(b)
    ensures MinOp(a, b).neg == (a.neg || b.neg) <==> !(a.mag == 0.0 && b.mag == 0.0 && a.neg && !b.neg)
    ensures MaxOp(a, b).neg == (a.neg && b.neg) <==> !(a.mag == 0.0 && b.mag == 0.0 && !a.neg && b.neg)
  {
  }

  ghost predicate PlainValues(x: Expr, cmps: seq<Double>)
    requires ValidExpr(x, |cmps|)
  {
    match x
    case Value(id, ty, _) => ty != -1 ==> Plain(cmps[id])
    case Op(_, _, l, r) => PlainValues(l, cmps) && PlainValues(r, cmps)
  }

  /** What a leaf says: a compare by its sign bit, another instruction by being 1. */
  function LeafTruth(ty: int, d: Double): bool {
    if ty == -1 then d.Real() == 1.0 else d.neg
  }

  function Complement(truth: nat -> bool): nat -> bool {
    (id: nat) => !truth(id)
  }

  /** How a leaf enters: its truth with the polarity, and whether it is a zero distance. */
  function LeafSide(ty: int, d: Double, cmpNo: bool): Side {
    Side(Xor(LeafTruth(ty, d), cmpNo), ty != -1 && d.mag == 0.0)
  }

  /** The side of the result, from the leaves. */
  function ResultSide(x: Expr, sign: bool, cmps: seq<Double>): Side
    requires ValidExpr(x, |cmps|)
  {
    match x
    case Value(id, ty, no) => LeafSide(ty, cmps[id], Xor(no, sign))
    case Op(ty, no, l, r) =>
      var a, b := ResultSide(l, sign, cmps), ResultSide(r, sign, cmps);
      if ty == (if Xor(no, sign) then BINOP_OR else BINOP_AND) then MinSide(a, b) else MaxSide(a, b)
  }

  /** The sign bit of every result, zeros included. */
  lemma {:induction false} SignOfResult(x: Expr, sign: bool, cmps: seq<Double>)
    requires ValidExpr(x, |cmps|) && PlainValues(x, cmps)
    ensures Clean(Result(x, sign, cmps)) && SideOf(Result(x, sign, cmps)) == ResultSide(x, sign, cmps)
    decreases x
  {
    match x
    case Value(_, _, _) =>
    case Op(ty, no, l, r) =>
      SignOfResult(l, sign, cmps);
      SignOfResult(r, sign, cmps);
      hide MinOp, MaxOp, MinSide, MaxSide, Clean;
      SideOfOperators(Result(l, sign, cmps), Result(r, sign, cmps));
      OperatorsDual(Result(l, sign, cmps), Result(r, sign, cmps));
  }

  /** Every zero distance among the leaves enters with sign `z`. */
  ghost predicate ZerosAlike(x: Expr, sign: bool, cmps: seq<Double>, z: bool)
    requires ValidExpr(x, |cmps|)
  {
    match x
    case Value(id, ty, no) => LeafSide(ty, cmps[id], Xor(no, sign)).zero ==> LeafSide(ty, cmps[id], Xor(no, sign)).neg == z
    case Op(_, _, l, r) => ZerosAlike(l, sign, cmps, z) && ZerosAlike(r, sign, cmps, z)
  }

  /** The runtime's reading, while no +0 and -0 are among the leaves: with `sign` the denotation of
      the vector under complemented leaves, without it the complement of that. */
  lemma {:induction false} SignIsDenotation(x: Expr, sign: bool, cmps: seq<Double>, truth: nat -> bool, z: bool)
    requires ValidExpr(x, |cmps|) && ZerosAlike(x, sign, cmps, z) && LeavesSay(x, cmps, truth)
    ensures ResultSide(x, sign, cmps).zero ==> ResultSide(x, sign, cmps).neg == z
    ensures ResultSide(x, sign, cmps).neg == Xor(Denote(x, Complement(truth)), !sign)
    decreases x
  {
    match x
    case Value(_, _, _) =>
    case Op(ty, no, l, r) =>
      SignIsDenotation(l, sign, cmps, truth, z);
      SignIsDenotation(r, sign, cmps, truth, z);
  }

  /** With both among them it need not be: `p OR q`, `p` false at +0 and `q` true at -0, run with
      `sign`, ends positive. */
  lemma ZerosClash()
    ensures var x := Op(BINOP_OR, false, Value(0, 34, false), Value(1, 32, false));
            var cmps := [Double(false, 0.0), Double(true, 0.0)];
            && ValidExpr(x, 2) && PlainValues(x, cmps) && LeavesSay(x, cmps, (id: nat) => id == 1)
            && Result(x, true, cmps).neg != Xor(Denote(x, Complement((id: nat) => id == 1)), !true)
  {
  }

  ghost predicate LeavesSay(x: Expr, cmps: seq<Double>, truth: nat -> bool)
    requires ValidExpr(x, |cmps|)
  {
    match x
    case Value(id, ty, _) => truth(id) == LeafTruth(ty, cmps[id])
    case Op(_, _, l, r) => LeavesSay(l, cmps, truth) && LeavesSay(r, cmps, truth)
  }

  // ----- which distance is left -----

  /** The known true is below every distance, the known false above. */
  predicate AtMost(d: Double, t: real) {
    d == BR_TRUE || (d != BR_FALSE && d.Real() <= t)
  }

  /** The operators give back one of their operands, one the lesser and one the greater. */
  lemma OperatorsChoose(a: Double, b: Double, t: real)
    requires Clean(a) && Clean(b)
    ensures (MinOp(a, b) == a || MinOp(a, b) == b) && (MaxOp(a, b) == a || MaxOp(a, b) == b)
    ensures AtMost(MinOp(a, b), t) <==> AtMost(a, t) || AtMost(b, t)
    ensures AtMost(MaxOp(a, b), t) <==> AtMost(a, t) && AtMost(b, t)
    ensures Plain(a) && Plain(b) ==> MinOp(a, b).Real() <= a.Real() <= MaxOp(a, b).Real()
    ensures Plain(a) && Plain(b) ==> MinOp(a, b).Real() <= b.Real() <= MaxOp(a, b).Real()
  {
  }

  /** The operator takes the lesser of its operands. */
  predicate TakesLeast(ty: int, no: bool, sign: bool) {
    ty == if Xor(no, sign) then BINOP_OR else BINOP_AND
  }

  /** What the leaves put on the stack, left to right. */
  function LeafValues(x: Expr, sign: bool, cmps: seq<Double>): seq<Double>
    requires ValidExpr(x, |cmps|)
  {
    match x
    case Value(id, ty, no) => [LeafValue(Entry(id, ty, no), sign, cmps)]
    case Op(_, _, l, r) => LeafValues(l, sign, cmps) + LeafValues(r, sign, cmps)
  }

  /** Some of both operands, or all of one, are at most `t`. */
  predicate LeavesAtMost(x: Expr, sign: bool, cmps: seq<Double>, t: real)
    requires ValidExpr(x, |cmps|)
  {
    match x
    case Value(id, ty, no) => AtMost(LeafValue(Entry(id, ty, no), sign, cmps), t)
    case Op(ty, no, l, r) =>
      if TakesLeast(ty, no, sign) then LeavesAtMost(l, sign, cmps, t) || LeavesAtMost(r, sign, cmps, t)
      else LeavesAtMost(l, sign, cmps, t) && LeavesAtMost(r, sign, cmps, t)
  }

  /** The value of an expression is that of one of its leaves, and how it compares with any threshold
      is decided by how the leaves do. */
  lemma {:induction false} ResultChooses(x: Expr, sign: bool, cmps: seq<Double>, t: real)
    requires ValidExpr(x, |cmps|) && PlainValues(x, cmps)
    ensures Clean(Result(x, sign, cmps)) && Result(x, sign, cmps) in LeafValues(x, sign, cmps)
    ensures AtMost(Result(x, sign, cmps), t) <==> LeavesAtMost(x, sign, cmps, t)
    decreases x
  {
    match x
    case Value(_, _, _) =>
    case Op(ty, no, l, r) =>
      ResultChooses(l, sign, cmps, t);
      ResultChooses(r, sign, cmps, t);
      hide MinOp, MaxOp, Clean, AtMost, Plain;
      OperatorsChoose(Result(l, sign, cmps), Result(r, sign, cmps), t);
      OperatorsDual(Result(l, sign, cmps), Result(r, sign, cmps));
  }

  /** All operators of the expression take the lesser operand, or all take the greater. */
  predicate Uniform(x: Expr, sign: bool, least: bool) {
    match x
    case Value(_, _, _) => true
    case Op(ty, no, l, r) => TakesLeast(ty, no, sign) == least && Uniform(l, sign, least) && Uniform(r, sign, least)
  }

  /** Over compares, operators of one kind leave the least, or the greatest, of all distances. */
  lemma {:induction false} ExtremeOfAll(x: Expr, sign: bool, cmps: seq<Double>, least: bool)
    requires ValidExpr(x, |cmps|) && PlainValues(x, cmps) && Uniform(x, sign, least) && OnlyCompares(x)
    ensures Plain(Result(x, sign, cmps)) && Result(x, sign, cmps) in LeafValues(x, sign, cmps)
    ensures forall v <- LeafValues(x, sign, cmps) ::
              if least then Result(x, sign, cmps).Real() <= v.Real() else v.Real() <= Result(x, sign, cmps).Real()
    decreases x
  {
    match x
    case Value(_, _, _) =>
    case Op(ty, no, l, r) =>
      ExtremeOfAll(l, sign, cmps, least);
      ExtremeOfAll(r, sign, cmps, least);
      hide MinOp, MaxOp, Plain;
      PlainIsClean(Result(l, sign, cmps));
      PlainIsClean(Result(r, sign, cmps));
      OperatorsChoose(Result(l, sign, cmps), Result(r, sign, cmps), 0.0);
  }

  lemma PlainIsClean(d: Double)
    requires Plain(d)
    ensures Clean(d)
  {
  }

  predicate OnlyCompares(x: Expr) {
    match x
    case Value(_, ty, _) => ty != -1
    case Op(_, _, l, r) => OnlyCompares(l) && OnlyCompares(r)
  }

  // ----- conditions, end to end -----

  lemma {:induction false} CompileValid(kind: nat -> int, ids: map<nat, nat>, c: Cond, no: bool, cmps: nat)
    requires Supported(c) && Leaves(c) <= ids.Keys && forall inst <- Leaves(c) :: ids[inst] < cmps
    ensures ValidExpr(Compile(kind, ids, c, no), cmps)
    decreases c
  {
    match c
    case Leaf(_) =>
    case Bin(op, Variable(l), Variable(r)) =>
      CompileValid(kind, ids, l, no, cmps);
      CompileValid(kind, ids, r, no, cmps);
      CompileValid(kind, ids, l, !no, cmps);
      CompileValid(kind, ids, r, !no, cmps);
    case Bin(op, Const(k), Variable(x)) => CompileValid(kind, ids, x, no, cmps); CompileValid(kind, ids, x, !no, cmps);
    case Bin(op, Variable(x), Const(k)) => CompileValid(kind, ids, x, no, cmps); CompileValid(kind, ids, x, !no, cmps);
  }

  /** The vector emitted for a condition, run with either sign: one value is left, and its sign bit
      is that of the sides of the leaves.  While no +0 and -0 are among the distances read, it is
      the condition under complemented leaves, complemented again without `sign`. */
  lemma ConditionSign(kind: nat -> int, ids: map<nat, nat>, c: Cond, sign: bool, cmps: seq<Double>, env: nat -> bool, truth: nat -> bool)
    requires Supported(c) && Leaves(c) <= ids.Keys && forall inst <- Leaves(c) :: ids[inst] < |cmps|
    requires forall inst <- Leaves(c) :: truth(ids[inst]) == env(inst) == LeafTruth(kind(inst), cmps[ids[inst]])
    requires forall inst <- Leaves(c) :: kind(inst) != -1 ==> Plain(cmps[ids[inst]])
    ensures var v, x := Emit(kind, ids, c, false), Compile(kind, ids, c, false);
            && ValidVector(v, |cmps|) && Scan(v, sign, cmps, []).Some? && |Scan(v, sign, cmps, []).value| == 1
            && var neg := Scan(v, sign, cmps, []).value[0].neg;
               && ValidExpr(x, |cmps|) && neg == ResultSide(x, sign, cmps).neg
               && ((exists z :: ZerosAlike(x, sign, cmps, z)) ==> neg == Xor(Eval(c, Complement(env)), !sign))
  {
    var x := Compile(kind, ids, c, false);
    CompileValid(kind, ids, c, false, |cmps|);
    CompiledLeaves(kind, ids, c, false, cmps, truth);
    EmitIsFlatten(kind, ids, c, false);
    WellFormedScan(x, sign, cmps);
    SignOfResult(x, sign, cmps);
    if z :| ZerosAlike(x, sign, cmps, z) {
      SignIsDenotation(x, sign, cmps, truth, z);
      CompileDenotes(kind, ids, c, false, Complement(env), Complement(truth));
    }
  }

  lemma {:induction false} CompiledLeaves(kind: nat -> int, ids: map<nat, nat>, c: Cond, no: bool, cmps: seq<Double>, truth: nat -> bool)
    requires Supported(c) && Leaves(c) <= ids.Keys && forall inst <- Leaves(c) :: ids[inst] < |cmps|
    requires forall inst <- Leaves(c) :: truth(ids[inst]) == LeafTruth(kind(inst), cmps[ids[inst]])
    requires forall inst <- Leaves(c) :: kind(inst) != -1 ==> Plain(cmps[ids[inst]])
    ensures ValidExpr(Compile(kind, ids, c, no), |cmps|)
    ensures PlainValues(Compile(kind, ids, c, no), cmps) && LeavesSay(Compile(kind, ids, c, no), cmps, truth)
    decreases c
  {
    CompileValid(kind, ids, c, no, |cmps|);
    match c
    case Leaf(_) =>
    case Bin(op, Variable(l), Variable(r)) =>
      hide Plain, LeafTruth;
      CompiledLeaves(kind, ids, l, no, cmps, truth);
      CompiledLeaves(kind, ids, r, no, cmps, truth);
      CompiledLeaves(kind, ids, l, !no, cmps, truth);
      CompiledLeaves(kind, ids, r, !no, cmps, truth);
    case Bin(op, Const(k), Variable(x)) =>
      CompiledLeaves(kind, ids, x, no, cmps, truth);
      CompiledLeaves(kind, ids, x, !no, cmps, truth);
    case Bin(op, Variable(x), Const(k)) =>
      CompiledLeaves(kind, ids, x, no, cmps, truth);
      CompiledLeaves(kind, ids, x, !no, cmps, truth);
  }

  /** So the sign bit says whether the condition holds, while no +0 and -0 are among the distances
      read, exactly when the condition changes with all its leaves complemented. */
  lemma CompoundSignIff(kind: nat -> int, ids: map<nat, nat>, c: Cond, sign: bool, cmps: seq<Double>, env: nat -> bool, truth: nat -> bool,
                        z: bool)
    requires Supported(c) && Leaves(c) <= ids.Keys && forall inst <- Leaves(c) :: ids[inst] < |cmps|
    requires forall inst <- Leaves(c) :: truth(ids[inst]) == env(inst) == LeafTruth(kind(inst), cmps[ids[inst]])
    requires forall inst <- Leaves(c) :: kind(inst) != -1 ==> Plain(cmps[ids[inst]])
    requires ValidExpr(Compile(kind, ids, c, false), |cmps|) && ZerosAlike(Compile(kind, ids, c, false), sign, cmps, z)
    ensures Result(Compile(kind, ids, c, false), sign, cmps).neg == Xor(Eval(c, env), sign) <==> Eval(c, Complement(env)) != Eval(c, env)
  {
    var x := Compile(kind, ids, c, false);
    ConditionSign(kind, ids, c, sign, cmps, env, truth);
    CompiledLeaves(kind, ids, c, false, cmps, truth);
    SignOfResult(x, sign, cmps);
  }

  /** It need not: `a == b AND c == d`, true and false, ends negative without `sign`, as a true
      compare would. */
  lemma CompoundSignIsNotTruth()
    ensures var c := Bin(BINOP_AND, Variable(Leaf(0)), Variable(Leaf(1)));
            var ids: map<nat, nat> := map[0 := 0, 1 := 1];
            var cmps := [Double(true, 0.0), Double(false, 1.0)];
            var x := Compile(_ => 32, ids, c, false);
            ValidExpr(x, 2) && Result(x, false, cmps).neg && !Eval(c, (inst: nat) => cmps[if inst == 0 then 0 else 1].neg)
  {
  }

  /** Duality for a whole expression. */
  lemma ResultDual(x: Expr, sign: bool, cmps: seq<Double>)
    requires ValidExpr(x, |cmps|) && PlainValues(x, cmps)
    ensures Result(x, !sign, cmps) == Flip(Result(x, sign, cmps))
  {
    WellFormedScan(x, sign, cmps);
    WellFormedScan(x, !sign, cmps);
    PlainFlatten(x, cmps);
    ScanDual(Flatten(x), sign, cmps, []);
    assert FlipAll([]) == [];
    assert [Result(x, !sign, cmps)] == FlipAll([Result(x, sign, cmps)]);
    assert FlipAll([Result(x, sign, cmps)])[0] == [Result(x, !sign, cmps)][0];
  }

  /** What the fuzzer makes of the value left by a run: it turns the sign where the run had not. */
  function Oriented(value: Double, left: int, right: int): Double {
    if left < right then value.Negated() else value
  }

  /** After both steps neither sign nor distance depends on which side is the heavier one; only the
      two constants differ. */
  lemma OrientationCancels(x: Expr, left: int, right: int, cmps: seq<Double>)
    requires ValidExpr(x, |cmps|) && PlainValues(x, cmps)
    ensures var v, d := Oriented(Result(x, left >= right, cmps), left, right), Result(x, true, cmps);
            v.neg == d.neg && (Plain(d) ==> v == d)
  {
    ResultDual(x, true, cmps);
    SignOfResult(x, true, cmps);
  }

  /** A 32-bit word read as two's complement. */
  function S32(w: nat): int {
    if w < 0x8000_0000 then w else w - 0x1_0000_0000
  }

  /** The run compares the two sides as signed, the fuzzer as unsigned words: they turn the same
      way exactly when none or both have the top bit. */
  lemma OrientationsAgree(left: nat, right: nat)
    requires left < 0x1_0000_0000 && right < 0x1_0000_0000
    ensures (S32(left) >= S32(right)) == (left >= right) <==> (left < 0x8000_0000 <==> right < 0x8000_0000)
    ensures (S32(0x8000_0000) >= S32(0)) != (0x8000_0000 >= 0)
  {
  }

  lemma {:induction false} PlainFlatten(x: Expr, cmps: seq<Double>)
    requires ValidExpr(x, |cmps|) && PlainValues(x, cmps)
    ensures ValidVector(Flatten(x), |cmps|) && PlainLeaves(Flatten(x), cmps)
  {
    FlattenValid(x, |cmps|);
    match x
    case Value(_, _, _) =>
    case Op(_, _, l, r) =>
      PlainFlatten(l, cmps);
      PlainFlatten(r, cmps);
  }

  // ----- the loop -----

  /** Entry `i` of the vector that starts at `cmpVec` in the flat array of triples. */
  function Triple(flat: seq<int>, cmpVec: nat, i: nat): Entry
    requires cmpVec + 3 * i + 2 < |flat|
  {
    Entry(flat[cmpVec + 3 * i], flat[cmpVec + 3 * i + 1], flat[cmpVec + 3 * i + 2] != 0)
  }

  ghost predicate Stored(flat: seq<int>, cmpVec: nat, v: seq<Entry>) {
    cmpVec + 3 * |v| <= |flat| && forall i :: 0 <= i < |v| ==> Triple(flat, cmpVec, i) == v[i]
  }

  /** One operator of the vector: a minimum or a maximum, the constants absorbing or neutral. */
  method ApplyBinop(cmpType: int, cmpNo: bool, real1: Double, real2: Double) returns (res: Double)
    ensures res == Combine(cmpType, cmpNo, real1, real2)
  {
    var binopOr := if cmpNo then BINOP_OR else BINOP_AND;
    if cmpType == binopOr {
      if real1.Is(BR_TRUE) || real2.Is(BR_TRUE) {
        res := BR_TRUE;
      } else if real1.Is(BR_FALSE) {
        res := real2;
      } else if real2.Is(BR_FALSE) {
        res := real1;
      } else {
        res := if real1.Below(real2) then real1 else real2;
      }
    } else {
      if real1.Is(BR_FALSE) || real2.Is(BR_FALSE) {
        res := BR_FALSE;
      } else if real1.Is(BR_TRUE) {
        res := real2;
      } else if real2.Is(BR_TRUE) {
        res := real1;
      } else {
        res := if real2.Below(real1) then real1 else real2;
      }
    }
  }

  /** One entry, on the array. */
  method StepInPlace(stack: array<Double>, top: nat, cmpId: int, cmpType: int, no: bool, sign: bool, cmps: array<Double>, base: nat)
    returns (top': nat)
    requires stack != cmps && top <= stack.Length && base <= cmps.Length
    requires var e := Entry(cmpId, cmpType, no);
             ValidEntry(e, cmps.Length - base) && Step(e, sign, cmps[base..], stack[..top]).Some?
    requires cmpId != -1 ==> top < stack.Length
    modifies stack
    ensures top' <= stack.Length
    ensures stack[..top'] == Step(Entry(cmpId, cmpType, no), sign, cmps[base..], old(stack[..top])).value
  {
    hide Combine, LeafValue;
    ghost var s := stack[..top];
    var cmpNo := Xor(no, sign);
    if cmpId == -1 {
      var res := ApplyBinop(cmpType, cmpNo, stack[top - 1], stack[top - 2]);
      stack[top - 2] := res;
      top' := top - 1;
      assert stack[..top'] == s[..|s| - 2] + [res];
    } else {
      stack[top] := LeafValue(Entry(cmpId, cmpType, no), sign, cmps[base..]);
      top' := top + 1;
      assert stack[..top'] == s + [LeafValue(Entry(cmpId, cmpType, no), sign, cmps[base..])];
    }
  }

  lemma PeakLast(before: seq<Entry>, e: Entry, depth: nat)
    ensures e.id != -1 ==> depth + 1 <= Peak(before + [e], depth) && Peak(before, depth + 1) <= Peak(before + [e], depth)
    ensures e.id == -1 && depth >= 2 ==> Peak(before, depth - 1) <= Peak(before + [e], depth)
  {
    LastOfConcat(before, [e]);
    assert before + [e][..0] == before;
    PeakAtLeast(before, depth + 1);
  }

  /** Evaluates the vector stored at `cmpVec` over the compares that start at `base`; the new value
      of the branch is the one left on the stack. */
  method EvaluateBranch(flat: array<int>, cmpVec: nat, cmpSize: nat, left: int, right: int, cmps: array<Double>, base: nat, ghost x: Expr)
    returns (value: Double)
    requires Stored(flat[..], cmpVec, Flatten(x)) && cmpSize == |Flatten(x)|
    requires base <= cmps.Length && ValidExpr(x, cmps.Length - base) && Height(x) <= STACK_SIZE
    ensures value == Result(x, left >= right, cmps[base..])
  {
    hide Result, Step, ValidEntry, Peak, Scan;
    var stack := new Double[STACK_SIZE](_ => BR_FALSE);
    var top := 0;
    var sign := left >= right;
    ghost var v, values := Flatten(x), cmps[base..];
    SlotsNeeded(x);
    WellFormedScan(x, sign, values);
    assert v[..cmpSize] == v && stack[..top] == [];
    var i := cmpSize;
    while i > 0
      invariant 0 <= i <= cmpSize && 0 <= top <= STACK_SIZE
      invariant Peak(v[..i], top) <= STACK_SIZE
      invariant ValidVector(v[..i], |values|)
      invariant Scan(v[..i], sign, values, stack[..top]) == Some([Result(x, sign, values)])
    {
      i := i - 1;
      assert v[..i + 1] == v[..i] + [v[i]];
      assert Triple(flat[..], cmpVec, i) == v[i];
      ValidLast(v[..i], v[i], |values|);
      ScanLast(v[..i], v[i], sign, values, stack[..top]);
      PeakLast(v[..i], v[i], top);
      StepSize(v[i], sign, values, stack[..top]);
      top := StepInPlace(stack, top, flat[cmpVec + i * 3], flat[cmpVec + i * 3 + 1], flat[cmpVec + i * 3 + 2] != 0, sign, cmps, base);
    }
    ScanNone(sign, values, stack[..top]);
    assert v[..0] == [];
    value := stack[0];
    assert stack[..top][0] == value;
  }

  lemma ValidLast(before: seq<Entry>, e: Entry, cmps: nat)
    requires ValidVector(before + [e], cmps)
    ensures ValidVector(before, cmps) && ValidEntry(e, cmps)
  {
    var v := before + [e];
    assert v[|before|] == e;
    assert forall i :: 0 <= i < |before| ==> before[i] == v[i];
  }

  lemma StepSize(e: Entry, sign: bool, cmps: seq<Double>, stack: seq<Double>)
    requires ValidEntry(e, |cmps|)
    ensures match Step(e, sign, cmps, stack)
            case None => true
            case Some(s) => if e.id == -1 then |stack| >= 2 && |s| == |stack| - 1 else |s| == |stack| + 1
  {
  }

  lemma ScanNone(sign: bool, cmps: seq<Double>, stack: seq<Double>)
    ensures Scan([], sign, cmps, stack) == Some(stack)
  {
  }
}
