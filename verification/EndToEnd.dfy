/** A branch from the pass to the fuzzer: its condition compiled, written and read back, evaluated
    over what its leaves stored, and the value as the fuzzer takes it. */
module EndToEnd {
  import opened Conditions
  import D = Distance
  import opened InfoFile
  import opened StackMachine
  import W = Words

  /** The tables read back from the units of all modules, of which unit `k` is that of the pass. */
  ghost predicate ReadBack(us: seq<Unit>, k: nat, p: Pass, t: Tables)
    reads p
  {
    && InfoFile.Distinct(us) && k < |us| && us[k] == UnitOf(p) && p.Valid() && p.Collected()
    && p.cmpCnt <= 0x8000 && Sized(p.brCnt) && t == Loaded(EMPTY, Sections(us))
  }

  /** A branch whose condition the machine can run, and whose counts have not overflowed. */
  ghost predicate Runnable(kind: nat -> int, b: Branch, c: Cond) {
    && Supported(c) && CondHeight(c) <= STACK_SIZE && (forall inst <- Leaves(c) :: FitsS16(kind(inst)))
    && 0 <= b.left < 0x8000_0000 && 0 <= b.right < 0x8000_0000
  }

  /** A leaf has stored a value that says `says`. */
  ghost predicate LeafStored(kind: nat -> int, ids: map<nat, nat>, values: seq<Double>, inst: nat, says: bool) {
    && inst in ids && ids[inst] < |values| && says == LeafTruth(kind(inst), values[ids[inst]])
    && (kind(inst) != -1 ==> Plain(values[ids[inst]]))
  }

  /** Each leaf of the condition has stored a value that says what `env` says. */
  ghost predicate LeavesStored(kind: nat -> int, ids: map<nat, nat>, c: Cond, values: seq<Double>, env: nat -> bool) {
    forall inst <- Leaves(c) :: LeafStored(kind, ids, values, inst, env(inst))
  }

  /** The record of branch `id` of a module, and where the module's leaves start. */
  ghost predicate Ready(t: Tables, m: nat, id: nat, x: Expr, leaves: nat) {
    && m in t.brInfoPtr && t.brInfoPtr[m] + id < |t.brInfo|
    && m in t.cmpInfoPtr && t.cmpInfoPtr[m] + leaves <= |t.cmpInfo|
    && var r := t.brInfo[t.brInfoPtr[m] + id];
       r.cmpSize == |Flatten(x)| && StackMachine.Stored(t.cmpvec, r.cmpVec, Flatten(x))
  }

  /** One execution of a branch, in the target. */
  method VisitBr(t: Tables, flat: array<int>, reals: array<Double>, moduleId: nat, id: nat, ghost x: Expr, ghost leaves: nat)
    returns (value: Double)
    requires Ready(t, moduleId, id, x, leaves) && ValidExpr(x, leaves) && Height(x) <= STACK_SIZE
    requires flat[..] == t.cmpvec && reals.Length == |t.cmpInfo|
    ensures var r, base := t.brInfo[t.brInfoPtr[moduleId] + id], t.cmpInfoPtr[moduleId];
            ValidExpr(x, reals.Length - base) && value == Result(x, S32(r.left) >= S32(r.right), reals[base..])
  {
    var r, base := t.brInfo[t.brInfoPtr[moduleId] + id], t.cmpInfoPtr[moduleId];
    ValidMore(x, leaves, reals.Length - base);
    value := EvaluateBranch(flat, r.cmpVec, r.cmpSize, S32(r.left), S32(r.right), reals, base, x);
  }

  lemma {:induction false} ValidMore(x: Expr, n: nat, m: nat)
    requires ValidExpr(x, n) && n <= m
    ensures ValidExpr(x, m)
    decreases x
  {
    match x
    case Value(_, _, _) =>
    case Op(_, _, l, r) => ValidMore(l, n, m); ValidMore(r, n, m);
  }

  /** What reading back gives for branch `j` of the pass. */
  lemma BranchReady(us: seq<Unit>, k: nat, p: Pass, t: Tables, j: nat)
    requires ReadBack(us, k, p, t) && j < p.brCnt && Runnable(p.kind, p.branches[j], p.conds[j])
    ensures Leaves(p.conds[j]) <= p.ids.Keys && forall inst <- Leaves(p.conds[j]) :: p.ids[inst] < p.cmpCnt
    ensures var m, x := InfoFile.U32(p.moduleId), Compile(p.kind, p.ids, p.conds[j], false);
            && Ready(t, m, j, x, p.cmpCnt) && ValidExpr(x, p.cmpCnt) && Height(x) <= STACK_SIZE
            && t.brInfo[t.brInfoPtr[m] + j].left == p.branches[j].left && t.brInfo[t.brInfoPtr[m] + j].right == p.branches[j].right
  {
    hide Loaded, Sections, Packed, InfoFile.Distinct, FitsS16, StackMachine.Stored, Flatten, Compile, Supported, Height;
    hide CondHeight, ValidExpr, Records;
    CompiledBranchRuns(us, k, p, j);
    RoundTrip(us, k, p);
    assert BranchAt(t, us[k], j);
    CompileValid(p.kind, p.ids, p.conds[j], false, p.cmpCnt);
    CompiledHeight(p.kind, p.ids, p.conds[j], false);
  }

  /** The values of the leaves of a module. */
  function ValuesOf(t: Tables, moduleId: nat, reals: seq<Double>): seq<Double> {
    if moduleId in t.cmpInfoPtr && t.cmpInfoPtr[moduleId] <= |reals| then reals[t.cmpInfoPtr[moduleId]..] else []
  }

  /** One run of a branch: after the run and the fuzzer's turn, whichever side is the heavier one, the
      sign is that of the leaves, and, while no +0 and -0 are among the distances read, that of the
      condition under complemented leaves. */
  method RunBranch(ghost us: seq<Unit>, ghost k: nat, ghost p: Pass, t: Tables, moduleId: nat, j: nat,
                   flat: array<int>, reals: array<Double>, ghost env: nat -> bool)
    returns (value: Double)
    requires ReadBack(us, k, p, t) && j < p.brCnt && Runnable(p.kind, p.branches[j], p.conds[j])
    requires moduleId == InfoFile.U32(p.moduleId) && flat[..] == t.cmpvec && reals.Length == |t.cmpInfo|
    requires LeavesStored(p.kind, p.ids, p.conds[j], ValuesOf(t, moduleId, reals[..]), env)
    ensures Leaves(p.conds[j]) <= p.ids.Keys
    ensures var x, values := Compile(p.kind, p.ids, p.conds[j], false), ValuesOf(t, moduleId, reals[..]);
            && ValidExpr(x, |values|) && value.neg == ResultSide(x, true, values).neg
            && (Plain(Result(x, true, values)) ==> value == Result(x, true, values))
            && ((exists z :: ZerosAlike(x, true, values, z)) ==> value.neg == Eval(p.conds[j], Complement(env)))
  {
    assert |p.conds| == |p.branches| == p.brCnt && p.Valid();
    hide ReadBack, Height, Flatten, ResultSide, ZerosAlike, Compile, Result, Oriented, StackMachine.Stored, LeavesStored;
    BranchReady(us, k, p, t, j);
    ghost var x := Compile(p.kind, p.ids, p.conds[j], false);
    var r := t.brInfo[t.brInfoPtr[moduleId] + j];
    value := VisitBr(t, flat, reals, moduleId, j, x, p.cmpCnt);
    assert reals[t.cmpInfoPtr[moduleId]..] == ValuesOf(t, moduleId, reals[..]);
    value := Oriented(value, r.left, r.right);
    Turned(p.kind, p.ids, p.conds[j], r.left, r.right, ValuesOf(t, moduleId, reals[..]), env);
  }

  lemma Turned(kind: nat -> int, ids: map<nat, nat>, c: Cond, left: int, right: int, values: seq<Double>, env: nat -> bool)
    requires Supported(c) && LeavesStored(kind, ids, c, values, env) && Leaves(c) <= ids.Keys
    requires forall a, b :: a in ids && b in ids && ids[a] == ids[b] ==> a == b
    requires ValidExpr(Compile(kind, ids, c, false), |values|)
    ensures var x := Compile(kind, ids, c, false);
            var value := Oriented(Result(x, left >= right, values), left, right);
            && value.neg == ResultSide(x, true, values).neg
            && (Plain(Result(x, true, values)) ==> value == Result(x, true, values))
            && ((exists z :: ZerosAlike(x, true, values, z)) ==> value.neg == Eval(c, Complement(env)))
  {
    hide Plain, LeafTruth, Compile, ResultSide, ZerosAlike, Result, Oriented, Scan, Emit, Flatten, ValidExpr;
    var x := Compile(kind, ids, c, false);
    var truth := (id: nat) => exists inst :: inst in Leaves(c) && ids[inst] == id && env(inst);
    CompiledLeaves(kind, ids, c, false, values, truth);
    ConditionSign(kind, ids, c, true, values, env, truth);
    SignOfResult(x, true, values);
    OrientationCancels(x, left, right, values);
  }

  /** The leaf is a compare that has run with these arguments. */
  ghost predicate HasCompared(kind: nat -> int, ids: map<nat, nat>, values: seq<Double>, inst: nat, p: W.Predicate, a: nat, b: nat,
                              size: nat)
  {
    inst in ids && ids[inst] < |values| && kind(inst) != -1 && size > 0 && values[ids[inst]] == D.Reported(p, a, b, size)
  }

  /** Integer compares that have run store what `LeavesStored` asks for: the truth of each predicate
      on the low bits of its operands. */
  lemma ComparesStored(kind: nat -> int, ids: map<nat, nat>, c: Cond, values: seq<Double>, env: nat -> bool,
                       pred: nat -> W.Predicate, lhs: nat -> nat, rhs: nat -> nat, size: nat)
    requires size > 0 && forall inst <- Leaves(c) :: HasCompared(kind, ids, values, inst, pred(inst), lhs(inst), rhs(inst), size)
    requires forall inst <- Leaves(c) :: env(inst) == D.Truth(pred(inst), lhs(inst), rhs(inst), size)
    ensures LeavesStored(kind, ids, c, values, env)
  {
    hide D.Truth, HasCompared, LeafStored;
    forall inst | inst in Leaves(c)
      ensures LeafStored(kind, ids, values, inst, env(inst))
    {
      CompareStored(kind, ids, values, inst, pred(inst), lhs(inst), rhs(inst), size);
    }
  }

  lemma CompareStored(kind: nat -> int, ids: map<nat, nat>, values: seq<Double>, inst: nat, p: W.Predicate, a: nat, b: nat,
                      size: nat)
    requires size > 0 && HasCompared(kind, ids, values, inst, p, a, b, size)
    ensures LeafStored(kind, ids, values, inst, D.Truth(p, a, b, size))
  {
    hide D.Written, D.Truth;
    D.SignIsTruth(p, a, b, size);
    D.DistanceIsPlain(p, a, b, a, b, size);
  }
}
