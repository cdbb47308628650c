/** Flattening a branch condition into a prefix vector of operators and leaves, each entry
    with its own polarity flag. */
module Conditions {
  const BINOP_AND := 26
  const BINOP_OR := 27
  const BINOP_XOR := 28

  /** A condition as the instructions that compute it.  A leaf is a compare or any other
      instruction; the same instruction may occur at several places. */
  datatype Cond = Leaf(inst: nat) | Bin(opcode: int, lhs: Operand, rhs: Operand)

  datatype Operand = Const(logic: bool) | Variable(cond: Cond)

  /** An entry of the vector: `id` is -1 for an operator, whose opcode is `cmpType`; for a leaf
      `cmpType` is the predicate, or -1 when the leaf is no compare. */
  datatype Entry = Entry(id: int, cmpType: int, no: bool)

  /** A branch as the pass collects it. */
  datatype Branch = Branch(id: int, left: int, right: int, cmpvec: seq<Entry>)

  datatype CmpInfo = CmpInfo(moduleId: nat, id: int, cmpType: int)

  // ----- what is emitted -----

  /** A constant that leaves the other operand as it is (`flip` false) or negates it. */
  predicate Neutral(opcode: int, logic: bool, flip: bool) {
    if flip then logic && opcode == BINOP_XOR
    else (!logic && opcode == BINOP_OR) || (logic && opcode == BINOP_AND) || (!logic && opcode == BINOP_XOR)
  }

  function Id(ids: map<nat, nat>, inst: nat): int {
    if inst in ids then ids[inst] else -1
  }

  /** An operator in front of its operands. */
  function Binary(e: Entry, l: seq<Entry>, r: seq<Entry>): seq<Entry> {
    [e] + l + r
  }

  /** `kind(inst)` is the predicate of a compare, -1 for other instructions. */
  function Emit(kind: nat -> int, ids: map<nat, nat>, c: Cond, no: bool): seq<Entry>
    decreases c
  {
    match c
    case Leaf(inst) => [Entry(Id(ids, inst), kind(inst), no)]
    case Bin(op, Variable(l), Variable(r)) =>
      if op == BINOP_AND || op == BINOP_OR then
        Binary(Entry(-1, op, no), Emit(kind, ids, l, no), Emit(kind, ids, r, no))
      else if op == BINOP_XOR then
        Binary(Entry(-1, BINOP_OR, no),
               Binary(Entry(-1, BINOP_AND, no), Emit(kind, ids, l, !no), Emit(kind, ids, r, no)),
               Binary(Entry(-1, BINOP_AND, no), Emit(kind, ids, l, no), Emit(kind, ids, r, !no)))
      else []
    case Bin(op, Const(k), Variable(x)) =>
      if Neutral(op, k, false) then Emit(kind, ids, x, no) else if Neutral(op, k, true) then Emit(kind, ids, x, !no) else []
    case Bin(op, Variable(x), Const(k)) =>
      if Neutral(op, k, false) then Emit(kind, ids, x, no) else if Neutral(op, k, true) then Emit(kind, ids, x, !no) else []
    case Bin(_, Const(_), Const(_)) => []
  }

  /** The leaves the visit gets to. */
  function Leaves(c: Cond): set<nat> {
    match c
    case Leaf(inst) => {inst}
    case Bin(op, Variable(l), Variable(r)) =>
      if op == BINOP_AND || op == BINOP_OR || op == BINOP_XOR then Leaves(l) + Leaves(r) else {}
    case Bin(op, Const(k), Variable(x)) => if Neutral(op, k, false) || Neutral(op, k, true) then Leaves(x) else {}
    case Bin(op, Variable(x), Const(k)) => if Neutral(op, k, false) || Neutral(op, k, true) then Leaves(x) else {}
    case Bin(_, Const(_), Const(_)) => {}
  }

  /** The value returned.  The result of the visit below a constant is dropped. */
  predicate Reported(c: Cond) {
    match c
    case Leaf(_) => true
    case Bin(op, Variable(l), Variable(r)) =>
      (op == BINOP_AND || op == BINOP_OR || op == BINOP_XOR) && Reported(l) && Reported(r)
    case Bin(op, Const(k), Variable(_)) => Neutral(op, k, false) || Neutral(op, k, true)
    case Bin(op, Variable(_), Const(k)) => Neutral(op, k, false) || Neutral(op, k, true)
    case Bin(_, Const(_), Const(_)) => false
  }

  /** No other operator, no absorbing constant, no operator on two constants. */
  predicate Supported(c: Cond) {
    match c
    case Leaf(_) => true
    case Bin(op, Variable(l), Variable(r)) =>
      (op == BINOP_AND || op == BINOP_OR || op == BINOP_XOR) && Supported(l) && Supported(r)
    case Bin(op, Const(k), Variable(x)) => (Neutral(op, k, false) || Neutral(op, k, true)) && Supported(x)
    case Bin(op, Variable(x), Const(k)) => (Neutral(op, k, false) || Neutral(op, k, true)) && Supported(x)
    case Bin(_, Const(_), Const(_)) => false
  }

  // ----- prefix codes -----

  /** The expression a well-formed vector stands for. */
  datatype Expr = Value(id: nat, cmpType: int, no: bool) | Op(cmpType: int, no: bool, lhs: Expr, rhs: Expr)

  function Flatten(e: Expr): (r: seq<Entry>)
    ensures |r| > 0
  {
    match e
    case Value(id, ty, no) => [Entry(id, ty, no)]
    case Op(ty, no, l, r) => Binary(Entry(-1, ty, no), Flatten(l), Flatten(r))
  }

  /** A vector is read in one way only: the code is prefix-free. */
  lemma {:induction false} FlattenPrefixFree(a: Expr, b: Expr, x: seq<Entry>, y: seq<Entry>)
    requires Flatten(a) + x == Flatten(b) + y
    ensures a == b && x == y
    decreases a
  {
    var u, v := Flatten(a) + x, Flatten(b) + y;
    assert u[0] == Flatten(a)[0] && v[0] == Flatten(b)[0];
    if a.Value? && b.Value? {
      assert u[1..] == x && v[1..] == y;
    } else if a.Op? && b.Op? {
      BinaryTail(Entry(-1, a.cmpType, a.no), Flatten(a.lhs), Flatten(a.rhs), x);
      BinaryTail(Entry(-1, b.cmpType, b.no), Flatten(b.lhs), Flatten(b.rhs), y);
      hide Flatten, Binary;
      FlattenPrefixFree(a.lhs, b.lhs, Flatten(a.rhs) + x, Flatten(b.rhs) + y);
      FlattenPrefixFree(a.rhs, b.rhs, x, y);
    }
  }

  lemma BinaryTail(e: Entry, l: seq<Entry>, r: seq<Entry>, x: seq<Entry>)
    ensures (Binary(e, l, r) + x)[1..] == l + (r + x)
  {
  }

  /** The expression emitted for a supported condition. */
  function Compile(kind: nat -> int, ids: map<nat, nat>, c: Cond, no: bool): (e: Expr)
    requires Supported(c) && Leaves(c) <= ids.Keys
    decreases c
  {
    match c
    case Leaf(inst) => Value(ids[inst], kind(inst), no)
    case Bin(op, Variable(l), Variable(r)) =>
      if op == BINOP_XOR then
        Op(BINOP_OR, no,
           Op(BINOP_AND, no, Compile(kind, ids, l, !no), Compile(kind, ids, r, no)),
           Op(BINOP_AND, no, Compile(kind, ids, l, no), Compile(kind, ids, r, !no)))
      else Op(op, no, Compile(kind, ids, l, no), Compile(kind, ids, r, no))
    case Bin(op, Const(k), Variable(x)) => Compile(kind, ids, x, if Neutral(op, k, false) then no else !no)
    case Bin(op, Variable(x), Const(k)) => Compile(kind, ids, x, if Neutral(op, k, false) then no else !no)
  }

  lemma {:induction false} EmitIsFlatten(kind: nat -> int, ids: map<nat, nat>, c: Cond, no: bool)
    requires Supported(c) && Leaves(c) <= ids.Keys
    ensures Emit(kind, ids, c, no) == Flatten(Compile(kind, ids, c, no))
    decreases c
  {
    hide Binary;
    match c
    case Leaf(_) =>
    case Bin(op, Variable(l), Variable(r)) =>
      EmitIsFlatten(kind, ids, l, no);
      EmitIsFlatten(kind, ids, r, no);
      if op == BINOP_XOR {
        EmitIsFlatten(kind, ids, l, !no);
        EmitIsFlatten(kind, ids, r, !no);
      }
    case Bin(op, Const(k), Variable(x)) => EmitIsFlatten(kind, ids, x, if Neutral(op, k, false) then no else !no);
    case Bin(op, Variable(x), Const(k)) => EmitIsFlatten(kind, ids, x, if Neutral(op, k, false) then no else !no);
  }

  // ----- exactly the supported conditions give well-formed vectors -----

  /** Leaves minus operators. */
  function Balance(v: seq<Entry>): int {
    if |v| == 0 then 0 else Balance(v[..|v| - 1]) + if v[|v| - 1].id < 0 then -1 else 1
  }

  lemma {:induction false} BalanceConcat(a: seq<Entry>, b: seq<Entry>)
    ensures Balance(a + b) == Balance(a) + Balance(b)
  {
    if |b| == 0 {
      assert a + b == a;
    } else {
      assert (a + b)[..|a + b| - 1] == a + b[..|b| - 1];
      BalanceConcat(a, b[..|b| - 1]);
    }
  }

  lemma BalanceOp(e: Entry, a: seq<Entry>, b: seq<Entry>)
    requires e.id < 0
    ensures Balance(Binary(e, a, b)) == Balance(a) + Balance(b) - 1
  {
    BalanceConcat([e] + a, b);
    BalanceConcat([e], a);
    assert [e][..0] == [];
  }

  lemma {:induction false} FlattenBalance(e: Expr)
    ensures Balance(Flatten(e)) == 1
  {
    match e
    case Value(id, ty, no) =>
      assert [Entry(id, ty, no)][..0] == [];
    case Op(ty, no, l, r) =>
      hide Binary;
      FlattenBalance(l);
      FlattenBalance(r);
      BalanceOp(Entry(-1, ty, no), Flatten(l), Flatten(r));
  }

  lemma {:induction false} EmitBalance(kind: nat -> int, ids: map<nat, nat>, c: Cond, no: bool)
    requires Leaves(c) <= ids.Keys
    ensures Balance(Emit(kind, ids, c, no)) <= 1
    ensures Balance(Emit(kind, ids, c, no)) == 1 <==> Supported(c)
    decreases c
  {
    match c
    case Leaf(inst) =>
      assert [Entry(Id(ids, inst), kind(inst), no)][..0] == [];
    case Bin(op, Variable(l), Variable(r)) =>
      hide Binary;
      if op == BINOP_AND || op == BINOP_OR {
        EmitBalance(kind, ids, l, no);
        EmitBalance(kind, ids, r, no);
        BalanceOp(Entry(-1, op, no), Emit(kind, ids, l, no), Emit(kind, ids, r, no));
      } else if op == BINOP_XOR {
        EmitBalance(kind, ids, l, no);
        EmitBalance(kind, ids, r, no);
        EmitBalance(kind, ids, l, !no);
        EmitBalance(kind, ids, r, !no);
        var a := Binary(Entry(-1, BINOP_AND, no), Emit(kind, ids, l, !no), Emit(kind, ids, r, no));
        var b := Binary(Entry(-1, BINOP_AND, no), Emit(kind, ids, l, no), Emit(kind, ids, r, !no));
        BalanceOp(Entry(-1, BINOP_AND, no), Emit(kind, ids, l, !no), Emit(kind, ids, r, no));
        BalanceOp(Entry(-1, BINOP_AND, no), Emit(kind, ids, l, no), Emit(kind, ids, r, !no));
        BalanceOp(Entry(-1, BINOP_OR, no), a, b);
      }
    case Bin(op, Const(k), Variable(x)) =>
      if Neutral(op, k, false) || Neutral(op, k, true) {
        EmitBalance(kind, ids, x, no);
        EmitBalance(kind, ids, x, !no);
      }
    case Bin(op, Variable(x), Const(k)) =>
      if Neutral(op, k, false) || Neutral(op, k, true) {
        EmitBalance(kind, ids, x, no);
        EmitBalance(kind, ids, x, !no);
      }
    case Bin(_, Const(_), Const(_)) =>
  }

  /** The vector is a prefix code exactly when every node of the condition is supported. */
  lemma WellFormedIffSupported(kind: nat -> int, ids: map<nat, nat>, c: Cond, no: bool)
    requires Leaves(c) <= ids.Keys
    ensures (exists e :: Emit(kind, ids, c, no) == Flatten(e)) <==> Supported(c)
  {
    EmitBalance(kind, ids, c, no);
    if Supported(c) {
      EmitIsFlatten(kind, ids, c, no);
    }
    if e :| Emit(kind, ids, c, no) == Flatten(e) {
      FlattenBalance(e);
    }
  }

  /** A supported condition is reported as such; without constants the report can be trusted. */
  predicate NoConstants(c: Cond) {
    match c
    case Leaf(_) => true
    case Bin(_, l, r) => l.Variable? && r.Variable? && NoConstants(l.cond) && NoConstants(r.cond)
  }

  lemma {:induction false} ReportedVsSupported(c: Cond)
    ensures Supported(c) ==> Reported(c)
    ensures NoConstants(c) ==> (Reported(c) <==> Supported(c))
  {
    match c
    case Bin(op, Variable(l), Variable(r)) => ReportedVsSupported(l); ReportedVsSupported(r);
    case _ =>
  }

  /** What the visit drops: it does not ask whether the operand beside a neutral constant is
      supported. */
  predicate ConstantsOverSupported(c: Cond) {
    match c
    case Leaf(_) => true
    case Bin(op, Variable(l), Variable(r)) => ConstantsOverSupported(l) && ConstantsOverSupported(r)
    case Bin(op, Const(k), Variable(x)) => Supported(x)
    case Bin(op, Variable(x), Const(k)) => Supported(x)
    case Bin(_, Const(_), Const(_)) => true
  }

  /** A condition is supported exactly when it is reported and nothing unsupported stands beside
      a constant. */
  lemma {:induction false} SupportedIffReported(c: Cond)
    ensures Supported(c) <==> Reported(c) && ConstantsOverSupported(c)
  {
    match c
    case Bin(op, Variable(l), Variable(r)) => SupportedIffReported(l); SupportedIffReported(r);
    case _ =>
  }

  /** With a constant the report cannot be trusted: `true AND (x + y)` is reported as visited, and emits nothing. */
  lemma ReportedButEmpty(kind: nat -> int, ids: map<nat, nat>, x: nat, y: nat)
    ensures var c := Bin(BINOP_AND, Const(true), Variable(Bin(13, Variable(Leaf(x)), Variable(Leaf(y)))));
            Reported(c) && !Supported(c) && Emit(kind, ids, c, false) == []
  {
  }

  // ----- meaning -----

  function Xor(a: bool, b: bool): bool {
    a != b
  }

  function Eval(c: Cond, env: nat -> bool): bool
    requires Supported(c)
  {
    match c
    case Leaf(inst) => env(inst)
    case Bin(op, Variable(l), Variable(r)) =>
      var a, b := Eval(l, env), Eval(r, env);
      if op == BINOP_AND then a && b else if op == BINOP_OR then a || b else Xor(a, b)
    case Bin(op, Const(k), Variable(x)) =>
      var b := Eval(x, env);
      if op == BINOP_AND then k && b else if op == BINOP_OR then k || b else Xor(k, b)
    case Bin(op, Variable(x), Const(k)) =>
      var a := Eval(x, env);
      if op == BINOP_AND then a && k else if op == BINOP_OR then a || k else Xor(a, k)
  }

  /** Reading a vector: the flag complements a leaf, and turns an operator into its dual. */
  function Denote(e: Expr, truth: nat -> bool): bool {
    match e
    case Value(id, _, no) => Xor(truth(id), no)
    case Op(ty, no, l, r) =>
      if Xor(ty == BINOP_AND, no) then Denote(l, truth) && Denote(r, truth) else Denote(l, truth) || Denote(r, truth)
  }

  /** The emitted vector denotes the condition, or its complement when `no` is set. */
  lemma {:induction false} CompileDenotes(kind: nat -> int, ids: map<nat, nat>, c: Cond, no: bool, env: nat -> bool, truth: nat -> bool)
    requires Supported(c) && Leaves(c) <= ids.Keys
    requires forall inst <- Leaves(c) :: truth(ids[inst]) == env(inst)
    ensures Denote(Compile(kind, ids, c, no), truth) == Xor(Eval(c, env), no)
    decreases c
  {
    match c
    case Leaf(_) =>
    case Bin(op, Variable(l), Variable(r)) =>
      CompileDenotes(kind, ids, l, no, env, truth);
      CompileDenotes(kind, ids, r, no, env, truth);
      if op == BINOP_XOR {
        CompileDenotes(kind, ids, l, !no, env, truth);
        CompileDenotes(kind, ids, r, !no, env, truth);
      }
    case Bin(op, Const(k), Variable(x)) =>
      CompileDenotes(kind, ids, x, if Neutral(op, k, false) then no else !no, env, truth);
    case Bin(op, Variable(x), Const(k)) =>
      CompileDenotes(kind, ids, x, if Neutral(op, k, false) then no else !no, env, truth);
  }

  // ----- the visit -----

  function Size(c: Cond): nat {
    match c
    case Leaf(_) => 1
    case Bin(_, l, r) => 1 + OperandSize(l) + OperandSize(r)
  }

  function OperandSize(o: Operand): nat {
    match o
    case Const(_) => 0
    case Variable(c) => 1 + Size(c)
  }

  ghost predicate Extends(before: map<nat, nat>, after: map<nat, nat>) {
    forall k :: k in before ==> k in after && after[k] == before[k]
  }

  lemma ExtendsTransitive(a: map<nat, nat>, b: map<nat, nat>, c: map<nat, nat>)
    requires Extends(a, b) && Extends(b, c)
    ensures Extends(a, c)
  {
  }

  /** Ids never change once given, so neither does what was emitted with them. */
  lemma {:induction false} EmitStable(kind: nat -> int, ids: map<nat, nat>, more: map<nat, nat>, c: Cond, no: bool)
    requires Leaves(c) <= ids.Keys && Extends(ids, more)
    ensures Emit(kind, more, c, no) == Emit(kind, ids, c, no)
    decreases c
  {
    hide Binary;
    match c
    case Leaf(_) =>
    case Bin(op, Variable(l), Variable(r)) =>
      if op == BINOP_AND || op == BINOP_OR || op == BINOP_XOR {
        EmitStable(kind, ids, more, l, no);
        EmitStable(kind, ids, more, r, no);
        EmitStable(kind, ids, more, l, !no);
        EmitStable(kind, ids, more, r, !no);
      }
    case Bin(op, Const(k), Variable(x)) =>
      if Neutral(op, k, false) || Neutral(op, k, true) {
        EmitStable(kind, ids, more, x, no);
        EmitStable(kind, ids, more, x, !no);
      }
    case Bin(op, Variable(x), Const(k)) =>
      if Neutral(op, k, false) || Neutral(op, k, true) {
        EmitStable(kind, ids, more, x, no);
        EmitStable(kind, ids, more, x, !no);
      }
    case Bin(_, Const(_), Const(_)) =>
  }

  ghost predicate BranchOk(kind: nat -> int, ids: map<nat, nat>, c: Cond, b: Branch, j: nat) {
    b.id == j && Leaves(c) <= ids.Keys && b.cmpvec == Emit(kind, ids, c, false)
  }

  lemma BranchStable(kind: nat -> int, ids: map<nat, nat>, more: map<nat, nat>, c: Cond, b: Branch, j: nat)
    requires BranchOk(kind, ids, c, b, j) && Extends(ids, more)
    ensures BranchOk(kind, more, c, b, j)
  {
    EmitStable(kind, ids, more, c, false);
  }

  lemma BranchNew(kind: nat -> int, ids: map<nat, nat>, c: Cond, id: nat, left: int, right: int)
    requires Leaves(c) <= ids.Keys
    ensures BranchOk(kind, ids, c, Branch(id, left, right, [] + Emit(kind, ids, c, false)), id)
  {
    assert [] + Emit(kind, ids, c, false) == Emit(kind, ids, c, false);
  }

  /** The pass's counters and tables. */
  class Pass {
    const moduleId: nat
    const kind: nat -> int
    var ids: map<nat, nat>       // the id stored as metadata on each visited leaf
    var cmpCnt: nat
    var cmpvec: seq<CmpInfo>
    var vec: seq<Entry>          // the vector of the branch being visited
    var brCnt: nat
    var branches: seq<Branch>
    ghost var conds: seq<Cond>   // the conditions of the branches

    /** Ids are handed out in order, and id `i` is the position of its record. */
    ghost predicate Valid()
      reads this`ids, this`cmpCnt, this`cmpvec
    {
      && |cmpvec| == cmpCnt
      && (forall inst :: inst in ids ==> ids[inst] < cmpCnt)
      && (forall inst :: inst in ids ==> cmpvec[ids[inst]] == CmpInfo(moduleId, ids[inst], kind(inst)))
      && (forall i :: 0 <= i < cmpCnt ==> cmpvec[i].id == i && cmpvec[i].moduleId == moduleId)
      && (forall a, b :: a in ids && b in ids && ids[a] == ids[b] ==> a == b)
    }

    constructor (moduleId: nat, kind: nat -> int)
      ensures Valid() && Collected() && ids == map[] && branches == []
      ensures this.moduleId == moduleId && this.kind == kind
    {
      this.moduleId, this.kind := moduleId, kind;
      ids, cmpCnt, cmpvec, vec := map[], 0, [], [];
      brCnt, branches, conds := 0, [], [];
    }

    /** Branch `j` has id `j`, and holds what its condition emits under the ids of now, however many
        leaves have been given ids since it was visited. */
    ghost predicate Collected()
      reads this`ids, this`brCnt, this`branches, this`conds
    {
      && |branches| == |conds| == brCnt
      && forall j :: 0 <= j < brCnt ==> BranchOk(kind, ids, conds[j], branches[j], j)
    }

    /** A conditional branch: a record with the next id, filled by the visit of its condition. */
    method VisitBranch(c: Cond, left: int, right: int)
      requires Valid() && Collected()
      modifies this
      ensures Valid() && Collected() && Extends(old(ids), ids) && old(cmpvec) <= cmpvec
      ensures conds == old(conds) + [c] && old(branches) == branches[..old(brCnt)]
      ensures branches[old(brCnt)].left == left && branches[old(brCnt)].right == right
    {
      hide Valid, Extends, Emit, BranchOk;
      ghost var ids0 := ids;
      vec := [];
      var id := brCnt;
      brCnt := brCnt + 1;
      var _ := VisitBrInst(c, false);
      forall j | 0 <= j < |conds|
        ensures BranchOk(kind, ids, conds[j], branches[j], j)
      {
        BranchStable(kind, ids0, ids, conds[j], branches[j], j);
      }
      BranchNew(kind, ids, c, id, left, right);
      branches := branches + [Branch(id, left, right, vec)];
      conds := conds + [c];
    }

    method VisitLeaf(inst: nat, no: bool)
      requires Valid()
      modifies this`ids, this`cmpCnt, this`cmpvec, this`vec
      ensures Valid() && Extends(old(ids), ids) && ids.Keys == old(ids).Keys + {inst}
      ensures old(cmpvec) <= cmpvec
      ensures vec == old(vec) + [Entry(Id(ids, inst), kind(inst), no)]
    {
      if inst !in ids {
        ids := ids[inst := cmpCnt];
        cmpCnt := cmpCnt + 1;
        cmpvec := cmpvec + [CmpInfo(moduleId, ids[inst], kind(inst))];
      }
      vec := vec + [Entry(ids[inst], cmpvec[ids[inst]].cmpType, no)];
    }

    method VisitBrInst(c: Cond, no: bool) returns (res: bool)
      requires Valid()
      modifies this`ids, this`cmpCnt, this`cmpvec, this`vec
      ensures Valid() && Extends(old(ids), ids) && ids.Keys == old(ids).Keys + Leaves(c)
      ensures old(cmpvec) <= cmpvec
      ensures vec == old(vec) + Emit(kind, ids, c, no)
      ensures res == Reported(c)
      decreases Size(c), 0
    {
      hide Extends, Binary, Valid;
      ExtendsSelf(ids);
      match c
      case Leaf(inst) =>
        VisitLeaf(inst, no);
        res := true;
      case Bin(op, lhs, rhs) =>
        assert Size(c) == 1 + OperandSize(lhs) + OperandSize(rhs);
        assert lhs.Variable? ==> OperandSize(lhs) == 1 + Size(lhs.cond);
        assert rhs.Variable? ==> OperandSize(rhs) == 1 + Size(rhs.cond);
        if op != BINOP_AND && op != BINOP_OR && op != BINOP_XOR {
          return false;
        }
        if lhs.Const? != rhs.Const? {
          var logic := if lhs.Const? then lhs.logic else rhs.logic;
          var variable := if lhs.Const? then rhs.cond else lhs.cond;
          if (!logic && op == BINOP_OR) || (logic && op == BINOP_AND) || (!logic && op == BINOP_XOR) {
            var _ := VisitBrInst(variable, no);
            res := true;
          } else if logic && op == BINOP_XOR {
            var _ := VisitBrInst(variable, !no);
            res := true;
          } else {
            res := false;
          }
        } else if lhs.Variable? {
          if op == BINOP_AND || op == BINOP_OR {
            res := VisitPair(op, lhs.cond, rhs.cond, no, no, no);
          } else {
            res := VisitXor(lhs.cond, rhs.cond, no);
          }
        } else {
          res := false;
        }
    }

    /** An exclusive or, expanded over AND and OR. */
    method VisitXor(l: Cond, r: Cond, no: bool) returns (res: bool)
      requires Valid()
      modifies this`ids, this`cmpCnt, this`cmpvec, this`vec
      ensures Valid() && Extends(old(ids), ids) && ids.Keys == old(ids).Keys + Leaves(l) + Leaves(r)
      ensures old(cmpvec) <= cmpvec
      ensures vec == old(vec) +
              Binary(Entry(-1, BINOP_OR, no),
                     Binary(Entry(-1, BINOP_AND, no), Emit(kind, ids, l, !no), Emit(kind, ids, r, no)),
                     Binary(Entry(-1, BINOP_AND, no), Emit(kind, ids, l, no), Emit(kind, ids, r, !no)))
      ensures res == (Reported(l) && Reported(r))
      decreases Size(l) + Size(r), 2
    {
      hide Extends, Binary, Emit, Valid;
      ghost var ids0, vec0 := ids, vec;
      vec := vec + [Entry(-1, BINOP_OR, no)];
      var first := VisitPair(BINOP_AND, l, r, no, !no, no);
      ghost var ids1 := ids;
      var second := VisitPair(BINOP_AND, l, r, no, no, !no);
      EmitStable(kind, ids1, ids, l, !no);
      EmitStable(kind, ids1, ids, r, no);
      ExtendsTransitive(ids0, ids1, ids);
      res := first && second;
      BinaryAppend(vec0, Entry(-1, BINOP_OR, no),
                   Binary(Entry(-1, BINOP_AND, no), Emit(kind, ids, l, !no), Emit(kind, ids, r, no)),
                   Binary(Entry(-1, BINOP_AND, no), Emit(kind, ids, l, no), Emit(kind, ids, r, !no)));
    }

    /** An operator and its two operands. */
    method VisitPair(op: int, l: Cond, r: Cond, no: bool, noL: bool, noR: bool) returns (res: bool)
      requires Valid()
      modifies this`ids, this`cmpCnt, this`cmpvec, this`vec
      ensures Valid() && Extends(old(ids), ids) && ids.Keys == old(ids).Keys + Leaves(l) + Leaves(r)
      ensures old(cmpvec) <= cmpvec
      ensures vec == old(vec) + Binary(Entry(-1, op, no), Emit(kind, ids, l, noL), Emit(kind, ids, r, noR))
      ensures res == (Reported(l) && Reported(r))
      decreases Size(l) + Size(r), 1
    {
      hide Extends, Emit, Binary, Valid;
      Positive(l);
      Positive(r);
      ghost var ids0, vec0 := ids, vec;
      vec := vec + [Entry(-1, op, no)];
      var a := VisitBrInst(l, noL);
      ghost var ids1 := ids;
      var b := VisitBrInst(r, noR);
      EmitStable(kind, ids1, ids, l, noL);
      ExtendsTransitive(ids0, ids1, ids);
      BinaryAppend(vec0, Entry(-1, op, no), Emit(kind, ids, l, noL), Emit(kind, ids, r, noR));
      res := a && b;
    }
  }

  lemma BinaryAppend(v: seq<Entry>, e: Entry, l: seq<Entry>, r: seq<Entry>)
    ensures v + [e] + l + r == v + Binary(e, l, r)
  {
  }

  lemma ExtendsSelf(m: map<nat, nat>)
    ensures Extends(m, m)
  {
  }

  lemma Positive(c: Cond)
    ensures Size(c) > 0
  {
  }
}
