/** The maximum expected instruction count (MEIC): the heaviest path through a function whose
    cycles have been cut, computed block by block against the topological order. */
module Meic {
  import opened CycleCut
  import opened Words

  /** An instruction, or a call of a named function. */
  datatype Instr = Plain | Call(callee: string)

  type Block = seq<Instr>
  type FuncMap = map<string, nat>

  const EXIT_FUNCTION := "ErrFatal"

  /** Sorting gives every vertex once, and the program's predecessors before their successors:
      the edges are stored reversed, and the sorter puts an edge's target first. */
  ghost predicate TopologicalOrder(g: Graph, topo: seq<nat>) {
    && Distinct(topo)
    && (forall u :: u in topo <==> 0 <= u < |g|)
    && (forall i, j :: 0 <= i < |topo| && 0 <= j < |topo| && topo[i] < |g| && topo[j] in g[topo[i]] ==> i < j)
  }

  lemma SuccessorLater(g: Graph, topo: seq<nat>, j: nat, k: nat) returns (i: nat)
    requires ValidGraph(g) && TopologicalOrder(g, topo) && j < |topo| && topo[j] < |g| && k < |g[topo[j]]|
    ensures j < i < |topo| && topo[i] == g[topo[j]][k]
  {
    assert g[topo[j]][k] in topo;
    i :| 0 <= i < |topo| && topo[i] == g[topo[j]][k];
  }

  // ----- weights and paths -----

  function CalleeWeight(b: Block, funcMap: FuncMap): nat {
    if |b| == 0 then 0
    else CalleeWeight(b[..|b| - 1], funcMap) +
         match b[|b| - 1]
         case Plain => 0
         case Call(f) => if f in funcMap then funcMap[f] else 0
  }

  function Weight(b: Block, funcMap: FuncMap): nat {
    |b| + CalleeWeight(b, funcMap)
  }

  /** Every instruction counts one, and a call of a known function its entry besides. */
  lemma {:induction false} WeightAppend(b: Block, i: Instr, funcMap: FuncMap)
    ensures Weight([], funcMap) == 0
    ensures Weight(b + [i], funcMap) == Weight(b, funcMap) + 1 + if i.Call? && i.callee in funcMap then funcMap[i.callee] else 0
  {
    assert (b + [i])[..|b|] == b;
  }

  /** A block that calls the exit function ends every path through it. */
  predicate Exits(b: Block, funcMap: FuncMap) {
    Call(EXIT_FUNCTION) in b && EXIT_FUNCTION in funcMap
  }

  /** Only a call of that function does, and only once its own count is known. */
  lemma {:induction false} ExitsAppend(b: Block, i: Instr, funcMap: FuncMap)
    ensures !Exits([], funcMap)
    ensures Exits(b + [i], funcMap) <==> Exits(b, funcMap) || (i == Call("ErrFatal") && "ErrFatal" in funcMap)
  {
    assert forall c :: c in b + [i] <==> c in b || c == i;
  }

  /** The greatest of the counts of the vertices listed, 0 for none. */
  ghost function Best(vs: seq<nat>, counts: seq<nat>): (r: nat)
    requires forall i :: 0 <= i < |vs| ==> vs[i] < |counts|
    ensures forall i :: 0 <= i < |vs| ==> counts[vs[i]] <= r
    ensures r == 0 || exists i :: 0 <= i < |vs| && counts[vs[i]] == r
  {
    if |vs| == 0 then 0
    else
      var n := |vs| - 1;
      var b := Best(vs[..n], counts);
      if b < counts[vs[n]] then counts[vs[n]] else b
  }

  datatype Body = Body(g: Graph, blocks: seq<Block>) {
    ghost predicate Valid() {
      ValidGraph(g) && |blocks| == |g|
    }

    /** A path that runs on past no exit block. */
    ghost predicate ExecutionPath(funcMap: FuncMap, p: seq<nat>, u: nat)
      requires Valid()
    {
      IsPath(g, p) && p[0] == u && forall i :: 0 <= i < |p| - 1 ==> !Exits(blocks[p[i]], funcMap)
    }

    ghost function PathWeight(funcMap: FuncMap, p: seq<nat>): nat
      requires Valid() && forall i :: 0 <= i < |p| ==> p[i] < |g|
    {
      if |p| == 0 then 0 else Weight(blocks[p[0]], funcMap) + PathWeight(funcMap, p[1..])
    }

    /** `m` is the greatest weight of a path from `u`. */
    ghost predicate IsMeic(funcMap: FuncMap, u: nat, m: nat)
      requires Valid()
    {
      && (exists p :: ExecutionPath(funcMap, p, u) && PathWeight(funcMap, p) == m)
      && (forall p :: ExecutionPath(funcMap, p, u) ==> PathWeight(funcMap, p) <= m)
    }

    lemma MeicUnique(funcMap: FuncMap, u: nat, m: nat, n: nat)
      requires Valid() && IsMeic(funcMap, u, m) && IsMeic(funcMap, u, n)
      ensures m == n
    {
    }

    ghost function StepValue(funcMap: FuncMap, u: nat, counts: seq<nat>): nat
      requires Valid() && u < |g| && |counts| == |g|
    {
      Weight(blocks[u], funcMap) + if Exits(blocks[u], funcMap) then 0 else Best(g[u], counts)
    }

    lemma StepBounds(funcMap: FuncMap, u: nat, counts: seq<nat>, p: seq<nat>)
      requires Valid() && u < |g| && |counts| == |g| && ExecutionPath(funcMap, p, u)
      requires forall i :: 0 <= i < |g[u]| ==> IsMeic(funcMap, g[u][i], counts[g[u][i]])
      ensures PathWeight(funcMap, p) <= StepValue(funcMap, u, counts)
    {
      if |p| > 1 {
        assert p[1] in g[p[0]] && !Exits(blocks[p[0]], funcMap);
        var i :| 0 <= i < |g[u]| && g[u][i] == p[1];
        assert ExecutionPath(funcMap, p[1..], p[1]);
        assert counts[p[1]] <= Best(g[u], counts);
      }
    }

    lemma StepAttained(funcMap: FuncMap, u: nat, counts: seq<nat>) returns (p: seq<nat>)
      requires Valid() && u < |g| && |counts| == |g|
      requires forall i :: 0 <= i < |g[u]| ==> IsMeic(funcMap, g[u][i], counts[g[u][i]])
      ensures ExecutionPath(funcMap, p, u) && PathWeight(funcMap, p) == StepValue(funcMap, u, counts)
    {
      var best := Best(g[u], counts);
      p := [u];
      if best > 0 && !Exits(blocks[u], funcMap) {
        var i :| 0 <= i < |g[u]| && counts[g[u][i]] == best;
        assert IsMeic(funcMap, g[u][i], best);
        var q :| ExecutionPath(funcMap, q, g[u][i]) && PathWeight(funcMap, q) == best;
        p := [u] + q;
        assert p[1..] == q;
      }
    }

    /** A block's value from those of its successors. */
    lemma MeicStep(funcMap: FuncMap, u: nat, counts: seq<nat>)
      requires Valid() && u < |g| && |counts| == |g|
      requires forall i :: 0 <= i < |g[u]| ==> IsMeic(funcMap, g[u][i], counts[g[u][i]])
      ensures IsMeic(funcMap, u, StepValue(funcMap, u, counts))
    {
      hide StepValue;
      forall p | ExecutionPath(funcMap, p, u)
        ensures PathWeight(funcMap, p) <= StepValue(funcMap, u, counts)
      {
        StepBounds(funcMap, u, counts, p);
      }
      var p := StepAttained(funcMap, u, counts);
    }

    /** In a sorted graph every block has a MEIC. */
    lemma {:induction false} MeicExists(funcMap: FuncMap, topo: seq<nat>, j: nat)
      requires Valid() && TopologicalOrder(g, topo) && j < |topo|
      ensures exists m: nat :: IsMeic(funcMap, topo[j], m)
      decreases |topo| - j
    {
      var u := topo[j];
      assert u in topo;
      var counts := seq(|g|, v requires 0 <= v < |g| => MeicAt(funcMap, v));
      forall i | 0 <= i < |g[u]|
        ensures IsMeic(funcMap, g[u][i], counts[g[u][i]])
      {
        var k := SuccessorLater(g, topo, j, i);
        MeicExists(funcMap, topo, k);
      }
      MeicStep(funcMap, u, counts);
    }

    ghost function MeicAt(funcMap: FuncMap, u: nat): nat
      requires Valid()
    {
      if m: nat :| IsMeic(funcMap, u, m) then m else 0
    }

    /** A sorted graph has no cycles: the sorter's contract can only be met by a cut graph. */
    lemma {:induction false} SortedPathAscends(topo: seq<nat>, p: seq<nat>, i: nat)
      requires TopologicalOrder(g, topo) && IsPath(g, p) && i < |topo| && p[0] == topo[i]
      ensures exists j :: i <= j < |topo| && p[|p| - 1] == topo[j] && (|p| > 1 ==> i < j)
      decreases |p|
    {
      if |p| > 1 {
        assert p[1] in topo;
        var k :| 0 <= k < |topo| && topo[k] == p[1];
        assert topo[k] in g[topo[i]];
        assert IsPath(g, p[1..]);
        SortedPathAscends(topo, p[1..], k);
      }
    }

    lemma SortedIsAcyclic(topo: seq<nat>)
      requires TopologicalOrder(g, topo)
      ensures Acyclic(g)
    {
      forall v | 0 <= v < |g|
        ensures !OnCycle(g, v)
      {
        if OnCycle(g, v) {
          var p :| |p| > 1 && PathFromTo(g, p, v, v);
          assert v in topo;
          var i :| 0 <= i < |topo| && topo[i] == v;
          SortedPathAscends(topo, p, i);
          assert false;
        }
      }
    }
  }

  // ----- the loops -----

  method OwnCount(b: Block, funcMap: FuncMap) returns (instCnt: nat, isExitNode: bool)
    ensures instCnt == Weight(b, funcMap)
    ensures isExitNode == Exits(b, funcMap)
  {
    instCnt, isExitNode := |b|, false;
    for i := 0 to |b|
      invariant instCnt == |b| + CalleeWeight(b[..i], funcMap)
      invariant isExitNode == Exits(b[..i], funcMap)
    {
      assert b[..i + 1] == b[..i] + [b[i]];
      assert b[..i + 1][..i] == b[..i];
      match b[i]
      case Plain =>
      case Call(f) =>
        if f in funcMap {
          instCnt := instCnt + funcMap[f];
          if f == EXIT_FUNCTION {
            isExitNode := true;
          }
        }
    }
    assert b[..|b|] == b;
  }

  method MaxSuccessor(succ: seq<nat>, instCnt: array<nat>) returns (best: nat)
    requires forall i :: 0 <= i < |succ| ==> succ[i] < instCnt.Length
    ensures best == Best(succ, instCnt[..])
  {
    best := 0;
    for i := 0 to |succ|
      invariant best == Best(succ[..i], instCnt[..])
    {
      assert succ[..i + 1][..i] == succ[..i];
      if best < instCnt[succ[i]] {
        best := instCnt[succ[i]];
      }
    }
    assert succ[..|succ|] == succ;
  }

  /** The blocks from position `j` of the order on have their final counts. */
  ghost predicate FinalFrom(body: Body, funcMap: FuncMap, topo: seq<nat>, j: nat, counts: seq<nat>)
    requires body.Valid()
  {
    forall i :: j <= i < |topo| ==> topo[i] < |counts| && body.IsMeic(funcMap, topo[i], counts[topo[i]])
  }

  lemma FinalStep(body: Body, funcMap: FuncMap, topo: seq<nat>, j: nat, counts: seq<nat>)
    requires body.Valid() && TopologicalOrder(body.g, topo) && j < |topo| && |counts| == |body.g|
    requires FinalFrom(body, funcMap, topo, j + 1, counts)
    ensures topo[j] < |body.g|
    ensures FinalFrom(body, funcMap, topo, j, counts[topo[j] := body.StepValue(funcMap, topo[j], counts)])
  {
    hide Body.IsMeic, Body.StepValue;
    var u := topo[j];
    assert u in topo;
    forall k | 0 <= k < |body.g[u]|
      ensures body.IsMeic(funcMap, body.g[u][k], counts[body.g[u][k]])
    {
      var i := SuccessorLater(body.g, topo, j, k);
    }
    body.MeicStep(funcMap, u, counts);
  }

  lemma AllFinal(body: Body, funcMap: FuncMap, topo: seq<nat>, counts: seq<nat>)
    requires body.Valid() && TopologicalOrder(body.g, topo) && |counts| == |body.g|
    requires FinalFrom(body, funcMap, topo, 0, counts)
    ensures forall u :: 0 <= u < |body.g| ==> body.IsMeic(funcMap, u, counts[u])
  {
    hide Body.IsMeic;
    forall u | 0 <= u < |body.g|
      ensures body.IsMeic(funcMap, u, counts[u])
    {
      assert u in topo;
    }
  }

  /** Blocks are visited from the end of the order, so each successor has its final count. */
  method ComputeMeic(body: Body, funcMap: FuncMap, topo: seq<nat>) returns (instCnt: array<nat>)
    requires body.Valid() && TopologicalOrder(body.g, topo)
    ensures fresh(instCnt) && instCnt.Length == |body.g|
    ensures forall u :: 0 <= u < |body.g| ==> body.IsMeic(funcMap, u, instCnt[u])
  {
    hide Body.IsMeic, TopologicalOrder, Weight, Exits, Best;
    instCnt := new nat[|body.g|](_ => 0);
    var j := |topo|;
    assert FinalFrom(body, funcMap, topo, j, instCnt[..]);
    while j > 0
      invariant 0 <= j <= |topo| && FinalFrom(body, funcMap, topo, j, instCnt[..])
    {
      hide FinalFrom;
      j := j - 1;
      ghost var counts := instCnt[..];
      FinalStep(body, funcMap, topo, j, counts);
      var u := topo[j];
      var own, isExitNode := OwnCount(body.blocks[u], funcMap);
      var best := MaxSuccessor(body.g[u], instCnt);
      instCnt[u] := own + if isExitNode then 0 else best;
      assert instCnt[..] == counts[u := body.StepValue(funcMap, u, counts)];
    }
    AllFinal(body, funcMap, topo, instCnt[..]);
  }

  // ----- the functions of a module -----

  datatype Func = Func(name: string, body: Body, topo: seq<nat>, entry: nat) {
    ghost predicate Valid() {
      body.Valid() && TopologicalOrder(body.g, topo) && entry < |body.g|
    }

    ghost predicate CallsByName(name: string)
      requires Valid()
    {
      exists u :: 0 <= u < |body.blocks| && Call(name) in body.blocks[u]
    }
  }

  /** The vertices of the call graph: a function with its body, or none for a declaration and for
      the external caller, which is the entry.  `calls` lists the callees of each. */
  datatype Module = Module(funcs: seq<Option<Func>>, calls: Graph, entry: nat) {
    ghost predicate Valid() {
      && |calls| == |funcs| && ValidGraph(calls) && entry < |calls|
      && (forall v :: 0 <= v < |funcs| && funcs[v].Some? ==> funcs[v].value.Valid())
      // names differ
      && (forall v, w :: 0 <= v < w < |funcs| && funcs[v].Some? && funcs[w].Some? ==> funcs[v].value.name != funcs[w].value.name)
      // the call graph has an edge for every call by name
      && (forall v, w :: 0 <= v < |funcs| && 0 <= w < |funcs| && funcs[v].Some? && funcs[w].Some? ==>
            (funcs[v].value.CallsByName(funcs[w].value.name) ==> w in calls[v]))
    }

    /** The vertex stands for a function with this name. */
    ghost predicate Names(v: nat, name: string) {
      v < |funcs| && funcs[v].Some? && funcs[v].value.name == name
    }

    /** The map once the vertices from position `j` of the order on are done: each function's entry
        is its MEIC under the map at its turn. */
    ghost function MapAfter(topo: seq<nat>, j: nat, funcMap: FuncMap): (r: FuncMap)
      requires Valid() && j <= |topo| && forall i :: 0 <= i < |topo| ==> topo[i] < |funcs|
      decreases |topo| - j
    {
      if j == |topo| then funcMap
      else
        var m := MapAfter(topo, j + 1, funcMap);
        match funcs[topo[j]]
        case None => m
        case Some(f) => m[f.name := f.body.MeicAt(m, f.entry)]
    }

    lemma {:induction false} MapAfterFrame(topo: seq<nat>, i: nat, j: nat, funcMap0: FuncMap, name: string)
      requires Valid() && i <= j <= |topo| && forall k :: 0 <= k < |topo| ==> topo[k] < |funcs|
      requires forall k :: i <= k < j ==> !Names(topo[k], name)
      ensures name in MapAfter(topo, i, funcMap0) <==> name in MapAfter(topo, j, funcMap0)
      ensures name in MapAfter(topo, j, funcMap0) ==> MapAfter(topo, i, funcMap0)[name] == MapAfter(topo, j, funcMap0)[name]
      decreases j - i
    {
      if i < j {
        hide Valid;
        MapAfterFrame(topo, i + 1, j, funcMap0, name);
      }
    }

    /** A vertex on no cycle keeps all its out-edges, for a removed edge closed a cycle. */
    lemma KeptEdges(g: Graph, v: nat, w: nat)
      requires Valid() && CutResult(calls, g, entry) && v < |calls| && !OnCycle(calls, v) && w in calls[v]
      ensures w in g[v] && w != v
    {
      if w !in g[v] {
        var p :| PathFromTo(g, p, w, v);
        PathInOriginal(calls, g, p);
        assert PathFromTo(calls, [v] + p, v, v);
      }
      if w == v {
        SelfLoop(calls, v);
      }
    }

    /** What a function on no cycle calls is analyzed before it. */
    lemma CalleesFirst(g: Graph, topo: seq<nat>, j: nat, k: nat)
      requires Valid() && CutResult(calls, g, entry) && TopologicalOrder(g, topo)
      requires k <= j < |topo| && topo[j] < |funcs| && topo[k] < |funcs| && !OnCycle(calls, topo[j])
      requires funcs[topo[j]].Some? && funcs[topo[k]].Some?
      ensures !funcs[topo[j]].value.CallsByName(funcs[topo[k]].value.name)
    {
      if funcs[topo[j]].value.CallsByName(funcs[topo[k]].value.name) {
        KeptEdges(g, topo[j], topo[k]);
        assert false;
      }
    }

    lemma CallsUnchanged(g: Graph, topo: seq<nat>, funcMap0: FuncMap, j: nat)
      requires Valid() && CutResult(calls, g, entry) && TopologicalOrder(g, topo)
      requires forall i :: 0 <= i < |topo| ==> topo[i] < |funcs|
      requires j < |topo| && funcs[topo[j]].Some? && !OnCycle(calls, topo[j])
      ensures funcs[topo[j]].value.Valid()
      ensures AgreeOnCalls(funcs[topo[j]].value.body, MapAfter(topo, j + 1, funcMap0), MapAfter(topo, 0, funcMap0))
    {
      var f := funcs[topo[j]].value;
      assert f.Valid();
      hide Func.Valid, CutResult, TopologicalOrder, OnCycle, Valid;
      var before, final := MapAfter(topo, j + 1, funcMap0), MapAfter(topo, 0, funcMap0);
      forall u, c | 0 <= u < |f.body.blocks| && Call(c) in f.body.blocks[u]
        ensures (c in before <==> c in final) && (c in before ==> before[c] == final[c])
      {
        assert f.CallsByName(c);
        forall k | 0 <= k < j + 1
          ensures !Names(topo[k], c)
        {
          if Names(topo[k], c) {
            CalleesFirst(g, topo, j, k);
          }
        }
        MapAfterFrame(topo, 0, j + 1, funcMap0, c);
      }
    }

    /** With the call graph cut and sorted: the entry of every function on no cycle of calls, in the
        final map, is the heaviest path through it with every callee weighing its own final entry. */
    lemma FinalMapConsistent(g: Graph, topo: seq<nat>, funcMap0: FuncMap, v: nat)
      requires Valid() && CutResult(calls, g, entry) && TopologicalOrder(g, topo)
      requires v < |funcs| && funcs[v].Some? && !OnCycle(calls, v)
      ensures forall i :: 0 <= i < |topo| ==> topo[i] < |funcs|
      ensures var f, final := funcs[v].value, MapAfter(topo, 0, funcMap0);
              f.Valid() && f.name in final && f.body.IsMeic(final, f.entry, final[f.name])
    {
      hide Body.IsMeic, AgreeOnCalls, OnCycle, Func.CallsByName;
      InOrder(g, topo);
      assert v in topo;
      var j :| 0 <= j < |topo| && topo[j] == v;
      var f := funcs[v].value;
      var before, final := MapAfter(topo, j + 1, funcMap0), MapAfter(topo, 0, funcMap0);
      EntryMeic(f, before);
      forall k | 0 <= k < j
        ensures !Names(topo[k], f.name)
      {
      }
      MapAfterFrame(topo, 0, j, funcMap0, f.name);
      CallsUnchanged(g, topo, funcMap0, j);
      MeicAgrees(f.body, before, final, f.entry, f.body.MeicAt(before, f.entry));
    }

    lemma InOrder(g: Graph, topo: seq<nat>)
      requires CutResult(calls, g, entry) && TopologicalOrder(g, topo) && |calls| == |funcs|
      ensures forall i :: 0 <= i < |topo| ==> topo[i] < |funcs|
    {
      forall i | 0 <= i < |topo|
        ensures topo[i] < |funcs|
      {
        assert topo[i] in topo;
      }
    }
  }

  lemma SelfLoop(g: Graph, v: nat)
    requires v < |g| && v in g[v]
    ensures OnCycle(g, v)
  {
    assert PathFromTo(g, [v, v], v, v);
  }

  lemma EntryMeic(f: Func, funcMap: FuncMap)
    requires f.Valid()
    ensures f.body.IsMeic(funcMap, f.entry, f.body.MeicAt(funcMap, f.entry))
  {
    assert f.entry in f.topo;
    var j :| 0 <= j < |f.topo| && f.topo[j] == f.entry;
    f.body.MeicExists(funcMap, f.topo, j);
  }

  /** Two maps that agree on the functions a body calls give it the same MEIC. */
  ghost predicate AgreeOnCalls(body: Body, a: FuncMap, b: FuncMap) {
    forall u, f :: 0 <= u < |body.blocks| && Call(f) in body.blocks[u] ==>
      (f in a <==> f in b) && (f in a ==> a[f] == b[f])
  }

  lemma {:induction false} CalleeWeightAgrees(blk: Block, a: FuncMap, b: FuncMap)
    requires forall f :: Call(f) in blk ==> (f in a <==> f in b) && (f in a ==> a[f] == b[f])
    ensures CalleeWeight(blk, a) == CalleeWeight(blk, b)
  {
    if |blk| > 0 {
      assert blk[|blk| - 1] in blk;
      CalleeWeightAgrees(blk[..|blk| - 1], a, b);
    }
  }

  lemma {:induction false} PathWeightAgrees(body: Body, a: FuncMap, b: FuncMap, p: seq<nat>)
    requires body.Valid() && AgreeOnCalls(body, a, b) && forall i :: 0 <= i < |p| ==> p[i] < |body.g|
    ensures body.PathWeight(a, p) == body.PathWeight(b, p)
  {
    if |p| > 0 {
      CalleeWeightAgrees(body.blocks[p[0]], a, b);
      PathWeightAgrees(body, a, b, p[1..]);
    }
  }

  lemma MeicAgrees(body: Body, a: FuncMap, b: FuncMap, u: nat, m: nat)
    requires body.Valid() && AgreeOnCalls(body, a, b) && body.IsMeic(a, u, m)
    ensures body.IsMeic(b, u, m)
  {
    forall p
      ensures body.ExecutionPath(a, p, u) <==> body.ExecutionPath(b, p, u)
      ensures body.ExecutionPath(a, p, u) ==> body.PathWeight(a, p) == body.PathWeight(b, p)
    {
      if body.ExecutionPath(a, p, u) {
        PathWeightAgrees(body, a, b, p);
      }
    }
    var p :| body.ExecutionPath(a, p, u) && body.PathWeight(a, p) == m;
    assert body.ExecutionPath(b, p, u) && body.PathWeight(b, p) == m;
  }

  /** The functions against the order of the cut call graph; vertices without a body are skipped. */
  method AnalyzeModule(m: Module, ghost g: Graph, topo: seq<nat>, funcMap0: FuncMap) returns (funcMap: FuncMap)
    requires m.Valid() && CutResult(m.calls, g, m.entry) && TopologicalOrder(g, topo)
    ensures forall i :: 0 <= i < |topo| ==> topo[i] < |m.funcs|
    ensures funcMap == m.MapAfter(topo, 0, funcMap0)
    ensures forall v :: 0 <= v < |m.funcs| && m.funcs[v].Some? && !OnCycle(m.calls, v) ==>
              var f := m.funcs[v].value;
              f.Valid() && f.name in funcMap && f.body.IsMeic(funcMap, f.entry, funcMap[f.name])
  {
    hide Body.IsMeic, CutResult, TopologicalOrder, OnCycle;
    m.InOrder(g, topo);
    funcMap := funcMap0;
    var j := |topo|;
    while j > 0
      invariant 0 <= j <= |topo| && funcMap == m.MapAfter(topo, j, funcMap0)
    {
      j := j - 1;
      match m.funcs[topo[j]]
      case None =>
      case Some(f) =>
        assert f.Valid();
        var instCnt := ComputeMeic(f.body, funcMap, f.topo);
        EntryMeic(f, funcMap);
        f.body.MeicUnique(funcMap, f.entry, instCnt[f.entry], f.body.MeicAt(funcMap, f.entry));
        funcMap := funcMap[f.name := instCnt[f.entry]];
    }
    forall v | 0 <= v < |m.funcs| && m.funcs[v].Some? && !OnCycle(m.calls, v)
      ensures var f := m.funcs[v].value;
              f.Valid() && f.name in funcMap && f.body.IsMeic(funcMap, f.entry, funcMap[f.name])
    {
      m.FinalMapConsistent(g, topo, funcMap0, v);
    }
  }
}
