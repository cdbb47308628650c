/** Cutting the cycles of a control-flow graph (or of the call graph) with an explicit DFS
    stack, before the blocks are sorted topologically.

    A graph is a list of successor lists.  The program stores the edges reversed and walks
    in-edges; "successor" here is the source of an in-edge there. */
module CycleCut {
  import opened Words

  type Graph = seq<seq<nat>>

  ghost predicate ValidGraph(g: Graph) {
    forall u, i :: 0 <= u < |g| && 0 <= i < |g[u]| ==> g[u][i] < |g|
  }

  // ----- paths -----

  ghost predicate IsPath(g: Graph, p: seq<nat>) {
    && |p| > 0
    && (forall i :: 0 <= i < |p| ==> p[i] < |g|)
    && (forall i :: 0 <= i < |p| - 1 ==> p[i + 1] in g[p[i]])
  }

  ghost predicate PathFromTo(g: Graph, p: seq<nat>, u: nat, v: nat) {
    IsPath(g, p) && p[0] == u && p[|p| - 1] == v
  }

  ghost predicate Reaches(g: Graph, u: nat, v: nat) {
    exists p :: PathFromTo(g, p, u, v)
  }

  ghost predicate OnCycle(g: Graph, v: nat) {
    exists p :: |p| > 1 && PathFromTo(g, p, v, v)
  }

  ghost predicate Acyclic(g: Graph) {
    forall v :: 0 <= v < |g| ==> !OnCycle(g, v)
  }

  // ----- the loop's state -----

  function Keep(vs: seq<nat>, removed: set<nat>): (r: seq<nat>)
    ensures forall v :: v in r <==> v in vs && v !in removed
  {
    if |vs| == 0 then []
    else if vs[0] in removed then Keep(vs[1..], removed)
    else [vs[0]] + Keep(vs[1..], removed)
  }

  /** What one `remove_edge` sweep leaves of a successor list: the same order, with all the
      parallel edges to a removed vertex gone. */
  ghost predicate Trimmed(now: seq<nat>, orig: seq<nat>) {
    exists gone: set<nat> :: now == Keep(orig, gone)
  }

  lemma {:induction false} KeepKeep(vs: seq<nat>, a: set<nat>, b: set<nat>)
    ensures Keep(Keep(vs, a), b) == Keep(vs, a + b)
  {
    if |vs| > 0 {
      KeepKeep(vs[1..], a, b);
    }
  }

  lemma {:induction false} KeepAll(vs: seq<nat>)
    ensures Keep(vs, {}) == vs
  {
    if |vs| > 0 {
      KeepAll(vs[1..]);
    }
  }

  lemma TrimTrimmed(now: seq<nat>, orig: seq<nat>, removed: set<nat>)
    requires Trimmed(now, orig)
    ensures Trimmed(Keep(now, removed), orig)
  {
    var gone: set<nat> :| now == Keep(orig, gone);
    KeepKeep(orig, gone, removed);
    assert Keep(now, removed) == Keep(orig, gone + removed);
  }

  ghost predicate Distinct(s: seq<nat>) {
    forall i, j :: 0 <= i < j < |s| ==> s[i] != s[j]
  }

  /** The first `j + 1` vertices of `u`'s path are the path of the last of them. */
  ghost predicate Prefix(tree: map<nat, seq<nat>>, u: nat, j: nat)
    requires u in tree
  {
    j < |tree[u]| ==> tree[u][j] in tree && tree[tree[u][j]] == tree[u][..j + 1]
  }

  /** The DFS tree: `tree[u]` is the stack at the moment `u` was pushed. */
  ghost predicate TreeOk(g: Graph, entry: nat, tree: map<nat, seq<nat>>) {
    && (forall u <- tree :: PathFromTo(g, tree[u], entry, u))
    && (forall u: nat, j: nat :: u in tree ==> Prefix(tree, u, j))
  }

  ghost predicate StackOk(stk: seq<nat>, visited: set<nat>, finished: set<nat>, tree: map<nat, seq<nat>>) {
    && Distinct(stk)
    && (forall i :: 0 <= i < |stk| ==> stk[i] in tree && tree[stk[i]] == stk[..i + 1] && stk[i] !in finished)
    && (forall u <- tree :: u in finished || u in stk)
    && (forall u <- finished :: u in tree)
    && (forall i :: 0 <= i < |stk| - 1 ==> stk[i] in visited)
    && (forall u <- visited :: u in stk)
  }

  /** What is left of the edges: `orig` is the graph before the loop. */
  ghost predicate EdgesOk(g: Graph, orig: Graph, tree: map<nat, seq<nat>>) {
    && |g| == |orig|
    && (forall u :: 0 <= u < |g| ==> Trimmed(g[u], orig[u]))
    && (forall u :: 0 <= u < |g| && u !in tree ==> g[u] == orig[u])
    // a removed edge led from u back to a vertex on the stack below u
    && (forall u, v :: 0 <= u < |g| && v in orig[u] && v !in g[u] ==> u in tree && v in tree[u])
  }

  /** The finished vertices in the order they were finished. */
  ghost predicate FinishOk(g: Graph, finished: set<nat>, order: seq<nat>) {
    && Distinct(order)
    && (forall u :: u in finished <==> u in order)
    && (forall i :: 0 <= i < |order| ==> order[i] < |g|)
    && (forall i, v :: 0 <= i < |order| && v in g[order[i]] ==> v in order[..i])
  }

  lemma TrimmedSubset(now: seq<nat>, orig: seq<nat>, v: nat)
    requires Trimmed(now, orig) && v in now
    ensures v in orig
  {
    var gone: set<nat> :| now == Keep(orig, gone);
  }

  /** No tree path uses an edge from the top of the stack back into the stack. */
  lemma CutKeepsPath(g: Graph, entry: nat, tree: map<nat, seq<nat>>, stk: seq<nat>, removed: set<nat>, u: nat)
    requires |stk| > 0 && Distinct(stk) && stk[|stk| - 1] < |g|
    requires forall i :: 0 <= i < |stk| ==> stk[i] in tree && tree[stk[i]] == stk[..i + 1]
    requires forall v <- removed :: v in stk
    requires u in tree && PathFromTo(g, tree[u], entry, u) && forall j: nat :: Prefix(tree, u, j)
    ensures var cur := stk[|stk| - 1]; PathFromTo(g[cur := Keep(g[cur], removed)], tree[u], entry, u)
  {
    var cur := stk[|stk| - 1];
    var h := g[cur := Keep(g[cur], removed)];
    var p := tree[u];
    forall j | 0 <= j < |p| - 1
      ensures p[j + 1] in h[p[j]]
    {
      assert p[j + 1] in g[p[j]];
      assert Prefix(tree, u, j + 1);
      if p[j + 1] in removed {
        var i :| 0 <= i < |stk| && stk[i] == p[j + 1];
        assert stk[..i + 1] == p[..j + 2];
        assert p[j] == stk[..i + 1][i - 1] == stk[i - 1] && p[j] != cur;
      }
    }
  }

  /** One step of the loop: removing from the top's successors a set of vertices on the stack
      keeps the tree and the edge facts. */
  lemma CutKeepsTree(g: Graph, entry: nat, tree: map<nat, seq<nat>>, stk: seq<nat>, visited: set<nat>,
                     finished: set<nat>, removed: set<nat>)
    requires |stk| > 0 && TreeOk(g, entry, tree) && StackOk(stk, visited, finished, tree)
    requires stk[|stk| - 1] < |g|
    requires forall v <- removed :: v in stk
    ensures var cur := stk[|stk| - 1]; TreeOk(g[cur := Keep(g[cur], removed)], entry, tree)
  {
    hide PathFromTo, Prefix;
    forall u | u in tree
      ensures var cur := stk[|stk| - 1]; PathFromTo(g[cur := Keep(g[cur], removed)], tree[u], entry, u)
    {
      CutKeepsPath(g, entry, tree, stk, removed, u);
    }
  }

  lemma CutKeepsEdges(g: Graph, orig: Graph, tree: map<nat, seq<nat>>, stk: seq<nat>, removed: set<nat>)
    requires |stk| > 0 && EdgesOk(g, orig, tree)
    requires stk[|stk| - 1] < |g| && stk[|stk| - 1] in tree && tree[stk[|stk| - 1]] == stk
    requires forall v <- removed :: v in stk
    ensures var cur := stk[|stk| - 1]; EdgesOk(g[cur := Keep(g[cur], removed)], orig, tree)
  {
    var cur := stk[|stk| - 1];
    TrimTrimmed(g[cur], orig[cur], removed);
  }

  lemma PushKeepsStack(stk: seq<nat>, visited: set<nat>, finished: set<nat>, tree: map<nat, seq<nat>>, src: nat)
    requires |stk| > 0 && StackOk(stk, visited, finished, tree) && stk[|stk| - 1] in visited
    requires src !in visited && src !in finished
    ensures src !in tree && src !in stk
    ensures StackOk(stk + [src], visited, finished, tree[src := stk + [src]])
  {
    assert src !in stk && src !in tree;
    var p := stk + [src];
    var tree' := tree[src := p];
    forall i | 0 <= i < |p|
      ensures p[i] in tree' && tree'[p[i]] == p[..i + 1]
    {
      if i < |stk| {
        assert stk[i] in tree && tree[stk[i]] == stk[..i + 1] == p[..i + 1];
      } else {
        assert p[..i + 1] == p;
      }
    }
  }

  lemma PushKeepsPrefix(stk: seq<nat>, tree: map<nat, seq<nat>>, src: nat, u: nat, j: nat)
    requires src !in tree && src !in stk
    requires forall i :: 0 <= i < |stk| ==> stk[i] in tree && tree[stk[i]] == stk[..i + 1]
    requires u == src || (u in tree && Prefix(tree, u, j))
    ensures Prefix(tree[src := stk + [src]], u, j)
  {
    var p := stk + [src];
    if u == src && j < |stk| {
      assert p[..j + 1] == stk[..j + 1];
    } else if u == src && j == |stk| {
      assert p[..j + 1] == p;
    }
  }

  lemma PushKeepsTree(g: Graph, entry: nat, tree: map<nat, seq<nat>>, stk: seq<nat>, src: nat)
    requires |stk| > 0 && TreeOk(g, entry, tree)
    requires forall i :: 0 <= i < |stk| ==> stk[i] in tree && tree[stk[i]] == stk[..i + 1]
    requires stk[|stk| - 1] < |g| && src in g[stk[|stk| - 1]] && src < |g| && src !in tree && src !in stk
    ensures TreeOk(g, entry, tree[src := stk + [src]])
  {
    hide Prefix;
    var cur := stk[|stk| - 1];
    var tree' := tree[src := stk + [src]];
    assert stk[..|stk|] == stk && tree[cur] == stk;
    assert PathFromTo(g, stk, entry, cur);
    assert PathFromTo(g, stk + [src], entry, src);
    forall u: nat, j: nat | u in tree'
      ensures Prefix(tree', u, j)
    {
      PushKeepsPrefix(stk, tree, src, u, j);
    }
    hide PathFromTo;
  }

  lemma StackPaths(stk: seq<nat>, visited: set<nat>, finished: set<nat>, tree: map<nat, seq<nat>>)
    requires StackOk(stk, visited, finished, tree)
    ensures forall i :: 0 <= i < |stk| ==> stk[i] in tree && tree[stk[i]] == stk[..i + 1]
  {
  }

  lemma PushKeepsEdges(g: Graph, orig: Graph, tree: map<nat, seq<nat>>, cur: nat, stk: seq<nat>, src: nat)
    requires ValidGraph(orig) && EdgesOk(g, orig, tree)
    requires cur < |g| && src in g[cur]
    ensures src < |g|
    ensures src !in tree ==> EdgesOk(g, orig, tree[src := stk + [src]])
  {
    TrimmedSubset(g[cur], orig[cur], src);
  }

  lemma PopKeepsStack(stk: seq<nat>, visited: set<nat>, finished: set<nat>, tree: map<nat, seq<nat>>)
    requires |stk| > 0 && StackOk(stk, visited, finished, tree)
    ensures var n := |stk| - 1;
            StackOk(stk[..n], visited - {stk[n]}, finished + {stk[n]}, tree)
  {
    var n := |stk| - 1;
    forall u | u in stk && u != stk[n]
      ensures u in stk[..n]
    {
      var i :| 0 <= i < |stk| && stk[i] == u;
      assert stk[..n][i] == u;
    }
    forall i | 0 <= i < n
      ensures stk[..n][i] in tree && tree[stk[..n][i]] == stk[..n][..i + 1]
    {
      assert stk[..n][..i + 1] == stk[..i + 1];
    }
  }

  lemma FinishTop(g: Graph, finished: set<nat>, order: seq<nat>, cur: nat)
    requires FinishOk(g, finished, order) && cur < |g| && cur !in finished
    requires forall v :: v in g[cur] ==> v in finished
    ensures FinishOk(g, finished + {cur}, order + [cur])
  {
    var o := order + [cur];
    forall i, v | 0 <= i < |o| && v in g[o[i]]
      ensures v in o[..i]
    {
      if i < |order| {
        assert o[..i] == order[..i];
      } else {
        assert o[..i] == order;
      }
    }
  }

  // ----- consequences of the final state -----

  /** A path that starts at a finished vertex moves backwards in the finish order. */
  lemma {:induction false} PathDescends(g: Graph, finished: set<nat>, order: seq<nat>, p: seq<nat>, i: nat)
    requires FinishOk(g, finished, order) && IsPath(g, p)
    requires i < |order| && p[0] == order[i]
    ensures exists j :: 0 <= j <= i && p[|p| - 1] == order[j] && (|p| > 1 ==> j < i)
    decreases |p|
  {
    if |p| > 1 {
      assert p[1] in g[p[0]];
      assert p[1] in order[..i];
      var k :| 0 <= k < i && order[k] == p[1];
      assert IsPath(g, p[1..]);
      PathDescends(g, finished, order, p[1..], k);
    }
  }

  lemma FinishedNotOnCycle(g: Graph, finished: set<nat>, order: seq<nat>, v: nat)
    requires FinishOk(g, finished, order) && v in finished
    ensures !OnCycle(g, v)
  {
    if OnCycle(g, v) {
      var p :| |p| > 1 && PathFromTo(g, p, v, v);
      var i :| 0 <= i < |order| && order[i] == v;
      PathDescends(g, finished, order, p, i);
      assert false;
    }
  }

  /** The finished vertices are closed under the original successors. */
  ghost predicate ClosedUnder(g: Graph, s: set<nat>) {
    forall u, v :: u in s && u < |g| && v in g[u] ==> v in s
  }

  lemma {:induction false} ClosedReach(g: Graph, s: set<nat>, p: seq<nat>)
    requires ClosedUnder(g, s) && IsPath(g, p) && p[0] in s
    ensures p[|p| - 1] in s
    decreases |p|
  {
    if |p| > 1 {
      assert p[1] in g[p[0]];
      assert IsPath(g, p[1..]);
      ClosedReach(g, s, p[1..]);
    }
  }

  /** What the cut promises, for the graph before and after. */
  ghost predicate CutResult(orig: Graph, g: Graph, entry: nat) {
    && |g| == |orig|
    // only edges are removed, and none from a vertex the entry cannot reach
    && (forall u :: 0 <= u < |g| ==> Trimmed(g[u], orig[u]))
    && (forall u :: 0 <= u < |g| && !Reaches(orig, entry, u) ==> g[u] == orig[u])
    // nothing becomes unreachable
    && (forall v :: Reaches(orig, entry, v) <==> Reaches(g, entry, v))
    // nothing reachable stays on a cycle
    && (forall v :: Reaches(g, entry, v) ==> !OnCycle(g, v))
    // each removed edge closed a cycle with edges that were kept
    && (forall u, v :: 0 <= u < |g| && v in orig[u] && v !in g[u] ==> Reaches(g, v, u))
  }

  lemma FinishedClosed(orig: Graph, g: Graph, entry: nat, tree: map<nat, seq<nat>>, visited: set<nat>, finished: set<nat>,
                       order: seq<nat>)
    requires TreeOk(g, entry, tree) && StackOk([], visited, finished, tree)
    requires EdgesOk(g, orig, tree) && FinishOk(g, finished, order)
    ensures ClosedUnder(orig, finished)
  {
    forall u, v | u in finished && u < |orig| && v in orig[u]
      ensures v in finished
    {
      if v in g[u] {
        var i :| 0 <= i < |order| && order[i] == u;
        assert v in order[..i];
      } else {
        var j :| 0 <= j < |tree[u]| && tree[u][j] == v;
        assert Prefix(tree, u, j);
      }
    }
  }

  lemma PathInOriginal(orig: Graph, g: Graph, p: seq<nat>)
    requires |g| == |orig| && IsPath(g, p)
    requires forall u :: 0 <= u < |g| ==> Trimmed(g[u], orig[u])
    ensures IsPath(orig, p)
  {
    forall i | 0 <= i < |p| - 1
      ensures p[i + 1] in orig[p[i]]
    {
      TrimmedSubset(g[p[i]], orig[p[i]], p[i + 1]);
    }
  }

  lemma ReachedIffFinished(orig: Graph, g: Graph, entry: nat, tree: map<nat, seq<nat>>, finished: set<nat>, v: nat)
    requires |g| == |orig| && forall u :: 0 <= u < |g| ==> Trimmed(g[u], orig[u])
    requires ClosedUnder(orig, finished) && entry in finished
    requires forall u <- finished :: u in tree && PathFromTo(g, tree[u], entry, u)
    ensures Reaches(orig, entry, v) <==> v in finished
    ensures Reaches(g, entry, v) <==> v in finished
  {
    if v in finished {
      assert PathFromTo(g, tree[v], entry, v);
      PathInOriginal(orig, g, tree[v]);
      assert PathFromTo(orig, tree[v], entry, v);
    }
    if Reaches(g, entry, v) {
      var p :| PathFromTo(g, p, entry, v);
      PathInOriginal(orig, g, p);
      assert PathFromTo(orig, p, entry, v);
    }
    if Reaches(orig, entry, v) {
      var p :| PathFromTo(orig, p, entry, v);
      ClosedReach(orig, finished, p);
    }
  }

  lemma RemovedClosedCycle(g: Graph, entry: nat, tree: map<nat, seq<nat>>, u: nat, v: nat)
    requires u in tree && PathFromTo(g, tree[u], entry, u) && v in tree[u]
    ensures Reaches(g, v, u)
  {
    var j :| 0 <= j < |tree[u]| && tree[u][j] == v;
    assert PathFromTo(g, tree[u][j..], v, u);
  }

  lemma FinalState(orig: Graph, g: Graph, entry: nat, tree: map<nat, seq<nat>>, visited: set<nat>, finished: set<nat>,
                   order: seq<nat>)
    requires entry < |orig| && entry in tree
    requires TreeOk(g, entry, tree) && StackOk([], visited, finished, tree)
    requires EdgesOk(g, orig, tree) && FinishOk(g, finished, order)
    ensures CutResult(orig, g, entry)
  {
    hide FinishOk, PathFromTo, Reaches, OnCycle, ClosedUnder;
    FinishedClosed(orig, g, entry, tree, visited, finished, order);
    forall v
      ensures Reaches(orig, entry, v) <==> v in finished
      ensures Reaches(g, entry, v) <==> v in finished
    {
      ReachedIffFinished(orig, g, entry, tree, finished, v);
    }
    forall v | Reaches(g, entry, v)
      ensures !OnCycle(g, v)
    {
      FinishedNotOnCycle(g, finished, order, v);
    }
    forall u, v | 0 <= u < |g| && v in orig[u] && v !in g[u]
      ensures Reaches(g, v, u)
    {
      RemovedClosedCycle(g, entry, tree, u, v);
    }
  }

  // ----- the loop -----

  /** The scan of the top's in-edges, up to the first vertex to push. */
  method Scan(succ: seq<nat>, visited: set<nat>, finished: set<nat>) returns (removed: set<nat>, push: bool, src: nat)
    ensures forall v :: v in removed ==> v in succ && v in visited
    ensures push ==> src in succ && src !in visited && src !in finished
    ensures !push ==> removed == set v | v in succ && v in visited
    ensures !push ==> forall v :: v in Keep(succ, removed) ==> v in finished
  {
    removed, push, src := {}, false, 0;
    for i := 0 to |succ|
      invariant removed == set v | v in succ[..i] && v in visited
      invariant forall v :: v in succ[..i] ==> v in visited || v in finished
    {
      assert succ[..i + 1] == succ[..i] + [succ[i]];
      if succ[i] in visited {
        removed := removed + {succ[i]};
      } else if succ[i] !in finished {
        push, src := true, succ[i];
        return;
      }
    }
    assert succ[..|succ|] == succ;
  }

  ghost predicate Inv(g: Graph, orig: Graph, entry: nat, stk: seq<nat>, visited: set<nat>, finished: set<nat>,
                      tree: map<nat, seq<nat>>, order: seq<nat>)
  {
    && TreeOk(g, entry, tree) && StackOk(stk, visited, finished, tree)
    && EdgesOk(g, orig, tree) && FinishOk(g, finished, order)
    && entry in tree
  }

  lemma InvInitially(orig: Graph, entry: nat)
    requires entry < |orig|
    ensures Inv(orig, orig, entry, [entry], {}, {}, map[entry := [entry]], [])
  {
    forall u | 0 <= u < |orig|
      ensures Trimmed(orig[u], orig[u])
    {
      KeepAll(orig[u]);
    }
    assert PathFromTo(orig, [entry], entry, entry);
  }

  lemma VisitTop(stk: seq<nat>, visited: set<nat>, finished: set<nat>, tree: map<nat, seq<nat>>)
    requires |stk| > 0 && StackOk(stk, visited, finished, tree)
    ensures StackOk(stk, visited + {stk[|stk| - 1]}, finished, tree)
    ensures stk[|stk| - 1] in tree && tree[stk[|stk| - 1]] == stk
    ensures stk[|stk| - 1] !in finished
  {
    assert stk[..|stk|] == stk;
  }

  lemma TreeVertex(g: Graph, entry: nat, tree: map<nat, seq<nat>>, u: nat)
    requires TreeOk(g, entry, tree) && u in tree
    ensures u < |g|
  {
    assert PathFromTo(g, tree[u], entry, u);
  }

  lemma TopIsVertex(g: Graph, orig: Graph, entry: nat, stk: seq<nat>, visited: set<nat>, finished: set<nat>,
                    tree: map<nat, seq<nat>>, order: seq<nat>)
    requires |stk| > 0 && Inv(g, orig, entry, stk, visited, finished, tree, order)
    ensures var cur := stk[|stk| - 1]; cur < |g| && cur in tree && tree[cur] == stk && cur !in finished
    ensures |g| == |orig|
    ensures Inv(g, orig, entry, stk, visited + {stk[|stk| - 1]}, finished, tree, order)
  {
    hide TreeOk, StackOk, FinishOk;
    VisitTop(stk, visited, finished, tree);
    TreeVertex(g, entry, tree, stk[|stk| - 1]);
  }

  lemma StepCut(g: Graph, orig: Graph, entry: nat, stk: seq<nat>, visited: set<nat>, finished: set<nat>,
                tree: map<nat, seq<nat>>, order: seq<nat>, removed: set<nat>)
    requires |stk| > 0 && Inv(g, orig, entry, stk, visited, finished, tree, order)
    requires forall v <- removed :: v in visited
    ensures var cur := stk[|stk| - 1];
            cur < |g| && Inv(g[cur := Keep(g[cur], removed)], orig, entry, stk, visited, finished, tree, order)
  {
    TopIsVertex(g, orig, entry, stk, visited, finished, tree, order);
    CutKeepsTree(g, entry, tree, stk, visited, finished, removed);
    CutKeepsEdges(g, orig, tree, stk, removed);
    var cur := stk[|stk| - 1];
    var h := g[cur := Keep(g[cur], removed)];
    assert cur !in finished;
    assert FinishOk(h, finished, order);
  }

  lemma StepPush(g: Graph, orig: Graph, entry: nat, stk: seq<nat>, visited: set<nat>, finished: set<nat>,
                 tree: map<nat, seq<nat>>, order: seq<nat>, src: nat)
    requires |stk| > 0 && Inv(g, orig, entry, stk, visited, finished, tree, order)
    requires ValidGraph(orig) && stk[|stk| - 1] < |g| && stk[|stk| - 1] in visited
    requires src in g[stk[|stk| - 1]] && src !in visited && src !in finished
    ensures src < |g| && src !in stk
    ensures Inv(g, orig, entry, stk + [src], visited, finished, tree[src := stk + [src]], order)
  {
    hide EdgesOk, TreeOk, StackOk;
    var cur := stk[|stk| - 1];
    PushKeepsEdges(g, orig, tree, cur, stk, src);
    PushKeepsStack(stk, visited, finished, tree, src);
    StackPaths(stk, visited, finished, tree);
    PushKeepsTree(g, entry, tree, stk, src);
  }

  lemma StepPop(g: Graph, orig: Graph, entry: nat, stk: seq<nat>, visited: set<nat>, finished: set<nat>,
                tree: map<nat, seq<nat>>, order: seq<nat>)
    requires |stk| > 0 && Inv(g, orig, entry, stk, visited, finished, tree, order)
    requires stk[|stk| - 1] < |g| && forall v :: v in g[stk[|stk| - 1]] ==> v in finished
    ensures var cur := stk[|stk| - 1];
            Inv(g, orig, entry, stk[..|stk| - 1], visited - {cur}, finished + {cur}, tree, order + [cur])
  {
    PopKeepsStack(stk, visited, finished, tree);
    FinishTop(g, finished, order, stk[|stk| - 1]);
  }

  lemma InvFinally(orig: Graph, g: Graph, entry: nat, visited: set<nat>, finished: set<nat>, tree: map<nat, seq<nat>>,
                   order: seq<nat>)
    requires ValidGraph(orig) && entry < |orig|
    requires Inv(g, orig, entry, [], visited, finished, tree, order)
    ensures CutResult(orig, g, entry)
  {
    FinalState(orig, g, entry, tree, visited, finished, order);
  }

  method CutCycles(g: array<seq<nat>>, entry: nat)
    requires ValidGraph(g[..]) && entry < g.Length
    modifies g
    ensures CutResult(old(g[..]), g[..], entry)
  {
    hide Inv, CutResult;
    ghost var orig := g[..];
    ghost var tree: map<nat, seq<nat>> := map[entry := [entry]];
    ghost var order: seq<nat> := [];
    var stk: seq<nat> := [entry];
    var visited: set<nat> := {};
    var finished: set<nat> := {};
    InvInitially(orig, entry);
    while |stk| > 0
      invariant Inv(g[..], orig, entry, stk, visited, finished, tree, order)
      decreases Indices(g.Length) - finished, Indices(g.Length) - set v | v in stk
    {
      ghost var g0 := g[..];
      TopIsVertex(g0, orig, entry, stk, visited, finished, tree, order);
      var cur := stk[|stk| - 1];
      visited := visited + {cur};
      var removed, push, src := Scan(g[cur], visited, finished);
      StepCut(g0, orig, entry, stk, visited, finished, tree, order, removed);
      g[cur] := Keep(g[cur], removed);
      ghost var h := g[..];
      assert h == g0[cur := Keep(g0[cur], removed)];
      if push {
        StepPush(h, orig, entry, stk, visited, finished, tree, order, src);
        tree := tree[src := stk + [src]];
        assert (set v | v in stk + [src]) == (set v | v in stk) + {src};
        assert src in Indices(g.Length) - set v | v in stk;
        stk := stk + [src];
      } else {
        StepPop(h, orig, entry, stk, visited, finished, tree, order);
        assert cur in Indices(g.Length) && cur !in finished;
        visited := visited - {cur};
        finished := finished + {cur};
        order := order + [cur];
        stk := stk[..|stk| - 1];
      }
    }
    InvFinally(orig, g[..], entry, visited, finished, tree, order);
  }

  // ----- when the topological sort that follows succeeds -----

  /** From a vertex the entry cannot reach, a path avoids the vertices it can. */
  lemma {:induction false} AvoidsReachable(g: Graph, entry: nat, p: seq<nat>, i: nat)
    requires IsPath(g, p) && i < |p| && !Reaches(g, entry, p[|p| - 1])
    ensures !Reaches(g, entry, p[i])
    decreases |p| - i
  {
    if i < |p| - 1 {
      AvoidsReachable(g, entry, p, i + 1);
      if Reaches(g, entry, p[i]) {
        var q :| PathFromTo(g, q, entry, p[i]);
        assert PathFromTo(g, q + [p[i + 1]], entry, p[i + 1]);
      }
    }
  }

  /** Sorting the cut graph raises no cycle exactly when no cycle of the original graph lies
      in the part that the entry cannot reach: those cycles are left alone. */
  lemma SortSucceedsIff(orig: Graph, g: Graph, entry: nat)
    requires CutResult(orig, g, entry)
    ensures Acyclic(g) <==> forall v :: 0 <= v < |orig| && !Reaches(orig, entry, v) ==> !OnCycle(orig, v)
  {
    forall v | 0 <= v < |g| && !Reaches(orig, entry, v)
      ensures OnCycle(orig, v) <==> OnCycle(g, v)
    {
      if OnCycle(orig, v) {
        var p :| |p| > 1 && PathFromTo(orig, p, v, v);
        forall i | 0 <= i < |p|
          ensures g[p[i]] == orig[p[i]]
        {
          AvoidsReachable(orig, entry, p, i);
        }
        assert PathFromTo(g, p, v, v);
      }
      if OnCycle(g, v) {
        var p :| |p| > 1 && PathFromTo(g, p, v, v);
        forall i | 0 <= i < |p|
          ensures g[p[i]] == orig[p[i]]
        {
          AvoidsReachable(g, entry, p, i);
        }
        assert PathFromTo(orig, p, v, v);
      }
    }
  }

  /** A block that only jumps to itself, and that the entry does not reach: the cut leaves the
      graph as it is, and the sorter meets the cycle. */
  lemma UnreachableCycleStays(h: Graph)
    ensures var g: Graph := [[], [1]]; CutResult(g, h, 0) ==> h == g && !Acyclic(h)
  {
    var g: Graph := [[], [1]];
    if CutResult(g, h, 0) {
      EmptyReachesNothing(g, 1);
      hide Reaches;
      assert Trimmed(h[0], g[0]);
      assert h[1] == g[1];
      assert PathFromTo(h, [1, 1], 1, 1);
      assert OnCycle(h, 1);
    }
  }

  lemma EmptyReachesNothing(g: Graph, v: nat)
    requires |g| > 0 && g[0] == [] && v != 0
    ensures !Reaches(g, 0, v)
  {
    forall p | IsPath(g, p) && p[0] == 0
      ensures p[|p| - 1] in {0 as nat}
    {
      ClosedReach(g, {0}, p);
    }
  }
}
