/** The favored entries of the queue: the winner of every byte of the coverage map, the
    reference counts that keep the winners' traces alive, and the greedy choice of entries
    that together hit every rated byte.  A bitmap is the set of its set positions. */
module QueueCover {
  import opened Words

  class QueueEntry {
    var execUs: nat
    var len: nat
    var tcRef: nat
    var traceMini: Option<set<nat>>
    var favored: bool
    var wasFuzzed: bool

    constructor (execUs: nat, len: nat)
      ensures this.execUs == execUs && this.len == len
      ensures tcRef == 0 && traceMini == None && !favored && !wasFuzzed
    {
      this.execUs, this.len := execUs, len;
      tcRef, traceMini, favored, wasFuzzed := 0, None, false, false;
    }

    /** Speed times size, in 64 bits. */
    function FavFactor(): nat
      reads this`execUs, this`len
    {
      execUs * len % 0x1_0000_0000_0000_0000
    }
  }

  type Winners = seq<QueueEntry?>

  // ----- counting slots -----

  ghost function Count(top: Winners, q: QueueEntry): nat {
    if |top| == 0 then 0 else Count(top[..|top| - 1], q) + if top[|top| - 1] == q then 1 else 0
  }

  lemma {:induction false} CountUpdate(top: Winners, i: nat, q: QueueEntry, p: QueueEntry)
    requires i < |top|
    ensures Count(top[i := q], p) == Count(top, p) - (if top[i] == p then 1 else 0) + (if q == p then 1 else 0)
  {
    var n := |top| - 1;
    if i == n {
      assert top[i := q][..n] == top[..n];
    } else {
      assert top[i := q][..n] == top[..n][i := q];
      CountUpdate(top[..n], i, q, p);
    }
  }

  lemma {:induction false} CountPositive(top: Winners, i: nat)
    requires i < |top| && top[i] != null
    ensures Count(top, top[i]) >= 1
  {
    var n := |top| - 1;
    if i < n {
      CountPositive(top[..n], i);
    }
  }

  lemma {:induction false} CountZero(top: Winners, q: QueueEntry)
    requires q !in top
    ensures Count(top, q) == 0
  {
    if |top| > 0 {
      CountZero(top[..|top| - 1], q);
    }
  }

  /** The entries picked, in the order of their slots. */
  function PickedList(top: Winners, picked: seq<bool>): seq<QueueEntry>
    requires |picked| <= |top| && forall i :: 0 <= i < |picked| && picked[i] ==> top[i] != null
  {
    if |picked| == 0 then []
    else PickedList(top, picked[..|picked| - 1]) + if picked[|picked| - 1] then [top[|picked| - 1]] else []
  }

  /** The holder of a slot is picked exactly when the slot is in the trace of no entry picked before. */
  ghost predicate Greedy(top: Winners, minis: map<QueueEntry, set<nat>>, picked: seq<bool>) {
    && |picked| <= |top| && (forall i :: 0 <= i < |picked| && picked[i] ==> top[i] != null)
    && (forall i :: 0 <= i < |picked| ==>
          (picked[i] <==> top[i] != null && forall j :: 0 <= j < i && picked[j] ==> i !in TraceOf(minis, top[j])))
  }

  lemma {:induction false} PicksGreedy(top: Winners, minis: map<QueueEntry, set<nat>>, picked: seq<bool>, uncovered: set<nat>)
    returns (all: seq<bool>)
    requires Greedy(top, minis, picked)
    requires forall k :: |picked| <= k < |top| ==>
               (k in uncovered <==> forall j :: 0 <= j < |picked| && picked[j] ==> k !in TraceOf(minis, top[j]))
    ensures Greedy(top, minis, all) && |all| == |top|
    ensures PickedList(top, all) == PickedList(top, picked) + Picks(top, minis, |picked|, uncovered)
    decreases |top| - |picked|
  {
    var i := |picked|;
    if i == |top| {
      all := picked;
      assert PickedList(top, picked) + [] == PickedList(top, picked);
    } else {
      var now := top[i] != null && i in uncovered;
      var next := picked + [now];
      assert next[..i] == picked;
      PicksNext(top, minis, i, uncovered);
      GreedyNext(top, minis, picked, now);
      var left := if now then uncovered - TraceOf(minis, top[i]) else uncovered;
      hide Greedy, Picks;
      all := PicksGreedy(top, minis, next, left);
      var rest := Picks(top, minis, i + 1, left);
      assert PickedList(top, picked) + (if now then [top[i]] + rest else rest)
          == (PickedList(top, picked) + if now then [top[i]] else []) + rest;
    }
  }

  lemma {:induction false} GreedyNext(top: Winners, minis: map<QueueEntry, set<nat>>, picked: seq<bool>, now: bool)
    requires Greedy(top, minis, picked) && |picked| < |top|
    requires now <==> top[|picked|] != null && forall j :: 0 <= j < |picked| && picked[j] ==> |picked| !in TraceOf(minis, top[j])
    ensures Greedy(top, minis, picked + [now])
  {
  }

  /** The whole choice is the greedy one, slot by slot. */
  lemma {:induction false} ChoiceIsGreedy(top: Winners, minis: map<QueueEntry, set<nat>>) returns (picked: seq<bool>)
    ensures Greedy(top, minis, picked) && |picked| == |top|
    ensures Picks(top, minis, 0, Indices(|top|)) == PickedList(top, picked)
  {
    picked := PicksGreedy(top, minis, [], Indices(|top|));
  }

  // ----- who wins -----

  /** The slots an entry with this factor takes: the bytes of its trace that nobody holds, or
      whose holder is not strictly better. */
  ghost predicate Wins(top: Winners, factors: map<QueueEntry, nat>, trace: set<nat>, factor: nat, i: nat)
    requires i < |top|
  {
    i in trace && (top[i] == null || (top[i] in factors && factor <= factors[top[i]]))
  }

  /** The entry takes some slot below `n`. */
  ghost predicate WinsAny(top: Winners, factors: map<QueueEntry, nat>, trace: set<nat>, q: QueueEntry, n: nat)
    requires q in factors && n <= |top|
  {
    exists i :: 0 <= i < n && Wins(top, factors, trace, factors[q], i)
  }

  lemma WinsNone(top: Winners, factors: map<QueueEntry, nat>, trace: set<nat>, q: QueueEntry)
    requires q in factors
    ensures !WinsAny(top, factors, trace, q, 0)
  {
  }

  lemma WinsNext(top: Winners, factors: map<QueueEntry, nat>, trace: set<nat>, q: QueueEntry, i: nat)
    requires q in factors && i < |top|
    ensures WinsAny(top, factors, trace, q, i + 1) <==> WinsAny(top, factors, trace, q, i) || Wins(top, factors, trace, factors[q], i)
  {
    hide Wins;
  }

  /** The winners of slots below `n` after the scoring of `q`. */
  ghost predicate Scored(before: Winners, after: Winners, factors: map<QueueEntry, nat>, trace: set<nat>, q: QueueEntry, n: nat)
    requires q in factors
  {
    |after| == |before| &&
    forall i :: 0 <= i < |before| ==>
      after[i] == if i < n && Wins(before, factors, trace, factors[q], i) then q else before[i]
  }

  /** Re-winning the only slot it holds, before winning any other, makes an entry drop its
      trace for a moment and take the current one; so does holding none. */
  ghost predicate TakesNewTrace(top: Winners, factors: map<QueueEntry, nat>, trace: set<nat>, q: QueueEntry, n: nat)
    requires q in factors && n <= |top|
  {
    exists i :: 0 <= i < n && Wins(top, factors, trace, factors[q], i) &&
      (forall j :: 0 <= j < i ==> !Wins(top, factors, trace, factors[q], j)) &&
      (Count(top, q) == 0 || (Count(top, q) == 1 && top[i] == q))
  }

  // ----- the greedy choice -----

  function TraceOf(minis: map<QueueEntry, set<nat>>, q: QueueEntry): set<nat> {
    if q in minis then minis[q] else {}
  }

  /** The entries favored from slot `i` on, in order, while `uncovered` are the bytes no favored
      trace holds yet. */
  function Picks(top: Winners, minis: map<QueueEntry, set<nat>>, i: nat, uncovered: set<nat>): (r: seq<QueueEntry>)
    ensures forall q <- r :: q in top
    decreases |top| - i
  {
    if i >= |top| then []
    else if top[i] != null && i in uncovered then [top[i]] + Picks(top, minis, i + 1, uncovered - TraceOf(minis, top[i]))
    else Picks(top, minis, i + 1, uncovered)
  }

  /** Every winner's stored trace holds the slots it won. */
  ghost predicate Covered(top: Winners, minis: map<QueueEntry, set<nat>>) {
    forall i :: 0 <= i < |top| && top[i] != null ==> top[i] in minis && i in minis[top[i]]
  }

  /** Every byte not yet covered at slot `i` or above gets into a picked entry's trace. */
  lemma {:induction false} PicksCover(top: Winners, minis: map<QueueEntry, set<nat>>, i: nat, uncovered: set<nat>, k: nat)
    requires Covered(top, minis) && i <= k < |top| && top[k] != null && k in uncovered
    ensures exists q <- Picks(top, minis, i, uncovered) :: k in TraceOf(minis, q)
    decreases |top| - i
  {
    if top[i] != null && i in uncovered {
      if k !in minis[top[i]] {
        PicksCover(top, minis, i + 1, uncovered - minis[top[i]], k);
        var rest := Picks(top, minis, i + 1, uncovered - minis[top[i]]);
        var q :| q in rest && k in TraceOf(minis, q);
        assert q in Picks(top, minis, i, uncovered);
      } else {
        assert top[i] in Picks(top, minis, i, uncovered);
      }
    } else {
      PicksCover(top, minis, i + 1, uncovered, k);
    }
  }

  lemma {:induction false} PicksFresh(top: Winners, minis: map<QueueEntry, set<nat>>, i: nat, uncovered: set<nat>, q: QueueEntry)
    requires Covered(top, minis) && q in minis && minis[q] !! uncovered
    ensures q !in Picks(top, minis, i, uncovered)
    decreases |top| - i
  {
    if i < |top| {
      if top[i] != null && i in uncovered {
        PicksFresh(top, minis, i + 1, uncovered - minis[top[i]], q);
      } else {
        PicksFresh(top, minis, i + 1, uncovered, q);
      }
    }
  }

  /** No entry is picked twice. */
  lemma {:induction false} PicksDistinct(top: Winners, minis: map<QueueEntry, set<nat>>, i: nat, uncovered: set<nat>)
    requires Covered(top, minis)
    ensures Distinct(Picks(top, minis, i, uncovered))
    decreases |top| - i
  {
    if i < |top| {
      if top[i] != null && i in uncovered {
        var left := uncovered - minis[top[i]];
        PicksDistinct(top, minis, i + 1, left);
        PicksFresh(top, minis, i + 1, left, top[i]);
        assert Picks(top, minis, i, uncovered) == [top[i]] + Picks(top, minis, i + 1, left);
      } else {
        PicksDistinct(top, minis, i + 1, uncovered);
        assert Picks(top, minis, i, uncovered) == Picks(top, minis, i + 1, uncovered);
      }
    }
  }

  lemma {:induction false} CountTwo(top: Winners, i: nat, j: nat)
    requires i < j < |top| && top[i] != null && top[i] == top[j]
    ensures Count(top, top[i]) >= 2
  {
    var n := |top| - 1;
    if j < n {
      CountTwo(top[..n], i, j);
    } else {
      CountPositive(top[..n], i);
    }
  }

  /** The entry takes the trace of this run, or the trace it keeps already holds what it wins. */
  ghost predicate KeepsCover(before: Winners, factors: map<QueueEntry, nat>, trace: set<nat>, q: QueueEntry, minis: map<QueueEntry, set<nat>>)
    requires q in factors
  {
    TakesNewTrace(before, factors, trace, q, |before|) ||
    forall i :: 0 <= i < |before| && Wins(before, factors, trace, factors[q], i) ==> q in minis && i in minis[q]
  }

  /** When scoring an entry leaves every winner's trace holding its slots. */
  lemma CoverAfterScoring(before: Winners, after: Winners, factors: map<QueueEntry, nat>, trace: set<nat>, q: QueueEntry,
                          minis: map<QueueEntry, set<nat>>, minis': map<QueueEntry, set<nat>>)
    requires q in factors && Scored(before, after, factors, trace, q, |before|) && Covered(before, minis)
    requires forall p <- minis' :: p != q ==> p in minis && minis'[p] == minis[p]
    requires forall i :: 0 <= i < |after| && after[i] != null ==> after[i] in minis'
    requires q in minis' && !TakesNewTrace(before, factors, trace, q, |before|) ==> q in minis && minis'[q] == minis[q]
    requires q in minis' && TakesNewTrace(before, factors, trace, q, |before|) ==> minis'[q] == trace
    ensures Covered(after, minis') <==> KeepsCover(before, factors, trace, q, minis)
  {
    if TakesNewTrace(before, factors, trace, q, |before|) {
      var w :| 0 <= w < |before| && Wins(before, factors, trace, factors[q], w) &&
        (Count(before, q) == 0 || (Count(before, q) == 1 && before[w] == q));
      forall i | 0 <= i < |after| && after[i] != null
        ensures i in minis'[after[i]]
      {
        if after[i] == q && !Wins(before, factors, trace, factors[q], i) {
          CountPositive(before, i);
          if i < w { CountTwo(before, i, w); } else { CountTwo(before, w, i); }
        }
      }
    } else if Covered(after, minis') {
      forall i | 0 <= i < |before| && Wins(before, factors, trace, factors[q], i)
        ensures q in minis && i in minis[q]
      {
        assert after[i] == q;
      }
    }
  }

  /** Two runs of one entry on a map of two bytes, the first hitting byte 0 and the second byte 1.
      The first scoring stores {0} and leaves a cover.  The second takes slot 1 as well but keeps
      the old trace, so the cover is lost, and the next choice picks, and counts, the entry
      twice. */
  lemma StaleTraceCountsTwice(q: QueueEntry, factor: nat)
    ensures var factors := map[q := factor];
            var none: Winners, one: Winners, both: Winners := [null, null], [q, null], [q, q];
            && Scored(none, one, factors, {0}, q, 2) && TakesNewTrace(none, factors, {0}, q, 2) && Covered(one, map[q := {0}])
            && Scored(one, both, factors, {1}, q, 2) && !TakesNewTrace(one, factors, {1}, q, 2)
            && !KeepsCover(one, factors, {1}, q, map[q := {0}]) && !Covered(both, map[q := {0}])
            && Picks(both, map[q := {0}], 0, Indices(2)) == [q, q]
  {
    var factors := map[q := factor];
    var none: Winners, one: Winners, both: Winners := [null, null], [q, null], [q, q];
    var minis: map<QueueEntry, set<nat>> := map[q := {0}];
    CountSmall(q);
    assert Wins(none, factors, {0}, factor, 0);
    assert Wins(one, factors, {1}, factor, 1) && !Wins(one, factors, {1}, factor, 0);
    assert both[1] == q && 1 !in minis[q];
    PicksBoth(q, minis);
  }

  lemma CountSmall(q: QueueEntry)
    ensures Count([null, null], q) == 0 && Count([q, null], q) == 1
  {
    var a: Winners, b: Winners, n: Winners := [q, null], [null, null], [null];
    assert a[..1] == [q] && b[..1] == n && n[..0] == [];
    assert Count([], q) == 0 && Count(n, q) == 0;
    var one: Winners := [q];
    assert one[..0] == [] && Count(one, q) == 1;
  }

  lemma PicksBoth(q: QueueEntry, minis: map<QueueEntry, set<nat>>)
    requires q in minis && minis[q] == {0}
    ensures Picks([q, q], minis, 0, Indices(2)) == [q, q]
  {
    var top: Winners := [q, q];
    var all := Indices(2);
    assert all - minis[q] == {1} && {1} - minis[q] == {1};
    PicksNext(top, minis, 0, all);
    PicksNext(top, minis, 1, {1});
    PicksEnd(top, minis, {1});
  }

  /** A run that hits the bytes of the kept trace, or the first run of an entry, is always safe. */
  lemma SameTraceKeepsCover(before: Winners, factors: map<QueueEntry, nat>, trace: set<nat>, q: QueueEntry,
                            minis: map<QueueEntry, set<nat>>)
    requires q in factors && (if q in minis then minis[q] == trace else Count(before, q) == 0)
    ensures KeepsCover(before, factors, trace, q, minis)
  {
    hide Count;
    if q in minis {
      assert forall i :: 0 <= i < |before| && Wins(before, factors, trace, factors[q], i) ==> i in trace;
    } else if i :| 0 <= i < |before| && Wins(before, factors, trace, factors[q], i) {
      hide Wins;
      var w := FirstWinner(before, factors, trace, q, i);
      assert TakesNewTrace(before, factors, trace, q, |before|);
    }
  }

  lemma {:induction false} FirstWinner(before: Winners, factors: map<QueueEntry, nat>, trace: set<nat>, q: QueueEntry, i: nat)
    returns (w: nat)
    requires q in factors && i < |before| && Wins(before, factors, trace, factors[q], i)
    ensures w <= i && Wins(before, factors, trace, factors[q], w)
    ensures forall j :: 0 <= j < w ==> !Wins(before, factors, trace, factors[q], j)
  {
    w := i;
    if j :| 0 <= j < i && Wins(before, factors, trace, factors[q], j) {
      w := FirstWinner(before, factors, trace, q, j);
    }
  }

  ghost predicate Distinct(s: seq<QueueEntry>) {
    forall j, k :: 0 <= j < k < |s| ==> s[j] != s[k]
  }

  /** How many of the listed entries have not been fuzzed. */
  ghost function Unfuzzed(s: seq<QueueEntry>, fuzzed: set<QueueEntry>): nat {
    if |s| == 0 then 0 else Unfuzzed(s[..|s| - 1], fuzzed) + if s[|s| - 1] in fuzzed then 0 else 1
  }

  ghost function Elements(s: seq<QueueEntry>): set<QueueEntry> {
    set q <- s
  }

  lemma UnfuzzedNext(s: seq<QueueEntry>, q: QueueEntry?, fuzzed: set<QueueEntry>)
    ensures Unfuzzed([], fuzzed) == 0
    ensures q != null ==> Unfuzzed(s + [q], fuzzed) == Unfuzzed(s, fuzzed) + if q in fuzzed then 0 else 1
  {
    if q != null {
      assert (s + [q])[..|s|] == s;
    }
  }

  lemma ElementsLast(s: seq<QueueEntry>)
    requires |s| > 0 && Distinct(s)
    ensures Elements(s) == Elements(s[..|s| - 1]) + {s[|s| - 1]} && s[|s| - 1] !in Elements(s[..|s| - 1])
  {
    var n := |s| - 1;
    assert s == s[..n] + [s[n]];
  }

  lemma {:induction false} DistinctSizes(s: seq<QueueEntry>, fuzzed: set<QueueEntry>)
    requires Distinct(s)
    ensures |s| == |Elements(s)|
    ensures Unfuzzed(s, fuzzed) == |Elements(s) - fuzzed|
  {
    if |s| > 0 {
      var n := |s| - 1;
      DistinctSizes(s[..n], fuzzed);
      ElementsLast(s);
      hide Elements, Distinct;
      OneMoreElement(Elements(s[..n]), s[n], fuzzed);
    }
  }

  /** A count of pending entries: exact unless an entry was picked twice, and never too low. */
  ghost predicate Counts(n: nat, chosen: seq<QueueEntry>, pending: set<QueueEntry>) {
    |pending| <= n && (Distinct(chosen) ==> n == |pending|)
  }

  lemma OneLess(n: nat, chosen: seq<QueueEntry>, pending: set<QueueEntry>, q: QueueEntry)
    requires Counts(n, chosen, pending) && q in pending
    ensures n > 0 && Counts(n - 1, chosen, pending - {q})
  {
    hide Distinct;
    assert |pending - {q}| == |pending| - 1;
  }

  lemma PicksNext(top: Winners, minis: map<QueueEntry, set<nat>>, i: nat, uncovered: set<nat>)
    requires i < |top|
    ensures Picks(top, minis, i, uncovered) ==
            if top[i] != null && i in uncovered then [top[i]] + Picks(top, minis, i + 1, uncovered - TraceOf(minis, top[i]))
            else Picks(top, minis, i + 1, uncovered)
  {
  }

  lemma Regrouped(s: seq<QueueEntry>, q: QueueEntry, rest: seq<QueueEntry>)
    ensures s + ([q] + rest) == (s + [q]) + rest
    ensures forall p :: p in s + [q] <==> p in s || p == q
  {
  }

  lemma PicksEnd(top: Winners, minis: map<QueueEntry, set<nat>>, uncovered: set<nat>)
    ensures Picks(top, minis, |top|, uncovered) == []
  {
  }

  /** No trace but that of `q` is new or changed. */
  ghost predicate MinisKept(before: map<QueueEntry, set<nat>>, after: map<QueueEntry, set<nat>>, q: QueueEntry) {
    forall p :: p in after && p != q ==> p in before && after[p] == before[p]
  }

  lemma MinisKeptSelf(a: map<QueueEntry, set<nat>>, q: QueueEntry)
    ensures MinisKept(a, a, q)
  {
  }

  lemma MinisKeptTwice(a: map<QueueEntry, set<nat>>, b: map<QueueEntry, set<nat>>, c: map<QueueEntry, set<nat>>, q: QueueEntry)
    requires MinisKept(a, b, q) && MinisKept(b, c, q)
    ensures MinisKept(a, c, q)
  {
  }

  // ----- the queue -----

  class Queue {
    var queue: seq<QueueEntry>
    var topRated: seq<QueueEntry?>
    var scoreChanged: bool
    var queuedFavored: nat
    var pendingFavored: nat
    ghost var chosen: seq<QueueEntry>   // the entries picked by the last cull, in order

    constructor (mapSize: nat)
      ensures Consistent() && queue == [] && |topRated| == mapSize
      ensures forall i :: 0 <= i < mapSize ==> topRated[i] == null
      ensures Covered(topRated, Minis())
    {
      queue, topRated, chosen := [], seq(mapSize, _ => null), [];
      scoreChanged, queuedFavored, pendingFavored := false, 0, 0;
      new;
      PicksOfNone(topRated, Minis(), 0, Indices(|topRated|));
    }

    /** Reference counts are right, and exactly the entries with a slot keep a trace. */
    ghost predicate Valid()
      reads this`queue, this`topRated, queue`tcRef, queue`traceMini
    {
      && (forall i, j :: 0 <= i < j < |queue| ==> queue[i] != queue[j])
      && (forall i :: 0 <= i < |topRated| && topRated[i] != null ==> topRated[i] in queue)
      && (forall q <- queue :: q.tcRef == Count(topRated, q) && (q.traceMini.Some? <==> q.tcRef > 0))
    }

    /** The favored entries nobody has fuzzed yet. */
    ghost function Pending(): set<QueueEntry>
      reads this`queue, queue`favored, queue`wasFuzzed
    {
      set q <- queue | q.favored && !q.wasFuzzed
    }

    /** Flags and counters are those of the last choice. */
    ghost predicate Marked()
      reads this`queue, this`chosen, this`queuedFavored, this`pendingFavored, queue`favored, queue`wasFuzzed
    {
      && (forall q <- chosen :: q in queue)
      && (forall q <- queue :: q.favored <==> q in chosen)
      && queuedFavored == |chosen| && Counts(pendingFavored, chosen, Pending())
    }

    /** The choice a cull would make now. */
    ghost function Choice(): seq<QueueEntry>
      reads this`queue, this`topRated, queue`traceMini
    {
      Picks(topRated, Minis(), 0, Indices(|topRated|))
    }

    /** What holds between any two operations: unless a score has changed since, the last choice
        is the one a cull would make now. */
    ghost predicate Consistent()
      reads this`queue, this`topRated, this`scoreChanged, this`queuedFavored, this`pendingFavored, this`chosen
      reads queue`tcRef, queue`traceMini, queue`favored, queue`wasFuzzed
    {
      Valid() && Marked() && (!scoreChanged ==> chosen == Choice())
    }

    ghost function Factors(): map<QueueEntry, nat>
      reads this`queue, queue`execUs, queue`len
    {
      map q <- queue :: q.FavFactor()
    }

    ghost function Minis(): map<QueueEntry, set<nat>>
      reads this`queue, queue`traceMini
    {
      map q <- queue | q.traceMini.Some? :: q.traceMini.value
    }

    ghost function Fuzzed(): set<QueueEntry>
      reads this`queue, queue`wasFuzzed
    {
      set q <- queue | q.wasFuzzed
    }

    method Add(q: QueueEntry)
      requires Consistent() && q !in queue && q.tcRef == 0 && q.traceMini == None && !q.favored
      modifies this`queue
      ensures Consistent() && queue == old(queue) + [q] && Minis() == old(Minis())
    {
      hide Count;
      queue := queue + [q];
      CountZero(topRated, q);
      assert Minis() == old(Minis()) && Pending() == old(Pending());
    }

    /** A round of fuzzing `q` has ended; `skip` when it was broken off or never calibrated. */
    method MarkFuzzed(q: QueueEntry, skip: bool)
      requires Consistent() && q in queue
      modifies this`pendingFavored, q`wasFuzzed
      ensures Consistent() && Minis() == old(Minis()) && q.wasFuzzed == (!skip || old(q.wasFuzzed))
    {
      hide Valid, Choice, Counts, Minis;
      if !skip && !q.wasFuzzed {
        ghost var before := Pending();
        q.wasFuzzed := true;
        if q.favored {
          assert Pending() == before - {q};
          OneLess(pendingFavored, chosen, before, q);
          pendingFavored := pendingFavored - 1;
        } else {
          assert Pending() == before;
        }
      }
    }

    /** Calibration measures the speed, trimming the length. */
    method Measure(q: QueueEntry, execUs: nat, len: nat)
      requires Consistent() && q in queue
      modifies q`execUs, q`len
      ensures Consistent() && Minis() == old(Minis()) && q.execUs == execUs && q.len == len
    {
      hide Valid, Choice, Marked, Minis;
      q.execUs, q.len := execUs, len;
    }

    /** The holder of slot `i` loses a reference, and its trace with the last one. */
    method ReleaseSlot(i: nat)
      requires Valid() && i < |topRated| && topRated[i] != null
      modifies queue`tcRef, queue`traceMini
      ensures forall p <- queue :: p.tcRef == old(p.tcRef) - if topRated[i] == p then 1 else 0
      ensures forall p <- queue :: p.traceMini == if p.tcRef == 0 then None else old(p.traceMini)
    {
      CountPositive(topRated, i);
      var w := topRated[i];
      w.tcRef := w.tcRef - 1;
      if w.tcRef == 0 {
        w.traceMini := None;
      }
    }

    method ClaimSlot(q: QueueEntry, i: nat, trace: set<nat>)
      requires q in queue && i < |topRated|
      modifies this`topRated, this`scoreChanged, q`tcRef, q`traceMini
      ensures topRated == old(topRated)[i := q] && scoreChanged
      ensures q.tcRef == old(q.tcRef) + 1
      ensures q.traceMini == if old(q.traceMini) == None then Some(trace) else old(q.traceMini)
    {
      topRated := topRated[i := q];
      q.tcRef := q.tcRef + 1;
      if q.traceMini == None {
        q.traceMini := Some(trace);
      }
      scoreChanged := true;
    }

    twostate lemma OtherTraces(q: QueueEntry)
      requires queue == old(queue) && forall p <- queue :: p != q ==> p.traceMini == None || p.traceMini == old(p.traceMini)
      ensures MinisKept(old(Minis()), Minis(), q)
    {
    }

    /** Slot `i` goes to `q`. */
    method TakeSlot(q: QueueEntry, i: nat, trace: set<nat>)
      requires Valid() && q in queue && i < |topRated|
      modifies this`topRated, this`scoreChanged, queue`tcRef, queue`traceMini
      ensures Valid() && topRated == old(topRated)[i := q] && scoreChanged && q.tcRef == Count(topRated, q)
      ensures MinisKept(old(Minis()), Minis(), q)
      ensures q.traceMini == if old(q.tcRef) == 0 || (old(q.tcRef) == 1 && old(topRated)[i] == q) then Some(trace) else old(q.traceMini)
    {
      hide Count, Queue.Minis, MinisKept;
      ghost var top0 := topRated;
      forall p <- queue
        ensures Count(top0[i := q], p) == Count(top0, p) - (if top0[i] == p then 1 else 0) + (if q == p then 1 else 0)
      {
        CountUpdate(top0, i, q, p);
      }
      if topRated[i] != null {
        ReleaseSlot(i);
      }
      assert forall p <- queue :: p.tcRef == Count(top0, p) - if top0[i] == p then 1 else 0;
      assert forall p <- queue :: p.traceMini.Some? <==> p.tcRef > 0;
      ClaimSlot(q, i, trace);
      assert forall p <- queue :: p.tcRef == Count(topRated, p);
      OtherTraces(q);
    }

    /** The scoring of one run of `q`, whose trace hit the bytes of `trace`. */
    method UpdateBitmapScore(q: QueueEntry, trace: set<nat>)
      requires Consistent() && q in queue
      modifies this`topRated, this`scoreChanged, queue`tcRef, queue`traceMini
      ensures Consistent() && Scored(old(topRated), topRated, old(Factors()), trace, q, |topRated|)
      ensures MinisKept(old(Minis()), Minis(), q)
      ensures q.traceMini == if TakesNewTrace(old(topRated), old(Factors()), trace, q, |topRated|) then Some(trace) else old(q.traceMini)
      ensures scoreChanged <==> old(scoreChanged) || WinsAny(old(topRated), old(Factors()), trace, q, |topRated|)
      ensures Covered(old(topRated), old(Minis())) ==>
                (Covered(topRated, Minis()) <==> KeepsCover(old(topRated), old(Factors()), trace, q, old(Minis())))
      ensures Covered(old(topRated), old(Minis())) && (old(q.traceMini) == None || old(q.traceMini) == Some(trace)) ==>
                Covered(topRated, Minis())
    {
      hide Count, Scored, TakesNewTrace, Wins, Covered, KeepsCover, Valid, Marked, Choice, WinsAny, Minis, Factors, MinisKept, Progress;
      FactorOf(q);
      MiniOf(q);
      ChoiceIs();
      WinsNone(topRated, Factors(), trace, q);
      MinisKeptSelf(Minis(), q);
      ghost var minis := Minis();
      ghost var top0, factors, mini0 := topRated, Factors(), q.traceMini;
      var favFactor := q.FavFactor();
      ProgressStart(top0, factors, trace, q, mini0);
      Referenced(q);
      if q.traceMini == None || q.traceMini == Some(trace) {
        SafeScoring(q, trace);
      }
      var i := 0;
      while i < |topRated|
        invariant 0 <= i <= |topRated| == |top0| && Valid()
        invariant Factors() == factors
        invariant Progress(top0, topRated, factors, trace, q, i, mini0, q.traceMini)
        invariant q.tcRef == Count(topRated, q)
        invariant MinisKept(minis, Minis(), q)
        invariant scoreChanged <==> old(scoreChanged) || WinsAny(top0, factors, trace, q, i)
        invariant !scoreChanged ==> topRated == top0 && Minis() == minis
      {
        WinsNext(top0, factors, trace, q, i);
        if topRated[i] != null {
          Holder(i);
          FactorOf(topRated[i]);
        }
        WinsNow(top0, topRated, factors, trace, q, i, mini0, q.traceMini);
        if i in trace && (topRated[i] == null || favFactor <= topRated[i].FavFactor()) {
          ProgressWin(top0, topRated, factors, trace, q, i, mini0, q.traceMini);
          ghost var before := Minis();
          TakeSlot(q, i, trace);
          MinisKeptTwice(minis, before, Minis(), q);
        } else {
          ProgressLose(top0, topRated, factors, trace, q, i, mini0, q.traceMini);
        }
        i := i + 1;
      }
      ChoiceIs();
      ProgressDone(top0, topRated, factors, trace, q, mini0, q.traceMini);
      if Covered(top0, minis) {
        EndOfScoring(top0, factors, trace, q, minis, mini0);
      }
    }

    lemma EndOfScoring(top0: Winners, factors: map<QueueEntry, nat>, trace: set<nat>, q: QueueEntry,
                       minis: map<QueueEntry, set<nat>>, mini0: Option<set<nat>>)
      requires Valid() && q in queue && Progress(top0, topRated, factors, trace, q, |topRated|, mini0, q.traceMini)
      requires Covered(top0, minis) && MinisKept(minis, Minis(), q)
      requires if mini0.Some? then q in minis && minis[q] == mini0.value else q !in minis
      ensures Covered(topRated, Minis()) <==> KeepsCover(top0, factors, trace, q, minis)
    {
      hide Valid, TakesNewTrace, Wins, Covered, KeepsCover, Minis, Scored;
      MiniOf(q);
      forall k | 0 <= k < |topRated| && topRated[k] != null
        ensures topRated[k] in Minis()
      {
        Holder(k);
      }
      CoverAfterScoring(top0, topRated, factors, trace, q, minis, Minis());
    }

    /** While no product overflows, a slot of the trace goes to the entry scored when its speed times size
        is no greater than that of the holder, or there is none; all other slots stay. */
    lemma BestHolders(top0: Winners, trace: set<nat>, q: QueueEntry)
      requires Valid() && q in queue && Scored(top0, topRated, Factors(), trace, q, |topRated|)
      requires forall i :: 0 <= i < |top0| && top0[i] != null ==> top0[i] in queue
      requires forall p <- queue :: p.execUs * p.len < 0x1_0000_0000_0000_0000
      ensures |topRated| == |top0|
      ensures forall i :: 0 <= i < |topRated| ==>
                topRated[i] == if i in trace && (top0[i] == null || q.execUs * q.len <= top0[i].execUs * top0[i].len) then q else top0[i]
    {
      hide Valid;
      forall p <- queue
        ensures p in Factors() && Factors()[p] == p.execUs * p.len
      {
        FactorOf(p);
        NoOverflow(p.execUs * p.len);
      }
      hide Factors;
    }

    static lemma NoOverflow(x: nat)
      requires x < 0x1_0000_0000_0000_0000
      ensures x % 0x1_0000_0000_0000_0000 == x
    {
    }

    lemma FactorOf(p: QueueEntry)
      requires p in queue
      ensures p in Factors() && Factors()[p] == p.FavFactor()
    {
    }

    lemma MiniOf(p: QueueEntry)
      requires p in queue
      ensures if p.traceMini.Some? then p in Minis() && Minis()[p] == p.traceMini.value else p !in Minis()
    {
    }

    lemma ChoiceIs()
      ensures Choice() == Picks(topRated, Minis(), 0, Indices(|topRated|))
    {
    }

    method ResetFavored()
      requires Valid()
      modifies queue`favored
      ensures Valid() && Minis() == old(Minis()) && Fuzzed() == old(Fuzzed())
      ensures forall q <- queue :: !q.favored
    {
      forall q <- queue {
        q.favored := false;
      }
    }

    /** Picks the holder of a byte not covered yet. */
    method Favor(q: QueueEntry)
      requires Valid() && q in queue
      modifies this`queuedFavored, this`pendingFavored, q`favored
      ensures Valid() && Minis() == old(Minis()) && Fuzzed() == old(Fuzzed()) && q.favored
      ensures queuedFavored == old(queuedFavored) + 1
      ensures pendingFavored == old(pendingFavored) + if q in Fuzzed() then 0 else 1
    {
      hide Valid, Minis;
      q.favored := true;
      queuedFavored := queuedFavored + 1;
      if !q.wasFuzzed {
        pendingFavored := pendingFavored + 1;
      }
    }

    lemma SafeScoring(q: QueueEntry, trace: set<nat>)
      requires Valid() && q in queue && (q.traceMini == None || q.traceMini == Some(trace))
      ensures KeepsCover(topRated, Factors(), trace, q, Minis())
    {
      hide Count, KeepsCover;
      SameTraceKeepsCover(topRated, Factors(), trace, q, Minis());
    }

    lemma Referenced(q: QueueEntry)
      requires Valid() && q in queue
      ensures q.tcRef == Count(topRated, q)
    {
    }

    lemma Holder(i: nat)
      requires Valid() && i < |topRated| && topRated[i] != null
      ensures topRated[i] in Minis()
      ensures topRated[i] in queue && topRated[i].traceMini.Some?
      ensures topRated[i].traceMini.value == TraceOf(Minis(), topRated[i])
    {
      CountPositive(topRated, i);
    }

    /** The sweep over the bytes. */
    method ChooseFavored()
      requires Valid() && !scoreChanged && forall q <- queue :: !q.favored
      modifies this`queuedFavored, this`pendingFavored, this`chosen, queue`favored
      ensures Consistent() && Minis() == old(Minis()) && Fuzzed() == old(Fuzzed())
    {
      hide Valid, Minis, Fuzzed, Picks, Choice, Marked, TraceOf, Unfuzzed;
      ChoiceIs();
      var tempV := Indices(|topRated|);
      queuedFavored, pendingFavored := 0, 0;
      ghost var minis, fuzzed := Minis(), Fuzzed();
      ghost var all := Picks(topRated, minis, 0, tempV);
      chosen := [];
      UnfuzzedNext([], null, fuzzed);
      var i := 0;
      while i < |topRated|
        invariant 0 <= i <= |topRated|
        invariant Valid() && Minis() == minis && Fuzzed() == fuzzed
        invariant chosen + Picks(topRated, minis, i, tempV) == all
        invariant queuedFavored == |chosen| && pendingFavored == Unfuzzed(chosen, fuzzed)
        invariant forall q <- queue :: q.favored <==> q in chosen
      {
        PicksNext(topRated, minis, i, tempV);
        if topRated[i] != null && i in tempV {
          Holder(i);
          tempV := tempV - topRated[i].traceMini.value;
          Favor(topRated[i]);
          UnfuzzedNext(chosen, topRated[i], fuzzed);
          Regrouped(chosen, topRated[i], Picks(topRated, minis, i + 1, tempV));
          chosen := chosen + [topRated[i]];
        }
        i := i + 1;
      }
      PicksEnd(topRated, minis, tempV);
      ChoiceMarked();
    }

    lemma ChoiceMarked()
      requires Valid() && chosen == Choice() && forall q <- queue :: q.favored <==> q in chosen
      requires queuedFavored == |chosen| && pendingFavored == Unfuzzed(chosen, Fuzzed())
      ensures Marked()
    {
      hide Count, Picks, Unfuzzed, Distinct;
      forall q <- chosen
        ensures q in queue
      {
        var k :| 0 <= k < |topRated| && topRated[k] == q;
      }
      assert Elements(chosen) - Fuzzed() == Pending();
      AtLeastDistinct(chosen, Fuzzed());
      if Distinct(chosen) {
        DistinctSizes(chosen, Fuzzed());
      }
    }

    /** The favored entries, chosen again if a score has changed.  Afterwards, whichever branch was
        taken: while the stored traces are right, every rated byte is hit by a favored entry, and
        the counters count the favored entries and those not fuzzed yet. */
    method CullQueue(dumbMode: bool)
      requires Consistent()
      modifies this`scoreChanged, this`queuedFavored, this`pendingFavored, this`chosen, queue`favored
      ensures Consistent() && Minis() == old(Minis()) && Fuzzed() == old(Fuzzed())
      ensures scoreChanged == (dumbMode && old(scoreChanged))
      ensures dumbMode || !old(scoreChanged) ==> chosen == old(chosen) && pendingFavored == old(pendingFavored)
      ensures !dumbMode && Covered(topRated, Minis()) ==>
                && (forall i :: 0 <= i < |topRated| && topRated[i] != null ==>
                      exists q <- queue :: q.favored && q.traceMini.Some? && i in q.traceMini.value)
                && queuedFavored == |set q <- queue | q.favored| && pendingFavored == |Pending()|
    {
      hide Valid, Marked, Picks, Covered;
      if !dumbMode && scoreChanged {
        scoreChanged := false;
        ResetFavored();
        ChooseFavored();
      }
      if !dumbMode && Covered(topRated, Minis()) {
        FavoredCounted();
        forall i | 0 <= i < |topRated| && topRated[i] != null
          ensures exists q <- queue :: q.favored && q.traceMini.Some? && i in q.traceMini.value
        {
          FavoredCover(i);
        }
      }
    }

    /** While the stored traces are right, some favored entry hits each rated byte. */
    lemma FavoredCover(i: nat)
      requires Consistent() && !scoreChanged && Covered(topRated, Minis())
      requires i < |topRated| && topRated[i] != null
      ensures exists q <- queue :: q.favored && q.traceMini.Some? && i in q.traceMini.value
    {
      hide Count;
      var minis := Minis();
      var all := Indices(|topRated|);
      PicksCover(topRated, minis, 0, all, i);
      var q :| q in Picks(topRated, minis, 0, all) && i in TraceOf(minis, q);
      assert q in queue && q.favored;
    }

    /** Then the two counters count the favored entries, and those not fuzzed yet. */
    lemma FavoredCounted()
      requires Consistent() && !scoreChanged && Covered(topRated, Minis())
      ensures queuedFavored == |set q <- queue | q.favored|
      ensures pendingFavored == |Pending()|
    {
      hide Count, Picks, Unfuzzed, Distinct;
      PicksDistinct(topRated, Minis(), 0, Indices(|topRated|));
      DistinctSizes(chosen, {});
      assert Elements(chosen) == set q <- queue | q.favored;
    }
  }

  lemma {:induction false} AtLeastDistinct(s: seq<QueueEntry>, fuzzed: set<QueueEntry>)
    ensures |Elements(s) - fuzzed| <= Unfuzzed(s, fuzzed)
  {
    if |s| > 0 {
      var n := |s| - 1;
      AtLeastDistinct(s[..n], fuzzed);
      assert s == s[..n] + [s[n]];
      assert Elements(s) == Elements(s[..n]) + {s[n]};
      hide Elements;
      OneMoreElement(Elements(s[..n]), s[n], fuzzed);
    }
  }

  lemma OneMoreElement(e: set<QueueEntry>, q: QueueEntry, fuzzed: set<QueueEntry>)
    ensures q in fuzzed ==> e + {q} - fuzzed == e - fuzzed
    ensures q !in fuzzed ==> e + {q} - fuzzed == (e - fuzzed) + {q}
    ensures |e + {q} - fuzzed| <= |e - fuzzed| + if q in fuzzed then 0 else 1
    ensures q !in e ==> |e + {q} - fuzzed| == |e - fuzzed| + (if q in fuzzed then 0 else 1) && |e + {q}| == |e| + 1
  {
    if q in fuzzed {
      assert e + {q} - fuzzed == e - fuzzed;
    } else {
      assert e + {q} - fuzzed == (e - fuzzed) + {q};
    }
  }

  lemma {:induction false} PicksOfNone(top: Winners, minis: map<QueueEntry, set<nat>>, i: nat, uncovered: set<nat>)
    requires forall k :: 0 <= k < |top| ==> top[k] == null
    ensures Picks(top, minis, i, uncovered) == []
    decreases |top| - i
  {
    if i < |top| {
      PicksOfNone(top, minis, i + 1, uncovered);
    }
  }

  // ----- the scoring loop -----

  ghost predicate Progress(top0: Winners, now: Winners, factors: map<QueueEntry, nat>, trace: set<nat>, q: QueueEntry, i: nat,
                           mini0: Option<set<nat>>, mini: Option<set<nat>>)
  {
    && q in factors && i <= |top0| == |now| && Scored(top0, now, factors, trace, q, i)
    && mini == if TakesNewTrace(top0, factors, trace, q, i) then Some(trace) else mini0
  }

  lemma ProgressStart(top0: Winners, factors: map<QueueEntry, nat>, trace: set<nat>, q: QueueEntry, mini0: Option<set<nat>>)
    requires q in factors
    ensures Progress(top0, top0, factors, trace, q, 0, mini0, mini0)
  {
  }

  lemma ProgressDone(top0: Winners, now: Winners, factors: map<QueueEntry, nat>, trace: set<nat>, q: QueueEntry,
                     mini0: Option<set<nat>>, mini: Option<set<nat>>)
    requires Progress(top0, now, factors, trace, q, |top0|, mini0, mini)
    ensures q in factors && |now| == |top0| && Scored(top0, now, factors, trace, q, |top0|)
    ensures mini == if TakesNewTrace(top0, factors, trace, q, |top0|) then Some(trace) else mini0
  {
  }

  lemma WinsNow(top0: Winners, now: Winners, factors: map<QueueEntry, nat>, trace: set<nat>, q: QueueEntry, i: nat,
                mini0: Option<set<nat>>, mini: Option<set<nat>>)
    requires Progress(top0, now, factors, trace, q, i, mini0, mini) && i < |top0|
    ensures |now| == |top0| && now[i] == top0[i]
    ensures Wins(top0, factors, trace, factors[q], i) <==> i in trace && (now[i] == null || (now[i] in factors && factors[q] <= factors[now[i]]))
  {
  }

  lemma ProgressLose(top0: Winners, now: Winners, factors: map<QueueEntry, nat>, trace: set<nat>, q: QueueEntry, i: nat,
                     mini0: Option<set<nat>>, mini: Option<set<nat>>)
    requires Progress(top0, now, factors, trace, q, i, mini0, mini) && i < |top0|
    requires !Wins(top0, factors, trace, factors[q], i)
    ensures Progress(top0, now, factors, trace, q, i + 1, mini0, mini)
  {
    hide Wins, Count;
    if TakesNewTrace(top0, factors, trace, q, i) {
      var k :| 0 <= k < i && Wins(top0, factors, trace, factors[q], k) &&
        (forall j :: 0 <= j < k ==> !Wins(top0, factors, trace, factors[q], j)) &&
        (Count(top0, q) == 0 || (Count(top0, q) == 1 && top0[k] == q));
      assert TakesNewTrace(top0, factors, trace, q, i + 1);
    }
  }

  lemma FirstWin(top0: Winners, factors: map<QueueEntry, nat>, trace: set<nat>, q: QueueEntry, i: nat)
    requires q in factors && i < |top0| && Wins(top0, factors, trace, factors[q], i)
    requires forall j :: 0 <= j < i ==> !Wins(top0, factors, trace, factors[q], j)
    ensures TakesNewTrace(top0, factors, trace, q, i + 1) <==> Count(top0, q) == 0 || (Count(top0, q) == 1 && top0[i] == q)
    ensures !TakesNewTrace(top0, factors, trace, q, i)
  {
    hide Wins, Count;
  }

  lemma LaterWin(top0: Winners, factors: map<QueueEntry, nat>, trace: set<nat>, q: QueueEntry, i: nat, k: nat)
    requires q in factors && k < i < |top0| && Wins(top0, factors, trace, factors[q], k)
    ensures TakesNewTrace(top0, factors, trace, q, i + 1) <==> TakesNewTrace(top0, factors, trace, q, i)
  {
    hide Wins, Count;
  }

  lemma ProgressWin(top0: Winners, now: Winners, factors: map<QueueEntry, nat>, trace: set<nat>, q: QueueEntry, i: nat,
                    mini0: Option<set<nat>>, mini: Option<set<nat>>)
    requires Progress(top0, now, factors, trace, q, i, mini0, mini) && i < |top0|
    requires Wins(top0, factors, trace, factors[q], i)
    ensures Progress(top0, now[i := q], factors, trace, q, i + 1, mini0,
                     if Count(now, q) == 0 || (Count(now, q) == 1 && now[i] == q) then Some(trace) else mini)
  {
    hide Wins, Count, TakesNewTrace;
    if k :| 0 <= k < i && Wins(top0, factors, trace, factors[q], k) {
      assert now[k] == q;
      CountPositive(now, k);
      if now[i] == q {
        CountTwo(now, k, i);
      }
      LaterWin(top0, factors, trace, q, i, k);
    } else {
      assert now == top0;
      FirstWin(top0, factors, trace, q, i);
    }
  }
}
