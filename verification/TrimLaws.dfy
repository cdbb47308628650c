/** What each pass of the trimmer tries and leaves, and that no step size is left out. */
module TrimLaws {
  import opened Powers
  import opened StageLaws
  import opened Tmin
  import opened Trim
  import opened Words

  // ----- what is tried -----

  function KeepsOf(t: Target): Oracle {
    (b: seq<byte>) => t.Keeps(b)
  }

  /** One pass over `b`.  The first block stays, each later one exactly where the target does not keep
      its hash without it; the pass ends behind the last block, or where a run breaks it off. */
  ghost predicate PassDone(t: Target, b: seq<byte>, removeLen: nat, keep: seq<bool>, fault: Fault, r: Outcome) {
    && |keep| > 0 && Decided(KeepsOf(t), b, removeLen, keep, 1)
    && r.kept == Kept(b, removeLen, keep) + Rest(b, removeLen, |keep|)
    && if r.broken then Start(|keep|, removeLen) < |b| && BrokenAt(t, b, removeLen, keep, r.fault)
       else Start(|keep|, removeLen) >= |b| && LastRun(t, b, removeLen, keep, fault, r.fault)
  }

  ghost predicate BrokenAt(t: Target, b: seq<byte>, removeLen: nat, keep: seq<bool>, fault: Fault)
    requires Start(|keep|, removeLen) < |b|
  {
    var run := t.run(Kept(b, removeLen, keep) + b[Min(Start(|keep|, removeLen) + removeLen, |b|)..]);
    run.BreaksOff() && run.fault == fault
  }

  /** `fault` is the status of the run for the last block, or that of before when there was none. */
  ghost predicate LastRun(t: Target, b: seq<byte>, removeLen: nat, keep: seq<bool>, before: Fault, fault: Fault)
    requires |keep| > 0 && Decided(KeepsOf(t), b, removeLen, keep, 1)
  {
    fault == if |keep| == 1 then before else t.run(DeleteCandidate(b, removeLen, keep, |keep| - 1)).fault
  }

  lemma {:induction false} TrimUnfold(t: Target, c: seq<byte>, fault: Fault, pos: nat, removeLen: nat)
    requires removeLen > 0 && pos < |c|
    ensures var d := Without(c, pos, removeLen);
            TrimFrom(t, c, fault, pos, removeLen) ==
            if t.run(d).BreaksOff() then Outcome(c, t.run(d).fault, true)
            else if t.Keeps(d) then TrimFrom(t, d, t.run(d).fault, pos, removeLen)
            else TrimFrom(t, c, t.run(d).fault, pos + removeLen, removeLen)
  {
  }

  lemma {:induction false} TrimShort(t: Target, c: seq<byte>, fault: Fault, pos: nat, pos': nat, removeLen: nat)
    requires removeLen > 0 && pos <= pos' && (pos == pos' || pos >= |c|)
    ensures TrimFrom(t, c, fault, pos, removeLen) == TrimFrom(t, c, fault, pos', removeLen)
  {
  }

  /** One turn of the pass. */
  lemma {:induction false} TrimTurn(t: Target, b: seq<byte>, removeLen: nat, keep: seq<bool>, fault: Fault)
    requires removeLen > 0 && Start(|keep|, removeLen) < |b|
    ensures var front := Kept(b, removeLen, keep);
            var d := front + b[Min(Start(|keep|, removeLen) + removeLen, |b|)..];
            var keep' := keep + [!t.Keeps(d)];
            TrimFrom(t, front + Rest(b, removeLen, |keep|), fault, |front|, removeLen) ==
            if t.run(d).BreaksOff() then Outcome(front + Rest(b, removeLen, |keep|), t.run(d).fault, true)
            else TrimFrom(t, Kept(b, removeLen, keep') + Rest(b, removeLen, |keep'|), t.run(d).fault, |Kept(b, removeLen, keep')|, removeLen)
  {
    hide Start, Kept, Rest, Without, TrimFrom, Target.Keeps, Run.BreaksOff;
    var front := Kept(b, removeLen, keep);
    var d := front + b[Min(Start(|keep|, removeLen) + removeLen, |b|)..];
    var c := front + Rest(b, removeLen, |keep|);
    BlockTurn(b, removeLen, keep, !t.Keeps(d));
    TrimUnfold(t, c, fault, |front|, removeLen);
    if !t.Keeps(d) {
      TrimShort(t, c, t.run(d).fault, |Kept(b, removeLen, keep + [true])|, |front| + removeLen, removeLen);
    }
  }

  lemma {:induction false} TrimLaw(t: Target, b: seq<byte>, removeLen: nat, keep: seq<bool>, before: Fault, fault: Fault)
    returns (all: seq<bool>)
    requires |keep| > 0 && Decided(KeepsOf(t), b, removeLen, keep, 1) && LastRun(t, b, removeLen, keep, before, fault)
    ensures removeLen > 0
    ensures var front := Kept(b, removeLen, keep);
            PassDone(t, b, removeLen, all, before, TrimFrom(t, front + Rest(b, removeLen, |keep|), fault, |front|, removeLen))
    decreases |b| - Start(|keep|, removeLen)
  {
    hide Decided, Kept, Rest, TrimFrom, LastRun, PassDone, Start, Target.Keeps;
    var k := |keep|;
    if Start(k, removeLen) >= |b| {
      all := keep;
      LawEnds(t, b, removeLen, keep, before, fault);
    } else {
      var d := Kept(b, removeLen, keep) + b[Min(Start(k, removeLen) + removeLen, |b|)..];
      Positive(t, b, removeLen, keep);
      TrimTurn(t, b, removeLen, keep, fault);
      if t.run(d).BreaksOff() {
        all := keep;
        LawBreaks(t, b, removeLen, keep, before);
      } else {
        NextDecided(t, b, removeLen, keep, before, d);
        StartNext(k, removeLen);
        all := TrimLaw(t, b, removeLen, keep + [!t.Keeps(d)], before, t.run(d).fault);
      }
    }
  }

  lemma {:induction false} Positive(t: Target, b: seq<byte>, removeLen: nat, keep: seq<bool>)
    requires Decided(KeepsOf(t), b, removeLen, keep, 1)
    ensures removeLen > 0
  {
  }

  lemma {:induction false} StartNext(k: nat, len: nat)
    ensures Start(k + 1, len) == Start(k, len) + len
  {
  }

  lemma {:induction false} LawEnds(t: Target, b: seq<byte>, removeLen: nat, keep: seq<bool>, before: Fault, fault: Fault)
    requires |keep| > 0 && Decided(KeepsOf(t), b, removeLen, keep, 1) && LastRun(t, b, removeLen, keep, before, fault)
    requires Start(|keep|, removeLen) >= |b|
    ensures removeLen > 0
    ensures var front := Kept(b, removeLen, keep);
            PassDone(t, b, removeLen, keep, before, TrimFrom(t, front + Rest(b, removeLen, |keep|), fault, |front|, removeLen))
  {
    Positive(t, b, removeLen, keep);
    hide Decided, Kept, LastRun, Start;
    var front := Kept(b, removeLen, keep);
    assert front + [] == front;
    assert TrimFrom(t, front, fault, |front|, removeLen) == Outcome(front, fault, false);
  }

  lemma {:induction false} LawBreaks(t: Target, b: seq<byte>, removeLen: nat, keep: seq<bool>, before: Fault)
    requires |keep| > 0 && Decided(KeepsOf(t), b, removeLen, keep, 1) && Start(|keep|, removeLen) < |b|
    requires t.run(Kept(b, removeLen, keep) + b[Min(Start(|keep|, removeLen) + removeLen, |b|)..]).BreaksOff()
    ensures var run := t.run(Kept(b, removeLen, keep) + b[Min(Start(|keep|, removeLen) + removeLen, |b|)..]);
            PassDone(t, b, removeLen, keep, before, Outcome(Kept(b, removeLen, keep) + Rest(b, removeLen, |keep|), run.fault, true))
  {
    hide Decided, Kept, Rest, Start, Run.BreaksOff;
  }

  lemma {:induction false} NextDecided(t: Target, b: seq<byte>, removeLen: nat, keep: seq<bool>, before: Fault, d: seq<byte>)
    requires |keep| > 0 && Decided(KeepsOf(t), b, removeLen, keep, 1) && Start(|keep|, removeLen) < |b|
    requires d == Kept(b, removeLen, keep) + b[Min(Start(|keep|, removeLen) + removeLen, |b|)..]
    ensures var keep' := keep + [!t.Keeps(d)];
            Decided(KeepsOf(t), b, removeLen, keep', 1) && LastRun(t, b, removeLen, keep', before, t.run(d).fault)
  {
    DecidedNext(KeepsOf(t), b, removeLen, keep, 1, !t.Keeps(d));
    SameCandidate(b, removeLen, keep, !t.Keeps(d), |keep|);
    hide Decided, DeleteCandidate, Kept;
  }

  /** A pass does what the law says, whatever the target. */
  lemma {:induction false} PassIsLaw(t: Target, b: seq<byte>, fault: Fault, removeLen: nat) returns (keep: seq<bool>)
    requires |b| > 0 && removeLen > 0
    ensures PassDone(t, b, removeLen, keep, fault, TrimFrom(t, b, fault, removeLen, removeLen))
  {
    var front := Kept(b, removeLen, [true]);
    assert [true][..0] == [] && Kept(b, removeLen, []) == [];
    assert front == BlockAt(b, removeLen, 0) == b[..Min(removeLen, |b|)];
    assert Start(1, removeLen) == removeLen;
    assert front + Rest(b, removeLen, 1) == b;
    TrimShort(t, b, fault, |front|, removeLen, removeLen);
    hide TrimFrom;
    keep := TrimLaw(t, b, removeLen, [true], fault, fault);
  }

  ghost predicate PassTo(t: Target, before: Outcome, removeLen: nat, after: Outcome) {
    exists keep :: PassDone(t, before.kept, removeLen, keep, before.fault, after)
  }

  /** `k` times halved. */
  function Halved(size: nat, k: nat): nat {
    if k == 0 then size else Halved(size / 2, k - 1)
  }

  /** The passes of a trim: each has half the step of the one before, not below the smallest for the
      length it finds; the last may be broken off, and ends the trim otherwise only where the next
      step would be too small. */
  ghost predicate TrimRun(t: Target, start: nat, fault: Fault, passes: seq<Outcome>, b: seq<byte>) {
    && |passes| > 0 && passes[0] == Outcome(b, fault, false)
    && (forall k :: 0 <= k < |passes| - 1 ==>
          && !passes[k].broken && Halved(start, k) >= Smallest(|passes[k].kept|)
          && PassTo(t, passes[k], Halved(start, k), passes[k + 1]))
    && (!passes[|passes| - 1].broken ==> Halved(start, |passes| - 1) < Smallest(|passes[|passes| - 1].kept|))
  }

  lemma {:induction false} TrimAllRun(t: Target, b: seq<byte>, fault: Fault, start: nat) returns (passes: seq<Outcome>)
    requires |b| >= TRIM_MIN_BYTES
    ensures |passes| > 0 && TrimRun(t, start, fault, passes, b) && passes[|passes| - 1] == TrimAll(t, b, fault, start)
    decreases start
  {
    hide TrimRun, PassTo, TrimFrom, NextPower, PassDone;
    if start < Smallest(|b|) {
      passes := [Outcome(b, fault, false)];
      RunOne(t, start, fault, b);
    } else {
      var r := TrimFrom(t, b, fault, start, start);
      FirstPass(t, b, fault, start);
      if r.broken {
        passes := [Outcome(b, fault, false), r];
        RunBroken(t, start, fault, b, r);
      } else {
        var rest := TrimAllRun(t, r.kept, r.fault, start / 2);
        passes := [Outcome(b, fault, false)] + rest;
        RunCons(t, start, fault, rest, b, r);
      }
    }
  }

  lemma {:induction false} FirstPass(t: Target, b: seq<byte>, fault: Fault, start: nat)
    requires |b| >= TRIM_MIN_BYTES && start >= Smallest(|b|)
    ensures start > 0 && PassTo(t, Outcome(b, fault, false), start, TrimFrom(t, b, fault, start, start))
    ensures |TrimFrom(t, b, fault, start, start).kept| >= TRIM_MIN_BYTES
  {
    hide PassDone, TrimFrom, Subsequence;
    var keep := PassIsLaw(t, b, fault, start);
    TrimFromGood(t, b, fault, start, start, TRIM_MIN_BYTES);
  }

  lemma {:induction false} RunOne(t: Target, start: nat, fault: Fault, b: seq<byte>)
    requires start < Smallest(|b|)
    ensures TrimRun(t, start, fault, [Outcome(b, fault, false)], b)
  {
  }

  lemma {:induction false} RunBroken(t: Target, start: nat, fault: Fault, b: seq<byte>, r: Outcome)
    requires start >= Smallest(|b|) && PassTo(t, Outcome(b, fault, false), start, r) && r.broken
    ensures TrimRun(t, start, fault, [Outcome(b, fault, false), r], b)
  {
    hide PassTo, Smallest;
    var passes := [Outcome(b, fault, false), r];
    assert passes[0] == Outcome(b, fault, false) && passes[1] == r;
  }

  lemma {:induction false} RunCons(t: Target, start: nat, fault: Fault, rest: seq<Outcome>, b: seq<byte>, r: Outcome)
    requires start >= Smallest(|b|) && PassTo(t, Outcome(b, fault, false), start, r) && !r.broken
    requires TrimRun(t, start / 2, r.fault, rest, r.kept)
    ensures TrimRun(t, start, fault, [Outcome(b, fault, false)] + rest, b)
  {
    hide PassTo, Smallest;
    var passes := [Outcome(b, fault, false)] + rest;
    forall k | 1 <= k < |passes|
      ensures Halved(start, k) == Halved(start / 2, k - 1) && passes[k] == rest[k - 1]
    {
    }
    assert Halved(start, 0) == start && rest[0] == r;
    hide Halved;
    forall k | 0 <= k < |passes| - 1
      ensures !passes[k].broken && Halved(start, k) >= Smallest(|passes[k].kept|)
      ensures PassTo(t, passes[k], Halved(start, k), passes[k + 1])
    {
      if k > 0 {
        assert PassTo(t, rest[k - 1], Halved(start / 2, k - 1), rest[k]);
      }
    }
  }

  /** The trimmer, pass by pass, from a sixteenth of the length down. */
  lemma {:induction false} TrimmedByPasses(t: Target, b: seq<byte>) returns (passes: seq<Outcome>)
    requires |b| >= 5
    ensures TrimRun(t, Max(NextPower(|b|) / TRIM_START_STEPS, TRIM_MIN_BYTES), FaultNone, passes, b)
    ensures passes[|passes| - 1] == Trimmed(t, b)
  {
    hide TrimRun, TrimAll, NextPower;
    passes := TrimAllRun(t, b, FaultNone, Max(NextPower(|b|) / TRIM_START_STEPS, TRIM_MIN_BYTES));
  }

  /** The sizes from `start`, halved, down to `smallest`. */
  ghost predicate Tried(start: nat, smallest: nat, size: nat)
    decreases start
  {
    start >= smallest && start > 0 && (size == start || Tried(start / 2, smallest, size))
  }

  lemma {:induction false} UnchangedPass(t: Target, b: seq<byte>, fault: Fault, k: nat, removeLen: nat, j: nat)
    requires removeLen > 0 && k <= j && Start(j, removeLen) < |b|
    requires var r := TrimFrom(t, b, fault, Start(k, removeLen), removeLen); !r.broken && r.kept == b
    ensures !t.Keeps(Without(b, Start(j, removeLen), removeLen))
    decreases j - k
  {
    hide TrimFrom, Start, Without, Target.Keeps;
    StartGrows(k, j, removeLen);
    StartNext(k, removeLen);
    UnchangedTurn(t, b, fault, Start(k, removeLen), removeLen);
    if k < j {
      UnchangedPass(t, b, t.run(Without(b, Start(k, removeLen), removeLen)).fault, k + 1, removeLen, j);
    }
  }

  /** A pass that keeps everything has not kept the hash without the block it is at. */
  lemma {:induction false} UnchangedTurn(t: Target, b: seq<byte>, fault: Fault, pos: nat, removeLen: nat)
    requires removeLen > 0 && pos < |b|
    requires var r := TrimFrom(t, b, fault, pos, removeLen); !r.broken && r.kept == b
    ensures var d := Without(b, pos, removeLen);
            && !t.Keeps(d)
            && var r := TrimFrom(t, b, t.run(d).fault, pos + removeLen, removeLen); !r.broken && r.kept == b
  {
    TrimUnfold(t, b, fault, pos, removeLen);
    hide TrimFrom, Target.Keeps;
  }

  lemma {:induction false} UnchangedAll(t: Target, b: seq<byte>, fault: Fault, start: nat, size: nat, j: nat)
    requires var r := TrimAll(t, b, fault, start); !r.broken && r.kept == b
    requires Tried(start, Smallest(|b|), size) && 1 <= j && Start(j, size) < |b|
    ensures !t.Keeps(Without(b, Start(j, size), size))
    decreases start
  {
    hide Smallest, TrimFrom;
    var r := TrimFrom(t, b, fault, start, start);
    TrimAllGood(t, r.kept, r.fault, start / 2);
    assert r.kept == b by {
      TrimFromGood(t, b, fault, start, start, 0);
    }
    if size == start {
      assert Start(1, size) == size;
      UnchangedPass(t, b, fault, 1, size, j);
    } else {
      UnchangedAll(t, b, r.fault, start / 2, size, j);
    }
  }

  /** A trim that completes and cuts nothing has tried every block of every size, halved from the
      first to the smallest: without any one of them the target does not keep its hash. */
  lemma {:induction false} TrimmedExhaustive(t: Target, b: seq<byte>, size: nat, j: nat)
    requires |b| >= 5 && !Trimmed(t, b).broken && Trimmed(t, b).kept == b
    requires Tried(Max(NextPower(|b|) / TRIM_START_STEPS, TRIM_MIN_BYTES), Max(NextPower(|b|) / TRIM_END_STEPS, TRIM_MIN_BYTES), size)
    requires 1 <= j && Start(j, size) < |b|
    ensures !t.Keeps(Without(b, Start(j, size), size))
  {
    hide TrimAll, Tried, NextPower, Start;
    UnchangedAll(t, b, FaultNone, Max(NextPower(|b|) / TRIM_START_STEPS, TRIM_MIN_BYTES), size, j);
  }
}
