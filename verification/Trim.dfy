/** Trimming a new queue entry: blocks are cut out as long as the trace keeps its hash. */
module Trim {
  import opened Powers
  import opened Tmin
  import opened Words

  const TRIM_MIN_BYTES := 4
  const TRIM_END_STEPS := 1024

  type Trace = seq<byte>

  datatype Fault = FaultNone | FaultTmout | FaultCrash | FaultError | FaultNoinst | FaultNobits

  /** A run of the target, and whether the fuzzer has been told to stop meanwhile. */
  datatype Run = Run(fault: Fault, stop: bool, trace: Trace) {
    predicate BreaksOff() {
      stop || fault == FaultError
    }
  }

  /** The target, the hash of its traces, and the hash the entry has to keep. */
  datatype Target = Target(run: seq<byte> -> Run, hash: Trace -> nat, execCksum: nat) {
    predicate Keeps(b: seq<byte>) {
      !run(b).BreaksOff() && hash(run(b).trace) == execCksum
    }
  }

  /** What is kept, the status of the last run, and whether the trim was broken off. */
  datatype Outcome = Outcome(kept: seq<byte>, fault: Fault, broken: bool)

  // ----- the naive trimmer -----

  /** `fault` is the status of the run before. */
  function TrimFrom(t: Target, b: seq<byte>, fault: Fault, pos: nat, removeLen: nat): (r: Outcome)
    requires removeLen > 0
    ensures |r.kept| <= |b|
    decreases |b| - pos
  {
    if pos >= |b| then Outcome(b, fault, false)
    else
      var c := Without(b, pos, removeLen);
      var run := t.run(c);
      if run.BreaksOff() then Outcome(b, run.fault, true)
      else if t.Keeps(c) then TrimFrom(t, c, run.fault, pos, removeLen)
      else TrimFrom(t, b, run.fault, pos + removeLen, removeLen)
  }

  function Smallest(len: nat): nat {
    Max(NextPower(len) / TRIM_END_STEPS, TRIM_MIN_BYTES)
  }

  /** The end condition looks at the length left by the last pass. */
  function TrimAll(t: Target, b: seq<byte>, fault: Fault, removeLen: nat): (r: Outcome)
    decreases removeLen
  {
    if removeLen < Smallest(|b|) then Outcome(b, fault, false)
    else
      var r := TrimFrom(t, b, fault, removeLen, removeLen);
      if r.broken then r else TrimAll(t, r.kept, r.fault, removeLen / 2)
  }

  function FirstSize(len: nat): nat {
    Max(NextPower(len) / TRIM_START_STEPS, TRIM_MIN_BYTES)
  }

  function Trimmed(t: Target, b: seq<byte>): Outcome {
    if |b| < 5 then Outcome(b, FaultNone, false)
    else TrimAll(t, b, FaultNone, FirstSize(|b|))
  }

  /** The trace of the first cut that is kept, in a pass from `pos` on. */
  function FirstTrace(t: Target, b: seq<byte>, pos: nat, removeLen: nat): Option<Trace>
    requires removeLen > 0
    decreases |b| - pos
  {
    if pos >= |b| then None
    else
      var c := Without(b, pos, removeLen);
      if t.run(c).BreaksOff() then None
      else if t.Keeps(c) then Some(t.run(c).trace)
      else FirstTrace(t, b, pos + removeLen, removeLen)
  }

  /** And in a whole trim; passes without a cut find the same buffer. */
  function FirstCut(t: Target, b: seq<byte>, fault: Fault, removeLen: nat): Option<Trace>
    decreases removeLen
  {
    if removeLen < Smallest(|b|) then None
    else if FirstTrace(t, b, removeLen, removeLen).Some? then FirstTrace(t, b, removeLen, removeLen)
    else
      var r := TrimFrom(t, b, fault, removeLen, removeLen);
      if r.broken then None else FirstCut(t, b, r.fault, removeLen / 2)
  }

  // ----- what is kept -----

  /** `a` is `b` with bytes left out. */
  predicate Subsequence(a: seq<byte>, b: seq<byte>) {
    |a| == 0 || (|b| > 0 && ((a[0] == b[0] && Subsequence(a[1..], b[1..])) || Subsequence(a, b[1..])))
  }

  lemma {:induction false} SubsequenceSelf(a: seq<byte>)
    ensures Subsequence(a, a)
  {
    if |a| > 0 {
      SubsequenceSelf(a[1..]);
    }
  }

  lemma {:induction false} SubsequenceTail(a: seq<byte>, b: seq<byte>)
    requires |a| > 0 && Subsequence(a, b)
    ensures Subsequence(a[1..], b)
    decreases |b|
  {
    if Subsequence(a, b[1..]) {
      SubsequenceTail(a, b[1..]);
    }
    if |a| > 1 && Subsequence(a[1..], b[1..]) {
      assert Subsequence(a[1..], b);
    }
  }

  lemma {:induction false} SubsequenceTransitive(a: seq<byte>, b: seq<byte>, c: seq<byte>)
    requires Subsequence(a, b) && Subsequence(b, c)
    ensures Subsequence(a, c)
    decreases |b| + |c|
  {
    if |a| > 0 {
      if Subsequence(b, c[1..]) {
        SubsequenceTransitive(a, b, c[1..]);
      } else if Subsequence(a, b[1..]) {
        SubsequenceTransitive(a, b[1..], c[1..]);
      } else {
        SubsequenceTransitive(a[1..], b[1..], c[1..]);
      }
    }
  }

  lemma {:induction false} SuffixSubsequence(b: seq<byte>, n: nat)
    requires n <= |b|
    ensures Subsequence(b[n..], b)
  {
    if n == 0 {
      SubsequenceSelf(b);
      assert b[0..] == b;
    } else {
      SuffixSubsequence(b[1..], n - 1);
      assert b[1..][n - 1..] == b[n..];
    }
  }

  lemma {:induction false} WithoutSubsequence(b: seq<byte>, pos: nat, len: nat)
    requires pos <= |b|
    ensures Subsequence(Without(b, pos, len), b)
    decreases pos
  {
    var c := Without(b, pos, len);
    if pos == 0 {
      SuffixSubsequence(b, Min(len, |b|));
      assert c == b[Min(len, |b|)..];
    } else {
      WithoutSubsequence(b[1..], pos - 1, len);
      assert c[1..] == Without(b[1..], pos - 1, len) && c[0] == b[0];
    }
  }

  /** Bytes left out behind the first `n` only, and the hash as it was. */
  ghost predicate Good(t: Target, kept: seq<byte>, b: seq<byte>, n: nat) {
    && Subsequence(kept, b)
    && (|b| >= n ==> |kept| >= n && kept[..n] == b[..n])
    && (t.Keeps(b) ==> t.Keeps(kept))
    && (kept == b || (|kept| < |b| && t.Keeps(kept)))
  }

  lemma GoodSelf(t: Target, b: seq<byte>, n: nat)
    ensures Good(t, b, b, n)
  {
    SubsequenceSelf(b);
  }

  lemma GoodTransitive(t: Target, a: seq<byte>, b: seq<byte>, c: seq<byte>, n: nat)
    requires Good(t, a, b, n) && Good(t, b, c, n)
    ensures Good(t, a, c, n)
  {
    SubsequenceTransitive(a, b, c);
  }

  lemma GoodCut(t: Target, b: seq<byte>, pos: nat, len: nat, n: nat)
    requires n <= pos < |b| && len > 0 && t.Keeps(Without(b, pos, len))
    ensures Good(t, Without(b, pos, len), b, n)
  {
    WithoutSubsequence(b, pos, len);
  }

  lemma {:induction false} TrimFromGood(t: Target, b: seq<byte>, fault: Fault, pos: nat, removeLen: nat, n: nat)
    requires removeLen > 0 && n <= pos
    ensures Good(t, TrimFrom(t, b, fault, pos, removeLen).kept, b, n)
    decreases |b| - pos
  {
    hide Good;
    GoodSelf(t, b, n);
    if pos < |b| {
      var c := Without(b, pos, removeLen);
      var run := t.run(c);
      if !run.BreaksOff() {
        if t.Keeps(c) {
          GoodCut(t, b, pos, removeLen, n);
          TrimFromGood(t, c, run.fault, pos, removeLen, n);
          GoodTransitive(t, TrimFrom(t, b, fault, pos, removeLen).kept, c, b, n);
        } else {
          TrimFromGood(t, b, run.fault, pos + removeLen, removeLen, n);
        }
      }
    }
  }

  lemma {:induction false} TrimAllGood(t: Target, b: seq<byte>, fault: Fault, removeLen: nat)
    ensures Good(t, TrimAll(t, b, fault, removeLen).kept, b, TRIM_MIN_BYTES)
    decreases removeLen
  {
    hide Good, TrimFrom;
    GoodSelf(t, b, TRIM_MIN_BYTES);
    if removeLen >= Smallest(|b|) {
      var r := TrimFrom(t, b, fault, removeLen, removeLen);
      TrimFromGood(t, b, fault, removeLen, removeLen, TRIM_MIN_BYTES);
      if !r.broken {
        TrimAllGood(t, r.kept, r.fault, removeLen / 2);
        GoodTransitive(t, TrimAll(t, b, fault, removeLen).kept, r.kept, b, TRIM_MIN_BYTES);
      }
    }
  }

  /** Whatever is cut, and even when the trim is broken off: what is left is the input with bytes
      left out behind its first four, at least four bytes long, and hashes as before. */
  lemma TrimmedGood(t: Target, b: seq<byte>)
    ensures Good(t, Trimmed(t, b).kept, b, TRIM_MIN_BYTES)
  {
    hide Good;
    GoodSelf(t, b, TRIM_MIN_BYTES);
    if |b| >= 5 {
      TrimAllGood(t, b, FaultNone, Max(NextPower(|b|) / TRIM_START_STEPS, TRIM_MIN_BYTES));
    }
  }

  /** A target that traces no coverage, and breaks down on inputs of four bytes. */
  const FRAGILE: Target := Target(b => Run(if |b| == 4 then FaultError else FaultNone, false, []), _ => 0, 0)

  /** On twelve bytes the first cut is made, the second breaks the trim off: eight bytes are left. */
  lemma BrokenOffShorter(b: seq<byte>)
    requires |b| == 12
    ensures var r := Trimmed(FRAGILE, b); r.broken && r.fault == FaultError && |r.kept| == 8
  {
    assert NextPower(12) == 16 by {
      assert NextPowerFrom(12, 4) == NextPowerFrom(12, 8) == NextPowerFrom(12, 16) == 16;
      assert NextPowerFrom(12, 1) == NextPowerFrom(12, 2) == NextPowerFrom(12, 4);
    }
    var c := Without(b, 4, 4);
    assert |c| == 8 && FRAGILE.Keeps(c) && |Without(c, 4, 4)| == 4;
    assert TrimFrom(FRAGILE, c, FaultNone, 4, 4) == Outcome(c, FaultError, true);
    assert TrimFrom(FRAGILE, b, FaultNone, 4, 4) == Outcome(c, FaultError, true);
  }

  // ----- a pass is short -----

  /** A pass makes no more than 1024 runs. */
  lemma FewSteps(len: nat, removeLen: nat)
    requires removeLen >= Smallest(len)
    ensures Steps(len, removeLen) <= TRIM_END_STEPS
  {
    hide NextPower, Power;
    var p := NextPower(len);
    NextPowerLeast(len);
    WholeSteps(p);
    QuotientBound(len, removeLen);
  }

  lemma QuotientBound(len: nat, d: nat)
    requires d > 0 && len <= TRIM_END_STEPS * d
    ensures len / d <= TRIM_END_STEPS
  {
    var q, r := len / d, len % d;
    assert len == q * d + r;
    var over := q - TRIM_END_STEPS;
    assert over * d == q * d - TRIM_END_STEPS * d <= 0;
    assert over >= 1 ==> over * d >= d;
  }

  lemma WholeSteps(p: nat)
    requires Power(p)
    ensures p <= TRIM_END_STEPS * Max(p / TRIM_END_STEPS, TRIM_MIN_BYTES)
  {
    hide Power;
    if p > 4096 {
      Power1024();
      var k := PowerMultiple(p, 1024);
    }
  }

  lemma Power1024()
    ensures Power(1024)
  {
    assert Power(4) && Power(16) && Power(64) && Power(256);
  }

  /** A larger power is a multiple. */
  lemma {:induction false} PowerMultiple(p: nat, m: nat) returns (k: nat)
    requires Power(p) && Power(m) && m <= p
    ensures p == k * m
    decreases p
  {
    if m == 1 {
      k := p;
    } else {
      k := PowerMultiple(p / 2, m / 2);
      assert p == 2 * (k * (m / 2)) == k * m;
    }
  }

  // ----- the program -----

  class Entry {
    const target: Target
    const inBuf: array<byte>
    var len: nat
    var disk: seq<byte>   // the file of the entry

    ghost predicate Valid()
      reads this
    {
      len <= inBuf.Length <= 0x8000_0000
    }

    ghost function Buffer(): seq<byte>
      reads this, inBuf
      requires Valid()
    {
      inBuf[..len]
    }

    /** The file the target runs on: the buffer with a gap. */
    method WriteWithGap(pos: nat, avail: nat) returns (file: seq<byte>)
      requires Valid() && pos < len && 0 < avail <= len - pos
      ensures file == Without(Buffer(), pos, avail)
    {
      file := inBuf[..pos] + inBuf[pos + avail..len];
      assert inBuf[pos + avail..len] == Buffer()[pos + avail..];
      assert inBuf[..pos] == Buffer()[..pos];
    }

    /** The tail moves down over the gap. */
    method MoveTail(pos: nat, avail: nat)
      requires Valid() && pos < len && 0 < avail <= len - pos
      modifies this`len, inBuf
      ensures Valid() && Buffer() == Without(old(Buffer()), pos, avail) && len == old(len) - avail
    {
      ghost var b := Buffer();
      forall i | pos <= i < len - avail {
        inBuf[i] := inBuf[i + avail];
      }
      len := len - avail;
      assert Buffer() == Without(b, pos, avail);
    }

    /** One step size: `runs` is the progress shown, which never passes `len / removeLen`. */
    method TrimPass(fault0: Fault, removeLen: nat) returns (fault: Fault, broken: bool, trace: Option<Trace>, runs: nat)
      requires Valid() && removeLen > 0
      modifies this`len, inBuf
      ensures Valid() && Outcome(Buffer(), fault, broken) == TrimFrom(target, old(Buffer()), fault0, removeLen, removeLen)
      ensures trace.Some? <==> Buffer() != old(Buffer())
      ensures trace.Some? ==> target.hash(trace.value) == target.execCksum
      ensures trace == FirstTrace(target, old(Buffer()), removeLen, removeLen)
      ensures !broken ==> runs <= Steps(old(len), removeLen)
    {
      hide TrimFrom, Without, OnTrack, Steps, FirstTrace;
      StartOnTrack(removeLen, len);
      ghost var b, len0 := Buffer(), len;
      var removePos := removeLen;
      trace, runs, fault, broken := None, 0, fault0, false;
      while removePos < len
        invariant Valid() && len <= len0
        invariant TrimFrom(target, Buffer(), fault, removePos, removeLen) == TrimFrom(target, b, fault0, removeLen, removeLen)
        invariant trace.Some? ==> len < len0 && target.hash(trace.value) == target.execCksum
        invariant trace.None? ==> Buffer() == b && FirstTrace(target, b, removePos, removeLen) == FirstTrace(target, b, removeLen, removeLen)
        invariant trace.Some? ==> trace == FirstTrace(target, b, removeLen, removeLen)
        invariant runs <= Steps(len0, removeLen)
        invariant removePos < len ==> OnTrack(runs, removeLen, removePos, len0, len)
        decreases len, len - removePos
      {
        TrimStep(target, Buffer(), fault, removePos, removeLen);
        TraceStep(target, b, removePos, removeLen);
        var trimAvail := Min(removeLen, len - removePos);
        var file := WriteWithGap(removePos, trimAvail);
        SameCut(Buffer(), removePos, removeLen);
        var run := target.run(file);
        fault := run.fault;
        if run.BreaksOff() {
          broken := true;
          return;
        }
        OneMore(runs, removeLen, len0, removePos, len);
        if target.hash(run.trace) == target.execCksum {
          MoveTail(removePos, trimAvail);
          if trace == None {
            trace := Some(run.trace);
          }
        } else {
          removePos := removePos + removeLen;
        }
        runs := runs + 1;
      }
      TrimEnd(target, Buffer(), fault, removePos, removeLen);
      TraceStep(target, b, removePos, removeLen);
    }

    /** The status of the last run is returned; `rescored` is the trace given to the scoring of
        the entry. */
    method TrimCase() returns (fault: Fault, ghost broken: bool, rescored: Option<Trace>)
      requires Valid() && disk == Buffer()
      modifies this, inBuf
      ensures Valid() && Outcome(Buffer(), fault, broken) == Trimmed(target, old(Buffer()))
      ensures disk == (if broken then old(disk) else Buffer())
      ensures disk == Buffer() <==> !broken || Buffer() == old(Buffer())
      ensures rescored.Some? <==> !broken && Buffer() != old(Buffer())
      ensures rescored.Some? ==> target.hash(rescored.value) == target.execCksum
      ensures rescored.Some? ==> rescored == FirstCut(target, old(Buffer()), FaultNone, FirstSize(old(len)))
    {
      rescored, fault, broken := None, FaultNone, false;
      if len < 5 {
        return;
      }
      ghost var b, len0 := Buffer(), len;
      var lenP2 := NextP2(len);
      var removeLen: nat := Max(lenP2 / TRIM_START_STEPS, TRIM_MIN_BYTES);
      var clean: Option<Trace> := None;
      hide TrimFrom, FirstTrace;
      while removeLen >= Max(lenP2 / TRIM_END_STEPS, TRIM_MIN_BYTES)
        invariant Valid() && lenP2 == NextPower(len) && disk == b
        invariant TrimAll(target, Buffer(), fault, removeLen) == Trimmed(target, b)
        invariant clean.Some? <==> Buffer() != b
        invariant clean.None? ==> FirstCut(target, b, fault, removeLen) == FirstCut(target, b, FaultNone, FirstSize(len0))
        invariant clean.Some? ==> clean == FirstCut(target, b, FaultNone, FirstSize(len0))
        invariant clean.Some? ==> len < len0 && target.hash(clean.value) == target.execCksum
        decreases removeLen
      {
        ghost var before := Buffer();
        TrimFromGood(target, before, fault, removeLen, removeLen, 0);
        var stop, trace, runs;
        fault, stop, trace, runs := TrimPass(fault, removeLen);
        if stop {
          broken := true;
          return;
        }
        FewSteps(|before|, removeLen);
        assert runs <= TRIM_END_STEPS;
        if clean == None {
          clean := trace;
        }
        lenP2 := NextP2(len);
        removeLen := removeLen / 2;
      }
      if clean.Some? {
        disk := inBuf[..len];
        rescored := clean;
      }
    }
  }

  /** The last block may be short. */
  lemma SameCut(b: seq<byte>, pos: nat, removeLen: nat)
    requires pos < |b| && removeLen > 0
    ensures Without(b, pos, Min(removeLen, |b| - pos)) == Without(b, pos, removeLen)
  {
  }

  /** The number of steps shown for a pass. */
  function Steps(len: nat, removeLen: nat): nat
    requires removeLen > 0
  {
    len / removeLen
  }

  /** Every run moved on by a step or took one off the length. */
  ghost predicate OnTrack(runs: nat, removeLen: nat, removePos: nat, len0: nat, len: nat) {
    runs * removeLen == (removePos - removeLen) + (len0 - len)
  }

  lemma StartOnTrack(removeLen: nat, len: nat)
    ensures OnTrack(0, removeLen, removeLen, len, len)
  {
  }

  lemma TrimStep(t: Target, b: seq<byte>, fault: Fault, pos: nat, removeLen: nat)
    requires removeLen > 0 && pos < |b|
    ensures var c := Without(b, pos, removeLen);
            var run := t.run(c);
            TrimFrom(t, b, fault, pos, removeLen) ==
            if run.BreaksOff() then Outcome(b, run.fault, true)
            else if t.Keeps(c) then TrimFrom(t, c, run.fault, pos, removeLen)
            else TrimFrom(t, b, run.fault, pos + removeLen, removeLen)
  {
  }

  lemma TraceStep(t: Target, b: seq<byte>, pos: nat, removeLen: nat)
    requires removeLen > 0
    ensures pos >= |b| ==> FirstTrace(t, b, pos, removeLen) == None
    ensures pos < |b| ==>
              var c := Without(b, pos, removeLen);
              FirstTrace(t, b, pos, removeLen) ==
              if t.run(c).BreaksOff() then None
              else if t.Keeps(c) then Some(t.run(c).trace)
              else FirstTrace(t, b, pos + removeLen, removeLen)
  {
  }

  lemma TrimEnd(t: Target, b: seq<byte>, fault: Fault, pos: nat, removeLen: nat)
    requires removeLen > 0 && pos >= |b|
    ensures TrimFrom(t, b, fault, pos, removeLen) == Outcome(b, fault, false)
  {
  }

  lemma OneMore(runs: nat, removeLen: nat, len0: nat, removePos: nat, len: nat)
    requires removeLen > 0 && removePos < len <= len0 && OnTrack(runs, removeLen, removePos, len0, len)
    ensures runs + 1 <= Steps(len0, removeLen)
    ensures OnTrack(runs + 1, removeLen, removePos + removeLen, len0, len)
    ensures len - removePos >= removeLen ==> OnTrack(runs + 1, removeLen, removePos, len0, len - removeLen)
  {
    assert (runs + 1) * removeLen == runs * removeLen + removeLen;
    var q, r := len0 / removeLen, len0 % removeLen;
    assert len0 == q * removeLen + r;
    assert runs + 1 > q ==> (runs + 1 - q) * removeLen >= removeLen;
    assert (runs + 1 - q) * removeLen == (runs + 1) * removeLen - q * removeLen;
  }
}
