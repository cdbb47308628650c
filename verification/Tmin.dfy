/** The test case minimizer: block normalization, block deletion, alphabet and character
    minimization, repeated until a pass changes nothing.

    Running the target is an uninterpreted deterministic oracle on the bytes.  The functions
    below are the naive minimizer: every block is tried, nothing is skipped.  Class
    `Minimizer` is the program: one buffer edited in place, blocks that are already '0'
    skipped, blocks equal to the block just rejected skipped, absent symbols skipped. */
module Tmin {
  import opened Powers
  import opened Words

  newtype byte = x: int | 0 <= x < 256
  type Oracle = seq<byte> -> bool

  const ZERO: byte := 48
  const TMIN_SET_MIN_SIZE := 4
  const TMIN_SET_STEPS := 128
  const TRIM_START_STEPS := 16

  // ----- edits -----

  function Zeroed(b: seq<byte>, pos: nat, len: nat): (r: seq<byte>)
    requires pos + len <= |b|
    ensures |r| == |b|
  {
    b[..pos] + seq(len, _ => ZERO) + b[pos + len..]
  }

  /** `b` without the block at `pos`; the last block may be shorter than `len`. */
  function Without(b: seq<byte>, pos: nat, len: nat): (r: seq<byte>)
    requires pos <= |b|
    ensures |r| == |b| - Min(len, |b| - pos)
  {
    b[..pos] + b[Min(pos + len, |b|)..]
  }

  function Replaced(b: seq<byte>, symbol: byte): (r: seq<byte>)
    ensures |r| == |b|
    ensures forall i :: 0 <= i < |b| ==> r[i] == if b[i] == symbol then ZERO else b[i]
  {
    seq(|b|, i requires 0 <= i < |b| => if b[i] == symbol then ZERO else b[i])
  }

  // ----- the naive stages -----

  function NormalizeFrom(accepts: Oracle, b: seq<byte>, pos: nat, setLen: nat): (r: seq<byte>)
    requires setLen > 0
    ensures |r| == |b|
    decreases |b| - pos
  {
    if pos >= |b| then b
    else
      var z := Zeroed(b, pos, Min(setLen, |b| - pos));
      NormalizeFrom(accepts, if accepts(z) then z else b, pos + setLen, setLen)
  }

  function DeleteFrom(accepts: Oracle, b: seq<byte>, pos: nat, delLen: nat): (r: seq<byte>)
    requires delLen > 0
    ensures |r| <= |b|
    decreases |b| - pos
  {
    if pos >= |b| then b
    else
      var c := Without(b, pos, delLen);
      if accepts(c) then DeleteFrom(accepts, c, pos, delLen)
      else DeleteFrom(accepts, b, pos + delLen, delLen)
  }

  function DeleteAll(accepts: Oracle, b: seq<byte>, delLen: nat): (r: seq<byte>)
    requires delLen > 0
    ensures |r| <= |b|
    decreases delLen
  {
    var c := DeleteFrom(accepts, b, 0, delLen);
    if delLen > 1 && |c| >= 1 then DeleteAll(accepts, c, delLen / 2) else c
  }

  function AlphabetFrom(accepts: Oracle, b: seq<byte>, symbol: nat): (r: seq<byte>)
    requires symbol <= 256
    ensures |r| == |b|
    decreases 256 - symbol
  {
    if symbol == 256 then b
    else
      var c := Replaced(b, symbol as byte);
      AlphabetFrom(accepts, if accepts(c) then c else b, symbol + 1)
  }

  function CharactersFrom(accepts: Oracle, b: seq<byte>, i: nat): (r: seq<byte>)
    ensures |r| == |b|
    decreases |b| - i
  {
    if i >= |b| then b
    else CharactersFrom(accepts, if accepts(b[i := ZERO]) then b[i := ZERO] else b, i + 1)
  }

  function DeletionStart(len: nat): (r: nat)
    ensures r >= 1
  {
    NextPower(len / TRIM_START_STEPS)
  }

  function NormalizeStep(len: nat): (r: nat)
    ensures r >= TMIN_SET_MIN_SIZE
  {
    var p := NextPower(len / TMIN_SET_STEPS);
    if p < TMIN_SET_MIN_SIZE then TMIN_SET_MIN_SIZE else p
  }

  function NonZeros(b: seq<byte>): nat {
    if |b| == 0 then 0 else NonZeros(b[..|b| - 1]) + if b[|b| - 1] == ZERO then 0 else 1
  }

  /** All passes, starting with the one numbered `1` when `first`. */
  function Passes(accepts: Oracle, b: seq<byte>, first: bool): (r: seq<byte>)
    decreases |b|, NonZeros(b)
  {
    var d := DeleteAll(accepts, b, DeletionStart(|b|));
    if !first && d == b then b
    else
      var e := CharactersFrom(accepts, AlphabetFrom(accepts, d, 0), 0);
      ZerosDecrease(accepts, b, d);
      if e != b then Passes(accepts, e, false) else e
  }

  function Minimized(accepts: Oracle, b: seq<byte>): seq<byte> {
    Passes(accepts, NormalizeFrom(accepts, b, 0, NormalizeStep(|b|)), true)
  }

  // ----- only '0' bytes appear: the termination argument -----

  /** `r` is `b` with some bytes turned into '0'. */
  ghost predicate ZeroedIn(r: seq<byte>, b: seq<byte>) {
    |r| == |b| && forall i :: 0 <= i < |b| ==> r[i] == b[i] || r[i] == ZERO
  }

  lemma {:induction false} FewerNonZeros(r: seq<byte>, b: seq<byte>)
    requires ZeroedIn(r, b)
    ensures NonZeros(r) <= NonZeros(b)
    ensures r != b ==> NonZeros(r) < NonZeros(b)
  {
    if |b| > 0 {
      var n := |b| - 1;
      assert ZeroedIn(r[..n], b[..n]);
      FewerNonZeros(r[..n], b[..n]);
      if r[..n] == b[..n] && r[n] == b[n] {
        assert r == r[..n] + [r[n]] == b;
      }
    }
  }

  lemma {:induction false} NormalizeZeroes(accepts: Oracle, b: seq<byte>, pos: nat, setLen: nat)
    requires setLen > 0
    ensures ZeroedIn(NormalizeFrom(accepts, b, pos, setLen), b)
    decreases |b| - pos
  {
    if pos < |b| {
      var z := Zeroed(b, pos, Min(setLen, |b| - pos));
      NormalizeZeroes(accepts, if accepts(z) then z else b, pos + setLen, setLen);
    }
  }

  lemma {:induction false} AlphabetZeroes(accepts: Oracle, b: seq<byte>, symbol: nat)
    requires symbol <= 256
    ensures ZeroedIn(AlphabetFrom(accepts, b, symbol), b)
    decreases 256 - symbol
  {
    if symbol < 256 {
      var c := Replaced(b, symbol as byte);
      AlphabetZeroes(accepts, if accepts(c) then c else b, symbol + 1);
    }
  }

  lemma {:induction false} CharactersZeroes(accepts: Oracle, b: seq<byte>, i: nat)
    ensures ZeroedIn(CharactersFrom(accepts, b, i), b)
    decreases |b| - i
  {
    if i < |b| {
      CharactersZeroes(accepts, if accepts(b[i := ZERO]) then b[i := ZERO] else b, i + 1);
    }
  }

  lemma {:induction false} DeleteFromShortens(accepts: Oracle, b: seq<byte>, pos: nat, delLen: nat)
    requires delLen > 0
    ensures var r := DeleteFrom(accepts, b, pos, delLen); r != b ==> |r| < |b|
    decreases |b| - pos
  {
    if pos < |b| && !accepts(Without(b, pos, delLen)) {
      DeleteFromShortens(accepts, b, pos + delLen, delLen);
    }
  }

  lemma {:induction false} DeleteAllShortens(accepts: Oracle, b: seq<byte>, delLen: nat)
    requires delLen > 0
    ensures var r := DeleteAll(accepts, b, delLen); r != b ==> |r| < |b|
    decreases delLen
  {
    DeleteFromShortens(accepts, b, 0, delLen);
    var c := DeleteFrom(accepts, b, 0, delLen);
    if delLen > 1 && |c| >= 1 {
      DeleteAllShortens(accepts, c, delLen / 2);
    }
  }

  /** A pass that changes the buffer shortens it, or keeps its length and turns some byte
      into '0'. */
  lemma ZerosDecrease(accepts: Oracle, b: seq<byte>, d: seq<byte>)
    requires d == DeleteAll(accepts, b, DeletionStart(|b|))
    ensures var e := CharactersFrom(accepts, AlphabetFrom(accepts, d, 0), 0);
            e != b ==> |e| < |b| || (|e| == |b| && NonZeros(e) < NonZeros(b))
  {
    var a := AlphabetFrom(accepts, d, 0);
    var e := CharactersFrom(accepts, a, 0);
    DeleteAllShortens(accepts, b, DeletionStart(|b|));
    AlphabetZeroes(accepts, d, 0);
    CharactersZeroes(accepts, a, 0);
    assert ZeroedIn(e, d);
    FewerNonZeros(e, d);
  }

  // ----- every stage keeps an accepted buffer accepted -----

  lemma {:induction false} NormalizeAccepted(accepts: Oracle, b: seq<byte>, pos: nat, setLen: nat)
    requires setLen > 0 && accepts(b)
    ensures accepts(NormalizeFrom(accepts, b, pos, setLen))
    decreases |b| - pos
  {
    if pos < |b| {
      var z := Zeroed(b, pos, Min(setLen, |b| - pos));
      NormalizeAccepted(accepts, if accepts(z) then z else b, pos + setLen, setLen);
    }
  }

  lemma {:induction false} DeleteFromAccepted(accepts: Oracle, b: seq<byte>, pos: nat, delLen: nat)
    requires delLen > 0 && accepts(b)
    ensures accepts(DeleteFrom(accepts, b, pos, delLen))
    decreases |b| - pos
  {
    if pos < |b| {
      var c := Without(b, pos, delLen);
      if accepts(c) {
        DeleteFromAccepted(accepts, c, pos, delLen);
      } else {
        DeleteFromAccepted(accepts, b, pos + delLen, delLen);
      }
    }
  }

  lemma {:induction false} DeleteAllAccepted(accepts: Oracle, b: seq<byte>, delLen: nat)
    requires delLen > 0 && accepts(b)
    ensures accepts(DeleteAll(accepts, b, delLen))
    decreases delLen
  {
    DeleteFromAccepted(accepts, b, 0, delLen);
    var c := DeleteFrom(accepts, b, 0, delLen);
    if delLen > 1 && |c| >= 1 {
      DeleteAllAccepted(accepts, c, delLen / 2);
    }
  }

  lemma {:induction false} AlphabetAccepted(accepts: Oracle, b: seq<byte>, symbol: nat)
    requires symbol <= 256 && accepts(b)
    ensures accepts(AlphabetFrom(accepts, b, symbol))
    decreases 256 - symbol
  {
    if symbol < 256 {
      var c := Replaced(b, symbol as byte);
      AlphabetAccepted(accepts, if accepts(c) then c else b, symbol + 1);
    }
  }

  lemma {:induction false} CharactersAccepted(accepts: Oracle, b: seq<byte>, i: nat)
    requires accepts(b)
    ensures accepts(CharactersFrom(accepts, b, i))
    decreases |b| - i
  {
    if i < |b| {
      CharactersAccepted(accepts, if accepts(b[i := ZERO]) then b[i := ZERO] else b, i + 1);
    }
  }

  lemma {:induction false} PassesAccepted(accepts: Oracle, b: seq<byte>, first: bool)
    requires accepts(b)
    ensures accepts(Passes(accepts, b, first))
    decreases |b|, NonZeros(b)
  {
    var d := DeleteAll(accepts, b, DeletionStart(|b|));
    DeleteAllAccepted(accepts, b, DeletionStart(|b|));
    var a := AlphabetFrom(accepts, d, 0);
    AlphabetAccepted(accepts, d, 0);
    var e := CharactersFrom(accepts, a, 0);
    CharactersAccepted(accepts, a, 0);
    ZerosDecrease(accepts, b, d);
    if !(!first && d == b) && e != b {
      PassesAccepted(accepts, e, false);
    }
  }

  /** An accepted input is minimized to an accepted buffer. */
  lemma MinimizedAccepted(accepts: Oracle, b: seq<byte>)
    requires accepts(b)
    ensures accepts(Minimized(accepts, b))
  {
    NormalizeAccepted(accepts, b, 0, NormalizeStep(|b|));
    PassesAccepted(accepts, NormalizeFrom(accepts, b, 0, NormalizeStep(|b|)), true);
  }

  // ----- the end state cannot lose a block -----

  /** Deleting any of the blocks of `len` bytes that tile `b` is rejected. */
  ghost predicate NoBlockDeletable(accepts: Oracle, b: seq<byte>, len: nat)
  {
    forall k: nat :: k * len < |b| ==> !accepts(Without(b, k * len, len))
  }

  ghost predicate NoBlockDeletableFrom(accepts: Oracle, b: seq<byte>, len: nat, start: nat)
  {
    forall k: nat :: start <= k && k * len < |b| ==> !accepts(Without(b, k * len, len))
  }

  lemma {:induction false} UnchangedDeleteFrom(accepts: Oracle, b: seq<byte>, k: nat, len: nat)
    requires len > 0
    requires DeleteFrom(accepts, b, k * len, len) == b
    ensures NoBlockDeletableFrom(accepts, b, len, k)
    decreases |b| - k * len
  {
    if k * len < |b| {
      assert !accepts(Without(b, k * len, len));
      assert (k + 1) * len == k * len + len;
      UnchangedDeleteFrom(accepts, b, k + 1, len);
    } else {
      forall j: nat | k <= j
        ensures j * len >= |b|
      {
        MulMonotone(k, j, len);
      }
    }
  }

  /** The block lengths one pass goes through: `start`, `start / 2`, ..., 1. */
  ghost predicate StageLength(start: nat, len: nat)
    decreases start
  {
    start >= 1 && (len == start || (start > 1 && StageLength(start / 2, len)))
  }

  lemma {:induction false} OneIsStageLength(start: nat)
    requires start >= 1
    ensures StageLength(start, 1)
  {
    if start > 1 {
      OneIsStageLength(start / 2);
    }
  }

  lemma {:induction false} UnchangedDeleteAll(accepts: Oracle, b: seq<byte>, start: nat, len: nat)
    requires start > 0 && |b| > 0 && StageLength(start, len)
    requires DeleteAll(accepts, b, start) == b
    ensures NoBlockDeletable(accepts, b, len)
    decreases start
  {
    var c := DeleteFrom(accepts, b, 0, start);
    DeleteFromShortens(accepts, b, 0, start);
    if start > 1 && |c| >= 1 {
      DeleteAllShortens(accepts, c, start / 2);
    }
    assert c == b;
    if len == start {
      assert 0 * len == 0;
      UnchangedDeleteFrom(accepts, b, 0, len);
    } else {
      UnchangedDeleteAll(accepts, b, start / 2, len);
    }
  }

  lemma {:induction false} PassesEndUnchanged(accepts: Oracle, b: seq<byte>, first: bool)
    ensures var r := Passes(accepts, b, first); DeleteAll(accepts, r, DeletionStart(|r|)) == r
    decreases |b|, NonZeros(b)
  {
    var d := DeleteAll(accepts, b, DeletionStart(|b|));
    if first || d != b {
      var e := CharactersFrom(accepts, AlphabetFrom(accepts, d, 0), 0);
      ZerosDecrease(accepts, b, d);
      if e != b {
        PassesEndUnchanged(accepts, e, false);
      } else {
        DeleteAllShortens(accepts, b, DeletionStart(|b|));
      }
    }
  }

  /** Whatever the oracle, the minimized buffer cannot lose any aligned block of any length
      that a pass over it would try. */
  lemma MinimizedBlockMinimal(accepts: Oracle, b: seq<byte>, len: nat)
    requires StageLength(DeletionStart(|Minimized(accepts, b)|), len)
    ensures NoBlockDeletable(accepts, Minimized(accepts, b), len)
  {
    var n := NormalizeFrom(accepts, b, 0, NormalizeStep(|b|));
    var r := Minimized(accepts, b);
    PassesEndUnchanged(accepts, n, true);
    if |r| > 0 {
      UnchangedDeleteAll(accepts, r, DeletionStart(|r|), len);
    } else {
      forall k: nat ensures k * len >= 0 {
        MulMonotone(0, k, len);
      }
    }
  }

  /** 1-minimality: deleting any single byte of the minimized buffer is rejected. */
  lemma MinimizedOneMinimal(accepts: Oracle, b: seq<byte>, p: nat)
    requires p < |Minimized(accepts, b)|
    ensures !accepts(Without(Minimized(accepts, b), p, 1))
  {
    var r := Minimized(accepts, b);
    OneIsStageLength(DeletionStart(|r|));
    MinimizedBlockMinimal(accepts, b, 1);
    assert p * 1 == p;
  }

  // ----- where the bytes of the result come from -----

  /** `r` comes from `b` by dropping bytes and turning some of the others into '0'. */
  ghost predicate SimplerThan(r: seq<byte>, b: seq<byte>)
    decreases |b|
  {
    if |b| == 0 then |r| == 0
    else
      SimplerThan(r, b[..|b| - 1]) ||
      (|r| > 0 && (r[|r| - 1] == b[|b| - 1] || r[|r| - 1] == ZERO) && SimplerThan(r[..|r| - 1], b[..|b| - 1]))
  }

  lemma {:induction false} SimplerTransitive(r: seq<byte>, m: seq<byte>, b: seq<byte>)
    requires SimplerThan(r, m) && SimplerThan(m, b)
    ensures SimplerThan(r, b)
    decreases |b|, |m|
  {
    if |b| > 0 {
      if SimplerThan(m, b[..|b| - 1]) {
        SimplerTransitive(r, m, b[..|b| - 1]);
      } else if SimplerThan(r, m[..|m| - 1]) {
        SimplerTransitive(r, m[..|m| - 1], b[..|b| - 1]);
      } else {
        SimplerTransitive(r[..|r| - 1], m[..|m| - 1], b[..|b| - 1]);
      }
    }
  }

  lemma {:induction false} ZeroedIsSimpler(r: seq<byte>, b: seq<byte>)
    requires ZeroedIn(r, b)
    ensures SimplerThan(r, b)
    decreases |b|
  {
    if |b| > 0 {
      ZeroedIsSimpler(r[..|r| - 1], b[..|b| - 1]);
    }
  }

  lemma {:induction false} WithoutIsSimpler(b: seq<byte>, pos: nat, len: nat)
    requires pos <= |b|
    ensures SimplerThan(Without(b, pos, len), b)
    decreases |b|
  {
    var w := Without(b, pos, len);
    var n := |b| - 1;
    if |b| == pos || len == 0 {
      assert w == b;
      ZeroedIsSimpler(b, b);
    } else if pos + len >= |b| {
      assert Without(b[..n], pos, len) == w;
      WithoutIsSimpler(b[..n], pos, len);
    } else {
      assert Without(b[..n], pos, len) == w[..|w| - 1];
      WithoutIsSimpler(b[..n], pos, len);
    }
  }

  lemma {:induction false} DeleteFromSimpler(accepts: Oracle, b: seq<byte>, pos: nat, delLen: nat)
    requires delLen > 0
    ensures SimplerThan(DeleteFrom(accepts, b, pos, delLen), b)
    decreases |b| - pos
  {
    if pos >= |b| {
      ZeroedIsSimpler(b, b);
    } else {
      var c := Without(b, pos, delLen);
      if accepts(c) {
        DeleteFromSimpler(accepts, c, pos, delLen);
        WithoutIsSimpler(b, pos, delLen);
        SimplerTransitive(DeleteFrom(accepts, c, pos, delLen), c, b);
      } else {
        DeleteFromSimpler(accepts, b, pos + delLen, delLen);
      }
    }
  }

  lemma {:induction false} DeleteAllSimpler(accepts: Oracle, b: seq<byte>, delLen: nat)
    requires delLen > 0
    ensures SimplerThan(DeleteAll(accepts, b, delLen), b)
    decreases delLen
  {
    DeleteFromSimpler(accepts, b, 0, delLen);
    var c := DeleteFrom(accepts, b, 0, delLen);
    if delLen > 1 && |c| >= 1 {
      DeleteAllSimpler(accepts, c, delLen / 2);
      SimplerTransitive(DeleteAll(accepts, c, delLen / 2), c, b);
    }
  }

  lemma {:induction false} PassesSimpler(accepts: Oracle, b: seq<byte>, first: bool)
    ensures SimplerThan(Passes(accepts, b, first), b)
    decreases |b|, NonZeros(b)
  {
    var d := DeleteAll(accepts, b, DeletionStart(|b|));
    DeleteAllSimpler(accepts, b, DeletionStart(|b|));
    if first || d != b {
      var a := AlphabetFrom(accepts, d, 0);
      var e := CharactersFrom(accepts, a, 0);
      AlphabetZeroes(accepts, d, 0);
      CharactersZeroes(accepts, a, 0);
      ZeroedIsSimpler(e, d);
      SimplerTransitive(e, d, b);
      ZerosDecrease(accepts, b, d);
      if e != b {
        PassesSimpler(accepts, e, false);
        SimplerTransitive(Passes(accepts, e, false), e, b);
      }
    }
  }

  /** The minimizer only deletes bytes and writes '0': the order of what is left is kept. */
  lemma MinimizedSimpler(accepts: Oracle, b: seq<byte>)
    ensures SimplerThan(Minimized(accepts, b), b)
  {
    var n := NormalizeFrom(accepts, b, 0, NormalizeStep(|b|));
    NormalizeZeroes(accepts, b, 0, NormalizeStep(|b|));
    ZeroedIsSimpler(n, b);
    PassesSimpler(accepts, n, true);
    SimplerTransitive(Passes(accepts, n, true), n, b);
  }

  // ----- what the program skips -----

  lemma CutOut(r: seq<byte>, b: seq<byte>, pos: nat, len: nat)
    requires pos <= |b| && |r| == |Without(b, pos, len)|
    requires forall i :: 0 <= i < pos ==> r[i] == b[i]
    requires forall i :: pos <= i < |r| ==> r[i] == b[i + len]
    ensures r == Without(b, pos, len)
  {
    forall i | 0 <= i < |r|
      ensures r[i] == Without(b, pos, len)[i]
    {
    }
  }

  lemma AlphabetStep(accepts: Oracle, b: seq<byte>, i: nat)
    requires i < 256
    ensures var c := Replaced(b, i as byte);
            AlphabetFrom(accepts, b, i) == AlphabetFrom(accepts, if accepts(c) then c else b, i + 1)
  {
  }

  lemma AlphabetEnd(accepts: Oracle, b: seq<byte>)
    ensures AlphabetFrom(accepts, b, 256) == b
  {
  }

  /** The block at `pos` equals the one before it: deleting either gives the same bytes. */
  lemma RepeatedBlock(b: seq<byte>, pos: nat, len: nat)
    requires len <= pos && pos + len <= |b|
    requires b[pos - len..pos] == b[pos..pos + len]
    ensures Without(b, pos, len) == Without(b, pos - len, len)
  {
    var w, v := Without(b, pos, len), Without(b, pos - len, len);
    forall i | 0 <= i < |w|
      ensures w[i] == v[i]
    {
      if pos - len <= i < pos {
        assert w[i] == b[pos - len..pos][i - (pos - len)];
        assert v[i] == b[pos..pos + len][i - (pos - len)];
      }
    }
  }

  /** Symbols numbered `symbol` and above are as they were. */
  ghost predicate KeptFrom(b: seq<byte>, b0: seq<byte>, symbol: nat) {
    |b| == |b0| && forall j :: 0 <= j < |b| && b0[j] as int >= symbol ==> b[j] == b0[j]
  }

  lemma ZeroedAndKept(b: seq<byte>)
    ensures ZeroedIn(b, b) && KeptFrom(b, b, 0)
  {
  }

  lemma AbsentSymbol(b: seq<byte>, b0: seq<byte>, symbol: byte)
    requires ZeroedIn(b, b0) && KeptFrom(b, b0, symbol as int)
    requires symbol == ZERO || multiset(b0)[symbol] == 0
    ensures Replaced(b, symbol) == b && KeptFrom(b, b0, symbol as int + 1)
  {
    forall j | 0 <= j < |b|
      ensures b[j] == symbol ==> symbol == ZERO
    {
      assert b0[j] in multiset(b0);
    }
  }

  lemma PresentSymbol(b: seq<byte>, b0: seq<byte>, symbol: byte)
    requires ZeroedIn(b, b0) && KeptFrom(b, b0, symbol as int)
    requires symbol != ZERO && multiset(b0)[symbol] > 0
    ensures Replaced(b, symbol) != b && Replaced(b, symbol) != b0
    ensures ZeroedIn(Replaced(b, symbol), b0) && KeptFrom(Replaced(b, symbol), b0, symbol as int + 1)
    ensures KeptFrom(b, b0, symbol as int + 1)
  {
    assert symbol in b0;
    var j :| 0 <= j < |b0| && b0[j] == symbol;
    assert b[j] == symbol && Replaced(b, symbol)[j] == ZERO;
  }

  // ----- the program -----

  class Minimizer {
    const accepts: Oracle
    const inData: array<byte>
    const tmpBuf: array<byte>
    var inLen: nat
    var changedAny: bool

    ghost predicate Valid()
      reads this
    {
      inLen <= inData.Length && inData.Length == tmpBuf.Length && inData != tmpBuf
    }

    ghost function Buffer(): seq<byte>
      reads this, inData
      requires Valid()
    {
      inData[..inLen]
    }

    constructor (accepts: Oracle, input: seq<byte>)
      ensures Valid() && Buffer() == input
      ensures this.accepts == accepts && fresh(inData) && fresh(tmpBuf)
    {
      this.accepts := accepts;
      inData := new byte[|input|](i requires 0 <= i < |input| => input[i]);
      tmpBuf := new byte[|input|];
      inLen := |input|;
      changedAny := false;
    }

    method CopyToTmp()
      requires Valid()
      modifies tmpBuf
      ensures tmpBuf[..inLen] == Buffer()
    {
      forall i | 0 <= i < inLen {
        tmpBuf[i] := inData[i];
      }
    }

    method CopyFromTmp(len: nat)
      requires Valid() && len <= inLen
      modifies inData
      ensures inData[..len] == tmpBuf[..len]
    {
      forall i | 0 <= i < len {
        inData[i] := tmpBuf[i];
      }
    }

    method AlreadyZero(pos: nat, len: nat) returns (zero: bool)
      requires Valid() && pos + len <= inLen
      ensures zero ==> Zeroed(Buffer(), pos, len) == Buffer()
    {
      var i := 0;
      while i < len && inData[pos + i] == ZERO
        invariant 0 <= i <= len
        invariant forall j :: pos <= j < pos + i ==> inData[j] == ZERO
      {
        i := i + 1;
      }
      zero := i == len;
    }

    method TryZero(pos: nat, len: nat) returns (res: bool)
      requires Valid() && pos + len <= inLen
      modifies inData, tmpBuf
      ensures var z := Zeroed(old(Buffer()), pos, len);
              res == accepts(z) && Buffer() == if res then z else old(Buffer())
    {
      ghost var z := Zeroed(Buffer(), pos, len);
      CopyToTmp();
      assert tmpBuf[..inLen] == old(Buffer());
      forall j | pos <= j < pos + len {
        tmpBuf[j] := ZERO;
      }
      assert tmpBuf[..inLen] == z;
      res := accepts(tmpBuf[..inLen]);
      if res {
        forall j | pos <= j < pos + len {
          inData[j] := ZERO;
        }
        assert Buffer() == z;
      }
    }

    /** Stage 0.  A block that is '0' already is not run. */
    method NormalizeBlocks(setLen: nat)
      requires Valid() && setLen > 0
      modifies inData, tmpBuf
      ensures Buffer() == NormalizeFrom(accepts, old(Buffer()), 0, setLen)
    {
      var setPos := 0;
      while setPos < inLen
        invariant NormalizeFrom(accepts, Buffer(), setPos, setLen) == NormalizeFrom(accepts, old(Buffer()), 0, setLen)
        decreases inLen - setPos
      {
        var useLen := Min(setLen, inLen - setPos);
        var zero := AlreadyZero(setPos, useLen);
        if !zero {
          var _ := TryZero(setPos, useLen);
        }
        setPos := setPos + setLen;
      }
    }

    method TryDelete(delPos: nat, delLen: nat) returns (res: bool)
      requires Valid() && delPos < inLen && delLen > 0
      modifies this`inLen, inData, tmpBuf
      ensures Valid()
      ensures var c := Without(old(Buffer()), delPos, delLen);
              res == accepts(c) && Buffer() == if res then c else old(Buffer())
    {
      hide Without;
      var tailLen := if inLen < delPos + delLen then 0 else inLen - delPos - delLen;
      ghost var b := Buffer();
      CopyAround(delPos, delLen, tailLen);
      CutOut(tmpBuf[..delPos + tailLen], b, delPos, delLen);
      res := accepts(tmpBuf[..delPos + tailLen]);
      if res {
        CopyFromTmp(delPos + tailLen);
        inLen := delPos + tailLen;
      }
    }

    method CopyAround(delPos: nat, delLen: nat, tailLen: nat)
      requires Valid() && delPos < inLen && tailLen == if inLen < delPos + delLen then 0 else inLen - delPos - delLen
      modifies tmpBuf
      ensures forall i :: 0 <= i < delPos ==> tmpBuf[i] == inData[i]
      ensures forall i :: delPos <= i < delPos + tailLen ==> tmpBuf[i] == inData[i + delLen]
    {
      forall i | 0 <= i < delPos {
        tmpBuf[i] := inData[i];
      }
      forall i | 0 <= i < tailLen {
        tmpBuf[delPos + i] := inData[delPos + delLen + i];
      }
      forall i | delPos <= i < delPos + tailLen
        ensures tmpBuf[i] == inData[i + delLen]
      {
        assert tmpBuf[delPos + (i - delPos)] == inData[delPos + delLen + (i - delPos)];
      }
    }

    method SameAsPrevious(pos: nat, len: nat) returns (same: bool)
      requires Valid() && len <= pos && pos + len <= inLen
      ensures same ==> Without(Buffer(), pos, len) == Without(Buffer(), pos - len, len)
    {
      same := inData[pos - len..pos] == inData[pos..pos + len];
      if same {
        assert Buffer()[pos - len..pos] == inData[pos - len..pos];
        assert Buffer()[pos..pos + len] == inData[pos..pos + len];
        RepeatedBlock(Buffer(), pos, len);
      }
    }

    /** Stage 1, one block length.  A block equal to the one just rejected is skipped. */
    method DeleteBlocks(delLen: nat)
      requires Valid() && delLen > 0
      modifies this`inLen, this`changedAny, inData, tmpBuf
      ensures Valid() && Buffer() == DeleteFrom(accepts, old(Buffer()), 0, delLen)
      ensures changedAny == (old(changedAny) || Buffer() != old(Buffer()))
    {
      hide Without;
      ghost var b0, b := Buffer(), Buffer();
      ghost var target := DeleteFrom(accepts, b0, 0, delLen);
      var delPos, prevDel := 0, true;
      while delPos < inLen
        invariant Valid() && b == Buffer() && |b| <= |b0|
        invariant DeleteFrom(accepts, b, delPos, delLen) == target
        invariant !prevDel ==> delLen <= delPos <= |b| + delLen && !accepts(Without(b, delPos - delLen, delLen))
        invariant |b| == |b0| ==> b == b0
        invariant changedAny == (old(changedAny) || |b| < |b0|)
        decreases inLen - delPos
      {
        var same := false;
        if !prevDel && delPos + delLen < inLen {
          same := SameAsPrevious(delPos, delLen);
        }
        if same {
          delPos := delPos + delLen;
        } else {
          prevDel := TryDelete(delPos, delLen);
          if prevDel {
            changedAny := true;
          } else {
            delPos := delPos + delLen;
          }
        }
        b := Buffer();
      }
    }

    /** Stage 1, all block lengths. */
    method DeleteAllBlocks()
      requires Valid() && inLen <= 0x8000_0000
      modifies this`inLen, this`changedAny, inData, tmpBuf
      ensures Valid() && Buffer() == DeleteAll(accepts, old(Buffer()), DeletionStart(old(inLen)))
      ensures changedAny == (old(changedAny) || Buffer() != old(Buffer()))
    {
      var delLen := NextP2(inLen / TRIM_START_STEPS);
      ghost var start := delLen;
      ghost var b := Buffer();
      DeleteFromShortens(accepts, b, 0, delLen);
      DeleteBlocks(delLen);
      while delLen > 1 && inLen >= 1
        invariant Valid() && delLen >= 1
        invariant DeleteAll(accepts, b, start) ==
                  if delLen > 1 && inLen >= 1 then DeleteAll(accepts, Buffer(), delLen / 2) else Buffer()
        invariant Buffer() != b ==> inLen < |b|
        invariant changedAny == (old(changedAny) || Buffer() != b)
        decreases delLen
      {
        delLen := delLen / 2;
        DeleteFromShortens(accepts, Buffer(), 0, delLen);
        DeleteBlocks(delLen);
      }
    }

    method CountSymbols() returns (alphaMap: array<nat>)
      requires Valid()
      ensures fresh(alphaMap) && alphaMap.Length == 256
      ensures forall s: byte :: alphaMap[s as int] == multiset(Buffer())[s]
    {
      alphaMap := new nat[256](_ => 0);
      ghost var b := Buffer();
      var i := 0;
      while i < inLen
        invariant 0 <= i <= inLen && b == Buffer()
        invariant forall s: byte :: alphaMap[s as int] == multiset(b[..i])[s]
      {
        assert b[..i + 1] == b[..i] + [b[i]];
        alphaMap[inData[i] as int] := alphaMap[inData[i] as int] + 1;
        i := i + 1;
      }
      assert b[..i] == b;
    }

    method TryReplace(symbol: byte) returns (res: bool)
      requires Valid()
      modifies inData, tmpBuf
      ensures var c := Replaced(old(Buffer()), symbol);
              res == accepts(c) && Buffer() == if res then c else old(Buffer())
    {
      ghost var b, c := Buffer(), Replaced(Buffer(), symbol);
      CopyToTmp();
      assert tmpBuf[..inLen] == b;
      forall r | 0 <= r < inLen && tmpBuf[r] == symbol {
        tmpBuf[r] := ZERO;
      }
      assert tmpBuf[..inLen] == c;
      res := accepts(tmpBuf[..inLen]);
      if res {
        CopyFromTmp(inLen);
        assert Buffer() == c;
      } else {
        assert Buffer() == b;
      }
    }

    /** Stage 2.  Symbols that were absent when the stage began are not tried. */
    method MinimizeAlphabet()
      requires Valid()
      modifies this`changedAny, inData, tmpBuf
      ensures Buffer() == AlphabetFrom(accepts, old(Buffer()), 0)
      ensures changedAny == (old(changedAny) || Buffer() != old(Buffer()))
    {
      hide ZeroedIn, KeptFrom, Replaced, AlphabetFrom;
      ghost var b0, b := Buffer(), Buffer();
      ZeroedAndKept(b0);
      var alphaMap := CountSymbols();
      var i := 0;
      while i < 256
        invariant 0 <= i <= 256 && b == Buffer() && ZeroedIn(b, b0) && KeptFrom(b, b0, i)
        invariant forall s: byte :: alphaMap[s as int] == multiset(b0)[s]
        invariant AlphabetFrom(accepts, b, i) == AlphabetFrom(accepts, b0, 0)
        invariant changedAny == (old(changedAny) || b != b0)
      {
        var symbol := i as byte;
        AlphabetStep(accepts, b, i);
        if symbol == ZERO || alphaMap[i] == 0 {
          AbsentSymbol(b, b0, symbol);
          assert Replaced(b, symbol) == b;
        } else {
          var res := TryReplace(symbol);
          changedAny := changedAny || res;
          PresentSymbol(b, b0, symbol);
        }
        b := Buffer();
        i := i + 1;
      }
      AlphabetEnd(accepts, b);
    }

    /** Stage 3.  Bytes that are '0' already are not run. */
    method MinimizeCharacters()
      requires Valid()
      modifies this`changedAny, inData, tmpBuf
      ensures Buffer() == CharactersFrom(accepts, old(Buffer()), 0)
      ensures changedAny == (old(changedAny) || Buffer() != old(Buffer()))
    {
      ghost var b0 := Buffer();
      CopyToTmp();
      assert Buffer() == b0;
      var i := 0;
      while i < inLen
        invariant 0 <= i <= inLen
        invariant tmpBuf[..inLen] == Buffer()
        invariant CharactersFrom(accepts, Buffer(), i) == CharactersFrom(accepts, b0, 0)
        invariant ZeroedIn(Buffer(), b0)
        invariant changedAny == (old(changedAny) || Buffer() != b0)
      {
        ghost var b := Buffer();
        var orig := tmpBuf[i];
        if orig != ZERO {
          tmpBuf[i] := ZERO;
          assert tmpBuf[..inLen] == b[i := ZERO];
          if accepts(tmpBuf[..inLen]) {
            inData[i] := ZERO;
            changedAny := true;
            assert Buffer() == b[i := ZERO];
          } else {
            tmpBuf[i] := orig;
            assert tmpBuf[..inLen] == b;
          }
        } else {
          assert b[i := ZERO] == b;
        }
        i := i + 1;
      }
    }

    /** One pass after its block deletion. */
    method MinimizeSymbols()
      requires Valid()
      modifies this`changedAny, inData, tmpBuf
      ensures Buffer() == CharactersFrom(accepts, AlphabetFrom(accepts, old(Buffer()), 0), 0)
      ensures changedAny == (old(changedAny) || Buffer() != old(Buffer()))
    {
      ghost var d := Buffer();
      MinimizeAlphabet();
      ghost var a := Buffer();
      MinimizeCharacters();
      AlphabetZeroes(accepts, d, 0);
      CharactersZeroes(accepts, a, 0);
      FewerNonZeros(a, d);
      FewerNonZeros(Buffer(), a);
    }

    /** The whole run: the naive minimizer's result, accepted and 1-minimal. */
    method Minimize()
      requires Valid() && inLen <= 0x8000_0000
      requires accepts(Buffer())
      modifies this`inLen, this`changedAny, inData, tmpBuf
      ensures Valid() && Buffer() == Minimized(accepts, old(Buffer()))
      ensures accepts(Buffer())
      ensures forall p :: 0 <= p < inLen ==> !accepts(Without(Buffer(), p, 1))
      ensures SimplerThan(Buffer(), old(Buffer()))
    {
      ghost var b0 := Buffer();
      var setLen := NextP2(inLen / TMIN_SET_STEPS);
      if setLen < TMIN_SET_MIN_SIZE {
        setLen := TMIN_SET_MIN_SIZE;
      }
      NormalizeBlocks(setLen);
      ghost var b := Buffer();
      var curPass := 0;
      while true
        invariant Valid() && b == Buffer() && inLen <= 0x8000_0000 && curPass >= 0
        invariant Passes(accepts, b, curPass == 0) == Minimized(accepts, b0)
        decreases |b|, NonZeros(b)
      {
        curPass := curPass + 1;
        changedAny := false;
        DeleteAllBlocks();
        ghost var d := Buffer();
        if curPass > 1 && !changedAny {
          break;
        }
        MinimizeSymbols();
        ZerosDecrease(accepts, b, d);
        DeleteAllShortens(accepts, b, DeletionStart(|b|));
        assert changedAny <==> Buffer() != b;
        if !changedAny {
          break;
        }
        b := Buffer();
      }
      MinimizedAccepted(accepts, b0);
      MinimizedSimpler(accepts, b0);
      forall p | 0 <= p < inLen
        ensures !accepts(Without(Buffer(), p, 1))
      {
        MinimizedOneMinimal(accepts, b0, p);
      }
    }
  }
}
