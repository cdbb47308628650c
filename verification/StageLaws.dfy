/** What each stage of the minimizer leaves, block by block, symbol by symbol and byte by byte: the
    candidate that decided about it is written out from the buffer before and the result. */
module StageLaws {
  import opened Powers
  import opened Tmin
  import opened Words

  /** Where block `k` starts. */
  function Start(k: nat, len: nat): nat {
    if k == 0 then 0 else Start(k - 1, len) + len
  }

  lemma {:induction false} StartIs(k: nat, len: nat)
    ensures Start(k, len) == k * len
  {
    if k > 0 {
      StartIs(k - 1, len);
    }
  }

  lemma {:induction false} StartGrows(k: nat, j: nat, len: nat)
    requires k <= j
    ensures Start(k, len) + (if k < j then len else 0) <= Start(j, len)
    decreases j
  {
    if k < j {
      StartGrows(k, j - 1, len);
    }
  }

  // ----- block normalization -----

  /** The blocks before `pos` as they were decided, '0' at `pos`, the input behind. */
  function ZeroCandidate(b: seq<byte>, r: seq<byte>, pos: nat, len: nat): seq<byte>
    requires pos + len <= |b| == |r|
  {
    r[..pos] + seq(len, _ => ZERO) + b[pos + len..]
  }

  /** A block is '0' where that candidate was accepted, and as in the input elsewhere. */
  ghost predicate NormalizedBlock(accepts: Oracle, b: seq<byte>, r: seq<byte>, pos: nat, setLen: nat)
    requires |r| == |b| && pos < |b|
  {
    var len := Min(setLen, |b| - pos);
    r[pos..pos + len] == if accepts(ZeroCandidate(b, r, pos, len)) then seq(len, _ => ZERO) else b[pos..pos + len]
  }

  ghost predicate Normalized(accepts: Oracle, b: seq<byte>, r: seq<byte>, setLen: nat) {
    |r| == |b| && forall k: nat :: Start(k, setLen) < |b| ==> NormalizedBlock(accepts, b, r, Start(k, setLen), setLen)
  }

  lemma {:induction false} NormalizeKeepsFront(accepts: Oracle, c: seq<byte>, pos: nat, setLen: nat)
    requires setLen > 0 && pos <= |c|
    ensures NormalizeFrom(accepts, c, pos, setLen)[..pos] == c[..pos]
    decreases |c| - pos
  {
    if pos < |c| {
      var len := Min(setLen, |c| - pos);
      var z := Zeroed(c, pos, len);
      var d := if accepts(z) then z else c;
      assert d[..pos] == c[..pos];
      if pos + setLen <= |c| {
        NormalizeKeepsFront(accepts, d, pos + setLen, setLen);
        var r := NormalizeFrom(accepts, d, pos + setLen, setLen);
        assert r[..pos] == r[..pos + setLen][..pos] == d[..pos + setLen][..pos] == d[..pos];
      }
    }
  }

  /** From block `k` on, with `c` decided before it and the input behind. */
  lemma {:induction false} NormalizeLaw(accepts: Oracle, b: seq<byte>, c: seq<byte>, k: nat, setLen: nat, j: nat)
    requires setLen > 0 && |c| == |b| && Start(k, setLen) <= |b| && c[Start(k, setLen)..] == b[Start(k, setLen)..]
    requires k <= j && Start(j, setLen) < |b|
    ensures NormalizedBlock(accepts, b, NormalizeFrom(accepts, c, Start(k, setLen), setLen), Start(j, setLen), setLen)
    decreases j - k
  {
    hide NormalizedBlock;
    StartGrows(k, j, setLen);
    var pos := Start(k, setLen);
    var len := Min(setLen, |b| - pos);
    var z := Zeroed(c, pos, len);
    var d := if accepts(z) then z else c;
    var r := NormalizeFrom(accepts, c, pos, setLen);
    assert r == NormalizeFrom(accepts, d, pos + setLen, setLen);
    assert Start(k + 1, setLen) == pos + setLen;
    hide Start, NormalizeFrom;
    if k == j {
      FirstBlock(accepts, b, c, d, r, pos, setLen, len);
    } else {
      StartGrows(k + 1, j, setLen);
      ZeroedTail(b, c, d, pos, len, accepts(z));
      NormalizeLaw(accepts, b, d, k + 1, setLen, j);
    }
  }

  lemma {:induction false} ZeroedTail(b: seq<byte>, c: seq<byte>, d: seq<byte>, pos: nat, len: nat, zero: bool)
    requires pos + len <= |b| == |c| && c[pos..] == b[pos..] && d == if zero then Zeroed(c, pos, len) else c
    ensures d[pos + len..] == b[pos + len..]
  {
    assert d[pos + len..] == c[pos + len..] == c[pos..][len..];
    assert b[pos + len..] == b[pos..][len..];
  }

  lemma {:induction false} FirstBlock(accepts: Oracle, b: seq<byte>, c: seq<byte>, d: seq<byte>, r: seq<byte>, pos: nat, setLen: nat, len: nat)
    requires setLen > 0 && pos < |b| == |c| && len == Min(setLen, |b| - pos) && c[pos..] == b[pos..]
    requires d == if accepts(Zeroed(c, pos, len)) then Zeroed(c, pos, len) else c
    requires r == NormalizeFrom(accepts, d, pos + setLen, setLen)
    ensures NormalizedBlock(accepts, b, r, pos, setLen)
  {
    hide NormalizeFrom, Zeroed, ZeroCandidate;
    DecidedFront(accepts, d, pos, setLen, len);
    SameCandidateAt(b, c, d, r, pos, len, accepts(Zeroed(c, pos, len)));
  }

  lemma {:induction false} DecidedFront(accepts: Oracle, d: seq<byte>, pos: nat, setLen: nat, len: nat)
    requires setLen > 0 && pos < |d| && len == Min(setLen, |d| - pos)
    ensures NormalizeFrom(accepts, d, pos + setLen, setLen)[..pos + len] == d[..pos + len]
  {
    if pos + setLen <= |d| {
      NormalizeKeepsFront(accepts, d, pos + setLen, setLen);
    }
  }

  lemma {:induction false} SameCandidateAt(b: seq<byte>, c: seq<byte>, d: seq<byte>, r: seq<byte>, pos: nat, len: nat, zero: bool)
    requires pos + len <= |b| == |c| == |d| == |r| && c[pos..] == b[pos..]
    requires d == (if zero then Zeroed(c, pos, len) else c) && r[..pos + len] == d[..pos + len]
    ensures ZeroCandidate(b, r, pos, len) == Zeroed(c, pos, len)
    ensures r[pos..pos + len] == if zero then seq(len, _ => ZERO) else b[pos..pos + len]
  {
    forall i | 0 <= i < pos + len
      ensures r[i] == if zero && pos <= i then ZERO else c[i]
    {
      assert r[..pos + len][i] == d[..pos + len][i];
    }
    forall i | pos <= i < |b|
      ensures c[i] == b[i]
    {
      assert c[pos..][i - pos] == b[pos..][i - pos];
    }
    assert r[..pos] == c[..pos] && c[pos + len..] == b[pos + len..];
  }

  /** The stage leaves exactly the buffer of that law. */
  lemma {:induction false} NormalizeIsLaw(accepts: Oracle, b: seq<byte>, setLen: nat)
    requires setLen > 0
    ensures Normalized(accepts, b, NormalizeFrom(accepts, b, 0, setLen), setLen)
  {
    hide NormalizedBlock, NormalizeFrom;
    forall k: nat | Start(k, setLen) < |b|
      ensures NormalizedBlock(accepts, b, NormalizeFrom(accepts, b, 0, setLen), Start(k, setLen), setLen)
    {
      NormalizeLaw(accepts, b, b, 0, setLen, k);
    }
  }

  // ----- block deletion -----

  function BlockAt(b: seq<byte>, len: nat, at: nat): seq<byte> {
    if at >= |b| then [] else b[at..Min(at + len, |b|)]
  }

  /** The blocks of `b` that are kept, one after the other. */
  function Kept(b: seq<byte>, len: nat, keep: seq<bool>): seq<byte> {
    if |keep| == 0 then []
    else
      var n := |keep| - 1;
      Kept(b, len, keep[..n]) + if keep[n] then BlockAt(b, len, Start(n, len)) else []
  }

  /** What is tried for block `k`: the blocks kept before it, and all behind it. */
  function DeleteCandidate(b: seq<byte>, len: nat, keep: seq<bool>, k: nat): seq<byte>
    requires k < |keep| && len > 0 && Start(k, len) < |b|
  {
    Kept(b, len, keep[..k]) + b[Min(Start(k, len) + len, |b|)..]
  }

  /** The first `from` blocks stay; each other stays exactly where that candidate is rejected. */
  ghost predicate Decided(accepts: Oracle, b: seq<byte>, len: nat, keep: seq<bool>, from: nat) {
    && len > 0 && (forall k :: 0 <= k < |keep| ==> Start(k, len) < |b|)
    && (forall k :: 0 <= k < |keep| && k < from ==> keep[k])
    && (forall k :: from <= k < |keep| ==> keep[k] == !accepts(DeleteCandidate(b, len, keep, k)))
  }

  /** What is left to look at once the first `k` blocks are decided. */
  function Rest(b: seq<byte>, len: nat, k: nat): seq<byte> {
    if Start(k, len) < |b| then b[Start(k, len)..] else []
  }

  /** From the first undecided block on. */
  lemma {:induction false} DeleteLaw(accepts: Oracle, b: seq<byte>, len: nat, keep: seq<bool>, from: nat) returns (all: seq<bool>)
    requires Decided(accepts, b, len, keep, from) && from <= |keep|
    ensures Decided(accepts, b, len, all, from) && Start(|all|, len) >= |b|
    ensures DeleteFrom(accepts, Kept(b, len, keep) + Rest(b, len, |keep|), |Kept(b, len, keep)|, len) == Kept(b, len, all)
    decreases |b| - Start(|keep|, len)
  {
    var k := |keep|;
    var front := Kept(b, len, keep);
    if Start(k, len) >= |b| {
      all := keep;
      assert front + [] == front;
    } else {
      var stays := !accepts(front + b[Min(Start(k, len) + len, |b|)..]);
      DecidedNext(accepts, b, len, keep, from, stays);
      DeleteStep(accepts, b, len, keep, stays);
      hide Decided, Kept, Rest, DeleteFrom;
      assert Start(k + 1, len) == Start(k, len) + len;
      all := DeleteLaw(accepts, b, len, keep + [stays], from);
    }
  }

  /** One turn of the stage. */
  lemma {:induction false} DeleteStep(accepts: Oracle, b: seq<byte>, len: nat, keep: seq<bool>, stays: bool)
    requires len > 0 && Start(|keep|, len) < |b|
    requires stays == !accepts(Kept(b, len, keep) + b[Min(Start(|keep|, len) + len, |b|)..])
    ensures var keep' := keep + [stays];
            DeleteFrom(accepts, Kept(b, len, keep) + Rest(b, len, |keep|), |Kept(b, len, keep)|, len)
            == DeleteFrom(accepts, Kept(b, len, keep') + Rest(b, len, |keep'|), |Kept(b, len, keep')|, len)
  {
    hide Start, Kept, Rest, Without, DeleteFrom;
    BlockTurn(b, len, keep, stays);
    var front := Kept(b, len, keep);
    var c := front + Rest(b, len, |keep|);
    DeleteUnfold(accepts, c, |front|, len);
    if stays {
      LastShort(accepts, c, |Kept(b, len, keep + [stays])|, |front| + len, len);
    }
  }

  /** Deciding one more block. */
  lemma {:induction false} BlockTurn(b: seq<byte>, len: nat, keep: seq<bool>, stays: bool)
    requires len > 0 && Start(|keep|, len) < |b|
    ensures var front, keep' := Kept(b, len, keep), keep + [stays];
            var c, d := front + Rest(b, len, |keep|), front + b[Min(Start(|keep|, len) + len, |b|)..];
            && |front| < |c| && Without(c, |front|, len) == d
            && Kept(b, len, keep') + Rest(b, len, |keep'|) == (if stays then c else d)
            && (if stays then |Kept(b, len, keep')| == Min(|front| + len, |c|) else Kept(b, len, keep') == front)
  {
    hide Start, Kept, Rest, Without;
    KeptNext(b, len, keep, stays);
    RestIs(b, len, |keep|);
    RestIs(b, len, |keep| + 1);
    var at, front := Start(|keep|, len), Kept(b, len, keep);
    CutAt(front, b, at, len);
    Grouped(front, b, at, Min(at + len, |b|));
  }

  lemma {:induction false} KeptNext(b: seq<byte>, len: nat, keep: seq<bool>, stays: bool)
    requires Start(|keep|, len) < |b|
    ensures Start(|keep| + 1, len) == Start(|keep|, len) + len
    ensures var at := Start(|keep|, len);
            Kept(b, len, keep + [stays]) == if stays then Kept(b, len, keep) + b[at..Min(at + len, |b|)] else Kept(b, len, keep)
  {
    assert (keep + [stays])[..|keep|] == keep;
    hide Start;
    assert Kept(b, len, keep) + [] == Kept(b, len, keep);
  }

  lemma {:induction false} RestIs(b: seq<byte>, len: nat, k: nat)
    ensures Rest(b, len, k) == b[Min(Start(k, len), |b|)..]
  {
    hide Start;
  }

  lemma {:induction false} Grouped(front: seq<byte>, b: seq<byte>, at: nat, next: nat)
    requires at <= next <= |b|
    ensures front + b[at..] == (front + b[at..next]) + b[next..]
    ensures |front + b[at..next]| == |front| + next - at && |front + b[at..]| == |front| + |b| - at
  {
    assert b[at..] == b[at..next] + b[next..];
  }

  lemma {:induction false} DeleteUnfold(accepts: Oracle, c: seq<byte>, pos: nat, len: nat)
    requires len > 0 && pos < |c|
    ensures var d := Without(c, pos, len);
            DeleteFrom(accepts, c, pos, len) == if accepts(d) then DeleteFrom(accepts, d, pos, len) else DeleteFrom(accepts, c, pos + len, len)
  {
  }

  lemma {:induction false} CutAt(front: seq<byte>, b: seq<byte>, at: nat, len: nat)
    requires at < |b|
    ensures Without(front + b[at..], |front|, len) == front + b[Min(at + len, |b|)..]
  {
    var c := front + b[at..];
    assert c[..|front|] == front;
    assert c[Min(|front| + len, |c|)..] == b[Min(at + len, |b|)..];
  }

  /** Behind the last block nothing is tried. */
  lemma {:induction false} LastShort(accepts: Oracle, c: seq<byte>, pos: nat, pos': nat, len: nat)
    requires len > 0 && pos <= pos' && (pos == pos' || pos >= |c|)
    ensures DeleteFrom(accepts, c, pos, len) == DeleteFrom(accepts, c, pos', len)
  {
  }

  lemma {:induction false} DecidedNext(accepts: Oracle, b: seq<byte>, len: nat, keep: seq<bool>, from: nat, stays: bool)
    requires Decided(accepts, b, len, keep, from) && from <= |keep| && Start(|keep|, len) < |b|
    requires stays == !accepts(Kept(b, len, keep) + b[Min(Start(|keep|, len) + len, |b|)..])
    ensures Decided(accepts, b, len, keep + [stays], from)
  {
    hide Kept, DeleteCandidate, Start;
    var keep' := keep + [stays];
    forall k | 0 <= k < |keep'|
      ensures Start(k, len) < |b|
      ensures DeleteCandidate(b, len, keep', k) ==
              if k < |keep| then DeleteCandidate(b, len, keep, k) else Kept(b, len, keep) + b[Min(Start(k, len) + len, |b|)..]
    {
      assert k < |keep| ==> Start(k, len) < |b|;
      SameCandidate(b, len, keep, stays, k);
    }
  }

  lemma {:induction false} SameCandidate(b: seq<byte>, len: nat, keep: seq<bool>, stays: bool, k: nat)
    requires k <= |keep| && len > 0 && Start(k, len) < |b|
    ensures DeleteCandidate(b, len, keep + [stays], k) ==
            if k < |keep| then DeleteCandidate(b, len, keep, k) else Kept(b, len, keep) + b[Min(Start(k, len) + len, |b|)..]
  {
    hide Kept, Start;
    assert (keep + [stays])[..k] == keep[..k];
    assert keep[..|keep|] == keep;
  }

  /** The stage leaves exactly the blocks of that law. */
  lemma {:induction false} DeleteIsLaw(accepts: Oracle, b: seq<byte>, len: nat) returns (keep: seq<bool>)
    requires len > 0
    ensures Decided(accepts, b, len, keep, 0) && Start(|keep|, len) >= |b| && DeleteFrom(accepts, b, 0, len) == Kept(b, len, keep)
  {
    keep := DeleteLaw(accepts, b, len, [], 0);
    assert Rest(b, len, 0) == b && [] + b == b;
  }

  /** All lengths, halved from the first down to one, while bytes are left. */
  ghost predicate DeletedAll(accepts: Oracle, b: seq<byte>, len: nat, d: seq<byte>)
    decreases len
  {
    exists keep: seq<bool> ::
      && Decided(accepts, b, len, keep, 0) && Start(|keep|, len) >= |b|
      && if len > 1 && |Kept(b, len, keep)| >= 1 then DeletedAll(accepts, Kept(b, len, keep), len / 2, d) else d == Kept(b, len, keep)
  }

  lemma {:induction false} DeleteAllIsLaw(accepts: Oracle, b: seq<byte>, len: nat)
    requires len > 0
    ensures DeletedAll(accepts, b, len, DeleteAll(accepts, b, len))
    decreases len
  {
    hide Decided, Kept, Start, DeleteFrom;
    var keep := DeleteIsLaw(accepts, b, len);
    var c := DeleteFrom(accepts, b, 0, len);
    if len > 1 && |c| >= 1 {
      DeleteAllIsLaw(accepts, c, len / 2);
    }
  }

  // ----- the alphabet -----

  /** What is tried for a symbol: '0' in its place, the lower symbols as decided, the higher ones as
      before. */
  function SymbolCandidate(b: seq<byte>, r: seq<byte>, s: byte): (c: seq<byte>)
    requires |r| == |b|
    ensures |c| == |b| && forall i :: 0 <= i < |b| ==> c[i] == if b[i] == s then ZERO else if b[i] < s then r[i] else b[i]
  {
    seq(|b|, i requires 0 <= i < |b| => if b[i] == s then ZERO else if b[i] < s then r[i] else b[i])
  }

  /** A symbol is '0' everywhere where that candidate was accepted, and stays everywhere elsewhere. */
  ghost predicate SymbolDecided(accepts: Oracle, b: seq<byte>, r: seq<byte>, s: byte)
    requires |r| == |b|
  {
    forall i :: 0 <= i < |b| && b[i] == s ==> r[i] == if accepts(SymbolCandidate(b, r, s)) then ZERO else s
  }

  ghost predicate AlphabetReduced(accepts: Oracle, b: seq<byte>, r: seq<byte>) {
    |r| == |b| && forall s: byte :: SymbolDecided(accepts, b, r, s)
  }

  /** `c` with the symbols below `symbol` decided, the others as in `b`. */
  ghost predicate DecidedBelow(b: seq<byte>, c: seq<byte>, symbol: nat) {
    |c| == |b| && forall i :: 0 <= i < |b| ==> c[i] == b[i] || (c[i] == ZERO && b[i] as nat < symbol)
  }

  lemma {:induction false} AlphabetKeepsLower(accepts: Oracle, b: seq<byte>, c: seq<byte>, symbol: nat)
    requires symbol <= 256 && DecidedBelow(b, c, symbol)
    ensures var r := AlphabetFrom(accepts, c, symbol);
            DecidedBelow(b, r, 256) && forall i :: 0 <= i < |b| && b[i] as nat < symbol ==> r[i] == c[i]
    decreases 256 - symbol
  {
    if symbol < 256 {
      var z := Replaced(c, symbol as byte);
      AlphabetKeepsLower(accepts, b, if accepts(z) then z else c, symbol + 1);
    }
  }

  lemma {:induction false} AlphabetLaw(accepts: Oracle, b: seq<byte>, c: seq<byte>, symbol: nat, s: byte)
    requires DecidedBelow(b, c, symbol) && symbol <= s as nat
    ensures SymbolDecided(accepts, b, AlphabetFrom(accepts, c, symbol), s)
    decreases 256 - symbol
  {
    var z := Replaced(c, symbol as byte);
    var d := if accepts(z) then z else c;
    var r := AlphabetFrom(accepts, c, symbol);
    assert r == AlphabetFrom(accepts, d, symbol + 1);
    assert DecidedBelow(b, d, symbol + 1);
    hide AlphabetFrom;
    if symbol < s as nat {
      AlphabetLaw(accepts, b, d, symbol + 1, s);
    } else {
      AlphabetKeepsLower(accepts, b, d, symbol + 1);
      forall i | 0 <= i < |b|
        ensures SymbolCandidate(b, r, s)[i] == z[i]
      {
        assert b[i] < s ==> r[i] == d[i];
      }
      assert SymbolCandidate(b, r, s) == z;
    }
  }

  /** The stage leaves exactly the buffer of that law. */
  lemma {:induction false} AlphabetIsLaw(accepts: Oracle, b: seq<byte>)
    ensures AlphabetReduced(accepts, b, AlphabetFrom(accepts, b, 0))
  {
    hide SymbolDecided, AlphabetFrom;
    forall s: byte
      ensures SymbolDecided(accepts, b, AlphabetFrom(accepts, b, 0), s)
    {
      AlphabetLaw(accepts, b, b, 0, s);
    }
  }

  // ----- characters -----

  /** The character stage is block normalization with blocks of one byte. */
  lemma {:induction false} CharactersAreBlocks(accepts: Oracle, b: seq<byte>, i: nat)
    ensures CharactersFrom(accepts, b, i) == NormalizeFrom(accepts, b, i, 1)
    decreases |b| - i
  {
    if i < |b| {
      assert b[i := ZERO] == Zeroed(b, i, 1);
      CharactersAreBlocks(accepts, if accepts(b[i := ZERO]) then b[i := ZERO] else b, i + 1);
    }
  }

  // ----- the whole minimizer -----

  /** A pass: block deletion of all lengths from the first, then the alphabet, then the characters. */
  ghost predicate OnePass(accepts: Oracle, b: seq<byte>, e: seq<byte>) {
    exists d, a :: DeletedAll(accepts, b, DeletionStart(|b|), d) && AlphabetReduced(accepts, d, a) && Normalized(accepts, a, e, 1)
  }

  /** Consecutive buffers are a pass apart, and all but the last pass change something. */
  ghost predicate PassesOf(accepts: Oracle, run: seq<seq<byte>>) {
    && (forall k :: 0 <= k < |run| - 1 ==> OnePass(accepts, run[k], run[k + 1]))
    && (forall k :: 0 <= k < |run| - 2 ==> run[k] != run[k + 1])
  }

  lemma {:induction false} StagesArePass(accepts: Oracle, b: seq<byte>)
    ensures OnePass(accepts, b, CharactersFrom(accepts, AlphabetFrom(accepts, DeleteAll(accepts, b, DeletionStart(|b|)), 0), 0))
  {
    hide DeletedAll, AlphabetReduced, Normalized, DeleteAll, AlphabetFrom, CharactersFrom, NormalizeFrom;
    var d := DeleteAll(accepts, b, DeletionStart(|b|));
    var a := AlphabetFrom(accepts, d, 0);
    DeleteAllIsLaw(accepts, b, DeletionStart(|b|));
    AlphabetIsLaw(accepts, d);
    CharactersAreBlocks(accepts, a, 0);
    NormalizeIsLaw(accepts, a, 1);
  }

  lemma {:induction false} PassesRun(accepts: Oracle, b: seq<byte>, first: bool) returns (run: seq<seq<byte>>)
    ensures |run| > 0 && run[0] == b && run[|run| - 1] == Passes(accepts, b, first) && PassesOf(accepts, run)
    ensures first ==> |run| >= 2
    ensures |run| >= 2 && run[|run| - 1] != run[|run| - 2] ==>
              DeleteAll(accepts, run[|run| - 1], DeletionStart(|run[|run| - 1]|)) == run[|run| - 1]
    ensures |run| == 1 ==> DeleteAll(accepts, b, DeletionStart(|b|)) == b
    decreases |b|, NonZeros(b)
  {
    hide DeleteAll, AlphabetFrom, CharactersFrom, OnePass, DeletionStart;
    var d := DeleteAll(accepts, b, DeletionStart(|b|));
    if !first && d == b {
      run := [b];
    } else {
      var e := CharactersFrom(accepts, AlphabetFrom(accepts, d, 0), 0);
      StagesArePass(accepts, b);
      ZerosDecrease(accepts, b, d);
      if e != b {
        var rest := PassesRun(accepts, e, false);
        run := [b] + rest;
      } else {
        run := [b, e];
      }
    }
  }

  /** The minimizer, stage by stage: the buffer starts block-normalized, goes through one pass at
      least, and the passes end with one that changes nothing, or where no block can be deleted. */
  lemma {:induction false} MinimizedByStages(accepts: Oracle, b: seq<byte>) returns (run: seq<seq<byte>>)
    ensures |run| >= 2 && Normalized(accepts, b, run[0], NormalizeStep(|b|)) && PassesOf(accepts, run)
    ensures run[|run| - 1] == Minimized(accepts, b)
    ensures run[|run| - 1] != run[|run| - 2] ==>
              DeleteAll(accepts, run[|run| - 1], DeletionStart(|run[|run| - 1]|)) == run[|run| - 1]
    ensures SimplerThan(Minimized(accepts, b), run[0])
  {
    hide NormalizeFrom, Passes, PassesOf, Normalized, DeleteAll, SimplerThan;
    NormalizeIsLaw(accepts, b, NormalizeStep(|b|));
    PassesSimpler(accepts, NormalizeFrom(accepts, b, 0, NormalizeStep(|b|)), true);
    run := PassesRun(accepts, NormalizeFrom(accepts, b, 0, NormalizeStep(|b|)), true);
  }

  /** The block lengths the stages start from are the least powers of two of the size asked for. */
  lemma {:induction false} StageLengths(len: nat)
    ensures Power(DeletionStart(len)) && len / TRIM_START_STEPS <= DeletionStart(len)
    ensures forall q :: Power(q) && len / TRIM_START_STEPS <= q ==> DeletionStart(len) <= q
    ensures Power(NormalizeStep(len)) && len / TMIN_SET_STEPS <= NormalizeStep(len) && TMIN_SET_MIN_SIZE <= NormalizeStep(len)
    ensures forall q :: Power(q) && len / TMIN_SET_STEPS <= q && TMIN_SET_MIN_SIZE <= q ==> NormalizeStep(len) <= q
  {
    NextPowerLeast(len / TRIM_START_STEPS);
    NextPowerLeast(len / TMIN_SET_STEPS);
    assert Power(4);
    hide Power, NextPower;
  }
}
