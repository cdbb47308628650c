/** The map of bytes and bits no run has hit yet, compared with the trace of a run one 64-bit
    word at a time. */
module VirginMap {
  type Map = seq<bv64>

  // ----- words and bytes -----

  function Byte0(w: bv64): bv8 { (w & 0xff) as bv8 }
  function Byte1(w: bv64): bv8 { ((w >> 8) & 0xff) as bv8 }
  function Byte2(w: bv64): bv8 { ((w >> 16) & 0xff) as bv8 }
  function Byte3(w: bv64): bv8 { ((w >> 24) & 0xff) as bv8 }
  function Byte4(w: bv64): bv8 { ((w >> 32) & 0xff) as bv8 }
  function Byte5(w: bv64): bv8 { ((w >> 40) & 0xff) as bv8 }
  function Byte6(w: bv64): bv8 { ((w >> 48) & 0xff) as bv8 }
  function Byte7(w: bv64): bv8 { ((w >> 56) & 0xff) as bv8 }

  function Byte(w: bv64, k: nat): bv8
    requires k < 8
  {
    if k == 0 then Byte0(w) else if k == 1 then Byte1(w) else if k == 2 then Byte2(w) else if k == 3 then Byte3(w)
    else if k == 4 then Byte4(w) else if k == 5 then Byte5(w) else if k == 6 then Byte6(w) else Byte7(w)
  }

  /** Byte `i` of a map. */
  function At(m: Map, i: nat): bv8
    requires i < 8 * |m|
  {
    Byte(m[i / 8], i % 8)
  }

  /** The trace sets a bit the virgin word still has. */
  predicate Overlap(c: bv64, v: bv64) {
    c & v != 0
  }

  /** The virgin word without the bits of the trace. */
  function Clear(v: bv64, c: bv64): bv64 {
    v & !c
  }

  /** A byte of the trace sets a bit the virgin byte still has. */
  predicate Hits(c: bv8, v: bv8) {
    c & v != 0
  }

  lemma WordOverlap(c: bv64, v: bv64)
    ensures Overlap(c, v) <==>
              (Hits(Byte0(c), Byte0(v)) || Hits(Byte1(c), Byte1(v)) || Hits(Byte2(c), Byte2(v)) || Hits(Byte3(c), Byte3(v)) ||
               Hits(Byte4(c), Byte4(v)) || Hits(Byte5(c), Byte5(v)) || Hits(Byte6(c), Byte6(v)) || Hits(Byte7(c), Byte7(v)))
  {
  }

  function ClearByte(v: bv8, c: bv8): bv8 {
    v & !c
  }

  // One byte a lemma: the solver does not decide two of these equations together.

  lemma ClearedByte0(c: bv64, v: bv64) ensures Byte0(Clear(v, c)) == ClearByte(Byte0(v), Byte0(c)) {}
  lemma ClearedByte1(c: bv64, v: bv64) ensures Byte1(Clear(v, c)) == ClearByte(Byte1(v), Byte1(c)) {}
  lemma ClearedByte2(c: bv64, v: bv64) ensures Byte2(Clear(v, c)) == ClearByte(Byte2(v), Byte2(c)) {}
  lemma ClearedByte3(c: bv64, v: bv64) ensures Byte3(Clear(v, c)) == ClearByte(Byte3(v), Byte3(c)) {}
  lemma ClearedByte4(c: bv64, v: bv64) ensures Byte4(Clear(v, c)) == ClearByte(Byte4(v), Byte4(c)) {}
  lemma ClearedByte5(c: bv64, v: bv64) ensures Byte5(Clear(v, c)) == ClearByte(Byte5(v), Byte5(c)) {}
  lemma ClearedByte6(c: bv64, v: bv64) ensures Byte6(Clear(v, c)) == ClearByte(Byte6(v), Byte6(c)) {}
  lemma ClearedByte7(c: bv64, v: bv64) ensures Byte7(Clear(v, c)) == ClearByte(Byte7(v), Byte7(c)) {}

  lemma ClearedByte(c: bv64, v: bv64, k: nat)
    requires k < 8
    ensures Byte(Clear(v, c), k) == ClearByte(Byte(v, k), Byte(c, k))
  {
    hide Byte0, Byte1, Byte2, Byte3, Byte4, Byte5, Byte6, Byte7, Clear, ClearByte;
    if k == 0 { ClearedByte0(c, v); } else if k == 1 { ClearedByte1(c, v); } else if k == 2 { ClearedByte2(c, v); } else if k == 3 { ClearedByte3(c, v); }
    else if k == 4 { ClearedByte4(c, v); } else if k == 5 { ClearedByte5(c, v); } else if k == 6 { ClearedByte6(c, v); } else { ClearedByte7(c, v); }
  }

  /** A non-zero byte of the trace whose virgin byte is untouched. */
  predicate Pristine(c: bv64, v: bv64) {
    (Byte0(c) != 0 && Byte0(v) == 0xff) || (Byte1(c) != 0 && Byte1(v) == 0xff) ||
    (Byte2(c) != 0 && Byte2(v) == 0xff) || (Byte3(c) != 0 && Byte3(v) == 0xff) ||
    (Byte4(c) != 0 && Byte4(v) == 0xff) || (Byte5(c) != 0 && Byte5(v) == 0xff) ||
    (Byte6(c) != 0 && Byte6(v) == 0xff) || (Byte7(c) != 0 && Byte7(v) == 0xff)
  }

  // ----- byte by byte -----

  /** Some byte is hit that was never hit. */
  ghost predicate NewByte(trace: Map, virgin: Map)
    requires |trace| == |virgin|
  {
    exists i :: 0 <= i < 8 * |trace| && At(trace, i) != 0 && At(virgin, i) == 0xff
  }

  /** Some bit is set that was never set. */
  ghost predicate NewBit(trace: Map, virgin: Map)
    requires |trace| == |virgin|
  {
    exists i :: 0 <= i < 8 * |trace| && Hits(At(trace, i), At(virgin, i))
  }

  ghost function Verdict(trace: Map, virgin: Map): nat
    requires |trace| == |virgin|
  {
    if NewByte(trace, virgin) then 2 else if NewBit(trace, virgin) then 1 else 0
  }

  ghost function Cleared(trace: Map, virgin: Map): (r: Map)
    requires |trace| == |virgin|
    ensures |r| == |virgin|
  {
    seq(|virgin|, j requires 0 <= j < |virgin| => Clear(virgin[j], trace[j]))
  }

  lemma ByteIndex(m: Map, j: nat, k: nat)
    requires j < |m| && k < 8
    ensures 8 * j + k < 8 * |m| && At(m, 8 * j + k) == Byte(m[j], k)
  {
    assert (8 * j + k) / 8 == j && (8 * j + k) % 8 == k;
  }

  lemma PristineIsNewByte(trace: Map, virgin: Map, j: nat)
    requires |trace| == |virgin| && j < |trace| && Pristine(trace[j], virgin[j])
    ensures NewByte(trace, virgin)
  {
    var k := if Byte0(trace[j]) != 0 && Byte0(virgin[j]) == 0xff then 0
             else if Byte1(trace[j]) != 0 && Byte1(virgin[j]) == 0xff then 1
             else if Byte2(trace[j]) != 0 && Byte2(virgin[j]) == 0xff then 2
             else if Byte3(trace[j]) != 0 && Byte3(virgin[j]) == 0xff then 3
             else if Byte4(trace[j]) != 0 && Byte4(virgin[j]) == 0xff then 4
             else if Byte5(trace[j]) != 0 && Byte5(virgin[j]) == 0xff then 5
             else if Byte6(trace[j]) != 0 && Byte6(virgin[j]) == 0xff then 6 else 7;
    hide Byte;
    ByteIndex(trace, j, k);
    ByteIndex(virgin, j, k);
  }

  lemma OverlapIsNewBit(trace: Map, virgin: Map, j: nat)
    requires |trace| == |virgin| && j < |trace| && Overlap(trace[j], virgin[j])
    ensures NewBit(trace, virgin)
  {
    hide Byte, Overlap, Hits;
    var k := OverlapByte(trace[j], virgin[j]);
    ByteIndex(trace, j, k);
    ByteIndex(virgin, j, k);
  }

  /** Words that are not pristine hide no new byte. */
  lemma WordsDecideByte(trace: Map, virgin: Map)
    requires |trace| == |virgin|
    ensures NewByte(trace, virgin) <==> exists j :: 0 <= j < |trace| && Overlap(trace[j], virgin[j]) && Pristine(trace[j], virgin[j])
  {
    hide Byte, Pristine, Overlap, Hits;
    if NewByte(trace, virgin) {
      var i :| 0 <= i < 8 * |trace| && At(trace, i) != 0 && At(virgin, i) == 0xff;
      ByteInWord(trace[i / 8], virgin[i / 8], i % 8);
    }
    if j :| 0 <= j < |trace| && Overlap(trace[j], virgin[j]) && Pristine(trace[j], virgin[j]) {
      PristineIsNewByte(trace, virgin, j);
    }
  }

  /** Words without overlap hide no new bit. */
  lemma WordsDecideBit(trace: Map, virgin: Map)
    requires |trace| == |virgin|
    ensures NewBit(trace, virgin) <==> exists j :: 0 <= j < |trace| && Overlap(trace[j], virgin[j])
  {
    hide Byte, Pristine, Overlap, Hits;
    if NewBit(trace, virgin) {
      var i :| 0 <= i < 8 * |trace| && Hits(At(trace, i), At(virgin, i));
      ByteInWord(trace[i / 8], virgin[i / 8], i % 8);
    }
    if j :| 0 <= j < |trace| && Overlap(trace[j], virgin[j]) {
      OverlapIsNewBit(trace, virgin, j);
    }
  }

  lemma OverlapByte(c: bv64, v: bv64) returns (k: nat)
    requires Overlap(c, v)
    ensures k < 8 && Hits(Byte(c, k), Byte(v, k))
  {
    WordOverlap(c, v);
    hide Overlap, Hits, Byte0, Byte1, Byte2, Byte3, Byte4, Byte5, Byte6, Byte7;
    k := if Hits(Byte0(c), Byte0(v)) then 0 else if Hits(Byte1(c), Byte1(v)) then 1
         else if Hits(Byte2(c), Byte2(v)) then 2 else if Hits(Byte3(c), Byte3(v)) then 3
         else if Hits(Byte4(c), Byte4(v)) then 4 else if Hits(Byte5(c), Byte5(v)) then 5
         else if Hits(Byte6(c), Byte6(v)) then 6 else 7;
  }

  lemma ByteInWord(c: bv64, v: bv64, k: nat)
    requires k < 8
    ensures Byte(c, k) != 0 && Byte(v, k) == 0xff ==> Pristine(c, v) && Overlap(c, v)
    ensures Hits(Byte(c, k), Byte(v, k)) ==> Overlap(c, v)
  {
    hide Overlap, Hits, Byte0, Byte1, Byte2, Byte3, Byte4, Byte5, Byte6, Byte7;
    WordOverlap(c, v);
    AllOnes(Byte(c, k), Byte(v, k));
  }

  /** A hit on a byte never hit sets a new bit. */
  lemma AllOnes(x: bv8, y: bv8)
    ensures x != 0 && y == 0xff ==> Hits(x, y)
  {
  }

  // ----- the loop -----

  /** What the words before `i` say. */
  ghost function Partial(t: Map, v: Map, i: nat): nat
    requires |t| == |v| && i <= |t|
  {
    if exists j :: 0 <= j < i && Overlap(t[j], v[j]) && Pristine(t[j], v[j]) then 2
    else if exists j :: 0 <= j < i && Overlap(t[j], v[j]) then 1 else 0
  }

  lemma NextWord(t: Map, v: Map, i: nat)
    requires |t| == |v| && i < |t|
    ensures Partial(t, v, i + 1) ==
            (if !Overlap(t[i], v[i]) || Partial(t, v, i) == 2 then Partial(t, v, i)
             else if Pristine(t[i], v[i]) then 2 else 1)
  {
    hide Pristine, Overlap;
  }

  lemma NothingYet(t: Map, v: Map)
    requires |t| == |v|
    ensures Partial(t, v, 0) == 0
  {
  }

  lemma PartialIsVerdict(t: Map, v: Map)
    requires |t| == |v|
    ensures Partial(t, v, |t|) == Verdict(t, v)
  {
    hide Pristine, NewByte, NewBit, Overlap;
    WordsDecideByte(t, v);
    WordsDecideBit(t, v);
  }

  method HasNewBits(trace: array<bv64>, virgin: array<bv64>) returns (ret: nat)
    requires trace.Length == virgin.Length && trace != virgin
    modifies virgin
    ensures ret == Verdict(trace[..], old(virgin[..]))
    ensures virgin[..] == Cleared(trace[..], old(virgin[..]))
  {
    hide Pristine, Verdict, Partial, Overlap, Clear;
    ret := 0;
    var i := 0;
    ghost var t, v := trace[..], virgin[..];
    NothingYet(t, v);
    while i < trace.Length
      invariant 0 <= i <= trace.Length
      invariant forall j :: 0 <= j < i ==> virgin[j] == Clear(v[j], t[j])
      invariant forall j :: i <= j < trace.Length ==> virgin[j] == v[j]
      invariant ret == Partial(t, v, i)
    {
      NextWord(t, v, i);
      NothingToClear(t[i], v[i]);
      var c, w := trace[i], virgin[i];
      if c != 0 && Overlap(c, w) {
        if ret < 2 {
          ret := if Pristine(c, w) then 2 else 1;
        }
        virgin[i] := Clear(w, c);
      }
      i := i + 1;
    }
    PartialIsVerdict(t, v);
  }

  lemma NothingToClear(c: bv64, v: bv64)
    ensures c == 0 ==> !Overlap(c, v)
    ensures !Overlap(c, v) ==> Clear(v, c) == v
  {
  }

  // ----- any sequence of runs -----

  /** The virgin map of `n` words after these traces, the first one first. */
  ghost function VirginAfter(traces: seq<Map>, n: nat): (r: Map)
    requires forall k :: 0 <= k < |traces| ==> |traces[k]| == n
    ensures |r| == n
  {
    if |traces| == 0 then seq(n, _ => 0xffff_ffff_ffff_ffff)
    else Cleared(traces[|traces| - 1], VirginAfter(traces[..|traces| - 1], n))
  }

  /** All the bits ever set in byte `i`. */
  ghost function Union(traces: seq<Map>, n: nat, i: nat): bv8
    requires (forall k :: 0 <= k < |traces| ==> |traces[k]| == n) && i < 8 * n
  {
    if |traces| == 0 then 0 else Union(traces[..|traces| - 1], n, i) | At(traces[|traces| - 1], i)
  }

  lemma {:induction false} VirginIsComplement(traces: seq<Map>, n: nat, i: nat)
    requires (forall k :: 0 <= k < |traces| ==> |traces[k]| == n) && i < 8 * n
    ensures At(VirginAfter(traces, n), i) == !Union(traces, n, i)
  {
    if |traces| > 0 {
      var last := |traces| - 1;
      VirginIsComplement(traces[..last], n, i);
      ClearedByte(traces[last][i / 8], VirginAfter(traces[..last], n)[i / 8], i % 8);
      hide Byte;
      DeMorgan(Union(traces[..last], n, i), At(traces[last], i));
    } else {
      assert Byte(0xffff_ffff_ffff_ffff, i % 8) == 0xff;
    }
  }

  lemma DeMorgan(a: bv8, b: bv8)
    ensures !(a | b) == !a & !b
    ensures a | b == 0 <==> a == 0 && b == 0
  {
  }

  lemma {:induction false} UnionZero(traces: seq<Map>, n: nat, i: nat)
    requires (forall k :: 0 <= k < |traces| ==> |traces[k]| == n) && i < 8 * n
    ensures Union(traces, n, i) == 0 <==> forall k :: 0 <= k < |traces| ==> At(traces[k], i) == 0
  {
    if |traces| > 0 {
      var last := |traces| - 1;
      UnionZero(traces[..last], n, i);
      DeMorgan(Union(traces[..last], n, i), At(traces[last], i));
      hide At;
      forall k | 0 <= k < last
        ensures traces[..last][k] == traces[k]
      {
      }
    }
  }

  lemma Complement(x: bv8)
    ensures !x == 0xff <==> x == 0
  {
  }

  /** The verdict on a run after any history: 2 when a byte is hit for the first time ever, 1
      when only bits are new, 0 otherwise. */
  lemma VerdictMeaning(traces: seq<Map>, n: nat, trace: Map)
    requires (forall k :: 0 <= k < |traces| ==> |traces[k]| == n) && |trace| == n
    ensures Verdict(trace, VirginAfter(traces, n)) == 2 <==>
              exists i :: 0 <= i < 8 * n && At(trace, i) != 0 && forall k :: 0 <= k < |traces| ==> At(traces[k], i) == 0
    ensures Verdict(trace, VirginAfter(traces, n)) >= 1 <==>
              exists i :: 0 <= i < 8 * n && Hits(At(trace, i), !Union(traces, n, i))
  {
    hide At, Union, VirginAfter;
    var v := VirginAfter(traces, n);
    forall i | 0 <= i < 8 * n
      ensures At(v, i) == !Union(traces, n, i)
      ensures At(v, i) == 0xff <==> forall k :: 0 <= k < |traces| ==> At(traces[k], i) == 0
    {
      VirginIsComplement(traces, n, i);
      UnionZero(traces, n, i);
      Complement(Union(traces, n, i));
    }
    if i :| 0 <= i < 8 * n && At(trace, i) != 0 && At(v, i) == 0xff {
      AllOnes(At(trace, i), At(v, i));
    }
  }

  lemma {:induction false} UnionHolds(traces: seq<Map>, n: nat, i: nat, k: nat)
    requires (forall j :: 0 <= j < |traces| ==> |traces[j]| == n) && i < 8 * n && k < |traces|
    ensures !Hits(At(traces[k], i), !Union(traces, n, i))
  {
    var last := |traces| - 1;
    if k < last {
      UnionHolds(traces[..last], n, i, k);
      Absorbed(At(traces[k], i), Union(traces[..last], n, i), At(traces[last], i));
    } else {
      AbsorbedLast(Union(traces[..last], n, i), At(traces[last], i));
    }
  }

  lemma Absorbed(x: bv8, a: bv8, b: bv8)
    requires !Hits(x, !a)
    ensures !Hits(x, !(a | b))
  {
  }

  lemma AbsorbedLast(a: bv8, b: bv8)
    ensures !Hits(b, !(a | b))
  {
  }

  /** A trace seen before is never new again. */
  lemma RepeatIsOld(traces: seq<Map>, n: nat, k: nat)
    requires (forall j :: 0 <= j < |traces| ==> |traces[j]| == n) && k < |traces|
    ensures Verdict(traces[k], VirginAfter(traces, n)) == 0
  {
    VerdictMeaning(traces, n, traces[k]);
    hide At, Union, VirginAfter;
    forall i | 0 <= i < 8 * n
      ensures !Hits(At(traces[k], i), !Union(traces, n, i))
    {
      UnionHolds(traces, n, i, k);
    }
  }
}
