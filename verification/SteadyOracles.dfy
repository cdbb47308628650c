/** Bytes of a minimized buffer that could still become '0': when some are left, and the oracles
    for which none is. */
module SteadyOracles {
  import opened Tmin

  // ----- what the end state does not promise -----

  /** No single byte can become '0'. */
  ghost predicate CharacterMinimal(accepts: Oracle, b: seq<byte>) {
    forall i :: 0 <= i < |b| && b[i] != ZERO ==> !accepts(b[i := ZERO])
  }

  /** Accepts "AAA", "A0A" and "00A" and nothing else. */
  const PICKY: Oracle := b => b == [65, 65, 65] || b == [65, ZERO, 65] || b == [ZERO, ZERO, 65]

  lemma {:induction false} PickyAlphabet(symbol: nat)
    requires symbol <= 256
    ensures AlphabetFrom(PICKY, [65, 65, 65], symbol) == [65, 65, 65]
    decreases 256 - symbol
  {
    var b: seq<byte> := [65, 65, 65];
    if symbol < 256 {
      var c := Replaced(b, symbol as byte);
      assert c[0] == c[1] == c[2];
      assert PICKY(c) ==> c == b;
      PickyAlphabet(symbol + 1);
    }
  }

  lemma PickyDelete(b: seq<byte>)
    requires |b| == 3
    ensures DeleteAll(PICKY, b, 1) == b && DeletionStart(3) == 1
  {
    assert !PICKY(Without(b, 0, 1)) && !PICKY(Without(b, 1, 1)) && !PICKY(Without(b, 2, 1));
    assert DeleteFrom(PICKY, b, 3, 1) == b;
    assert DeleteFrom(PICKY, b, 2, 1) == b;
    assert DeleteFrom(PICKY, b, 1, 1) == b;
  }

  lemma PickyCharacters()
    ensures CharactersFrom(PICKY, [65, 65, 65], 0) == [65, ZERO, 65]
  {
    var b: seq<byte> := [65, 65, 65];
    assert b[0 := ZERO] == [ZERO, 65, 65] && b[1 := ZERO] == [65, ZERO, 65];
    var c := b[1 := ZERO];
    assert c[2 := ZERO] == [65, ZERO, ZERO];
    assert CharactersFrom(PICKY, c, 3) == c;
    assert CharactersFrom(PICKY, c, 2) == c;
    assert CharactersFrom(PICKY, b, 1) == c;
  }

  lemma PickyNormalize()
    ensures NormalizeStep(3) == 4 && NormalizeFrom(PICKY, [65, 65, 65], 0, 4) == [65, 65, 65]
  {
    var b: seq<byte> := [65, 65, 65];
    assert Zeroed(b, 0, 3) == [ZERO, ZERO, ZERO];
    assert NormalizeFrom(PICKY, b, 4, 4) == b;
  }

  lemma LastPass(accepts: Oracle, b: seq<byte>)
    ensures DeleteAll(accepts, b, DeletionStart(|b|)) == b ==> Passes(accepts, b, false) == b
  {
    hide DeleteAll, DeletionStart, AlphabetFrom, CharactersFrom;
  }

  lemma FirstPass(accepts: Oracle, b: seq<byte>)
    ensures DeleteAll(accepts, b, DeletionStart(|b|)) == b && AlphabetFrom(accepts, b, 0) == b && CharactersFrom(accepts, b, 0) != b
            ==> Passes(accepts, b, true) == Passes(accepts, CharactersFrom(accepts, b, 0), false)
  {
    hide DeleteAll, DeletionStart, AlphabetFrom, CharactersFrom;
  }

  /** The last pass stops after its block deletion, so a byte that only now could become '0'
      stays: "AAA" is minimized to "A0A" although "00A" would be accepted. */
  lemma NotCharacterMinimal()
    ensures Minimized(PICKY, [65, 65, 65]) == [65, ZERO, 65] && !CharacterMinimal(PICKY, [65, ZERO, 65])
  {
    hide DeleteAll, AlphabetFrom, CharactersFrom, DeletionStart, NormalizeFrom, NormalizeStep, Passes;
    var b: seq<byte> := [65, 65, 65];
    var e: seq<byte> := [65, ZERO, 65];
    PickyNormalize();
    PickyDelete(b);
    PickyAlphabet(0);
    PickyCharacters();
    FirstPass(PICKY, b);
    PickyDelete(e);
    LastPass(PICKY, e);
    assert e[0] != ZERO && e[0 := ZERO] == [ZERO, ZERO, 65];
    assert PICKY(e[0 := ZERO]);
  }

  // ----- when it does: steady oracles -----

  /** None of the first `k` bytes can become '0'. */
  ghost predicate Settled(accepts: Oracle, b: seq<byte>, k: nat) {
    forall i :: 0 <= i < k && i < |b| && b[i] != ZERO ==> !accepts(b[i := ZERO])
  }

  /** Accepting a '0' never makes another one acceptable before it. */
  ghost predicate Steady(accepts: Oracle) {
    forall b: seq<byte>, k: nat ::
      Settled(accepts, b, k) && k < |b| && accepts(b) && accepts(b[k := ZERO]) ==> Settled(accepts, b[k := ZERO], k)
  }

  /** The character stage cut off after `k` bytes. */
  function CharactersUpto(accepts: Oracle, b: seq<byte>, k: nat): (r: seq<byte>)
    requires k <= |b|
    ensures |r| == |b| && (accepts(b) ==> accepts(r))
  {
    if k == 0 then b
    else
      var c := CharactersUpto(accepts, b, k - 1);
      if accepts(c[k - 1 := ZERO]) then c[k - 1 := ZERO] else c
  }

  lemma {:induction false} UptoThenFrom(accepts: Oracle, b: seq<byte>, k: nat)
    requires k <= |b|
    ensures CharactersFrom(accepts, CharactersUpto(accepts, b, k), k) == CharactersFrom(accepts, b, 0)
  {
    if k > 0 {
      UptoThenFrom(accepts, b, k - 1);
    }
  }

  lemma {:induction false} SteadySettles(accepts: Oracle, b: seq<byte>, k: nat)
    requires Steady(accepts) && accepts(b) && k <= |b|
    ensures Settled(accepts, CharactersUpto(accepts, b, k), k)
  {
    if k > 0 {
      SteadySettles(accepts, b, k - 1);
    }
  }

  lemma {:induction false} SettledUnchanged(accepts: Oracle, b: seq<byte>, k: nat)
    requires k <= |b| && Settled(accepts, b, k)
    ensures CharactersUpto(accepts, b, k) == b
  {
    if k > 0 {
      SettledUnchanged(accepts, b, k - 1);
      assert b[k - 1] == ZERO ==> b[k - 1 := ZERO] == b;
    }
  }

  /** On any input, and cut off anywhere, the stage leaves no byte it has passed that could
      become '0'. */
  ghost predicate StageSettles(accepts: Oracle) {
    forall b: seq<byte>, k: nat :: accepts(b) && k <= |b| ==> Settled(accepts, CharactersUpto(accepts, b, k), k)
  }

  lemma StageSettlesStep(accepts: Oracle, b: seq<byte>, k: nat)
    requires StageSettles(accepts) && Settled(accepts, b, k) && k < |b| && accepts(b) && accepts(b[k := ZERO])
    ensures Settled(accepts, b[k := ZERO], k)
  {
    SettledUnchanged(accepts, b, k);
    assert CharactersUpto(accepts, b, k + 1) == b[k := ZERO];
    assert Settled(accepts, b[k := ZERO], k + 1);
  }

  /** Steady oracles are exactly those for which every character stage settles. */
  lemma SteadyIff(accepts: Oracle)
    ensures Steady(accepts) <==> StageSettles(accepts)
  {
    if Steady(accepts) {
      forall b: seq<byte>, k: nat | accepts(b) && k <= |b|
        ensures Settled(accepts, CharactersUpto(accepts, b, k), k)
      {
        SteadySettles(accepts, b, k);
      }
    } else {
      var b: seq<byte>, k: nat :| Settled(accepts, b, k) && k < |b| && accepts(b) && accepts(b[k := ZERO])
                                  && !Settled(accepts, b[k := ZERO], k);
      if StageSettles(accepts) {
        StageSettlesStep(accepts, b, k);
      }
    }
  }

  /** What a pass returns comes out of a character stage. */
  lemma {:induction false} SteadyPasses(accepts: Oracle, b: seq<byte>, first: bool)
    requires Steady(accepts) && accepts(b) && (!first ==> Settled(accepts, b, |b|))
    ensures var r := Passes(accepts, b, first); Settled(accepts, r, |r|)
    decreases |b|, NonZeros(b)
  {
    hide Steady, Settled;
    var d := DeleteAll(accepts, b, DeletionStart(|b|));
    if first || d != b {
      DeleteAllAccepted(accepts, b, DeletionStart(|b|));
      var a := AlphabetFrom(accepts, d, 0);
      AlphabetAccepted(accepts, d, 0);
      var e := CharactersFrom(accepts, a, 0);
      CharactersAccepted(accepts, a, 0);
      UptoThenFrom(accepts, a, |a|);
      SteadySettles(accepts, a, |a|);
      ZerosDecrease(accepts, b, d);
      if e != b {
        SteadyPasses(accepts, e, false);
      }
    }
  }

  /** With a steady oracle no byte of the minimized buffer could become '0'. */
  lemma SteadyMinimized(accepts: Oracle, b: seq<byte>)
    requires Steady(accepts) && accepts(b)
    ensures CharacterMinimal(accepts, Minimized(accepts, b))
  {
    hide Steady, Passes, NormalizeFrom, NormalizeStep;
    var n := NormalizeFrom(accepts, b, 0, NormalizeStep(|b|));
    NormalizeAccepted(accepts, b, 0, NormalizeStep(|b|));
    SteadyPasses(accepts, n, true);
  }

  /** Oracles for which a '0' never helps, such as those that look for the bytes of a pattern,
      are steady. */
  lemma MonotoneSteady(accepts: Oracle)
    requires forall r, b :: ZeroedIn(r, b) && accepts(r) ==> accepts(b)
    ensures Steady(accepts)
  {
    forall b: seq<byte>, k: nat | Settled(accepts, b, k) && k < |b| && accepts(b) && accepts(b[k := ZERO])
      ensures Settled(accepts, b[k := ZERO], k)
    {
      forall i | 0 <= i < k && b[i] != ZERO
        ensures !accepts(b[k := ZERO][i := ZERO])
      {
        assert ZeroedIn(b[k := ZERO][i := ZERO], b[i := ZERO]);
      }
    }
  }

  /** Like `PICKY`, and accepts everything below three bytes. */
  const PICKY_OR_SHORT: Oracle := b => |b| < 3 || PICKY(b)

  /** Steadiness is not necessary: this oracle is not steady, yet every input it accepts is
      minimized to nothing. */
  lemma UnsteadyYetMinimal()
    ensures !Steady(PICKY_OR_SHORT)
    ensures forall b :: PICKY_OR_SHORT(b) ==> Minimized(PICKY_OR_SHORT, b) == []
  {
    hide Minimized;
    var c: seq<byte> := [65, 65, 65];
    assert c[0 := ZERO] == [ZERO, 65, 65] && c[1 := ZERO] == [65, ZERO, 65];
    var d := c[1 := ZERO];
    assert d[0] != ZERO && d[0 := ZERO] == [ZERO, ZERO, 65];
    assert PICKY_OR_SHORT(d[0 := ZERO]);
    assert Settled(PICKY_OR_SHORT, c, 1) && !Settled(PICKY_OR_SHORT, c[1 := ZERO], 1);
    forall b | PICKY_OR_SHORT(b)
      ensures Minimized(PICKY_OR_SHORT, b) == []
    {
      MinimizedAccepted(PICKY_OR_SHORT, b);
      if |Minimized(PICKY_OR_SHORT, b)| > 0 {
        MinimizedOneMinimal(PICKY_OR_SHORT, b, 0);
      }
    }
  }
}
