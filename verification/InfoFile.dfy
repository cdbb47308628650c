/** The info file: the pass appends one section of compares and one of branches per module, the
    fuzzer reads all of them into flat tables that are shared with the target. */
module InfoFile {
  import opened Conditions
  import StackMachine

  datatype Unit = Unit(moduleId: int, cmps: seq<CmpInfo>, branches: seq<Branch>)

  // ----- the file: a stream of numbers -----

  function SaveCmps(cs: seq<CmpInfo>): seq<int> {
    if |cs| == 0 then [] else [cs[0].moduleId, cs[0].id, cs[0].cmpType] + SaveCmps(cs[1..])
  }

  function SaveEntry(e: Entry): seq<int> {
    [e.id, e.cmpType, if e.no then 1 else 0]
  }

  function SaveEntries(es: seq<Entry>): (r: seq<int>)
    ensures |r| == 3 * |es|
  {
    if |es| == 0 then [] else SaveEntry(es[0]) + SaveEntries(es[1..])
  }

  function SaveBranch(moduleId: int, b: Branch): seq<int> {
    [moduleId, b.id, b.left, b.right, |b.cmpvec|] + SaveEntries(b.cmpvec)
  }

  function SaveBranches(moduleId: int, bs: seq<Branch>): seq<int> {
    if |bs| == 0 then [] else SaveBranch(moduleId, bs[0]) + SaveBranches(moduleId, bs[1..])
  }

  datatype Section = CmpSection(moduleId: int, cmps: seq<CmpInfo>) | BrSection(moduleId: int, branches: seq<Branch>)

  function SaveSection(s: Section): (r: seq<int>)
    ensures |r| >= 3
  {
    match s
    case CmpSection(m, cs) => [m, 0, |cs|] + SaveCmps(cs)
    case BrSection(m, bs) => [m, 1, |bs|] + SaveBranches(m, bs)
  }

  function SaveAll(ss: seq<Section>): seq<int> {
    if |ss| == 0 then [] else SaveSection(ss[0]) + SaveAll(ss[1..])
  }

  /** Every compilation unit appends two sections. */
  function Sections(us: seq<Unit>): seq<Section> {
    if |us| == 0 then []
    else [CmpSection(us[0].moduleId, us[0].cmps), BrSection(us[0].moduleId, us[0].branches)] + Sections(us[1..])
  }

  class Stream {
    var out: seq<int>

    constructor ()
      ensures out == []
    {
      out := [];
    }

    method PutCmps(cs: seq<CmpInfo>)
      modifies this
      ensures out == old(out) + SaveCmps(cs)
    {
      var i := 0;
      while i < |cs|
        invariant 0 <= i <= |cs|
        invariant out + SaveCmps(cs[i..]) == old(out) + SaveCmps(cs)
      {
        SaveCmpsStep(out, cs, i);
        out := out + [cs[i].moduleId, cs[i].id, cs[i].cmpType];
        i := i + 1;
      }
    }

    method PutEntries(es: seq<Entry>)
      modifies this
      ensures out == old(out) + SaveEntries(es)
    {
      hide SaveEntry;
      var i := 0;
      while i < |es|
        invariant 0 <= i <= |es|
        invariant out + SaveEntries(es[i..]) == old(out) + SaveEntries(es)
      {
        SaveEntriesStep(out, es, i);
        out := out + SaveEntry(es[i]);
        i := i + 1;
      }
    }

    method PutBranches(moduleId: int, bs: seq<Branch>)
      modifies this
      ensures out == old(out) + SaveBranches(moduleId, bs)
    {
      var i := 0;
      while i < |bs|
        invariant 0 <= i <= |bs|
        invariant out + SaveBranches(moduleId, bs[i..]) == old(out) + SaveBranches(moduleId, bs)
      {
        SaveBranchesStep(out, moduleId, bs, i);
        out := out + [moduleId, bs[i].id, bs[i].left, bs[i].right, |bs[i].cmpvec|];
        PutEntries(bs[i].cmpvec);
        i := i + 1;
      }
    }

    /** What the end of the pass appends for one compilation unit. */
    method PutUnit(u: Unit)
      modifies this
      ensures out == old(out) + SaveAll(Sections([u]))
    {
      hide SaveAll, Sections, SaveCmps, SaveBranches;
      ghost var start := out;
      out := out + [u.moduleId, 0, |u.cmps|];
      PutCmps(u.cmps);
      out := out + [u.moduleId, 1, |u.branches|];
      PutBranches(u.moduleId, u.branches);
      UnitSections(u);
      Regroup(start, [u.moduleId, 0, |u.cmps|], SaveCmps(u.cmps), [u.moduleId, 1, |u.branches|], SaveBranches(u.moduleId, u.branches));
    }
  }

  lemma Regroup(s: seq<int>, a: seq<int>, b: seq<int>, c: seq<int>, d: seq<int>)
    ensures s + a + b + c + d == s + ((a + b) + (c + d))
  {
  }

  lemma SaveCmpsStep(out: seq<int>, cs: seq<CmpInfo>, i: nat)
    requires i < |cs|
    ensures out + SaveCmps(cs[i..]) == (out + [cs[i].moduleId, cs[i].id, cs[i].cmpType]) + SaveCmps(cs[i + 1..])
  {
    assert cs[i..][1..] == cs[i + 1..];
  }

  lemma SaveEntriesStep(out: seq<int>, es: seq<Entry>, i: nat)
    requires i < |es|
    ensures out + SaveEntries(es[i..]) == (out + SaveEntry(es[i])) + SaveEntries(es[i + 1..])
  {
    hide SaveEntry;
    assert es[i..][1..] == es[i + 1..];
  }

  lemma SaveBranchesStep(out: seq<int>, m: int, bs: seq<Branch>, i: nat)
    requires i < |bs|
    ensures out + SaveBranches(m, bs[i..])
         == (out + [m, bs[i].id, bs[i].left, bs[i].right, |bs[i].cmpvec|] + SaveEntries(bs[i].cmpvec)) + SaveBranches(m, bs[i + 1..])
  {
    assert bs[i..][1..] == bs[i + 1..];
    Flat(out, [m, bs[i].id, bs[i].left, bs[i].right, |bs[i].cmpvec|], SaveEntries(bs[i].cmpvec), SaveBranches(m, bs[i + 1..]));
  }

  lemma Flat(out: seq<int>, a: seq<int>, b: seq<int>, c: seq<int>)
    ensures out + ((a + b) + c) == (out + a + b) + c
  {
  }

  lemma UnitSections(u: Unit)
    ensures SaveAll(Sections([u])) == SaveSection(CmpSection(u.moduleId, u.cmps)) + SaveSection(BrSection(u.moduleId, u.branches))
  {
    hide SaveSection;
    assert [u][1..] == [];
    var ss := Sections([u]);
    assert Sections([u][1..]) == [];
    assert ss[0] == CmpSection(u.moduleId, u.cmps) && ss[1..] == [BrSection(u.moduleId, u.branches)];
    assert ss[1..][1..] == [];
    assert SaveAll(ss[1..]) == SaveSection(BrSection(u.moduleId, u.branches));
  }

  /** Units written one after the other make one file. */
  lemma {:induction false} SaveAppends(a: seq<Unit>, b: seq<Unit>)
    ensures SaveAll(Sections(a + b)) == SaveAll(Sections(a)) + SaveAll(Sections(b))
  {
    hide SaveSection;
    if |a| == 0 {
      assert a + b == b;
    } else {
      assert (a + b)[1..] == a[1..] + b;
      SaveAppends(a[1..], b);
      TwoSections(a[0], a[1..]);
      TwoSections(a[0], a[1..] + b);
      assert [a[0]] + a[1..] == a && [a[0]] + (a[1..] + b) == a + b;
    }
  }

  lemma TwoSections(u: Unit, us: seq<Unit>)
    ensures SaveAll(Sections([u] + us)) == SaveAll(Sections([u])) + SaveAll(Sections(us))
  {
    UnitSections(u);
    hide SaveSection;
    assert ([u] + us)[1..] == us;
    var ss := Sections([u] + us);
    assert ss[1..][1..] == Sections(us);
  }

  // ----- machine integers -----

  /** What `%d` leaves in an unsigned 32-bit variable. */
  function U32(x: int): nat {
    x % 0x1_0000_0000
  }

  /** The cast to a signed 16-bit number. */
  function S16(x: nat): int {
    var low := x % 0x1_0000;
    if low >= 0x8000 then low - 0x1_0000 else low
  }

  predicate FitsS16(x: int) {
    -0x8000 <= x < 0x8000
  }

  lemma S16Exact(x: int)
    ensures S16(U32(x)) == x <==> FitsS16(x)
  {
    var q := x / 0x1_0000_0000;
    assert x == 0x1_0000_0000 * q + U32(x);
    var p := U32(x) / 0x1_0000;
    assert U32(x) == 0x1_0000 * p + U32(x) % 0x1_0000;
    assert x == 0x1_0000 * (0x1_0000 * q + p) + U32(x) % 0x1_0000;
    if FitsS16(x) {
      var d := 0x1_0000 * q + p;
      assert d == 0 || d == -1;
    }
  }

  // ----- the tables -----

  datatype CmpRecord = CmpRecord(moduleId: nat, cmpId: nat, cmpType: nat)

  /** `cmpVec` is where the first triple starts in the array of all triples. */
  datatype BrRecord = BrRecord(moduleId: nat, brId: nat, left: nat, right: nat, cmpSize: nat, cmpVec: nat)

  datatype Tables = Tables(
    cmpInfo: seq<CmpRecord>, cmpInfoPtr: map<nat, nat>,
    brInfo: seq<BrRecord>, brInfoPtr: map<nat, nat>,
    cmpvec: seq<int>, vecCnt: nat)

  const EMPTY := Tables([], map[], [], map[], [], 0)

  function CmpRecords(cs: seq<CmpInfo>): (r: seq<CmpRecord>)
    ensures |r| == |cs|
  {
    if |cs| == 0 then [] else [Converted(cs[0])] + CmpRecords(cs[1..])
  }

  function Converted(c: CmpInfo): CmpRecord {
    CmpRecord(U32(c.moduleId), U32(c.id), U32(c.cmpType))
  }

  lemma {:induction false} CmpRecordAt(cs: seq<CmpInfo>, i: nat)
    requires i < |cs|
    ensures CmpRecords(cs)[i] == Converted(cs[i])
  {
    if i > 0 {
      CmpRecordAt(cs[1..], i - 1);
    }
  }

  function Truncated(e: Entry): seq<int> {
    [S16(U32(e.id)), S16(U32(e.cmpType)), if e.no then 1 else 0]
  }

  function Triples(es: seq<Entry>): (r: seq<int>)
    ensures |r| == 3 * |es|
  {
    if |es| == 0 then [] else Truncated(es[0]) + Triples(es[1..])
  }

  function WithBranch(t: Tables, moduleId: int, b: Branch): Tables {
    t.(brInfo := t.brInfo + [BrRecord(U32(moduleId), U32(b.id), U32(b.left), U32(b.right), |b.cmpvec|, 3 * t.vecCnt)],
       cmpvec := t.cmpvec + Triples(b.cmpvec),
       vecCnt := t.vecCnt + |b.cmpvec|)
  }

  function WithBranches(t: Tables, moduleId: int, bs: seq<Branch>): Tables
    decreases |bs|
  {
    if |bs| == 0 then t else WithBranches(WithBranch(t, moduleId, bs[0]), moduleId, bs[1..])
  }

  function WithSection(t: Tables, s: Section): Tables {
    match s
    case CmpSection(m, cs) =>
      t.(cmpInfoPtr := t.cmpInfoPtr[U32(m) := |t.cmpInfo|], cmpInfo := t.cmpInfo + CmpRecords(cs))
    case BrSection(m, bs) =>
      WithBranches(t.(brInfoPtr := t.brInfoPtr[U32(m) := |t.brInfo|]), m, bs)
  }

  /** The tables after these sections. */
  function Loaded(t: Tables, ss: seq<Section>): Tables
    decreases |ss|
  {
    if |ss| == 0 then t else Loaded(WithSection(t, ss[0]), ss[1..])
  }

  function WithUnit(t: Tables, u: Unit): Tables {
    WithSection(WithSection(t, CmpSection(u.moduleId, u.cmps)), BrSection(u.moduleId, u.branches))
  }

  lemma LoadedUnit(t: Tables, us: seq<Unit>)
    requires |us| > 0
    ensures Loaded(t, Sections(us)) == Loaded(WithUnit(t, us[0]), Sections(us[1..]))
  {
    hide WithSection;
    var ss := Sections(us);
    assert ss[1..][1..] == Sections(us[1..]);
    assert Loaded(t, ss) == Loaded(WithSection(t, ss[0]), ss[1..]);
  }

  // ----- what the tables hold -----

  /** Entries once written stay, and so do the pointers of the units but `moduleId`. */
  ghost predicate Grows(t: Tables, s: Tables, moduleIds: set<nat>) {
    && t.cmpInfo <= s.cmpInfo && t.brInfo <= s.brInfo && t.cmpvec <= s.cmpvec
    && (forall m :: m in t.cmpInfoPtr && m !in moduleIds ==> m in s.cmpInfoPtr && s.cmpInfoPtr[m] == t.cmpInfoPtr[m])
    && (forall m :: m in t.brInfoPtr && m !in moduleIds ==> m in s.brInfoPtr && s.brInfoPtr[m] == t.brInfoPtr[m])
  }

  function End(r: BrRecord): nat {
    r.cmpVec + 3 * r.cmpSize
  }

  /** The triples of the branches lie one after the other and fill the array. */
  ghost predicate Packed(t: Tables) {
    && |t.cmpvec| == 3 * t.vecCnt
    && (forall i :: 0 <= i < |t.brInfo| - 1 ==> End(t.brInfo[i]) == t.brInfo[i + 1].cmpVec)
    && (|t.brInfo| == 0 ==> t.vecCnt == 0)
    && (|t.brInfo| > 0 ==> t.brInfo[0].cmpVec == 0 && End(t.brInfo[|t.brInfo| - 1]) == |t.cmpvec|)
  }

  lemma {:induction false} BranchesGrow(t: Tables, moduleId: int, bs: seq<Branch>)
    requires Packed(t)
    ensures Packed(WithBranches(t, moduleId, bs)) && Grows(t, WithBranches(t, moduleId, bs), {})
    ensures WithBranches(t, moduleId, bs).cmpInfoPtr == t.cmpInfoPtr && WithBranches(t, moduleId, bs).brInfoPtr == t.brInfoPtr
    ensures WithBranches(t, moduleId, bs).cmpInfo == t.cmpInfo
    decreases |bs|
  {
    if |bs| > 0 {
      BranchesGrow(WithBranch(t, moduleId, bs[0]), moduleId, bs[1..]);
    }
  }

  lemma UnitGrows(t: Tables, u: Unit)
    requires Packed(t)
    ensures Packed(WithUnit(t, u)) && Grows(t, WithUnit(t, u), {U32(u.moduleId)})
  {
    var s := WithSection(t, CmpSection(u.moduleId, u.cmps));
    BranchesGrow(s.(brInfoPtr := s.brInfoPtr[U32(u.moduleId) := |s.brInfo|]), u.moduleId, u.branches);
  }

  function Ids(us: seq<Unit>): set<nat> {
    set i | 0 <= i < |us| :: U32(us[i].moduleId)
  }

  lemma IdsCons(us: seq<Unit>)
    requires |us| > 0
    ensures Ids(us) == {U32(us[0].moduleId)} + Ids(us[1..])
  {
    hide U32;
    forall i | 0 <= i < |us|
      ensures U32(us[i].moduleId) in {U32(us[0].moduleId)} + Ids(us[1..])
    {
      assert i > 0 ==> us[i] == us[1..][i - 1];
    }
    forall i | 0 <= i < |us| - 1
      ensures U32(us[1..][i].moduleId) in Ids(us)
    {
      assert us[1..][i] == us[i + 1];
    }
  }

  lemma GrowsTransitive(a: Tables, b: Tables, c: Tables, x: set<nat>, y: set<nat>)
    requires Grows(a, b, x) && Grows(b, c, y)
    ensures Grows(a, c, x + y)
  {
  }

  lemma {:induction false} LoadedGrows(t: Tables, us: seq<Unit>)
    requires Packed(t)
    ensures Packed(Loaded(t, Sections(us))) && Grows(t, Loaded(t, Sections(us)), Ids(us))
    decreases |us|
  {
    if |us| > 0 {
      hide WithUnit, Packed, Sections, Grows, U32, Ids, Loaded;
      var s := WithUnit(t, us[0]);
      UnitGrows(t, us[0]);
      LoadedUnit(t, us);
      LoadedGrows(s, us[1..]);
      IdsCons(us);
      GrowsTransitive(t, s, Loaded(s, Sections(us[1..])), {U32(us[0].moduleId)}, Ids(us[1..]));
    }
  }

  /** Packed triples of different branches do not overlap. */
  lemma {:induction false} TriplesDisjoint(t: Tables, i: nat, j: nat)
    requires Packed(t) && i < j < |t.brInfo|
    ensures End(t.brInfo[i]) <= t.brInfo[j].cmpVec
    ensures End(t.brInfo[j]) <= |t.cmpvec|
    decreases |t.brInfo| - i
  {
    if i + 1 < j {
      TriplesDisjoint(t, i + 1, j);
    } else {
      ReachesEnd(t, j);
    }
  }

  lemma {:induction false} ReachesEnd(t: Tables, j: nat)
    requires Packed(t) && j < |t.brInfo|
    ensures End(t.brInfo[j]) <= |t.cmpvec|
    decreases |t.brInfo| - j
  {
    if j < |t.brInfo| - 1 {
      ReachesEnd(t, j + 1);
    }
  }

  /** The record of branch `b` and, where it points, its truncated triples. */
  ghost predicate Records(t: Tables, at: nat, moduleId: int, b: Branch) {
    && at < |t.brInfo|
    && var r := t.brInfo[at];
       && r.moduleId == U32(moduleId) && r.brId == U32(b.id) && r.left == U32(b.left) && r.right == U32(b.right)
       && r.cmpSize == |b.cmpvec| && r.cmpVec + 3 * |b.cmpvec| <= |t.cmpvec|
       && t.cmpvec[r.cmpVec..r.cmpVec + 3 * |b.cmpvec|] == Triples(b.cmpvec)
  }

  lemma RecordsStay(t: Tables, s: Tables, ids: set<nat>, at: nat, moduleId: int, b: Branch)
    requires Records(t, at, moduleId, b) && Grows(t, s, ids)
    ensures Records(s, at, moduleId, b)
  {
    var r := t.brInfo[at];
    assert s.cmpvec[r.cmpVec..r.cmpVec + 3 * |b.cmpvec|] == t.cmpvec[r.cmpVec..r.cmpVec + 3 * |b.cmpvec|];
  }

  lemma AppendedRecord(t: Tables, moduleId: int, b: Branch)
    requires |t.cmpvec| == 3 * t.vecCnt
    ensures Records(WithBranch(t, moduleId, b), |t.brInfo|, moduleId, b)
  {
    hide U32, Triples;
    var s := WithBranch(t, moduleId, b);
    assert s.cmpvec[3 * t.vecCnt..3 * t.vecCnt + 3 * |b.cmpvec|] == Triples(b.cmpvec);
  }

  lemma PackedStep(t: Tables, moduleId: int, b: Branch)
    requires Packed(t)
    ensures Packed(WithBranch(t, moduleId, b)) && Grows(t, WithBranch(t, moduleId, b), {})
    ensures |WithBranch(t, moduleId, b).brInfo| == |t.brInfo| + 1
  {
    hide U32, Triples;
  }

  lemma {:induction false} BranchFound(t: Tables, moduleId: int, bs: seq<Branch>, j: nat)
    requires Packed(t) && j < |bs|
    ensures Records(WithBranches(t, moduleId, bs), |t.brInfo| + j, moduleId, bs[j])
    decreases |bs|
  {
    var s := WithBranch(t, moduleId, bs[0]);
    PackedStep(t, moduleId, bs[0]);
    AppendedRecord(t, moduleId, bs[0]);
    hide WithBranch, Records, Grows, Packed;
    if j == 0 {
      BranchesGrow(s, moduleId, bs[1..]);
      RecordsStay(s, WithBranches(t, moduleId, bs), {}, |t.brInfo|, moduleId, bs[0]);
    } else {
      BranchFound(s, moduleId, bs[1..], j - 1);
    }
  }

  /** Module ids differ after the conversion. */
  ghost predicate Distinct(us: seq<Unit>) {
    forall i, j :: 0 <= i < j < |us| ==> U32(us[i].moduleId) != U32(us[j].moduleId)
  }

  /** `ptr[module] + i` is where record `i` of the module is, in both tables. */
  ghost predicate Found(t: Tables, u: Unit) {
    var m := U32(u.moduleId);
    && m in t.cmpInfoPtr && m in t.brInfoPtr
    && t.cmpInfoPtr[m] + |u.cmps| <= |t.cmpInfo|
    && t.cmpInfo[t.cmpInfoPtr[m]..t.cmpInfoPtr[m] + |u.cmps|] == CmpRecords(u.cmps)
    && forall j :: 0 <= j < |u.branches| ==> Records(t, t.brInfoPtr[m] + j, u.moduleId, u.branches[j])
  }

  lemma FoundInUnit(t: Tables, u: Unit)
    requires Packed(t)
    ensures Found(WithUnit(t, u), u)
  {
    hide Records, U32, CmpRecords;
    var m := U32(u.moduleId);
    var s := WithSection(t, CmpSection(u.moduleId, u.cmps));
    assert s.cmpInfo[|t.cmpInfo|..|t.cmpInfo| + |u.cmps|] == CmpRecords(u.cmps);
    var s' := s.(brInfoPtr := s.brInfoPtr[m := |s.brInfo|]);
    assert Packed(s');
    hide Packed;
    BranchesGrow(s', u.moduleId, u.branches);
    assert WithUnit(t, u) == WithBranches(s', u.moduleId, u.branches);
    forall j | 0 <= j < |u.branches|
      ensures Records(WithUnit(t, u), |t.brInfo| + j, u.moduleId, u.branches[j])
    {
      BranchFound(s', u.moduleId, u.branches, j);
    }
  }

  lemma FoundStays(t: Tables, s: Tables, ids: set<nat>, u: Unit)
    requires Found(t, u) && Grows(t, s, ids) && U32(u.moduleId) !in ids
    ensures Found(s, u)
  {
    hide Records;
    var m := U32(u.moduleId);
    var c := t.cmpInfoPtr[m];
    assert s.cmpInfo[c..c + |u.cmps|] == t.cmpInfo[c..c + |u.cmps|];
    forall j | 0 <= j < |u.branches|
      ensures Records(s, s.brInfoPtr[m] + j, u.moduleId, u.branches[j])
    {
      RecordsStay(t, s, ids, t.brInfoPtr[m] + j, u.moduleId, u.branches[j]);
    }
  }

  /** Reading back what the units wrote finds every record of every unit. */
  lemma {:induction false} LoadedFound(t: Tables, us: seq<Unit>, k: nat)
    requires Packed(t) && Distinct(us) && k < |us|
    ensures Found(Loaded(t, Sections(us)), us[k])
    decreases |us|
  {
    var s := WithUnit(t, us[0]);
    UnitGrows(t, us[0]);
    LoadedUnit(t, us);
    hide WithUnit, Packed, Sections;
    assert Distinct(us[1..]);
    if k == 0 {
      FoundInUnit(t, us[0]);
      LoadedGrows(s, us[1..]);
      assert U32(us[0].moduleId) !in Ids(us[1..]);
      FoundStays(s, Loaded(s, Sections(us[1..])), Ids(us[1..]), us[0]);
    } else {
      LoadedFound(s, us[1..], k - 1);
    }
  }

  // ----- the truncation of the triples -----

  ghost predicate Small(es: seq<Entry>) {
    forall i :: 0 <= i < |es| ==> FitsS16(es[i].id) && FitsS16(es[i].cmpType)
  }

  lemma {:induction false} TripleAt(es: seq<Entry>, i: nat)
    requires i < |es|
    ensures Triples(es)[3 * i..3 * i + 3] == Truncated(es[i])
  {
    if i == 0 {
      assert Triples(es)[0..3] == Truncated(es[0]);
    } else {
      TripleAt(es[1..], i - 1);
      assert Triples(es)[3 * i..3 * i + 3] == Triples(es[1..])[3 * (i - 1)..3 * (i - 1) + 3];
    }
  }

  /** The machine that evaluates branches finds the vector the pass compiled exactly when all its
      ids and kinds fit 16 bits. */
  lemma StoredIffSmall(t: Tables, at: nat, moduleId: int, b: Branch)
    requires Records(t, at, moduleId, b)
    ensures StackMachine.Stored(t.cmpvec, t.brInfo[at].cmpVec, b.cmpvec) <==> Small(b.cmpvec)
  {
    var v := t.brInfo[at].cmpVec;
    forall i | 0 <= i < |b.cmpvec|
      ensures StackMachine.Triple(t.cmpvec, v, i) == b.cmpvec[i] <==> FitsS16(b.cmpvec[i].id) && FitsS16(b.cmpvec[i].cmpType)
    {
      TripleInTable(t.cmpvec, v, b.cmpvec, i);
      S16Exact(b.cmpvec[i].id);
      S16Exact(b.cmpvec[i].cmpType);
    }
  }

  lemma TripleInTable(flat: seq<int>, v: nat, es: seq<Entry>, i: nat)
    requires v + 3 * |es| <= |flat| && flat[v..v + 3 * |es|] == Triples(es) && i < |es|
    ensures StackMachine.Triple(flat, v, i) == Entry(S16(U32(es[i].id)), S16(U32(es[i].cmpType)), es[i].no)
  {
    hide S16, U32;
    TripleAt(es, i);
    var s := Triples(es);
    assert flat[v + 3 * i] == s[3 * i] == s[3 * i..3 * i + 3][0];
    assert flat[v + 3 * i + 1] == s[3 * i + 1] == s[3 * i..3 * i + 3][1];
    assert flat[v + 3 * i + 2] == s[3 * i + 2] == s[3 * i..3 * i + 3][2];
  }

  /** Record `i` of a module has id `i`. */
  ghost predicate Numbered(u: Unit) {
    && (forall i :: 0 <= i < |u.cmps| ==> u.cmps[i].id == i && u.cmps[i].moduleId == u.moduleId)
    && (forall j :: 0 <= j < |u.branches| ==> u.branches[j].id == j)
  }

  ghost predicate BranchBack(t: Tables, at: nat, m: nat, b: Branch) {
    && at < |t.brInfo|
    && var r := t.brInfo[at];
       && r.moduleId == m && r.brId == b.id && r.left == U32(b.left) && r.right == U32(b.right) && r.cmpSize == |b.cmpvec|
       && (StackMachine.Stored(t.cmpvec, r.cmpVec, b.cmpvec) <==> Small(b.cmpvec))
  }

  lemma CompareBack(t: Tables, u: Unit, i: nat)
    requires Found(t, u) && Numbered(u) && i < |u.cmps| && Sized(|u.cmps|)
    ensures CompareAt(t, u, i)
  {
    SizeKept(i);
    hide U32, Records;
    CmpRecordAt(u.cmps, i);
    var p := t.cmpInfoPtr[U32(u.moduleId)];
    assert t.cmpInfo[p + i] == t.cmpInfo[p..p + |u.cmps|][i];
  }

  lemma BranchIsBack(t: Tables, u: Unit, j: nat)
    requires Found(t, u) && Numbered(u) && j < |u.branches| && Sized(|u.branches|)
    ensures BranchAt(t, u, j)
  {
    SizeKept(j);
    hide U32;
    StoredIffSmall(t, t.brInfoPtr[U32(u.moduleId)] + j, u.moduleId, u.branches[j]);
  }

  /** Reading back a unit whose records are numbered. */
  lemma NumberedRoundTrip(us: seq<Unit>, k: nat)
    requires Distinct(us) && k < |us| && Numbered(us[k]) && Sized(|us[k].cmps|) && Sized(|us[k].branches|)
    ensures Packed(Loaded(EMPTY, Sections(us))) && Found(Loaded(EMPTY, Sections(us)), us[k])
    ensures forall i :: 0 <= i < |us[k].cmps| ==> CompareAt(Loaded(EMPTY, Sections(us)), us[k], i)
    ensures forall j :: 0 <= j < |us[k].branches| ==> BranchAt(Loaded(EMPTY, Sections(us)), us[k], j)
  {
    var t, u := Loaded(EMPTY, Sections(us)), us[k];
    LoadedGrows(EMPTY, us);
    LoadedFound(EMPTY, us, k);
    hide Loaded, Sections, Packed, Distinct, U32, Records, BranchBack;
    forall i | 0 <= i < |u.cmps|
      ensures CompareAt(t, u, i)
    {
      CompareBack(t, u, i);
    }
    forall j | 0 <= j < |u.branches|
      ensures BranchAt(t, u, j)
    {
      BranchIsBack(t, u, j);
    }
  }

  /** Compare `i` of the unit. */
  ghost predicate CompareAt(t: Tables, u: Unit, i: nat)
    requires i < |u.cmps| && Found(t, u)
  {
    var m := U32(u.moduleId);
    t.cmpInfo[t.cmpInfoPtr[m] + i] == CmpRecord(m, i, U32(u.cmps[i].cmpType))
  }

  /** Branch `j` of the unit. */
  ghost predicate BranchAt(t: Tables, u: Unit, j: nat)
    requires j < |u.branches| && Found(t, u)
  {
    BranchBack(t, t.brInfoPtr[U32(u.moduleId)] + j, U32(u.moduleId), u.branches[j])
  }

  // ----- from the condition to the machine -----

  lemma SmallBinary(e: Entry, l: seq<Entry>, r: seq<Entry>)
    requires FitsS16(e.id) && FitsS16(e.cmpType) && Small(l) && Small(r)
    ensures Small(Binary(e, l, r))
  {
    var v := Binary(e, l, r);
    forall i | 0 <= i < |v|
      ensures FitsS16(v[i].id) && FitsS16(v[i].cmpType)
    {
      assert v[i] == if i == 0 then e else if i <= |l| then l[i - 1] else r[i - 1 - |l|];
    }
  }

  lemma SmallOne(e: Entry)
    ensures Small([]) && (FitsS16(e.id) && FitsS16(e.cmpType) ==> Small([e]))
  {
  }

  /** Operators always fit, so only the leaves matter. */
  lemma {:induction false} SmallEmit(kind: nat -> int, ids: map<nat, nat>, c: Cond, no: bool)
    requires Leaves(c) <= ids.Keys && forall inst <- Leaves(c) :: FitsS16(ids[inst]) && FitsS16(kind(inst))
    ensures Small(Emit(kind, ids, c, no))
    decreases c
  {
    hide Small, Binary;
    SmallOne(Entry(0, 0, no));
    match c
    case Leaf(inst) => SmallOne(Entry(ids[inst], kind(inst), no));
    case Bin(op, Variable(l), Variable(r)) =>
      if op == BINOP_AND || op == BINOP_OR || op == BINOP_XOR {
        SmallEmit(kind, ids, l, no);
        SmallEmit(kind, ids, r, no);
        SmallEmit(kind, ids, l, !no);
        SmallEmit(kind, ids, r, !no);
        var a, b := Entry(-1, BINOP_AND, no), Entry(-1, op, no);
        SmallBinary(a, Emit(kind, ids, l, !no), Emit(kind, ids, r, no));
        SmallBinary(a, Emit(kind, ids, l, no), Emit(kind, ids, r, !no));
        SmallBinary(b, Emit(kind, ids, l, no), Emit(kind, ids, r, no));
        SmallBinary(Entry(-1, BINOP_OR, no), Binary(a, Emit(kind, ids, l, !no), Emit(kind, ids, r, no)),
                    Binary(a, Emit(kind, ids, l, no), Emit(kind, ids, r, !no)));
      }
    case Bin(op, Const(k), Variable(x)) =>
      if Neutral(op, k, false) || Neutral(op, k, true) {
        SmallEmit(kind, ids, x, no);
        SmallEmit(kind, ids, x, !no);
      }
    case Bin(op, Variable(x), Const(k)) =>
      if Neutral(op, k, false) || Neutral(op, k, true) {
        SmallEmit(kind, ids, x, no);
        SmallEmit(kind, ids, x, !no);
      }
    case Bin(_, Const(_), Const(_)) =>
  }

  /** What a pass leaves to be written. */
  function UnitOf(p: Pass): Unit
    reads p`cmpvec, p`branches
  {
    Unit(p.moduleId, p.cmpvec, p.branches)
  }

  /** The pass numbers both kinds of records by their position. */
  lemma PassNumbers(p: Pass)
    requires p.Valid() && p.Collected()
    ensures Numbered(UnitOf(p))
  {
  }

  /** What the fuzzer reads of the unit of a pass: compare `i` at `cmp_info_ptr[module] + i`, branch
      `j` at `br_info_ptr[module] + j`, each with its own id, and the branch's vector at its offset
      exactly when all of it fits 16 bits. */
  lemma RoundTrip(us: seq<Unit>, k: nat, p: Pass)
    requires Distinct(us) && k < |us| && us[k] == UnitOf(p) && p.Valid() && p.Collected()
    requires Sized(p.cmpCnt) && Sized(p.brCnt)
    ensures Packed(Loaded(EMPTY, Sections(us))) && Found(Loaded(EMPTY, Sections(us)), us[k])
    ensures forall i :: 0 <= i < p.cmpCnt ==> CompareAt(Loaded(EMPTY, Sections(us)), us[k], i)
    ensures forall j :: 0 <= j < p.brCnt ==> BranchAt(Loaded(EMPTY, Sections(us)), us[k], j)
  {
    hide Loaded, Sections, Packed, Distinct, Found, CompareAt, BranchAt, BranchOk;
    PassNumbers(p);
    NumberedRoundTrip(us, k);
  }

  /** A supported condition, compiled by the pass, written with all the units, read back and
      evaluated: as long as the pass has seen no more than 32768 leaves, the runtime finds the code
      of exactly the compiled expression at the offset of the branch. */
  lemma CompiledBranchRuns(us: seq<Unit>, k: nat, p: Pass, j: nat)
    requires Distinct(us) && k < |us| && us[k] == UnitOf(p) && p.Valid() && p.Collected()
    requires p.cmpCnt <= 0x8000 && Sized(p.brCnt) && j < p.brCnt && Supported(p.conds[j])
    requires forall inst <- Leaves(p.conds[j]) :: FitsS16(p.kind(inst))
    ensures Leaves(p.conds[j]) <= p.ids.Keys && CodeAt(Loaded(EMPTY, Sections(us)), U32(us[k].moduleId), j, p.kind, p.ids, p.conds[j])
  {
    hide Loaded, Sections, Packed, Distinct, Found, BranchAt, CompareAt, CodeAt;
    CompiledSmall(p, j);
    RoundTrip(us, k, p);
    CodeFound(Loaded(EMPTY, Sections(us)), us[k], j, p.kind, p.ids, p.conds[j]);
  }

  lemma CompiledSmall(p: Pass, j: nat)
    requires p.Valid() && p.Collected() && p.cmpCnt <= 0x8000 && j < p.brCnt
    ensures Leaves(p.conds[j]) <= p.ids.Keys && p.branches[j].cmpvec == Emit(p.kind, p.ids, p.conds[j], false)
    ensures forall inst <- Leaves(p.conds[j]) :: FitsS16(p.ids[inst])
  {
    hide Emit;
    assert BranchOk(p.kind, p.ids, p.conds[j], p.branches[j], j);
  }

  lemma CodeFound(t: Tables, u: Unit, j: nat, kind: nat -> int, ids: map<nat, nat>, c: Cond)
    requires Found(t, u) && j < |u.branches| && BranchAt(t, u, j) && u.branches[j].cmpvec == Emit(kind, ids, c, false)
    requires Supported(c) && Leaves(c) <= ids.Keys && forall inst <- Leaves(c) :: FitsS16(ids[inst]) && FitsS16(kind(inst))
    ensures CodeAt(t, U32(u.moduleId), j, kind, ids, c)
  {
    hide U32, Records, FitsS16, Emit, Flatten, Compile;
    SmallEmit(kind, ids, c, false);
    EmitIsFlatten(kind, ids, c, false);
  }

  /** Branch `j` of module `m` is the code of the compiled condition. */
  ghost predicate CodeAt(t: Tables, m: nat, j: nat, kind: nat -> int, ids: map<nat, nat>, c: Cond)
    requires Supported(c) && Leaves(c) <= ids.Keys
  {
    && m in t.brInfoPtr && t.brInfoPtr[m] + j < |t.brInfo|
    && var r := t.brInfo[t.brInfoPtr[m] + j];
       r.cmpSize == |Flatten(Compile(kind, ids, c, false))| &&
       StackMachine.Stored(t.cmpvec, r.cmpVec, Flatten(Compile(kind, ids, c, false)))
  }

  /** The leaf with id 65535 comes back as an operator. */
  lemma LeafBecomesOperator(cmpType: int, no: bool)
    ensures Triples([Entry(65535, cmpType, no)])[0] == -1
  {
  }

  // ----- the reader -----

  /** The numbers at `pos` are `s`. */
  ghost predicate Window(tokens: seq<int>, pos: nat, s: seq<int>) {
    pos + |s| <= |tokens| && tokens[pos..pos + |s|] == s
  }

  lemma WindowSplit(tokens: seq<int>, pos: nat, a: seq<int>, b: seq<int>)
    requires Window(tokens, pos, a + b)
    ensures Window(tokens, pos, a) && Window(tokens, pos + |a|, b)
    ensures forall i :: 0 <= i < |a| ==> tokens[pos + i] == a[i]
  {
    var s := a + b;
    assert tokens[pos..pos + |s|][..|a|] == a;
    assert tokens[pos..pos + |s|][|a|..] == b;
    forall i | 0 <= i < |a|
      ensures tokens[pos + i] == a[i]
    {
      assert tokens[pos..pos + |s|][i] == s[i];
    }
  }

  /** Counts fit the 32 bits they are read into. */
  predicate Sized(n: nat) {
    n < 0x1_0000_0000
  }

  ghost predicate SizedSection(s: Section) {
    match s
    case CmpSection(_, cs) => Sized(|cs|)
    case BrSection(_, bs) => Sized(|bs|) && forall j :: 0 <= j < |bs| ==> Sized(|bs[j].cmpvec|)
  }

  ghost predicate AllSized(ss: seq<Section>) {
    forall i :: 0 <= i < |ss| ==> SizedSection(ss[i])
  }

  /** The reader, with the variables its reads assign.  A short read leaves those it does not
      reach as they were; only a read that finds nothing at all is noticed. */
  class Reader {
    const tokens: seq<int>
    var pos: nat
    var moduleId: nat
    var cmpId: nat
    var cmpType: nat
    var cmpNo: nat
    var brId: nat
    var left: nat
    var right: nat
    var cmpSize: nat
    var infoType: nat
    var size: nat
    var tables: Tables

    constructor (tokens: seq<int>)
      ensures this.tokens == tokens && pos == 0 && tables == EMPTY
    {
      this.tokens, pos, tables := tokens, 0, EMPTY;
      moduleId, cmpId, cmpType, cmpNo, brId := *, *, *, *, *;
      left, right, cmpSize, infoType, size := *, *, *, *, *;
    }

    /** One number. */
    method Scan(stale: nat) returns (x: nat)
      requires pos <= |tokens|
      modifies this`pos
      ensures old(pos) < |tokens| ==> x == U32(tokens[old(pos)]) && pos == old(pos) + 1
      ensures old(pos) == |tokens| ==> x == stale && pos == old(pos)
    {
      if pos < |tokens| {
        x, pos := U32(tokens[pos]), pos + 1;
      } else {
        x := stale;
      }
    }

    method LoadCmps(ghost cs: seq<CmpInfo>) returns (ok: bool)
      requires pos <= |tokens|
      modifies this`pos, this`moduleId, this`cmpId, this`cmpType, this`tables
      ensures old(pos) <= pos <= |tokens|
      ensures tables == old(tables).(cmpInfo := tables.cmpInfo)
      ensures size == |cs| && Window(tokens, old(pos), SaveCmps(cs)) ==>
                ok && pos == old(pos) + |SaveCmps(cs)| && tables.cmpInfo == old(tables).cmpInfo + CmpRecords(cs)
    {
      hide U32, Window, SaveCmps, CmpRecords;
      ghost var good := size == |cs| && Window(tokens, pos, SaveCmps(cs));
      ghost var end := pos + |SaveCmps(cs)|;
      var i := 0;
      assert cs[0..] == cs;
      while i < size
        invariant 0 <= i <= size && old(pos) <= pos <= |tokens|
        invariant tables == old(tables).(cmpInfo := tables.cmpInfo)
        invariant good ==> Window(tokens, pos, SaveCmps(cs[i..])) && pos + |SaveCmps(cs[i..])| == end
        invariant good ==> tables.cmpInfo + CmpRecords(cs[i..]) == old(tables).cmpInfo + CmpRecords(cs)
      {
        if good {
          NextCmp(tokens, pos, cs, i, tables.cmpInfo);
        }
        if pos == |tokens| {
          return false;
        }
        moduleId := Scan(moduleId);
        cmpId := Scan(cmpId);
        cmpType := Scan(cmpType);
        tables := tables.(cmpInfo := tables.cmpInfo + [CmpRecord(moduleId, cmpId, cmpType)]);
        i := i + 1;
      }
      ok := true;
      if good {
        NoCmps(cs);
      }
    }

    /** The triples of one branch. */
    method LoadVector(ghost es: seq<Entry>) returns (ok: bool)
      requires pos <= |tokens|
      modifies this`pos, this`cmpId, this`cmpType, this`cmpNo, this`tables
      ensures old(pos) <= pos <= |tokens|
      ensures tables == old(tables).(cmpvec := tables.cmpvec)
      ensures ok ==> |tables.cmpvec| == |old(tables).cmpvec| + 3 * cmpSize
      ensures cmpSize == |es| && Window(tokens, old(pos), SaveEntries(es)) ==>
                ok && pos == old(pos) + |SaveEntries(es)| && tables.cmpvec == old(tables).cmpvec + Triples(es)
    {
      hide U32, S16, Window, SaveEntries, Triples;
      ghost var good := cmpSize == |es| && Window(tokens, pos, SaveEntries(es));
      ghost var end := pos + |SaveEntries(es)|;
      var j := 0;
      assert es[0..] == es;
      while j < cmpSize
        invariant 0 <= j <= cmpSize && old(pos) <= pos <= |tokens|
        invariant tables == old(tables).(cmpvec := tables.cmpvec)
        invariant |tables.cmpvec| == |old(tables).cmpvec| + 3 * j
        invariant good ==> Window(tokens, pos, SaveEntries(es[j..])) && pos + |SaveEntries(es[j..])| == end
        invariant good ==> tables.cmpvec + Triples(es[j..]) == old(tables).cmpvec + Triples(es)
      {
        if good {
          NextEntry(tokens, pos, es, j, tables.cmpvec);
        }
        if pos == |tokens| {
          return false;
        }
        cmpId := Scan(cmpId);
        cmpType := Scan(cmpType);
        cmpNo := Scan(cmpNo);
        tables := tables.(cmpvec := tables.cmpvec + [S16(cmpId), S16(cmpType), S16(cmpNo)]);
        j := j + 1;
      }
      ok := true;
      if good {
        NoEntries(es);
      }
    }

    /** The five numbers of a branch record. */
    method LoadHeader(ghost m: int, ghost b: Branch)
      requires pos < |tokens|
      modifies this`pos, this`moduleId, this`brId, this`left, this`right, this`cmpSize
      ensures old(pos) <= pos <= |tokens|
      ensures Sized(|b.cmpvec|) && Window(tokens, old(pos), SaveBranch(m, b)) ==>
                && pos == old(pos) + 5 && moduleId == U32(m) && brId == U32(b.id) && left == U32(b.left) && right == U32(b.right)
                && cmpSize == |b.cmpvec| && Window(tokens, pos, SaveEntries(b.cmpvec))
    {
      hide U32, Window, SaveEntries, SaveBranch, Sized;
      if Sized(|b.cmpvec|) && Window(tokens, pos, SaveBranch(m, b)) {
        BranchHeader(tokens, pos, m, b);
        SizeKept(|b.cmpvec|);
      }
      moduleId := Scan(moduleId);
      brId := Scan(brId);
      left := Scan(left);
      right := Scan(right);
      cmpSize := Scan(cmpSize);
    }

    /** One branch and its triples; the offset is where the next triples go. */
    method LoadBranch(ghost m: int, ghost b: Branch) returns (ok: bool)
      requires pos < |tokens| && |tables.cmpvec| == 3 * tables.vecCnt
      modifies this`pos, this`moduleId, this`cmpId, this`cmpType, this`cmpNo, this`brId, this`left, this`right, this`cmpSize, this`tables
      ensures old(pos) <= pos <= |tokens|
      ensures ok ==> |tables.cmpvec| == 3 * tables.vecCnt
      ensures Sized(|b.cmpvec|) && Window(tokens, old(pos), SaveBranch(m, b)) ==>
                ok && pos == old(pos) + |SaveBranch(m, b)| && tables == WithBranch(old(tables), m, b)
    {
      hide U32, S16, Window, SaveEntries, Triples, SaveBranch, SaveCmps, SaveBranches, CmpRecords, Sized, WithBranch;
      ghost var good := Sized(|b.cmpvec|) && Window(tokens, pos, SaveBranch(m, b));
      if good {
        BranchHeader(tokens, pos, m, b);
      }
      LoadHeader(m, b);
      var record := BrRecord(moduleId, brId, left, right, cmpSize, tables.vecCnt * 3);
      ok := LoadVector(b.cmpvec);
      if ok {
        ghost var t := tables;
        tables := tables.(brInfo := tables.brInfo + [record], vecCnt := tables.vecCnt + cmpSize);
        if good {
          BranchAppended(old(tables), t, m, b);
        }
      }
    }

    method LoadBranches(ghost m: int, ghost bs: seq<Branch>) returns (ok: bool)
      requires pos <= |tokens| && |tables.cmpvec| == 3 * tables.vecCnt
      modifies this`pos, this`moduleId, this`cmpId, this`cmpType, this`cmpNo, this`brId, this`left, this`right, this`cmpSize, this`tables
      ensures old(pos) <= pos <= |tokens|
      ensures ok ==> |tables.cmpvec| == 3 * tables.vecCnt
      ensures size == |bs| && SizedSection(BrSection(m, bs)) && Window(tokens, old(pos), SaveBranches(m, bs)) ==>
                ok && pos == old(pos) + |SaveBranches(m, bs)| && tables == WithBranches(old(tables), m, bs)
    {
      hide SaveBranch, WithBranch, WithBranches, SaveBranches, Window;
      ghost var good := size == |bs| && SizedSection(BrSection(m, bs)) && Window(tokens, pos, SaveBranches(m, bs));
      ghost var end := pos + |SaveBranches(m, bs)|;
      var i := 0;
      assert bs[0..] == bs;
      while i < size
        invariant 0 <= i <= size && old(pos) <= pos <= |tokens| && |tables.cmpvec| == 3 * tables.vecCnt
        invariant good ==> Window(tokens, pos, SaveBranches(m, bs[i..])) && pos + |SaveBranches(m, bs[i..])| == end
        invariant good ==> WithBranches(tables, m, bs[i..]) == WithBranches(old(tables), m, bs)
      {
        if good {
          NextBranch(tokens, pos, m, bs, i, tables);
        }
        if pos == |tokens| {
          return false;
        }
        ghost var b := if good then bs[i] else Branch(0, 0, 0, []);
        ok := LoadBranch(m, b);
        if !ok {
          return;
        }
        i := i + 1;
      }
      ok := true;
      if good {
        NoBranches(m, bs, tables);
      }
    }

    /** The whole file, section by section; what sections `ss` say is what the tables hold. */
    method SetupInfo(ghost ss: seq<Section>) returns (ok: bool)
      requires pos == 0 && tables == EMPTY
      modifies this
      ensures tokens == SaveAll(ss) && AllSized(ss) ==> ok && tables == Loaded(EMPTY, ss)
    {
      hide SaveSection, WithSection, SizedSection;
      ghost var good := tokens == SaveAll(ss) && AllSized(ss);
      ghost var i := 0;
      while pos < |tokens|
        invariant pos <= |tokens| && |tables.cmpvec| == 3 * tables.vecCnt
        invariant good ==> 0 <= i <= |ss| && tokens[pos..] == SaveAll(ss[i..]) && Loaded(tables, ss[i..]) == Loaded(EMPTY, ss)
        decreases |tokens| - pos
      {
        ghost var s := CmpSection(0, []);
        if good {
          s := ss[i];
          assert ss[i..][1..] == ss[i + 1..];
          TakeSection(tokens, pos, s, ss[i + 1..]);
        }
        ok := LoadSection(s);
        if !ok {
          return;
        }
        i := i + 1;
      }
      ok := true;
      assert good ==> ss[i..] == [];
    }

    method LoadSection(ghost s: Section) returns (ok: bool)
      requires pos < |tokens| && |tables.cmpvec| == 3 * tables.vecCnt
      modifies this
      ensures old(pos) < pos <= |tokens|
      ensures ok ==> |tables.cmpvec| == 3 * tables.vecCnt
      ensures SizedSection(s) && Window(tokens, old(pos), SaveSection(s)) ==>
                ok && pos == old(pos) + |SaveSection(s)| && tables == WithSection(old(tables), s)
    {
      ghost var good := SizedSection(s) && Window(tokens, pos, SaveSection(s));
      ghost var count := if s.CmpSection? then |s.cmps| else |s.branches|;
      if good {
        SectionHeader(tokens, pos, s);
        SizeKept(count);
      }
      SmallKept();
      hide U32, SaveCmps, SaveBranches, Window, SaveSection, WithBranches, CmpRecords;
      moduleId := Scan(moduleId);
      infoType := Scan(infoType);
      size := Scan(size);
      if infoType == 0 {
        tables := tables.(cmpInfoPtr := tables.cmpInfoPtr[moduleId := |tables.cmpInfo|]);
        ok := LoadCmps(if s.CmpSection? then s.cmps else []);
      } else {
        tables := tables.(brInfoPtr := tables.brInfoPtr[moduleId := |tables.brInfo|]);
        ok := LoadBranches(s.moduleId, if s.BrSection? then s.branches else []);
      }
    }
  }

  lemma TakeSection(tokens: seq<int>, pos: nat, s: Section, rest: seq<Section>)
    requires pos < |tokens| && tokens[pos..] == SaveAll([s] + rest)
    ensures Window(tokens, pos, SaveSection(s)) && tokens[pos + |SaveSection(s)|..] == SaveAll(rest)
  {
    hide SaveSection;
    assert ([s] + rest)[1..] == rest;
    WindowSplit(tokens, pos, SaveSection(s), SaveAll(rest));
  }

  lemma NextCmp(tokens: seq<int>, pos: nat, cs: seq<CmpInfo>, i: nat, before: seq<CmpRecord>)
    requires i < |cs| && Window(tokens, pos, SaveCmps(cs[i..]))
    ensures pos + 3 <= |tokens|
    ensures tokens[pos] == cs[i].moduleId && tokens[pos + 1] == cs[i].id && tokens[pos + 2] == cs[i].cmpType
    ensures Window(tokens, pos + 3, SaveCmps(cs[i + 1..])) && |SaveCmps(cs[i..])| == 3 + |SaveCmps(cs[i + 1..])|
    ensures var r := CmpRecord(U32(cs[i].moduleId), U32(cs[i].id), U32(cs[i].cmpType));
            before + CmpRecords(cs[i..]) == (before + [r]) + CmpRecords(cs[i + 1..])
  {
    hide U32;
    assert cs[i..][1..] == cs[i + 1..];
    var a := [cs[i].moduleId, cs[i].id, cs[i].cmpType];
    WindowSplit(tokens, pos, a, SaveCmps(cs[i + 1..]));
    assert a[0] == cs[i].moduleId && a[1] == cs[i].id && a[2] == cs[i].cmpType;
    assert tokens[pos + 0] == a[0];
  }

  lemma NoCmps(cs: seq<CmpInfo>)
    ensures SaveCmps(cs[|cs|..]) == [] && CmpRecords(cs[|cs|..]) == []
  {
  }

  lemma NextEntry(tokens: seq<int>, pos: nat, es: seq<Entry>, j: nat, before: seq<int>)
    requires j < |es| && Window(tokens, pos, SaveEntries(es[j..]))
    ensures pos + 3 <= |tokens|
    ensures Window(tokens, pos + 3, SaveEntries(es[j + 1..])) && |SaveEntries(es[j..])| == 3 + |SaveEntries(es[j + 1..])|
    ensures before + Triples(es[j..])
         == (before + [S16(U32(tokens[pos])), S16(U32(tokens[pos + 1])), S16(U32(tokens[pos + 2]))]) + Triples(es[j + 1..])
  {
    BitKept();
    hide U32, S16;
    assert es[j..][1..] == es[j + 1..];
    var a := SaveEntry(es[j]);
    WindowSplit(tokens, pos, a, SaveEntries(es[j + 1..]));
    assert tokens[pos + 0] == a[0] && tokens[pos + 1] == a[1] && tokens[pos + 2] == a[2];
  }

  lemma NoEntries(es: seq<Entry>)
    ensures SaveEntries(es[|es|..]) == [] && Triples(es[|es|..]) == []
  {
  }

  lemma BranchHeader(tokens: seq<int>, pos: nat, m: int, b: Branch)
    requires Window(tokens, pos, SaveBranch(m, b))
    ensures pos + 5 <= |tokens| && |SaveBranch(m, b)| == 5 + |SaveEntries(b.cmpvec)|
    ensures tokens[pos] == m && tokens[pos + 1] == b.id && tokens[pos + 2] == b.left
    ensures tokens[pos + 3] == b.right && tokens[pos + 4] == |b.cmpvec|
    ensures Window(tokens, pos + 5, SaveEntries(b.cmpvec))
  {
    var a := [m, b.id, b.left, b.right, |b.cmpvec|];
    WindowSplit(tokens, pos, a, SaveEntries(b.cmpvec));
    assert tokens[pos + 0] == a[0];
  }

  lemma BranchAppended(before: Tables, t: Tables, m: int, b: Branch)
    requires t == before.(cmpvec := before.cmpvec + Triples(b.cmpvec))
    ensures var record := BrRecord(U32(m), U32(b.id), U32(b.left), U32(b.right), |b.cmpvec|, 3 * before.vecCnt);
            t.(brInfo := t.brInfo + [record], vecCnt := t.vecCnt + |b.cmpvec|) == WithBranch(before, m, b)
  {
    hide U32, Triples;
  }

  lemma NextBranch(tokens: seq<int>, pos: nat, m: int, bs: seq<Branch>, i: nat, t: Tables)
    requires i < |bs| && Window(tokens, pos, SaveBranches(m, bs[i..]))
    ensures pos < |tokens| && Window(tokens, pos, SaveBranch(m, bs[i]))
    ensures Window(tokens, pos + |SaveBranch(m, bs[i])|, SaveBranches(m, bs[i + 1..]))
    ensures |SaveBranches(m, bs[i..])| == |SaveBranch(m, bs[i])| + |SaveBranches(m, bs[i + 1..])|
    ensures WithBranches(t, m, bs[i..]) == WithBranches(WithBranch(t, m, bs[i]), m, bs[i + 1..])
  {
    hide WithBranch;
    assert |SaveBranch(m, bs[i])| > 0;
    hide SaveBranch;
    assert bs[i..][1..] == bs[i + 1..];
    WindowSplit(tokens, pos, SaveBranch(m, bs[i]), SaveBranches(m, bs[i + 1..]));
  }

  lemma NoBranches(m: int, bs: seq<Branch>, t: Tables)
    ensures SaveBranches(m, bs[|bs|..]) == [] && WithBranches(t, m, bs[|bs|..]) == t
  {
  }

  lemma SectionHeader(tokens: seq<int>, pos: nat, s: Section)
    requires Window(tokens, pos, SaveSection(s))
    ensures pos + 3 <= |tokens| && tokens[pos] == s.moduleId
    ensures s.CmpSection? ==> tokens[pos + 1] == 0 && tokens[pos + 2] == |s.cmps| &&
                              Window(tokens, pos + 3, SaveCmps(s.cmps)) && |SaveSection(s)| == 3 + |SaveCmps(s.cmps)|
    ensures s.BrSection? ==> tokens[pos + 1] == 1 && tokens[pos + 2] == |s.branches| &&
                             Window(tokens, pos + 3, SaveBranches(s.moduleId, s.branches)) &&
                             |SaveSection(s)| == 3 + |SaveBranches(s.moduleId, s.branches)|
  {
    hide SaveCmps, SaveBranches;
    match s
    case CmpSection(m, cs) =>
      var a := [m, 0, |cs|];
      WindowSplit(tokens, pos, a, SaveCmps(cs));
      assert tokens[pos + 0] == a[0];
    case BrSection(m, bs) =>
      var a := [m, 1, |bs|];
      WindowSplit(tokens, pos, a, SaveBranches(m, bs));
      assert tokens[pos + 0] == a[0];
  }

  lemma SizeKept(n: nat)
    requires Sized(n)
    ensures U32(n) == n
  {
  }

  lemma SmallKept()
    ensures U32(0) == 0 && U32(1) == 1
  {
  }

  lemma BitKept()
    ensures S16(U32(0)) == 0 && S16(U32(1)) == 1
  {
  }
}
