/** The page-guarded allocator: every buffer ends at an unreadable page and is never reused. */
module Dislocator {
  import opened Words

  const PAGE_SIZE := 4096
  const ALLOC_CANARY := 0xAACCAACC
  const ALLOC_CLOBBER := 0xCC

  function PgCount(l: nat): nat {
    (l + (PAGE_SIZE - 1)) / PAGE_SIZE
  }

  /** The readable bytes of a mapping: whole pages for the buffer and its eight-byte header. */
  function Usable(len: nat): (n: nat)
    ensures n % PAGE_SIZE == 0 && len + 8 <= n < len + 8 + PAGE_SIZE
  {
    PAGE_SIZE * PgCount(len + 8)
  }

  /** One mapping ever made; `live` until it is freed. */
  datatype Block = Block(base: nat, len: nat, live: bool) {
    function Guard(): nat {
      base + Usable(len)
    }

    function Ptr(): nat {
      Guard() - len
    }

    function End(): nat {
      Guard() + PAGE_SIZE
    }
  }

  ghost predicate InSpace(bs: seq<Block>, n: nat) {
    forall i :: 0 <= i < |bs| ==> bs[i].End() <= n
  }

  predicate Apart(a: Block, b: Block) {
    a.End() <= b.base || b.End() <= a.base
  }

  /** The mappings are page-aligned and do not overlap. */
  ghost predicate WellPlaced(bs: seq<Block>) {
    && (forall i :: 0 <= i < |bs| ==> bs[i].base % PAGE_SIZE == 0)
    && (forall i, j :: 0 <= i < j < |bs| ==> Apart(bs[i], bs[j]))
  }

  function LiveSum(bs: seq<Block>): nat {
    if |bs| == 0 then 0 else LiveSum(bs[..|bs| - 1]) + if bs[|bs| - 1].live then bs[|bs| - 1].len else 0
  }

  lemma {:induction false} SumFreed(bs: seq<Block>, i: nat)
    requires i < |bs| && bs[i].live
    ensures LiveSum(bs[i := bs[i].(live := false)]) == LiveSum(bs) - bs[i].len
  {
    var n := |bs| - 1;
    var cs := bs[i := bs[i].(live := false)];
    if i < n {
      assert cs[..n] == bs[..n][i := bs[i].(live := false)];
      SumFreed(bs[..n], i);
    } else {
      assert cs[..n] == bs[..n];
    }
  }

  /** The bytes a program may touch: those of live mappings below their guard page. */
  ghost predicate Owned(bs: seq<Block>, a: int) {
    exists i :: 0 <= i < |bs| && bs[i].live && bs[i].base <= a < bs[i].Guard()
  }

  /** The page table agrees. */
  ghost predicate Mapped(bs: seq<Block>, readable: set<int>) {
    forall a: int :: a >= 0 ==> (a / PAGE_SIZE in readable <==> Owned(bs, a))
  }

  // ----- what the layout is for -----

  /** Every byte of a live buffer and of its header can be touched; the first byte past the
      buffer and the whole page after it cannot, nor can any byte of a freed mapping. */
  lemma GuardedBuffers(bs: seq<Block>, readable: set<int>, i: nat, a: nat)
    requires WellPlaced(bs) && Mapped(bs, readable) && i < |bs|
    ensures bs[i].live && bs[i].Ptr() - 8 <= a < bs[i].Ptr() + bs[i].len ==> a / PAGE_SIZE in readable
    ensures bs[i].Ptr() + bs[i].len <= a < bs[i].Ptr() + bs[i].len + PAGE_SIZE ==> a / PAGE_SIZE !in readable
    ensures !bs[i].live && bs[i].base <= a < bs[i].End() ==> a / PAGE_SIZE !in readable
  {
    hide Usable;
    if bs[i].base <= a < bs[i].End() {
      OnlyOwner(bs, i, a);
    }
  }

  /** A byte of a mapping is owned through that mapping only. */
  lemma OnlyOwner(bs: seq<Block>, i: nat, a: nat)
    requires WellPlaced(bs) && i < |bs| && bs[i].base <= a < bs[i].End()
    ensures Owned(bs, a) <==> bs[i].live && a < bs[i].Guard()
  {
    hide Usable;
    if j :| 0 <= j < |bs| && bs[j].live && bs[j].base <= a < bs[j].Guard() {
      assert j < i ==> Apart(bs[j], bs[i]);
      assert i < j ==> Apart(bs[i], bs[j]);
    }
  }

  /** Different blocks have different addresses, also when they are empty. */
  lemma PtrUnique(bs: seq<Block>, i: nat, j: nat)
    requires WellPlaced(bs) && i < |bs| && j < |bs| && i != j
    ensures bs[i].Ptr() != bs[j].Ptr()
  {
    hide Usable;
    if i < j {
      assert Apart(bs[i], bs[j]);
    } else {
      assert Apart(bs[j], bs[i]);
    }
  }

  // ----- pages -----

  function Pages(first: nat, count: nat): (r: set<int>)
    ensures forall p :: p in r <==> first <= p < first + count
  {
    if count == 0 then {} else Pages(first, count - 1) + {first + count - 1}
  }

  /** A byte lies in some whole pages exactly when its page is one of them. */
  lemma PageOf(base: nat, count: nat, a: nat)
    requires base % PAGE_SIZE == 0
    ensures base <= a < base + PAGE_SIZE * count <==> base / PAGE_SIZE <= a / PAGE_SIZE < base / PAGE_SIZE + count
  {
    var q, r := a / PAGE_SIZE, a % PAGE_SIZE;
    var b := base / PAGE_SIZE;
    assert a == PAGE_SIZE * q + r && base == PAGE_SIZE * b;
    if q >= b + count {
      assert PAGE_SIZE * q >= PAGE_SIZE * (b + count);
    }
    if q < b + count {
      assert PAGE_SIZE * (q + 1) <= PAGE_SIZE * (b + count);
    }
  }

  lemma MappedGrows(bs: seq<Block>, readable: set<int>, b: Block)
    requires Mapped(bs, readable) && b.live && b.base % PAGE_SIZE == 0
    ensures Mapped(bs + [b], readable + Pages(b.base / PAGE_SIZE, PgCount(b.len + 8)))
  {
    var cs := bs + [b];
    forall a: int | a >= 0
      ensures a / PAGE_SIZE in readable + Pages(b.base / PAGE_SIZE, PgCount(b.len + 8)) <==> Owned(cs, a)
    {
      PageOf(b.base, PgCount(b.len + 8), a);
      OwnedAppend(bs, b, a);
    }
  }

  lemma OwnedAppend(bs: seq<Block>, b: Block, a: int)
    requires b.live
    ensures Owned(bs + [b], a) <==> Owned(bs, a) || b.base <= a < b.Guard()
  {
    hide Usable;
    var cs := bs + [b];
    assert cs[|bs|] == b && forall i :: 0 <= i < |bs| ==> cs[i] == bs[i];
  }

  lemma MappedShrinks(bs: seq<Block>, readable: set<int>, i: nat)
    requires WellPlaced(bs) && Mapped(bs, readable) && i < |bs| && bs[i].live
    ensures Mapped(bs[i := bs[i].(live := false)], readable - Pages(bs[i].base / PAGE_SIZE, PgCount(bs[i].len + 8)))
  {
    var cs := bs[i := bs[i].(live := false)];
    forall a: int | a >= 0
      ensures a / PAGE_SIZE in readable - Pages(bs[i].base / PAGE_SIZE, PgCount(bs[i].len + 8)) <==> Owned(cs, a)
    {
      PageOf(bs[i].base, PgCount(bs[i].len + 8), a);
      OwnedFreed(bs, i, a);
    }
  }

  lemma OwnedFreed(bs: seq<Block>, i: nat, a: nat)
    requires WellPlaced(bs) && i < |bs| && bs[i].live
    ensures Owned(bs[i := bs[i].(live := false)], a) <==> Owned(bs, a) && !(bs[i].base <= a < bs[i].Guard())
  {
    hide Usable;
    var cs := bs[i := bs[i].(live := false)];
    PlacedFreed(bs, i);
    if bs[i].base <= a < bs[i].Guard() {
      OnlyOwner(bs, i, a);
      OnlyOwner(cs, i, a);
    } else if j :| 0 <= j < |bs| && bs[j].live && bs[j].base <= a < bs[j].Guard() {
      assert cs[j] == bs[j];
    }
  }

  lemma PlacedAppend(bs: seq<Block>, b: Block)
    requires WellPlaced(bs) && b.base % PAGE_SIZE == 0 && forall i :: 0 <= i < |bs| ==> Apart(bs[i], b)
    ensures WellPlaced(bs + [b])
  {
  }

  lemma PlacedFreed(bs: seq<Block>, i: nat)
    requires WellPlaced(bs) && i < |bs|
    ensures WellPlaced(bs[i := bs[i].(live := false)])
  {
    hide Usable;
    var cs := bs[i := bs[i].(live := false)];
    forall j, k | 0 <= j < k < |cs|
      ensures Apart(cs[j], cs[k])
    {
      assert Apart(bs[j], bs[k]);
    }
  }

  // ----- the allocator -----

  lemma SumAppend(bs: seq<Block>, b: Block)
    ensures LiveSum(bs + [b]) == LiveSum(bs) + if b.live then b.len else 0
  {
    assert (bs + [b])[..|bs|] == bs;
  }

  lemma {:induction false} SumBounds(bs: seq<Block>, i: nat)
    requires i < |bs| && bs[i].live
    ensures bs[i].len <= LiveSum(bs)
  {
    if i < |bs| - 1 {
      SumBounds(bs[..|bs| - 1], i);
    }
  }

  // ----- machine integers -----

  const SIZE_MAX := 0x1_0000_0000_0000_0000

  function Wrap(x: nat): nat {
    x % SIZE_MAX
  }

  /** The two comparisons refuse exactly the sums above the limit. */
  lemma LimitCheck(total: nat, len: nat, limit: nat)
    requires total <= limit < SIZE_MAX && len < SIZE_MAX
    ensures Wrap(total + len) > limit || Wrap(total + len) < total <==> total + len > limit
    ensures total + len <= limit ==> Wrap(total + len) == total + len
  {
  }

  /** The division finds exactly the products that do not fit. */
  lemma OverflowCheck(a: nat, b: nat)
    requires a < SIZE_MAX && b < SIZE_MAX
    ensures b != 0 && Wrap(a * b) / b != a <==> a * b >= SIZE_MAX
    ensures a * b < SIZE_MAX ==> Wrap(a * b) == a * b
  {
    if b > 0 {
      var x := a * b;
      Euclid(x, b);
      Divided(b, a - x / b, x % b);
      Euclid(Wrap(x), b);
      assert Wrap(x) / b == a ==> Wrap(x) >= b * a;
      assert b * a == x;
    }
  }

  lemma Euclid(x: nat, b: nat)
    requires b > 0
    ensures x == b * (x / b) + x % b && x % b < b
  {
  }

  lemma Divided(b: nat, k: int, r: nat)
    requires b > 0 && r < b
    ensures b * k == r ==> k == 0
  {
    if k >= 1 {
      assert b * k >= b;
    } else if k <= -1 {
      assert b * k <= 0 - b;
    }
  }

  // ----- the allocator -----

  datatype Header = Header(len: nat, canary: nat)

  /** A null pointer, the end of the process, or a buffer. */
  datatype Result = Null | Aborted | Faulted | Pointer(ptr: nat)

  datatype Freed = Done | Fault | BadCanary

  /** The address space. */
  type Memory = seq<int>

  function Contents(bytes: Memory, b: Block): (r: seq<int>)
    requires b.End() <= |bytes|
    ensures |r| == b.len
  {
    bytes[b.Ptr()..b.Ptr() + b.len]
  }

  function Write(bytes: Memory, at: nat, data: seq<int>): (r: Memory)
    requires at + |data| <= |bytes|
    ensures |r| == |bytes|
  {
    bytes[..at] + data + bytes[at + |data|..]
  }

  /** Every byte outside this mapping is the same in both memories. */
  ghost predicate OthersKept(before: Memory, after: Memory, b: Block) {
    |before| == |after| && b.End() <= |before| && before[..b.base] == after[..b.base] && before[b.End()..] == after[b.End()..]
  }

  lemma ContentsKept(before: Memory, after: Memory, b: Block, c: Block)
    requires OthersKept(before, after, b) && Apart(c, b) && c.End() <= |before|
    ensures Contents(after, c) == Contents(before, c)
  {
    hide Usable;
    var p, q := c.Ptr(), c.Ptr() + c.len;
    if c.End() <= b.base {
      Within(before, p, q, b.base);
      Within(after, p, q, b.base);
    } else {
      Beyond(before, p, q, b.End());
      Beyond(after, p, q, b.End());
    }
  }

  lemma Within(s: Memory, p: nat, q: nat, n: nat)
    requires p <= q <= n <= |s|
    ensures s[p..q] == s[..n][p..q]
  {
  }

  lemma Beyond(s: Memory, p: nat, q: nat, n: nat)
    requires n <= p <= q <= |s|
    ensures s[p..q] == s[n..][p - n..q - n]
  {
  }

  /** A write that stays in the mapping. */
  lemma WriteInside(bytes: Memory, b: Block, at: nat, data: seq<int>)
    requires b.base <= at && at + |data| <= b.End() <= |bytes|
    ensures OthersKept(bytes, Write(bytes, at, data), b)
  {
    hide Usable;
  }

  /** A write at the start of a buffer. */
  lemma WriteFront(bytes: Memory, b: Block, data: seq<int>)
    requires |data| <= b.len && b.End() <= |bytes|
    ensures Contents(Write(bytes, b.Ptr(), data), b) == data + Contents(bytes, b)[|data|..]
  {
    hide Usable;
  }

  lemma ZeroBlock(bytes: Memory, b: Block)
    requires b.End() <= |bytes|
    ensures Contents(Write(bytes, b.base, seq(b.End() - b.base, _ => 0)), b) == seq(b.len, _ => 0)
  {
    hide Usable;
  }

  lemma CopiedFront(bytes: Memory, o: Block, n: nat)
    requires n <= o.len && o.End() <= |bytes|
    ensures bytes[o.Ptr()..o.Ptr() + n] == Contents(bytes, o)[..n]
  {
    hide Usable;
  }

  lemma OthersKeptTwice(m0: Memory, m1: Memory, m2: Memory, b: Block)
    requires OthersKept(m0, m1, b) && OthersKept(m1, m2, b)
    ensures OthersKept(m0, m2, b)
  {
  }

  class Heap {
    const maxMem: nat
    const hardFail: bool
    const noCallocOver: bool
    var totalMem: nat
    var readable: set<int>         // the page table
    var bytes: Memory
    var headers: int -> Header     // the two words below an address
    ghost var blocks: seq<Block>   // every mapping so far

    ghost predicate Valid()
      reads this
    {
      && maxMem < 0x1_0000_0000
      && totalMem == LiveSum(blocks) <= maxMem
      && WellPlaced(blocks) && Mapped(blocks, readable) && HeadersMatch() && InSpace(blocks, |bytes|)
    }

    ghost predicate HeadersMatch()
      reads this`headers, this`blocks
    {
      forall i :: 0 <= i < |blocks| ==> headers(blocks[i].Ptr()) == Header(blocks[i].len, ALLOC_CANARY)
    }

    constructor (maxMem: nat, hardFail: bool, noCallocOver: bool, space: Memory)
      requires maxMem < 0x1_0000_0000
      ensures Valid() && blocks == [] && totalMem == 0
    {
      this.maxMem, this.hardFail, this.noCallocOver := maxMem, hardFail, noCallocOver;
      totalMem, readable, blocks := 0, {}, [];
      bytes, headers := space, _ => Header(0, 0);
    }

    /** The kernel maps pages nobody has: aligned, apart from every mapping so far. */
    ghost predicate Grants(place: Option<nat>, len: nat)
      reads this`blocks, this`bytes
    {
      place.Some? ==>
        var b := Block(place.value, len, true);
        b.base % PAGE_SIZE == 0 && b.End() <= |bytes| && forall i :: 0 <= i < |blocks| ==> Apart(blocks[i], b)
    }

    method Alloc(len: nat, place: Option<nat>) returns (r: Result)
      requires Valid() && len < SIZE_MAX && Grants(place, len)
      modifies this
      ensures Valid()
      ensures r.Pointer? <==> old(totalMem) + len <= maxMem && place.Some?
      ensures !r.Pointer? ==> r == (if hardFail then Aborted else Null) &&
                              blocks == old(blocks) && bytes == old(bytes) && totalMem == old(totalMem) && readable == old(readable)
      ensures r.Pointer? ==> blocks == old(blocks) + [Block(place.value, len, true)] && totalMem == old(totalMem) + len
      ensures r.Pointer? ==> var b := Block(place.value, len, true);
                             r.ptr == b.Ptr() && OthersKept(old(bytes), bytes, b) && Contents(bytes, b) == seq(len, _ => 0)
    {
      hide Usable, PgCount, Wrap, Write, Pages, WellPlaced, Mapped, LiveSum, Apart, Contents, OthersKept;
      var sum := Wrap(totalMem + len);
      LimitCheck(totalMem, len, maxMem);
      if sum > maxMem || sum < totalMem {
        return if hardFail then Aborted else Null;
      }
      if place == None {
        return if hardFail then Aborted else Null;
      }
      var base := place.value;
      ghost var b := Block(base, len, true);
      BlockSize(b);
      NewAddress(blocks, b);
      PlacedAppend(blocks, b);
      MappedGrows(blocks, readable, b);
      SumAppend(blocks, b);
      // mmap, zeroed, one page more than needed
      ZeroBlock(bytes, b);
      WriteInside(bytes, b, base, seq(b.End() - b.base, _ => 0));
      bytes := Write(bytes, base, seq(PAGE_SIZE * (1 + PgCount(len + 8)), _ => 0));
      // mprotect of the last page
      readable := readable + Pages(base / PAGE_SIZE, PgCount(len + 8));
      var ret, h := base + PAGE_SIZE * PgCount(len + 8) - len, headers;
      Fits32(len);
      headers := a => if a == ret then Header(len % 0x1_0000_0000, ALLOC_CANARY) else h(a);
      totalMem := sum;
      blocks := blocks + [b];
      r := Pointer(ret);
    }

    method Calloc(elemLen: nat, elemCnt: nat, place: Option<nat>) returns (r: Result)
      requires Valid() && elemLen < SIZE_MAX && elemCnt < SIZE_MAX && Grants(place, elemLen * elemCnt)
      modifies this
      ensures Valid()
      ensures r.Pointer? <==> old(totalMem) + elemLen * elemCnt <= maxMem && place.Some?
      ensures elemLen * elemCnt >= SIZE_MAX ==> r == if noCallocOver then Null else Aborted
      ensures !r.Pointer? ==> blocks == old(blocks) && bytes == old(bytes) && totalMem == old(totalMem)
      ensures r.Pointer? ==> blocks == old(blocks) + [Block(place.value, elemLen * elemCnt, true)] && totalMem == old(totalMem) + elemLen * elemCnt
      ensures r.Pointer? ==> var b := Block(place.value, elemLen * elemCnt, true);
                             r.ptr == b.Ptr() && OthersKept(old(bytes), bytes, b) && Contents(bytes, b) == seq(b.len, _ => 0)
    {
      hide Usable, WellPlaced, Mapped, LiveSum, Apart;
      OverflowCheck(elemLen, elemCnt);
      var len := Wrap(elemLen * elemCnt);
      if elemCnt != 0 && len / elemCnt != elemLen {
        return if noCallocOver then Null else Aborted;
      }
      r := Alloc(len, place);
    }

    method Malloc(len: nat, place: Option<nat>) returns (r: Result)
      requires Valid() && len < SIZE_MAX && Grants(place, len)
      modifies this
      ensures Valid()
      ensures r.Pointer? <==> old(totalMem) + len <= maxMem && place.Some?
      ensures !r.Pointer? ==> r == (if hardFail then Aborted else Null) &&
                              blocks == old(blocks) && bytes == old(bytes) && totalMem == old(totalMem) && readable == old(readable)
      ensures r.Pointer? ==> blocks == old(blocks) + [Block(place.value, len, true)] && totalMem == old(totalMem) + len
      ensures r.Pointer? ==> var b := Block(place.value, len, true);
                             r.ptr == b.Ptr() && OthersKept(old(bytes), bytes, b) && Contents(bytes, b) == seq(len, _ => ALLOC_CLOBBER)
    {
      hide Usable, WellPlaced, Mapped, LiveSum, Apart, HeadersMatch;
      r := Alloc(len, place);
      if r.Pointer? && len > 0 {
        BlockSize(Block(place.value, len, true));
        ghost var b := Block(place.value, len, true);
        var data := seq(len, _ => ALLOC_CLOBBER);
        WriteFront(bytes, b, data);
        WriteInside(bytes, b, r.ptr, data);
        OthersKeptTwice(old(bytes), bytes, Write(bytes, r.ptr, data), b);
        bytes := Write(bytes, r.ptr, data);
      }
    }

    /** A null pointer is ignored, a live buffer becomes unreadable, and a freed one is noticed
        before anything changes. */
    method Free(ptr: nat) returns (f: Freed)
      requires Valid() && (ptr == 0 || exists i :: 0 <= i < |blocks| && blocks[i].Ptr() == ptr)
      modifies this
      ensures Valid() && bytes == old(bytes)
      ensures ptr == 0 ==> f == Done && blocks == old(blocks)
      ensures forall i :: 0 <= i < |old(blocks)| && ptr != 0 && old(blocks)[i].Ptr() == ptr ==>
                var b := old(blocks)[i];
                if b.live then f == Done && blocks == old(blocks)[i := b.(live := false)] && totalMem == old(totalMem) - b.len
                else f == Fault && blocks == old(blocks) && totalMem == old(totalMem)
    {
      hide Usable, PgCount, WellPlaced, Mapped, LiveSum, Apart, InSpace;
      if ptr == 0 {
        return Done;
      }
      ghost var i :| 0 <= i < |blocks| && blocks[i].Ptr() == ptr;
      ghost var b := blocks[i];
      OnlyBlock(blocks, i);
      HeaderBytes(blocks, readable, i);
      if (ptr - 4) / PAGE_SIZE !in readable || (ptr - 1) / PAGE_SIZE !in readable {
        return Fault;
      }
      if headers(ptr).canary != ALLOC_CANARY {
        return BadCanary;
      }
      var len := headers(ptr).len;
      SumBounds(blocks, i);
      SumFreed(blocks, i);
      MappedShrinks(blocks, readable, i);
      PlacedFreed(blocks, i);
      FreedLayout(blocks, i, |bytes|);
      BlockSize(b);
      totalMem := totalMem - len;
      var start := ptr - (PAGE_SIZE * PgCount(len + 8) - len - 8) - 8;
      assert start == b.base;
      readable := readable - Pages(start / PAGE_SIZE, PgCount(len + 8));
      blocks := blocks[i := b.(live := false)];
      f := Done;
    }

    /** Always a new buffer: the common front is copied and the old buffer freed; when there is no
        new buffer, everything stays. */
    method Realloc(ptr: nat, len: nat, place: Option<nat>, ghost i: nat) returns (r: Result)
      requires Valid() && len < SIZE_MAX && Grants(place, len)
      requires ptr != 0 ==> i < |blocks| && blocks[i].Ptr() == ptr
      modifies this
      ensures Valid()
      ensures r.Pointer? <==> old(totalMem) + len <= maxMem && place.Some? && (ptr == 0 || old(blocks)[i].live)
      ensures old(totalMem) + len > maxMem || place.None? ==>
                r == (if hardFail then Aborted else Null) && blocks == old(blocks) && bytes == old(bytes) && totalMem == old(totalMem)
      ensures r.Pointer? ==> var b := Block(place.value, len, true); r.ptr == b.Ptr() && OthersKept(old(bytes), bytes, b)
      ensures r.Pointer? && ptr == 0 ==> blocks == old(blocks) + [Block(place.value, len, true)]
      ensures r.Pointer? && ptr != 0 ==>
                var o, b := old(blocks)[i], Block(place.value, len, true);
                && blocks == old(blocks)[i := o.(live := false)] + [b] && totalMem == old(totalMem) + len - o.len
                && Contents(bytes, b) == Contents(old(bytes), old(blocks)[i])[..Min(len, o.len)] + seq(len - Min(len, o.len), _ => ALLOC_CLOBBER)
    {
      hide Valid, Usable, Grants, Apart, Contents;
      GrantedApart(place, len, i);
      r := Malloc(len, place);
      if r.Pointer? && ptr != 0 {
        ghost var o, b := old(blocks)[i], Block(place.value, len, true);
        ContentsKept(old(bytes), bytes, b, o);
        assert blocks[i] == o;
        var moved := Move(ptr, r.ptr, len, i, b);
        if !moved {
          r := Faulted;
        }
      }
    }

    lemma GrantedApart(place: Option<nat>, len: nat, i: nat)
      requires Valid() && Grants(place, len)
      ensures i < |blocks| ==> blocks[i].End() <= |bytes|
      ensures i < |blocks| && place.Some? ==> Apart(blocks[i], Block(place.value, len, true))
    {
      hide Usable, WellPlaced, Mapped, LiveSum, Apart;
    }

    /** Copies what fits of the old buffer and frees it; `false` when it cannot be read. */
    method Move(ptr: nat, ret: nat, len: nat, ghost i: nat, ghost b: Block) returns (moved: bool)
      requires Valid() && ptr != 0 && i < |blocks| && blocks[i].Ptr() == ptr
      requires ret == b.Ptr() && b.len == len && Apart(blocks[i], b) && b.End() <= |bytes|
      modifies this
      ensures Valid() && moved == old(blocks)[i].live
      ensures OthersKept(old(bytes), bytes, b)
      ensures !moved ==> blocks == old(blocks)
      ensures moved ==> var o := old(blocks)[i];
                        && blocks == old(blocks)[i := o.(live := false)] && totalMem == old(totalMem) - o.len
                        && Contents(bytes, b) == Contents(old(bytes), old(blocks)[i])[..Min(len, o.len)] + Contents(old(bytes), b)[Min(len, o.len)..]
    {
      hide Usable, WellPlaced, Mapped, LiveSum, Contents, Apart;
      HeaderBytes(blocks, readable, i);
      if (ptr - 4) / PAGE_SIZE !in readable || (ptr - 1) / PAGE_SIZE !in readable {
        return false;
      }
      Memcpy(ret, ptr, Min(len, headers(ptr).len), blocks[i], b);
      var f := Free(ptr);
      moved := true;
    }

    method Memcpy(ret: nat, ptr: nat, n: nat, ghost o: Block, ghost b: Block)
      requires ret == b.Ptr() && ptr == o.Ptr() && n <= b.len && n <= o.len && Apart(o, b)
      requires b.End() <= |bytes| && o.End() <= |bytes|
      modifies this`bytes
      ensures |bytes| == |old(bytes)| && OthersKept(old(bytes), bytes, b)
      ensures Contents(bytes, b) == Contents(old(bytes), o)[..n] + Contents(old(bytes), b)[n..]
    {
      hide Usable, Contents, OthersKept;
      BlockSize(b);
      BlockSize(o);
      var data := bytes[ptr..ptr + n];
      CopiedFront(bytes, o, n);
      WriteFront(bytes, b, data);
      WriteInside(bytes, b, ret, data);
      bytes := Write(bytes, ret, data);
    }
  }

  lemma OnlyBlock(bs: seq<Block>, i: nat)
    requires WellPlaced(bs) && i < |bs|
    ensures forall j :: 0 <= j < |bs| && j != i ==> bs[j].Ptr() != bs[i].Ptr()
  {
    hide Usable, WellPlaced;
    forall j | 0 <= j < |bs| && j != i
      ensures bs[j].Ptr() != bs[i].Ptr()
    {
      PtrUnique(bs, i, j);
    }
  }

  lemma FreedLayout(bs: seq<Block>, i: nat, n: nat)
    requires i < |bs| && InSpace(bs, n)
    ensures var cs := bs[i := bs[i].(live := false)];
            InSpace(cs, n) && forall j :: 0 <= j < |cs| ==> cs[j].Ptr() == bs[j].Ptr() && cs[j].len == bs[j].len
  {
    hide Usable;
  }

  lemma HeaderBytes(bs: seq<Block>, readable: set<int>, i: nat)
    requires WellPlaced(bs) && Mapped(bs, readable) && i < |bs|
    ensures var p := bs[i].Ptr();
            p >= 8 && ((p - 4) / PAGE_SIZE in readable <==> bs[i].live) && ((p - 1) / PAGE_SIZE in readable <==> bs[i].live)
  {
    var p := bs[i].Ptr();
    OnlyOwner(bs, i, p - 4);
    OnlyOwner(bs, i, p - 1);
  }

  lemma BlockSize(b: Block)
    ensures b.Guard() == b.base + PAGE_SIZE * PgCount(b.len + 8)
    ensures b.End() == b.base + PAGE_SIZE * (1 + PgCount(b.len + 8))
    ensures b.Ptr() == b.base + PAGE_SIZE * PgCount(b.len + 8) - b.len >= b.base + 8
  {
  }

  lemma Fits32(len: nat)
    ensures len < 0x1_0000_0000 ==> len % 0x1_0000_0000 == len
  {
  }

  /** A block in fresh pages has an address of its own. */
  lemma NewAddress(bs: seq<Block>, b: Block)
    requires forall i :: 0 <= i < |bs| ==> Apart(bs[i], b)
    ensures forall i :: 0 <= i < |bs| ==> bs[i].Ptr() != b.Ptr()
  {
    hide Usable;
  }
}
