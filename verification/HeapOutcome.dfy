/** When the three calls succeed and where their result lies, on the sizes and blocks alone. */
module HeapOutcome {
  import opened HeapChain
  import opened HeapCalls

  /** The least multiple of m that is not below x. */
  function Up(x: nat, m: nat): nat
    requires m > 0
  {
    (x + m - 1) / m * m
  }

  /** A request gets `Up(size, 16)` bytes of payload, and fresh memory for it in whole pages. */
  function Payload(size: nat): nat {
    Up(size, 16)
  }

  function Pages(size: nat): nat {
    Up(Payload(size) + 32, 4096)
  }

  predicate Oversized(size: nat) {
    size == 0 || size > 0xFFFF_FFFF - 32
  }

  // A block that malloc may hand out for that many bytes.
  predicate Serves(b: Blk, n: nat) {
    !b.used && n <= b.size
  }

  lemma PayloadIs(size: nat)
    requires !Oversized(size)
    ensures !Refused(size) && Align(size) == Payload(size)
  {
  }

  // Rounding up to whole pages in 32 bits, where it may wrap around.
  lemma PageRoundIs(n: nat)
    requires 0 < n < SPACE
    ensures if Up(n, 4096) >= SPACE then PageRound(n) < n else PageRound(n) == Up(n, 4096) >= n
  {
    var t := n + 4095;
    if t < SPACE {
      assert t % SPACE == t;
      assert t - t % 4096 == t / 4096 * 4096;
    } else {
      assert t % SPACE == t - SPACE;
      assert (t - SPACE) % 4096 == t - SPACE;
    }
  }

  lemma PagesAre(size: nat)
    requires !Oversized(size)
    ensures AllocSize(Payload(size)) == (if Pages(size) >= SPACE then 0 else Pages(size)) && Pages(size) > 0
  {
    hide PageRound;
    var n := Payload(size) + 32;
    assert n <= SPACE;
    if n < SPACE {
      PageRoundIs(n);
    }
  }

  /** malloc fails exactly for a size it refuses, or when no free block is large enough and the whole pages that
      are needed are too many or not to be had. */
  predicate MallocFails(c: seq<Blk>, size: nat, mmap: Mmap) {
    || Oversized(size)
    || ((forall i | 0 <= i < |c| :: !Serves(c[i], Payload(size))) && (Pages(size) >= SPACE || mmap.Failed?))
  }

  // The first free block that is large enough.
  predicate FirstServing(c: seq<Blk>, n: nat, k: nat) {
    k < |c| && Serves(c[k], n) && forall i | 0 <= i < k :: !Serves(c[i], n)
  }

  lemma FirstFitServes(c: seq<Blk>, n: nat)
    ensures var f := FirstFit(c, n, 0);
      && (f < |c| <==> exists i :: 0 <= i < |c| && Serves(c[i], n))
      && (f < |c| ==> FirstServing(c, n, f)) && (forall k | FirstServing(c, n, k) :: f == k)
  {
    var f := FirstFit(c, n, 0);
    if i :| 0 <= i < |c| && Serves(c[i], n) {
      assert i >= f;
    }
  }

  /** Which calls of malloc succeed, which block they return, and how much memory they obtain: the first free block
      that is large enough, or fresh pages. */
  lemma MallocOutcome(st: State, size: nat, mmap: Mmap)
    requires st.Valid() && Honest(st, Align(size), mmap)
    ensures var r := AfterMalloc(st, size, mmap);
      && (r.ptr == 0 <==> MallocFails(st.chain, size, mmap))
      && (r.ptr != 0 ==>
        if exists k: nat :: FirstServing(st.chain, Payload(size), k)
        then r.state.regions == st.regions && forall k: nat | FirstServing(st.chain, Payload(size), k) ::
          r.ptr == st.chain[k].addr + 32
        else mmap.At? && r.ptr == mmap.addr + 32 && r.state.regions == st.regions + [Region(mmap.addr, Pages(size))])
  {
    hide Inv, FreshPages, SplitAt, Up, Align, AllocSize, FirstFit;
    if !Oversized(size) {
      var n := Payload(size);
      PayloadIs(size);
      PagesAre(size);
      AlignUp(size);
      FirstFitServes(st.chain, n);
    }
  }

  /** The block malloc returns is no larger than it has to be: what is left over would not hold a block. */
  lemma MallocTight(st: State, size: nat, mmap: Mmap) returns (b: Blk)
    requires st.Valid() && Honest(st, Align(size), mmap) && !MallocFails(st.chain, size, mmap)
    ensures var r := AfterMalloc(st, size, mmap);
      && b in r.state.chain && b.used && b.addr + 32 == r.ptr && Payload(size) <= b.size < Payload(size) + 32 + 16
  {
    hide Inv, FreshPages, SplitAt, Up, Align, AllocSize, FirstFit, Live;
    var n := Payload(size);
    PayloadIs(size);
    PagesAre(size);
    AlignUp(size);
    FirstFitServes(st.chain, n);
    MallocOutcome(st, size, mmap);
    var c, k := st.chain, FirstFit(st.chain, n, 0);
    if k < |c| {
      SetUsedInv(c, st.regions, k, true);
      b := CutTight(SetUsed(c, k, true), st.regions, k, n);
    } else {
      var g := Region(mmap.addr, AllocSize(n));
      AllocSizeFits(n);
      AppendInv(c, st.regions, g, true);
      var d := c + [Blk(g.addr, g.len - BLOCK_META_SIZE, true)];
      b := CutTight(d, st.regions + [g], |c|, n);
    }
  }

  // A used block that was cut down to n bytes if it could be.
  lemma CutTight(c: seq<Blk>, rs: seq<Region>, k: nat, n: nat) returns (b: Blk)
    requires Inv(c, rs) && k < |c| && c[k].used && n <= c[k].size
    ensures Placed(c[k])
    ensures b in SplitAt(c, k, n) && b.used && b.addr == c[k].addr && n <= b.size < n + 32 + 16
  {
    b := SplitAt(c, k, n)[k];
  }

  // ---- free

  // Two blocks that lie one directly behind the other.
  predicate Touch(a: Blk, b: Blk) {
    a.addr + 32 + a.size == b.addr
  }

  /** Block k, and the free blocks beside it that it touches, as one free block. */
  function Freed(c: seq<Blk>, k: nat): seq<Blk>
    requires k < |c|
  {
    var before := k > 0 && !c[k - 1].used && Touch(c[k - 1], c[k]);
    var behind := k + 1 < |c| && !c[k + 1].used && Touch(c[k], c[k + 1]);
    var lo := if before then k - 1 else k;
    var hi := if behind then k + 2 else k + 1;
    var size := c[k].size + (if before then c[k - 1].size + 32 else 0) + (if behind then 32 + c[k + 1].size else 0);
    c[..lo] + ([Blk(c[lo].addr, size, false)] + c[hi..])
  }

  /** That is what free makes of a live block. */
  lemma FreeOutcome(st: State, k: nat)
    requires st.Valid() && k < |st.chain| && st.chain[k].used
    ensures AfterFree(st, st.chain[k].addr + 32) == State(Freed(st.chain, k), st.regions)
  {
    hide Inv, Disjoint, Tiles, Freed, CoalesceAt;
    var c := st.chain;
    InvPlaced(c, st.regions, k);
    InvDisjoint(c, st.regions);
    FindIs(c, k);
    FreedIs(c, k);
  }

  lemma FreedIs(c: seq<Blk>, k: nat)
    requires k < |c|
    ensures CoalesceAt(SetUsed(c, k, false), k) == Freed(c, k)
  {
    hide CoalesceNext, MergeAt;
    var behind := k + 1 < |c| && !c[k + 1].used && Touch(c[k], c[k + 1]);
    var b := Blk(c[k].addr, c[k].size + (if behind then 32 + c[k + 1].size else 0), false);
    JoinedBehind(c, k);
    JoinedBefore(c, CoalesceNext(SetUsed(c, k, false), k), k, b, c[if behind then k + 2 else k + 1..]);
  }

  // The freed block, with a free one behind it.
  lemma JoinedBehind(c: seq<Blk>, k: nat)
    requires k < |c|
    ensures var behind := k + 1 < |c| && !c[k + 1].used && Touch(c[k], c[k + 1]);
      var b := Blk(c[k].addr, c[k].size + (if behind then 32 + c[k + 1].size else 0), false);
      CoalesceNext(SetUsed(c, k, false), k) == c[..k] + ([b] + c[if behind then k + 2 else k + 1..])
  {
  }

  // That block, with a free one before it.
  lemma JoinedBefore(c: seq<Blk>, e: seq<Blk>, k: nat, b: Blk, rest: seq<Blk>)
    requires k < |c| && e == c[..k] + ([b] + rest) && b.addr == c[k].addr && !b.used
    ensures k > 0 ==> e[k - 1] == c[k - 1] && (Mergeable(e, k - 1) <==> Touch(c[k - 1], c[k]))
    ensures k > 0 && !c[k - 1].used ==>
      MergeAt(e, k - 1) == c[..k - 1] + ([Blk(c[k - 1].addr, c[k - 1].size + 32 + b.size, false)] + rest)
  {
    if k > 0 {
      assert e[k] == b && e[..k - 1] == c[..k - 1] && e[k + 1..] == rest;
    }
  }

  // ---- realloc

  /** realloc of a live block fails exactly when the size is refused, or neither the block, nor it and a free one
      behind it, is large enough, and malloc fails; it stays in place exactly in the first two cases. */
  lemma ReallocOutcome(st: State, k: nat, size: nat, mmap: Mmap)
    requires st.Valid() && k < |st.chain| && st.chain[k].used && size > 0 && Honest(st, Align(size), mmap)
    requires Known(st, st.chain[k].addr + 32)
    ensures var c, ptr := st.chain, st.chain[k].addr + 32;
      var r := AfterRealloc(st, ptr, size, mmap);
      var inPlace := c[k].size >= Payload(size)
        || (k + 1 < |c| && !c[k + 1].used && c[k].End() == c[k + 1].addr
            && c[k + 1].End() - ptr >= Payload(size));
      && (r.ptr == 0 <==> Oversized(size) || (!inPlace && MallocFails(c, size, mmap)))
      && (!Oversized(size) && inPlace ==> r.ptr == ptr && r.state.regions == st.regions)
      && (!Oversized(size) && !inPlace ==> r.ptr == AfterMalloc(st, size, mmap).ptr)
  {
    hide Inv, Disjoint, FreshPages, SplitAt, MergeAt, Up, Align, AfterMalloc, AfterFree;
    var c, ptr := st.chain, st.chain[k].addr + 32;
    InvPlaced(c, st.regions, k);
    InvDisjoint(c, st.regions);
    FindIs(c, k);
    MallocOutcome(st, size, mmap);
    if !Oversized(size) {
      PayloadIs(size);
    }
  }

  /** realloc of a null pointer is malloc, and of size 0 is free. */
  lemma ReallocEnds(st: State, ptr: nat, size: nat, mmap: Mmap)
    requires st.Valid() && Known(st, ptr) && Honest(st, Align(size), mmap)
    ensures ptr == 0 ==> AfterRealloc(st, ptr, size, mmap) == AfterMalloc(st, size, mmap)
    ensures ptr != 0 && size == 0 ==> AfterRealloc(st, ptr, size, mmap) == Result(AfterFree(st, ptr), 0)
  {
  }
}
