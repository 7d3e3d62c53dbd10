/** The three calls on the chain, and what every sequence of calls keeps. */
module HeapCalls {
  import opened HeapChain

  datatype State = State(chain: seq<Blk>, regions: seq<Region>) {
    ghost predicate Valid() {
      Inv(chain, regions)
    }

    /** heap_base: the address of the first block, 0 before the first request. */
    function Base(): nat {
      if chain == [] then 0 else chain[0].addr
    }
  }

  datatype Result = Result(state: State, ptr: nat)

  /** What mmap would answer: nothing, or the address of a fresh region. */
  datatype Mmap = Failed | At(addr: nat)

  /** The first free block from `k` on that can hold `n` bytes, or the length of the chain. */
  function FirstFit(c: seq<Blk>, n: nat, k: nat): (f: nat)
    requires k <= |c|
    ensures k <= f <= |c| && (f < |c| ==> !c[f].used && c[f].size >= n)
    ensures forall i | k <= i < f :: c[i].used || c[i].size < n
    decreases |c| - k
  {
    if k == |c| || (!c[k].used && c[k].size >= n) then k else FirstFit(c, n, k + 1)
  }

  function Find(c: seq<Blk>, addr: nat): (k: nat)
    ensures k <= |c| && (k < |c| ==> c[k].addr == addr)
    ensures k == |c| ==> forall i | 0 <= i < |c| :: c[i].addr != addr
  {
    if c == [] then 0 else if c[0].addr == addr then 0 else 1 + Find(c[1..], addr)
  }

  /** The size request_space asks mmap for, or 0 when the request overflows. */
  function AllocSize(n: nat): nat {
    if n + BLOCK_META_SIZE > SIZE_MAX then 0
    else if PageRound(n + BLOCK_META_SIZE) < n + BLOCK_META_SIZE then 0
    else PageRound(n + BLOCK_META_SIZE)
  }

  ghost predicate Honest(st: State, n: nat, mmap: Mmap) {
    mmap.At? && AllocSize(n) > 0 ==> FreshPages(st.regions, Region(mmap.addr, AllocSize(n)))
  }

  predicate Refused(size: nat) {
    size == 0 || size > SIZE_MAX - BLOCK_META_SIZE
  }

  lemma AlignUp(size: nat)
    requires !Refused(size)
    ensures size <= Align(size) <= SIZE_MAX && Align(size) % ALIGNMENT == 0
  {
  }

  lemma AllocSizeFits(n: nat)
    requires n % ALIGNMENT == 0 && AllocSize(n) > 0
    ensures n + BLOCK_META_SIZE <= AllocSize(n) && AllocSize(n) % PAGE_SIZE == 0
  {
  }

  /** What happens once the size has been checked and rounded up to `n`. */
  ghost function Obtained(st: State, n: nat, mmap: Mmap): Result
    requires st.Valid() && Honest(st, n, mmap) && n % ALIGNMENT == 0
  {
    var k := FirstFit(st.chain, n, 0);
    if k < |st.chain| then
      SetUsedInv(st.chain, st.regions, k, true);
      Result(State(SplitAt(SetUsed(st.chain, k, true), k, n), st.regions), st.chain[k].addr + BLOCK_META_SIZE)
    else if AllocSize(n) == 0 || mmap.Failed? then Result(st, 0)
    else
      AllocSizeFits(n);
      var r := Region(mmap.addr, AllocSize(n));
      AppendInv(st.chain, st.regions, r, true);
      var c := st.chain + [Blk(r.addr, r.len - BLOCK_META_SIZE, true)];
      Result(State(SplitAt(c, k, n), st.regions + [r]), r.addr + BLOCK_META_SIZE)
  }

  lemma ObtainedAnew(st: State, n: nat, mmap: Mmap)
    requires st.Valid() && Honest(st, n, mmap) && n % ALIGNMENT == 0 && FirstFit(st.chain, n, 0) == |st.chain|
    ensures AllocSize(n) == 0 || mmap.Failed? ==> Obtained(st, n, mmap) == Result(st, 0)
    ensures AllocSize(n) > 0 && mmap.At? ==>
      && n + BLOCK_META_SIZE <= AllocSize(n)
      && var a := Blk(mmap.addr, AllocSize(n) - BLOCK_META_SIZE, true);
      && Placed(a)
      && Obtained(st, n, mmap) == Result(State(SplitAt(st.chain + [a], |st.chain|, n),
                                               st.regions + [Region(mmap.addr, AllocSize(n))]),
                                         mmap.addr + BLOCK_META_SIZE)
  {
    hide Inv, SplitAt, FreshPages, Placed;
    if AllocSize(n) > 0 && mmap.At? {
      AllocSizeFits(n);
      var r := Region(mmap.addr, AllocSize(n));
      AppendInv(st.chain, st.regions, r, true);
      InvPlaced(st.chain + [Blk(r.addr, r.len - BLOCK_META_SIZE, true)], st.regions + [r], |st.chain|);
    }
  }

  ghost function AfterMalloc(st: State, size: nat, mmap: Mmap): Result
    requires st.Valid() && Honest(st, Align(size), mmap)
  {
    if Refused(size) then Result(st, 0)
    else
      AlignUp(size);
      Obtained(st, Align(size), mmap)
  }

  /** A pointer the callers may pass: null, one the code rejects as misaligned, or one whose header
      is that of a block of the heap. */
  predicate Known(st: State, ptr: nat) {
    ptr == 0 || ptr % ALIGNMENT != 0
    || (BLOCK_META_SIZE <= ptr && Find(st.chain, ptr - BLOCK_META_SIZE) < |st.chain|)
  }

  predicate IsLive(st: State, ptr: nat) {
    && ptr % ALIGNMENT == 0 && BLOCK_META_SIZE <= ptr
    && var k := Find(st.chain, ptr - BLOCK_META_SIZE); k < |st.chain| && st.chain[k].used
  }

  function AfterFree(st: State, ptr: nat): State {
    if !IsLive(st, ptr) then st
    else
      var k := Find(st.chain, ptr - BLOCK_META_SIZE);
      State(CoalesceAt(SetUsed(st.chain, k, false), k), st.regions)
  }

  /** Whether block `k` and its free neighbour together can hold `n` bytes. */
  predicate CanGrow(c: seq<Blk>, k: nat, n: nat)
    requires k < |c|
  {
    Mergeable(c, k) && !c[k + 1].used && c[k].size + BLOCK_META_SIZE + c[k + 1].size >= n
  }

  ghost function AfterRealloc(st: State, ptr: nat, size: nat, mmap: Mmap): Result
    requires st.Valid() && Known(st, ptr) && Honest(st, Align(size), mmap)
  {
    if ptr == 0 then AfterMalloc(st, size, mmap)
    else if size == 0 then Result(AfterFree(st, ptr), 0)
    else if Refused(size) || !IsLive(st, ptr) then Result(st, 0)
    else
      AlignUp(size);
      var n := Align(size);
      var c := st.chain;
      var k := Find(c, ptr - BLOCK_META_SIZE);
      InvPlaced(c, st.regions, k);
      if c[k].size >= n then Result(State(SplitAt(c, k, n), st.regions), ptr)
      else if CanGrow(c, k, n) then
        MergeInv(c, st.regions, k);
        InvPlaced(MergeAt(c, k), st.regions, k);
        Result(State(SplitAt(MergeAt(c, k), k, n), st.regions), ptr)
      else
        var m := AfterMalloc(st, size, mmap);
        if m.ptr == 0 then m
        else
          Result(AfterFree(m.state, ptr), m.ptr)
  }

  // ---- the live blocks

  ghost function Live(c: seq<Blk>): set<Blk> {
    set b | b in c && b.used
  }

  lemma LiveConcat(a: seq<Blk>, b: seq<Blk>)
    ensures Live(a + b) == Live(a) + Live(b)
  {
  }

  lemma CrossNotIn(a: seq<Blk>, b: seq<Blk>)
    requires Cross(a, b)
    ensures forall l | l in a :: l !in b
  {
    forall i, j | 0 <= i < |a| && 0 <= j < |b| ensures a[i] != b[j] {
      assert Apart(a[i], b[j]);
    }
  }

  /** Replacing a stretch of the chain changes the live blocks by exactly those of the stretch. */
  lemma LiveReplace(pre: seq<Blk>, was: seq<Blk>, now: seq<Blk>, post: seq<Blk>)
    requires Disjoint(pre + was + post)
    ensures Live(pre + now + post) == Live(pre + was + post) - Live(was) + Live(now)
  {
    DisjointConcat(pre + was, post);
    DisjointConcat(pre, was);
    LiveConcat(pre + was, post);
    LiveConcat(pre, was);
    LiveConcat(pre + now, post);
    LiveConcat(pre, now);
    CrossNotIn(pre, was);
    CrossNotIn(pre + was, post);
  }

  lemma SplitLive(c: seq<Blk>, k: nat, n: nat)
    requires Disjoint(c) && k < |c| && n <= c[k].size
    ensures Live(SplitAt(c, k, n)) == Live(c) - Live([c[k]]) + Live([SplitAt(c, k, n)[k]])
    ensures var b := SplitAt(c, k, n)[k]; b.addr == c[k].addr && b.used == c[k].used && n <= b.size <= c[k].size
  {
    Carve(c, k, 1);
    assert c[k..k + 1] == [c[k]];
    if Splits(c[k], n) {
      var front := c[k].(size := n);
      var rest := Blk(c[k].addr + BLOCK_META_SIZE + n, c[k].size - n - BLOCK_META_SIZE, false);
      LiveReplace(c[..k], [c[k]], [front, rest], c[k + 1..]);
      assert Live([front, rest]) == Live([front]);
    } else {
      assert [c[k]][0] == c[k];
      LiveReplace(c[..k], [c[k]], [c[k]], c[k + 1..]);
    }
  }

  lemma SetUsedLive(c: seq<Blk>, k: nat, used: bool)
    requires Disjoint(c) && k < |c|
    ensures Live(SetUsed(c, k, used)) == Live(c) - Live([c[k]]) + Live([c[k].(used := used)])
  {
    Carve(c, k, 1);
    assert c[k..k + 1] == [c[k]];
    LiveReplace(c[..k], [c[k]], [c[k].(used := used)], c[k + 1..]);
    assert SetUsed(c, k, used) == c[..k] + [c[k].(used := used)] + c[k + 1..];
  }

  lemma MergeLive(c: seq<Blk>, k: nat)
    requires Disjoint(c) && k + 1 < |c|
    ensures var whole := c[k].(size := c[k].size + BLOCK_META_SIZE + c[k + 1].size);
      Live(MergeAt(c, k)) == Live(c) - Live([c[k], c[k + 1]]) + Live([whole])
  {
    Carve(c, k, 2);
    assert c[k..k + 2] == [c[k], c[k + 1]];
    LiveReplace(c[..k], [c[k], c[k + 1]],
                [c[k].(size := c[k].size + BLOCK_META_SIZE + c[k + 1].size)], c[k + 2..]);
  }

  lemma LiveOne(b: Blk)
    ensures Live([b]) == if b.used then {b} else {}
  {
  }

  /** Merging two free neighbours leaves the live blocks, and what holds, alone. */
  lemma MergeFree(c: seq<Blk>, rs: seq<Region>, k: nat)
    requires Inv(c, rs) && Mergeable(c, k) && !c[k].used && !c[k + 1].used
    ensures Inv(MergeAt(c, k), rs) && Live(MergeAt(c, k)) == Live(c)
  {
    MergeInv(c, rs, k);
    MergeLive(c, k);
    assert Live([c[k], c[k + 1]]) == {};
    LiveOne(c[k].(size := c[k].size + BLOCK_META_SIZE + c[k + 1].size));
  }

  lemma CoalesceFree(c: seq<Blk>, rs: seq<Region>, k: nat)
    requires Inv(c, rs) && k < |c| && !c[k].used
    ensures Inv(CoalesceAt(c, k), rs) && Live(CoalesceAt(c, k)) == Live(c)
    ensures CoalesceAt(c, k) != [] && CoalesceAt(c, k)[0].addr == c[0].addr
  {
    hide Inv, Live;
    if Mergeable(c, k) && !c[k + 1].used {
      MergeFree(c, rs, k);
    }
    var d := CoalesceNext(c, k);
    if k > 0 && !d[k - 1].used && Mergeable(d, k - 1) {
      MergeFree(d, rs, k - 1);
    }
  }

  lemma InvDisjoint(c: seq<Blk>, rs: seq<Region>)
    requires Inv(c, rs)
    ensures Disjoint(c)
  {
  }

  /** What malloc promises: it fails without effect, or adds exactly one live block, large enough and
      aligned, that overlaps no block that was live before; heap_base never moves. */
  ghost predicate Allocated(st: State, size: nat, r: Result, b: Blk) {
    && r.state.Valid() && (st.chain != [] ==> r.state.Base() == st.Base())
    && (r.ptr == 0 ==> r.state == st)
    && (r.ptr != 0 ==>
          && b.addr + BLOCK_META_SIZE == r.ptr && b.used && size <= b.size && r.ptr % ALIGNMENT == 0
          && b in r.state.chain && Live(r.state.chain) == Live(st.chain) + {b}
          && forall l | l in Live(st.chain) :: Apart(l, b))
  }

  lemma MallocEffect(st: State, size: nat, mmap: Mmap) returns (b: Blk)
    requires st.Valid() && Honest(st, Align(size), mmap)
    ensures Allocated(st, size, AfterMalloc(st, size, mmap), b)
  {
    hide Inv, Live, Disjoint, Splits, SplitAt;
    b := Blk(0, 0, false);
    if Refused(size) {
      return;
    }
    AlignUp(size);
    var n, c := Align(size), st.chain;
    var k := FirstFit(c, n, 0);
    if k < |c| {
      b := MallocReuse(st, k, n);
    } else if AllocSize(n) > 0 && mmap.At? {
      b := MallocExtend(st, n, mmap.addr);
    }
  }

  lemma MallocReuse(st: State, k: nat, n: nat) returns (b: Blk)
    requires st.Valid() && k < |st.chain| && !st.chain[k].used && n <= st.chain[k].size && n % ALIGNMENT == 0
    ensures Placed(st.chain[k])
    ensures Allocated(st, n, Result(State(SplitAt(SetUsed(st.chain, k, true), k, n), st.regions),
                                    st.chain[k].addr + BLOCK_META_SIZE), b)
  {
    hide Inv, Live, Disjoint, Splits;
    var c := st.chain;
    InvDisjoint(c, st.regions);
    SetUsedInv(c, st.regions, k, true);
    SetUsedLive(c, k, true);
    var d := SetUsed(c, k, true);
    InvDisjoint(d, st.regions);
    SplitInv(d, st.regions, k, n);
    SplitLive(d, k, n);
    b := SplitAt(d, k, n)[k];
    InvPlaced(c, st.regions, k);
    LiveOne(c[k]);
    LiveOne(d[k]);
    LiveOne(b);
    LiveBeside(c, k, d[k], b);
    LiveIn(c, c[k]);
  }

  lemma MallocExtend(st: State, n: nat, addr: nat) returns (b: Blk)
    requires st.Valid() && n % ALIGNMENT == 0 && AllocSize(n) > 0
    requires FreshPages(st.regions, Region(addr, AllocSize(n)))
    ensures BLOCK_META_SIZE + n <= AllocSize(n)
    ensures var a := Blk(addr, AllocSize(n) - BLOCK_META_SIZE, true);
      && Placed(a)
      && Allocated(st, n, Result(State(SplitAt(st.chain + [a], |st.chain|, n),
                                       st.regions + [Region(addr, AllocSize(n))]),
                                 addr + BLOCK_META_SIZE), b)
  {
    hide Inv, Live, Disjoint, Splits;
    AllocSizeFits(n);
    var c, k, r := st.chain, |st.chain|, Region(addr, AllocSize(n));
    var a := Blk(r.addr, r.len - BLOCK_META_SIZE, true);
    var d := c + [a];
    AppendInv(c, st.regions, r, true);
    InvDisjoint(d, st.regions + [r]);
    LiveConcat(c, [a]);
    SplitInv(d, st.regions + [r], k, n);
    SplitLive(d, k, n);
    b := SplitAt(d, k, n)[k];
    InvPlaced(d, st.regions + [r], k);
    LiveOne(a);
    LiveOne(b);
    LiveBeside(d, k, a, b);
    NotLiveAppended(c, a);
    LiveIn(c, a);
  }

  lemma LiveIn(c: seq<Blk>, b: Blk)
    ensures b in Live(c) <==> b in c && b.used
  {
  }

  /** A block cut from block `k` overlaps no other live block; and block `k` turned live is new. */
  lemma LiveBeside(c: seq<Blk>, k: nat, d: Blk, b: Blk)
    requires Disjoint(c) && k < |c| && b.addr == c[k].addr && b.size <= c[k].size
    requires d == c[k].(used := true)
    ensures forall l | l in Live(c) && l != c[k] :: Apart(l, b)
    ensures !c[k].used ==> d !in Live(c)
  {
    forall l | l in c && l != c[k] ensures Apart(l, b) && l != d {
      var i :| 0 <= i < |c| && c[i] == l;
      assert Apart(c[i], c[k]);
    }
  }

  lemma NotLiveAppended(c: seq<Blk>, d: Blk)
    requires Disjoint(c + [d])
    ensures d !in c
  {
    DisjointConcat(c, [d]);
    CrossNotIn(c, [d]);
    assert [d][0] == d;
  }

  /** free: a live block stops being live, and nothing else does; anything else has no effect. */
  lemma FreeEffect(st: State, ptr: nat)
    requires st.Valid()
    ensures var st' := AfterFree(st, ptr);
      && st'.Valid() && st'.regions == st.regions && st'.Base() == st.Base()
      && (if IsLive(st, ptr)
          then Live(st'.chain) == Live(st.chain) - {st.chain[Find(st.chain, ptr - BLOCK_META_SIZE)]}
          else st' == st)
  {
    hide Inv, Live, Disjoint, CoalesceAt;
    if IsLive(st, ptr) {
      InvDisjoint(st.chain, st.regions);
      var c, k := st.chain, Find(st.chain, ptr - BLOCK_META_SIZE);
      SetUsedInv(c, st.regions, k, false);
      SetUsedLive(c, k, false);
      CoalesceFree(SetUsed(c, k, false), st.regions, k);
      LiveOne(c[k]);
      LiveOne(c[k].(used := false));
    }
  }

  /** Blocks that do not overlap are told apart by their addresses. */
  lemma FindIs(c: seq<Blk>, i: nat)
    requires Disjoint(c) && i < |c|
    ensures Find(c, c[i].addr) == i
  {
    var k := Find(c, c[i].addr);
    assert k == i || (k < i && Apart(c[k], c[i])) || (i < k && Apart(c[i], c[k]));
  }

  /** A live block of the heap stays a block of the heap when malloc adds another. */
  lemma StillThere(st: State, st': State, ptr: nat, b: Blk)
    requires st'.Valid() && IsLive(st, ptr) && Live(st'.chain) == Live(st.chain) + {b}
    ensures IsLive(st', ptr)
    ensures st'.chain[Find(st'.chain, ptr - BLOCK_META_SIZE)] == st.chain[Find(st.chain, ptr - BLOCK_META_SIZE)]
  {
    var l := st.chain[Find(st.chain, ptr - BLOCK_META_SIZE)];
    assert l in Live(st.chain);
    assert l in Live(st'.chain);
    var i :| 0 <= i < |st'.chain| && st'.chain[i] == l;
    FindIs(st'.chain, i);
  }

  /** What realloc of a live block promises: without a result nothing has changed; with one, exactly
      the old block was replaced by a large enough one among the live blocks. */
  ghost predicate Reallocated(st: State, l: Blk, size: nat, r: Result, b: Blk) {
    && r.state.Valid() && r.state.Base() == st.Base()
    && (r.ptr == 0 ==> r.state == st)
    && (r.ptr != 0 ==>
          && b.addr + BLOCK_META_SIZE == r.ptr && b.used && size <= b.size && b in r.state.chain
          && Live(r.state.chain) == Live(st.chain) - {l} + {b}
          && forall o | o in Live(st.chain) && o != l :: Apart(o, b))
  }

  lemma ReallocEffect(st: State, ptr: nat, size: nat, mmap: Mmap) returns (b: Blk)
    requires st.Valid() && IsLive(st, ptr) && ptr != 0 && !Refused(size) && Honest(st, Align(size), mmap)
    ensures Reallocated(st, st.chain[Find(st.chain, ptr - BLOCK_META_SIZE)], size, AfterRealloc(st, ptr, size, mmap), b)
  {
    hide Inv, Live, Disjoint, Splits, SplitAt, AfterMalloc, MergeAt;
    AlignUp(size);
    var n, c := Align(size), st.chain;
    var k := Find(c, ptr - BLOCK_META_SIZE);
    if c[k].size >= n {
      b := ReallocInPlace(st, k, n);
    } else if CanGrow(c, k, n) {
      b := ReallocGrow(st, k, n);
    } else {
      b := MallocEffect(st, size, mmap);
      var m := AfterMalloc(st, size, mmap);
      if m.ptr != 0 {
        StillThere(st, m.state, ptr, b);
        FreeEffect(m.state, ptr);
        LiveIn(c, c[k]);
        ApartIsDifferent(c[k], b);
        LiveIn(AfterFree(m.state, ptr).chain, b);
      }
    }
  }

  lemma ApartIsDifferent(a: Blk, b: Blk)
    requires Apart(a, b)
    ensures a != b
  {
  }

  lemma ReallocInPlace(st: State, k: nat, n: nat) returns (b: Blk)
    requires st.Valid() && k < |st.chain| && st.chain[k].used && n <= st.chain[k].size && n % ALIGNMENT == 0
    ensures Placed(st.chain[k])
    ensures Reallocated(st, st.chain[k], n, Result(State(SplitAt(st.chain, k, n), st.regions),
                                                  st.chain[k].addr + BLOCK_META_SIZE), b)
  {
    hide Inv, Live, Disjoint, Splits;
    var c := st.chain;
    InvDisjoint(c, st.regions);
    InvPlaced(c, st.regions, k);
    SplitInv(c, st.regions, k, n);
    SplitLive(c, k, n);
    b := SplitAt(c, k, n)[k];
    LiveOne(c[k]);
    LiveOne(b);
    LiveBeside(c, k, c[k].(used := true), b);
  }

  lemma ReallocGrow(st: State, k: nat, n: nat) returns (b: Blk)
    requires st.Valid() && k < |st.chain| && st.chain[k].used && n % ALIGNMENT == 0 && CanGrow(st.chain, k, n)
    ensures Placed(MergeAt(st.chain, k)[k])
    ensures Reallocated(st, st.chain[k], n, Result(State(SplitAt(MergeAt(st.chain, k), k, n), st.regions),
                                                  st.chain[k].addr + BLOCK_META_SIZE), b)
  {
    hide Inv, Live, Disjoint, Splits;
    var c := st.chain;
    InvDisjoint(c, st.regions);
    MergeInv(c, st.regions, k);
    MergeLive(c, k);
    var d := MergeAt(c, k);
    InvDisjoint(d, st.regions);
    InvPlaced(d, st.regions, k);
    SplitInv(d, st.regions, k, n);
    SplitLive(d, k, n);
    b := SplitAt(d, k, n)[k];
    LiveTwo(c[k], c[k + 1]);
    LiveOne(d[k]);
    LiveOne(b);
    LiveGrown(c, k, d[k], b);
  }

  lemma LiveTwo(a: Blk, b: Blk)
    requires a.used && !b.used
    ensures Live([a, b]) == {a}
  {
  }

  /** A block grown into its neighbour overlaps no other live block, and is not yet in the list. */
  lemma LiveGrown(c: seq<Blk>, k: nat, d: Blk, b: Blk)
    requires Disjoint(c) && Mergeable(c, k) && !c[k + 1].used
    requires d == c[k].(size := c[k].size + BLOCK_META_SIZE + c[k + 1].size)
    requires b.addr == d.addr && b.size <= d.size
    ensures forall l | l in Live(c) && l != c[k] :: Apart(l, b)
    ensures d !in Live(c)
  {
    forall l | l in Live(c) && l != c[k] ensures Apart(l, b) && l != d {
      var i :| 0 <= i < |c| && c[i] == l;
      assert Apart(c[i], c[k]) && Apart(c[i], c[k + 1]);
    }
  }

  // ---- whole runs

  datatype Call = CallMalloc(size: nat, mmap: Mmap) | CallFree(ptr: nat) | CallRealloc(ptr: nat, size: nat, mmap: Mmap)

  /** What the caller and the system owe: known pointers, and memory nobody has. */
  ghost predicate Legal(st: State, call: Call) {
    match call
    case CallMalloc(size, mmap) => Honest(st, Align(size), mmap)
    case CallFree(ptr) => Known(st, ptr)
    case CallRealloc(ptr, size, mmap) => Known(st, ptr) && Honest(st, Align(size), mmap)
  }

  /** One call; nothing is said of what a call does that is not legal, so there it does nothing. */
  ghost function Step(st: State, call: Call): State {
    if !st.Valid() || !Legal(st, call) then st else
    match call
    case CallMalloc(size, mmap) => AfterMalloc(st, size, mmap).state
    case CallFree(ptr) => AfterFree(st, ptr)
    case CallRealloc(ptr, size, mmap) => AfterRealloc(st, ptr, size, mmap).state
  }

  /** The state a sequence of calls leads to. */
  ghost function After(st0: State, calls: seq<Call>): State {
    if calls == [] then st0 else Step(After(st0, calls[..|calls| - 1]), calls[|calls| - 1])
  }

  /** Each call is legal when its turn comes. */
  ghost predicate LegalRun(st0: State, calls: seq<Call>) {
    calls == [] || (
      && LegalRun(st0, calls[..|calls| - 1])
      && Legal(After(st0, calls[..|calls| - 1]), calls[|calls| - 1]))
  }

  /** One call keeps the blocks aligned, disjoint and tiling the mapped bytes, and heap_base where it is. */
  lemma StepKeeps(st: State, call: Call)
    requires st.Valid() && Legal(st, call)
    ensures Step(st, call).Valid() && (st.chain != [] ==> Step(st, call).Base() == st.Base())
    ensures st.chain != [] ==> Step(st, call).chain != []
  {
    hide AfterMalloc, Inv, Live;
    match call
    case CallMalloc(size, mmap) =>
      var _ := MallocEffect(st, size, mmap);
      BaseNonEmpty(st, AfterMalloc(st, size, mmap).state);
    case CallFree(ptr) =>
      FreeEffect(st, ptr);
      BaseNonEmpty(st, AfterFree(st, ptr));
    case CallRealloc(ptr, size, mmap) =>
      if ptr == 0 {
        var _ := MallocEffect(st, size, mmap);
      } else if size == 0 {
        FreeEffect(st, ptr);
      } else if !Refused(size) && IsLive(st, ptr) {
        var _ := ReallocEffect(st, ptr, size, mmap);
      }
      BaseNonEmpty(st, AfterRealloc(st, ptr, size, mmap).state);
  }

  // Addresses are never 0, so a base tells whether there are blocks.
  lemma BaseNonEmpty(st: State, st': State)
    requires st.Valid() && (st.chain != [] ==> st'.Base() == st.Base())
    ensures st.chain != [] ==> st'.chain != []
  {
    if st.chain != [] {
      assert Placed(st.chain[0]);
    }
  }

  /** Any sequence of legal calls, from any good state. */
  lemma {:induction false} RunKeeps(st0: State, calls: seq<Call>)
    requires st0.Valid() && LegalRun(st0, calls)
    ensures var st := After(st0, calls);
      st.Valid() && (st0.chain != [] ==> st.chain != [] && st.Base() == st0.Base())
    decreases |calls|
  {
    hide Inv, Step, Legal;
    if calls != [] {
      var front := calls[..|calls| - 1];
      RunKeeps(st0, front);
      StepKeeps(After(st0, front), calls[|calls| - 1]);
    }
  }

  /** From the empty heap: blocks are aligned, disjoint and exactly tile what mmap gave out, so the
      bytes of all headers and payloads add up to the bytes obtained. */
  lemma RunFromEmpty(calls: seq<Call>)
    requires LegalRun(State([], []), calls)
    ensures var st := After(State([], []), calls);
      Disjoint(st.chain) && Tiles(st.chain, st.regions) && Bytes(st.chain) == Lengths(st.regions)
  {
    hide After, LegalRun;
    RunKeeps(State([], []), calls);
  }
}
