/** The heap as a chain of blocks: what malloc, free and realloc do to it, and what every call keeps.

    Addresses and sizes are numbers below 2^32 (size_t is uint32_t on the target); a block is its
    header of 32 bytes followed by its payload. */
module HeapChain {

  const ALIGNMENT: nat := 16
  const BLOCK_META_SIZE: nat := 32
  const PAGE_SIZE: nat := 4096
  const SIZE_MAX: nat := 0xFFFF_FFFF
  const SPACE: nat := 0x1_0000_0000

  datatype Blk = Blk(addr: nat, size: nat, used: bool) {
    function End(): nat {
      addr + BLOCK_META_SIZE + size
    }

    predicate Holds(x: nat) {
      addr <= x < End()
    }

    predicate Payload(x: nat) {
      addr + BLOCK_META_SIZE <= x < End()
    }
  }

  /** A stretch of memory obtained from mmap. */
  datatype Region = Region(addr: nat, len: nat)

  // The rounding macros, in 32-bit arithmetic.
  function Align(size: nat): nat {
    var t := (size + (ALIGNMENT - 1)) % SPACE;
    t - t % ALIGNMENT
  }

  function PageRound(size: nat): nat {
    var t := (size + (PAGE_SIZE - 1)) % SPACE;
    t - t % PAGE_SIZE
  }

  // ---- what holds between calls

  predicate Apart(a: Blk, b: Blk) {
    a.End() <= b.addr || b.End() <= a.addr
  }

  predicate Placed(b: Blk) {
    PAGE_SIZE <= b.addr && b.addr % ALIGNMENT == 0 && b.size % ALIGNMENT == 0 && b.End() <= SPACE
  }

  /** Every block is aligned and inside the address space, and no two overlap. */
  ghost predicate Disjoint(c: seq<Blk>) {
    && (forall i {:trigger c[i]} | 0 <= i < |c| :: Placed(c[i]))
    && (forall i, j {:trigger c[i], c[j]} | 0 <= i < j < |c| :: Apart(c[i], c[j]))
  }

  ghost predicate Covered(c: seq<Blk>, x: nat) {
    exists i :: 0 <= i < |c| && c[i].Holds(x)
  }

  ghost predicate Mapped(rs: seq<Region>, x: nat) {
    exists i :: 0 <= i < |rs| && rs[i].addr <= x < rs[i].addr + rs[i].len
  }

  function Bytes(c: seq<Blk>): nat {
    if c == [] then 0 else Bytes(c[..|c| - 1]) + BLOCK_META_SIZE + c[|c| - 1].size
  }

  function Lengths(rs: seq<Region>): nat {
    if rs == [] then 0 else Lengths(rs[..|rs| - 1]) + rs[|rs| - 1].len
  }

  /** The blocks tile the mapped memory exactly, headers included. */
  ghost predicate Tiles(c: seq<Blk>, rs: seq<Region>) {
    && (forall x: nat :: Covered(c, x) <==> Mapped(rs, x))
    && Bytes(c) == Lengths(rs)
  }

  ghost predicate Inv(c: seq<Blk>, rs: seq<Region>) {
    Disjoint(c) && Tiles(c, rs)
  }

  // ---- the block operations

  // The test of split_block, in 32-bit arithmetic.
  predicate Splits(b: Blk, n: nat) {
    b.size >= (n + BLOCK_META_SIZE + ALIGNMENT) % SPACE
  }

  /** split_block: block `k` is cut down to `n` bytes when the rest can hold a block. */
  function SplitAt(c: seq<Blk>, k: nat, n: nat): seq<Blk>
    requires k < |c| && Placed(c[k]) && n <= c[k].size
  {
    var b := c[k];
    if Splits(b, n)
    then c[..k] + [b.(size := n), Blk(b.addr + BLOCK_META_SIZE + n, b.size - n - BLOCK_META_SIZE, false)] + c[k + 1..]
    else c
  }

  /** Blocks `k` and `k + 1` made one. */
  function MergeAt(c: seq<Blk>, k: nat): seq<Blk>
    requires k + 1 < |c|
  {
    c[..k] + [c[k].(size := c[k].size + BLOCK_META_SIZE + c[k + 1].size)] + c[k + 2..]
  }

  predicate Mergeable(c: seq<Blk>, k: nat) {
    k + 1 < |c| && c[k].End() == c[k + 1].addr
  }

  function CoalesceNext(c: seq<Blk>, k: nat): seq<Blk>
    requires k < |c|
  {
    if Mergeable(c, k) && !c[k + 1].used then MergeAt(c, k) else c
  }

  /** coalesce: block `k` absorbs its free successor, and is absorbed by its free predecessor, where
      they are neighbours in memory too. */
  function CoalesceAt(c: seq<Blk>, k: nat): seq<Blk>
    requires k < |c|
  {
    var d := CoalesceNext(c, k);
    if k > 0 && !d[k - 1].used && Mergeable(d, k - 1) then MergeAt(d, k - 1) else d
  }

  function SetUsed(c: seq<Blk>, k: nat, used: bool): seq<Blk>
    requires k < |c|
  {
    c[k := c[k].(used := used)]
  }

  // ---- what they keep

  lemma {:induction false} BytesConcat(a: seq<Blk>, b: seq<Blk>)
    ensures Bytes(a + b) == Bytes(a) + Bytes(b)
    decreases |b|
  {
    if b == [] {
      assert a + b == a;
    } else {
      assert (a + b)[..|a + b| - 1] == a + b[..|b| - 1];
      BytesConcat(a, b[..|b| - 1]);
    }
  }

  ghost predicate Cross(a: seq<Blk>, b: seq<Blk>) {
    forall i, j {:trigger a[i], b[j]} | 0 <= i < |a| && 0 <= j < |b| :: Apart(a[i], b[j])
  }

  lemma DisjointConcat(a: seq<Blk>, b: seq<Blk>)
    ensures Disjoint(a + b) <==> Disjoint(a) && Disjoint(b) && Cross(a, b)
  {
    var c := a + b;
    if Disjoint(c) {
      assert forall i | 0 <= i < |a| :: a[i] == c[i];
      assert forall j | 0 <= j < |b| :: b[j] == c[|a| + j];
    }
  }

  lemma CoveredConcat(a: seq<Blk>, b: seq<Blk>, x: nat)
    ensures Covered(a + b, x) <==> Covered(a, x) || Covered(b, x)
  {
    var c := a + b;
    if i :| 0 <= i < |a| && a[i].Holds(x) {
      assert c[i].Holds(x);
    }
    if j :| 0 <= j < |b| && b[j].Holds(x) {
      assert c[|a| + j].Holds(x);
    }
  }

  /** Blocks are clear of each other exactly when no byte belongs to both. */
  lemma CrossCovered(a: seq<Blk>, b: seq<Blk>)
    ensures Cross(a, b) <==> forall x: nat :: !(Covered(a, x) && Covered(b, x))
  {
    if Cross(a, b) {
      forall x: nat, i, j | 0 <= i < |a| && 0 <= j < |b| ensures !(a[i].Holds(x) && b[j].Holds(x)) {
        assert Apart(a[i], b[j]);
      }
    }
    if forall x: nat :: !(Covered(a, x) && Covered(b, x)) {
      forall i, j | 0 <= i < |a| && 0 <= j < |b| ensures Apart(a[i], b[j]) {
        var x := if a[i].addr < b[j].addr then b[j].addr else a[i].addr;
        assert a[i].Holds(x) ==> Covered(a, x);
        assert b[j].Holds(x) ==> Covered(b, x);
      }
    }
  }

  /** Blocks that occupy no new bytes stay clear of the blocks their bytes were clear of. */
  lemma CrossReplace(a: seq<Blk>, was: seq<Blk>, now: seq<Blk>)
    requires Cross(a, was) && forall x: nat :: Covered(now, x) ==> Covered(was, x)
    ensures Cross(a, now)
  {
    hide Covered, Cross;
    CrossCovered(a, was);
    CrossCovered(a, now);
  }

  lemma CrossSymmetric(a: seq<Blk>, b: seq<Blk>)
    requires Cross(a, b)
    ensures Cross(b, a)
  {
  }

  /** Replacing a stretch of the chain by one that occupies the same bytes keeps everything. */
  lemma InvReplace(pre: seq<Blk>, was: seq<Blk>, now: seq<Blk>, post: seq<Blk>, rs: seq<Region>)
    requires Inv(pre + was + post, rs)
    requires Disjoint(now) && Bytes(was) == Bytes(now)
    requires forall x: nat :: Covered(was, x) <==> Covered(now, x)
    ensures Inv(pre + now + post, rs)
  {
    hide Cross, Disjoint, Covered, Mapped;
    DisjointConcat(pre + was, post);
    DisjointConcat(pre, was);
    CrossReplace(pre, was, now);
    DisjointConcat(pre, now);
    forall x: nat ensures Covered(pre + now, x) <==> Covered(pre + was, x) {
      CoveredConcat(pre, was, x);
      CoveredConcat(pre, now, x);
    }
    CrossSymmetric(pre + was, post);
    CrossReplace(post, pre + was, pre + now);
    CrossSymmetric(post, pre + now);
    DisjointConcat(pre + now, post);
    forall x: nat ensures Covered(pre + now + post, x) <==> Mapped(rs, x) {
      CoveredConcat(pre + was, post, x);
      CoveredConcat(pre + now, post, x);
    }
    BytesConcat(pre + was, post);
    BytesConcat(pre, was);
    BytesConcat(pre + now, post);
    BytesConcat(pre, now);
  }

  lemma Carve(c: seq<Blk>, k: nat, len: nat)
    requires k + len <= |c|
    ensures c == c[..k] + c[k..k + len] + c[k + len..]
  {
  }

  lemma One(b: Blk)
    ensures Placed(b) ==> Disjoint([b])
    ensures Bytes([b]) == BLOCK_META_SIZE + b.size
    ensures forall x: nat :: Covered([b], x) <==> b.Holds(x)
  {
    forall x: nat ensures Covered([b], x) <==> b.Holds(x) {
      assert [b][0].Holds(x) <==> b.Holds(x);
    }
  }

  lemma Two(a: Blk, b: Blk)
    ensures Placed(a) && Placed(b) && Apart(a, b) <==> Disjoint([a, b])
    ensures Bytes([a, b]) == BLOCK_META_SIZE + a.size + BLOCK_META_SIZE + b.size
    ensures forall x: nat :: Covered([a, b], x) <==> a.Holds(x) || b.Holds(x)
  {
    var c := [a, b];
    assert c[0] == a && c[1] == b;
    assert c[..1] == [a];
    One(a);
    forall x: nat ensures Covered(c, x) <==> a.Holds(x) || b.Holds(x) {
      assert c[0].Holds(x) <==> a.Holds(x);
      assert c[1].Holds(x) <==> b.Holds(x);
    }
  }

  lemma InvPlaced(c: seq<Blk>, rs: seq<Region>, k: nat)
    requires Inv(c, rs) && k < |c|
    ensures Placed(c[k])
  {
  }

  lemma SplitInv(c: seq<Blk>, rs: seq<Region>, k: nat, n: nat)
    requires Inv(c, rs) && k < |c| && n <= c[k].size && n % ALIGNMENT == 0
    ensures Placed(c[k]) && Inv(SplitAt(c, k, n), rs)
  {
    hide Inv, Disjoint, Covered, Bytes;
    InvPlaced(c, rs, k);
    var b := c[k];
    if Splits(b, n) {
      var front, rest := b.(size := n), Blk(b.addr + BLOCK_META_SIZE + n, b.size - n - BLOCK_META_SIZE, false);
      Carve(c, k, 1);
      assert c[k..k + 1] == [b];
      One(b);
      Two(front, rest);
      InvReplace(c[..k], [b], [front, rest], c[k + 1..], rs);
    }
  }

  lemma MergePlaced(a: Blk, b: Blk)
    requires Placed(a) && Placed(b) && a.End() == b.addr
    ensures Placed(a.(size := a.size + BLOCK_META_SIZE + b.size)) && Apart(a, b)
  {
    var i, j := a.size / ALIGNMENT, b.size / ALIGNMENT;
    assert a.size + BLOCK_META_SIZE + b.size == ALIGNMENT * (i + 2 + j);
  }

  lemma PageAligned(x: nat)
    requires x % PAGE_SIZE == 0
    ensures x % ALIGNMENT == 0
  {
    var i := x / PAGE_SIZE;
    assert x == 16 * (256 * i);
  }

  lemma PagePlaced(r: Region, used: bool)
    requires PAGE_SIZE <= r.addr && r.addr % PAGE_SIZE == 0 && r.len % PAGE_SIZE == 0 && r.addr + r.len <= SPACE
    requires r.len >= BLOCK_META_SIZE
    ensures Placed(Blk(r.addr, r.len - BLOCK_META_SIZE, used))
  {
    PageAligned(r.addr);
    PageAligned(r.len);
  }

  lemma MergeInv(c: seq<Blk>, rs: seq<Region>, k: nat)
    requires Inv(c, rs) && Mergeable(c, k)
    ensures Inv(MergeAt(c, k), rs)
  {
    hide Inv, Disjoint, Covered, Bytes;
    InvPlaced(c, rs, k);
    InvPlaced(c, rs, k + 1);
    var a, b := c[k], c[k + 1];
    var whole := a.(size := a.size + BLOCK_META_SIZE + b.size);
    Carve(c, k, 2);
    assert c[k..k + 2] == [a, b];
    MergePlaced(a, b);
    hide Placed, Apart;
    One(whole);
    Two(a, b);
    InvReplace(c[..k], [a, b], [whole], c[k + 2..], rs);
  }

  lemma SetUsedInv(c: seq<Blk>, rs: seq<Region>, k: nat, used: bool)
    requires Inv(c, rs) && k < |c|
    ensures Inv(SetUsed(c, k, used), rs)
  {
    hide Inv, Disjoint, Covered, Bytes;
    InvPlaced(c, rs, k);
    var b, b' := c[k], c[k].(used := used);
    Carve(c, k, 1);
    assert c[k..k + 1] == [b];
    One(b);
    One(b');
    InvReplace(c[..k], [b], [b'], c[k + 1..], rs);
    assert SetUsed(c, k, used) == c[..k] + [b'] + c[k + 1..];
  }

  lemma CoalesceInv(c: seq<Blk>, rs: seq<Region>, k: nat)
    requires Inv(c, rs) && k < |c|
    ensures Inv(CoalesceAt(c, k), rs)
  {
    if Mergeable(c, k) && !c[k + 1].used {
      MergeInv(c, rs, k);
    }
    var d := CoalesceNext(c, k);
    if k > 0 && !d[k - 1].used && Mergeable(d, k - 1) {
      MergeInv(d, rs, k - 1);
    }
  }

  /** What mmap returns: whole pages nobody has, inside the address space. */
  ghost predicate FreshPages(rs: seq<Region>, r: Region) {
    && PAGE_SIZE <= r.addr && r.addr % PAGE_SIZE == 0 && r.len % PAGE_SIZE == 0 && r.addr + r.len <= SPACE
    && forall x: nat | r.addr <= x < r.addr + r.len :: !Mapped(rs, x)
  }

  lemma AppendTiles(c: seq<Blk>, rs: seq<Region>, r: Region, b: Blk)
    requires Tiles(c, rs) && b.addr == r.addr && b.End() == r.addr + r.len
    ensures Tiles(c + [b], rs + [r])
  {
    hide Covered, Mapped, Bytes;
    One(b);
    forall x: nat ensures Covered(c + [b], x) <==> Mapped(rs + [r], x) {
      CoveredConcat(c, [b], x);
      MappedSnoc(rs, r, x);
    }
    BytesConcat(c, [b]);
    assert (rs + [r])[..|rs|] == rs;
  }

  /** A fresh region becomes one block at the end of the chain. */
  lemma AppendInv(c: seq<Blk>, rs: seq<Region>, r: Region, used: bool)
    requires Inv(c, rs) && FreshPages(rs, r) && r.len >= BLOCK_META_SIZE
    ensures Inv(c + [Blk(r.addr, r.len - BLOCK_META_SIZE, used)], rs + [r])
  {
    hide Disjoint, Tiles, Cross, Placed;
    var b := Blk(r.addr, r.len - BLOCK_META_SIZE, used);
    PagePlaced(r, used);
    One(b);
    CrossFresh(c, rs, r, b);
    DisjointConcat(c, [b]);
    AppendTiles(c, rs, r, b);
  }

  lemma CrossFresh(c: seq<Blk>, rs: seq<Region>, r: Region, b: Blk)
    requires Tiles(c, rs) && FreshPages(rs, r) && b.addr == r.addr && b.End() == r.addr + r.len
    ensures Cross(c, [b])
  {
    hide Covered, Mapped, Cross;
    One(b);
    CrossCovered(c, [b]);
  }

  lemma MappedSnoc(rs: seq<Region>, r: Region, x: nat)
    ensures Mapped(rs + [r], x) <==> Mapped(rs, x) || r.addr <= x < r.addr + r.len
  {
    var rs' := rs + [r];
    if i :| 0 <= i < |rs| && rs[i].addr <= x < rs[i].addr + rs[i].len {
      assert rs'[i].addr <= x < rs'[i].addr + rs'[i].len;
    }
    if r.addr <= x < r.addr + r.len {
      assert rs'[|rs|].addr <= x < rs'[|rs|].addr + rs'[|rs|].len;
    }
  }
}
