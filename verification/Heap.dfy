/** malloc, free and realloc as they run: headers linked through memory, walked and rewritten in
    place. Each is proved to do to the chain what HeapCalls says, and to leave payloads alone. */
module Heap {
  import opened HeapChain
  import opened HeapCalls

  datatype Magic = MAGIC_FREE | MAGIC_USED

  /** struct block_meta; 0 is the null pointer. */
  datatype Meta = Meta(size: nat, next: nat, prev: nat, magic: Magic)

  // ---- a doubly linked list in a map from addresses to headers

  function LinkAt(order: seq<nat>, k: int): nat {
    if 0 <= k < |order| then order[k] else 0
  }

  ghost predicate Distinct(order: seq<nat>) {
    forall j, k {:trigger order[j], order[k]} | 0 <= j < k < |order| :: order[j] != order[k]
  }

  /** Following `next` from the first block visits exactly the blocks of `order`, each once, and
      `prev` leads back. (Memory may hold stale headers besides.) */
  ghost predicate Linked(blocks: map<nat, Meta>, order: seq<nat>) {
    && Distinct(order)
    && (forall k {:trigger order[k]} | 0 <= k < |order| :: order[k] != 0 && order[k] in blocks)
    && (forall k {:trigger Hooked(blocks, order, k)} | 0 <= k < |order| :: Hooked(blocks, order, k))
  }

  predicate Hooked(blocks: map<nat, Meta>, order: seq<nat>, k: nat)
    requires k < |order|
  {
    && order[k] != 0 && order[k] in blocks
    && blocks[order[k]].next == LinkAt(order, k + 1)
    && blocks[order[k]].prev == LinkAt(order, k - 1)
  }

  function BlkAt(blocks: map<nat, Meta>, a: nat): Blk
    requires a in blocks
  {
    Blk(a, blocks[a].size, blocks[a].magic == MAGIC_USED)
  }

  function ChainOf(blocks: map<nat, Meta>, order: seq<nat>): (c: seq<Blk>)
    requires forall k | 0 <= k < |order| :: order[k] in blocks
    ensures |c| == |order| && forall k | 0 <= k < |c| :: c[k] == BlkAt(blocks, order[k])
  {
    if order == [] then [] else ChainOf(blocks, order[..|order| - 1]) + [BlkAt(blocks, order[|order| - 1])]
  }

  lemma ChainIs(blocks: map<nat, Meta>, order: seq<nat>, c: seq<Blk>)
    requires forall k | 0 <= k < |order| :: order[k] in blocks
    requires |c| == |order| && forall k | 0 <= k < |c| :: c[k] == BlkAt(blocks, order[k])
    ensures ChainOf(blocks, order) == c
  {
  }

  // ---- what the pointer surgery of each operation does to the list

  function SplitBlocks(blocks: map<nat, Meta>, a: nat, n: nat, added: nat): map<nat, Meta>
    requires a in blocks && n + BLOCK_META_SIZE <= blocks[a].size
  {
    var b := blocks[a];
    var m1 := blocks[added := Meta(b.size - n - BLOCK_META_SIZE, b.next, a, MAGIC_FREE)];
    var m2 := m1[a := b.(size := n, next := added)];
    if b.next != 0 && b.next in m2 then m2[b.next := m2[b.next].(prev := added)] else m2
  }

  function InsertAfter(order: seq<nat>, k: nat, a: nat): (o: seq<nat>)
    requires k < |order|
    ensures |o| == |order| + 1
    ensures forall j {:trigger o[j]} | 0 <= j < |o| ::
      o[j] == if j <= k then order[j] else if j == k + 1 then a else order[j - 1]
  {
    order[..k + 1] + [a] + order[k + 1..]
  }

  function RemoveAfter(order: seq<nat>, k: nat): (o: seq<nat>)
    requires k + 1 < |order|
    ensures |o| == |order| - 1
    ensures forall j {:trigger o[j]} | 0 <= j < |o| :: o[j] == if j <= k then order[j] else order[j + 1]
  {
    order[..k + 1] + order[k + 2..]
  }

  lemma DistinctInsert(order: seq<nat>, k: nat, a: nat)
    requires Distinct(order) && k < |order| && forall i | 0 <= i < |order| :: order[i] != a
    ensures Distinct(InsertAfter(order, k, a))
  {
  }

  lemma DistinctRemove(order: seq<nat>, k: nat)
    requires Distinct(order) && k + 1 < |order|
    ensures Distinct(RemoveAfter(order, k))
  {
  }

  /** Block `j` after block `k` was split, in terms of the blocks before. */
  function SplitBlk(blocks: map<nat, Meta>, order: seq<nat>, k: nat, n: nat, added: nat, j: nat): Blk
    requires j <= |order| && k < |order| && forall i | 0 <= i < |order| :: order[i] in blocks
    requires n + BLOCK_META_SIZE <= blocks[order[k]].size
  {
    if j < k then BlkAt(blocks, order[j])
    else if j == k then BlkAt(blocks, order[k]).(size := n)
    else if j == k + 1 then Blk(added, blocks[order[k]].size - n - BLOCK_META_SIZE, false)
    else BlkAt(blocks, order[j - 1])
  }

  /** The headers after a split: the block, the added one, and the one behind differ, no other does. */
  lemma SplitMap(blocks: map<nat, Meta>, order: seq<nat>, k: nat, n: nat, added: nat)
    requires Linked(blocks, order) && k < |order| && n + BLOCK_META_SIZE <= blocks[order[k]].size
    requires forall i | 0 <= i < |order| :: order[i] != added
    ensures var a, blocks' := order[k], SplitBlocks(blocks, order[k], n, added);
      && added in blocks'
      && blocks'[added] == Meta(blocks[a].size - n - BLOCK_META_SIZE, LinkAt(order, k + 1), a, MAGIC_FREE)
      && a in blocks' && blocks'[a] == blocks[a].(size := n, next := added)
      && forall i {:trigger order[i]} | 0 <= i < |order| && i != k ::
           && order[i] in blocks'
           && blocks'[order[i]] == if i == k + 1 then blocks[order[i]].(prev := added) else blocks[order[i]]
  {
    assert Hooked(blocks, order, k);
    assert k + 1 < |order| ==> Hooked(blocks, order, k + 1) && order[k + 1] != order[k];
    var blocks' := SplitBlocks(blocks, order[k], n, added);
    forall i | 0 <= i < |order| && i != k
      ensures order[i] in blocks'
      ensures blocks'[order[i]] == if i == k + 1 then blocks[order[i]].(prev := added) else blocks[order[i]]
    {
      assert Hooked(blocks, order, i);
      assert order[i] != order[k];
      assert k + 1 < |order| && i != k + 1 ==> order[i] != order[k + 1];
    }
  }

  lemma SplitHook(blocks: map<nat, Meta>, order: seq<nat>, k: nat, n: nat, added: nat, order': seq<nat>, j: nat)
    requires Linked(blocks, order) && k < |order| && n + BLOCK_META_SIZE <= blocks[order[k]].size && j <= |order|
    requires added != 0 && forall i | 0 <= i < |order| :: order[i] != added
    requires |order'| == |order| + 1 && forall i {:trigger order'[i]} | 0 <= i < |order'| ::
      order'[i] == if i <= k then order[i] else if i == k + 1 then added else order[i - 1]
    ensures var blocks' := SplitBlocks(blocks, order[k], n, added);
      Hooked(blocks', order', j) && BlkAt(blocks', order'[j]) == SplitBlk(blocks, order, k, n, added, j)
  {
    SplitMap(blocks, order, k, n, added);
    hide SplitBlocks, Distinct;
    assert Hooked(blocks, order, k);
    if j < k {
      assert Hooked(blocks, order, j);
    } else if j > k + 1 {
      var i := j - 1;
      assert order'[j] == order[i];
      assert Hooked(blocks, order, i);
      assert order'[j - 1] == if i == k + 1 then added else order[i - 1];
    } else if j == k {
      assert order'[j] == order[k] && order'[j + 1] == added;
      assert j > 0 ==> order'[j - 1] == order[j - 1];
    } else {
      assert order'[j] == added && order'[j - 1] == order[k];
      assert j + 1 < |order'| ==> order'[j + 1] == order[j];
    }
  }

  lemma LinkSplit(blocks: map<nat, Meta>, order: seq<nat>, k: nat, n: nat, added: nat)
    requires Linked(blocks, order) && k < |order| && n + BLOCK_META_SIZE <= blocks[order[k]].size
    requires added != 0 && forall j | 0 <= j < |order| :: order[j] != added
    ensures var order' := InsertAfter(order, k, added);
      var blocks' := SplitBlocks(blocks, order[k], n, added);
      && Linked(blocks', order')
      && forall j {:trigger order'[j]} | 0 <= j < |order'| ::
           BlkAt(blocks', order'[j]) == SplitBlk(blocks, order, k, n, added, j)
  {
    DistinctInsert(order, k, added);
    assert Hooked(blocks, order, k);
    hide InsertAfter, SplitBlocks, SplitBlk, Distinct, BlkAt;
    var order' := InsertAfter(order, k, added);
    forall j | 0 <= j < |order'|
      ensures Hooked(SplitBlocks(blocks, order[k], n, added), order', j)
      ensures order'[j] in SplitBlocks(blocks, order[k], n, added)
      ensures BlkAt(SplitBlocks(blocks, order[k], n, added), order'[j]) == SplitBlk(blocks, order, k, n, added, j)
    {
      SplitHook(blocks, order, k, n, added, order', j);
    }
  }

  function MergeBlocks(blocks: map<nat, Meta>, a: nat): map<nat, Meta>
    requires a in blocks && blocks[a].next in blocks
  {
    var b, c := blocks[a], blocks[blocks[a].next];
    var m1 := blocks[a := b.(size := b.size + BLOCK_META_SIZE + c.size, next := c.next)];
    if c.next != 0 && c.next in m1 then m1[c.next := m1[c.next].(prev := a)] else m1
  }

  function MergeBlk(blocks: map<nat, Meta>, order: seq<nat>, k: nat, j: nat): Blk
    requires j + 1 < |order| && k + 1 < |order| && forall i | 0 <= i < |order| :: order[i] in blocks
  {
    if j < k then BlkAt(blocks, order[j])
    else if j == k then Blk(order[k], blocks[order[k]].size + BLOCK_META_SIZE + blocks[order[k + 1]].size,
                            blocks[order[k]].magic == MAGIC_USED)
    else BlkAt(blocks, order[j + 1])
  }

  lemma MergeMap(blocks: map<nat, Meta>, order: seq<nat>, k: nat)
    requires Linked(blocks, order) && k + 1 < |order|
    ensures order[k] in blocks && blocks[order[k]].next == order[k + 1] && order[k + 1] in blocks
    ensures var a, b, blocks' := blocks[order[k]], blocks[order[k + 1]], MergeBlocks(blocks, order[k]);
      && order[k] in blocks'
      && blocks'[order[k]] == a.(size := a.size + BLOCK_META_SIZE + b.size, next := LinkAt(order, k + 2))
      && forall i {:trigger order[i]} | 0 <= i < |order| && i != k && i != k + 1 ::
           && order[i] in blocks'
           && blocks'[order[i]] == if i == k + 2 then blocks[order[i]].(prev := order[k]) else blocks[order[i]]
  {
    assert Hooked(blocks, order, k) && Hooked(blocks, order, k + 1);
    assert k + 2 < |order| ==> Hooked(blocks, order, k + 2);
    var blocks' := MergeBlocks(blocks, order[k]);
    forall i | 0 <= i < |order| && i != k && i != k + 1
      ensures order[i] in blocks'
      ensures blocks'[order[i]] == if i == k + 2 then blocks[order[i]].(prev := order[k]) else blocks[order[i]]
    {
      assert Hooked(blocks, order, i);
      assert order[i] != order[k];
      assert k + 2 < |order| && i != k + 2 ==> order[i] != order[k + 2];
    }
  }

  lemma MergeHook(blocks: map<nat, Meta>, order: seq<nat>, k: nat, order': seq<nat>, j: nat)
    requires Linked(blocks, order) && k + 1 < |order| && j + 1 < |order|
    requires |order'| == |order| - 1 && forall i {:trigger order'[i]} | 0 <= i < |order'| ::
      order'[i] == if i <= k then order[i] else order[i + 1]
    ensures order[k] in blocks && blocks[order[k]].next == order[k + 1] && order[k + 1] in blocks
    ensures var blocks' := MergeBlocks(blocks, order[k]);
      Hooked(blocks', order', j) && BlkAt(blocks', order'[j]) == MergeBlk(blocks, order, k, j)
  {
    MergeMap(blocks, order, k);
    hide MergeBlocks, Distinct;
    assert Hooked(blocks, order, k);
    if j < k {
      assert Hooked(blocks, order, j);
    } else if j > k {
      var i := j + 1;
      assert order'[j] == order[i];
      assert Hooked(blocks, order, i);
      assert order'[j - 1] == if i == k + 2 then order[k] else order[i - 1];
    }
  }

  lemma LinkMerge(blocks: map<nat, Meta>, order: seq<nat>, k: nat)
    requires Linked(blocks, order) && k + 1 < |order|
    ensures order[k] in blocks && blocks[order[k]].next == order[k + 1] && order[k + 1] in blocks
    ensures var order' := RemoveAfter(order, k);
      var blocks' := MergeBlocks(blocks, order[k]);
      && Linked(blocks', order')
      && forall j {:trigger order'[j]} | 0 <= j < |order'| :: BlkAt(blocks', order'[j]) == MergeBlk(blocks, order, k, j)
  {
    assert Hooked(blocks, order, k) && Hooked(blocks, order, k + 1);
    DistinctRemove(order, k);
    hide RemoveAfter, MergeBlocks, MergeBlk, Distinct, BlkAt;
    var order' := RemoveAfter(order, k);
    forall j | 0 <= j < |order'|
      ensures Hooked(MergeBlocks(blocks, order[k]), order', j)
      ensures BlkAt(MergeBlocks(blocks, order[k]), order'[j]) == MergeBlk(blocks, order, k, j)
    {
      MergeHook(blocks, order, k, order', j);
    }
  }

  lemma LinkMark(blocks: map<nat, Meta>, order: seq<nat>, k: nat, magic: Magic)
    requires Linked(blocks, order) && k < |order|
    ensures order[k] in blocks
    ensures var blocks' := blocks[order[k] := blocks[order[k]].(magic := magic)];
      && Linked(blocks', order)
      && forall j {:trigger order[j]} | 0 <= j < |order| ::
           BlkAt(blocks', order[j]) ==
             if j == k then BlkAt(blocks, order[k]).(used := magic == MAGIC_USED) else BlkAt(blocks, order[j])
  {
    assert Hooked(blocks, order, k);
    var blocks' := blocks[order[k] := blocks[order[k]].(magic := magic)];
    forall j | 0 <= j < |order|
      ensures Hooked(blocks', order, j)
      ensures BlkAt(blocks', order[j]) ==
             if j == k then BlkAt(blocks, order[k]).(used := magic == MAGIC_USED) else BlkAt(blocks, order[j])
    {
      assert Hooked(blocks, order, j);
    }
  }

  function AppendBlocks(blocks: map<nat, Meta>, last: nat, a: nat, size: nat): map<nat, Meta> {
    var m1 := blocks[a := Meta(size, 0, last, MAGIC_USED)];
    if last != 0 && last in m1 then m1[last := m1[last].(next := a)] else m1
  }

  lemma LinkAppend(blocks: map<nat, Meta>, order: seq<nat>, a: nat, size: nat)
    requires Linked(blocks, order) && a != 0 && forall j | 0 <= j < |order| :: order[j] != a
    ensures var order' := order + [a];
      var blocks' := AppendBlocks(blocks, LinkAt(order, |order| - 1), a, size);
      && Linked(blocks', order')
      && forall j {:trigger order'[j]} | 0 <= j < |order'| ::
           BlkAt(blocks', order'[j]) == if j < |order| then BlkAt(blocks, order[j]) else Blk(a, size, true)
  {
    var order' := order + [a];
    var blocks' := AppendBlocks(blocks, LinkAt(order, |order| - 1), a, size);
    assert order != [] ==> Hooked(blocks, order, |order| - 1);
    forall j | 0 <= j < |order'|
      ensures Hooked(blocks', order', j)
      ensures BlkAt(blocks', order'[j]) == if j < |order| then BlkAt(blocks, order[j]) else Blk(a, size, true)
    {
      if j < |order| {
        assert order'[j] == order[j] && Hooked(blocks, order, j);
      }
    }
  }

  // ---- the same, on chains

  lemma ChainSplit(blocks: map<nat, Meta>, order: seq<nat>, k: nat, n: nat)
    requires Linked(blocks, order) && k < |order|
    requires var b := BlkAt(blocks, order[k]); Placed(b) && n <= b.size && Splits(b, n)
    requires n + BLOCK_META_SIZE <= blocks[order[k]].size
    requires var added := order[k] + BLOCK_META_SIZE + n; added != 0 && forall j | 0 <= j < |order| :: order[j] != added
    ensures var added := order[k] + BLOCK_META_SIZE + n;
      var order', blocks' := InsertAfter(order, k, added), SplitBlocks(blocks, order[k], n, added);
      Linked(blocks', order') && ChainOf(blocks', order') == SplitAt(ChainOf(blocks, order), k, n)
  {
    var added := order[k] + BLOCK_META_SIZE + n;
    LinkSplit(blocks, order, k, n, added);
    hide SplitBlocks, Distinct;
    var c := ChainOf(blocks, order);
    var order', blocks' := InsertAfter(order, k, added), SplitBlocks(blocks, order[k], n, added);
    var d := SplitAt(c, k, n);
    assert forall j {:trigger d[j]} | 0 <= j < |d| :: d[j] == SplitBlk(blocks, order, k, n, added, j);
    ChainIs(blocks', order', d);
  }

  lemma ChainMerge(blocks: map<nat, Meta>, order: seq<nat>, k: nat)
    requires Linked(blocks, order) && k + 1 < |order|
    ensures order[k] in blocks && blocks[order[k]].next == order[k + 1] && order[k + 1] in blocks
    ensures var order', blocks' := RemoveAfter(order, k), MergeBlocks(blocks, order[k]);
      Linked(blocks', order') && ChainOf(blocks', order') == MergeAt(ChainOf(blocks, order), k)
  {
    LinkMerge(blocks, order, k);
    hide MergeBlocks, Distinct;
    var d := MergeAt(ChainOf(blocks, order), k);
    assert forall j {:trigger d[j]} | 0 <= j < |d| :: d[j] == MergeBlk(blocks, order, k, j);
    ChainIs(MergeBlocks(blocks, order[k]), RemoveAfter(order, k), d);
  }

  lemma ChainMark(blocks: map<nat, Meta>, order: seq<nat>, k: nat, magic: Magic)
    requires Linked(blocks, order) && k < |order|
    ensures order[k] in blocks
    ensures var blocks' := blocks[order[k] := blocks[order[k]].(magic := magic)];
      Linked(blocks', order) && ChainOf(blocks', order) == SetUsed(ChainOf(blocks, order), k, magic == MAGIC_USED)
  {
    LinkMark(blocks, order, k, magic);
    ChainIs(blocks[order[k] := blocks[order[k]].(magic := magic)], order,
            SetUsed(ChainOf(blocks, order), k, magic == MAGIC_USED));
  }

  lemma ChainAppend(blocks: map<nat, Meta>, order: seq<nat>, a: nat, size: nat)
    requires Linked(blocks, order) && a != 0 && forall j | 0 <= j < |order| :: order[j] != a
    ensures var blocks' := AppendBlocks(blocks, LinkAt(order, |order| - 1), a, size);
      Linked(blocks', order + [a]) && ChainOf(blocks', order + [a]) == ChainOf(blocks, order) + [Blk(a, size, true)]
  {
    LinkAppend(blocks, order, a, size);
    ChainIs(AppendBlocks(blocks, LinkAt(order, |order| - 1), a, size), order + [a],
            ChainOf(blocks, order) + [Blk(a, size, true)]);
  }

  /** No header lies inside another block. */
  lemma HeaderFree(c: seq<Blk>, k: nat, x: nat)
    requires Disjoint(c) && k < |c| && c[k].addr < x < c[k].End()
    ensures forall j | 0 <= j < |c| :: c[j].addr != x
  {
    forall j | 0 <= j < |c| ensures c[j].addr != x {
      if j < k {
        assert Apart(c[j], c[k]);
      } else if k < j {
        assert Apart(c[k], c[j]);
      }
    }
  }

  // ---- memory contents

  ghost predicate InHeader(hs: set<nat>, x: nat) {
    exists a :: a in hs && a <= x < a + BLOCK_META_SIZE
  }

  /** Memory differs at most where the headers of `hs` lie. */
  ghost predicate OnlyHeaders(m0: int -> int, m1: int -> int, hs: set<nat>) {
    forall x: nat :: !InHeader(hs, x) ==> m1(x) == m0(x)
  }

  lemma OnlyHeadersTrans(m0: int -> int, m1: int -> int, m2: int -> int, a: set<nat>, b: set<nat>, hs: set<nat>)
    requires OnlyHeaders(m0, m1, a) && OnlyHeaders(m1, m2, b) && a <= hs && b <= hs
    ensures OnlyHeaders(m0, m2, hs)
  {
    forall x: nat | !InHeader(hs, x) ensures m2(x) == m0(x) {
      assert !InHeader(a, x) && !InHeader(b, x);
    }
  }

  ghost function Addresses(c: seq<Blk>): set<nat> {
    set b | b in c :: b.addr
  }

  /** The payload of a block holds no header. */
  lemma PayloadClear(c: seq<Blk>, l: Blk, x: nat)
    requires Disjoint(c) && l in c && l.Payload(x)
    ensures !InHeader(Addresses(c), x)
  {
    var j :| 0 <= j < |c| && c[j] == l;
    forall a | a in Addresses(c) ensures !(a <= x < a + BLOCK_META_SIZE) {
      var b :| b in c && b.addr == a;
      var i :| 0 <= i < |c| && c[i] == b;
      assert i == j || (i < j && Apart(c[i], c[j])) || (j < i && Apart(c[j], c[i]));
    }
  }

  lemma OnlyHeadersMore(m0: int -> int, m1: int -> int, a: set<nat>, hs: set<nat>)
    requires OnlyHeaders(m0, m1, a) && a <= hs
    ensures OnlyHeaders(m0, m1, hs)
  {
    OnlyHeadersTrans(m0, m1, m1, a, {}, hs);
  }

  lemma OnlyHeadersNone(m: int -> int, hs: set<nat>)
    ensures OnlyHeaders(m, m, hs)
  {
  }

  function NonNull(a: nat): set<nat> {
    if a == 0 then {} else {a}
  }

  lemma NextIs(blocks: map<nat, Meta>, order: seq<nat>, k: nat)
    requires Linked(blocks, order) && k < |order|
    ensures order[k] in blocks && blocks[order[k]].next == LinkAt(order, k + 1)
    ensures blocks[order[k]].prev == LinkAt(order, k - 1)
    ensures LinkAt(order, k + 1) != 0 <==> k + 1 < |order|
    ensures LinkAt(order, k - 1) != 0 <==> k > 0
    ensures LinkAt(order, k + 1) != 0 ==> LinkAt(order, k + 1) in blocks
    ensures LinkAt(order, k - 1) != 0 ==> LinkAt(order, k - 1) in blocks
  {
    assert Hooked(blocks, order, k);
  }

  lemma AddressIn(c: seq<Blk>, k: nat)
    requires k < |c|
    ensures c[k].addr in Addresses(c)
  {
    assert c[k] in c;
  }

  lemma DistinctAt(blocks: map<nat, Meta>, order: seq<nat>, k: nat)
    requires Linked(blocks, order) && k + 1 < |order|
    ensures order[k] != order[k + 1]
  {
  }

  lemma ChainAddr(blocks: map<nat, Meta>, order: seq<nat>, k: nat)
    requires Linked(blocks, order) && k < |order|
    ensures order[k] in blocks && ChainOf(blocks, order)[k] == BlkAt(blocks, order[k])
  {
  }

  lemma SplitAddresses(blocks: map<nat, Meta>, order: seq<nat>, c: seq<Blk>, k: nat, n: nat)
    requires Linked(blocks, order) && k < |order| && c == ChainOf(blocks, order)
    requires Placed(c[k]) && n <= c[k].size && Splits(c[k], n) && n + BLOCK_META_SIZE <= c[k].size
    ensures {order[k] + BLOCK_META_SIZE + n, order[k]} + NonNull(LinkAt(order, k + 1))
            <= Addresses(SplitAt(c, k, n))
  {
    var d := SplitAt(c, k, n);
    AddressIn(d, k);
    AddressIn(d, k + 1);
    if k + 1 < |order| {
      assert d[k + 2] == c[k + 1];
      AddressIn(d, k + 2);
    }
  }

  /** Merging leaves no header where there was none. */
  lemma MergeAddresses(c: seq<Blk>, k: nat)
    requires k + 1 < |c|
    ensures Addresses(MergeAt(c, k)) <= Addresses(c)
    ensures {c[k].addr} <= Addresses(c) && (k + 2 < |c| ==> c[k + 2].addr in Addresses(c))
  {
    var d := MergeAt(c, k);
    forall a | a in Addresses(d) ensures a in Addresses(c) {
      var b :| b in d && b.addr == a;
      var i :| 0 <= i < |d| && d[i] == b;
      AddressIn(c, if i <= k then i else i + 1);
    }
    AddressIn(c, k);
    if k + 2 < |c| {
      AddressIn(c, k + 2);
    }
  }

  lemma CoalesceAddresses(c: seq<Blk>, k: nat)
    requires k < |c|
    ensures Addresses(CoalesceNext(c, k)) <= Addresses(c)
    ensures |CoalesceNext(c, k)| <= |c| && CoalesceNext(c, k)[..k] == c[..k]
  {
    if Mergeable(c, k) {
      MergeAddresses(c, k);
    }
  }

  lemma MarkAddresses(c: seq<Blk>, k: nat, used: bool)
    requires k < |c|
    ensures Addresses(SetUsed(c, k, used)) == Addresses(c)
  {
    var d := SetUsed(c, k, used);
    forall a | a in Addresses(d) ensures a in Addresses(c) {
      var b :| b in d && b.addr == a;
      var i :| 0 <= i < |d| && d[i] == b;
      AddressIn(c, i);
    }
    forall a | a in Addresses(c) ensures a in Addresses(d) {
      var b :| b in c && b.addr == a;
      var i :| 0 <= i < |c| && c[i] == b;
      AddressIn(d, i);
    }
  }

  /** A region nobody has starts at no block. */
  lemma FreshIsNew(blocks: map<nat, Meta>, order: seq<nat>, rs: seq<Region>, r: Region)
    requires Linked(blocks, order) && Inv(ChainOf(blocks, order), rs) && FreshPages(rs, r) && r.len > 0
    ensures r.addr != 0 && forall j | 0 <= j < |order| :: order[j] != r.addr
  {
    var c := ChainOf(blocks, order);
    assert !Mapped(rs, r.addr) && !Covered(c, r.addr);
    forall j | 0 <= j < |order| ensures order[j] != r.addr {
      assert c[j].addr == order[j] && c[j].Holds(c[j].addr);
    }
  }

  lemma LastIs(blocks: map<nat, Meta>, order: seq<nat>)
    requires Linked(blocks, order)
    ensures LinkAt(order, |order| - 1) != 0 <==> order != []
    ensures order != [] ==> LinkAt(order, |order| - 1) in blocks
  {
    if order != [] {
      NextIs(blocks, order, |order| - 1);
    }
  }

  lemma AppendAddresses(blocks: map<nat, Meta>, order: seq<nat>, a: nat)
    requires Linked(blocks, order + [a])
    ensures {a} + NonNull(LinkAt(order, |order| - 1)) <= Addresses(ChainOf(blocks, order + [a]))
  {
    var c := ChainOf(blocks, order + [a]);
    AddressIn(c, |order|);
    if order != [] {
      assert (order + [a])[|order| - 1] == order[|order| - 1];
      AddressIn(c, |order| - 1);
    }
  }

  lemma SplitSuper(c: seq<Blk>, k: nat, n: nat)
    requires k < |c| && Placed(c[k]) && n <= c[k].size
    ensures Addresses(c) <= Addresses(SplitAt(c, k, n))
  {
    var d := SplitAt(c, k, n);
    forall a | a in Addresses(c) ensures a in Addresses(d) {
      var b :| b in c && b.addr == a;
      var i :| 0 <= i < |c| && c[i] == b;
      AddressIn(d, if i <= k || |d| == |c| then i else i + 1);
    }
  }

  /** The payloads of these blocks are what they were. */
  ghost predicate Kept(m0: int -> int, m1: int -> int, ls: set<Blk>) {
    forall l, x: nat {:trigger l.Payload(x), m1(x)} | l in ls && l.Payload(x) :: m1(x) == m0(x)
  }

  /** The `n` bytes at `q` are now what the `n` bytes at `p` were. */
  ghost predicate Copied(m0: int -> int, p: nat, m1: int -> int, q: nat, n: nat) {
    forall x: nat {:trigger m1(x)} | q <= x < q + n :: m1(x) == m0(p + (x - q))
  }

  lemma CopiedTrans(m0: int -> int, p: nat, m1: int -> int, q: nat, m2: int -> int, r: nat, n: nat)
    requires Copied(m0, p, m1, q, n) && Copied(m1, q, m2, r, n)
    ensures Copied(m0, p, m2, r, n)
  {
    forall x: nat | r <= x < r + n ensures m2(x) == m0(p + (x - r)) {
      assert m1(q + (x - r)) == m0(p + (q + (x - r) - q));
    }
  }

  lemma CopiedLess(m0: int -> int, p: nat, m1: int -> int, q: nat, n: nat, k: nat)
    requires Copied(m0, p, m1, q, n) && k <= n
    ensures Copied(m0, p, m1, q, k)
  {
  }

  lemma KeptCopied(m0: int -> int, m1: int -> int, ls: set<Blk>, l: Blk)
    requires Kept(m0, m1, ls) && l in ls
    ensures Copied(m0, l.addr + BLOCK_META_SIZE, m1, l.addr + BLOCK_META_SIZE, l.size)
  {
    var p := l.addr + BLOCK_META_SIZE;
    forall x: nat | p <= x < p + l.size ensures m1(x) == m0(p + (x - p)) {
      assert l.Payload(x);
    }
  }

  lemma KeptLess(m0: int -> int, m1: int -> int, ls: set<Blk>, fewer: set<Blk>)
    requires Kept(m0, m1, ls) && fewer <= ls
    ensures Kept(m0, m1, fewer)
  {
  }

  /** Writing inside one block spares those that do not overlap it. */
  lemma WrittenInside(m0: int -> int, m1: int -> int, b: Blk, ls: set<Blk>)
    requires forall x: nat :: !b.Payload(x) ==> m1(x) == m0(x)
    requires forall l | l in ls :: Apart(l, b)
    ensures Kept(m0, m1, ls)
  {
    forall l, x: nat | l in ls && l.Payload(x) ensures m1(x) == m0(x) {
      assert Apart(l, b);
    }
  }

  /** The bytes realloc carries over. */
  function CopySize(l: Blk, size: nat): nat {
    if l.size < size then l.size else size
  }

  /** The live blocks a realloc must leave alone. */
  ghost function Others(st: State, ptr: nat): set<Blk> {
    if IsLive(st, ptr) then Live(st.chain) - {st.chain[Find(st.chain, ptr - BLOCK_META_SIZE)]} else Live(st.chain)
  }

  /** Header writes spare the payload of every block that is in the chain before and after. */
  lemma HeadersSparePayloads(m0: int -> int, m1: int -> int, c: seq<Blk>, ls: set<Blk>)
    requires OnlyHeaders(m0, m1, Addresses(c)) && Disjoint(c) && forall l | l in ls :: l in c
    ensures Kept(m0, m1, ls)
  {
    forall l, x: nat | l in ls && l.Payload(x) ensures m1(x) == m0(x) {
      PayloadClear(c, l, x);
    }
  }

  lemma KeptTrans(m0: int -> int, m1: int -> int, m2: int -> int, ls: set<Blk>)
    requires Kept(m0, m1, ls) && Kept(m1, m2, ls)
    ensures Kept(m0, m2, ls)
  {
    forall l, x: nat | l in ls && l.Payload(x) ensures m2(x) == m0(x) {
      assert m1(x) == m0(x);
    }
  }

  lemma EndIs(blocks: map<nat, Meta>, order: seq<nat>, k: nat)
    requires Linked(blocks, order) && k <= |order| && LinkAt(order, k) == 0
    ensures k == |order|
  {
  }

  lemma BaseIs(blocks: map<nat, Meta>, order: seq<nat>)
    requires Linked(blocks, order)
    ensures LinkAt(order, 0) == 0 <==> order == []
  {
    if order != [] {
      NextIs(blocks, order, 0);
    }
  }

  lemma BaseFirst(order: seq<nat>)
    ensures order != [] ==> LinkAt(order, 0) == order[0]
  {
  }

  lemma KeptSame(m: int -> int, ls: set<Blk>)
    ensures Kept(m, m, ls)
  {
  }

  /** The blocks other than block `k` are still there after it is split, and so is its front. */
  lemma SplitStays(c: seq<Blk>, k: nat, n: nat)
    requires k < |c| && Placed(c[k]) && n <= c[k].size
    ensures var d := SplitAt(c, k, n);
      && k < |d| && d[k].addr == c[k].addr && n <= d[k].size
      && forall l | l in c && l != c[k] :: l in d
  {
    var d := SplitAt(c, k, n);
    forall l | l in c && l != c[k] ensures l in d {
      var i :| 0 <= i < |c| && c[i] == l;
      assert d[if i < k || |d| == |c| then i else i + 1] == l;
    }
  }

  /** After a split of block `k`, header writes spare the other blocks and the first `n` bytes of block `k`. */
  lemma SplitSpares(m0: int -> int, m1: int -> int, c: seq<Blk>, k: nat, n: nat, ls: set<Blk>)
    requires k < |c| && Placed(c[k]) && n <= c[k].size && Disjoint(SplitAt(c, k, n))
    requires OnlyHeaders(m0, m1, Addresses(SplitAt(c, k, n))) && forall l | l in ls :: l in c && l != c[k]
    ensures Kept(m0, m1, ls)
    ensures Copied(m0, c[k].addr + BLOCK_META_SIZE, m1, c[k].addr + BLOCK_META_SIZE, n)
  {
    var d := SplitAt(c, k, n);
    SplitStays(c, k, n);
    HeadersSparePayloads(m0, m1, d, ls);
    var p := c[k].addr + BLOCK_META_SIZE;
    forall x: nat | p <= x < p + n ensures m1(x) == m0(p + (x - p)) {
      PayloadClear(d, d[k], x);
    }
  }

  /** The blocks other than `k` and its neighbour are still there after those are merged. */
  lemma MergeStays(c: seq<Blk>, k: nat)
    requires k + 1 < |c| && !c[k + 1].used
    ensures forall l | l in Live(c) - {c[k]} :: l in MergeAt(c, k)
  {
    var d := MergeAt(c, k);
    forall l | l in Live(c) - {c[k]} ensures l in d {
      var i :| 0 <= i < |c| && c[i] == l;
      assert d[if i < k then i else i - 1] == l;
    }
  }

  lemma GrowSpares(c: seq<Blk>, rs: seq<Region>, m0: int -> int, m1: int -> int, k: nat)
    requires Inv(c, rs) && k < |c| && c[k].used && OnlyHeaders(m0, m1, Addresses(c))
    ensures Kept(m0, m1, Live(c) - {c[k]})
    ensures Copied(m0, c[k].addr + BLOCK_META_SIZE, m1, c[k].addr + BLOCK_META_SIZE, c[k].size)
  {
    hide Addresses, Disjoint, Kept, Copied, OnlyHeaders;
    InvDisjoint(c, rs);
    HeadersSparePayloads(m0, m1, c, Live(c));
    KeptLess(m0, m1, Live(c), Live(c) - {c[k]});
    KeptCopied(m0, m1, Live(c), c[k]);
  }

  lemma FoundAt(blocks: map<nat, Meta>, order: seq<nat>, a: nat)
    requires Linked(blocks, order) && Find(ChainOf(blocks, order), a) < |order|
    ensures a in blocks && order[Find(ChainOf(blocks, order), a)] == a
    ensures ChainOf(blocks, order)[Find(ChainOf(blocks, order), a)] == BlkAt(blocks, a)
  {
  }

  /** A block too small for the rounded size is too small for the size. */
  lemma RoundsTight(c: seq<Blk>, rs: seq<Region>, k: nat, size: nat)
    requires Inv(c, rs) && k < |c| && !Refused(size)
    ensures c[k].size < Align(size) ==> c[k].size < size
  {
    InvPlaced(c, rs, k);
  }

  /** Copying into the new block and freeing the old one: the contents arrive, the rest is spared. */
  lemma MoveKeeps(st: State, l: Blk, b: Blk, m0: int -> int, m1: int -> int, m2: int -> int, m3: int -> int, copy: nat)
    requires l in Live(st.chain) && copy <= l.size && copy <= b.size
    requires forall o | o in Live(st.chain) :: Apart(o, b)
    requires var p, q := l.addr + BLOCK_META_SIZE, b.addr + BLOCK_META_SIZE;
      forall x {:trigger m2(x)} :: m2(x) == if q <= x < q + copy then m1(p + (x - q)) else m1(x)
    requires Kept(m0, m1, Live(st.chain)) && Kept(m2, m3, Live(st.chain) + {b})
    ensures Kept(m0, m3, Live(st.chain) - {l})
    ensures Copied(m0, l.addr + BLOCK_META_SIZE, m3, b.addr + BLOCK_META_SIZE, copy)
  {
    hide Live, Kept, Apart;
    var p, q := l.addr + BLOCK_META_SIZE, b.addr + BLOCK_META_SIZE;
    var ls := Live(st.chain);
    forall x: nat | !b.Payload(x) ensures m2(x) == m1(x) {
      assert !(q <= x < q + copy);
    }
    WrittenInside(m1, m2, b, ls);
    KeptTrans(m0, m1, m2, ls);
    KeptLess(m2, m3, ls + {b}, ls);
    KeptTrans(m0, m2, m3, ls);
    KeptLess(m0, m3, ls, ls - {l});
    KeptCopied(m0, m1, ls, l);
    CopiedLess(m0, p, m1, p, l.size, copy);
    CopiedTrans(m0, p, m1, p, m2, q, copy);
    KeptCopied(m2, m3, ls + {b}, b);
    CopiedLess(m2, q, m3, q, b.size, copy);
    CopiedTrans(m0, p, m2, q, m3, q, copy);
  }

  lemma LiveInChain(c: seq<Blk>)
    ensures forall l | l in Live(c) :: l in c
  {
  }

  class Allocator {
    var blocks: map<nat, Meta>
    var base: nat
    var mem: int -> int
    ghost var order: seq<nat>
    ghost var regions: seq<Region>

    ghost predicate Good()
      reads this`blocks, this`order, this`regions
    {
      Linked(blocks, order) && Inv(ChainOf(blocks, order), regions)
    }

    ghost predicate Valid()
      reads this`blocks, this`order, this`regions, this`base
    {
      Good() && base == LinkAt(order, 0)
    }

    ghost function Now(): State
      requires Good()
      reads this`blocks, this`order, this`regions
    {
      State(ChainOf(blocks, order), regions)
    }

    constructor ()
      ensures Valid() && Now() == State([], [])
    {
      blocks, base, mem := map[], 0, _ => 0;
      order, regions := [], [];
    }

    /** Writing a header overwrites whatever bytes are there. */
    method Put(a: nat, meta: Meta)
      modifies this`blocks, this`mem
      ensures blocks == old(blocks)[a := meta]
      ensures OnlyHeaders(old(mem), mem, {a})
    {
      blocks := blocks[a := meta];
      var before := mem;
      mem := x => if a <= x < a + BLOCK_META_SIZE then 0 else before(x);
      forall x: nat | !InHeader({a}, x) ensures mem(x) == before(x) {
        assert a in {a};
      }
    }

    /** The stores of split_block. */
    method StoreSplit(block: nat, size: nat, added: nat)
      requires block in blocks && size + BLOCK_META_SIZE <= blocks[block].size && added != block
      requires blocks[block].next != 0 ==> blocks[block].next in blocks
      modifies this`blocks, this`mem
      ensures blocks == SplitBlocks(old(blocks), block, size, added)
      ensures OnlyHeaders(old(mem), mem, {added, block} + NonNull(old(blocks[block].next)))
    {
      var next := blocks[block].next;
      ghost var m0, hs := mem, {added, block} + NonNull(next);
      Put(added, Meta(blocks[block].size - size - BLOCK_META_SIZE, next, block, MAGIC_FREE));
      ghost var m1 := mem;
      Put(block, blocks[block].(size := size, next := added));
      ghost var m2 := mem;
      OnlyHeadersTrans(m0, m1, m2, {added}, {block}, hs);
      if next != 0 {
        Put(next, blocks[next].(prev := added));
        OnlyHeadersTrans(m0, m2, mem, hs, {next}, hs);
      }
    }

    /** split_block on the block at position `k` of the list. */
    method SplitBlock(block: nat, size: nat, ghost k: nat)
      requires Good() && k < |order| && order[k] == block && block in blocks
      requires size <= blocks[block].size && size % ALIGNMENT == 0
      modifies this`blocks, this`mem, this`order
      ensures Good() && Placed(old(Now().chain[k])) && Now().chain == SplitAt(old(Now().chain), k, size)
      ensures k < |order| && order[..k + 1] == old(order[..k + 1])
      ensures OnlyHeaders(old(mem), mem, Addresses(Now().chain))
    {
      hide Inv, SplitBlocks, OnlyHeaders, Addresses, Disjoint, Linked, ChainOf;
      ghost var c := Now().chain;
      InvPlaced(c, regions, k);
      SplitInv(c, regions, k, size);
      OnlyHeadersNone(mem, Addresses(c));
      if blocks[block].size >= (size + BLOCK_META_SIZE + ALIGNMENT) % SPACE {
        var added := block + BLOCK_META_SIZE + size;
        InvDisjoint(c, regions);
        HeaderFree(c, k, added);
        ChainSplit(blocks, order, k, size);
        NextIs(blocks, order, k);
        StoreSplit(block, size, added);
        order := InsertAfter(order, k, added);
        SplitAddresses(old(blocks), old(order), c, k, size);
        OnlyHeadersMore(old(mem), mem, {added, block} + NonNull(LinkAt(old(order), k + 1)),
                        Addresses(Now().chain));
      }
    }

    /** The stores that make a block absorb its successor. */
    method StoreMerge(block: nat)
      requires block in blocks && blocks[block].next in blocks && blocks[block].next != block
      requires blocks[blocks[block].next].next != 0 ==> blocks[blocks[block].next].next in blocks
      modifies this`blocks, this`mem
      ensures blocks == MergeBlocks(old(blocks), block)
      ensures OnlyHeaders(old(mem), mem, {block} + NonNull(old(blocks[blocks[block].next].next)))
    {
      var b, c := blocks[block], blocks[blocks[block].next];
      ghost var m0, hs := mem, {block} + NonNull(c.next);
      Put(block, b.(size := b.size + BLOCK_META_SIZE + c.size, next := c.next));
      OnlyHeadersMore(m0, mem, {block}, hs);
      if blocks[block].next != 0 {
        ghost var m1 := mem;
        Put(blocks[block].next, blocks[blocks[block].next].(prev := block));
        OnlyHeadersTrans(m0, m1, mem, hs, NonNull(c.next), hs);
      }
    }

    /** Block `k` absorbs block `k + 1`. */
    method MergeNext(block: nat, ghost k: nat)
      requires Good() && k + 1 < |order| && order[k] == block && Mergeable(Now().chain, k)
      modifies this`blocks, this`mem, this`order
      ensures Good() && Now().chain == MergeAt(old(Now().chain), k)
      ensures order == RemoveAfter(old(order), k) && order != [] && order[0] == old(order[0])
      ensures OnlyHeaders(old(mem), mem, old(Addresses(Now().chain)))
    {
      hide Inv, MergeBlocks, OnlyHeaders, Addresses, Disjoint, Linked;
      ghost var c := Now().chain;
      MergeInv(c, regions, k);
      ChainMerge(blocks, order, k);
      NextIs(blocks, order, k);
      NextIs(blocks, order, k + 1);
      DistinctAt(blocks, order, k);
      StoreMerge(block);
      MergeAddresses(c, k);
      OnlyHeadersMore(old(mem), mem, {block} + NonNull(LinkAt(order, k + 2)), Addresses(c));
      order := RemoveAfter(order, k);
    }

    /** The first half of coalesce: absorb the successor if it is free and adjacent. */
    method AbsorbNext(block: nat, ghost k: nat)
      requires Good() && k < |order| && order[k] == block
      modifies this`blocks, this`mem, this`order
      ensures Good() && Now().chain == CoalesceNext(old(Now().chain), k)
      ensures k < |order| && order[..k + 1] == old(order[..k + 1])
      ensures OnlyHeaders(old(mem), mem, old(Addresses(Now().chain)))
    {
      hide Inv, OnlyHeaders, Addresses, Disjoint, Linked, MergeAt;
      OnlyHeadersNone(mem, Addresses(Now().chain));
      NextIs(blocks, order, k);
      ChainAddr(blocks, order, k);
      var next := blocks[block].next;
      if next != 0 {
        ChainAddr(blocks, order, k + 1);
        if blocks[next].magic == MAGIC_FREE && block + BLOCK_META_SIZE + blocks[block].size == next {
          MergeNext(block, k);
        }
      }
    }

    /** coalesce, on the block at position `k`. */
    method Coalesce(block: nat, ghost k: nat) returns (merged: nat)
      requires Good() && k < |order| && order[k] == block
      modifies this`blocks, this`mem, this`order
      ensures Good() && Now().chain == CoalesceAt(old(Now().chain), k)
      ensures order != [] && order[0] == old(order[0])
      ensures OnlyHeaders(old(mem), mem, old(Addresses(Now().chain)))
    {
      hide Inv, OnlyHeaders, Addresses, Disjoint, Linked, MergeAt, CoalesceNext, ChainOf, RemoveAfter;
      ghost var c, m0 := Now().chain, mem;
      merged := block;
      AbsorbNext(block, k);
      CoalesceAddresses(c, k);
      ghost var d, m1 := Now().chain, mem;
      NextIs(blocks, order, k);
      ChainAddr(blocks, order, k);
      var prev := blocks[block].prev;
      if prev != 0 {
        ChainAddr(blocks, order, k - 1);
        if blocks[prev].magic == MAGIC_FREE && prev + BLOCK_META_SIZE + blocks[prev].size == block {
          MergeNext(prev, k - 1);
          OnlyHeadersTrans(m0, m1, mem, Addresses(c), Addresses(d), Addresses(c));
          merged := prev;
        }
      }
    }

    /** Sets the magic of the block at position `k`. */
    method Mark(block: nat, magic: Magic, ghost k: nat)
      requires Good() && k < |order| && order[k] == block
      modifies this`blocks, this`mem
      ensures Good() && Now().chain == SetUsed(old(Now().chain), k, magic == MAGIC_USED)
      ensures OnlyHeaders(old(mem), mem, old(Addresses(Now().chain)))
      ensures Addresses(Now().chain) == old(Addresses(Now().chain))
    {
      hide Inv, OnlyHeaders, Disjoint, Linked;
      ghost var c := Now().chain;
      SetUsedInv(c, regions, k, magic == MAGIC_USED);
      ChainMark(blocks, order, k, magic);
      ChainAddr(blocks, order, k);
      Put(block, blocks[block].(magic := magic));
      AddressIn(c, k);
      OnlyHeadersMore(old(mem), mem, {block}, Addresses(c));
      MarkAddresses(c, k, magic == MAGIC_USED);
    }

    /** request_space: a new block at the end of the list, from a fresh region; 0 if there is none. */
    method RequestSpace(last: nat, size: nat, mmap: Mmap) returns (block: nat)
      requires Good() && last == LinkAt(order, |order| - 1) && size <= SIZE_MAX && size % ALIGNMENT == 0
      requires Honest(Now(), size, mmap)
      modifies this`blocks, this`mem, this`order, this`regions
      ensures Good()
      ensures if AllocSize(size) == 0 || mmap.Failed?
              then block == 0 && Now() == old(Now()) && mem == old(mem) && order == old(order)
              else && block == mmap.addr && block != 0 && order == old(order) + [block]
                   && Now() == State(old(Now().chain) + [Blk(block, AllocSize(size) - BLOCK_META_SIZE, true)],
                                     old(regions) + [Region(block, AllocSize(size))])
      ensures OnlyHeaders(old(mem), mem, Addresses(Now().chain))
    {
      hide Inv, OnlyHeaders, Addresses, Disjoint, Linked, FreshPages, ChainOf;
      OnlyHeadersNone(mem, Addresses(Now().chain));
      if size + BLOCK_META_SIZE > SIZE_MAX {
        return 0;
      }
      var total := size + BLOCK_META_SIZE;
      var alloc := PageRound(total);
      if alloc < total || mmap.Failed? {
        return 0;
      }
      block := mmap.addr;
      ghost var c, r := Now().chain, Region(block, alloc);
      AppendInv(c, regions, r, true);
      FreshIsNew(blocks, order, regions, r);
      ChainAppend(blocks, order, block, alloc - BLOCK_META_SIZE);
      LastIs(blocks, order);
      ghost var hs := {block} + NonNull(last);
      Put(block, Meta(alloc - BLOCK_META_SIZE, 0, last, MAGIC_USED));
      OnlyHeadersMore(old(mem), mem, {block}, hs);
      if last != 0 {
        ghost var m1 := mem;
        Put(last, blocks[last].(next := block));
        OnlyHeadersTrans(old(mem), m1, mem, hs, {last}, hs);
      }
      order := order + [block];
      regions := regions + [r];
      AppendAddresses(blocks, old(order), block);
      OnlyHeadersMore(old(mem), mem, hs, Addresses(Now().chain));
    }

    /** malloc's use of a free block: taken, and cut down to size. */
    method TakeBlock(block: nat, size: nat, ghost k: nat)
      requires Good() && k < |order| && order[k] == block && block in blocks
      requires size <= blocks[block].size && size % ALIGNMENT == 0
      modifies this`blocks, this`mem, this`order
      ensures Good() && Placed(old(Now().chain[k]))
      ensures Now().chain == SplitAt(SetUsed(old(Now().chain), k, true), k, size)
      ensures k < |order| && order[..k + 1] == old(order[..k + 1])
      ensures OnlyHeaders(old(mem), mem, Addresses(Now().chain))
    {
      hide Inv, OnlyHeaders, Addresses, Disjoint, SplitAt;
      ghost var c, m0 := Now().chain, mem;
      InvPlaced(c, regions, k);
      NextIs(blocks, order, k);
      Mark(block, MAGIC_USED, k);
      ghost var m1 := mem;
      SetUsedInv(c, regions, k, true);
      SplitSuper(SetUsed(c, k, true), k, size);
      SplitBlock(block, size, k);
      OnlyHeadersTrans(m0, m1, mem, Addresses(c), Addresses(Now().chain), Addresses(Now().chain));
    }

    /** The locked part of malloc: first fit, else fresh memory. */
    method Obtain(aligned: nat, mmap: Mmap) returns (ptr: nat)
      requires Valid() && aligned <= SIZE_MAX && aligned % ALIGNMENT == 0 && Honest(Now(), aligned, mmap)
      modifies this`blocks, this`mem, this`order, this`regions, this`base
      ensures Valid() && Result(Now(), ptr) == Obtained(old(Now()), aligned, mmap)
      ensures OnlyHeaders(old(mem), mem, Addresses(Now().chain))
    {
      hide Inv, OnlyHeaders, Addresses, Disjoint, Linked, SplitAt, FreshPages;
      ghost var c := Now().chain;
      var block, last := base, 0;
      ghost var k := 0;
      while block != 0
        invariant blocks == old(blocks) && order == old(order) && regions == old(regions)
        invariant base == old(base) && mem == old(mem)
        invariant k <= |order| && block == LinkAt(order, k) && last == LinkAt(order, k - 1)
        invariant FirstFit(c, aligned, 0) == FirstFit(c, aligned, k)
        decreases |order| - k
      {
        NextIs(blocks, order, k);
        ChainAddr(blocks, order, k);
        if blocks[block].magic == MAGIC_FREE && blocks[block].size >= aligned {
          TakeBlock(block, aligned, k);
          return block + BLOCK_META_SIZE;
        }
        last := block;
        block := blocks[block].next;
        k := k + 1;
      }
      EndIs(blocks, order, k);
      ptr := Extend(last, aligned, mmap);
    }

    /** malloc's use of a new block: cut down to size, and marked once more. */
    method CutNew(block: nat, size: nat, ghost k: nat)
      requires Good() && k < |order| && order[k] == block && block in blocks && Now().chain[k].used
      requires size <= blocks[block].size && size % ALIGNMENT == 0
      modifies this`blocks, this`mem, this`order
      ensures Good() && Placed(old(Now().chain[k])) && Now().chain == SplitAt(old(Now().chain), k, size)
      ensures k < |order| && order[..k + 1] == old(order[..k + 1])
      ensures OnlyHeaders(old(mem), mem, Addresses(Now().chain))
    {
      hide Inv, OnlyHeaders, Addresses, Disjoint, Linked, Splits;
      ghost var m0 := mem;
      SplitBlock(block, size, k);
      ghost var e, m1 := Now().chain, mem;
      Mark(block, MAGIC_USED, k);
      assert SetUsed(e, k, true) == e;
      OnlyHeadersTrans(m0, m1, mem, Addresses(e), Addresses(e), Addresses(e));
    }

    /** The end of malloc, when no block of the list fits. */
    method Extend(last: nat, aligned: nat, mmap: Mmap) returns (ptr: nat)
      requires Valid() && last == LinkAt(order, |order| - 1) && aligned <= SIZE_MAX && aligned % ALIGNMENT == 0
      requires Honest(Now(), aligned, mmap) && FirstFit(Now().chain, aligned, 0) == |Now().chain|
      modifies this`blocks, this`mem, this`order, this`regions, this`base
      ensures Valid() && Result(Now(), ptr) == Obtained(old(Now()), aligned, mmap)
      ensures OnlyHeaders(old(mem), mem, Addresses(Now().chain))
    {
      hide Inv, OnlyHeaders, Addresses, Disjoint, Linked, FreshPages, SplitAt, AllocSize, Obtained, FirstFit, ChainOf;
      ghost var c, m0 := Now().chain, mem;
      ObtainedAnew(Now(), aligned, mmap);
      BaseIs(blocks, order);
      var block := RequestSpace(last, aligned, mmap);
      if block == 0 {
        return 0;
      }
      if base == 0 {
        base := block;
      }
      ghost var k, d, m1 := |c|, Now().chain, mem;
      ChainAddr(blocks, order, k);
      InvPlaced(d, regions, k);
      SplitSuper(d, k, aligned);
      CutNew(block, aligned, k);
      OnlyHeadersTrans(m0, m1, mem, Addresses(d), Addresses(Now().chain), Addresses(Now().chain));
      ptr := block + BLOCK_META_SIZE;
    }

    /** malloc. */
    method Malloc(size: nat, mmap: Mmap) returns (ptr: nat)
      requires Valid() && size <= SIZE_MAX && Honest(Now(), Align(size), mmap)
      modifies this`blocks, this`mem, this`order, this`regions, this`base
      ensures Valid() && Result(Now(), ptr) == AfterMalloc(old(Now()), size, mmap)
      ensures Kept(old(mem), mem, Live(old(Now().chain)))
    {
      hide Inv, OnlyHeaders, Addresses, Disjoint, Linked, Live, Kept, FreshPages;
      ghost var st, m0 := Now(), mem;
      var b := MallocEffect(st, size, mmap);
      if size == 0 || size > SIZE_MAX - BLOCK_META_SIZE {
        OnlyHeadersNone(mem, Addresses(st.chain));
        ptr := 0;
      } else {
        var aligned := Align(size);
        AlignUp(size);
        ptr := Obtain(aligned, mmap);
      }
      InvDisjoint(Now().chain, regions);
      LiveInChain(Now().chain);
      HeadersSparePayloads(m0, mem, Now().chain, Live(st.chain));
    }

    /** free. */
    method Free(ptr: nat)
      requires Valid() && Known(Now(), ptr)
      modifies this`blocks, this`mem, this`order
      ensures Valid() && Now() == AfterFree(old(Now()), ptr)
      ensures Kept(old(mem), mem, Live(old(Now().chain)))
    {
      hide Inv, OnlyHeaders, Addresses, Disjoint, Linked, Live, Kept, CoalesceAt, ChainOf, LinkAt;
      ghost var c, m0 := Now().chain, mem;
      KeptSame(mem, Live(c));
      if ptr == 0 || ptr % ALIGNMENT != 0 {
        return;
      }
      var block := ptr - BLOCK_META_SIZE;
      ghost var k := Find(c, block);
      ChainAddr(blocks, order, k);
      if blocks[block].magic != MAGIC_USED {
        return;
      }
      BaseFirst(order);
      Mark(block, MAGIC_FREE, k);
      ghost var m1 := mem;
      var _ := Coalesce(block, k);
      BaseFirst(order);
      OnlyHeadersTrans(m0, m1, mem, Addresses(c), Addresses(c), Addresses(c));
      InvDisjoint(c, regions);
      LiveInChain(c);
      HeadersSparePayloads(m0, mem, c, Live(c));
    }

    /** realloc's use of the block itself, when it is large enough. */
    method Shrink(block: nat, aligned: nat, size: nat, ghost k: nat)
      requires Valid() && k < |order| && order[k] == block && block in blocks && blocks[block].magic == MAGIC_USED
      requires aligned <= blocks[block].size && aligned % ALIGNMENT == 0 && size <= aligned
      modifies this`blocks, this`mem, this`order
      ensures Valid() && Placed(old(Now().chain[k])) && Now().chain == SplitAt(old(Now().chain), k, aligned)
      ensures Kept(old(mem), mem, Live(old(Now().chain)) - {old(Now().chain[k])})
      ensures Copied(old(mem), block + BLOCK_META_SIZE, mem, block + BLOCK_META_SIZE, size)
    {
      hide Inv, OnlyHeaders, Addresses, Disjoint, Linked, Live, Kept, SplitAt, ChainOf, LinkAt;
      ghost var c, m0 := Now().chain, mem;
      BaseFirst(order);
      ChainAddr(blocks, order, k);
      SplitBlock(block, aligned, k);
      BaseFirst(order);
      InvDisjoint(Now().chain, regions);
      LiveInChain(c);
      SplitSpares(m0, mem, c, k, aligned, Live(c) - {c[k]});
    }

    /** realloc's use of the free block behind, when both together are large enough. */
    method Grow(block: nat, aligned: nat, ghost k: nat)
      requires Valid() && k + 1 < |order| && order[k] == block && block in blocks && blocks[block].magic == MAGIC_USED
      requires CanGrow(Now().chain, k, aligned) && blocks[block].size <= aligned && aligned % ALIGNMENT == 0
      modifies this`blocks, this`mem, this`order
      ensures Valid() && Placed(MergeAt(old(Now().chain), k)[k])
      ensures Now().chain == SplitAt(MergeAt(old(Now().chain), k), k, aligned)
      ensures Kept(old(mem), mem, Live(old(Now().chain)) - {old(Now().chain[k])})
      ensures Copied(old(mem), block + BLOCK_META_SIZE, mem, block + BLOCK_META_SIZE, old(blocks[block].size))
    {
      hide Inv, OnlyHeaders, Addresses, Disjoint, Linked, Live, Kept, Copied, SplitAt, ChainOf, LinkAt, RemoveAfter;
      ghost var c, m0 := Now().chain, mem;
      ghost var others := Live(c) - {c[k]};
      BaseFirst(order);
      ChainAddr(blocks, order, k);
      MergeNext(block, k);
      ghost var d, m1 := Now().chain, mem;
      ChainAddr(blocks, order, k);
      GrowSpares(c, regions, m0, m1, k);
      SplitBlock(block, aligned, k);
      BaseFirst(order);
      InvDisjoint(Now().chain, regions);
      MergeStays(c, k);
      InvDisjoint(c, regions);
      LiveGrown(c, k, d[k], d[k]);
      SplitSpares(m1, mem, d, k, aligned, others);
      KeptTrans(m0, m1, mem, others);
      CopiedLess(m1, block + BLOCK_META_SIZE, mem, block + BLOCK_META_SIZE, aligned, c[k].size);
      CopiedTrans(m0, block + BLOCK_META_SIZE, m1, block + BLOCK_META_SIZE, mem, block + BLOCK_META_SIZE, c[k].size);
    }

    /** The locked part of realloc: whether the block could be resized where it is. */
    method Resize(block: nat, aligned: nat, size: nat, ghost k: nat) returns (done: bool)
      requires Valid() && k < |order| && order[k] == block && block in blocks && blocks[block].magic == MAGIC_USED
      requires aligned % ALIGNMENT == 0 && size <= aligned
      requires blocks[block].size < aligned ==> blocks[block].size < size
      modifies this`blocks, this`mem, this`order
      ensures Valid() && Placed(old(Now().chain[k]))
      ensures done <==> old(blocks[block].size) >= aligned || CanGrow(old(Now().chain), k, aligned)
      ensures !done ==> Now() == old(Now()) && mem == old(mem) && blocks == old(blocks) && order == old(order)
      ensures done && old(blocks[block].size) >= aligned ==> Now().chain == SplitAt(old(Now().chain), k, aligned)
      ensures done && old(blocks[block].size) < aligned ==>
        Placed(MergeAt(old(Now().chain), k)[k]) && Now().chain == SplitAt(MergeAt(old(Now().chain), k), k, aligned)
      ensures done ==> Kept(old(mem), mem, Live(old(Now().chain)) - {old(Now().chain[k])})
      ensures done ==> Copied(old(mem), block + BLOCK_META_SIZE, mem, block + BLOCK_META_SIZE,
                              CopySize(old(Now().chain[k]), size))
    {
      hide Inv, OnlyHeaders, Addresses, Disjoint, Linked, Live, Kept, Copied, SplitAt, ChainOf, MergeAt;
      ghost var c := Now().chain;
      ChainAddr(blocks, order, k);
      InvPlaced(c, regions, k);
      NextIs(blocks, order, k);
      if blocks[block].size >= aligned {
        Shrink(block, aligned, size, k);
        CopiedLess(old(mem), block + BLOCK_META_SIZE, mem, block + BLOCK_META_SIZE, size, CopySize(c[k], size));
        return true;
      }
      var next := blocks[block].next;
      if next != 0 {
        ChainAddr(blocks, order, k + 1);
        InvPlaced(c, regions, k + 1);
        if blocks[next].magic == MAGIC_FREE && block + BLOCK_META_SIZE + blocks[block].size == next {
          var combined := blocks[block].size + BLOCK_META_SIZE;
          if combined <= SIZE_MAX && combined + blocks[next].size <= SIZE_MAX {
            if combined + blocks[next].size >= aligned {
              Grow(block, aligned, k);
              return true;
            }
          }
        }
      }
      return false;
    }

    /** memcpy. */
    method CopyBytes(dst: nat, src: nat, n: nat)
      modifies this`mem
      ensures forall x {:trigger mem(x)} ::
        mem(x) == if dst <= x < dst + n then old(mem)(src + (x - dst)) else old(mem)(x)
    {
      var before := mem;
      mem := x => if dst <= x < dst + n then before(src + (x - dst)) else before(x);
    }

    /** The end of realloc: a new block, the contents copied, the old block freed. */
    method Move(ptr: nat, size: nat, mmap: Mmap, ghost k: nat) returns (result: nat)
      requires Valid() && 0 < size <= SIZE_MAX && Honest(Now(), Align(size), mmap) && IsLive(Now(), ptr)
      requires k == Find(Now().chain, ptr - BLOCK_META_SIZE)
      modifies this`blocks, this`mem, this`order, this`regions, this`base
      ensures Valid()
      ensures var m := AfterMalloc(old(Now()), size, mmap);
        result == m.ptr && Now() == if m.ptr == 0 then m.state else AfterFree(m.state, ptr)
      ensures Kept(old(mem), mem, Others(old(Now()), ptr))
      ensures result == 0 ==> Kept(old(mem), mem, Live(old(Now().chain)))
      ensures result != 0 ==> Copied(old(mem), ptr, mem, result, CopySize(old(Now().chain[k]), size))
    {
      hide Inv, OnlyHeaders, Addresses, Disjoint, Linked, Live, Kept, Copied, ChainOf, AfterMalloc, AfterFree, Find;
      ghost var st, m0 := Now(), mem;
      ghost var l := st.chain[k];
      var b := MallocEffect(st, size, mmap);
      result := Malloc(size, mmap);
      ghost var st1, m1 := Now(), mem;
      KeptLess(m0, m1, Live(st.chain), Others(st, ptr));
      if result == 0 {
        return;
      }
      StillThere(st, st1, ptr, b);
      FoundAt(blocks, order, ptr - BLOCK_META_SIZE);
      var held := blocks[ptr - BLOCK_META_SIZE].size;
      var copy := if held < size then held else size;
      CopyBytes(result, ptr, copy);
      ghost var m2 := mem;
      Free(ptr);
      LiveIn(st.chain, l);
      MoveKeeps(st, l, b, m0, m1, m2, mem, copy);
    }

    /** realloc. */
    method Realloc(ptr: nat, size: nat, mmap: Mmap) returns (result: nat)
      requires Valid() && Known(Now(), ptr) && size <= SIZE_MAX && Honest(Now(), Align(size), mmap)
      modifies this`blocks, this`mem, this`order, this`regions, this`base
      ensures Valid() && Result(Now(), result) == AfterRealloc(old(Now()), ptr, size, mmap)
      ensures Kept(old(mem), mem, Others(old(Now()), ptr))
      ensures result == 0 ==> Kept(old(mem), mem, Live(old(Now().chain)))
      ensures result != 0 && ptr != 0 ==>
        && IsLive(old(Now()), ptr)
        && Copied(old(mem), ptr, mem, result,
                  CopySize(old(Now().chain[Find(Now().chain, ptr - BLOCK_META_SIZE)]), size))
    {
      hide Inv, OnlyHeaders, Addresses, Disjoint, Linked, Live, Kept, Copied, ChainOf, AfterMalloc, SplitAt, MergeAt;
      ghost var c, m0 := Now().chain, mem;
      KeptSame(mem, Live(c));
      KeptLess(m0, m0, Live(c), Others(Now(), ptr));
      if ptr == 0 {
        result := Malloc(size, mmap);
        return;
      }
      if size == 0 {
        Free(ptr);
        KeptLess(m0, mem, Live(c), Others(old(Now()), ptr));
        return 0;
      }
      if ptr % ALIGNMENT != 0 || size > SIZE_MAX - BLOCK_META_SIZE {
        return 0;
      }
      var aligned := Align(size);
      AlignUp(size);
      var block := ptr - BLOCK_META_SIZE;
      ghost var k := Find(c, block);
      FoundAt(blocks, order, block);
      if blocks[block].magic != MAGIC_USED {
        return 0;
      }
      RoundsTight(c, regions, k, size);
      var done := Resize(block, aligned, size, k);
      if done {
        return ptr;
      }
      result := Move(ptr, size, mmap, k);
    }
  }
}
