/** The region allocator with recycle bins, after region_alloc, region_recycle and region_free_all in
    region-allocator.c.  Memory is a range of addresses; the addresses that the underlying allocator returns are
    parameters. */
module Region {

  const ALIGNMENT := 8

  /** REGION_ALIGN_UP */
  function AlignUp(n: nat): (r: nat)
    ensures n <= r < n + ALIGNMENT && r % ALIGNMENT == 0
  {
    (n + ALIGNMENT - 1) / ALIGNMENT * ALIGNMENT
  }

  /** The size that a request takes up in a chunk. */
  function SizeOf(size: nat): (r: nat)
    ensures r >= ALIGNMENT && r % ALIGNMENT == 0 && r >= size
  {
    AlignUp(if size == 0 then 1 else size)
  }

  /** A part of chunk number `chunk` that was handed out at least once; it is in use, or free in a bin. */
  datatype Block = Block(addr: nat, len: nat, chunk: nat, free: bool)

  datatype Layout = Layout(chunkSize: nat, largeSize: nat, chunks: seq<nat>, used: nat, blocks: seq<Block>)

  /** How much of chunk `k` has been handed out. */
  function Used(l: Layout, k: nat): (n: nat)
  {
    if k == |l.chunks| - 1 then l.used else l.chunkSize
  }

  predicate Apart(a: nat, m: nat, b: nat, n: nat)
  {
    a + m <= b || b + n <= a
  }

  ghost predicate BlockOk(l: Layout, b: Block)
  {
    && b.addr % ALIGNMENT == 0 && b.len % ALIGNMENT == 0 && ALIGNMENT <= b.len < l.largeSize
    && b.chunk < |l.chunks| && l.chunks[b.chunk] <= b.addr && b.addr + b.len <= l.chunks[b.chunk] + Used(l, b.chunk)
  }

  /** Blocks are aligned, small, inside the used part of a chunk, and disjoint. */
  ghost predicate LayoutOk(l: Layout)
  {
    && |l.chunks| > 0 && l.used <= l.chunkSize && l.used % ALIGNMENT == 0 && l.largeSize <= l.chunkSize
    && (forall k :: 0 <= k < |l.chunks| ==> l.chunks[k] % ALIGNMENT == 0)
    && (forall k, m {:trigger Apart(l.chunks[k], l.chunkSize, l.chunks[m], l.chunkSize)} :: 0 <= k < m < |l.chunks| ==>
          Apart(l.chunks[k], l.chunkSize, l.chunks[m], l.chunkSize))
    && (forall i {:trigger BlockOk(l, l.blocks[i])} :: 0 <= i < |l.blocks| ==> BlockOk(l, l.blocks[i]))
    && (forall i, j {:trigger Apart(l.blocks[i].addr, l.blocks[i].len, l.blocks[j].addr, l.blocks[j].len)} ::
        0 <= i < j < |l.blocks| ==> Apart(l.blocks[i].addr, l.blocks[i].len, l.blocks[j].addr, l.blocks[j].len))
  }

  /** A new block at the end of the used part of the last chunk. */
  lemma Carved(l: Layout, l': Layout, len: nat, free: bool)
    requires LayoutOk(l) && len % ALIGNMENT == 0 && ALIGNMENT <= len < l.largeSize && l.used + len <= l.chunkSize
    requires var k := |l.chunks| - 1;
             l' == l.(used := l.used + len, blocks := l.blocks + [Block(l.chunks[k] + l.used, len, k, free)])
    ensures LayoutOk(l')
  {
    var k, n := |l.chunks| - 1, |l.blocks|;
    forall i | 0 <= i < |l'.blocks| ensures BlockOk(l', l'.blocks[i]) {
      if i < n { assert BlockOk(l, l.blocks[i]); }
    }
    forall i, j | 0 <= i < j < |l'.blocks|
      ensures Apart(l'.blocks[i].addr, l'.blocks[i].len, l'.blocks[j].addr, l'.blocks[j].len)
    {
      if j == n { NewBlockApart(l, i, len); }
    }
  }

  lemma NewBlockApart(l: Layout, i: nat, len: nat)
    requires LayoutOk(l) && i < |l.blocks| && l.used + len <= l.chunkSize
    ensures Apart(l.blocks[i].addr, l.blocks[i].len, l.chunks[|l.chunks| - 1] + l.used, len)
  {
    var b, k := l.blocks[i], |l.chunks| - 1;
    assert BlockOk(l, b);
    if b.chunk < k { assert Apart(l.chunks[b.chunk], l.chunkSize, l.chunks[k], l.chunkSize); }
  }

  /** A fresh chunk. */
  lemma NewChunk(l: Layout, l': Layout, base: nat)
    requires LayoutOk(l) && base % ALIGNMENT == 0 && forall k :: 0 <= k < |l.chunks| ==>
                                                       Apart(l.chunks[k], l.chunkSize, base, l.chunkSize)
    requires l' == l.(chunks := l.chunks + [base], used := 0)
    ensures LayoutOk(l')
  {
    forall i | 0 <= i < |l'.blocks| ensures BlockOk(l', l'.blocks[i]) { assert BlockOk(l, l.blocks[i]); }
  }

  /** A block changes between used and free. */
  lemma Toggled(l: Layout, l': Layout, i: nat, free: bool)
    requires LayoutOk(l) && i < |l.blocks| && l' == l.(blocks := l.blocks[i := l.blocks[i].(free := free)])
    ensures LayoutOk(l')
  {
    forall j | 0 <= j < |l'.blocks| ensures BlockOk(l', l'.blocks[j]) { assert BlockOk(l, l.blocks[j]); }
  }

  // -------------------------------------------------------------------- the bins

  /** The lists in the bins hold exactly the free blocks, each once. */
  ghost predicate BinsOk(bins: map<nat, seq<nat>>, blocks: seq<Block>)
  {
    && (forall n, k {:trigger FreeBlock(blocks, bins[n][k], n)} :: n in bins && 0 <= k < |bins[n]| ==>
          FreeBlock(blocks, bins[n][k], n))
    && (forall n, k, m :: n in bins && 0 <= k < m < |bins[n]| ==> bins[n][k] != bins[n][m])
    && (forall i {:trigger Listed(bins, blocks[i])} :: 0 <= i < |blocks| && blocks[i].free ==> Listed(bins, blocks[i]))
  }

  ghost predicate Listed(bins: map<nat, seq<nat>>, b: Block)
  {
    b.len in bins && b.addr in bins[b.len]
  }

  ghost predicate FreeBlock(blocks: seq<Block>, addr: nat, len: nat)
  {
    exists i :: 0 <= i < |blocks| && blocks[i].free && blocks[i].addr == addr && blocks[i].len == len
  }

  function Bin(bins: map<nat, seq<nat>>, n: nat): (s: seq<nat>)
  {
    if n in bins then bins[n] else []
  }

  /** Bytes in free blocks, or in used ones. */
  function Bytes(blocks: seq<Block>, free: bool): (n: nat)
  {
    if blocks == [] then 0
    else Bytes(blocks[..|blocks| - 1], free) + if blocks[|blocks| - 1].free == free then blocks[|blocks| - 1].len else 0
  }

  lemma {:induction false} BytesToggled(blocks: seq<Block>, i: nat, free: bool)
    requires i < |blocks| && blocks[i].free != free
    ensures Bytes(blocks[i := blocks[i].(free := free)], free) == Bytes(blocks, free) + blocks[i].len
    ensures Bytes(blocks[i := blocks[i].(free := free)], !free) == Bytes(blocks, !free) - blocks[i].len
  {
    var n := |blocks| - 1;
    var b' := blocks[i := blocks[i].(free := free)];
    if i < n {
      BytesToggled(blocks[..n], i, free);
      assert b'[..n] == blocks[..n][i := blocks[i].(free := free)];
    } else {
      assert b'[..n] == blocks[..n];
    }
  }

  lemma BytesSnoc(blocks: seq<Block>, b: Block, free: bool)
    ensures Bytes(blocks + [b], free) == Bytes(blocks, free) + if b.free == free then b.len else 0
  {
    assert (blocks + [b])[..|blocks|] == blocks;
  }

  /** Block `i` of `blocks'` is a free block more than in `blocks`. */
  ghost predicate OneMoreFree(blocks: seq<Block>, blocks': seq<Block>, i: nat)
  {
    && i < |blocks'| && blocks'[i].free
    && (|blocks'| == |blocks| || (|blocks'| == |blocks| + 1 && i == |blocks|))
    && (forall j :: 0 <= j < |blocks| && j != i ==> blocks'[j] == blocks[j])
    && (i < |blocks| ==> !blocks[i].free)
    && (forall j :: 0 <= j < |blocks'| && j != i ==> blocks'[j].addr != blocks'[i].addr)
  }

  /** It is pushed on its list. */
  lemma Pushed(bins: map<nat, seq<nat>>, bins': map<nat, seq<nat>>, blocks: seq<Block>, blocks': seq<Block>, i: nat)
    requires BinsOk(bins, blocks) && OneMoreFree(blocks, blocks', i)
    requires bins' == bins[blocks'[i].len := [blocks'[i].addr] + Bin(bins, blocks'[i].len)]
    ensures BinsOk(bins', blocks')
  {
    var a, n := blocks'[i].addr, blocks'[i].len;
    var list, list' := Bin(bins, n), bins'[n];
    assert forall k :: 1 <= k < |list'| ==> list'[k] == list[k - 1];
    forall m, k | m in bins' && 0 <= k < |bins'[m]| ensures FreeBlock(blocks', bins'[m][k], m) {
      if m == n && k == 0 {
        assert blocks'[i].free && blocks'[i].addr == bins'[m][k] && blocks'[i].len == m;
      } else {
        var j := StillFree(bins, blocks, blocks', i, m, if m == n then k - 1 else k);
      }
    }
    forall k | 0 <= k < |list| ensures list[k] != a { var j := StillFree(bins, blocks, blocks', i, n, k); }
    forall j | 0 <= j < |blocks'| && blocks'[j].free ensures Listed(bins', blocks'[j]) {
      PushedHas(bins, bins', blocks, blocks', i, j);
    }
  }

  lemma PushedHas(bins: map<nat, seq<nat>>, bins': map<nat, seq<nat>>, blocks: seq<Block>, blocks': seq<Block>, i: nat,
                  j: nat)
    requires BinsOk(bins, blocks) && OneMoreFree(blocks, blocks', i) && j < |blocks'| && blocks'[j].free
    requires bins' == bins[blocks'[i].len := [blocks'[i].addr] + Bin(bins, blocks'[i].len)]
    ensures Listed(bins', blocks'[j])
  {
    var n := blocks'[i].len;
    if j == i {
      assert bins'[n][0] == blocks'[i].addr;
    } else {
      var m := blocks[j].len;
      assert Listed(bins, blocks[j]);
      var k :| 0 <= k < |bins[m]| && bins[m][k] == blocks[j].addr;
      if m == n { assert bins'[n][k + 1] == blocks[j].addr; }
    }
  }

  lemma StillFree(bins: map<nat, seq<nat>>, blocks: seq<Block>, blocks': seq<Block>, i: nat, m: nat, k: nat)
    returns (j: nat)
    requires BinsOk(bins, blocks) && m in bins && k < |bins[m]| && OneMoreFree(blocks, blocks', i)
    ensures j < |blocks'| && j != i && blocks'[j].free && blocks'[j].addr == bins[m][k] && blocks'[j].len == m
  {
    assert FreeBlock(blocks, bins[m][k], m);
    j :| 0 <= j < |blocks| && blocks[j].free && blocks[j].addr == bins[m][k] && blocks[j].len == m;
  }

  /** The first block of a list is taken. */
  lemma Popped(bins: map<nat, seq<nat>>, bins': map<nat, seq<nat>>, blocks: seq<Block>, i: nat)
    requires BinsOk(bins, blocks) && i < |blocks| && blocks[i].free && blocks[i].len in bins
             && bins[blocks[i].len] != [] && bins[blocks[i].len][0] == blocks[i].addr
    requires forall j :: 0 <= j < |blocks| && j != i ==> blocks[j].addr != blocks[i].addr
    requires bins' == bins[blocks[i].len := bins[blocks[i].len][1..]]
    ensures BinsOk(bins', blocks[i := blocks[i].(free := false)])
  {
    var a, n := blocks[i].addr, blocks[i].len;
    var blocks' := blocks[i := blocks[i].(free := false)];
    forall m, k | m in bins' && 0 <= k < |bins'[m]| ensures FreeBlock(blocks', bins'[m][k], m) {
      var k' := if m == n then k + 1 else k;
      assert bins'[m][k] == bins[m][k'];
      assert FreeBlock(blocks, bins[m][k'], m);
      var j :| 0 <= j < |blocks| && blocks[j].free && blocks[j].addr == bins[m][k'] && blocks[j].len == m;
      assert j != i;
      assert blocks'[j] == blocks[j];
    }
    forall j | 0 <= j < |blocks'| && blocks'[j].free ensures Listed(bins', blocks'[j]) {
      assert Listed(bins, blocks[j]);
      var k :| 0 <= k < |bins[blocks[j].len]| && bins[blocks[j].len][k] == blocks[j].addr;
      if blocks[j].len == n { assert k > 0 && bins'[n][k - 1] == blocks[j].addr; }
    }
  }

  // -------------------------------------------------------------------- the class

  /** A large object: its address and the size that was asked for. */
  datatype Large = Large(addr: nat, size: nat)

  function LargeBytes(large: seq<Large>): (n: nat)
  {
    if large == [] then 0 else LargeBytes(large[..|large| - 1]) + large[|large| - 1].size
  }

  lemma {:induction false} LargeWithout(large: seq<Large>, i: nat)
    requires i < |large|
    ensures LargeBytes(large) == LargeBytes(large[..i] + large[i + 1..]) + large[i].size
    decreases |large|
  {
    var n := |large| - 1;
    var r := large[..i] + large[i + 1..];
    if i < n {
      LargeWithout(large[..n], i);
      assert r[..n - 1] == large[..n][..i] + large[..n][i + 1..] && r[n - 1] == large[n];
    } else {
      assert r == large[..n];
    }
  }

  lemma DifferentAddresses(l: Layout, i: nat, j: nat)
    requires LayoutOk(l) && i < |l.blocks| && j < |l.blocks| && i != j
    ensures l.blocks[i].addr != l.blocks[j].addr
  {
    assert BlockOk(l, l.blocks[i]) && BlockOk(l, l.blocks[j]);
    if i < j { assert Apart(l.blocks[i].addr, l.blocks[i].len, l.blocks[j].addr, l.blocks[j].len); }
    else { assert Apart(l.blocks[j].addr, l.blocks[j].len, l.blocks[i].addr, l.blocks[i].len); }
  }

  /** The block at the head of a list, and the bins without it. */
  lemma FirstOf(l: Layout, bins: map<nat, seq<nat>>, len: nat) returns (i: nat)
    requires LayoutOk(l) && BinsOk(bins, l.blocks) && len in bins && bins[len] != []
    ensures i < |l.blocks| && l.blocks[i].free && l.blocks[i].addr == bins[len][0] && l.blocks[i].len == len
    ensures BinsOk(bins[len := bins[len][1..]], l.blocks[i := l.blocks[i].(free := false)])
  {
    assert FreeBlock(l.blocks, bins[len][0], len);
    i :| 0 <= i < |l.blocks| && l.blocks[i].free && l.blocks[i].addr == bins[len][0] && l.blocks[i].len == len;
    forall j | 0 <= j < |l.blocks| && j != i
      ensures l.blocks[j].addr != l.blocks[i].addr { DifferentAddresses(l, i, j); }
    Popped(bins, bins[len := bins[len][1..]], l.blocks, i);
  }

  /** Blocks in use stay as they are. */
  ghost predicate Kept(blocks: seq<Block>, blocks': seq<Block>)
  {
    |blocks| <= |blocks'| && forall i :: 0 <= i < |blocks| && !blocks[i].free ==> blocks'[i] == blocks[i]
  }

  lemma KeptSame(blocks: seq<Block>)
    ensures Kept(blocks, blocks)
  {
  }

  lemma KeptMore(a: seq<Block>, b: seq<Block>, c: seq<Block>)
    requires Kept(a, b) && b <= c
    ensures Kept(a, c)
  {
  }

  /** A used block more does not concern the bins. */
  lemma BinsSnoc(bins: map<nat, seq<nat>>, blocks: seq<Block>, b: Block)
    requires BinsOk(bins, blocks) && !b.free
    ensures BinsOk(bins, blocks + [b])
  {
    var blocks' := blocks + [b];
    forall n, k | n in bins && 0 <= k < |bins[n]| ensures FreeBlock(blocks', bins[n][k], n) {
      assert FreeBlock(blocks, bins[n][k], n);
      var i :| 0 <= i < |blocks| && blocks[i].free && blocks[i].addr == bins[n][k] && blocks[i].len == n;
      assert blocks'[i] == blocks[i];
    }
    forall i | 0 <= i < |blocks'| && blocks'[i].free
      ensures Listed(bins, blocks'[i]) { assert Listed(bins, blocks[i]); }
  }

  class Region {
    const chunkSize: nat
    const largeObjectSize: nat
    var chunks: seq<nat>
    var used: nat
    var bins: map<nat, seq<nat>>
    var recycleSize: nat
    var totalAllocated: nat
    var smallObjects: nat
    /** The list of large objects, newest first in the original; the order does not matter here. */
    var large: seq<Large>
    /** All blocks ever carved out of the chunks. */
    ghost var blocks: seq<Block>

    ghost function View(): Layout
      reads this`chunks, this`used, this`blocks
    {
      Layout(chunkSize, largeObjectSize, chunks, used, blocks)
    }

    ghost predicate Valid()
      reads this
    {
      && LayoutOk(View()) && BinsOk(bins, blocks)
      && recycleSize == Bytes(blocks, true)
      && totalAllocated == Bytes(blocks, false) + recycleSize + LargeBytes(large)
      && smallObjects == |blocks|
    }

    /** region_create_custom with recycling; `base` is the address of the first chunk. */
    constructor (chunkSize: nat, largeObjectSize: nat, base: nat)
      requires largeObjectSize <= chunkSize && base % ALIGNMENT == 0
      ensures Valid() && this.chunkSize == chunkSize && this.largeObjectSize == largeObjectSize && blocks == []
              && large == [] && chunks == [base]
    {
      this.chunkSize, this.largeObjectSize := chunkSize, largeObjectSize;
      chunks, used, bins, recycleSize, totalAllocated, smallObjects, large, blocks := [base], 0, map[], 0, 0, 0, [], [];
    }

    /** The part of region_alloc for large objects. */
    method AllocLarge(size: nat, fresh': nat) returns (addr: nat)
      requires Valid()
      modifies this`large, this`totalAllocated
      ensures Valid() && addr == fresh' && large == old(large) + [Large(addr, size)]
              && totalAllocated == old(totalAllocated) + size
    {
      addr := fresh';
      large := large + [Large(addr, size)];
      assert large[..|large| - 1] == old(large);
      totalAllocated := totalAllocated + size;
    }

    /** region_recycle for a small block that is handed back with the size it was asked for. */
    method RecycleSmall(addr: nat, size: nat, ghost i: nat)
      requires Valid() && i < |blocks| && !blocks[i].free && blocks[i].addr == addr && blocks[i].len == SizeOf(size)
      modifies this`bins, this`recycleSize, this`blocks
      ensures Valid() && blocks == old(blocks)[i := old(blocks)[i].(free := true)]
      ensures bins == old(bins)[SizeOf(size) := [addr] + Bin(old(bins), SizeOf(size))]
      ensures recycleSize == old(recycleSize) + SizeOf(size)
    {
      ghost var l := View();
      assert BlockOk(l, blocks[i]);
      var len := SizeOf(size);
      ghost var blocks' := blocks[i := blocks[i].(free := true)];
      forall j | 0 <= j < |blocks'| && j != i
        ensures blocks'[j].addr != blocks'[i].addr { DifferentAddresses(l, i, j); }
      ghost var bins' := bins[len := [addr] + Bin(bins, len)];
      Pushed(bins, bins', blocks, blocks', i);
      BytesToggled(blocks, i, true);
      bins := bins[len := [addr] + Bin(bins, len)];
      recycleSize := recycleSize + len;
      blocks := blocks';
      Toggled(l, View(), i, true);
    }

    /** The end of region_alloc: a block at the end of the used part of the chunk. */
    method Carve(len: nat) returns (addr: nat)
      requires Valid() && len % ALIGNMENT == 0 && ALIGNMENT <= len < largeObjectSize && used + len <= chunkSize
      modifies this`used, this`totalAllocated, this`smallObjects, this`blocks
      ensures Valid() && blocks == old(blocks) + [Block(addr, len, |chunks| - 1, false)] && used == old(used) + len
      ensures addr == chunks[|chunks| - 1] + old(used)
    {
      ghost var l := View();
      addr := chunks[|chunks| - 1] + used;
      used := used + len;
      totalAllocated := totalAllocated + len;
      smallObjects := smallObjects + 1;
      ghost var b := Block(addr, len, |chunks| - 1, false);
      BytesSnoc(blocks, b, false);
      BytesSnoc(blocks, b, true);
      BinsSnoc(bins, blocks, b);
      blocks := blocks + [b];
      Carved(l, View(), len, false);
    }

    /** The rest of a chunk that is too small for the request goes into a bin; it is always a small block. */
    method RecycleLeftover(len: nat)
      requires Valid() && used + len > chunkSize && len < largeObjectSize
      modifies this`bins, this`recycleSize, this`blocks, this`used, this`totalAllocated, this`smallObjects
      ensures Valid() && chunkSize - used < ALIGNMENT && Kept(old(blocks), blocks)
              && Bytes(blocks, false) == Bytes(old(blocks), false)
      ensures var wasted := used - old(used);
              if chunkSize - old(used) < ALIGNMENT then wasted == 0 && blocks == old(blocks) && bins == old(bins)
              else var addr := chunks[|chunks| - 1] + old(used);
                   && wasted % ALIGNMENT == 0 && ALIGNMENT <= wasted < largeObjectSize
                   && blocks == old(blocks) + [Block(addr, wasted, |chunks| - 1, true)]
                   && bins == old(bins)[wasted := [addr] + Bin(old(bins), wasted)]
    {
      var wasted := (chunkSize - used) / ALIGNMENT * ALIGNMENT;
      KeptSame(blocks);
      if wasted >= ALIGNMENT {
        var addr := Carve(wasted);
        ghost var n := |blocks| - 1;
        BytesSnoc(old(blocks), blocks[n], false);
        BytesToggled(blocks, n, true);
        RecycleSmall(addr, wasted, n);
      }
    }

    /** region_alloc; `chunk` and `place` are what the underlying allocator would return. */
    method Alloc(size: nat, chunk: nat, place: nat) returns (addr: nat, ghost i: nat)
      requires Valid()
      requires chunk % ALIGNMENT == 0 && forall k :: 0 <= k < |chunks| ==> Apart(chunks[k], chunkSize, chunk, chunkSize)
      modifies this
      ensures Valid() && Kept(old(blocks), blocks)
      ensures SizeOf(size) >= largeObjectSize ==>
                large == old(large) + [Large(addr, if size == 0 then 1 else size)] && blocks == old(blocks)
      ensures SizeOf(size) < largeObjectSize ==>
                large == old(large) && i < |blocks| && !blocks[i].free && blocks[i].addr == addr
                && blocks[i].len == SizeOf(size)
      ensures SizeOf(size) < largeObjectSize ==>
                (i < |old(blocks)| ==> old(blocks)[i].free)
                && Bytes(blocks, false) == Bytes(old(blocks), false) + SizeOf(size)
    {
      KeptSame(blocks);
      i := 0;
      var n := if size == 0 then 1 else size;
      var len := AlignUp(n);
      if len >= largeObjectSize {
        addr := AllocLarge(n, place);
        return;
      }
      if len in bins && bins[len] != [] {
        addr, i := AllocRecycled(len);
        BytesToggled(old(blocks), i, false);
        return;
      }
      addr, i := AllocFresh(len, chunk);
    }

    /** The end of region_alloc: out of the current chunk, or out of a new one. */
    method AllocFresh(len: nat, chunk: nat) returns (addr: nat, ghost i: nat)
      requires Valid() && len % ALIGNMENT == 0 && ALIGNMENT <= len < largeObjectSize
      requires chunk % ALIGNMENT == 0 && forall k :: 0 <= k < |chunks| ==> Apart(chunks[k], chunkSize, chunk, chunkSize)
      modifies this`chunks, this`bins, this`recycleSize, this`blocks, this`used, this`totalAllocated, this`smallObjects
      ensures Valid() && Kept(old(blocks), blocks) && |old(blocks)| <= i < |blocks| && blocks[i].addr == addr
              && blocks[i].len == len && !blocks[i].free
      ensures Bytes(blocks, false) == Bytes(old(blocks), false) + len
    {
      KeptSame(blocks);
      if used + len > chunkSize {
        RecycleLeftover(len);
        StartChunk(chunk);
      }
      ghost var before := blocks;
      addr := Carve(len);
      i := |before|;
      BytesSnoc(before, blocks[i], false);
      KeptMore(old(blocks), before, blocks);
    }

    method StartChunk(chunk: nat)
      requires Valid() && chunk % ALIGNMENT == 0 && forall k :: 0 <= k < |chunks| ==>
                                                      Apart(chunks[k], chunkSize, chunk, chunkSize)
      modifies this`chunks, this`used
      ensures Valid() && used == 0
    {
      ghost var l := View();
      chunks, used := chunks + [chunk], 0;
      NewChunk(l, View(), chunk);
    }

    /** region_recycle for a large object that is handed back with the size it was asked for. */
    method RecycleLarge(addr: nat, size: nat, i: nat)
      requires Valid() && i < |large| && large[i] == Large(addr, if size == 0 then 1 else size)
      modifies this`large, this`totalAllocated
      ensures Valid() && large == old(large)[..i] + old(large)[i + 1..]
    {
      LargeWithout(large, i);
      totalAllocated := totalAllocated - large[i].size;
      large := large[..i] + large[i + 1..];
    }

    /** region_free_all */
    method FreeAll()
      requires Valid()
      modifies this
      ensures Valid() && blocks == [] && large == [] && totalAllocated == 0 && recycleSize == 0
              && chunks == [old(chunks)[0]]
    {
      chunks, used, bins, recycleSize, totalAllocated, smallObjects, large, blocks :=
        [chunks[0]], 0, map[], 0, 0, 0, [], [];
    }

    /** The part of region_alloc that takes a block out of its bin. */
    method AllocRecycled(len: nat) returns (addr: nat, ghost i: nat)
      requires Valid() && len in bins && bins[len] != []
      modifies this`bins, this`recycleSize, this`blocks
      ensures Valid() && i < |old(blocks)| && old(blocks)[i].free && old(blocks)[i].addr == addr
              && old(blocks)[i].len == len
      ensures blocks == old(blocks)[i := old(blocks)[i].(free := false)]
    {
      ghost var l := View();
      addr := bins[len][0];
      i := FirstOf(l, bins, len);
      BytesToggled(blocks, i, false);
      bins := bins[len := bins[len][1..]];
      recycleSize := recycleSize - len;
      blocks := blocks[i := blocks[i].(free := false)];
      Toggled(l, View(), i, false);
    }
  }
}
