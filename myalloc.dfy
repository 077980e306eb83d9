/** The best-fit pool allocator. The pool of `memorySize` bytes is kept as two
    arrays indexed by byte offset, holding the `free` and `size` fields of the
    header stored at that offset; only the headers on the chain mean anything,
    and payload bytes are not represented. Pointers into the pool are byte
    offsets from its start. */
module MyAlloc {
  import opened HeaderChain

  class Allocator {
    /** MEMORY_SIZE. */
    const memorySize: int
    /** `free` field of the header at each offset. */
    const freeAt: array<int>
    /** `size` field of the header at each offset. */
    const sizeAt: array<int>
    /** The headers met walking the chain from offset 0. */
    ghost var chain: seq<Header>

    /** The chain tiles the pool, and the header of each of its blocks is what
        the arrays hold at that block's offset. */
    ghost predicate Valid()
      reads this, freeAt, sizeAt
    {
      freeAt != sizeAt &&
      freeAt.Length == memorySize && sizeAt.Length == memorySize &&
      Tiles(chain, memorySize) && Stored(chain, freeAt[..], sizeAt[..])
    }

    /** init_myalloc: one free block covering the whole pool. Obtaining the
        pool from the host is the allocation of the two arrays. */
    constructor Init(memorySize: int)
      requires memorySize > H
      ensures Valid() && fresh(freeAt) && fresh(sizeAt)
      ensures this.memorySize == memorySize
      ensures chain == [Header(FREE, memorySize - H)] && NoAdjacentFree(chain)
      ensures sizeAt[0] == memorySize - H && freeAt[0] == FREE
    {
      this.memorySize := memorySize;
      freeAt := new int[memorySize];
      sizeAt := new int[memorySize];
      chain := [Header(FREE, memorySize - H)];
      new;
      sizeAt[0] := memorySize - H;
      freeAt[0] := FREE;
      InitTiles(memorySize);
      assert chain[..0] == [];
    }

    /** The scan of myalloc: walks every block and keeps the first one of least
        slack among the candidates, starting from the `memorySize` sentinel. */
    method FindBestFit(size: int) returns (best: int, sizeDifference: int)
      requires Valid() && size >= 0
      ensures sizeDifference == memorySize <==> BestFit(chain, size).None?
      ensures BestFit(chain, size).None? ==> best == 0
      ensures BestFit(chain, size).Some? ==>
        best == Offset(chain, BestFit(chain, size).value) &&
        sizeDifference == Slack(chain[BestFit(chain, size).value], size)
    {
      best, sizeDifference := 0, memorySize;
      var cursor := 0;
      ghost var k := 0;
      assert chain[..0] == [];
      BlockInPool(chain, memorySize, 0);
      while cursor < memorySize
        invariant 0 <= k <= |chain| && cursor == Offset(chain, k)
        invariant k < |chain| <==> cursor < memorySize
        invariant Scanned(chain, size, memorySize, k, best, sizeDifference)
        decreases |chain| - k
      {
        ScanStep(chain, size, memorySize, k, best, sizeDifference);
        if freeAt[cursor] == FREE && sizeAt[cursor] > size + H {
          var diff := sizeAt[cursor] - size;
          if diff < sizeDifference {
            sizeDifference := diff;
            best := cursor;
          }
        }
        OffsetStep(chain, k);
        cursor := cursor + H + sizeAt[cursor];
        k := k + 1;
        if k < |chain| {
          BlockInPool(chain, memorySize, k);
        } else {
          OffsetEnd(chain);
        }
      }
      ScanDone(chain, size, memorySize, best, sizeDifference);
    }

    /** myalloc: on success the best-fit block is split, the request's header
        is marked occupied and the payload offset is returned; on failure no
        header is written. */
    method Alloc(size: int) returns (p: Option<int>)
      requires Valid() && size >= 0
      modifies this, freeAt, sizeAt
      ensures Valid()
      ensures p.None? <==> BestFit(old(chain), size).None?
      ensures p.None? ==> chain == old(chain) && unchanged(freeAt, sizeAt)
      ensures p.Some? ==>
        var i := BestFit(old(chain), size).value;
        p.value == Offset(old(chain), i) + H && chain == Split(old(chain), i, size)
      ensures p.Some? ==>
        forall o :: 0 <= o < memorySize && o != p.value - H && o != p.value + size ==>
          freeAt[o] == old(freeAt[o]) && sizeAt[o] == old(sizeAt[o])
      ensures NoAdjacentFree(old(chain)) ==> NoAdjacentFree(chain)
    {
      var best, sizeDifference := FindBestFit(size);
      if sizeDifference == memorySize {
        return None;
      }
      ghost var c, flags, sizes := chain, freeAt[..], sizeAt[..];
      ghost var i := BestFit(c, size).value;
      StoredSplit(c, flags, sizes, i, size);
      freeAt[best] := USED;
      var next := best + H + size;
      sizeAt[next] := sizeAt[best] - H - size;
      freeAt[next] := FREE;
      sizeAt[best] := size;
      chain := Split(c, i, size);
      SplitPreservesTiling(c, memorySize, i, size);
      if NoAdjacentFree(c) {
        SplitKeepsNoAdjacentFree(c, i, size);
      }
      assert freeAt[..] == flags[best := USED][next := FREE];
      assert sizeAt[..] == sizes[next := c[i].size - H - size][best := size];
      p := Some(best + H);
    }

    /** myfree: marks the block whose payload starts at `oldptr` free, then
        sweeps the chain for neighbouring free blocks. */
    method Free(oldptr: int)
      requires Valid()
      requires exists i :: 0 <= i < |chain| && Offset(chain, i) + H == oldptr && chain[i].free == USED
      modifies this, freeAt, sizeAt
      ensures Valid()
      ensures forall i :: 0 <= i < |old(chain)| && Offset(old(chain), i) + H == oldptr ==>
        chain == Release(old(chain), i)
      ensures NoAdjacentFree(chain)
      ensures forall o :: 0 <= o < memorySize && o != oldptr - H ==> freeAt[o] == old(freeAt[o])
    {
      ghost var i :| 0 <= i < |chain| && Offset(chain, i) + H == oldptr && chain[i].free == USED;
      ghost var c, flags := chain, freeAt[..];
      var header := oldptr - H;
      StoredMarkFree(c, flags, sizeAt[..], i);
      freeAt[header] := FREE;
      chain := MarkFree(c, i);
      MarkFreePreservesTiling(c, memorySize, i);
      assert freeAt[..] == flags[header := FREE];
      Coalesce();
      forall i' | 0 <= i' < |c| && Offset(c, i') + H == oldptr
        ensures i' == i
      {
        OffsetInjective(c, i, i');
      }
    }

    /** The sweep of myfree: from offset 0, a free block followed by a free
        block absorbs it, header included, and is looked at again; otherwise
        the cursor moves to the next block, until the last block is reached. */
    method Coalesce()
      requires Valid()
      modifies this, sizeAt
      ensures Valid()
      ensures chain == Sweep(old(chain), 0)
      ensures NoAdjacentFree(chain)
    {
      ghost var start := chain;
      SweepNoAdjacentFree(start, 0);
      var cursor := 0;
      ghost var k := 0;
      assert chain[..0] == [];
      while cursor < memorySize
        invariant Valid()
        invariant 0 <= k < |chain| && cursor == Offset(chain, k)
        invariant Sweep(chain, k) == Sweep(start, 0)
        decreases |chain| - k
      {
        BlockInPool(chain, memorySize, k);
        OffsetStep(chain, k);
        OffsetEnd(chain);
        if k + 1 < |chain| {
          BlockInPool(chain, memorySize, k + 1);
        }
        if cursor + H + sizeAt[cursor] < memorySize {
          var next := cursor + H + sizeAt[cursor];
          if freeAt[cursor] == FREE && freeAt[next] == FREE {
            ghost var d, sizes := chain, sizeAt[..];
            StoredMerge(d, freeAt[..], sizes, k);
            MergePreservesTiling(d, memorySize, k);
            MergeOffsets(d, k, k);
            sizeAt[cursor] := sizeAt[cursor] + H + sizeAt[next];
            next := cursor;
            chain := Merge(d, k);
            assert sizeAt[..] == sizes[cursor := d[k].size + H + d[k + 1].size];
          } else {
            k := k + 1;
          }
          cursor := next;
        } else {
          break;
        }
      }
    }
  }
}
