/** The implicit block chain of the pool, as a value: the headers met when
    walking the pool from offset 0, in address order. A block's offset is not
    stored anywhere; it is the number of bytes (headers included) of the
    blocks before it. */
module HeaderChain {

  /** `sizeof(struct header)`: two 4-byte `int` fields. */
  const H: int := 8
  /** The two values the allocator writes into a header's `free` field. */
  const FREE: int := 1
  const USED: int := -1

  datatype Option<T> = None | Some(value: T)

  /** One `struct header`: the `free` flag and the payload `size`. */
  datatype Header = Header(free: int, size: int)

  /** Bytes covered by a run of blocks, headers included. */
  function Span(c: seq<Header>): int
  {
    if c == [] then 0 else H + c[0].size + Span(c[1..])
  }

  /** Offset of the header of block `i` (or the end of the chain, for `i == |c|`). */
  function Offset(c: seq<Header>, i: nat): int
    requires i <= |c|
  {
    Span(c[..i])
  }

  /** Every header holds a non-negative size and one of the two flag values. */
  predicate WellFormed(c: seq<Header>)
  {
    forall j :: 0 <= j < |c| ==> c[j].size >= 0 && (c[j].free == FREE || c[j].free == USED)
  }

  /** The chain walked from offset 0 lands exactly on the pool end `n`. */
  predicate Tiles(c: seq<Header>, n: int)
  {
    |c| > 0 && WellFormed(c) && Span(c) == n
  }

  /** Blocks `j` and `j + 1` are both marked free. */
  predicate FreePair(c: seq<Header>, j: nat)
    requires j + 1 < |c|
  {
    c[j].free == FREE && c[j + 1].free == FREE
  }

  predicate NoAdjacentFree(c: seq<Header>)
  {
    forall j :: 0 <= j < |c| - 1 ==> !FreePair(c, j)
  }

  /** The occupied blocks of a chain that starts at offset `base`, as
      (header offset, payload size) pairs. */
  function Occupied(c: seq<Header>, base: int): set<(int, int)>
  {
    if c == [] then {}
    else (if c[0].free == FREE then {} else {(base, c[0].size)}) + Occupied(c[1..], base + H + c[0].size)
  }

  function Allocated(c: seq<Header>): set<(int, int)>
  {
    Occupied(c, 0)
  }

  // ---------------------------------------------------------------------------
  // Best fit (myalloc's scan)

  /** A block the scan accepts for a request of `s` bytes: free, and large
      enough for the payload and a header for the remainder. */
  predicate Candidate(b: Header, s: int)
  {
    b.free == FREE && b.size > s + H
  }

  /** The scan's `diff`: what is left of the block after the request. */
  function Slack(b: Header, s: int): int
  {
    b.size - s
  }

  /** Block `b` has the least slack of all candidates, and strictly less than
      every candidate before it. */
  predicate IsBestFit(c: seq<Header>, s: int, b: nat)
  {
    b < |c| && Candidate(c[b], s) &&
    forall j :: 0 <= j < |c| && Candidate(c[j], s) ==>
      Slack(c[b], s) <= Slack(c[j], s) && (j < b ==> Slack(c[b], s) < Slack(c[j], s))
  }

  /** The block myalloc's scan settles on, if any. The last block replaces the
      choice made on the shorter chain only when its slack is strictly smaller. */
  function BestFit(c: seq<Header>, s: int): (r: Option<nat>)
    ensures r.Some? ==> r.value < |c| && Candidate(c[r.value], s)
    decreases |c|
  {
    if c == [] then None
    else
      var last := |c| - 1;
      var r := BestFit(c[..last], s);
      if Candidate(c[last], s) && (r.None? || Slack(c[last], s) < Slack(c[r.value], s)) then Some(last)
      else r
  }

  /** The scan fails exactly when no block is a candidate, and otherwise
      settles on the first candidate of least slack. */
  lemma {:induction false} BestFitChoosesBest(c: seq<Header>, s: int)
    ensures BestFit(c, s).None? <==> forall j :: 0 <= j < |c| ==> !Candidate(c[j], s)
    ensures BestFit(c, s).Some? ==> IsBestFit(c, s, BestFit(c, s).value)
    decreases |c|
  {
    if c != [] {
      var last := |c| - 1;
      BestFitChoosesBest(c[..last], s);
      assert forall j :: 0 <= j < last ==> c[..last][j] == c[j];
    }
  }

  /** One more block of the scan: block `k` is taken over the choice made on
      the blocks before it only when it is a candidate with strictly less slack. */
  lemma BestFitStep(c: seq<Header>, s: int, k: nat)
    requires k < |c|
    ensures var r := BestFit(c[..k], s);
      BestFit(c[..k + 1], s) ==
        if Candidate(c[k], s) && (r.None? || Slack(c[k], s) < Slack(c[r.value], s)) then Some(k) else r
    ensures var r := BestFit(c[..k], s); r.Some? ==> r.value < k && c[..k][r.value] == c[r.value]
  {
    assert c[..k + 1][..k] == c[..k];
  }

  /** What myalloc's scan holds after the first `k` blocks of a pool of `n`
      bytes: offset 0 and the sentinel `n` while no candidate has been seen,
      otherwise the offset and slack of the best fit so far. */
  predicate Scanned(c: seq<Header>, s: int, n: int, k: nat, best: int, diff: int)
    requires k <= |c|
  {
    match BestFit(c[..k], s)
    case None => best == 0 && diff == n
    case Some(b) => b < k && best == Offset(c, b) && diff == Slack(c[b], s)
  }

  /** One iteration of the scan: a candidate whose slack is below the best so
      far (or below the sentinel, if there is none yet) becomes the best. */
  lemma ScanStep(c: seq<Header>, s: int, n: int, k: nat, best: int, diff: int)
    requires Tiles(c, n) && s >= 0 && k < |c| && Scanned(c, s, n, k, best, diff)
    ensures var take := Candidate(c[k], s) && Slack(c[k], s) < diff;
      Scanned(c, s, n, k + 1, if take then Offset(c, k) else best, if take then Slack(c[k], s) else diff)
  {
    BestFitStep(c, s, k);
    if Candidate(c[k], s) {
      SlackBelowSentinel(c, n, s, k);
    }
  }

  /** After the whole chain, the sentinel is left exactly when there is no
      candidate, and otherwise the scan holds the best fit. */
  lemma ScanDone(c: seq<Header>, s: int, n: int, best: int, diff: int)
    requires Tiles(c, n) && s >= 0 && Scanned(c, s, n, |c|, best, diff)
    ensures diff == n <==> BestFit(c, s).None?
    ensures BestFit(c, s).None? ==> best == 0
    ensures BestFit(c, s).Some? ==>
      best == Offset(c, BestFit(c, s).value) && diff == Slack(c[BestFit(c, s).value], s)
  {
    assert c[..|c|] == c;
    if BestFit(c, s).Some? {
      SlackBelowSentinel(c, n, s, BestFit(c, s).value);
    }
  }

  // ---------------------------------------------------------------------------
  // The header rewrites done by myalloc and myfree

  /** myalloc's split of block `i`: an occupied block of `s` bytes followed by
      a new free header for the rest. */
  function Split(c: seq<Header>, i: nat, s: int): (r: seq<Header>)
    requires i < |c|
    ensures |r| == |c| + 1 && Span(r) == Span(c)
  {
    var mid := [Header(USED, s), Header(FREE, c[i].size - H - s)];
    Span2(mid);
    Span1(c[i..i + 1]);
    SpanSplice(c, i, i + 1, mid);
    c[..i] + mid + c[i + 1..]
  }

  /** myfree's coalescing step: block `i` absorbs block `i + 1`, header included. */
  function Merge(c: seq<Header>, i: nat): (r: seq<Header>)
    requires i + 1 < |c|
    ensures |r| == |c| - 1 && Span(r) == Span(c)
  {
    var mid := [Header(c[i].free, c[i].size + H + c[i + 1].size)];
    Span1(mid);
    Span2(c[i..i + 2]);
    SpanSplice(c, i, i + 2, mid);
    c[..i] + mid + c[i + 2..]
  }

  /** myfree's first step: the header of block `i` is marked free. */
  function MarkFree(c: seq<Header>, i: nat): (r: seq<Header>)
    requires i < |c|
    ensures |r| == |c| && Span(r) == Span(c)
  {
    var mid := [Header(FREE, c[i].size)];
    Span1(mid);
    Span1(c[i..i + 1]);
    SpanSplice(c, i, i + 1, mid);
    c[..i] + mid + c[i + 1..]
  }

  /** myfree's sweep, from block `i` on: a free block followed by a free block
      absorbs it and is looked at again; otherwise the sweep moves on, and it
      stops at the last block. */
  function Sweep(c: seq<Header>, i: nat): (r: seq<Header>)
    requires i < |c|
    ensures 0 < |r| <= |c| && Span(r) == Span(c)
    decreases |c| - i
  {
    if i + 1 < |c| then
      if FreePair(c, i) then Sweep(Merge(c, i), i) else Sweep(c, i + 1)
    else c
  }

  /** The whole of myfree on the block whose header is block `i`. */
  function Release(c: seq<Header>, i: nat): (r: seq<Header>)
    requires i < |c|
    ensures 0 < |r| <= |c| && Span(r) == Span(c)
  {
    Sweep(MarkFree(c, i), 0)
  }

  // ---------------------------------------------------------------------------
  // Arithmetic of spans and offsets

  lemma Span1(c: seq<Header>)
    requires |c| == 1
    ensures Span(c) == H + c[0].size
  {
  }

  lemma Span2(c: seq<Header>)
    requires |c| == 2
    ensures Span(c) == H + c[0].size + H + c[1].size
  {
    Span1(c[1..]);
  }

  lemma {:induction false} SpanAppend(a: seq<Header>, b: seq<Header>)
    ensures Span(a + b) == Span(a) + Span(b)
  {
    if a == [] {
      assert a + b == b;
    } else {
      assert (a + b)[1..] == a[1..] + b;
      SpanAppend(a[1..], b);
    }
  }

  /** Replacing the blocks `i..j` by blocks of the same span keeps the span. */
  lemma SpanSplice(c: seq<Header>, i: nat, j: nat, mid: seq<Header>)
    requires i <= j <= |c| && Span(mid) == Span(c[i..j])
    ensures Span(c[..i] + mid + c[j..]) == Span(c)
  {
    assert c == c[..i] + c[i..j] + c[j..];
    SpanAppend(c[..i] + mid, c[j..]);
    SpanAppend(c[..i], mid);
    SpanAppend(c[..i] + c[i..j], c[j..]);
    SpanAppend(c[..i], c[i..j]);
  }

  lemma {:induction false} SpanNonNegative(c: seq<Header>)
    requires WellFormed(c)
    ensures Span(c) >= 0
  {
    if c != [] {
      SpanNonNegative(c[1..]);
    }
  }

  lemma OffsetStep(c: seq<Header>, i: nat)
    requires i < |c|
    ensures Offset(c, i + 1) == Offset(c, i) + H + c[i].size
  {
    assert c[..i + 1] == c[..i] + [c[i]];
    SpanAppend(c[..i], [c[i]]);
    Span1([c[i]]);
  }

  lemma OffsetEnd(c: seq<Header>)
    ensures Offset(c, |c|) == Span(c)
  {
    assert c[..|c|] == c;
  }

  /** Headers lie in increasing order, each block ending at or before the next header. */
  lemma OffsetOrder(c: seq<Header>, i: nat, j: nat)
    requires WellFormed(c) && i < j <= |c|
    ensures Offset(c, i) + H + c[i].size <= Offset(c, j)
  {
    OffsetStep(c, i);
    assert c[..j] == c[..i + 1] + c[i + 1..j];
    SpanAppend(c[..i + 1], c[i + 1..j]);
    SpanNonNegative(c[i + 1..j]);
  }

  /** Every block of a tiling chain lies inside the pool. */
  lemma BlockInPool(c: seq<Header>, n: int, j: nat)
    requires Tiles(c, n) && j < |c|
    ensures 0 <= Offset(c, j) && Offset(c, j) + H + c[j].size <= n
  {
    OffsetOrder(c, j, |c|);
    OffsetEnd(c);
    SpanNonNegative(c[..j]);
  }

  /** The scan's `MEMORY_SIZE` sentinel is never the slack of a real candidate. */
  lemma SlackBelowSentinel(c: seq<Header>, n: int, s: int, j: nat)
    requires Tiles(c, n) && s >= 0 && j < |c| && Candidate(c[j], s)
    ensures Slack(c[j], s) <= n - H - s < n
  {
    BlockInPool(c, n, j);
  }

  // ---------------------------------------------------------------------------
  // Offsets after a split, a merge, a mark

  lemma SplitOffsets(c: seq<Header>, i: nat, s: int, j: nat)
    requires i < |c| && j <= |c| + 1
    ensures Offset(Split(c, i, s), j) ==
      if j <= i then Offset(c, j)
      else if j == i + 1 then Offset(c, i) + H + s
      else Offset(c, j - 1)
  {
    var r := Split(c, i, s);
    var mid := [Header(USED, s), Header(FREE, c[i].size - H - s)];
    if j <= i {
      assert r[..j] == c[..j];
    } else if j == i + 1 {
      OffsetStep(r, i);
      assert r[..i] == c[..i];
    } else {
      var d := c[..j - 1];
      assert r[..j] == d[..i] + mid + d[i + 1..];
      Span2(mid);
      Span1(d[i..i + 1]);
      SpanSplice(d, i, i + 1, mid);
    }
  }

  lemma MergeOffsets(c: seq<Header>, i: nat, j: nat)
    requires i + 1 < |c| && j < |c|
    ensures Offset(Merge(c, i), j) == if j <= i then Offset(c, j) else Offset(c, j + 1)
  {
    var r := Merge(c, i);
    var mid := [Header(c[i].free, c[i].size + H + c[i + 1].size)];
    if j <= i {
      assert r[..j] == c[..j];
    } else {
      var d := c[..j + 1];
      assert r[..j] == d[..i] + mid + d[i + 2..];
      Span1(mid);
      Span2(d[i..i + 2]);
      SpanSplice(d, i, i + 2, mid);
    }
  }

  lemma MarkFreeOffsets(c: seq<Header>, i: nat, j: nat)
    requires i < |c| && j <= |c|
    ensures Offset(MarkFree(c, i), j) == Offset(c, j)
  {
    var r := MarkFree(c, i);
    if j <= i {
      assert r[..j] == c[..j];
    } else {
      var d := c[..j];
      var mid := [Header(FREE, c[i].size)];
      assert r[..j] == d[..i] + mid + d[i + 1..];
      Span1(mid);
      Span1(d[i..i + 1]);
      SpanSplice(d, i, i + 1, mid);
    }
  }

  // ---------------------------------------------------------------------------
  // Tiling is preserved

  /** myalloc's split keeps the chain tiling the pool, marks the chosen block
      occupied with exactly the request, and puts a strictly positive free
      remainder right after the request's bytes. */
  lemma SplitPreservesTiling(c: seq<Header>, n: int, i: nat, s: int)
    requires Tiles(c, n) && i < |c| && s >= 0 && Candidate(c[i], s)
    ensures Tiles(Split(c, i, s), n)
    ensures Split(c, i, s)[i] == Header(USED, s)
    ensures Split(c, i, s)[i + 1] == Header(FREE, c[i].size - H - s) && c[i].size - H - s > 0
    ensures Offset(Split(c, i, s), i) == Offset(c, i)
    ensures Offset(Split(c, i, s), i + 1) == Offset(c, i) + H + s
  {
    var r := Split(c, i, s);
    forall j | 0 <= j < |r|
      ensures r[j].size >= 0 && (r[j].free == FREE || r[j].free == USED)
    {
      if j > i + 1 {
        assert r[j] == c[j - 1];
      }
    }
    SplitOffsets(c, i, s, i);
    SplitOffsets(c, i, s, i + 1);
  }

  lemma MergePreservesTiling(c: seq<Header>, n: int, i: nat)
    requires Tiles(c, n) && i + 1 < |c|
    ensures Tiles(Merge(c, i), n)
  {
  }

  lemma MarkFreePreservesTiling(c: seq<Header>, n: int, i: nat)
    requires Tiles(c, n) && i < |c|
    ensures Tiles(MarkFree(c, i), n)
  {
  }

  lemma {:induction false} SweepPreservesTiling(c: seq<Header>, n: int, i: nat)
    requires Tiles(c, n) && i < |c|
    ensures Tiles(Sweep(c, i), n)
    decreases |c| - i
  {
    if i + 1 < |c| {
      if FreePair(c, i) {
        MergePreservesTiling(c, n, i);
        SweepPreservesTiling(Merge(c, i), n, i);
      } else {
        SweepPreservesTiling(c, n, i + 1);
      }
    }
  }

  // ---------------------------------------------------------------------------
  // Coalescing

  /** The sweep leaves no two neighbouring free blocks, provided none are left
      before the block it starts from. */
  lemma {:induction false} SweepNoAdjacentFree(c: seq<Header>, i: nat)
    requires i < |c|
    requires forall j :: 0 <= j < i ==> !FreePair(c, j)
    ensures NoAdjacentFree(Sweep(c, i))
    decreases |c| - i
  {
    if i + 1 < |c| {
      if FreePair(c, i) {
        var m := Merge(c, i);
        forall j | 0 <= j < i
          ensures !FreePair(m, j)
        {
          assert m[j] == c[j];
          assert m[i] == Header(c[i].free, c[i].size + H + c[i + 1].size);
          assert m[j + 1].free == c[j + 1].free;
          assert !FreePair(c, j);
        }
        SweepNoAdjacentFree(m, i);
      } else {
        SweepNoAdjacentFree(c, i + 1);
      }
    }
  }

  /** myalloc never creates neighbouring free blocks: the split puts an
      occupied block where the free candidate was, and its free remainder
      takes over the candidate's neighbour, which was not free. */
  lemma SplitKeepsNoAdjacentFree(c: seq<Header>, i: nat, s: int)
    requires i < |c| && NoAdjacentFree(c) && Candidate(c[i], s)
    ensures NoAdjacentFree(Split(c, i, s))
  {
    var r := Split(c, i, s);
    forall j | 0 <= j < |r| - 1
      ensures !FreePair(r, j)
    {
      if j + 1 < i {
        assert r[j] == c[j] && r[j + 1] == c[j + 1];
        assert !FreePair(c, j);
      } else if j == i + 1 {
        assert r[j + 1] == c[i + 1];
        assert !FreePair(c, i);
      } else if j > i + 1 {
        assert r[j] == c[j - 1] && r[j + 1] == c[j];
        assert !FreePair(c, j - 1);
      }
    }
  }

  // ---------------------------------------------------------------------------
  // Occupied blocks

  lemma {:induction false} OccupiedAppend(a: seq<Header>, b: seq<Header>, base: int)
    ensures Occupied(a + b, base) == Occupied(a, base) + Occupied(b, base + Span(a))
  {
    if a == [] {
      assert a + b == b;
    } else {
      assert (a + b)[1..] == a[1..] + b;
      OccupiedAppend(a[1..], b, base + H + a[0].size);
    }
  }

  /** Every occupied block's header lies inside the run it belongs to. */
  lemma {:induction false} OccupiedBounds(c: seq<Header>, base: int)
    requires WellFormed(c)
    ensures forall p :: p in Occupied(c, base) ==> base <= p.0 < base + Span(c)
  {
    if c != [] {
      OccupiedBounds(c[1..], base + H + c[0].size);
      SpanNonNegative(c[1..]);
    }
  }

  lemma {:induction false} NoneOccupiedAllFree(c: seq<Header>, base: int)
    requires Occupied(c, base) == {}
    ensures forall j :: 0 <= j < |c| ==> c[j].free == FREE
  {
    if c != [] {
      var rest := c[1..];
      assert Occupied(rest, base + H + c[0].size) <= Occupied(c, base);
      NoneOccupiedAllFree(rest, base + H + c[0].size);
      assert forall j :: 1 <= j < |c| ==> c[j] == rest[j - 1];
    }
  }

  /** A split adds exactly the new allocation to the occupied blocks. */
  lemma SplitAllocates(c: seq<Header>, i: nat, s: int)
    requires i < |c| && c[i].free == FREE
    ensures Allocated(Split(c, i, s)) == Allocated(c) + {(Offset(c, i), s)}
  {
    var pre, post := c[..i], c[i + 1..];
    var a, b := Header(USED, s), Header(FREE, c[i].size - H - s);
    var o := Offset(c, i);
    assert Split(c, i, s) == pre + ([a, b] + post);
    assert c == pre + ([c[i]] + post);
    OccupiedAppend(pre, [a, b] + post, 0);
    OccupiedAppend(pre, [c[i]] + post, 0);
    assert ([a, b] + post)[1..] == [b] + post;
    assert ([b] + post)[1..] == post;
    assert ([c[i]] + post)[1..] == post;
    assert o + H + s + H + (c[i].size - H - s) == o + H + c[i].size;
  }

  /** Merging two free blocks leaves the occupied blocks as they were. */
  lemma MergeKeepsOccupied(c: seq<Header>, i: nat, base: int)
    requires i + 1 < |c| && FreePair(c, i)
    ensures Occupied(Merge(c, i), base) == Occupied(c, base)
  {
    var pre, post := c[..i], c[i + 2..];
    var m := Header(c[i].free, c[i].size + H + c[i + 1].size);
    assert Merge(c, i) == pre + ([m] + post);
    assert c == pre + ([c[i], c[i + 1]] + post);
    OccupiedAppend(pre, [m] + post, base);
    OccupiedAppend(pre, [c[i], c[i + 1]] + post, base);
    assert ([m] + post)[1..] == post;
    assert ([c[i], c[i + 1]] + post)[1..] == [c[i + 1]] + post;
    assert ([c[i + 1]] + post)[1..] == post;
  }

  lemma {:induction false} SweepKeepsOccupied(c: seq<Header>, i: nat, base: int)
    requires i < |c|
    ensures Occupied(Sweep(c, i), base) == Occupied(c, base)
    decreases |c| - i
  {
    if i + 1 < |c| {
      if FreePair(c, i) {
        MergeKeepsOccupied(c, i, base);
        SweepKeepsOccupied(Merge(c, i), i, base);
      } else {
        SweepKeepsOccupied(c, i + 1, base);
      }
    }
  }

  /** Marking an occupied block free removes exactly that block from the
      occupied ones. */
  lemma MarkFreeDeallocates(c: seq<Header>, i: nat)
    requires WellFormed(c) && i < |c| && c[i].free != FREE
    ensures (Offset(c, i), c[i].size) in Allocated(c)
    ensures Allocated(MarkFree(c, i)) == Allocated(c) - {(Offset(c, i), c[i].size)}
  {
    var pre, post := c[..i], c[i + 1..];
    var o := Offset(c, i);
    var x := (o, c[i].size);
    var m := Header(FREE, c[i].size);
    var before, after := Occupied(pre, 0), Occupied(post, o + H + c[i].size);
    assert Allocated(c) == before + {x} + after by {
      assert c == pre + ([c[i]] + post);
      OccupiedAppend(pre, [c[i]] + post, 0);
      assert ([c[i]] + post)[1..] == post;
    }
    assert Allocated(MarkFree(c, i)) == before + after by {
      assert MarkFree(c, i) == pre + ([m] + post);
      OccupiedAppend(pre, [m] + post, 0);
      assert ([m] + post)[1..] == post;
    }
    assert x !in before by {
      OccupiedBounds(pre, 0);
    }
    assert x !in after by {
      OccupiedBounds(post, o + H + c[i].size);
    }
  }

  // ---------------------------------------------------------------------------
  // The header store: the `free` and `size` fields at every byte offset

  /** The header of every block of `c` is what the store holds at its offset. */
  predicate Stored(c: seq<Header>, flags: seq<int>, sizes: seq<int>)
  {
    |flags| == |sizes| &&
    forall j {:trigger Offset(c, j)} :: 0 <= j < |c| ==>
      0 <= Offset(c, j) < |flags| && flags[Offset(c, j)] == c[j].free && sizes[Offset(c, j)] == c[j].size
  }

  /** The four header writes of myalloc's split store the split chain: the
      new header lies strictly inside the chosen block. */
  lemma StoredSplit(c: seq<Header>, flags: seq<int>, sizes: seq<int>, i: nat, s: int)
    requires Tiles(c, |flags|) && Stored(c, flags, sizes) && i < |c| && s >= 0 && Candidate(c[i], s)
    ensures var o := Offset(c, i); var q := o + H + s;
      0 <= o < q < |flags| &&
      Stored(Split(c, i, s), flags[o := USED][q := FREE], sizes[q := c[i].size - H - s][o := s])
  {
    var n := |flags|;
    var o := Offset(c, i);
    var q := o + H + s;
    var r := Split(c, i, s);
    BlockInPool(c, n, i);
    var f, z := flags[o := USED][q := FREE], sizes[q := c[i].size - H - s][o := s];
    forall j | 0 <= j < |r|
      ensures 0 <= Offset(r, j) < |f| && f[Offset(r, j)] == r[j].free && z[Offset(r, j)] == r[j].size
    {
      SplitOffsets(c, i, s, j);
      if j < i {
        OffsetOrder(c, j, i);
      } else if j > i + 1 {
        OffsetOrder(c, i, j - 1);
        assert r[j] == c[j - 1];
      }
    }
  }

  /** myfree's coalescing write stores the merged chain. */
  lemma StoredMerge(c: seq<Header>, flags: seq<int>, sizes: seq<int>, k: nat)
    requires Tiles(c, |flags|) && Stored(c, flags, sizes) && k + 1 < |c|
    ensures Stored(Merge(c, k), flags, sizes[Offset(c, k) := c[k].size + H + c[k + 1].size])
  {
    var r := Merge(c, k);
    var o := Offset(c, k);
    var z := sizes[o := c[k].size + H + c[k + 1].size];
    forall j | 0 <= j < |r|
      ensures 0 <= Offset(r, j) < |flags| && flags[Offset(r, j)] == r[j].free && z[Offset(r, j)] == r[j].size
    {
      MergeOffsets(c, k, j);
      if j < k {
        OffsetOrder(c, j, k);
      } else if j > k {
        OffsetOrder(c, k, j + 1);
        assert r[j] == c[j + 1];
      }
    }
  }

  /** myfree's first write stores the chain with block `i` marked free. */
  lemma StoredMarkFree(c: seq<Header>, flags: seq<int>, sizes: seq<int>, i: nat)
    requires Tiles(c, |flags|) && Stored(c, flags, sizes) && i < |c|
    ensures Stored(MarkFree(c, i), flags[Offset(c, i) := FREE], sizes)
  {
    var r := MarkFree(c, i);
    var f := flags[Offset(c, i) := FREE];
    forall j | 0 <= j < |r|
      ensures 0 <= Offset(r, j) < |f| && f[Offset(r, j)] == r[j].free && sizes[Offset(r, j)] == r[j].size
    {
      MarkFreeOffsets(c, i, j);
      if j < i {
        OffsetOrder(c, j, i);
      } else if j > i {
        OffsetOrder(c, i, j);
      }
    }
  }

  /** Distinct blocks have distinct header offsets. */
  lemma OffsetInjective(c: seq<Header>, i: nat, j: nat)
    requires WellFormed(c) && i < |c| && j < |c| && Offset(c, i) == Offset(c, j)
    ensures i == j
  {
    if i < j {
      OffsetOrder(c, i, j);
    } else if j < i {
      OffsetOrder(c, j, i);
    }
  }

  // ---------------------------------------------------------------------------
  // myfree as a whole

  /** myfree keeps the tiling, leaves no two neighbouring free blocks, and
      frees exactly the block it is given: every other block keeps its
      occupancy, and occupied blocks keep their offsets and sizes. */
  lemma ReleaseFrees(c: seq<Header>, n: int, i: nat)
    requires Tiles(c, n) && i < |c| && c[i].free == USED
    ensures Tiles(Release(c, i), n)
    ensures NoAdjacentFree(Release(c, i))
    ensures (Offset(c, i), c[i].size) in Allocated(c)
    ensures Allocated(Release(c, i)) == Allocated(c) - {(Offset(c, i), c[i].size)}
  {
    var m := MarkFree(c, i);
    MarkFreePreservesTiling(c, n, i);
    MarkFreeDeallocates(c, i);
    SweepPreservesTiling(m, n, 0);
    SweepNoAdjacentFree(m, 0);
    SweepKeepsOccupied(m, 0, 0);
  }

  /** A chain with no occupied block and no two neighbouring free blocks is
      the single block laid down at initialisation. */
  lemma SoleFreeBlock(c: seq<Header>, n: int)
    requires Tiles(c, n) && NoAdjacentFree(c) && Allocated(c) == {}
    ensures c == [Header(FREE, n - H)]
  {
    NoneOccupiedAllFree(c, 0);
    assert |c| >= 2 ==> FreePair(c, 0);
    assert |c| == 1;
    Span1(c);
  }

  /** Freeing the last outstanding allocation restores the initial pool. */
  lemma LastReleaseRestoresInit(c: seq<Header>, n: int, i: nat)
    requires Tiles(c, n) && i < |c| && c[i].free == USED
    requires Allocated(c) == {(Offset(c, i), c[i].size)}
    ensures Release(c, i) == [Header(FREE, n - H)]
  {
    ReleaseFrees(c, n, i);
    SoleFreeBlock(Release(c, i), n);
  }

  /** The initial chain tiles the pool. */
  lemma InitTiles(n: int)
    requires n > H
    ensures Tiles([Header(FREE, n - H)], n) && Allocated([Header(FREE, n - H)]) == {}
    ensures NoAdjacentFree([Header(FREE, n - H)])
  {
    var c := [Header(FREE, n - H)];
    Span1(c);
    assert c[1..] == [];
    assert Occupied(c[1..], H + c[0].size) == {};
  }

  /** Free blocks of 100, 10 and 50 bytes: a request for 8 bytes takes the
      50-byte block, since the 10-byte one cannot also hold a new 8-byte
      header; a request for 1 byte takes the 10-byte one. */
  lemma BestFitExample()
    ensures BestFit([Header(FREE, 100), Header(FREE, 10), Header(FREE, 50)], 8) == Some(2)
    ensures BestFit([Header(FREE, 100), Header(FREE, 10), Header(FREE, 50)], 1) == Some(1)
  {
  }
}
