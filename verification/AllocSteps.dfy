/**
  How each change of tags carries the allocator's invariant along.
 */
module AllocSteps {
  import opened Arith
  import opened AllocTree
  import opened AllocBins
  import opened AllocPool
  import opened AllocTags
  import opened AllocInv

  // ---------------------------------------------------------------- frames

  lemma PoolFrame(tg: Tags, dv: int, loose: set<int>, b: Bins, tg': Tags, dv': int, loose': set<int>)
    requires PoolOk(tg, dv, loose, b)
    requires forall c {:trigger Binnable(tg, dv, loose, c)} {:trigger Binnable(tg', dv', loose', c)} ::
               Binnable(tg, dv, loose, c) == Binnable(tg', dv', loose', c)
    ensures PoolOk(tg', dv', loose', b)
  {
    forall c ensures Pool(b.small, b.trees)[c] == if Binnable(tg', dv', loose', c) then 1 else 0 {
      assert Binnable(tg, dv, loose, c) == Binnable(tg', dv', loose', c);
    }
  }

  /** Everything in tg' is where it was in tg, or lies in a segment. */
  ghost predicate Stays(tg: Tags, tg': Tags, segs: seq<Region>, q: int)
    requires q in tg'.head
  {
    (q in tg.head && tg.head[q].size == tg'.head[q].size && (q in tg.fences <==> q in tg'.fences))
    || InSegment(tg', segs, q)
  }

  lemma RegionsFrame(tg: Tags, tg': Tags, segs: seq<Region>)
    requires RegionsOk(tg, segs) && tg'.directs == tg.directs
    requires forall p {:trigger p in tg.directs} ::
               p in tg.directs ==> p in tg'.head && tg'.head[p].size == tg.head[p].size
    requires forall q {:trigger Stays(tg, tg', segs, q)} :: q in tg'.head ==> Stays(tg, tg', segs, q)
    ensures RegionsOk(tg', segs)
  {
    forall q | q in tg'.head ensures Housed(tg', segs, q) {
      assert Stays(tg, tg', segs, q);
      if q in tg.head && tg.head[q].size == tg'.head[q].size && (q in tg.fences <==> q in tg'.fences) {
        assert Housed(tg, segs, q);
        if InSegment(tg, segs, q) {
          var i :| 0 <= i < |segs| && Holds(segs[i], tg, q);
          assert Holds(segs[i], tg', q);
        } else if q !in tg.directs {
          var p :| p in tg.directs && p in tg.head && Next(tg, p) == q;
          assert p in tg'.directs && Next(tg', p) == q;
        }
      }
    }
    assert forall p :: p in tg.directs ==> Extent(tg, p) == Extent(tg', p);
    forall p, i | p in tg.directs && 0 <= i < |segs| ensures Off(Extent(tg', p), segs[i]) {
      assert Off(Extent(tg, p), segs[i]);
    }
    forall p, q | p in tg.directs && q in tg.directs && p != q ensures Off(Extent(tg', p), Extent(tg', q)) {
      assert Off(Extent(tg, p), Extent(tg, q));
    }
  }

  /** Segments are not affected when their first chunks and the end of top stay. */
  lemma SegmentsFrame(tg: Tags, tg': Tags, segs: seq<Region>)
    requires SegmentsOk(tg, segs)
    requires forall j {:trigger segs[j]} ::
               0 <= j < |segs| && SegmentStarts(tg, segs[j].base) ==> SegmentStarts(tg', segs[j].base)
    requires tg.top in tg.head && tg'.top in tg'.head && Next(tg, tg.top) == Next(tg', tg'.top)
    requires forall i {:trigger HoldsTop(tg, segs[i])} ::
               0 <= i < |segs| && HoldsTop(tg, segs[i]) ==> segs[i].base <= tg'.top
    ensures SegmentsOk(tg', segs)
  {
    var i :| 0 <= i < |segs| && HoldsTop(tg, segs[i]);
    assert HoldsTop(tg', segs[i]);
  }

  lemma ZeroIsNoChunk(tg: Tags)
    requires TagsOk(tg)
    ensures !IsChunk(tg, 0)
  {
    assert IsChunk(tg, 0) ==> ChunkOk(tg, 0);
  }

  // ---------------------------------------------------------------- the designated victim

  /** The designated victim is taken up. */
  lemma DropDv(h: Heap, loose: set<int>)
    requires HeapOk(h, loose) && h.dvsize > 0
    ensures IsFree(h.tg, h.dv) && h.dv != h.tg.top
    ensures 0 !in loose ==> HeapOk(h.(dv := 0, dvsize := 0), loose + {h.dv})
  {
    hide TagsOk;
    hide RegionsOk;
    hide SegmentsOk;
    hide LiveOk;
    ZeroIsNoChunk(h.tg);
    PoolFrame(h.tg, h.dv, loose, h.b, h.tg, 0, loose + {h.dv});
  }

  /** A loose free chunk becomes the designated victim. */
  lemma SetDv(h: Heap, p: int)
    requires HeapOk(h, {p}) && h.dvsize == 0 && IsFree(h.tg, p) && p != h.tg.top
    ensures HeapOk(h.(dv := p, dvsize := h.tg.head[p].size), {})
  {
    hide RegionsOk;
    hide SegmentsOk;
    hide LiveOk;
    ZeroIsNoChunk(h.tg);
    assert ChunkOk(h.tg, p);
    hide TagsOk;
    PoolFrame(h.tg, h.dv, {p}, h.b, h.tg, p, {});
  }

  // ---------------------------------------------------------------- taking

  lemma OccupyHeap(h: Heap, p: int)
    requires HeapOk(h, {p}) && IsFree(h.tg, p) && p != h.tg.top
    ensures Next(h.tg, p) in h.tg.head
    ensures HeapOk(h.(tg := Occupy(h.tg, p), live := h.live + {p}), {})
  {
    OccupyOk(h.tg, p);
    AfterFree(h.tg, p);
    ChunkIs(h.tg, p);
    hide TagsOk;
    var tg' := Occupy(h.tg, p);
    PoolFrame(h.tg, h.dv, {p}, h.b, tg', h.dv, {});
    OccupyPlaces(h, p);
    hide RegionsOk;
    hide SegmentsOk;
    assert LiveOk(tg', h.live + {p}) by {
      forall q | IsChunk(tg', q) && tg'.head[q].cinuse ensures q in h.live + {p} || q in tg'.records {
        assert IsChunk(h.tg, q);
      }
    }
    assert DvOk(tg', h.dv, h.dvsize);
  }

  lemma OccupyPlaces(h: Heap, p: int)
    requires HeapOk(h, {p}) && IsFree(h.tg, p) && p != h.tg.top && Next(h.tg, p) in h.tg.head
             && IsChunk(h.tg, Next(h.tg, p))
    ensures RegionsOk(Occupy(h.tg, p), h.segs) && SegmentsOk(Occupy(h.tg, p), h.segs)
  {
    hide TagsOk;
    hide PoolOk;
    hide LiveOk;
    hide BinShape;
    var tg' := Occupy(h.tg, p);
    assert forall q :: q in tg'.head ==> Stays(h.tg, tg', h.segs, q);
    assert h.tg.top in h.tg.head && Next(h.tg, h.tg.top) == Next(tg', h.tg.top) by { ChunkIsTop(h.tg); }
    RegionsFrame(h.tg, tg', h.segs);
    SegmentsFrame(h.tg, tg', h.segs);
  }

  lemma ChunkIsTop(tg: Tags)
    requires TagsOk(tg)
    ensures IsFree(tg, tg.top) && ChunkOk(tg, tg.top) && TopOk(tg)
  {
  }

  lemma SplitHeap(h: Heap, p: int, nb: nat)
    requires HeapOk(h, {p}) && IsFree(h.tg, p) && p != h.tg.top
    requires nb % 8 == 0 && MIN_CHUNK <= nb && nb + MIN_CHUNK <= h.tg.head[p].size
    ensures HeapOk(h.(tg := SplitFree(h.tg, p, nb), live := h.live + {p}), {p + nb})
    ensures IsFree(SplitFree(h.tg, p, nb), p + nb) && p + nb != h.tg.top
  {
    SplitFreeOk(h.tg, p, nb);
    AfterFree(h.tg, p);
    ChunkIs(h.tg, p);
    Unlisted(h.tg, p + nb);
    hide TagsOk;
    var tg' := SplitFree(h.tg, p, nb);
    PoolFrame(h.tg, h.dv, {p}, h.b, tg', h.dv, {p + nb});
    SplitPlaces(h, p, nb);
    hide RegionsOk;
    hide SegmentsOk;
    assert LiveOk(tg', h.live + {p}) by {
      forall q | IsChunk(tg', q) && tg'.head[q].cinuse ensures q in h.live + {p} || q in tg'.records {
        assert IsChunk(h.tg, q);
      }
    }
    assert DvOk(tg', h.dv, h.dvsize);
  }

  lemma SplitPlaces(h: Heap, p: int, nb: nat)
    requires HeapOk(h, {p}) && IsFree(h.tg, p) && p != h.tg.top && p + nb !in h.tg.head
    requires nb % 8 == 0 && MIN_CHUNK <= nb && nb + MIN_CHUNK <= h.tg.head[p].size
    ensures RegionsOk(SplitFree(h.tg, p, nb), h.segs) && SegmentsOk(SplitFree(h.tg, p, nb), h.segs)
  {
    hide PoolOk;
    hide LiveOk;
    hide BinShape;
    var tg' := SplitFree(h.tg, p, nb);
    ChunkIsTop(h.tg);
    ChunkIs(h.tg, p);
    Unlisted(h.tg, p + nb);
    DirectsAreChunks(h.tg);
    hide TagsOk;
    assert Housed(h.tg, h.segs, p);
    FreeInSegment(h.tg, h.segs, p);
    var i :| 0 <= i < |h.segs| && Holds(h.segs[i], h.tg, p);
    forall q | q in tg'.head ensures Stays(h.tg, tg', h.segs, q) {
      assert q == p || q == p + nb ==> Holds(h.segs[i], tg', q);
    }
    RegionsFrame(h.tg, tg', h.segs);
    SegmentsFrame(h.tg, tg', h.segs);
  }

  /** Ordinary chunks lie in segments. */
  lemma FreeInSegment(tg: Tags, segs: seq<Region>, p: int)
    requires TagsOk(tg) && RegionsOk(tg, segs) && IsChunk(tg, p) && p !in tg.directs
    ensures InSegment(tg, segs, p)
  {
    hide ChunkOk;
    assert Housed(tg, segs, p);
  }

  lemma SplitTopHeap(h: Heap, nb: nat)
    requires HeapOk(h, {}) && nb % 8 == 0 && h.tg.top in h.tg.head && MIN_CHUNK <= nb < h.tg.head[h.tg.top].size
    ensures HeapOk(h.(tg := SplitTop(h.tg, nb), live := h.live + {h.tg.top}), {})
  {
    SplitTopOk(h.tg, nb);
    ChunkIsTop(h.tg);
    Unlisted(h.tg, h.tg.top + nb);
    var p := h.tg.top;
    var tg' := SplitTop(h.tg, nb);
    hide TagsOk;
    PoolFrame(h.tg, h.dv, {}, h.b, tg', h.dv, {});
    SplitTopPlaces(h, nb);
    hide RegionsOk;
    hide SegmentsOk;
    assert LiveOk(tg', h.live + {p}) by {
      forall q | IsChunk(tg', q) && tg'.head[q].cinuse ensures q in h.live + {p} || q in tg'.records {
        assert IsChunk(h.tg, q);
      }
    }
    assert DvOk(tg', h.dv, h.dvsize);
  }

  lemma SplitTopPlaces(h: Heap, nb: nat)
    requires HeapOk(h, {}) && nb % 8 == 0 && h.tg.top in h.tg.head && MIN_CHUNK <= nb < h.tg.head[h.tg.top].size
    requires h.tg.top + nb !in h.tg.head
    ensures RegionsOk(SplitTop(h.tg, nb), h.segs) && SegmentsOk(SplitTop(h.tg, nb), h.segs)
  {
    hide PoolOk;
    hide LiveOk;
    hide BinShape;
    var p := h.tg.top;
    var tg' := SplitTop(h.tg, nb);
    ChunkIsTop(h.tg);
    Unlisted(h.tg, p + nb);
    DirectsAreChunks(h.tg);
    hide TagsOk;
    FreeInSegment(h.tg, h.segs, p);
    var i :| 0 <= i < |h.segs| && Holds(h.segs[i], h.tg, p);
    forall q | q in tg'.head ensures Stays(h.tg, tg', h.segs, q) {
      assert q == p || q == p + nb ==> Holds(h.segs[i], tg', q);
    }
    RegionsFrame(h.tg, tg', h.segs);
    SegmentsFrame(h.tg, tg', h.segs);
  }

  // ---------------------------------------------------------------- resizing

  lemma LiveResizable(h: Heap, loose: set<int>, p: int)
    requires HeapOk(h, loose) && p in h.live && p !in h.tg.directs
    ensures Resizable(h.tg, p)
  {
  }

  /** A live block is split in two live blocks. */
  lemma SplitUsedHeap(h: Heap, p: int, nb: nat)
    requires HeapOk(h, {}) && p in h.live && p !in h.tg.directs && p in h.tg.head
    requires nb % 8 == 0 && MIN_CHUNK <= nb && nb + MIN_CHUNK <= h.tg.head[p].size
    ensures HeapOk(h.(tg := SplitUsed(h.tg, p, nb), live := h.live + {p + nb}), {})
    ensures p + nb !in h.tg.head && SameBlocks(h.tg, SplitUsed(h.tg, p, nb), h.live - {p})
  {
    LiveResizable(h, {}, p);
    SplitUsedOk(h.tg, p, nb);
    Unlisted(h.tg, p + nb);
    SplitUsedPlaces(h, p, nb);
    hide TagsOk;
    var tg' := SplitUsed(h.tg, p, nb);
    PoolFrame(h.tg, h.dv, {}, h.b, tg', h.dv, {});
    hide RegionsOk;
    hide SegmentsOk;
    assert LiveOk(tg', h.live + {p + nb}) by {
      forall q | IsChunk(tg', q) && tg'.head[q].cinuse ensures q in h.live + {p + nb} || q in tg'.records {
        assert q != p + nb ==> IsChunk(h.tg, q);
      }
    }
    assert DvOk(tg', h.dv, h.dvsize);
  }

  lemma SplitUsedPlaces(h: Heap, p: int, nb: nat)
    requires HeapOk(h, {}) && Resizable(h.tg, p) && p + nb !in h.tg.head && MIN_CHUNK <= nb
             && nb + MIN_CHUNK <= h.tg.head[p].size
    ensures RegionsOk(SplitUsed(h.tg, p, nb), h.segs) && SegmentsOk(SplitUsed(h.tg, p, nb), h.segs)
  {
    hide PoolOk;
    hide LiveOk;
    hide BinShape;
    var tg' := SplitUsed(h.tg, p, nb);
    ChunkIsTop(h.tg);
    Unlisted(h.tg, p + nb);
    DirectsAreChunks(h.tg);
    FreeInSegment(h.tg, h.segs, p);
    hide TagsOk;
    var i :| 0 <= i < |h.segs| && Holds(h.segs[i], h.tg, p);
    forall q | q in tg'.head ensures Stays(h.tg, tg', h.segs, q) {
      assert q == p || q == p + nb ==> Holds(h.segs[i], tg', q);
    }
    RegionsFrame(h.tg, tg', h.segs);
    SegmentsFrame(h.tg, tg', h.segs);
  }

  /** A live block in front of top grows into it. */
  lemma GrowHeap(h: Heap, p: int, nb: nat)
    requires HeapOk(h, {}) && p in h.live && p !in h.tg.directs && GrowPre(h.tg, p, nb)
    ensures HeapOk(h.(tg := GrowIntoTop(h.tg, p, nb)), {})
    ensures p + nb !in h.tg.head && SameBlocks(h.tg, GrowIntoTop(h.tg, p, nb), h.live - {p})
  {
    GrowIntoTopOk(h.tg, p, nb);
    Unlisted(h.tg, p + nb);
    ChunkIsTop(h.tg);
    GrowPlaces(h, p, nb);
    hide TagsOk;
    var tg' := GrowIntoTop(h.tg, p, nb);
    PoolFrame(h.tg, h.dv, {}, h.b, tg', h.dv, {});
    hide RegionsOk;
    hide SegmentsOk;
    assert LiveOk(tg', h.live) by {
      forall q | IsChunk(tg', q) && tg'.head[q].cinuse ensures q in h.live || q in tg'.records {
        assert IsChunk(h.tg, q);
      }
    }
    assert DvOk(tg', h.dv, h.dvsize);
  }

  lemma GrowPlaces(h: Heap, p: int, nb: nat)
    requires HeapOk(h, {}) && GrowPre(h.tg, p, nb) && p + nb !in h.tg.head
    ensures RegionsOk(GrowIntoTop(h.tg, p, nb), h.segs) && SegmentsOk(GrowIntoTop(h.tg, p, nb), h.segs)
  {
    hide PoolOk;
    hide LiveOk;
    hide BinShape;
    var tg' := GrowIntoTop(h.tg, p, nb);
    ChunkIsTop(h.tg);
    Unlisted(h.tg, p + nb);
    DirectsAreChunks(h.tg);
    FreeInSegment(h.tg, h.segs, p);
    var i :| 0 <= i < |h.segs| && Holds(h.segs[i], h.tg, p);
    SameSegment(h.tg, h.segs, i, p);
    PositiveSizes(h.tg);
    hide TagsOk;
    forall q | q in tg'.head ensures Stays(h.tg, tg', h.segs, q) {
      assert q == p || q == p + nb ==> Holds(h.segs[i], tg', q);
    }
    RegionsFrame(h.tg, tg', h.segs);
    forall j | 0 <= j < |h.segs| ensures SegmentStarts(tg', h.segs[j].base) {
      assert SegmentStarts(h.tg, h.segs[j].base);
      assert h.segs[j].base != h.tg.top by {
        assert i < j ==> Off(h.segs[i], h.segs[j]);
        assert j < i ==> Off(h.segs[j], h.segs[i]);
      }
    }
    SegmentsFrame(h.tg, tg', h.segs);
  }

  // ---------------------------------------------------------------- giving back

  /** The run from a up to n consists of the live block p and loose free chunks. */
  ghost predicate Run(h: Heap, loose: set<int>, a: int, n: int, p: int) {
    && p in h.live && p !in h.tg.directs && a <= p < n
    && IsChunk(h.tg, a) && h.tg.head[a].pinuse && (a == p || a in loose)
    && (forall q {:trigger q in h.tg.head} ::
          q in h.tg.head && a <= q < n ==> q == p || (q in loose && IsFree(h.tg, q) && q != h.tg.top))
    && (forall q {:trigger q in loose} :: q in loose ==> a <= q < n)
  }

  lemma RunIsPlain(h: Heap, loose: set<int>, a: int, n: int, p: int)
    requires HeapOk(h, loose) && Run(h, loose, a, n, p)
    ensures PlainRun(h.tg, a, n)
    ensures n - a >= MIN_CHUNK || !IsChunk(h.tg, n)
  {
    hide PoolOk;
    hide RegionsOk;
    hide SegmentsOk;
    hide BinShape;
    ChunkIs(h.tg, a);
    assert Next(h.tg, a) in h.tg.head;
    forall q | q in h.tg.head && a < q < n ensures q !in h.tg.fences && q !in h.tg.directs && q !in h.tg.records {
      assert IsChunk(h.tg, q);
      ChunkIs(h.tg, q);
    }
    assert a !in h.tg.directs && a !in h.tg.records by { assert IsChunk(h.tg, p); }
    assert IsChunk(h.tg, n) ==> Apart(h.tg, a, n);
  }

  lemma HeldIsNotDirect(tg: Tags, segs: seq<Region>, i: nat, n: int)
    requires TagsOk(tg) && RegionsOk(tg, segs) && i < |segs| && Holds(segs[i], tg, n)
    ensures n !in tg.directs
  {
    hide ChunkOk;
    PositiveSizes(tg);
    assert n in tg.directs ==> Off(Extent(tg, n), segs[i]);
  }

  /** Merging a run with an in-use chunk behind it leaves one loose free chunk. */
  lemma MergeHeap(h: Heap, loose: set<int>, a: int, n: int, p: int, i: nat)
    requires HeapOk(h, loose) && Run(h, loose, a, n, p)
    requires IsChunk(h.tg, n) && h.tg.head[n].cinuse && i < |h.segs| && Holds(h.segs[i], h.tg, a)
             && Holds(h.segs[i], h.tg, n)
    ensures HeapOk(h.(tg := MergeRun(h.tg, a, n), live := h.live - {p}), {a})
    ensures IsFree(MergeRun(h.tg, a, n), a) && a != h.tg.top
  {
    hide BinShape;
    RunIsPlain(h, loose, a, n, p);
    HeldIsNotDirect(h.tg, h.segs, i, n);
    ChunkIsTop(h.tg);
    var tg' := MergeRun(h.tg, a, n);
    MergeRunOk(h.tg, a, n);
    hide TagsOk;
    MergePlaces(h, a, n, i);
    hide RegionsOk;
    hide SegmentsOk;
    MergePool(h, loose, a, n, p);
    hide PoolOk;
    MergeLive(h, loose, a, n, p);
    hide LiveOk;
    assert DvOk(tg', h.dv, h.dvsize);
  }

  lemma MergePool(h: Heap, loose: set<int>, a: int, n: int, p: int)
    requires PoolOk(h.tg, h.dv, loose, h.b) && Run(h, loose, a, n, p) && LiveOk(h.tg, h.live)
    requires IsChunk(h.tg, n) && h.tg.head[n].cinuse
    ensures PoolOk(MergeRun(h.tg, a, n), h.dv, {a}, h.b)
  {
    PoolFrame(h.tg, h.dv, loose, h.b, MergeRun(h.tg, a, n), h.dv, {a});
  }

  lemma MergeLive(h: Heap, loose: set<int>, a: int, n: int, p: int)
    requires Run(h, loose, a, n, p) && LiveOk(h.tg, h.live)
    requires IsChunk(h.tg, n) && h.tg.head[n].cinuse && PlainRun(h.tg, a, n)
    ensures LiveOk(MergeRun(h.tg, a, n), h.live - {p})
  {
    var tg' := MergeRun(h.tg, a, n);
    forall q | IsChunk(tg', q) && tg'.head[q].cinuse ensures q in h.live - {p} || q in tg'.records {
      assert IsChunk(h.tg, q);
    }
  }

  lemma MergePlaces(h: Heap, a: int, n: int, i: nat)
    requires TagsOk(h.tg) && RegionsOk(h.tg, h.segs) && SegmentsOk(h.tg, h.segs)
    requires PlainRun(h.tg, a, n) && !(a <= h.tg.top < n)
    requires IsChunk(h.tg, n) && n !in h.tg.directs && i < |h.segs| && Holds(h.segs[i], h.tg, a)
             && Holds(h.segs[i], h.tg, n)
    ensures RegionsOk(MergeRun(h.tg, a, n), h.segs) && SegmentsOk(MergeRun(h.tg, a, n), h.segs)
  {
    var tg' := MergeRun(h.tg, a, n);
    ChunkIsTop(h.tg);
    DirectsAreChunks(h.tg);
    PositiveSizes(h.tg);
    hide TagsOk;
    assert forall j :: 0 <= j < |h.segs| ==> h.segs[j].base <= a || n < h.segs[j].base by {
      forall j | 0 <= j < |h.segs| ensures h.segs[j].base <= a || n < h.segs[j].base {
        assert i < j ==> Off(h.segs[i], h.segs[j]);
        assert j < i ==> Off(h.segs[j], h.segs[i]);
      }
    }
    forall q | q in tg'.head ensures Stays(h.tg, tg', h.segs, q) {
      assert q == a ==> Holds(h.segs[i], tg', q);
    }
    RegionsFrame(h.tg, tg', h.segs);
    SegmentsFrame(h.tg, tg', h.segs);
  }

  /** Merging a run with top behind it. */
  lemma MergeTopHeap(h: Heap, loose: set<int>, a: int, p: int, i: nat)
    requires HeapOk(h, loose) && Run(h, loose, a, h.tg.top, p)
    requires i < |h.segs| && Holds(h.segs[i], h.tg, a) && Holds(h.segs[i], h.tg, h.tg.top)
    ensures HeapOk(h.(tg := MergeTop(h.tg, a), live := h.live - {p}), {})
  {
    hide BinShape;
    var top := h.tg.top;
    var n := Next(h.tg, top);
    ChunkIsTop(h.tg);
    assert PlainRun(h.tg, a, n) by {
      RunIsPlain(h, loose, a, top, p);
      forall q | q in h.tg.head && a < q < n ensures q !in h.tg.fences && q !in h.tg.directs && q !in h.tg.records {
        if q > top { Inside(h.tg, top, q); }
      }
    }
    var tg' := MergeTop(h.tg, a);
    MergeTopOk(h.tg, a);
    NextOfRun(h, loose, a, p);
    hide TagsOk;
    MergeTopPlaces(h, a, i);
    hide RegionsOk;
    hide SegmentsOk;
    MergeTopPool(h, loose, a, p);
    hide PoolOk;
    MergeTopLive(h, loose, a, p);
    hide LiveOk;
    assert DvOk(tg', h.dv, h.dvsize);
  }

  /** Nothing lies between top and the mark behind it. */
  lemma NextOfRun(h: Heap, loose: set<int>, a: int, p: int)
    requires HeapOk(h, loose) && Run(h, loose, a, h.tg.top, p)
    ensures forall q :: q in h.tg.head && a <= q < Next(h.tg, h.tg.top) ==>
                          q == p || q == h.tg.top || (q in loose && IsFree(h.tg, q) && q != h.tg.top)
  {
    forall q | q in h.tg.head && a <= q < Next(h.tg, h.tg.top)
      ensures q == p || q == h.tg.top || (q in loose && IsFree(h.tg, q) && q != h.tg.top)
    {
      if q > h.tg.top { Inside(h.tg, h.tg.top, q); }
    }
  }

  lemma MergeTopPool(h: Heap, loose: set<int>, a: int, p: int)
    requires PoolOk(h.tg, h.dv, loose, h.b) && Run(h, loose, a, h.tg.top, p) && LiveOk(h.tg, h.live)
    requires h.tg.top in h.tg.head && h.tg.head[h.tg.top].size > 0
    requires forall q :: q in h.tg.head && a <= q < Next(h.tg, h.tg.top) ==>
                           q == p || q == h.tg.top || (q in loose && IsFree(h.tg, q) && q != h.tg.top)
    ensures PoolOk(MergeTop(h.tg, a), h.dv, {}, h.b)
  {
    hide MergeTop;
    hide PoolOk;
    var tg' := MergeTop(h.tg, a);
    forall c ensures Binnable(h.tg, h.dv, loose, c) == Binnable(tg', h.dv, {}, c) {
      MergeTopHead(h.tg, a, c.at);
    }
    PoolFrame(h.tg, h.dv, loose, h.b, tg', h.dv, {});
  }

  lemma MergeTopLive(h: Heap, loose: set<int>, a: int, p: int)
    requires Run(h, loose, a, h.tg.top, p) && LiveOk(h.tg, h.live) && IsFree(h.tg, h.tg.top)
    requires PlainRun(h.tg, a, Next(h.tg, h.tg.top))
    requires forall q :: q in h.tg.head && a <= q < Next(h.tg, h.tg.top) ==>
                           q == p || q == h.tg.top || (q in loose && IsFree(h.tg, q) && q != h.tg.top)
    ensures LiveOk(MergeTop(h.tg, a), h.live - {p})
  {
    var tg' := MergeTop(h.tg, a);
    forall q | IsChunk(tg', q) && tg'.head[q].cinuse ensures q in h.live - {p} || q in tg'.records {
      assert IsChunk(h.tg, q);
    }
  }

  lemma MergeTopPlaces(h: Heap, a: int, i: nat)
    requires TagsOk(h.tg) && RegionsOk(h.tg, h.segs) && SegmentsOk(h.tg, h.segs)
    requires PlainRun(h.tg, a, Next(h.tg, h.tg.top)) && a <= h.tg.top
    requires i < |h.segs| && Holds(h.segs[i], h.tg, a) && Holds(h.segs[i], h.tg, h.tg.top)
    ensures RegionsOk(MergeTop(h.tg, a), h.segs) && SegmentsOk(MergeTop(h.tg, a), h.segs)
  {
    var tg' := MergeTop(h.tg, a);
    var n := Next(h.tg, h.tg.top);
    ChunkIsTop(h.tg);
    DirectsAreChunks(h.tg);
    PositiveSizes(h.tg);
    hide TagsOk;
    assert forall j :: 0 <= j < |h.segs| ==> h.segs[j].base <= a || n < h.segs[j].base by {
      forall j | 0 <= j < |h.segs| ensures h.segs[j].base <= a || n < h.segs[j].base {
        assert i < j ==> Off(h.segs[i], h.segs[j]);
        assert j < i ==> Off(h.segs[j], h.segs[i]);
      }
    }
    forall q | q in tg'.head ensures Stays(h.tg, tg', h.segs, q) {
      assert q == a ==> Holds(h.segs[i], tg', q);
    }
    RegionsFrame(h.tg, tg', h.segs);
    SegmentsFrame(h.tg, tg', h.segs);
  }

  // ---------------------------------------------------------------- new memory

  /** The segment at j grows down to p, and its new part becomes two in-use chunks. */
  lemma AddTwoHeap(h: Heap, j: nat, p: int, nb: nat, qsize: nat)
    requires HeapOk(h, {}) && j < |h.segs| && h.segs[j].base == p + nb + qsize
    requires nb % 8 == 0 && qsize % 8 == 0 && nb >= MIN_CHUNK && qsize >= MIN_CHUNK
    requires FreshRegion(h.tg, h.segs, Region(p, p + nb + qsize))
    ensures HeapOk(h.(tg := AddTwo(h.tg, p, nb, qsize), segs := h.segs[j := Region(p, h.segs[j].end)],
                      live := h.live + {p, p + nb}), {})
    ensures p !in h.tg.head && p + nb !in h.tg.head
  {
    FreshHoldsNothing(h.tg, h.segs, Region(p, p + nb + qsize));
    assert SegmentStarts(h.tg, h.segs[j].base);
    AddTwoOk(h.tg, p, nb, qsize);
    var tg' := AddTwo(h.tg, p, nb, qsize);
    var segs' := h.segs[j := Region(p, h.segs[j].end)];
    ChunkIsTop(h.tg);
    Unlisted(h.tg, p);
    Unlisted(h.tg, p + nb);
    AddTwoPlaces(h, j, p, nb, qsize);
    hide TagsOk;
    hide RegionsOk;
    hide SegmentsOk;
    PoolFrame(h.tg, h.dv, {}, h.b, tg', h.dv, {});
    assert LiveOk(tg', h.live + {p, p + nb}) by {
      forall q | IsChunk(tg', q) && tg'.head[q].cinuse ensures q in h.live + {p, p + nb} || q in tg'.records {
        assert q != p && q != p + nb ==> IsChunk(h.tg, q);
      }
    }
    assert DvOk(tg', h.dv, h.dvsize);
  }

  lemma AddTwoPlaces(h: Heap, j: nat, p: int, nb: nat, qsize: nat)
    requires HeapOk(h, {}) && j < |h.segs| && h.segs[j].base == p + nb + qsize
    requires nb >= MIN_CHUNK && qsize >= MIN_CHUNK && p !in h.tg.head && p + nb !in h.tg.head
    requires FreshRegion(h.tg, h.segs, Region(p, p + nb + qsize))
    ensures RegionsOk(AddTwo(h.tg, p, nb, qsize), h.segs[j := Region(p, h.segs[j].end)])
    ensures SegmentsOk(AddTwo(h.tg, p, nb, qsize), h.segs[j := Region(p, h.segs[j].end)])
  {
    hide PoolOk;
    hide BinShape;
    var tg' := AddTwo(h.tg, p, nb, qsize);
    var segs' := h.segs[j := Region(p, h.segs[j].end)];
    GrownDown(h.tg, h.segs, j, p);
    ChunkIsTop(h.tg);
    DirectsAreChunks(h.tg);
    Unlisted(h.tg, p);
    Unlisted(h.tg, p + nb);
    assert SegmentStarts(h.tg, h.segs[j].base);
    ChunkIs(h.tg, h.segs[j].base);
    hide TagsOk;
    forall q | q in tg'.head ensures Stays(h.tg, tg', segs', q) {
      assert q == p || q == p + nb ==> Holds(segs'[j], tg', q) by { assert Sane(h.segs[j]); }
    }
    RegionsFrame(h.tg, tg', segs');
    var i :| 0 <= i < |h.segs| && HoldsTop(h.tg, h.segs[i]);
    assert HoldsTop(tg', segs'[i]);
    forall k | 0 <= k < |segs'| ensures SegmentStarts(tg', segs'[k].base) {
      assert k != j ==> SegmentStarts(h.tg, h.segs[k].base);
    }
  }

  /** A segment may grow into a fresh range below it. */
  lemma GrownDown(tg: Tags, segs: seq<Region>, j: nat, p: int)
    requires TagsOk(tg) && RegionsOk(tg, segs) && j < |segs| && FreshRegion(tg, segs, Region(p, segs[j].base))
    ensures RegionsOk(tg, segs[j := Region(p, segs[j].end)])
  {
    hide ChunkOk;
    var segs' := segs[j := Region(p, segs[j].end)];
    assert Sane(segs[j]);
    forall i, k | 0 <= i < k < |segs'| ensures Off(segs'[i], segs'[k]) {
      assert Off(segs[i], segs[k]);
    }
    forall q, i | q in tg.directs && 0 <= i < |segs'| ensures Off(Extent(tg, q), segs'[i]) {
      assert Off(Extent(tg, q), segs[i]);
    }
    forall q | q in tg.head ensures Housed(tg, segs', q) {
      assert Housed(tg, segs, q);
      if InSegment(tg, segs, q) {
        var i :| 0 <= i < |segs| && Holds(segs[i], tg, q);
        assert Holds(segs'[i], tg, q);
      }
    }
  }

  /** Top's segment grows by d fresh bytes behind it. */
  lemma ExtendTopHeap(h: Heap, j: nat, d: nat)
    requires HeapOk(h, {}) && j < |h.segs| && HoldsTop(h.tg, h.segs[j]) && d % 8 == 0 && d > 0
    requires FreshRegion(h.tg, h.segs, Region(h.segs[j].end, h.segs[j].end + d))
    ensures HeapOk(h.(tg := ExtendTop(h.tg, d), segs := h.segs[j := Region(h.segs[j].base, h.segs[j].end + d)]), {})
  {
    FreshHoldsNothing(h.tg, h.segs, Region(h.segs[j].end, h.segs[j].end + d));
    ExtendTopOk(h.tg, d);
    var tg' := ExtendTop(h.tg, d);
    ChunkIsTop(h.tg);
    hide PoolOk;
    hide LiveOk;
    hide BinShape;
    ExtendTopPlaces(h, j, d);
    hide RegionsOk;
    hide SegmentsOk;
    ExtendTopRest(h, d);
    hide TagsOk;
  }

  /** No ordinary chunk starts where top's mark moves to. */
  lemma MarkMoves(tg: Tags, d: nat)
    requires TagsOk(tg) && d > 0
    requires FreshRange(tg, Next(tg, tg.top) + TOP_FOOT, Next(tg, tg.top) + TOP_FOOT + d)
    ensures Next(tg, tg.top) + d !in tg.head
  {
    PositiveSizes(tg);
    TailOfMark(tg, Next(tg, tg.top) + d);
  }

  lemma TailOfMark(tg: Tags, q: int)
    requires TagsOk(tg)
    ensures q in tg.head && q > Next(tg, tg.top) ==> q >= Next(tg, tg.top) + TOP_FOOT
  {
    if q in tg.head { TailOfSegment(tg, q); }
  }

  lemma ExtendTopRest(h: Heap, d: nat)
    requires HeapOk(h, {}) && d > 0
    requires FreshRange(h.tg, Next(h.tg, h.tg.top) + TOP_FOOT, Next(h.tg, h.tg.top) + TOP_FOOT + d)
    ensures PoolOk(ExtendTop(h.tg, d), h.dv, {}, h.b) && LiveOk(ExtendTop(h.tg, d), h.live)
            && DvOk(ExtendTop(h.tg, d), h.dv, h.dvsize)
  {
    MarkMoves(h.tg, d);
    ChunkIsTop(h.tg);
    hide TagsOk;
    hide RegionsOk;
    hide SegmentsOk;
    hide BinShape;
    var tg' := ExtendTop(h.tg, d);
    PoolFrame(h.tg, h.dv, {}, h.b, tg', h.dv, {});
    forall q | IsChunk(tg', q) && tg'.head[q].cinuse ensures q in h.live || q in tg'.records {
      assert IsChunk(h.tg, q);
    }
  }

  lemma ExtendTopPlaces(h: Heap, j: nat, d: nat)
    requires HeapOk(h, {}) && j < |h.segs| && HoldsTop(h.tg, h.segs[j]) && d > 0
    requires FreshRegion(h.tg, h.segs, Region(h.segs[j].end, h.segs[j].end + d))
    requires FreshRange(h.tg, Next(h.tg, h.tg.top) + TOP_FOOT, Next(h.tg, h.tg.top) + TOP_FOOT + d)
    ensures RegionsOk(ExtendTop(h.tg, d), h.segs[j := Region(h.segs[j].base, h.segs[j].end + d)])
    ensures SegmentsOk(ExtendTop(h.tg, d), h.segs[j := Region(h.segs[j].base, h.segs[j].end + d)])
  {
    hide PoolOk;
    hide BinShape;
    hide LiveOk;
    var tg' := ExtendTop(h.tg, d);
    var segs' := h.segs[j := Region(h.segs[j].base, h.segs[j].end + d)];
    GrownUp(h.tg, h.segs, j, d);
    ChunkIsTop(h.tg);
    DirectsAreChunks(h.tg);
    MarkMoves(h.tg, d);
    hide TagsOk;
    forall q | q in tg'.head ensures Stays(h.tg, tg', segs', q) {
      assert q == h.tg.top || q == Next(h.tg, h.tg.top) + d ==> Holds(segs'[j], tg', q);
    }
    RegionsFrame(h.tg, tg', segs');
    assert HoldsTop(tg', segs'[j]);
    forall k | 0 <= k < |segs'| ensures SegmentStarts(tg', segs'[k].base) {
      assert SegmentStarts(h.tg, h.segs[k].base);
    }
  }

  /** A segment may grow into a fresh range behind it. */
  lemma GrownUp(tg: Tags, segs: seq<Region>, j: nat, d: nat)
    requires TagsOk(tg) && RegionsOk(tg, segs) && j < |segs|
             && FreshRegion(tg, segs, Region(segs[j].end, segs[j].end + d))
    ensures RegionsOk(tg, segs[j := Region(segs[j].base, segs[j].end + d)])
  {
    hide ChunkOk;
    var segs' := segs[j := Region(segs[j].base, segs[j].end + d)];
    assert Sane(segs[j]);
    forall i, k | 0 <= i < k < |segs'| ensures Off(segs'[i], segs'[k]) {
      assert Off(segs[i], segs[k]);
    }
    forall q, i | q in tg.directs && 0 <= i < |segs'| ensures Off(Extent(tg, q), segs'[i]) {
      assert Off(Extent(tg, q), segs[i]);
    }
    forall q | q in tg.head ensures Housed(tg, segs', q) {
      assert Housed(tg, segs, q);
      if InSegment(tg, segs, q) {
        var i :| 0 <= i < |segs| && Holds(segs[i], tg, q);
        assert Holds(segs'[i], tg, q);
      }
    }
  }

  // ---------------------------------------------------------------- a new segment

  /** What is left to put into a bin after top has moved to a new segment. */
  function Sealed(tg: Tags): set<int>
    requires tg.top in tg.head
  {
    if tg.head[tg.top].size < MIN_CHUNK then {} else {tg.top}
  }

  lemma NewTopHeap(h: Heap, base: int, size: nat)
    requires HeapOk(h, {}) && size >= 8 && size % 8 == 0
             && FreshRegion(h.tg, h.segs, Region(base, base + size + TOP_FOOT))
    ensures h.tg.top in h.tg.head
    ensures HeapOk(h.(tg := NewTop(h.tg, base, size), segs := [Region(base, base + size + TOP_FOOT)] + h.segs),
                   Sealed(h.tg))
    ensures h.tg.head[h.tg.top].size >= MIN_CHUNK ==>
              IsFree(NewTop(h.tg, base, size), h.tg.top) && h.tg.top != base
              && NewTop(h.tg, base, size).head[h.tg.top] == h.tg.head[h.tg.top]
  {
    var r := Region(base, base + size + TOP_FOOT);
    FreshHoldsNothing(h.tg, h.segs, r);
    ChunkIsTop(h.tg);
    TopOffFresh(h, r);
    NewTopOk(h.tg, base, size);
    NewTopPlaces(h, base, size);
    hide RegionsOk;
    hide SegmentsOk;
    hide BinShape;
    NewTopRestOk(h, base, size);
    hide PoolOk;
    hide LiveOk;
    hide TagsOk;
  }

  lemma TopOffFresh(h: Heap, r: Region)
    requires HeapOk(h, {}) && h.tg.top in h.tg.head && FreshRegion(h.tg, h.segs, r)
    ensures r.end <= h.tg.top || Next(h.tg, h.tg.top) + TOP_FOOT <= r.base
  {
    hide PoolOk;
    hide LiveOk;
    hide BinShape;
    hide TagsOk;
    var i :| 0 <= i < |h.segs| && HoldsTop(h.tg, h.segs[i]);
    assert Off(r, h.segs[i]);
  }

  ghost predicate NewTopPre(tg: Tags, base: int, size: nat) {
    && TagsOk(tg) && size >= 8 && base > 0
    && FreshRange(tg, base, base + size + TOP_FOOT)
    && (base + size + TOP_FOOT <= tg.top || Next(tg, tg.top) + TOP_FOOT <= base)
  }

  /** Who is where after the move. */
  lemma NewTopWho(tg: Tags, base: int, size: nat, q: int)
    requires NewTopPre(tg, base, size)
    ensures tg.top in tg.head
    ensures var tg' := NewTop(tg, base, size);
            var n, sp := Next(tg, tg.top), RecordPlace(tg);
            && (q in tg.head && q != n && q != sp
                ==> q in tg'.head && tg'.head[q] == tg.head[q] && (q in tg.fences <==> q in tg'.fences))
            && (q in tg'.head ==>
                  || (q in tg.head && q != n && q != sp)
                  || (q == base && q !in tg'.fences && tg'.head[q] == Head(size, false, true))
                  || (q == base + size && q in tg'.fences && tg'.head[q] == Head(TOP_FOOT, false, false))
                  || (q == sp && q !in tg'.fences && tg'.head[q] == Head(32, true, sp == tg.top))
                  || (q in tg'.fences && sp + 32 <= q <= n + TOP_FOOT - 16 && tg'.head[q] == Head(8, true, true)))
            && (q == base || q == base + size ==> q !in tg.head)
            && (q == sp ==> q in tg'.head && q !in tg'.fences && tg'.head[q] == Head(32, true, sp == tg.top))
            && (q == base ==> q in tg'.head && q !in tg'.fences && tg'.head[q] == Head(size, false, true))
  {
    hide NewTop;
    hide FencePosts;
    hide ChunkOk;
    ChunkIsTop(tg);
    var n, sp := Next(tg, tg.top), RecordPlace(tg);
    PositiveSizes(tg);
    NewTopHead(tg, base, size, q);
    NewTopRest(tg, base, size);
    InPosts(sp, n + TOP_FOOT, q);
    if q in tg.head { TailOfSegment(tg, q); }
  }

  lemma NewTopRestOk(h: Heap, base: int, size: nat)
    requires NewTopPre(h.tg, base, size) && h.tg.top in h.tg.head
    requires PoolOk(h.tg, h.dv, {}, h.b) && LiveOk(h.tg, h.live) && DvOk(h.tg, h.dv, h.dvsize)
    ensures var tg' := NewTop(h.tg, base, size);
            PoolOk(tg', h.dv, Sealed(h.tg), h.b) && LiveOk(tg', h.live) && DvOk(tg', h.dv, h.dvsize)
            && h.dv !in Sealed(h.tg)
    ensures h.tg.head[h.tg.top].size >= MIN_CHUNK ==>
              IsFree(NewTop(h.tg, base, size), h.tg.top) && h.tg.top != base
              && NewTop(h.tg, base, size).head[h.tg.top] == h.tg.head[h.tg.top]
  {
    hide NewTop;
    hide PoolOk;
    ChunkIsTop(h.tg);
    ZeroIsNoChunk(h.tg);
    hide TagsOk;
    var tg' := NewTop(h.tg, base, size);
    var sp := RecordPlace(h.tg);
    NewTopRest(h.tg, base, size);
    hide FencePosts;
    NewTopWho(h.tg, base, size, h.tg.top);
    NewTopWho(h.tg, base, size, h.dv);
    forall c ensures Binnable(h.tg, h.dv, {}, c) == Binnable(tg', h.dv, Sealed(h.tg), c) {
      NewTopWho(h.tg, base, size, c.at);
    }
    PoolFrame(h.tg, h.dv, {}, h.b, tg', h.dv, Sealed(h.tg));
    NewTopLive(h, base, size);
  }

  lemma NewTopLive(h: Heap, base: int, size: nat)
    requires NewTopPre(h.tg, base, size) && h.tg.top in h.tg.head && LiveOk(h.tg, h.live)
    ensures LiveOk(NewTop(h.tg, base, size), h.live)
  {
    hide NewTop;
    ChunkIsTop(h.tg);
    hide TagsOk;
    var tg' := NewTop(h.tg, base, size);
    NewTopRest(h.tg, base, size);
    hide FencePosts;
    forall q | IsChunk(tg', q) && tg'.head[q].cinuse ensures q in h.live || q in tg'.records {
      NewTopWho(h.tg, base, size, q);
      assert q in h.tg.head && q !in h.tg.fences ==> IsChunk(h.tg, q);
    }
    forall q | q in h.live ensures IsChunk(tg', q) && tg'.head[q].cinuse && q !in tg'.records {
      NewTopWho(h.tg, base, size, q);
    }
  }

  lemma NewTopPlaces(h: Heap, base: int, size: nat)
    requires NewTopPre(h.tg, base, size) && RegionsOk(h.tg, h.segs) && SegmentsOk(h.tg, h.segs)
    requires FreshRegion(h.tg, h.segs, Region(base, base + size + TOP_FOOT))
    ensures RegionsOk(NewTop(h.tg, base, size), [Region(base, base + size + TOP_FOOT)] + h.segs)
    ensures SegmentsOk(NewTop(h.tg, base, size), [Region(base, base + size + TOP_FOOT)] + h.segs)
  {
    hide NewTop;
    var tg' := NewTop(h.tg, base, size);
    var segs' := [Region(base, base + size + TOP_FOOT)] + h.segs;
    ChunkIsTop(h.tg);
    NewTopRest(h.tg, base, size);
    DirectsAreChunks(h.tg);
    var j :| 0 <= j < |h.segs| && HoldsTop(h.tg, h.segs[j]);
    assert segs'[j + 1] == h.segs[j];
    OneMore(h.tg, h.segs, Region(base, base + size + TOP_FOOT));
    hide TagsOk;
    hide FencePosts;
    forall q | q in tg'.head ensures Stays(h.tg, tg', segs', q) {
      NewTopWho(h.tg, base, size, q);
      assert q == base || q == base + size ==> Holds(segs'[0], tg', q);
      assert Stays(h.tg, tg', segs', q) || Holds(segs'[j + 1], tg', q);
    }
    forall p | p in h.tg.directs ensures p in tg'.head && tg'.head[p].size == h.tg.head[p].size {
      NewTopWho(h.tg, base, size, p);
    }
    RegionsFrame(h.tg, tg', segs');
    NewTopWho(h.tg, base, size, base);
    assert HoldsTop(tg', segs'[0]);
    forall k | 0 <= k < |segs'| ensures SegmentStarts(tg', segs'[k].base) {
      if k > 0 {
        assert SegmentStarts(h.tg, h.segs[k - 1].base);
        NewTopWho(h.tg, base, size, h.segs[k - 1].base);
      }
    }
  }

  lemma OneMore(tg: Tags, segs: seq<Region>, r: Region)
    requires TagsOk(tg) && RegionsOk(tg, segs) && FreshRegion(tg, segs, r)
    ensures RegionsOk(tg, [r] + segs)
  {
    hide ChunkOk;
    var segs' := [r] + segs;
    forall i, k | 0 <= i < k < |segs'| ensures Off(segs'[i], segs'[k]) {
      if i > 0 { assert Off(segs[i - 1], segs[k - 1]); } else { assert Off(r, segs[k - 1]); }
    }
    forall q, i | q in tg.directs && 0 <= i < |segs'| ensures Off(Extent(tg, q), segs'[i]) {
      if i > 0 { assert Off(Extent(tg, q), segs[i - 1]); }
    }
    forall q | q in tg.head ensures Housed(tg, segs', q) {
      assert Housed(tg, segs, q);
      if InSegment(tg, segs, q) {
        var i :| 0 <= i < |segs| && Holds(segs[i], tg, q);
        assert Holds(segs'[i + 1], tg, q);
      }
    }
  }

  // ---------------------------------------------------------------- direct mappings

  lemma AddDirectHeap(h: Heap, p: int, size: nat)
    requires HeapOk(h, {}) && size % 8 == 0 && size >= MIN_CHUNK
    requires FreshRegion(h.tg, h.segs, Region(p, p + size + DIRECT_FOOT_PAD))
    ensures HeapOk(h.(tg := AddDirect(h.tg, p, size), live := h.live + {p}), {}) && p !in h.tg.head
  {
    FreshHoldsNothing(h.tg, h.segs, Region(p, p + size + DIRECT_FOOT_PAD));
    AddDirectOk(h.tg, p, size);
    var tg' := AddDirect(h.tg, p, size);
    PositiveSizes(h.tg);
    ChunkIsTop(h.tg);
    Unlisted(h.tg, p);
    Unlisted(h.tg, p + size);
    AddDirectPlaces(h, p, size);
    hide TagsOk;
    hide RegionsOk;
    hide SegmentsOk;
    PoolFrame(h.tg, h.dv, {}, h.b, tg', h.dv, {});
    assert LiveOk(tg', h.live + {p}) by {
      forall q | IsChunk(tg', q) && tg'.head[q].cinuse ensures q in h.live + {p} || q in tg'.records {
        assert q != p ==> IsChunk(h.tg, q);
      }
    }
    assert DvOk(tg', h.dv, h.dvsize);
  }

  lemma AddDirectPlaces(h: Heap, p: int, size: nat)
    requires HeapOk(h, {}) && size >= MIN_CHUNK && p !in h.tg.head && p + size !in h.tg.head
    requires FreshRegion(h.tg, h.segs, Region(p, p + size + DIRECT_FOOT_PAD))
    ensures RegionsOk(AddDirect(h.tg, p, size), h.segs) && SegmentsOk(AddDirect(h.tg, p, size), h.segs)
  {
    hide PoolOk;
    hide BinShape;
    hide LiveOk;
    var tg, tg', segs := h.tg, AddDirect(h.tg, p, size), h.segs;
    ChunkIsTop(tg);
    DirectsAreChunks(tg);
    Unlisted(tg, p);
    Unlisted(tg, p + size);
    hide TagsOk;
    AddDirectMapped(tg, segs, p, size);
    hide MappedOk;
    AddDirectHoused(tg, segs, p, size);
    hide Housed;
    SegmentsFrame(tg, tg', segs);
  }

  lemma AddDirectMapped(tg: Tags, segs: seq<Region>, p: int, size: nat)
    requires MappedOk(tg, segs) && p !in tg.head && p + size !in tg.head && size > 0
    requires FreshRegion(tg, segs, Region(p, p + size + DIRECT_FOOT_PAD))
    ensures MappedOk(AddDirect(tg, p, size), segs)
  {
    var tg' := AddDirect(tg, p, size);
    assert tg'.directs == tg.directs + {p};
    assert Extent(tg', p) == Region(p, p + size + DIRECT_FOOT_PAD);
    assert forall q :: q in tg.directs ==> q in tg.head && Extent(tg', q) == Extent(tg, q);
    hide AddDirect;
    forall q, i | q in tg'.directs && 0 <= i < |segs| ensures Off(Extent(tg', q), segs[i]) {
      assert q != p ==> Off(Extent(tg, q), segs[i]);
    }
    forall q, r | q in tg'.directs && r in tg'.directs && q != r ensures Off(Extent(tg', q), Extent(tg', r)) {
      if q != p && r != p { assert Off(Extent(tg, q), Extent(tg, r)); }
    }
  }

  lemma AddDirectHoused(tg: Tags, segs: seq<Region>, p: int, size: nat)
    requires RegionsOk(tg, segs) && p !in tg.head && p + size !in tg.head && p + size !in tg.fences && size > 0
    ensures forall q {:trigger Housed(AddDirect(tg, p, size), segs, q)} ::
              q in AddDirect(tg, p, size).head ==> Housed(AddDirect(tg, p, size), segs, q)
  {
    var tg' := AddDirect(tg, p, size);
    assert p in tg'.head && Next(tg', p) == p + size && tg'.directs == tg.directs + {p};
    assert forall q {:trigger q in tg'.head} ::
             q in tg'.head
             ==> q == p || q == p + size || (q in tg.head && tg'.head[q] == tg.head[q]
                                             && (q in tg'.fences <==> q in tg.fences));
    assert forall q {:trigger q in tg.head} :: q in tg.head ==> q in tg'.head;
    hide AddDirect;
    hide MappedOk;
    forall q | q in tg'.head ensures Housed(tg', segs, q) {
      if q == p + size {
        assert p in tg'.directs && Next(tg', p) == q;
      } else if q != p {
        assert Housed(tg, segs, q);
        if InSegment(tg, segs, q) {
          var i :| 0 <= i < |segs| && Holds(segs[i], tg, q);
          assert Holds(segs[i], tg', q);
        } else if q !in tg.directs {
          var r :| r in tg.directs && r in tg.head && Next(tg, r) == q;
          assert r in tg'.directs && Next(tg', r) == q;
        }
      }
    }
  }

  lemma RemoveDirectHeap(h: Heap, p: int)
    requires HeapOk(h, {}) && p in h.tg.directs
    ensures p in h.tg.head && HeapOk(h.(tg := RemoveDirect(h.tg, p), live := h.live - {p}), {})
  {
    assert DirectOk(h.tg, p);
    RemoveDirectOk(h.tg, p);
    var tg' := RemoveDirect(h.tg, p);
    ChunkIsTop(h.tg);
    NextOfInUse(h.tg, p);
    RemoveDirectPlaces(h, p);
    hide TagsOk;
    hide RegionsOk;
    hide SegmentsOk;
    PoolFrame(h.tg, h.dv, {}, h.b, tg', h.dv, {});
    assert LiveOk(tg', h.live - {p}) by {
      forall q | IsChunk(tg', q) && tg'.head[q].cinuse ensures q in h.live - {p} || q in tg'.records {
        assert IsChunk(h.tg, q);
      }
    }
    assert DvOk(tg', h.dv, h.dvsize);
  }

  lemma RemoveDirectPlaces(h: Heap, p: int)
    requires HeapOk(h, {}) && p in h.tg.directs && p in h.tg.head && DirectOk(h.tg, p)
    requires Next(h.tg, p) != Next(h.tg, h.tg.top)
    ensures RegionsOk(RemoveDirect(h.tg, p), h.segs) && SegmentsOk(RemoveDirect(h.tg, p), h.segs)
  {
    hide PoolOk;
    hide BinShape;
    hide LiveOk;
    var tg, tg', segs := h.tg, RemoveDirect(h.tg, p), h.segs;
    ChunkIsTop(tg);
    DirectsAreChunks(tg);
    hide TagsOk;
    RemoveDirectMapped(tg, segs, p);
    hide MappedOk;
    RemoveDirectHoused(tg, segs, p);
    hide Housed;
    SegmentsFrame(tg, tg', segs);
  }

  lemma RemoveDirectMapped(tg: Tags, segs: seq<Region>, p: int)
    requires MappedOk(tg, segs) && p in tg.head && Next(tg, p) in tg.fences
    requires forall q :: q in tg.directs ==> q !in tg.fences
    ensures MappedOk(RemoveDirect(tg, p), segs)
  {
    var tg' := RemoveDirect(tg, p);
    assert tg'.directs == tg.directs - {p};
    assert forall q :: q in tg'.directs ==> q in tg'.head && Extent(tg', q) == Extent(tg, q);
    hide RemoveDirect;
    forall q, i | q in tg'.directs && 0 <= i < |segs| ensures Off(Extent(tg', q), segs[i]) {
      assert Off(Extent(tg, q), segs[i]);
    }
    forall q, r | q in tg'.directs && r in tg'.directs && q != r ensures Off(Extent(tg', q), Extent(tg', r)) {
      assert Off(Extent(tg, q), Extent(tg, r));
    }
  }

  lemma RemoveDirectHoused(tg: Tags, segs: seq<Region>, p: int)
    requires RegionsOk(tg, segs) && p in tg.head && Next(tg, p) in tg.fences
             && forall q :: q in tg.directs ==> q in tg.head && q !in tg.fences
    ensures forall q {:trigger Housed(RemoveDirect(tg, p), segs, q)} ::
              q in RemoveDirect(tg, p).head ==> Housed(RemoveDirect(tg, p), segs, q)
  {
    var tg' := RemoveDirect(tg, p);
    assert tg'.directs == tg.directs - {p};
    assert forall q {:trigger q in tg'.head} ::
             q in tg'.head
             ==> q != p && q != Next(tg, p) && q in tg.head && tg'.head[q] == tg.head[q]
                 && (q in tg'.fences <==> q in tg.fences);
    assert forall q {:trigger q in tg'.directs} :: q in tg'.directs ==> q in tg'.head;
    hide RemoveDirect;
    hide MappedOk;
    forall q | q in tg'.head ensures Housed(tg', segs, q) {
      assert Housed(tg, segs, q);
      if InSegment(tg, segs, q) {
        var i :| 0 <= i < |segs| && Holds(segs[i], tg, q);
        assert Holds(segs[i], tg', q);
      } else if q !in tg.directs {
        var r :| r in tg.directs && r in tg.head && Next(tg, r) == q;
        assert r in tg'.directs && Next(tg', r) == q;
      }
    }
  }

  // ---------------------------------------------------------------- bins

  predicate BinLengths(b: Bins) {
    |b.small| == |b.smallmap| == NSMALLBINS && |b.trees| == |b.treemap| == NTREEBINS
  }

  /** insert_chunk. */
  function InsertBins(b: Bins, p: int, s: nat): Bins
    requires BinLengths(b) && (IsSmall(s) || TreeIndex(s) < NTREEBINS)
  {
    if IsSmall(s) then
      b.(small := b.small[s / 8 := [p] + b.small[s / 8]], smallmap := b.smallmap[s / 8 := true])
    else
      b.(trees := InsertLarge(b.trees, p, s), treemap := b.treemap[TreeIndex(s) := true])
  }

  /** unlink_chunk. */
  function UnlinkBins(b: Bins, p: int, s: nat): Bins
    requires BinLengths(b) && (if IsSmall(s) then IndexOf(b.small[s / 8], p) < |b.small[s / 8]|
                               else TreeIndex(s) < NTREEBINS)
  {
    if IsSmall(s) then
      var rest := Dropped(b.small[s / 8], IndexOf(b.small[s / 8], p));
      b.(small := b.small[s / 8 := rest], smallmap := b.smallmap[s / 8 := rest != []])
    else
      var trees := UnlinkLarge(b.trees, p, s);
      b.(trees := trees, treemap := b.treemap[TreeIndex(s) := |trees| == NTREEBINS && trees[TreeIndex(s)].Node?])
  }

  lemma LargeIndex(tg: Tags, segs: seq<Region>, p: int)
    requires TagsOk(tg) && RegionsOk(tg, segs) && p in tg.head
    ensures tg.head[p].size < SIZE_LIMIT && (IsSmall(tg.head[p].size) || TreeIndex(tg.head[p].size) < NTREEBINS)
  {
    hide TreeIndex;
    SizeBound(tg, segs, p);
    var s := tg.head[p].size;
    if !IsSmall(s) { IndexRange(s); }
  }

  lemma InsertShape(b: Bins, p: int, s: nat)
    requires BinShape(b) && s < SIZE_LIMIT && s % 8 == 0
    ensures BinLengths(b) && (IsSmall(s) || TreeIndex(s) < NTREEBINS) && BinShape(InsertBins(b, p, s))
    ensures var b' := InsertBins(b, p, s); Pool(b'.small, b'.trees) == Pool(b.small, b.trees) + multiset{Chunk(p, s)}
  {
    hide TreeIndex;
    hide Pool;
    hide BinsOk;
    assert |b.trees| == NTREEBINS by { ShapeLengths(b); }
    if IsSmall(s) {
      InsertSmallPool(b.small, b.trees, s / 8, p);
    } else {
      InsertLargePool(b.small, b.trees, p, s);
    }
  }

  lemma ShapeLengths(b: Bins)
    requires BinShape(b)
    ensures BinLengths(b)
  {
  }

  /** A loose chunk goes into its bin. */
  lemma InsertHeap(h: Heap, loose: set<int>, p: int)
    requires HeapOk(h, loose) && p in loose && IsFree(h.tg, p) && p != h.tg.top
    ensures BinLengths(h.b) && (IsSmall(h.tg.head[p].size) || TreeIndex(h.tg.head[p].size) < NTREEBINS)
    ensures HeapOk(h.(b := InsertBins(h.b, p, h.tg.head[p].size)), loose - {p})
  {
    hide TreeIndex;
    var s := h.tg.head[p].size;
    LargeIndex(h.tg, h.segs, p);
    ChunkIs(h.tg, p);
    InsertShape(h.b, p, s);
    var b' := InsertBins(h.b, p, s);
    hide InsertBins;
    hide BinShape;
    hide TagsOk;
    hide RegionsOk;
    hide SegmentsOk;
    hide LiveOk;
    assert PoolOk(h.tg, h.dv, loose - {p}, b') by {
      hide Pool;
      forall c ensures Pool(b'.small, b'.trees)[c] == if Binnable(h.tg, h.dv, loose - {p}, c) then 1 else 0 {
        assert Pool(h.b.small, h.b.trees)[c] == if Binnable(h.tg, h.dv, loose, c) then 1 else 0;
      }
    }
  }

  lemma UnlinkShape(b: Bins, c: Chunk)
    requires BinShape(b) && c in Pool(b.small, b.trees)
    ensures BinLengths(b)
    ensures if IsSmall(c.size) then IndexOf(b.small[c.size / 8], c.at) < |b.small[c.size / 8]|
            else TreeIndex(c.size) < NTREEBINS
    ensures BinShape(UnlinkBins(b, c.at, c.size))
    ensures var b' := UnlinkBins(b, c.at, c.size); Pool(b.small, b.trees) == Pool(b'.small, b'.trees) + multiset{c}
  {
    hide TreeIndex;
    hide Pool;
    ShapeLengths(b);
    Locate(b.small, b.trees, c);
    hide BinsOk;
    if IsSmall(c.size) {
      var i := c.size / 8;
      IndexOfFinds(b.small[i], c.at);
      UnlinkSmallPool(b.small, b.trees, i, IndexOf(b.small[i], c.at));
    } else {
      UnlinkLargePool(b.small, b.trees, c.at, c.size);
      UnlinkLargeOthers(b.trees, c.at, c.size);
    }
  }

  lemma UnlinkLargeOthers(trees: seq<Tree>, p: int, size: nat)
    ensures |UnlinkLarge(trees, p, size)| == |trees|
    ensures forall j :: 0 <= j < |trees| && j != TreeIndex(size) ==> UnlinkLarge(trees, p, size)[j] == trees[j]
  {
    hide TreeIndex;
    hide Unlink;
    hide PathTo;
  }

  /** A chunk is taken out of its bin. */
  lemma UnlinkHeap(h: Heap, loose: set<int>, p: int)
    requires HeapOk(h, loose) && IsFree(h.tg, p) && p != h.tg.top && p != h.dv && p !in loose
    ensures var s := h.tg.head[p].size;
            BinLengths(h.b) && (if IsSmall(s) then IndexOf(h.b.small[s / 8], p) < |h.b.small[s / 8]|
                                else TreeIndex(s) < NTREEBINS)
    ensures HeapOk(h.(b := UnlinkBins(h.b, p, h.tg.head[p].size)), loose + {p})
  {
    hide TreeIndex;
    var c := Chunk(p, h.tg.head[p].size);
    assert Binnable(h.tg, h.dv, loose, c);
    assert Pool(h.b.small, h.b.trees)[c] == 1;
    UnlinkShape(h.b, c);
    var b' := UnlinkBins(h.b, c.at, c.size);
    hide UnlinkBins;
    hide BinShape;
    hide TagsOk;
    hide RegionsOk;
    hide SegmentsOk;
    hide LiveOk;
    assert PoolOk(h.tg, h.dv, loose + {p}, b') by {
      hide Pool;
      forall d ensures Pool(b'.small, b'.trees)[d] == if Binnable(h.tg, h.dv, loose + {p}, d) then 1 else 0 {
        assert Pool(h.b.small, h.b.trees)[d] == if Binnable(h.tg, h.dv, loose, d) then 1 else 0;
      }
    }
  }

  // ---------------------------------------------------------------- the run a block is freed with

  /** The free chunk before p, if there is one and p is an ordinary block. */
  lemma BeforeBlock(h: Heap, loose: set<int>, p: int)
    requires HeapOk(h, loose) && p in h.live
    ensures p in h.tg.head && (p in h.tg.foot || h.tg.head[p].pinuse)
    ensures !h.tg.head[p].pinuse ==> (h.tg.foot[p] % 2 == 1 <==> p in h.tg.directs)
    ensures !h.tg.head[p].pinuse && p !in h.tg.directs ==> PrevFree(h.tg, p, p - h.tg.foot[p])
    ensures p in h.tg.directs ==> !h.tg.head[p].pinuse
  {
    hide PoolOk;
    hide RegionsOk;
    hide SegmentsOk;
    ChunkIs(h.tg, p);
  }

  /** An ordinary block lies in one segment with both its neighbours. */
  lemma Neighbours(h: Heap, loose: set<int>, p: int) returns (i: nat)
    requires HeapOk(h, loose) && p in h.live && p !in h.tg.directs
    ensures i < |h.segs| && Holds(h.segs[i], h.tg, p)
    ensures IsChunk(h.tg, Next(h.tg, p)) && Holds(h.segs[i], h.tg, Next(h.tg, p)) && h.tg.head[Next(h.tg, p)].pinuse
    ensures IsFree(h.tg, Next(h.tg, p)) && Next(h.tg, p) != h.tg.top ==>
              var n := Next(h.tg, Next(h.tg, p)); IsChunk(h.tg, n) && h.tg.head[n].cinuse && Holds(h.segs[i], h.tg, n)
    ensures forall q :: PrevFree(h.tg, p, q) ==> Holds(h.segs[i], h.tg, q) && h.tg.head[q].pinuse && q < p
  {
    hide PoolOk;
    hide BinShape;
    FreeInSegment(h.tg, h.segs, p);
    var j :| 0 <= j < |h.segs| && Holds(h.segs[j], h.tg, p);
    i := j;
    ChunkIs(h.tg, p);
    SameSegment(h.tg, h.segs, i, p);
    var n := Next(h.tg, p);
    ChunkIs(h.tg, n);
    if IsFree(h.tg, n) && n != h.tg.top {
      AfterFree(h.tg, n);
      SameSegment(h.tg, h.segs, i, n);
    }
    forall q | PrevFree(h.tg, p, q) ensures Holds(h.segs[i], h.tg, q) && h.tg.head[q].pinuse && q < p {
      ChunkIs(h.tg, q);
      FreeInSegment(h.tg, h.segs, q);
      var k :| 0 <= k < |h.segs| && Holds(h.segs[k], h.tg, q);
      SameSegment(h.tg, h.segs, k, q);
      PositiveSizes(h.tg);
      OneSegment(h.tg, h.segs, i, k, p);
    }
  }

  lemma OneSegment(tg: Tags, segs: seq<Region>, i: nat, k: nat, q: int)
    requires MappedOk(tg, segs) && i < |segs| && k < |segs| && Holds(segs[i], tg, q) && Holds(segs[k], tg, q)
             && tg.head[q].size > 0
    ensures i == k
  {
    assert i < k ==> Off(segs[i], segs[k]);
    assert k < i ==> Off(segs[k], segs[i]);
  }

  /** p with the free chunk before it, if any, and the free chunk behind it, if any, is a run. */
  lemma RunAround(h: Heap, loose: set<int>, a: int, n: int, p: int)
    requires HeapOk(h, loose) && p in h.live && p !in h.tg.directs
    requires (a == p && h.tg.head[p].pinuse) || (PrevFree(h.tg, p, a) && a in loose)
    requires n == Next(h.tg, p)
             || (Next(h.tg, p) in loose && IsFree(h.tg, Next(h.tg, p)) && Next(h.tg, p) != h.tg.top
                 && n == Next(h.tg, Next(h.tg, p)))
    requires forall q {:trigger q in loose} :: q in loose ==> (q == a && q != p) || (q == Next(h.tg, p) && q != n)
    ensures Run(h, loose, a, n, p)
  {
    hide PoolOk;
    hide BinShape;
    hide RegionsOk;
    hide SegmentsOk;
    ChunkIs(h.tg, p);
    ChunkIs(h.tg, a);
    PositiveSizes(h.tg);
    forall q | q in h.tg.head && a <= q < n ensures q == p || (q in loose && IsFree(h.tg, q) && q != h.tg.top) {
      assert Apart(h.tg, a, q) && Apart(h.tg, p, q);
      if q > Next(h.tg, p) { Inside(h.tg, Next(h.tg, p), q); }
    }
  }

  /** Other blocks keep their tags' sizes. */
  ghost predicate SameBlocks(tg: Tags, tg': Tags, live: set<int>) {
    forall q {:trigger q in live} :: q in live ==> q in tg.head && q in tg'.head && tg'.head[q].size == tg.head[q].size
                                                   && (q in tg.directs <==> q in tg'.directs)
  }

  lemma MergeKeeps(h: Heap, loose: set<int>, a: int, n: int, p: int)
    requires HeapOk(h, loose) && Run(h, loose, a, n, p) && IsChunk(h.tg, n)
    ensures SameBlocks(h.tg, MergeRun(h.tg, a, n), h.live - {p})
  {
    hide PoolOk;
    hide BinShape;
    hide RegionsOk;
    hide SegmentsOk;
    hide TagsOk;
    hide MergeRun;
    forall q | q in h.live - {p}
      ensures q in h.tg.head && q in MergeRun(h.tg, a, n).head && MergeRun(h.tg, a, n).head[q].size == h.tg.head[q].size
    {
      assert q in h.tg.head && !(a <= q < n);
      MergedHead(h.tg, a, n, q);
    }
    MergedHead(h.tg, a, n, a);
  }

  lemma MergeTopKeeps(h: Heap, loose: set<int>, a: int, p: int)
    requires HeapOk(h, loose) && Run(h, loose, a, h.tg.top, p)
    ensures SameBlocks(h.tg, MergeTop(h.tg, a), h.live - {p})
  {
    ChunkIsTop(h.tg);
    NextOfRun(h, loose, a, p);
    hide PoolOk;
    hide BinShape;
    hide RegionsOk;
    hide SegmentsOk;
    hide TagsOk;
    hide MergeTop;
    forall q | q in h.live - {p}
      ensures q in h.tg.head && q in MergeTop(h.tg, a).head && MergeTop(h.tg, a).head[q].size == h.tg.head[q].size
    {
      assert q in h.tg.head && !(a <= q < Next(h.tg, h.tg.top));
      MergeTopHead(h.tg, a, q);
    }
    MergeTopHead(h.tg, a, a);
  }
}
