/**
  The allocator's whole invariant: tags, designated victim, bins, live blocks
  and mapped regions; and how the tag operations carry it along.
 */
module AllocInv {
  import opened Arith
  import opened AllocTree
  import opened AllocBins
  import opened AllocPool
  import opened AllocTags

  /** A mapped address range. */
  datatype Region = Region(base: int, end: int)

  datatype Bins = Bins(small: seq<seq<int>>, smallmap: seq<bool>, trees: seq<Tree>, treemap: seq<bool>)

  const ADDRESS_LIMIT: int := 0x8000_0000

  /** A bitmap bit is set just when its bin has something in it. */
  ghost predicate BinShape(b: Bins) {
    && |b.small| == |b.smallmap| == NSMALLBINS
    && (forall i :: 0 <= i < NSMALLBINS ==> b.smallmap[i] == (b.small[i] != []))
    && BinsOk(b.trees) && |b.treemap| == NTREEBINS
    && (forall i :: 0 <= i < NTREEBINS ==> b.treemap[i] == b.trees[i].Node?)
  }

  /** c should be in a bin: it is free, and neither top, nor the designated victim, nor being worked on. */
  ghost predicate Binnable(tg: Tags, dv: int, loose: set<int>, c: Chunk) {
    IsFree(tg, c.at) && tg.head[c.at].size == c.size && c.at != tg.top && c.at != dv && c.at !in loose
  }

  /** The bins hold exactly those chunks, each once. */
  ghost predicate PoolOk(tg: Tags, dv: int, loose: set<int>, b: Bins) {
    forall c {:trigger Pool(b.small, b.trees)[c]} ::
      Pool(b.small, b.trees)[c] == if Binnable(tg, dv, loose, c) then 1 else 0
  }

  ghost predicate DvOk(tg: Tags, dv: int, dvsize: nat) {
    if dvsize == 0 then dv == 0 else IsFree(tg, dv) && dv != tg.top && tg.head[dv].size == dvsize
  }

  /** In-use chunks are the live blocks and the allocator's own records. */
  ghost predicate LiveOk(tg: Tags, live: set<int>) {
    && live !! tg.records
    && (forall p {:trigger p in live} :: p in live ==> IsChunk(tg, p) && tg.head[p].cinuse)
    && (forall p {:trigger IsChunk(tg, p)} :: IsChunk(tg, p) && tg.head[p].cinuse ==> p in live || p in tg.records)
  }

  predicate Holds(r: Region, tg: Tags, q: int) {
    q in tg.head && r.base <= q && Next(tg, q) <= r.end && (q !in tg.fences ==> Next(tg, q) < r.end)
  }

  ghost predicate InSegment(tg: Tags, segs: seq<Region>, q: int) {
    exists i :: 0 <= i < |segs| && Holds(segs[i], tg, q)
  }

  /** q is a directly mapped chunk or the mark behind one. */
  ghost predicate DirectPart(tg: Tags, q: int) {
    q in tg.directs || exists p :: p in tg.directs && p in tg.head && Next(tg, p) == q
  }

  ghost predicate Housed(tg: Tags, segs: seq<Region>, q: int) {
    DirectPart(tg, q) || InSegment(tg, segs, q)
  }

  predicate Off(r: Region, s: Region) {
    r.end <= s.base || s.end <= r.base
  }

  predicate Sane(r: Region) {
    0 < r.base && r.base % 8 == 0 && r.base < r.end <= ADDRESS_LIMIT
  }

  const DIRECT_FOOT_PAD: nat := 32

  /** The mapping a direct chunk came from. */
  function Extent(tg: Tags, p: int): Region
    requires p in tg.head
  {
    Region(p, Next(tg, p) + DIRECT_FOOT_PAD)
  }

  /** Segments and direct mappings are disjoint ranges of the address space. */
  ghost predicate MappedOk(tg: Tags, segs: seq<Region>) {
    && (forall i {:trigger segs[i]} :: 0 <= i < |segs| ==> Sane(segs[i]))
    && (forall i, j {:trigger Off(segs[i], segs[j])} :: 0 <= i < j < |segs| ==> Off(segs[i], segs[j]))
    && (forall p {:trigger p in tg.directs} :: p in tg.directs ==> p in tg.head && Sane(Extent(tg, p)))
    && (forall p, i {:trigger Off(Extent(tg, p), segs[i])} ::
          p in tg.directs && 0 <= i < |segs| ==> Off(Extent(tg, p), segs[i]))
    && (forall p, q {:trigger Off(Extent(tg, p), Extent(tg, q))} ::
          p in tg.directs && q in tg.directs && p != q ==> Off(Extent(tg, p), Extent(tg, q)))
  }

  ghost predicate RegionsOk(tg: Tags, segs: seq<Region>) {
    && MappedOk(tg, segs)
    && (forall q {:trigger Housed(tg, segs, q)} :: q in tg.head ==> Housed(tg, segs, q))
  }

  /** Segments begin with a chunk whose predecessor counts as in use; top's segment ends behind its foot. */
  ghost predicate SegmentsOk(tg: Tags, segs: seq<Region>) {
    && (forall i {:trigger segs[i]} :: 0 <= i < |segs| ==> SegmentStarts(tg, segs[i].base))
    && (exists i :: 0 <= i < |segs| && HoldsTop(tg, segs[i]))
  }

  ghost predicate HoldsTop(tg: Tags, seg: Region) {
    tg.top in tg.head && seg.base <= tg.top && seg.end == Next(tg, tg.top) + TOP_FOOT
  }

  ghost predicate SegmentStarts(tg: Tags, base: int) {
    IsChunk(tg, base) && tg.head[base].pinuse && base !in tg.directs
  }

  datatype Heap = Heap(tg: Tags, dv: int, dvsize: nat, b: Bins, segs: seq<Region>, live: set<int>)

  ghost predicate HeapOk(h: Heap, loose: set<int>) {
    && TagsOk(h.tg)
    && BinShape(h.b) && PoolOk(h.tg, h.dv, loose, h.b)
    && DvOk(h.tg, h.dv, h.dvsize) && h.dv !in loose
    && LiveOk(h.tg, h.live)
    && RegionsOk(h.tg, h.segs)
    && SegmentsOk(h.tg, h.segs)
  }

  // ---------------------------------------------------------------- consequences

  /** The user's part of a chunk: from behind the head to behind the foot word of the next chunk. */
  function BlockStart(p: int): int { p + 16 }

  function BlockEnd(tg: Tags, p: int): int
    requires p in tg.head
  {
    Next(tg, p) + 8
  }

  /** Live blocks are aligned and do not overlap, nor do they overlap the tags of other chunks. */
  lemma LiveBlocksDisjoint(h: Heap, p: int, q: int)
    requires HeapOk(h, {}) && p in h.live && q in h.live && p != q
    ensures p in h.tg.head && q in h.tg.head
    ensures BlockStart(p) % 8 == 0 && BlockEnd(h.tg, p) - BlockStart(p) >= MIN_CHUNK - 8
    ensures BlockEnd(h.tg, p) <= BlockStart(q) || BlockEnd(h.tg, q) <= BlockStart(p)
  {
    assert ChunkOk(h.tg, p) && ChunkOk(h.tg, q);
    assert Apart(h.tg, p, q) && Apart(h.tg, q, p);
  }

  /** No two free chunks are adjacent. */
  lemma NoAdjacentFree(h: Heap, loose: set<int>, p: int)
    requires HeapOk(h, loose) && IsFree(h.tg, p) && p != h.tg.top
    ensures IsChunk(h.tg, Next(h.tg, p)) && h.tg.head[Next(h.tg, p)].cinuse
  {
    AfterFree(h.tg, p);
  }

  /** Addresses and sizes stay below the limit. */
  lemma SizeBound(tg: Tags, segs: seq<Region>, p: int)
    requires TagsOk(tg) && RegionsOk(tg, segs) && p in tg.head
    ensures 0 < p && Next(tg, p) <= ADDRESS_LIMIT && tg.head[p].size < SIZE_LIMIT
  {
    PositiveSizes(tg);
    assert Housed(tg, segs, p);
    if DirectPart(tg, p) {
      var q := if p in tg.directs then p else var q :| q in tg.directs && q in tg.head && Next(tg, q) == p; q;
      DirectMark(tg, q);
    }
  }

  lemma SegmentOffDirect(tg: Tags, segs: seq<Region>, i: nat, p: int, n: int)
    requires MappedOk(tg, segs) && i < |segs| && p in tg.directs && p in tg.head && tg.head[p].size > 0
    requires n == p || n == Next(tg, p)
    ensures n <= segs[i].base || segs[i].end <= n
  {
    assert Off(Extent(tg, p), segs[i]);
  }

  /** A segment that holds a chunk also holds the one behind it. */
  lemma SameSegment(tg: Tags, segs: seq<Region>, i: nat, q: int)
    requires TagsOk(tg) && RegionsOk(tg, segs) && i < |segs| && Holds(segs[i], tg, q) && IsChunk(tg, q)
    ensures Next(tg, q) in tg.head && Holds(segs[i], tg, Next(tg, q))
  {
    assert ChunkOk(tg, q);
    PositiveSizes(tg);
    var n := Next(tg, q);
    assert Housed(tg, segs, n);
    if DirectPart(tg, n) {
      var p := if n in tg.directs then n else var p :| p in tg.directs && p in tg.head && Next(tg, p) == n; p;
      SegmentOffDirect(tg, segs, i, p, n);
    } else {
      var j :| 0 <= j < |segs| && Holds(segs[j], tg, n);
      assert i < j ==> Off(segs[i], segs[j]);
      assert j < i ==> Off(segs[j], segs[i]);
    }
  }

  /** A range off every mapping holds no tags. */
  ghost predicate FreshRegion(tg: Tags, segs: seq<Region>, r: Region) {
    && Sane(r)
    && (forall i {:trigger segs[i]} :: 0 <= i < |segs| ==> Off(r, segs[i]))
    && (forall p {:trigger p in tg.directs} :: p in tg.directs && p in tg.head ==> Off(r, Extent(tg, p)))
  }

  lemma FreshHoldsNothing(tg: Tags, segs: seq<Region>, r: Region)
    requires TagsOk(tg) && RegionsOk(tg, segs) && FreshRegion(tg, segs, r)
    ensures FreshRange(tg, r.base, r.end)
  {
    PositiveSizes(tg);
    forall q | q in tg.head ensures Next(tg, q) <= r.base || r.end <= q {
      assert Housed(tg, segs, q);
      if DirectPart(tg, q) {
        var p := if q in tg.directs then q else var p :| p in tg.directs && p in tg.head && Next(tg, p) == q; p;
        assert Off(r, Extent(tg, p));
        DirectMark(tg, p);
      }
    }
  }

  /** The mark behind a direct chunk lies in its mapping. */
  lemma DirectMark(tg: Tags, p: int)
    requires TagsOk(tg) && p in tg.directs
    ensures p in tg.head && Next(tg, p) in tg.head && Next(tg, Next(tg, p)) <= Next(tg, p) + DIRECT_FOOT_PAD
  {
    assert ChunkOk(tg, p);
  }

  /** Address a lies in the chunk at q. */
  predicate Covers(tg: Tags, q: int, a: int) {
    IsChunk(tg, q) && q <= a < Next(tg, q)
  }

  /** A fence of segment r at or before a. */
  predicate FenceBefore(tg: Tags, r: Region, a: int, f: int) {
    f in tg.fences && f in tg.head && r.base <= f <= a
  }

  /** Chunks tile each segment: from its base up to its first fence every address lies in a chunk. */
  lemma SegmentTiled(h: Heap, loose: set<int>, i: nat, a: int)
    requires HeapOk(h, loose) && i < |h.segs| && h.segs[i].base <= a
    ensures (exists q :: Covers(h.tg, q, a)) || (exists f :: FenceBefore(h.tg, h.segs[i], a, f))
  {
    var base := h.segs[i].base;
    assert SegmentStarts(h.tg, base);
    StartHeld(h, loose, i);
    TiledFrom(h.tg, h.segs, i, base, a);
  }

  /** The first chunk of a segment lies in it. */
  lemma StartHeld(h: Heap, loose: set<int>, i: nat)
    requires HeapOk(h, loose) && i < |h.segs|
    ensures IsChunk(h.tg, h.segs[i].base) && Holds(h.segs[i], h.tg, h.segs[i].base)
  {
    hide PoolOk;
    hide LiveOk;
    hide BinShape;
    var base := h.segs[i].base;
    assert SegmentStarts(h.tg, base);
    PositiveSizes(h.tg);
    hide TagsOk;
    assert Housed(h.tg, h.segs, base);
    if DirectPart(h.tg, base) {
      var p :| p in h.tg.directs && p in h.tg.head && Next(h.tg, p) == base;
      NotBehindDirect(h.tg, p);
    }
    var j :| 0 <= j < |h.segs| && Holds(h.segs[j], h.tg, base);
    assert i < j ==> Off(h.segs[i], h.segs[j]);
    assert j < i ==> Off(h.segs[j], h.segs[i]);
    assert Sane(h.segs[i]);
  }

  lemma NotBehindDirect(tg: Tags, p: int)
    requires TagsOk(tg) && p in tg.directs
    ensures p in tg.head && !IsChunk(tg, Next(tg, p))
  {
  }

  lemma {:induction false} TiledFrom(tg: Tags, segs: seq<Region>, i: nat, q: int, a: int)
    requires TagsOk(tg) && RegionsOk(tg, segs) && i < |segs| && IsChunk(tg, q) && Holds(segs[i], tg, q) && q <= a
    ensures (exists x :: Covers(tg, x, a)) || (exists f :: FenceBefore(tg, segs[i], a, f))
    decreases segs[i].end - q
  {
    var n := Next(tg, q);
    if a < n {
      assert Covers(tg, q, a);
    } else {
      SameSegment(tg, segs, i, q);
      PositiveSizes(tg);
      if n in tg.fences {
        assert FenceBefore(tg, segs[i], a, n);
      } else {
        TiledFrom(tg, segs, i, n, a);
      }
    }
  }
}
