/**
  Boundary tags of the bundled allocator: every chunk records its size and two
  in-use bits in its head; a free chunk also leaves its size in the foot word
  that the following chunk overlays.
 */
module AllocTags {

  const MIN_CHUNK: nat := 32
  const TOP_FOOT: nat := 64

  datatype Head = Head(size: nat, cinuse: bool, pinuse: bool)

  /** The tag words in memory.  `fences` are the marker heads at the end of a segment and behind
      directly mapped chunks, `directs` the chunks that were mapped on their own and `records` the
      in-use chunks the allocator keeps for itself. */
  datatype Tags = Tags(head: map<int, Head>, foot: map<int, int>, top: int, fences: set<int>, directs: set<int>,
                       records: set<int>)

  function Next(tg: Tags, p: int): int
    requires p in tg.head
  {
    p + tg.head[p].size
  }

  predicate IsChunk(tg: Tags, p: int) {
    p in tg.head && p !in tg.fences
  }

  predicate IsFree(tg: Tags, p: int) {
    IsChunk(tg, p) && !tg.head[p].cinuse
  }

  /** A chunk's own tags and those its neighbours keep about it agree. */
  ghost predicate ChunkOk(tg: Tags, p: int)
    requires IsChunk(tg, p)
  {
    var c, n := tg.head[p], Next(tg, p);
    && p > 0 && p % 8 == 0 && c.size % 8 == 0
    && c.size >= (if p == tg.top then 8 else MIN_CHUNK)
    && n in tg.head
    && tg.head[n].pinuse == c.cinuse
    && (n in tg.fences ==> p == tg.top || p in tg.directs || p in tg.records)
    && (!c.cinuse
        ==> c.pinuse && p !in tg.directs && p !in tg.records && (p != tg.top ==> n in tg.foot && tg.foot[n] == c.size))
    && (!c.pinuse ==>
          && p in tg.foot
          && (p in tg.directs ==> tg.foot[p] % 2 == 1)
          && (p !in tg.directs ==> tg.foot[p] % 2 == 0 && PrevFree(tg, p, p - tg.foot[p])))
  }

  /** q is the free chunk right before p. */
  predicate PrevFree(tg: Tags, p: int, q: int) {
    IsFree(tg, q) && q != tg.top && Next(tg, q) == p
  }

  ghost predicate Apart(tg: Tags, p: int, q: int)
    requires p in tg.head && q in tg.head
  {
    p < q ==> Next(tg, p) <= q
  }

  ghost predicate TopOk(tg: Tags) {
    && IsFree(tg, tg.top)
    && Next(tg, tg.top) in tg.fences && Next(tg, tg.top) in tg.head
    && tg.head[Next(tg, tg.top)] == Head(TOP_FOOT, false, false)
  }

  ghost predicate DirectOk(tg: Tags, p: int) {
    && IsChunk(tg, p) && tg.head[p].cinuse && !tg.head[p].pinuse && p !in tg.records && p != tg.top
    && Next(tg, p) in tg.fences && Next(tg, p) in tg.head && tg.head[Next(tg, p)] == Head(8, true, true)
  }

  ghost predicate TagsOk(tg: Tags) {
    && (forall p {:trigger ChunkOk(tg, p)} :: IsChunk(tg, p) ==> ChunkOk(tg, p))
    && (forall p, q {:trigger Apart(tg, p, q)} :: p in tg.head && q in tg.head ==> Apart(tg, p, q))
    && (forall p {:trigger p in tg.fences} :: p in tg.fences ==> p in tg.head && tg.head[p].size > 0)
    && TopOk(tg)
    && (forall p {:trigger p in tg.records} :: p in tg.records ==> IsChunk(tg, p) && tg.head[p].cinuse)
    && (forall p {:trigger p in tg.directs} :: p in tg.directs ==> DirectOk(tg, p))
  }

  /** Chunks are disjoint, so the chunk that ends at an address is unique. */
  lemma SameEnd(tg: Tags, p: int, q: int)
    requires TagsOk(tg) && IsChunk(tg, p) && IsChunk(tg, q) && Next(tg, p) == Next(tg, q)
    ensures p == q
  {
    assert ChunkOk(tg, p) && ChunkOk(tg, q);
    assert Apart(tg, p, q) && Apart(tg, q, p);
  }

  /** The chunk behind an in-use chunk is top, an ordinary chunk, or an in-use fence. */
  lemma NextOfInUse(tg: Tags, p: int)
    requires TagsOk(tg) && IsChunk(tg, p) && p != tg.top
    ensures Next(tg, p) in tg.head
    ensures Next(tg, p) != Next(tg, tg.top)
  {
    assert ChunkOk(tg, p);
    if Next(tg, p) == Next(tg, tg.top) { SameEnd(tg, p, tg.top); }
  }

  // ---------------------------------------------------------------- taking a free chunk

  /** set_inuse_and_pinuse on a whole free chunk. */
  function Occupy(tg: Tags, p: int): Tags
    requires p in tg.head && Next(tg, p) in tg.head
  {
    var n := Next(tg, p);
    tg.(head := tg.head[p := Head(tg.head[p].size, true, true)][n := tg.head[n].(pinuse := true)])
  }

  /** The chunk behind a free chunk other than top is an ordinary in-use chunk. */
  lemma AfterFree(tg: Tags, p: int)
    requires TagsOk(tg) && IsFree(tg, p) && p != tg.top
    ensures var n := Next(tg, p);
            && IsChunk(tg, n) && tg.head[n].cinuse && !tg.head[n].pinuse && n != tg.top && n !in tg.directs
            && n in tg.foot && tg.foot[n] == tg.head[p].size
  {
    assert ChunkOk(tg, p);
    assert ChunkOk(tg, Next(tg, p));
  }

  lemma OccupyOk(tg: Tags, p: int)
    requires TagsOk(tg) && IsFree(tg, p) && p != tg.top
    ensures Next(tg, p) in tg.head && TagsOk(Occupy(tg, p))
  {
    assert ChunkOk(tg, p);
    AfterFree(tg, p);
    var tg' := Occupy(tg, p);
    var n := Next(tg, p);
    forall q | IsChunk(tg', q) ensures ChunkOk(tg', q) {
      assert ChunkOk(tg, q);
      if q != p && Next(tg, q) == n { SameEnd(tg, p, q); }
    }
    forall q, r | q in tg'.head && r in tg'.head ensures Apart(tg', q, r) {
      assert Apart(tg, q, r);
    }
  }

  /** A free chunk is split: the first nb bytes are taken, the rest stays free. */
  function SplitFree(tg: Tags, p: int, nb: nat): Tags
    requires p in tg.head && nb <= tg.head[p].size
  {
    var rest := tg.head[p].size - nb;
    tg.(head := tg.head[p := Head(nb, true, true)][p + nb := Head(rest, false, true)],
        foot := tg.foot[Next(tg, p) := rest])
  }

  lemma SplitFreeNew(tg: Tags, p: int, nb: nat)
    requires TagsOk(tg) && IsFree(tg, p) && p != tg.top
    requires nb % 8 == 0 && MIN_CHUNK <= nb && nb + MIN_CHUNK <= tg.head[p].size
    ensures var tg' := SplitFree(tg, p, nb);
            IsChunk(tg', p) && IsChunk(tg', p + nb) && ChunkOk(tg', p) && ChunkOk(tg', p + nb)
  {
    hide TagsOk;
    ChunkIs(tg, p);
    AfterFree(tg, p);
    Inside(tg, p, p + nb);
    Unlisted(tg, p + nb);
  }

  lemma SplitFreeAfter(tg: Tags, p: int, nb: nat)
    requires TagsOk(tg) && IsFree(tg, p) && p != tg.top
    requires nb % 8 == 0 && MIN_CHUNK <= nb && nb + MIN_CHUNK <= tg.head[p].size
    ensures var tg' := SplitFree(tg, p, nb);
            IsChunk(tg', Next(tg, p)) && ChunkOk(tg', Next(tg, p))
  {
    hide TagsOk;
    ChunkIs(tg, p);
    AfterFree(tg, p);
    ChunkIs(tg, Next(tg, p));
    Inside(tg, p, p + nb);
    Unlisted(tg, p + nb);
  }

  lemma SplitFreeOther(tg: Tags, p: int, nb: nat, q: int)
    requires TagsOk(tg) && IsFree(tg, p) && p != tg.top
    requires nb % 8 == 0 && MIN_CHUNK <= nb && nb + MIN_CHUNK <= tg.head[p].size
    requires IsChunk(tg, q) && q != p && q != Next(tg, p)
    ensures IsChunk(SplitFree(tg, p, nb), q) && ChunkOk(SplitFree(tg, p, nb), q)
  {
    hide TagsOk;
    ChunkIs(tg, p);
    ChunkIs(tg, q);
    AfterFree(tg, p);
    Inside(tg, p, p + nb);
    if Next(tg, q) == Next(tg, p) { SameEnd(tg, p, q); }
  }

  lemma ChunkIs(tg: Tags, p: int)
    requires TagsOk(tg) && IsChunk(tg, p)
    ensures ChunkOk(tg, p)
  {
    hide ChunkOk;
  }

  lemma Unlisted(tg: Tags, r: int)
    requires TagsOk(tg) && r !in tg.head
    ensures r !in tg.fences && r !in tg.directs && r !in tg.records && r != tg.top
  {
    hide ChunkOk;
  }

  lemma SplitFreeOk(tg: Tags, p: int, nb: nat)
    requires TagsOk(tg) && IsFree(tg, p) && p != tg.top
    requires nb % 8 == 0 && MIN_CHUNK <= nb && nb + MIN_CHUNK <= tg.head[p].size
    ensures TagsOk(SplitFree(tg, p, nb)) && p + nb !in tg.head
  {
    var tg' := SplitFree(tg, p, nb);
    var n, r := Next(tg, p), p + nb;
    AfterFree(tg, p);
    Inside(tg, p, r);
    hide ChunkOk;
    SplitFreeNew(tg, p, nb);
    SplitFreeAfter(tg, p, nb);
    forall q | IsChunk(tg', q) ensures ChunkOk(tg', q) {
      if q != p && q != r && q != n { SplitFreeOther(tg, p, nb, q); }
    }
    forall x, y | x in tg'.head && y in tg'.head ensures Apart(tg', x, y) {
      if x != r && y != r { assert Apart(tg, x, y); }
      if y != r { assert Apart(tg, p, y); }
      if x != r { assert Apart(tg, x, p) && Apart(tg, x, n) && Apart(tg, p, x); }
    }
  }

  /** No chunk starts in the middle of another. */
  lemma Inside(tg: Tags, p: int, r: int)
    requires TagsOk(tg) && p in tg.head && p < r < Next(tg, p)
    ensures r !in tg.head
  {
    assert r in tg.head ==> Apart(tg, p, r);
  }

  /** Top gives nb bytes from its start. */
  function SplitTop(tg: Tags, nb: nat): Tags
    requires tg.top in tg.head && nb <= tg.head[tg.top].size
  {
    tg.(head := tg.head[tg.top := Head(nb, true, true)][tg.top + nb := Head(tg.head[tg.top].size - nb, false, true)],
        top := tg.top + nb)
  }

  lemma SplitTopOk(tg: Tags, nb: nat)
    requires TagsOk(tg) && nb % 8 == 0 && MIN_CHUNK <= nb < tg.head[tg.top].size
    ensures TagsOk(SplitTop(tg, nb)) && tg.top + nb !in tg.head
  {
    assert ChunkOk(tg, tg.top);
    var p := tg.top;
    var tg' := SplitTop(tg, nb);
    var n, r := Next(tg, p), p + nb;
    Inside(tg, p, r);
    forall q | IsChunk(tg', q) ensures ChunkOk(tg', q) {
      if q != p && q != r {
        assert ChunkOk(tg, q);
        NextOfInUse(tg, q);
        assert Next(tg, q) in tg.head;
      }
    }
    forall x, y | x in tg'.head && y in tg'.head ensures Apart(tg', x, y) {
      if x != r && y != r { assert Apart(tg, x, y); }
      if y != r { assert Apart(tg, p, y); }
      if x != r { assert Apart(tg, x, p) && Apart(tg, x, n) && Apart(tg, p, x); }
    }
  }

  // ---------------------------------------------------------------- resizing a chunk in use

  /** An in-use chunk is split in two. */
  function SplitUsed(tg: Tags, p: int, nb: nat): Tags
    requires p in tg.head && nb <= tg.head[p].size
  {
    tg.(head := tg.head[p := tg.head[p].(size := nb)][p + nb := Head(tg.head[p].size - nb, true, true)])
  }

  ghost predicate Resizable(tg: Tags, p: int) {
    TagsOk(tg) && IsChunk(tg, p) && tg.head[p].cinuse && p !in tg.directs && p !in tg.records
  }

  lemma SplitUsedOk(tg: Tags, p: int, nb: nat)
    requires Resizable(tg, p) && nb % 8 == 0 && MIN_CHUNK <= nb && nb + MIN_CHUNK <= tg.head[p].size
    ensures TagsOk(SplitUsed(tg, p, nb)) && p + nb !in tg.head
  {
    var tg' := SplitUsed(tg, p, nb);
    var n, r := Next(tg, p), p + nb;
    ChunkIs(tg, p);
    Inside(tg, p, r);
    Unlisted(tg, r);
    hide ChunkOk;
    forall q | IsChunk(tg', q) ensures ChunkOk(tg', q) { SplitUsedChunk(tg, p, nb, q); }
    forall x, y | x in tg'.head && y in tg'.head ensures Apart(tg', x, y) {
      if x != r && y != r { assert Apart(tg, x, y); }
      if y != r { assert Apart(tg, p, y); }
      if x != r { assert Apart(tg, x, p) && Apart(tg, p, x) && (n in tg.head ==> Apart(tg, x, n)); }
    }
  }

  lemma SplitUsedChunk(tg: Tags, p: int, nb: nat, q: int)
    requires Resizable(tg, p) && nb % 8 == 0 && MIN_CHUNK <= nb && nb + MIN_CHUNK <= tg.head[p].size
    requires IsChunk(SplitUsed(tg, p, nb), q)
    ensures ChunkOk(SplitUsed(tg, p, nb), q)
  {
    ChunkIs(tg, p);
    Inside(tg, p, p + nb);
    Unlisted(tg, p + nb);
    ChunkIsTopFree(tg);
    if q != p && q != p + nb { ChunkIs(tg, q); }
    hide TagsOk;
  }

  lemma ChunkIsTopFree(tg: Tags)
    requires TagsOk(tg)
    ensures IsFree(tg, tg.top)
  {
    hide ChunkOk;
  }

  /** The chunk in front of top takes some of it. */
  function GrowIntoTop(tg: Tags, p: int, nb: nat): Tags
    requires p in tg.head && tg.top in tg.head
  {
    var rest := tg.head[p].size + tg.head[tg.top].size - nb;
    tg.(head := (tg.head - {tg.top})[p := tg.head[p].(size := nb)][p
                                                                   + nb := Head(if rest > 0 then rest else 0, false,
                                                                                true)], top := p + nb)
  }

  ghost predicate GrowPre(tg: Tags, p: int, nb: nat) {
    && Resizable(tg, p) && nb % 8 == 0 && Next(tg, p) == tg.top && tg.top in tg.head
    && tg.head[p].size < nb < tg.head[p].size + tg.head[tg.top].size
  }

  lemma GrowIntoTopNew(tg: Tags, p: int, nb: nat, q: int)
    requires GrowPre(tg, p, nb) && (q == p || q == p + nb)
    ensures IsChunk(GrowIntoTop(tg, p, nb), q) && ChunkOk(GrowIntoTop(tg, p, nb), q)
  {
    ChunkIs(tg, p);
    ChunkIsTopFree(tg);
    ChunkIs(tg, tg.top);
    Inside(tg, tg.top, p + nb);
    Unlisted(tg, p + nb);
    hide TagsOk;
  }

  lemma GrowIntoTopChunk(tg: Tags, p: int, nb: nat, q: int)
    requires GrowPre(tg, p, nb) && IsChunk(tg, q) && q != p && q != tg.top && p + nb !in tg.head
    ensures IsChunk(GrowIntoTop(tg, p, nb), q) && ChunkOk(GrowIntoTop(tg, p, nb), q)
  {
    ChunkIs(tg, q);
    NextOfInUse(tg, q);
    if Next(tg, q) == tg.top { SameEnd(tg, p, q); }
    Unlisted(tg, p + nb);
    hide TagsOk;
  }

  lemma GrowIntoTopOk(tg: Tags, p: int, nb: nat)
    requires GrowPre(tg, p, nb)
    ensures TagsOk(GrowIntoTop(tg, p, nb)) && p + nb !in tg.head
  {
    var tg' := GrowIntoTop(tg, p, nb);
    var top, n, r := tg.top, Next(tg, tg.top), p + nb;
    ChunkIs(tg, p);
    ChunkIsTopFree(tg);
    Inside(tg, top, r);
    Unlisted(tg, r);
    PositiveSizes(tg);
    hide ChunkOk;
    forall q | IsChunk(tg', q) ensures ChunkOk(tg', q) {
      if q == p || q == r { GrowIntoTopNew(tg, p, nb, q); } else { GrowIntoTopChunk(tg, p, nb, q); }
    }
    forall x, y | x in tg'.head && y in tg'.head ensures Apart(tg', x, y) {
      if x != r && y != r { assert Apart(tg, x, y); }
      if y != r { assert Apart(tg, top, y) && Apart(tg, p, y); }
      if x != r { assert Apart(tg, x, p) && Apart(tg, p, x) && Apart(tg, top, x); }
    }
    GrowIntoTopSets(tg, p, nb);
  }

  lemma GrowIntoTopSets(tg: Tags, p: int, nb: nat)
    requires GrowPre(tg, p, nb) && p + nb !in tg.head
    ensures var tg' := GrowIntoTop(tg, p, nb);
            && (forall q {:trigger q in tg'.fences} :: q in tg'.fences ==> q in tg'.head && tg'.head[q].size > 0)
            && TopOk(tg')
            && (forall q {:trigger q in tg'.records} :: q in tg'.records ==> IsChunk(tg', q) && tg'.head[q].cinuse)
            && (forall q {:trigger q in tg'.directs} :: q in tg'.directs ==> DirectOk(tg', q))
  {
    var tg' := GrowIntoTop(tg, p, nb);
    ChunkIsTopFree(tg);
    Unlisted(tg, p + nb);
    PositiveSizes(tg);
    hide ChunkOk;
    forall q | q in tg'.directs ensures DirectOk(tg', q) {
      assert DirectOk(tg, q);
      assert Next(tg, q) != tg.top;
    }
  }

  // ---------------------------------------------------------------- giving a chunk back

  /** The chunks from a up to n become one free chunk. */
  function MergeRun(tg: Tags, a: int, n: int): Tags
    requires n in tg.head && a < n
  {
    var outside := map q | q in tg.head && !(a < q < n) :: tg.head[q];
    tg.(head := outside[a := Head(n - a, false, true)][n := tg.head[n].(pinuse := false)], foot := tg.foot[n := n - a])
  }

  /** The inner chunks of a run are ordinary ones. */
  ghost predicate PlainRun(tg: Tags, a: int, n: int) {
    && IsChunk(tg, a) && tg.head[a].pinuse && a !in tg.directs && a !in tg.records && a < n
    && (forall q :: q in tg.head && a < q < n ==> q !in tg.fences && q !in tg.directs && q !in tg.records)
  }

  lemma MergedHead(tg: Tags, a: int, n: int, q: int)
    requires n in tg.head && a in tg.head && a < n
    ensures var tg' := MergeRun(tg, a, n);
            && (q in tg'.head <==> q in tg.head && !(a < q < n))
            && (q == a ==> tg'.head[q] == Head(n - a, false, true))
            && (q == n ==> tg'.head[q] == tg.head[n].(pinuse := false))
            && (q in tg'.head && q != a && q != n ==> tg'.head[q] == tg.head[q])
            && tg'.foot == tg.foot[n := n - a]
            && tg'.top == tg.top && tg'.fences == tg.fences && tg'.directs == tg.directs && tg'.records == tg.records
  {
  }

  ghost predicate MergeRunPre(tg: Tags, a: int, n: int) {
    && TagsOk(tg) && PlainRun(tg, a, n) && n - a >= MIN_CHUNK
    && IsChunk(tg, n) && tg.head[n].cinuse && n !in tg.directs && !(a <= tg.top < n)
  }

  lemma MergeRunEnds(tg: Tags, a: int, n: int, q: int)
    requires MergeRunPre(tg, a, n) && (q == a || q == n)
    ensures IsChunk(MergeRun(tg, a, n), q) && ChunkOk(MergeRun(tg, a, n), q)
  {
    hide MergeRun;
    MergedHead(tg, a, n, a);
    MergedHead(tg, a, n, n);
    assert Apart(tg, n, a);
    ChunkIs(tg, a);
    ChunkIs(tg, n);
    hide TagsOk;
    MergedHead(tg, a, n, Next(tg, n));
  }

  lemma MergeRunChunk(tg: Tags, a: int, n: int, q: int)
    requires MergeRunPre(tg, a, n) && IsChunk(MergeRun(tg, a, n), q) && q != a && q != n
    ensures ChunkOk(MergeRun(tg, a, n), q)
  {
    hide MergeRun;
    MergedHead(tg, a, n, q);
    MergedHead(tg, a, n, a);
    MergedHead(tg, a, n, n);
    ChunkIs(tg, q);
    assert Apart(tg, q, a) && Apart(tg, q, n) && Apart(tg, n, q);
    MergedHead(tg, a, n, Next(tg, q));
    if !tg.head[q].pinuse && q !in tg.directs {
      var e := q - tg.foot[q];
      ChunkIs(tg, e);
      assert Apart(tg, e, n) && Apart(tg, a, e);
      MergedHead(tg, a, n, e);
    }
    hide TagsOk;
  }

  lemma MergeRunOk(tg: Tags, a: int, n: int)
    requires TagsOk(tg) && PlainRun(tg, a, n) && n - a >= MIN_CHUNK
    requires IsChunk(tg, n) && tg.head[n].cinuse && n !in tg.directs
    requires !(a <= tg.top < n)
    ensures TagsOk(MergeRun(tg, a, n))
  {
    hide ChunkOk;
    var tg' := MergeRun(tg, a, n);
    forall q | IsChunk(tg', q) ensures ChunkOk(tg', q) {
      if q == a || q == n { MergeRunEnds(tg, a, n, q); } else { MergeRunChunk(tg, a, n, q); }
    }
    forall x, y | x in tg'.head && y in tg'.head ensures Apart(tg', x, y) {
      assert Apart(tg, x, y) && Apart(tg, n, y) && Apart(tg, x, a);
    }
    assert Apart(tg, tg.top, a) && Apart(tg, n, tg.top);
    assert Apart(tg, Next(tg, tg.top), a) && Apart(tg, a, Next(tg, tg.top));
  }

  /** The chunks from a on become part of top. */
  function MergeTop(tg: Tags, a: int): Tags
    requires tg.top in tg.head
  {
    var n := Next(tg, tg.top);
    var outside := map q | q in tg.head && !(a < q < n) :: tg.head[q];
    tg.(head := outside[a := Head(if n > a then n - a else 0, false, true)], top := a)
  }

  lemma MergeTopHead(tg: Tags, a: int, q: int)
    requires tg.top in tg.head && a in tg.head && a < Next(tg, tg.top)
    ensures var tg' := MergeTop(tg, a);
            var n := Next(tg, tg.top);
            && (q in tg'.head <==> q in tg.head && !(a < q < n))
            && (q == a ==> tg'.head[q] == Head(n - a, false, true))
            && (q in tg'.head && q != a ==> tg'.head[q] == tg.head[q])
            && tg'.foot == tg.foot && tg'.top == a
            && tg'.fences == tg.fences && tg'.directs == tg.directs && tg'.records == tg.records
  {
  }

  lemma MergeTopChunk(tg: Tags, a: int, q: int)
    requires TagsOk(tg) && PlainRun(tg, a, Next(tg, tg.top)) && a <= tg.top
    requires IsChunk(MergeTop(tg, a), q)
    ensures ChunkOk(MergeTop(tg, a), q)
  {
    hide MergeTop;
    var n := Next(tg, tg.top);
    MergeTopHead(tg, a, q);
    MergeTopHead(tg, a, a);
    MergeTopHead(tg, a, n);
    assert ChunkOk(tg, a) && ChunkOk(tg, tg.top);
    if q != a {
      assert ChunkOk(tg, q);
      assert Apart(tg, q, a) && Apart(tg, q, n) && Apart(tg, n, q);
      MergeTopHead(tg, a, Next(tg, q));
      if !tg.head[q].pinuse && q !in tg.directs {
        var e := q - tg.foot[q];
        assert ChunkOk(tg, e);
        assert Apart(tg, e, n) && Apart(tg, a, e);
        MergeTopHead(tg, a, e);
      }
    }
  }

  lemma MergeTopOk(tg: Tags, a: int)
    requires TagsOk(tg) && PlainRun(tg, a, Next(tg, tg.top)) && a <= tg.top
    ensures TagsOk(MergeTop(tg, a))
  {
    hide ChunkOk;
    var n := Next(tg, tg.top);
    var tg' := MergeTop(tg, a);
    forall q | IsChunk(tg', q) ensures ChunkOk(tg', q) { MergeTopChunk(tg, a, q); }
    forall x, y | x in tg'.head && y in tg'.head ensures Apart(tg', x, y) {
      assert Apart(tg, x, y) && Apart(tg, n, y) && Apart(tg, x, a);
    }
  }

  // ---------------------------------------------------------------- new memory

  /** No tag word lives in [lo, hi). */
  ghost predicate FreshRange(tg: Tags, lo: int, hi: int) {
    forall q :: q in tg.head ==> Next(tg, q) <= lo || hi <= q
  }

  /** Two in-use chunks in front of the first chunk of a segment. */
  function AddTwo(tg: Tags, p: int, nb: nat, qsize: nat): Tags {
    tg.(head := tg.head[p := Head(nb, true, true)][p + nb := Head(qsize, true, true)])
  }

  lemma AddTwoOk(tg: Tags, p: int, nb: nat, qsize: nat)
    requires TagsOk(tg) && p > 0 && p % 8 == 0 && nb % 8 == 0 && qsize % 8 == 0 && nb >= MIN_CHUNK && qsize >= MIN_CHUNK
    requires FreshRange(tg, p, p + nb + qsize)
    requires IsChunk(tg, p + nb + qsize) && tg.head[p + nb + qsize].pinuse
    ensures TagsOk(AddTwo(tg, p, nb, qsize)) && p !in tg.head && p + nb !in tg.head
  {
    var tg' := AddTwo(tg, p, nb, qsize);
    var r := p + nb;
    assert p !in tg.head && r !in tg.head by {
      assert forall x :: x in tg.head ==> tg.head[x].size > 0 by { PositiveSizes(tg); }
    }
    forall x | IsChunk(tg', x) ensures ChunkOk(tg', x) {
      if x != p && x != r {
        assert ChunkOk(tg, x);
        assert Next(tg, x) in tg.head;
      }
    }
    forall x, y | x in tg'.head && y in tg'.head ensures Apart(tg', x, y) {
      if x in tg.head && y in tg.head { assert Apart(tg, x, y); }
    }
  }

  lemma PositiveSizes(tg: Tags)
    requires TagsOk(tg)
    ensures forall x :: x in tg.head ==> tg.head[x].size > 0
  {
    forall x | x in tg.head ensures tg.head[x].size > 0 {
      if x in tg.fences { } else { assert ChunkOk(tg, x); }
    }
  }

  /** New memory right behind top's segment becomes part of top. */
  function ExtendTop(tg: Tags, d: nat): Tags
    requires tg.top in tg.head
  {
    var n := Next(tg, tg.top);
    tg.(head := (tg.head - {n})[tg.top := Head(tg.head[tg.top].size + d, false, true)][n
                                                                                       + d := Head(TOP_FOOT, false,
                                                                                                   false)],
        fences := tg.fences - {n} + {n + d})
  }

  lemma ExtendTopOk(tg: Tags, d: nat)
    requires TagsOk(tg) && d % 8 == 0 && d > 0
    requires FreshRange(tg, Next(tg, tg.top) + TOP_FOOT, Next(tg, tg.top) + TOP_FOOT + d)
    ensures TagsOk(ExtendTop(tg, d))
  {
    var tg' := ExtendTop(tg, d);
    var top, n := tg.top, Next(tg, tg.top);
    assert ChunkOk(tg, top);
    PositiveSizes(tg);
    assert forall x :: x in tg.head && x > n ==> x >= n + TOP_FOOT + d by {
      forall x | x in tg.head && x > n ensures x >= n + TOP_FOOT + d { assert Apart(tg, n, x); }
    }
    forall x | IsChunk(tg', x) ensures ChunkOk(tg', x) {
      assert ChunkOk(tg, x);
      if x != top { NextOfInUse(tg, x); }
    }
    forall x, y | x in tg'.head && y in tg'.head ensures Apart(tg', x, y) {
      if x in tg.head && y in tg.head { assert Apart(tg, x, y); }
      if x in tg.head { assert Apart(tg, x, n); }
      if y in tg.head { assert Apart(tg, top, y); }
    }
  }

  /** The markers behind a segment record at sp, up to the end of the old segment. */
  function FencePosts(sp: int, end: int): set<int> {
    set x | sp + 32 <= x <= end - 16 && WordFrom(sp, x)
  }

  predicate WordFrom(sp: int, x: int) {
    (x - sp) % 8 == 0
  }

  /** Where the record of the old segment goes: into the space kept behind top, or into a top too
      small to be a chunk. */
  function RecordPlace(tg: Tags): int
    requires tg.top in tg.head
  {
    if tg.head[tg.top].size < MIN_CHUNK then tg.top else Next(tg, tg.top)
  }

  /** A new segment: the old top is sealed off behind a segment record and markers, and top moves. */
  function NewTop(tg: Tags, base: int, size: nat): Tags
    requires tg.top in tg.head
  {
    var n := Next(tg, tg.top);
    var sp := RecordPlace(tg);
    var posts := FencePosts(sp, n + TOP_FOOT);
    var sealed := (tg.head - {n}) + (map x | x in posts :: Head(8, true, true));
    tg.(head := sealed[sp := Head(32, true, sp == tg.top)]
                      [base := Head(size, false, true)][base + size := Head(TOP_FOOT, false, false)],
        foot := if sp == tg.top then tg.foot else tg.foot[n := tg.head[tg.top].size],
        top := base, fences := tg.fences - {n} + posts + {base + size}, records := tg.records + {sp})
  }

  lemma NewTopHead(tg: Tags, base: int, size: nat, q: int)
    requires TagsOk(tg) && size > 0
    requires FreshRange(tg, base, base + size + TOP_FOOT)
    ensures var tg' := NewTop(tg, base, size);
            var n := Next(tg, tg.top);
            var sp := RecordPlace(tg);
            var posts := FencePosts(sp, n + TOP_FOOT);
            && (q in tg'.head <==> (q in tg.head && q != n) || q in posts || q == sp || q == base || q == base + size)
            && (q == base ==> tg'.head[q] == Head(size, false, true))
            && (q == base + size ==> tg'.head[q] == Head(TOP_FOOT, false, false))
            && (q == sp && q != base && q != base + size ==> tg'.head[q] == Head(32, true, sp == tg.top))
            && (q in posts && q != base && q != base + size && q != sp ==> tg'.head[q] == Head(8, true, true))
            && (q in tg.head && q != n && q !in posts && q != base && q != base + size && q != sp
                ==> tg'.head[q] == tg.head[q])
  {
  }

  /** Only top and the mark behind it lie in the last part of top's segment. */
  lemma TailOfSegment(tg: Tags, q: int)
    requires TagsOk(tg) && q in tg.head
    ensures q <= tg.top || q == Next(tg, tg.top) || q >= Next(tg, tg.top) + TOP_FOOT
    ensures q < tg.top ==> Next(tg, q) <= tg.top
  {
    var n := Next(tg, tg.top);
    assert Apart(tg, tg.top, q) && Apart(tg, n, q) && Apart(tg, q, tg.top);
  }

  lemma DirectsAreChunks(tg: Tags)
    requires TagsOk(tg)
    ensures tg.top !in tg.directs && forall p :: p in tg.directs ==> p in tg.head && p !in tg.fences
  {
    hide ChunkOk;
  }

  lemma NewTopChunk(tg: Tags, base: int, size: nat, q: int)
    requires TagsOk(tg) && size >= 8 && size % 8 == 0 && base > 0 && base % 8 == 0
    requires FreshRange(tg, base, base + size + TOP_FOOT)
    requires base + size + TOP_FOOT <= tg.top || Next(tg, tg.top) + TOP_FOOT <= base
    requires IsChunk(NewTop(tg, base, size), q)
    ensures ChunkOk(NewTop(tg, base, size), q)
  {
    hide NewTop;
    hide FencePosts;
    DirectsAreChunks(tg);
    hide DirectOk;
    var tg' := NewTop(tg, base, size);
    var top, n, sp := tg.top, Next(tg, tg.top), RecordPlace(tg);
    PositiveSizes(tg);
    NewTopHead(tg, base, size, q);
    NewTopRest(tg, base, size);
    assert ChunkOk(tg, top);
    if q == base {
      NewTopHead(tg, base, size, base + size);
    } else if q == sp {
      InPosts(sp, n + TOP_FOOT, sp + 32);
      NewTopHead(tg, base, size, sp + 32);
      NewTopHead(tg, base, size, top);
      InPosts(sp, n + TOP_FOOT, top);
      assert n !in tg.directs && top !in tg.directs;
    } else {
      NewTopOldChunk(tg, base, size, q);
    }
  }

  lemma NewTopOldChunk(tg: Tags, base: int, size: nat, q: int)
    requires TagsOk(tg) && size >= 8 && size % 8 == 0 && base > 0 && base % 8 == 0
    requires FreshRange(tg, base, base + size + TOP_FOOT)
    requires base + size + TOP_FOOT <= tg.top || Next(tg, tg.top) + TOP_FOOT <= base
    requires IsChunk(NewTop(tg, base, size), q) && q != base && q != RecordPlace(tg)
    ensures ChunkOk(NewTop(tg, base, size), q)
  {
    hide NewTop;
    hide FencePosts;
    DirectsAreChunks(tg);
    hide DirectOk;
    var top, n, sp := tg.top, Next(tg, tg.top), RecordPlace(tg);
    PositiveSizes(tg);
    NewTopHead(tg, base, size, q);
    NewTopRest(tg, base, size);
    assert ChunkOk(tg, top);
    TailOfSegment(tg, q);
    assert ChunkOk(tg, q);
    InPosts(sp, n + TOP_FOOT, q);
    InPosts(sp, n + TOP_FOOT, Next(tg, q));
    if q != top { NextOfInUse(tg, q); TailOfSegment(tg, Next(tg, q)); }
    NewTopHead(tg, base, size, Next(tg, q));
    if !tg.head[q].pinuse && q !in tg.directs {
      var e := q - tg.foot[q];
      TailOfSegment(tg, e);
      InPosts(sp, n + TOP_FOOT, e);
      NewTopHead(tg, base, size, e);
    }
  }

  lemma InPosts(sp: int, end: int, x: int)
    ensures x in FencePosts(sp, end) <==> sp + 32 <= x <= end - 16 && (x - sp) % 8 == 0
  {
    assert WordFrom(sp, x) <==> (x - sp) % 8 == 0;
  }

  lemma NewTopRest(tg: Tags, base: int, size: nat)
    requires tg.top in tg.head
    ensures var tg' := NewTop(tg, base, size);
            var n := Next(tg, tg.top);
            var sp := RecordPlace(tg);
            && tg'.foot == (if sp == tg.top then tg.foot else tg.foot[n := tg.head[tg.top].size])
            && tg'.top == base && tg'.directs == tg.directs && tg'.records == tg.records + {sp}
            && tg'.fences == tg.fences - {n} + FencePosts(sp, n + TOP_FOOT) + {base + size}
  {
  }

  lemma NewTopApart(tg: Tags, base: int, size: nat, x: int, y: int)
    requires TagsOk(tg) && size >= 8
    requires FreshRange(tg, base, base + size + TOP_FOOT)
    requires base + size + TOP_FOOT <= tg.top || Next(tg, tg.top) + TOP_FOOT <= base
    requires x in NewTop(tg, base, size).head && y in NewTop(tg, base, size).head
    ensures Apart(NewTop(tg, base, size), x, y)
  {
    hide NewTop;
    hide FencePosts;
    var top, n, sp := tg.top, Next(tg, tg.top), RecordPlace(tg);
    PositiveSizes(tg);
    NewTopHead(tg, base, size, x);
    NewTopHead(tg, base, size, y);
    InPosts(sp, n + TOP_FOOT, x);
    InPosts(sp, n + TOP_FOOT, y);
    if x in tg.head { TailOfSegment(tg, x); }
    if y in tg.head { TailOfSegment(tg, y); }
    if x in tg.head && y in tg.head { assert Apart(tg, x, y); }
  }

  lemma NewTopOk(tg: Tags, base: int, size: nat)
    requires TagsOk(tg) && size >= 8 && size % 8 == 0 && base > 0 && base % 8 == 0
    requires FreshRange(tg, base, base + size + TOP_FOOT)
    requires base + size + TOP_FOOT <= tg.top || Next(tg, tg.top) + TOP_FOOT <= base
    ensures TagsOk(NewTop(tg, base, size))
  {
    hide ChunkOk;
    hide Apart;
    var tg' := NewTop(tg, base, size);
    forall q | IsChunk(tg', q) ensures ChunkOk(tg', q) { NewTopChunk(tg, base, size, q); }
    forall x, y | x in tg'.head && y in tg'.head ensures Apart(tg', x, y) { NewTopApart(tg, base, size, x, y); }
    NewTopSets(tg, base, size);
  }

  lemma NewTopSets(tg: Tags, base: int, size: nat)
    requires TagsOk(tg) && size >= 8
    requires FreshRange(tg, base, base + size + TOP_FOOT)
    requires base + size + TOP_FOOT <= tg.top || Next(tg, tg.top) + TOP_FOOT <= base
    ensures var tg' := NewTop(tg, base, size);
            && (forall p {:trigger p in tg'.fences} :: p in tg'.fences ==> p in tg'.head && tg'.head[p].size > 0)
            && TopOk(tg')
            && (forall p {:trigger p in tg'.records} :: p in tg'.records ==> IsChunk(tg', p) && tg'.head[p].cinuse)
            && (forall p {:trigger p in tg'.directs} :: p in tg'.directs ==> DirectOk(tg', p))
  {
    hide NewTop;
    hide FencePosts;
    hide ChunkOk;
    var tg' := NewTop(tg, base, size);
    var top, n, sp := tg.top, Next(tg, tg.top), RecordPlace(tg);
    PositiveSizes(tg);
    NewTopRest(tg, base, size);
    NewTopHead(tg, base, size, base);
    NewTopHead(tg, base, size, base + size);
    InPosts(sp, n + TOP_FOOT, base);
    forall p | p in tg'.fences ensures p in tg'.head && tg'.head[p].size > 0 {
      NewTopHead(tg, base, size, p);
    }
    forall p | p in tg'.records ensures IsChunk(tg', p) && tg'.head[p].cinuse {
      NewTopHead(tg, base, size, p);
      InPosts(sp, n + TOP_FOOT, p);
      if p != sp { TailOfSegment(tg, p); }
    }
    forall p | p in tg'.directs ensures DirectOk(tg', p) {
      NewTopDirect(tg, base, size, p);
    }
  }

  lemma NewTopDirect(tg: Tags, base: int, size: nat, p: int)
    requires TagsOk(tg) && size >= 8
    requires FreshRange(tg, base, base + size + TOP_FOOT)
    requires base + size + TOP_FOOT <= tg.top || Next(tg, tg.top) + TOP_FOOT <= base
    requires p in tg.directs
    ensures DirectOk(NewTop(tg, base, size), p)
  {
    hide NewTop;
    hide FencePosts;
    hide ChunkOk;
    var n, sp := Next(tg, tg.top), RecordPlace(tg);
    assert DirectOk(tg, p);
    PositiveSizes(tg);
    NewTopRest(tg, base, size);
    NewTopHead(tg, base, size, p);
    InPosts(sp, n + TOP_FOOT, p);
    TailOfSegment(tg, p);
    NextOfInUse(tg, p);
    NewTopHead(tg, base, size, Next(tg, p));
    InPosts(sp, n + TOP_FOOT, Next(tg, p));
    TailOfSegment(tg, Next(tg, p));
  }

  // ---------------------------------------------------------------- directly mapped chunks

  function AddDirect(tg: Tags, p: int, size: nat): Tags {
    tg.(head := tg.head[p := Head(size, true, false)][p + size := Head(8, true, true)], foot := tg.foot[p := 1],
        fences := tg.fences + {p + size}, directs := tg.directs + {p})
  }

  lemma AddDirectOk(tg: Tags, p: int, size: nat)
    requires TagsOk(tg) && p > 0 && p % 8 == 0 && size % 8 == 0 && size >= MIN_CHUNK
    requires FreshRange(tg, p, p + size + 8)
    ensures TagsOk(AddDirect(tg, p, size)) && p !in tg.head
  {
    PositiveSizes(tg);
    var tg' := AddDirect(tg, p, size);
    var n := p + size;
    assert p !in tg.head && n !in tg.head;
    forall q | IsChunk(tg', q) ensures ChunkOk(tg', q) {
      if q != p {
        assert ChunkOk(tg, q);
        assert Next(tg, q) in tg.head;
      }
    }
    forall x, y | x in tg'.head && y in tg'.head ensures Apart(tg', x, y) {
      if x in tg.head && y in tg.head { assert Apart(tg, x, y); }
    }
  }

  function RemoveDirect(tg: Tags, p: int): Tags
    requires p in tg.head
  {
    tg.(head := tg.head - {p, Next(tg, p)}, fences := tg.fences - {Next(tg, p)}, directs := tg.directs - {p})
  }

  lemma RemoveDirectOk(tg: Tags, p: int)
    requires TagsOk(tg) && p in tg.directs
    ensures TagsOk(RemoveDirect(tg, p))
  {
    var tg' := RemoveDirect(tg, p);
    assert ChunkOk(tg, p);
    NextOfInUse(tg, p);
    forall q | IsChunk(tg', q) ensures ChunkOk(tg', q) {
      assert ChunkOk(tg, q);
      if Next(tg, q) == Next(tg, p) { SameEnd(tg, p, q); }
    }
    forall x, y | x in tg'.head && y in tg'.head ensures Apart(tg', x, y) {
      assert Apart(tg, x, y);
    }
    forall q | q in tg'.directs ensures DirectOk(tg', q) {
      assert DirectOk(tg, q);
      if Next(tg, q) == Next(tg, p) { SameEnd(tg, p, q); }
    }
  }
}
