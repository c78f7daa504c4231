/**
  The allocator's bins in memory: lists and trees whose contents are the bins of
  the heap's invariant.
 */
module AllocBinned {
  import opened Arith
  import opened AllocTree
  import opened AllocBins
  import opened AllocPool
  import opened AllocTags
  import opened AllocInv
  import opened AllocSteps
  import opened AllocLinks
  import opened AllocSmall
  import opened AllocFind

  /** The address that stands for the header of a small bin; no chunk has it. */
  function Header(i: nat): int {
    -1 - i
  }

  ghost predicate SmallLoaded(bins: seq<SmallBin>, small: seq<seq<int>>)
    reads bins
  {
    && |bins| == |small| == NSMALLBINS
    && (forall i ::
          0 <= i < NSMALLBINS ==> bins[i].Valid() && bins[i].home == Header(i) && bins[i].contents == small[i])
    && (forall i, j :: 0 <= i < j < NSMALLBINS ==> bins[i] != bins[j])
  }

  /** init_bins. */
  method NewSmallBins() returns (bins: seq<SmallBin>)
    ensures fresh(bins) && SmallLoaded(bins, seq(NSMALLBINS, _ => []))
  {
    bins := [];
    for i := 0 to NSMALLBINS
      invariant |bins| == i && fresh(bins)
      invariant forall j :: 0 <= j < i ==> bins[j].Valid() && bins[j].home == Header(j) && bins[j].contents == []
      invariant forall j, k :: 0 <= j < k < i ==> bins[j] != bins[k]
    {
      var bin := new SmallBin(Header(i));
      bins := bins + [bin];
    }
  }

  method NewTreeBins() returns (bins: seq<TreeBin>)
    ensures fresh(bins) && TreesLoaded(bins, seq(NTREEBINS, _ => Empty))
  {
    bins := [];
    for i := 0 to NTREEBINS
      invariant |bins| == i && fresh(bins)
      invariant forall j :: 0 <= j < i ==> bins[j].Valid() && bins[j].index == j && bins[j].tree == Empty
      invariant forall j, k :: 0 <= j < k < i ==> bins[j] != bins[k]
    {
      var bin := new TreeBin(i);
      bins := bins + [bin];
    }
  }

  /** Chunk p of size s is not in the bin of its size. */
  ghost predicate Unbinned(b: Bins, p: int, s: nat) {
    && p > 0
    && if IsSmall(s) then s / 8 < |b.small| && p !in b.small[s / 8]
       else
         var i := TreeIndex(s);
         i < NTREEBINS && i < |b.trees| && SizeInBin(i, s) && p !in Addrs(b.trees[i])
  }

  /** It is there. */
  ghost predicate Binned(b: Bins, p: int, s: nat) {
    if IsSmall(s) then s / 8 < |b.small| && p in b.small[s / 8]
    else
      var i := TreeIndex(s);
      i < NTREEBINS && i < |b.trees| && InNode(Subtree(b.trees[i], PathTo(b.trees[i], BinBase(i), BinHeight(i), s)), p)
  }

  predicate InNode(t: Tree, p: int) {
    t.Node? && p in t.ring
  }

  lemma {:induction false} AddrsAreChunks(t: Tree, p: int) returns (c: Chunk)
    requires p in Addrs(t)
    ensures c in Chunks(t) && c.at == p
  {
    if p in RingSet(t.ring) {
      RingSizes(t.size, t.ring);
      c := Chunk(p, t.size);
    } else if p in Addrs(t.lo) {
      c := AddrsAreChunks(t.lo, p);
    } else {
      c := AddrsAreChunks(t.hi, p);
    }
  }

  /** A chunk that is being worked on is in no bin. */
  lemma LooseIsUnbinned(h: Heap, loose: set<int>, p: int)
    requires HeapOk(h, loose) && p in loose && IsFree(h.tg, p) && p > 0
    ensures Unbinned(h.b, p, h.tg.head[p].size)
  {
    hide TreeIndex;
    hide TagsOk;
    hide SegmentsOk;
    hide LiveOk;
    hide Trie;
    var s := h.tg.head[p].size;
    assert TagsOk(h.tg);
    LargeIndex(h.tg, h.segs, p);
    hide RegionsOk;
    if IsSmall(s) {
      if p in h.b.small[s / 8] {
        var k :| 0 <= k < |h.b.small[s / 8]| && h.b.small[s / 8][k] == p;
        FromSmall(h.b.small, |h.b.small|, s / 8, k);
        NotInPool(h, loose, Chunk(p, 8 * (s / 8)));
      }
    } else {
      InBinRange(TreeIndex(s), s);
      if p in Addrs(h.b.trees[TreeIndex(s)]) {
        var c := AddrsAreChunks(h.b.trees[TreeIndex(s)], p);
        FromTrees(h.b.trees, |h.b.trees|, TreeIndex(s), c);
        NotInPool(h, loose, c);
      }
    }
  }

  lemma NotInPool(h: Heap, loose: set<int>, c: Chunk)
    requires HeapOk(h, loose) && c.at in loose
    ensures c !in SmallChunks(h.b.small, |h.b.small|) && c !in TreeChunks(h.b.trees, |h.b.trees|)
  {
    assert Pool(h.b.small, h.b.trees)[c] == if Binnable(h.tg, h.dv, loose, c) then 1 else 0;
  }

  /** Any other free chunk is in its bin. */
  lemma FreeIsBinned(h: Heap, loose: set<int>, p: int)
    requires HeapOk(h, loose) && IsFree(h.tg, p) && p != h.tg.top && p != h.dv && p !in loose
    ensures Binned(h.b, p, h.tg.head[p].size)
  {
    hide TreeIndex;
    hide TagsOk;
    hide RegionsOk;
    hide SegmentsOk;
    hide LiveOk;
    hide Trie;
    var c := Chunk(p, h.tg.head[p].size);
    assert Binnable(h.tg, h.dv, loose, c);
    assert Pool(h.b.small, h.b.trees)[c] == 1;
    Locate(h.b.small, h.b.trees, c);
    if !IsSmall(c.size) {
      var i := TreeIndex(c.size);
      assert BinOk(i, h.b.trees[i]);
      ChunkSizes(h.b.trees[i]);
      PathFinds(h.b.trees[i], BinBase(i), BinHeight(i), c.size);
    }
  }
}
