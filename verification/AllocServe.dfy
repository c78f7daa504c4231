/**
  Which chunk malloc hands out: an exact fit from a small bin, the designated
  victim, a smallest sufficient chunk of the bins, top, or fresh memory.
 */
module AllocServe {
  import opened Arith
  import opened AllocTree
  import opened AllocBins
  import opened AllocSearch
  import opened AllocPool
  import opened AllocTags
  import opened AllocInv
  import opened AllocLinks
  import opened AllocFind

  /** A free chunk in the bins that can hold nb bytes: neither top nor the designated victim. */
  ghost predicate Fits(h: Heap, c: Chunk, nb: nat) {
    Binnable(h.tg, h.dv, {}, c) && c.size >= nb
  }

  /** No chunk in the bins that fits is smaller. */
  ghost predicate LeastFit(h: Heap, c: Chunk, nb: nat) {
    Fits(h, c, nb) && forall d {:trigger Fits(h, d, nb)} :: Fits(h, d, nb) ==> c.size <= d.size
  }

  ghost predicate NoneFits(h: Heap, nb: nat) {
    forall d {:trigger Fits(h, d, nb)} :: !Fits(h, d, nb)
  }

  /** The small bin of nb, or the next one if that is empty. */
  predicate ExactBin(b: Bins, nb: nat, i: nat) {
    && IsSmall(nb) && nb / 8 <= i <= nb / 8 + 1 && i < NSMALLBINS && |b.smallmap| == NSMALLBINS
    && b.smallmap[i] && (i == nb / 8 || !b.smallmap[nb / 8])
  }

  ghost predicate NoExact(b: Bins, nb: nat) {
    forall i: nat :: !ExactBin(b, nb, i)
  }

  /** The size of the chunk handed out when one of the given size is taken: the remainder stays free if it
      can be a chunk. */
  function Cut(size: nat, nb: nat): nat {
    if size >= nb + MIN_CHUNK then nb else size
  }

  ghost predicate Got(h: Heap, p: int, size: nat) {
    p in h.tg.head && h.tg.head[p].size == size
  }

  ghost predicate SameDv(h: Heap, h': Heap) {
    h'.dv == h.dv && h'.dvsize == h.dvsize
  }

  ghost predicate FromExact(h: Heap, h': Heap, nb: nat, p: int) {
    exists i: nat :: ExactBin(h.b, nb, i) && i < |h.b.small| && h.b.small[i] != [] && p == h.b.small[i][0]
                && Got(h', p, 8 * i) && SameDv(h, h')
  }

  /** The designated victim is cut, or used up. */
  ghost predicate FromDv(h: Heap, h': Heap, nb: nat, p: int) {
    && nb <= h.dvsize && p == h.dv && Got(h', p, Cut(h.dvsize, nb))
    && (if h.dvsize >= nb + MIN_CHUNK then h'.dv == p + nb && h'.dvsize == h.dvsize - nb
        else h'.dv == 0 && h'.dvsize == 0)
  }

  /** Chunk c is cut, or used up; the remainder of a small request becomes the designated victim. */
  ghost predicate FromChunk(h: Heap, h': Heap, nb: nat, p: int, c: Chunk) {
    && LeastFit(h, c, nb) && c.at == p && Got(h', p, Cut(c.size, nb))
    && (if IsSmall(nb) && c.size >= nb + MIN_CHUNK then h'.dv == p + nb && h'.dvsize == c.size - nb else SameDv(h, h'))
  }

  ghost predicate FromBin(h: Heap, h': Heap, nb: nat, p: int) {
    exists c :: FromChunk(h, h', nb, p, c) && (h.dvsize < nb || (!IsSmall(nb) && c.size < h.dvsize))
  }

  /** The designated victim serves a large request only if no chunk in the bins fits better. */
  ghost predicate DvServes(h: Heap, nb: nat) {
    && nb <= h.dvsize
    && (IsSmall(nb) || forall d {:trigger Fits(h, d, nb)} :: Fits(h, d, nb) ==> h.dvsize <= d.size)
  }

  /** Neither the bins nor the designated victim can serve. */
  ghost predicate BinsFail(h: Heap, nb: nat) {
    NoExact(h.b, nb) && h.dvsize < nb && NoneFits(h, nb)
  }

  ghost predicate FromTop(h: Heap, h': Heap, nb: nat, p: int) {
    p == h.tg.top && Got(h', p, nb) && SameDv(h, h')
  }

  /** How the request is served from what was free; top comes last, and fresh memory after it. */
  ghost predicate Served(h: Heap, h': Heap, topsize: nat, nb: nat, p: int) {
    || FromExact(h, h', nb, p)
    || (NoExact(h.b, nb) && DvServes(h, nb) && FromDv(h, h', nb, p))
    || (NoExact(h.b, nb) && FromBin(h, h', nb, p))
    || (BinsFail(h, nb) && nb < topsize && FromTop(h, h', nb, p))
    || (BinsFail(h, nb) && topsize <= nb)
  }

  // ---------------------------------------------------------------- giving back

  /** Where the free chunk begins that block p becomes part of. */
  function RunStart(h: Heap, p: int): int
    requires p in h.tg.head && (h.tg.head[p].pinuse || p in h.tg.foot)
  {
    if h.tg.head[p].pinuse then p else p - h.tg.foot[p]
  }

  /** And where it ends: with the block, or with the free chunk or top behind it. */
  function RunEnd(h: Heap, p: int): int
    requires p in h.tg.head
  {
    var n := Next(h.tg, p);
    if n in h.tg.head && !h.tg.head[n].cinuse then Next(h.tg, n) else n
  }

  /** A directly mapped block is unmapped.  Any other is merged with its free neighbours: into top, into the
      designated victim if that is one of them, or into a chunk for the bins. */
  ghost predicate Returned(h: Heap, h': Heap, p: int)
    requires p in h.tg.head && (h.tg.head[p].pinuse || p in h.tg.foot)
  {
    if p in h.tg.directs then p !in h'.tg.head && h'.tg.top == h.tg.top && SameDv(h, h')
    else Merged(h, h', RunStart(h, p), Next(h.tg, p), RunEnd(h, p))
  }

  /** The free chunk from a to e, and n behind the block. */
  ghost predicate Merged(h: Heap, h': Heap, a: int, n: int, e: int) {
    && IsFree(h'.tg, a) && a < e && Got(h', a, e - a)
    && if n == h.tg.top then
         h'.tg.top == a && (if h.dv == a then h'.dv == 0 && h'.dvsize == 0 else SameDv(h, h'))
       else
         && h'.tg.top == h.tg.top
         && if h.dv == a || h.dv == n then h'.dv == a && h'.dvsize == e - a else SameDv(h, h')
  }

  lemma LargeNoExact(b: Bins, nb: nat)
    requires !IsSmall(nb)
    ensures NoExact(b, nb)
  {
  }

  /** When the bins have not served, the designated victim does if it can; otherwise nothing in the bins could. */
  lemma BinsDone(h: Heap, nb: nat)
    requires NoExact(h.b, nb) && (NoneFits(h, nb) || (IsSmall(nb) && nb <= h.dvsize) || DvServes(h, nb))
    ensures if nb <= h.dvsize then DvServes(h, nb) else BinsFail(h, nb)
  {
  }

  lemma BinsServed(h: Heap, h': Heap, nb: nat, p: int)
    ensures FromExact(h, h', nb, p) || FromBin(h, h', nb, p) || nb <= h.dvsize ==> !BinsFail(h, nb)
  {
  }

  lemma FitIsPooled(h: Heap, d: Chunk, nb: nat)
    requires HeapOk(h, {})
    ensures Fits(h, d, nb) <==> d in Pool(h.b.small, h.b.trees) && d.size >= nb
  {
    assert Pool(h.b.small, h.b.trees)[d] == if Binnable(h.tg, h.dv, {}, d) then 1 else 0;
  }

  lemma Lengths(h: Heap)
    requires HeapOk(h, {})
    ensures |h.b.small| == |h.b.smallmap| == NSMALLBINS && |h.b.trees| == |h.b.treemap| == NTREEBINS
    ensures forall i :: 0 <= i < NSMALLBINS ==> h.b.smallmap[i] == (h.b.small[i] != [])
    ensures BinsOk(h.b.trees)
  {
  }

  /** The first chunk of the first marked bin behind the exact ones is a least fit. */
  lemma SplitBinLeast(h: Heap, nb: nat, i: nat)
    requires HeapOk(h, {}) && IsSmall(nb) && nb % 8 == 0 && nb / 8 <= i < NSMALLBINS && i < |h.b.smallmap|
    requires h.b.smallmap[i] && forall j :: nb / 8 <= j < i ==> !h.b.smallmap[j]
    ensures i < |h.b.small| && h.b.small[i] != [] && LeastFit(h, Chunk(h.b.small[i][0], 8 * i), nb)
  {
    hide TreeIndex;
    Lengths(h);
    var c := Chunk(h.b.small[i][0], 8 * i);
    FromSmall(h.b.small, |h.b.small|, i, 0);
    assert c in Pool(h.b.small, h.b.trees);
    forall d ensures Fits(h, d, nb) <==> d in Pool(h.b.small, h.b.trees) && d.size >= nb { FitIsPooled(h, d, nb); }
    hide HeapOk;
    hide Fits;
    hide Pool;
    forall d | Fits(h, d, nb) ensures c.size <= d.size {
      Locate(h.b.small, h.b.trees, d);
    }
  }

  /** Where no small bin from that of nb on is marked, a least fit of the trees is a least fit of the bins. */
  lemma TreeLeast(h: Heap, nb: nat, least: nat, x: int, size: int)
    requires HeapOk(h, {}) && FitAt(h.b.trees, x, size, least) && nb <= size
    requires least == nb || (least == 0 && nb < MIN_LARGE_SIZE)
    requires IsSmall(nb)
             ==> nb % 8 == 0 && forall j :: nb / 8 <= j < NSMALLBINS && j < |h.b.smallmap| ==> !h.b.smallmap[j]
    ensures LeastFit(h, Chunk(x, size), nb)
  {
    hide TreeIndex;
    Lengths(h);
    var t :| BestFit(h.b.trees, t, least) && Points(x, t) && t.size == size;
    NodePooled(h, t);
    TreeLower(h, nb, size, least, t);
  }

  /** A node of a tree bin stands for a chunk in the bins. */
  lemma NodePooled(h: Heap, t: Tree)
    requires HeapOk(h, {}) && t.Node? && exists i :: 0 <= i < |h.b.trees| && Within(t, h.b.trees[i])
    ensures |t.ring| > 0 && forall nb: nat :: nb <= t.size ==> Fits(h, Chunk(t.ring[0], t.size), nb)
  {
    hide TreeIndex;
    Lengths(h);
    var i :| 0 <= i < |h.b.trees| && Within(t, h.b.trees[i]);
    assert BinOk(i, h.b.trees[i]);
    NodeChunk(h.b.trees[i], t, BinBase(i), BinHeight(i));
    FromTrees(h.b.trees, |h.b.trees|, i, Chunk(t.ring[0], t.size));
    FitIsPooled(h, Chunk(t.ring[0], t.size), 0);
  }

  lemma TreeLower(h: Heap, nb: nat, size: int, least: nat, t: Tree)
    requires HeapOk(h, {}) && BestFit(h.b.trees, t, least) && t.size == size
    requires least == nb || (least == 0 && nb < MIN_LARGE_SIZE)
    requires IsSmall(nb)
             ==> nb % 8 == 0 && forall j :: nb / 8 <= j < NSMALLBINS && j < |h.b.smallmap| ==> !h.b.smallmap[j]
    ensures forall d {:trigger Fits(h, d, nb)} :: Fits(h, d, nb) ==> size <= d.size
  {
    hide TreeIndex;
    Lengths(h);
    forall d ensures Fits(h, d, nb) <==> d in Pool(h.b.small, h.b.trees) && d.size >= nb { FitIsPooled(h, d, nb); }
    hide HeapOk;
    hide Fits;
    hide Pool;
    forall d | Fits(h, d, nb) ensures size <= d.size {
      Locate(h.b.small, h.b.trees, d);
      if !IsSmall(d.size) { ChunkSizes(h.b.trees[TreeIndex(d.size)]); }
    }
  }

  lemma {:induction false} NodeChunk(root: Tree, t: Tree, base: nat, h: nat)
    requires Within(t, root) && Trie(root, base, h) && t.Node?
    ensures |t.ring| > 0 && Chunk(t.ring[0], t.size) in Chunks(root)
  {
    if t == root {
      RingSizes(t.size, t.ring);
    } else if Within(t, root.lo) {
      NodeChunk(root.lo, t, base, h - 1);
    } else {
      NodeChunk(root.hi, t, base + Pow2(h - 1), h - 1);
    }
  }

  /** Nothing in the small bins from that of nb on, and nothing in the trees that is large enough. */
  lemma NoneIsLeft(h: Heap, nb: nat)
    requires HeapOk(h, {})
    requires IsSmall(nb)
             ==> nb % 8 == 0 && forall j :: nb / 8 <= j < NSMALLBINS && j < |h.b.smallmap| ==> !h.b.smallmap[j]
    requires NoFit(h.b.trees, nb)
    ensures NoneFits(h, nb)
  {
    hide TreeIndex;
    Lengths(h);
    forall d ensures Fits(h, d, nb) <==> d in Pool(h.b.small, h.b.trees) && d.size >= nb { FitIsPooled(h, d, nb); }
    hide HeapOk;
    hide Fits;
    hide Pool;
    forall d ensures !Fits(h, d, nb) {
      if Fits(h, d, nb) {
        Locate(h.b.small, h.b.trees, d);
        if !IsSmall(d.size) { ChunkSizes(h.b.trees[TreeIndex(d.size)]); }
        assert false;
      }
    }
  }

  /** Every fit of a large request is in a tree. */
  lemma LargeFits(h: Heap, nb: nat, bound: nat)
    requires HeapOk(h, {}) && !IsSmall(nb)
    requires forall i, s :: 0 <= i < |h.b.trees| && s in Sizes(h.b.trees[i]) && s >= nb ==> bound <= s
    ensures forall d {:trigger Fits(h, d, nb)} :: Fits(h, d, nb) ==> bound <= d.size
  {
    hide TreeIndex;
    Lengths(h);
    forall d ensures Fits(h, d, nb) <==> d in Pool(h.b.small, h.b.trees) && d.size >= nb { FitIsPooled(h, d, nb); }
    hide HeapOk;
    hide Fits;
    hide Pool;
    forall d | Fits(h, d, nb) ensures bound <= d.size {
      Locate(h.b.small, h.b.trees, d);
      ChunkSizes(h.b.trees[TreeIndex(d.size)]);
    }
  }
}
