/**
  The allocator: malloc and free over tagged memory, bins, a designated victim,
  top and segments.
 */
module AllocHeap {
  import opened Arith
  import opened AllocTree
  import opened AllocBins
  import opened AllocSearch
  import opened AllocPool
  import opened AllocTags
  import opened AllocInv
  import opened AllocSteps
  import opened AllocLinks
  import opened AllocSmall
  import opened AllocFind
  import opened AllocBinned
  import opened AllocServe

  const MAX_SMALL_REQUEST: nat := 240
  const MIN_REQUEST: nat := 23
  const MAX_REQUEST: nat := 0xffff_ffff_ffff_ff80
  const GRANULARITY: nat := 0x2_0000
  const MMAP_THRESHOLD: nat := 0x2_0000
  const PAGE: nat := 0x1000
  const STATE_SIZE: nat := 872

  /** The answer of the operating system to a request for memory. */
  datatype Mapping = Failed | Mapped(base: int)

  function PadRequest(n: nat): nat {
    (n + 15) / 8 * 8
  }

  /** The chunk size malloc looks for. */
  function Request(nsize: nat): nat {
    if nsize <= MAX_SMALL_REQUEST then (if nsize < MIN_REQUEST then MIN_CHUNK else PadRequest(nsize))
    else if nsize >= MAX_REQUEST then WORD - 1
    else PadRequest(nsize)
  }

  /** Sizes asked from the operating system, in 64-bit arithmetic. */
  function DirectSize(nb: nat): nat {
    ((nb + 55) % WORD + PAGE - 1) % WORD / PAGE * PAGE
  }

  function SegmentSize(nb: nat): nat {
    ((nb + TOP_FOOT + 1) % WORD + GRANULARITY - 1) % WORD / GRANULARITY * GRANULARITY
  }

  lemma RequestFits(nsize: nat)
    requires nsize < MAX_REQUEST
    ensures Request(nsize) % 8 == 0 && MIN_CHUNK <= Request(nsize) && nsize + 8 <= Request(nsize) < nsize + 40
    ensures nsize <= MAX_SMALL_REQUEST <==> IsSmall(Request(nsize))
  {
  }

  /** A request that wraps around asks for nothing usable; any other gets more than it needs. */
  lemma SegmentSizeFits(nb: nat)
    requires nb < WORD && SegmentSize(nb) > nb
    ensures SegmentSize(nb) >= nb + TOP_FOOT + 1 && SegmentSize(nb) % 8 == 0
  {
    Reserve(nb, TOP_FOOT + 1, GRANULARITY);
  }

  lemma DirectSizeFits(nb: nat)
    requires nb < WORD && DirectSize(nb) > nb
    ensures DirectSize(nb) >= nb + 55 && DirectSize(nb) % 8 == 0
  {
    Reserve(nb, 55, PAGE);
  }

  lemma Reserve(nb: nat, extra: nat, g: nat)
    requires nb < WORD && extra <= 65 && (g == PAGE || g == GRANULARITY)
    ensures var r := ((nb + extra) % WORD + g - 1) % WORD / g * g;
            r % 8 == 0 && (r > nb ==> r >= nb + extra)
  {
    var x := if nb + extra < WORD then nb + extra else nb + extra - WORD;
    assert (nb + extra) % WORD == x;
    var y := if x + g - 1 < WORD then x + g - 1 else x + g - 1 - WORD;
    assert (x + g - 1) % WORD == y;
    RoundedDown(y, g);
  }

  lemma RoundedDown(y: nat, g: nat)
    requires g == PAGE || g == GRANULARITY
    ensures y - g < y / g * g <= y && y / g * g % 8 == 0
  {
    var q, r := y / g, y % g;
    if g == PAGE {
      assert y == q * 0x1000 + r && q * 0x1000 == 8 * (q * 0x200);
    } else {
      assert y == q * 0x2_0000 + r && q * 0x2_0000 == 8 * (q * 0x4000);
    }
  }

  /** The size that stands for a request too large wraps around in both computations. */
  lemma TooLarge()
    ensures DirectSize(WORD - 1) <= WORD - 1 && SegmentSize(WORD - 1) <= WORD - 1
  {
    assert (WORD - 1 + 55) % WORD == 54 && (WORD - 1 + TOP_FOOT + 1) % WORD == 64;
  }

  /** The tag words at the addresses where chunks start. */
  function Restrict(head: map<int, Head>, starts: set<int>): map<int, Head> {
    map q | q in starts && q in head :: head[q]
  }

  lemma RestrictPut(head: map<int, Head>, starts: set<int>, p: int, w: Head)
    ensures Restrict(head[p := w], starts + {p}) == Restrict(head, starts)[p := w]
    ensures p in starts ==> Restrict(head[p := w], starts) == Restrict(head, starts)[p := w]
  {
  }

  function Outside(starts: set<int>, a: int, n: int): set<int> {
    set q | q in starts && !(a < q < n)
  }

  // ---------------------------------------------------------------- the words of a block

  predicate SameHead(m: map<int, Head>, m': map<int, Head>, x: int) {
    (x in m <==> x in m') && (x in m ==> x in m' && m[x] == m'[x])
  }

  predicate SameFoot(m: map<int, int>, m': map<int, int>, x: int) {
    (x in m <==> x in m') && (x in m ==> x in m' && m[x] == m'[x])
  }

  /** Head words are written only where a chunk starts or started, foot words only behind a free chunk. */
  ghost predicate OnlyTagWords(head: map<int, Head>, foot: map<int, int>, starts: set<int>,
                               head': map<int, Head>, foot': map<int, int>, starts': set<int>) {
    && (forall x {:trigger SameHead(head, head', x)} :: x !in starts && x !in starts' ==> SameHead(head, head', x))
    && (forall x {:trigger SameFoot(foot, foot', x)} ::
          x !in starts' || (x in head' && head'[x].pinuse) ==> SameFoot(foot, foot', x))
  }

  /** The words of a live block are not touched: the one at address w could be the head of a chunk at w - 8,
      or the foot at w. */
  lemma BlockUntouched(h: Heap, h': Heap, head: map<int, Head>, foot: map<int, int>, starts: set<int>,
                       head': map<int, Head>, foot': map<int, int>, starts': set<int>, p: int, w: int)
    requires HeapOk(h, {}) && HeapOk(h', {}) && p in h.live && p in h'.live
    requires p in h.tg.head && p in h'.tg.head
    requires h.tg.head == Restrict(head, starts) && starts <= head.Keys && h'.tg.head == Restrict(head', starts')
             && starts' <= head'.Keys
    requires OnlyTagWords(head, foot, starts, head', foot', starts')
    requires BlockStart(p) <= w < BlockEnd(h.tg, p) && w < BlockEnd(h'.tg, p) && w % 8 == 0
    ensures SameHead(head, head', w - 8) && SameFoot(foot, foot', w)
  {
    hide PoolOk;
    hide RegionsOk;
    hide SegmentsOk;
    hide BinShape;
    ChunkIs(h'.tg, p);
    Inside(h.tg, p, w - 8);
    Inside(h'.tg, p, w - 8);
    if w < Next(h'.tg, p) {
      Inside(h'.tg, p, w);
    } else {
      assert p % 8 == 0 && h'.tg.head[p].size % 8 == 0;
      assert w == Next(h'.tg, p);
    }
  }

  /** The d-th byte on starts a word that holds in block p' what it held in block p, under either reading;
      a word never written holds nothing. */
  ghost predicate WordKept(head: map<int, Head>, foot: map<int, int>, p: int, head': map<int, Head>,
                           foot': map<int, int>,
                           p': int, d: int) {
    && (p + 8 + d in head ==> p' + 8 + d in head' && head'[p' + 8 + d] == head[p + 8 + d])
    && (p + 16 + d in foot ==> p' + 16 + d in foot' && foot'[p' + 16 + d] == foot[p + 16 + d])
  }

  /** The first n bytes of the block at p are at p' now, word by word. */
  ghost predicate Carried(head: map<int, Head>, foot: map<int, int>, p: int, head': map<int, Head>,
                          foot': map<int, int>,
                          p': int, n: int) {
    forall d {:trigger WordKept(head, foot, p, head', foot', p', d)} ::
      0 <= d && d % 8 == 0 && d + 8 <= n ==> WordKept(head, foot, p, head', foot', p', d)
  }

  function Min(a: int, b: int): int {
    if a < b then a else b
  }

  /** Every word of these blocks holds what it held. */
  ghost predicate BlocksKept(tg: Tags, blocks: set<int>, head: map<int, Head>, foot: map<int, int>,
                             head': map<int, Head>, foot': map<int, int>) {
    forall q {:trigger q in blocks} ::
      q in blocks ==> q in tg.head && Carried(head, foot, q, head', foot', q, tg.head[q].size - 8)
  }

  lemma CarriedTwice(head: map<int, Head>, foot: map<int, int>, p: int, head1: map<int, Head>, foot1: map<int, int>,
                     p1: int,
                     head2: map<int, Head>, foot2: map<int, int>, p2: int, n: int, n1: int)
    requires Carried(head, foot, p, head1, foot1, p1, n) && Carried(head1, foot1, p1, head2, foot2, p2, n1)
    ensures Carried(head, foot, p, head2, foot2, p2, Min(n, n1))
  {
    forall d | 0 <= d && d % 8 == 0 && d + 8 <= Min(n, n1)
      ensures WordKept(head, foot, p, head2, foot2, p2, d)
    {
      assert WordKept(head, foot, p, head1, foot1, p1, d);
      assert WordKept(head1, foot1, p1, head2, foot2, p2, d);
    }
  }

  lemma CarriedLess(head: map<int, Head>, foot: map<int, int>, p: int, head1: map<int, Head>, foot1: map<int, int>,
                    p1: int,
                    n: int, n1: int)
    requires Carried(head, foot, p, head1, foot1, p1, n) && n1 <= n
    ensures Carried(head, foot, p, head1, foot1, p1, n1)
  {
  }

  lemma KeptTwice(tg: Tags, tg1: Tags, blocks: set<int>, head: map<int, Head>, foot: map<int, int>,
                  head1: map<int, Head>, foot1: map<int, int>, head2: map<int, Head>, foot2: map<int, int>)
    requires BlocksKept(tg, blocks, head, foot, head1, foot1) && BlocksKept(tg1, blocks, head1, foot1, head2, foot2)
    requires SameBlocks(tg, tg1, blocks)
    ensures BlocksKept(tg, blocks, head, foot, head2, foot2)
  {
    hide Carried;
    forall q | q in blocks ensures q in tg.head && Carried(head, foot, q, head2, foot2, q, tg.head[q].size - 8) {
      CarriedTwice(head, foot, q, head1, foot1, q, head2, foot2, q, tg.head[q].size - 8, tg1.head[q].size - 8);
    }
  }

  /** An operation that writes tag words only leaves the words of a block that is live before and after it. */
  lemma BlockCarried(h: Heap, h': Heap, head: map<int, Head>, foot: map<int, int>, starts: set<int>,
                     head': map<int, Head>, foot': map<int, int>, starts': set<int>, p: int)
    requires HeapOk(h, {}) && HeapOk(h', {}) && p in h.live && p in h'.live
    requires p in h.tg.head && p in h'.tg.head && p % 8 == 0
    requires h.tg.head == Restrict(head, starts) && starts <= head.Keys && h'.tg.head == Restrict(head', starts')
             && starts' <= head'.Keys
    requires OnlyTagWords(head, foot, starts, head', foot', starts')
    ensures Carried(head, foot, p, head', foot', p, Min(h.tg.head[p].size, h'.tg.head[p].size) - 8)
  {
    hide HeapOk;
    hide OnlyTagWords;
    hide Restrict;
    forall d | 0 <= d && d % 8 == 0 && d + 8 <= Min(h.tg.head[p].size, h'.tg.head[p].size) - 8
      ensures WordKept(head, foot, p, head', foot', p, d)
    {
      BlockUntouched(h, h', head, foot, starts, head', foot', starts', p, p + 16 + d);
    }
  }

  lemma BlocksCarried(h: Heap, h': Heap, head: map<int, Head>, foot: map<int, int>, starts: set<int>,
                      head': map<int, Head>, foot': map<int, int>, starts': set<int>, blocks: set<int>)
    requires HeapOk(h, {}) && HeapOk(h', {}) && blocks <= h.live && blocks <= h'.live && SameBlocks(h.tg, h'.tg, blocks)
    requires h.tg.head == Restrict(head, starts) && starts <= head.Keys && h'.tg.head == Restrict(head', starts')
             && starts' <= head'.Keys
    requires OnlyTagWords(head, foot, starts, head', foot', starts')
    ensures BlocksKept(h.tg, blocks, head, foot, head', foot')
  {
    hide HeapOk;
    hide OnlyTagWords;
    hide Restrict;
    hide Carried;
    forall q | q in blocks ensures q in h.tg.head && Carried(head, foot, q, head', foot', q, h.tg.head[q].size - 8) {
      LiveAligned(h, q);
      BlockCarried(h, h', head, foot, starts, head', foot', starts', q);
    }
  }

  lemma LiveAligned(h: Heap, p: int)
    requires HeapOk(h, {}) && p in h.live
    ensures IsChunk(h.tg, p) && p % 8 == 0 && h.tg.head[p].size >= MIN_CHUNK
  {
    ChunkIs(h.tg, p);
  }

  /** An operation on block p that writes tag words only. */
  lemma KeptAfter(h: Heap, h': Heap, head: map<int, Head>, foot: map<int, int>, starts: set<int>,
                  head': map<int, Head>, foot': map<int, int>, starts': set<int>, p: int, n: int)
    requires HeapOk(h, {}) && HeapOk(h', {}) && p in h.live && p in h'.live && h.live - {p} <= h'.live
    requires SameBlocks(h.tg, h'.tg, h.live - {p})
    requires h.tg.head == Restrict(head, starts) && starts <= head.Keys && h'.tg.head == Restrict(head', starts')
             && starts' <= head'.Keys
    requires OnlyTagWords(head, foot, starts, head', foot', starts')
    requires p in h'.tg.head && p in h.tg.head && n <= h'.tg.head[p].size - 8
    ensures BlocksKept(h.tg, h.live - {p}, head, foot, head', foot')
    ensures Carried(head, foot, p, head', foot', p, Min(n, Room(h.tg, p)))
  {
    hide HeapOk;
    hide OnlyTagWords;
    hide Carried;
    hide BlocksKept;
    hide SameBlocks;
    hide Restrict;
    LiveAligned(h, p);
    BlocksCarried(h, h', head, foot, starts, head', foot', starts', h.live - {p});
    BlockCarried(h, h', head, foot, starts, head', foot', starts', p);
    CarriedLess(head, foot, p, head', foot', p, Min(h.tg.head[p].size, h'.tg.head[p].size) - 8, Min(n, Room(h.tg, p)));
  }

  lemma SameBlocksOf(tg: Tags, tg': Tags, live: set<int>, p: int)
    requires SameBlocks(tg, tg', live) && p in live
    ensures p in tg.head && p in tg'.head && tg'.head[p].size == tg.head[p].size && Room(tg', p) == Room(tg, p)
  {
  }

  lemma SameTags(tg1: Tags, tg2: Tags, tg': Tags, live: set<int>)
    requires tg2.head == tg1.head && tg2.directs == tg1.directs && SameBlocks(tg2, tg', live)
    ensures SameBlocks(tg1, tg', live)
  {
  }

  /** An operation on block p, and then one that leaves the blocks as they are. */
  lemma ThenKept(tg: Tags, tg1: Tags, tg2: Tags, live: set<int>, p: int, head: map<int, Head>, foot: map<int, int>,
                 head1: map<int, Head>, foot1: map<int, int>, head2: map<int, Head>, foot2: map<int, int>, p': int,
                     n: int)
    requires SameBlocks(tg, tg1, live - {p}) && SameBlocks(tg1, tg2, live) && p' in live
    requires BlocksKept(tg, live - {p}, head, foot, head1, foot1) && BlocksKept(tg1, live, head1, foot1, head2, foot2)
    requires p' in tg1.head && Carried(head, foot, p, head1, foot1, p', n) && n <= tg1.head[p'].size - 8
    ensures SameBlocks(tg, tg2, live - {p}) && BlocksKept(tg, live - {p}, head, foot, head2, foot2)
    ensures Carried(head, foot, p, head2, foot2, p', n)
  {
    hide Carried;
    assert BlocksKept(tg1, live - {p}, head1, foot1, head2, foot2);
    KeptTwice(tg, tg1, live - {p}, head, foot, head1, foot1, head2, foot2);
    CarriedTwice(head, foot, p, head1, foot1, p', head2, foot2, p', n, tg1.head[p'].size - 8);
  }

  /** The word at `from` copied to `to`; a word never written is not copied. */
  function Copy<T>(m: map<int, T>, from: int, to: int): map<int, T> {
    if from in m then m[to := m[from]] else m
  }

  /** The first d bytes of block p have been copied to block p', and nothing else has been written. */
  ghost predicate Copied(head: map<int, Head>, foot: map<int, int>, p: int, head': map<int, Head>, foot': map<int, int>,
                         p': int, d: int) {
    && (forall x {:trigger SameHead(head, head', x)} :: !(p' + 8 <= x < p' + 8 + d) ==> SameHead(head, head', x))
    && (forall x {:trigger SameFoot(foot, foot', x)} :: !(p' + 16 <= x < p' + 16 + d) ==> SameFoot(foot, foot', x))
    && Carried(head, foot, p, head', foot', p', d)
  }

  lemma CopiedNone(head: map<int, Head>, foot: map<int, int>, p: int, p': int)
    ensures Copied(head, foot, p, head, foot, p', 0)
  {
  }

  lemma CopiedMore(head: map<int, Head>, foot: map<int, int>, p: int, head1: map<int, Head>, foot1: map<int, int>,
                   p': int, d: int, size: int, size': int)
    requires Copied(head, foot, p, head1, foot1, p', d) && 0 <= d && d % 8 == 0 && p % 8 == 0 && p' % 8 == 0
    requires d + 8 <= size - 8 && d + 8 <= size' - 8 && (p + size <= p' + 8 || p' + size' <= p + 8)
    ensures Copied(head, foot, p, Copy(head1, p + 8 + d, p' + 8 + d), Copy(foot1, p + 16 + d, p' + 16 + d), p', d + 8)
  {
    var head2, foot2 := Copy(head1, p + 8 + d, p' + 8 + d), Copy(foot1, p + 16 + d, p' + 16 + d);
    assert SameHead(head, head1, p + 8 + d) && SameFoot(foot, foot1, p + 16 + d);
    forall x | !(p' + 8 <= x < p' + 8 + d + 8) ensures SameHead(head, head2, x) { assert SameHead(head, head1, x); }
    forall x | !(p' + 16 <= x < p' + 16 + d + 8) ensures SameFoot(foot, foot2, x) { assert SameFoot(foot, foot1, x); }
    forall e | 0 <= e && e % 8 == 0 && e + 8 <= d + 8 ensures WordKept(head, foot, p, head2, foot2, p', e) {
      if e < d { assert WordKept(head, foot, p, head1, foot1, p', e); }
    }
  }

  lemma CopiedAll(h: Heap, head: map<int, Head>, foot: map<int, int>, p: int, head': map<int, Head>,
                  foot': map<int, int>,
                  p': int, d: int, n: int)
    requires HeapOk(h, {}) && p' in h.live && p' in h.tg.head && 0 <= d <= h.tg.head[p'].size - 8 && d % 8 == 0
             && n < d + 8
    requires Copied(head, foot, p, head', foot', p', d)
    ensures BlocksKept(h.tg, h.live - {p'}, head, foot, head', foot') && Carried(head, foot, p, head', foot', p', n)
  {
    hide HeapOk;
    forall e | 0 <= e && e % 8 == 0 && e + 8 <= n ensures WordKept(head, foot, p, head', foot', p', e) { }
    forall q | q in h.live - {p'}
      ensures q in h.tg.head && Carried(head, foot, q, head', foot', q, h.tg.head[q].size - 8)
    {
      LiveBlocksDisjoint(h, q, p');
      forall e | 0 <= e && e % 8 == 0 && e + 8 <= h.tg.head[q].size - 8
        ensures WordKept(head, foot, q, head', foot', q, e)
      {
        assert SameHead(head, head', q + 8 + e) && SameFoot(foot, foot', q + 16 + e);
      }
    }
  }

  /** A new block, a copy, and the old block is gone. */
  lemma MoveKept(tg: Tags, tg1: Tags, tg2: Tags, live: set<int>, p: int, p': int, head: map<int, Head>,
                 foot: map<int, int>,
                 head1: map<int, Head>, foot1: map<int, int>, head2: map<int, Head>, foot2: map<int, int>,
                 head3: map<int, Head>, foot3: map<int, int>, n: int)
    requires p in live && p' !in live && SameBlocks(tg, tg1, live) && tg2.head == tg1.head && tg2.directs == tg1.directs
    requires BlocksKept(tg, live, head, foot, head1, foot1)
    requires BlocksKept(tg1, live, head1, foot1, head2, foot2) && Carried(head1, foot1, p, head2, foot2, p', n)
    requires BlocksKept(tg2, live - {p} + {p'}, head2, foot2, head3, foot3)
    requires p in tg1.head && p' in tg1.head && n <= tg1.head[p].size - 8 && n <= tg1.head[p'].size - 8
    ensures BlocksKept(tg, live - {p}, head, foot, head3, foot3) && Carried(head, foot, p, head3, foot3, p', n)
  {
    hide Carried;
    var rest := live - {p};
    assert BlocksKept(tg, rest, head, foot, head1, foot1) && BlocksKept(tg1, rest, head1, foot1, head2, foot2);
    assert BlocksKept(tg2, rest, head2, foot2, head3, foot3) && SameBlocks(tg, tg2, rest);
    assert Carried(head, foot, p, head1, foot1, p, tg.head[p].size - 8);
    assert Carried(head2, foot2, p', head3, foot3, p', tg2.head[p'].size - 8);
    hide BlocksKept;
    KeptTwice(tg, tg1, rest, head, foot, head1, foot1, head2, foot2);
    KeptTwice(tg, tg2, rest, head, foot, head2, foot2, head3, foot3);
    CarriedTwice(head, foot, p, head1, foot1, p, head2, foot2, p', tg.head[p].size - 8, n);
    CarriedTwice(head, foot, p, head2, foot2, p', head3, foot3, p', n, tg2.head[p'].size - 8);
  }

  ghost function FirstTags(tbase: int): Tags {
    var t := tbase + STATE_SIZE;
    var size := GRANULARITY - STATE_SIZE - TOP_FOOT;
    Tags(map[tbase := Head(STATE_SIZE, true, true), t := Head(size, false, true),
             t + size := Head(TOP_FOOT, false, false)],
         map[], t, {t + size}, {}, {tbase})
  }

  lemma FirstTagsOk(tbase: int)
    requires Sane(Region(tbase, tbase + GRANULARITY))
    ensures TagsOk(FirstTags(tbase))
  {
  }

  lemma FirstHeapOk(tbase: int, h: Heap)
    requires Sane(Region(tbase, tbase + GRANULARITY))
    requires h.tg == FirstTags(tbase) && h.dv == 0 && h.dvsize == 0 && h.live == {}
             && h.segs == [Region(tbase, tbase + GRANULARITY)]
    requires |h.b.small| == |h.b.smallmap| == NSMALLBINS && |h.b.trees| == |h.b.treemap| == NTREEBINS
    requires forall i :: 0 <= i < NSMALLBINS ==> h.b.small[i] == [] && !h.b.smallmap[i]
    requires forall i :: 0 <= i < NTREEBINS ==> h.b.trees[i] == Empty && !h.b.treemap[i]
    ensures HeapOk(h, {})
  {
    FirstTagsOk(tbase);
    hide TagsOk;
    NothingPooled(h.b.small, h.b.trees);
    assert BinsOk(h.b.trees) by {
      forall i | 0 <= i < NTREEBINS ensures BinOk(i, h.b.trees[i]) { }
    }
    var seg := h.segs[0];
    assert forall q :: q in h.tg.head ==> Holds(seg, h.tg, q);
    assert HoldsTop(h.tg, h.segs[0]);
  }

  lemma {:induction false} NothingIn(small: seq<seq<int>>, trees: seq<Tree>, n: nat)
    requires forall i :: 0 <= i < |small| ==> small[i] == []
    requires forall i :: 0 <= i < |trees| ==> trees[i] == Empty
    ensures n <= |small| ==> SmallChunks(small, n) == multiset{}
    ensures n <= |trees| ==> TreeChunks(trees, n) == multiset{}
  {
    if n > 0 { NothingIn(small, trees, n - 1); }
  }

  lemma NothingPooled(small: seq<seq<int>>, trees: seq<Tree>)
    requires forall i :: 0 <= i < |small| ==> small[i] == []
    requires forall i :: 0 <= i < |trees| ==> trees[i] == Empty
    ensures Pool(small, trees) == multiset{}
  {
    NothingIn(small, trees, |small|);
    NothingIn(small, trees, |trees|);
  }

  lemma NotEmpty(t: Tree, path: seq<bool>)
    requires Subtree(t, path).Node?
    ensures t.Node?
  {
  }

  /** The lowest set bit of a bin map from position i on; the length of the map if there is none. */
  function FirstSet(bits: seq<bool>, i: nat): (r: nat)
    requires i <= |bits|
    ensures i <= r <= |bits| && (r < |bits| ==> bits[r]) && forall j :: i <= j < r ==> !bits[j]
    decreases |bits| - i
  {
    if i == |bits| || bits[i] then i else FirstSet(bits, i + 1)
  }

  class Allocator {
    /** Memory: head and foot words, with stale ones where chunks were merged away. */
    var head: map<int, Head>
    var foot: map<int, int>
    var top: int
    var topsize: nat
    var dv: int
    var dvsize: nat
    const smallbins: seq<SmallBin>
    const treebins: seq<TreeBin>
    var smallmap: seq<bool>
    var treemap: seq<bool>
    var segs: seq<Region>

    /** What the bins hold. */
    ghost var small: seq<seq<int>>
    ghost var trees: seq<Tree>

    /** Where chunks and marks start, which of them are marks, direct chunks and the allocator's own records,
        and the blocks handed out. */
    ghost var starts: set<int>
    ghost var fences: set<int>
    ghost var directs: set<int>
    ghost var records: set<int>
    ghost var live: set<int>

    ghost function Tg(): Tags
      reads this
    {
      Tags(Restrict(head, starts), foot, top, fences, directs, records)
    }

    ghost function State(): Heap
      reads this
    {
      Heap(Tg(), dv, dvsize, Bins(small, smallmap, trees, treemap), segs, live)
    }

    /** The lists and trees in memory are the bins. */
    ghost predicate Linked()
      reads this`small, this`trees, smallbins, treebins
    {
      SmallLoaded(smallbins, small) && TreesLoaded(treebins, trees)
    }

    ghost predicate Inv(loose: set<int>)
      reads this, smallbins, treebins
    {
      starts <= head.Keys && top in starts && head[top].size == topsize && HeapOk(State(), loose) && Linked()
    }

    ghost predicate Valid()
      reads this, smallbins, treebins
    {
      Inv({})
    }

    /** lj_alloc_create: one region, with the allocator's own state in its first chunk and the rest as top. */
    constructor (tbase: int)
      requires Sane(Region(tbase, tbase + GRANULARITY))
      ensures Valid() && live == {} && segs == [Region(tbase, tbase + GRANULARITY)]
      ensures fresh(smallbins) && fresh(treebins)
    {
      var lists := NewSmallBins();
      var tries := NewTreeBins();
      smallbins, treebins := lists, tries;
      var t := tbase + STATE_SIZE;
      var size := GRANULARITY - STATE_SIZE - TOP_FOOT;
      head := map[tbase := Head(STATE_SIZE, true, true), t := Head(size, false, true),
                  t + size := Head(TOP_FOOT, false, false)];
      foot := map[];
      top, topsize, dv, dvsize := t, size, 0, 0;
      small := seq(NSMALLBINS, _ => []);
      smallmap := seq(NSMALLBINS, _ => false);
      trees := seq(NTREEBINS, _ => Empty);
      treemap := seq(NTREEBINS, _ => false);
      segs := [Region(tbase, tbase + GRANULARITY)];
      starts, fences, directs, records, live := {tbase, t, t + size}, {t + size}, {}, {tbase}, {};
      new;
      hide HeapOk;
      assert Restrict(head, starts) == head;
      FirstHeapOk(tbase, State());
    }

    // -------------------------------------------------------------- bins

    /** insert_small_chunk: at the front of the list. */
    method InsertSmallChunk(p: int, i: nat)
      requires Linked() && i < |small| == |smallmap| && p > 0 && p !in small[i] && smallmap[i] == (small[i] != [])
      modifies this`small, this`smallmap, smallbins
      ensures small == old(small)[i := [p] + old(small)[i]] && smallmap == old(smallmap)[i := true]
      ensures Linked()
    {
      hide TreesLoaded;
      smallbins[i].Insert(p, smallmap[i]);
      smallmap := smallmap[i := true];
      small := small[i := [p] + small[i]];
    }

    /** insert_large_chunk. */
    method InsertTreeChunk(p: int, s: nat, i: nat)
      requires Linked() && i < |trees| == |treemap| && SizeInBin(i, s) && p > 0 && p !in Addrs(trees[i])
      requires treemap[i] == trees[i].Node?
      modifies this`trees, this`treemap, treebins
      ensures trees == old(trees)[i := Insert(old(trees)[i], BinBase(i), BinHeight(i), s, p)]
      ensures treemap == old(treemap)[i := true] && Linked()
    {
      hide SmallLoaded;
      hide SizeInBin;
      hide Insert;
      treebins[i].InsertLarge(p, s, treemap[i]);
      treemap := treemap[i := true];
      trees := trees[i := Insert(trees[i], BinBase(i), BinHeight(i), s, p)];
    }

    /** insert_chunk. */
    method InsertChunk(p: int, s: nat)
      requires BinShape(State().b) && Linked() && Unbinned(State().b, p, s)
      modifies this`small, this`smallmap, this`trees, this`treemap, smallbins, treebins
      ensures BinLengths(old(State().b)) && State() == old(State()).(b := InsertBins(old(State().b), p, s))
      ensures Linked()
    {
      hide TreeIndex;
      hide BinsOk;
      hide Linked;
      hide SizeInBin;
      ShapeLengths(State().b);
      if IsSmall(s) { InsertSmallChunk(p, s / 8); } else { InsertTreeChunk(p, s, TreeIndex(s)); }
      assert State().b == InsertBins(old(State().b), p, s);
    }

    /** unlink_small_chunk: the bit is cleared when both links of the chunk lead to the same place. */
    method UnlinkSmallChunk(p: int, i: nat, ghost k: nat)
      requires Linked() && i < |small| == |smallmap| && k < |small[i]| && small[i][k] == p && smallmap[i]
      modifies this`small, this`smallmap, smallbins
      ensures small == old(small)[i := Dropped(old(small)[i], k)] && smallmap == old(smallmap)[i := small[i] != []]
      ensures Linked()
    {
      hide TreesLoaded;
      var last := smallbins[i].Unlink(p, k);
      if last { smallmap := smallmap[i := false]; }
      small := small[i := Dropped(small[i], k)];
    }

    /** unlink_first_small_chunk. */
    method TakeFirst(i: nat) returns (p: int)
      requires Linked() && i < |small| == |smallmap| && small[i] != [] && smallmap[i]
      modifies this`small, this`smallmap, smallbins
      ensures p == old(small)[i][0] && small == old(small)[i := old(small)[i][1..]]
      ensures smallmap == old(smallmap)[i := small[i] != []] && Linked()
    {
      hide TreesLoaded;
      p := smallbins[i].First();
      var last := smallbins[i].UnlinkFirst(p);
      if last { smallmap := smallmap[i := false]; }
      small := small[i := small[i][1..]];
    }

    /** unlink_large_chunk: the bit is cleared when the root is gone. */
    method UnlinkTreeChunk(p: int, i: nat, ghost path: seq<bool>, ghost k: nat)
      requires Linked() && i < |trees| == |treemap| && treemap[i]
      requires Subtree(trees[i], path).Node? && k < |Subtree(trees[i], path).ring|
               && p == Subtree(trees[i], path).ring[k]
      modifies this`trees, this`treemap, treebins
      ensures trees == old(trees)[i := Unlink(old(trees)[i], path, k)] && treemap == old(treemap)[i := trees[i].Node?]
      ensures Linked()
    {
      hide SmallLoaded;
      hide Unlink;
      hide Subtree;
      var clear := treebins[i].UnlinkLarge(p, path, k);
      if clear { treemap := treemap[i := false]; }
      trees := trees[i := Unlink(trees[i], path, k)];
    }

    /** unlink_chunk. */
    method UnlinkChunk(p: int, s: nat)
      requires BinShape(State().b) && Linked() && Binned(State().b, p, s)
      requires if IsSmall(s) then IndexOf(small[s / 8], p) < |small[s / 8]| else TreeIndex(s) < NTREEBINS
      modifies this`small, this`smallmap, this`trees, this`treemap, smallbins, treebins
      ensures BinLengths(old(State().b)) && State() == old(State()).(b := UnlinkBins(old(State().b), p, s))
      ensures Linked()
    {
      hide TreeIndex;
      hide BinsOk;
      hide PathTo;
      hide Unlink;
      hide Linked;
      hide Subtree;
      ShapeLengths(State().b);
      if IsSmall(s) {
        IndexOfFinds(small[s / 8], p);
        UnlinkSmallChunk(p, s / 8, IndexOf(small[s / 8], p));
      } else {
        var i := TreeIndex(s);
        ghost var path := PathTo(trees[i], BinBase(i), BinHeight(i), s);
        IndexOfFinds(Subtree(trees[i], path).ring, p);
        NotEmpty(trees[i], path);
        UnlinkTreeChunk(p, i, path, IndexOf(Subtree(trees[i], path).ring, p));
      }
      assert State().b == UnlinkBins(old(State().b), p, s);
    }

    /** A free chunk leaves its bin. */
    method UnlinkFree(p: int, s: nat, ghost loose: set<int>)
      requires Inv(loose) && IsFree(Tg(), p) && p != top && p != dv && p !in loose && Tg().head[p].size == s
      modifies this`small, this`smallmap, this`trees, this`treemap, smallbins, treebins
      ensures Inv(loose + {p}) && Tg() == old(Tg())
    {
      hide HeapOk;
      hide TreeIndex;
      hide UnlinkBins;
      hide Linked;
      hide Binned;
      ghost var h := State();
      UnlinkHeap(h, loose, p);
      BinsOf(h, loose);
      FreeIsBinned(h, loose, p);
      UnlinkChunk(p, s);
    }

    /** replace_dv: the old victim goes into a small bin. */
    method ReplaceDv(r: int, rsize: nat)
      requires Inv({r}) && IsSmall(dvsize) && IsFree(Tg(), r) && r != top && Tg().head[r].size == rsize
      modifies this`small, this`smallmap, this`trees, this`treemap, this`dv, this`dvsize, smallbins, treebins
      ensures Inv({}) && Tg() == old(Tg()) && dv == r && dvsize == rsize
    {
      hide Linked;
      hide HeapOk;
      hide TreeIndex;
      hide InsertBins;
      ghost var h := State();
      BinsOf(h, {r});
      assert IsChunk(h.tg, r) && r > 0 by { PositiveChunk(h, {r}, r); }
      if dvsize != 0 {
        DropDv(h, {r});
        ghost var h1 := h.(dv := 0, dvsize := 0);
        assert {r} + {h.dv} == {r, h.dv};
        InsertHeap(h1, {r, h.dv}, h.dv);
        assert h1.tg.head[h.dv].size == dvsize by { DvSize(h, {r}); }
        PositiveChunk(h1, {r, h.dv}, h.dv);
        LooseIsUnbinned(h1, {r, h.dv}, h.dv);
        InsertChunk(dv, dvsize);
        ghost var h2 := h1.(b := State().b);
        assert {r, h.dv} - {h.dv} == {r} by { DvSize(h, {r}); }
        SetDv(h2, r);
      } else {
        SetDv(h, r);
      }
      dvsize := rsize;
      dv := r;
    }

    // -------------------------------------------------------------- taking chunks

    /** What an operation that hands out p has done to everything else. */
    twostate predicate Took(p: int, room: int, loose: set<int>)
      reads this, smallbins, treebins
    {
      && Inv(loose) && p !in old(live) && live == old(live) + {p} && p > 0
      && p in starts && Room(Tg(), p) >= room
      && SameBlocks(old(Tg()), Tg(), old(live))
      && OnlyTagWords(old(head), old(foot), old(starts), head, foot, starts)
    }

    /** set_inuse_and_pinuse on a whole chunk. */
    method SetInUse(p: int)
      requires Inv({p}) && IsFree(Tg(), p) && p != top
      modifies this`head, this`live
      ensures Took(p, old(head[p].size) - 8, {}) && Got(State(), p, old(head[p].size))
    {
      hide Linked;
      hide HeapOk;
      hide TagsOk;
      ghost var h := State();
      OccupyHeap(h, p);
      LooseIsNotLive(h, {p}, p);
      var s := head[p].size;
      var n := p + s;
      RestrictPut(head, starts, p, Head(s, true, true));
      head := head[p := Head(s, true, true)];
      RestrictPut(head, starts, n, head[n].(pinuse := true));
      head := head[n := head[n].(pinuse := true)];
      live := live + {p};
      assert Tg() == Occupy(h.tg, p);
      OccupyKeeps(h, p);
    }

    /** The first nb bytes of a free chunk are taken; the rest is a new free chunk. */
    method SplitChunk(p: int, nb: nat) returns (r: int)
      requires Inv({p}) && IsFree(Tg(), p) && p != top
      requires nb % 8 == 0 && MIN_CHUNK <= nb && nb + MIN_CHUNK <= head[p].size
      modifies this`head, this`foot, this`live, this`starts
      ensures Took(p, nb - 8, {r}) && Got(State(), p, nb) && r == p + nb
      ensures IsFree(Tg(), r) && r != top && Tg().head[r].size == old(head[p].size) - nb
    {
      hide Linked;
      hide HeapOk;
      hide TagsOk;
      ghost var h := State();
      SplitHeap(h, p, nb);
      SplitKeeps(h, p, nb);
      LooseIsNotLive(h, {p}, p);
      var rsize := head[p].size - nb;
      r := p + nb;
      WritesSplit(head, foot, starts, p, nb, rsize);
      hide OnlyTagWords;
      RestrictPut(head, starts, p, Head(nb, true, true));
      head := head[p := Head(nb, true, true)];
      RestrictPut(head, starts, r, Head(rsize, false, true));
      head := head[r := Head(rsize, false, true)];
      starts := starts + {r};
      foot := foot[r + rsize := rsize];
      live := live + {p};
      assert Tg() == SplitFree(h.tg, p, nb);
      hide SplitFree;
      hide SameBlocks;
      assert State() == h.(tg := SplitFree(h.tg, p, nb), live := h.live + {p});
    }

    /** Top gives nb bytes from its start. */
    method SplitTopChunk(nb: nat) returns (p: int)
      requires Inv({}) && nb % 8 == 0 && MIN_CHUNK <= nb < topsize
      modifies this`head, this`top, this`topsize, this`live, this`starts
      ensures Took(p, nb - 8, {}) && p == old(top) && Got(State(), p, nb)
      ensures top == p + nb && TopEnd(State()) == p + old(topsize) + TOP_FOOT
      ensures old(starts) <= starts && forall x :: x in old(starts) ==> head[x].pinuse == old(head)[x].pinuse
    {
      hide Linked;
      hide HeapOk;
      hide TagsOk;
      ghost var h := State();
      TopOf(h, {});
      SplitTopHeap(h, nb);
      SplitTopKeeps(h, nb);
      LooseIsNotLive(h, {}, top);
      assert head[top].pinuse && top + nb !in starts by { TopTags(h, nb); }
      topsize := topsize - nb;
      p := top;
      top := p + nb;
      WritesTopSplit(head, foot, starts, p, nb, topsize);
      hide OnlyTagWords;
      RestrictPut(head, starts, p, Head(nb, true, true));
      RestrictPut(head[p := Head(nb, true, true)], starts, top, Head(topsize, false, true));
      head := head[p := Head(nb, true, true)][top := Head(topsize, false, true)];
      starts := starts + {top};
      live := live + {p};
      assert Tg() == SplitTop(h.tg, nb);
      hide SplitTop;
      hide SameBlocks;
      assert State() == h.(tg := SplitTop(h.tg, nb), live := h.live + {p});
    }

    // -------------------------------------------------------------- malloc from the bins

    /** The first chunk of a marked small bin leaves it. */
    method UnlinkFirstSmall(i: nat) returns (p: int)
      requires Inv({}) && i < NSMALLBINS && |smallmap| == NSMALLBINS && smallmap[i]
      modifies this`small, this`smallmap, smallbins
      ensures Inv({p}) && IsFree(Tg(), p) && p != top && head[p].size == 8 * i && Tg() == old(Tg())
      ensures i < |old(small)| && old(small)[i] != [] && p == old(small)[i][0]
    {
      hide OnlyTagWords;
      hide SameBlocks;
      hide Linked;
      hide HeapOk;
      ghost var h := State();
      BinsOf(h, {});
      FirstIsPooled(h, i);
      UnlinkHeap(h, {}, small[i][0]);
      FirstDropped(small[i]);
      assert 8 * i / 8 == i && IsSmall(8 * i);
      p := TakeFirst(i);
      assert {} + {p} == {p};
      assert State().b.smallmap == UnlinkBins(h.b, p, 8 * i).smallmap;
      assert State() == h.(b := UnlinkBins(h.b, p, 8 * i));
    }

    /** The choice of tmalloc_small. */
    method PickSmallest(nb: nat) returns (p: int, size: nat)
      requires Inv({}) && |treemap| == NTREEBINS && FirstSet(treemap, 0) < NTREEBINS && nb < MIN_LARGE_SIZE
      ensures IsFree(Tg(), p) && p != top && p != dv && Tg().head[p].size == size >= MIN_LARGE_SIZE
      ensures FitAt(trees, p, size, 0)
    {
      hide HeapOk;
      hide TreeIndex;
      hide SmallLoaded;
      hide BinsOk;
      BinsOf(State(), {});
      var rsize;
      p, rsize := ChooseSmallest(treebins, trees, treemap, nb);
      ghost var v :| BestFit(trees, v, 0) && Points(p, v) && v.size == nb + rsize;
      NodeIsFree(State(), v);
      size := nb + rsize;
    }

    /** tmalloc_small. */
    method TreeMallocSmall(nb: nat) returns (p: int)
      requires Inv({}) && nb % 8 == 0 && MIN_CHUNK <= nb && IsSmall(nb) && IsSmall(dvsize)
      requires |treemap| == NTREEBINS && FirstSet(treemap, 0) < NTREEBINS
      requires dvsize < nb && nb / 8 <= |smallmap| && FirstSet(smallmap, nb / 8) == NSMALLBINS
      modifies this, smallbins, treebins
      ensures Took(p, nb - 8, {}) && FromBin(old(State()), State(), nb, p)
    {
      hide OnlyTagWords;
      hide SameBlocks;
      hide Linked;
      hide HeapOk;
      hide TreeIndex;
      hide UnlinkBins;
      ghost var h := State();
      BinsOf(h, {});
      hide FromBin;
      hide LeastFit;
      hide FitAt;
      var size;
      p, size := PickSmallest(nb);
      TreeLeast(h, nb, 0, p, size);
      UnlinkFree(p, size, {});
      assert {} + {p} == {p};
      var rsize := size - nb;
      assert Tg() == h.tg;
      if rsize < MIN_CHUNK {
        SetInUse(p);
      } else {
        SizeIsEven(State(), {p}, p);
        var r := SplitChunk(p, nb);
        ReplaceDv(r, rsize);
      }
      ChunkServes(h, State(), nb, p, size);
    }

    /** A remainderless fit. */
    method TakeExact(i: nat, nb: nat) returns (p: int)
      requires Inv({}) && nb % 8 == 0 && MIN_CHUNK <= nb && ExactBin(State().b, nb, i)
      modifies this, smallbins, treebins
      ensures Took(p, nb - 8, {}) && FromExact(old(State()), State(), nb, p)
    {
      hide OnlyTagWords;
      hide SameBlocks;
      hide Linked;
      hide HeapOk;
      hide FromExact;
      ghost var h := State();
      p := UnlinkFirstSmall(i);
      SetInUse(p);
      ExactServes(h, State(), nb, p, i);
    }

    /** The first chunk of the first marked bin behind the exact ones. */
    method TakeNext(i: nat, nb: nat) returns (p: int)
      requires Inv({}) && nb % 8 == 0 && MIN_CHUNK <= nb && IsSmall(nb) && dvsize < nb
      requires nb / 8 + 1 < i < NSMALLBINS && |smallmap| == NSMALLBINS && smallmap[i]
      requires forall j :: nb / 8 <= j < i ==> !smallmap[j]
      modifies this, smallbins, treebins
      ensures Took(p, nb - 8, {}) && FromBin(old(State()), State(), nb, p)
    {
      hide OnlyTagWords;
      hide SameBlocks;
      hide Linked;
      hide HeapOk;
      hide FromBin;
      hide LeastFit;
      ghost var h := State();
      SplitBinLeast(h, nb, i);
      p := UnlinkFirstSmall(i);
      var rsize := 8 * i - nb;
      if rsize < MIN_CHUNK {
        SetInUse(p);
      } else {
        var r := SplitChunk(p, nb);
        ReplaceDv(r, rsize);
      }
      ChunkServes(h, State(), nb, p, 8 * i);
    }

    /** The small-request part of malloc: 0 when the designated victim or top must serve. */
    method MallocSmall(nb: nat) returns (p: int)
      requires Inv({}) && nb % 8 == 0 && MIN_CHUNK <= nb && IsSmall(nb)
      modifies this, smallbins, treebins
      ensures p == 0
              ==> State() == old(State()) && Inv({}) && unchanged(this) && (nb <= dvsize || NoBinFits(State().b, nb))
      ensures p == 0 ==> NoExact(State().b, nb) && (nb <= dvsize || NoneFits(State(), nb))
      ensures p != 0 ==> Took(p, nb - 8, {}) && ServedSmall(old(State()), State(), nb, p)
    {
      hide OnlyTagWords;
      hide SameBlocks;
      hide Linked;
      hide HeapOk;
      hide TreeIndex;
      hide FromBin;
      hide LeastFit;
      hide FromExact;
      hide NoneFits;
      ghost var h := State();
      BinsOf(h, {});
      var idx := nb / 8;
      if smallmap[idx] || (idx + 1 < NSMALLBINS && smallmap[idx + 1]) {
        var i := if smallmap[idx] then idx else idx + 1;
        p := TakeExact(i, nb);
      } else if nb > dvsize {
        var i := FirstSet(smallmap, idx);
        if i < NSMALLBINS {
          p := TakeNext(i, nb);
        } else if FirstSet(treemap, 0) < NTREEBINS {
          p := TreeMallocSmall(nb);
        } else {
          p := 0;
          NothingSmallFits(h.b, nb);
          NoneFit(h, nb);
        }
      } else {
        p := 0;
      }
    }

    /** The choice of tmalloc_large. */
    method PickLarge(nb: nat) returns (p: int, size: nat)
      requires Inv({}) && MIN_LARGE_SIZE <= nb < SIZE_LIMIT && dvsize < SIZE_LIMIT
      ensures p == 0 ==> NoFit(trees, nb) || (nb <= dvsize && NoBetter(trees, nb, dvsize))
      ensures p != 0 ==> FitAt(trees, p, size, nb) && (nb <= dvsize ==> size < dvsize)
      ensures p != 0 ==> p > 0 && IsFree(Tg(), p) && p != top && p != dv && Tg().head[p].size == size >= nb
    {
      hide NoBetter;
      hide NoFit;
      hide HeapOk;
      hide TreeIndex;
      hide SmallLoaded;
      hide BinsOk;
      BinsOf(State(), {});
      var rsize;
      p, rsize := ChooseLarge(treebins, trees, treemap, nb, dvsize);
      if p != 0 {
        ghost var v :| BestFit(trees, v, nb) && Points(p, v) && v.size == nb + rsize;
        NodeIsFree(State(), v);
        PositiveChunk(State(), {}, p);
      }
      size := nb + rsize;
    }

    /** tmalloc_large: 0 when no chunk fits, or when the designated victim fits at least as well as every one
        that does. */
    method TreeMallocLarge(nb: nat) returns (p: int)
      requires Inv({}) && nb % 8 == 0 && MIN_CHUNK <= nb && !IsSmall(nb)
      modifies this, smallbins, treebins
      ensures p == 0
              ==> State() == old(State()) && Inv({}) && unchanged(this) && (nb <= dvsize || NoBinFits(State().b, nb))
      ensures p == 0 ==> NoneFits(State(), nb) || DvServes(State(), nb)
      ensures p != 0 ==> Took(p, nb - 8, {}) && FromBin(old(State()), State(), nb, p)
    {
      hide FromBin;
      hide LeastFit;
      hide NoneFits;
      hide DvServes;
      hide NoBetter;
      hide OnlyTagWords;
      hide SameBlocks;
      hide Linked;
      hide HeapOk;
      hide TreeIndex;
      hide UnlinkBins;
      ghost var h := State();
      BinsOf(h, {});
      DvSize(h, {});
      p := 0;
      if nb >= SIZE_LIMIT {
        HugeFits(h, nb);
        NoneFit(h, nb);
        return;
      }
      var size;
      p, size := PickLarge(nb);
      if p == 0 {
        if nb > dvsize { NothingLargeFits(h.b, nb, dvsize); }
        if NoFit(trees, nb) { NoneIsLeft(h, nb); } else { DvBetter(h, nb); }
        return;
      }
      TreeLeast(h, nb, nb, p, size);
      UnlinkFree(p, size, {});
      assert {} + {p} == {p};
      TakeLarge(p, nb, size);
      ChunkServes(h, State(), nb, p, size);
    }

    /** A chunk that has left its tree bin is taken whole or split, and the remainder goes into a bin. */
    method TakeLarge(p: int, nb: nat, size: nat)
      requires Inv({p}) && IsFree(Tg(), p) && p != top && p > 0 && Tg().head[p].size == size
      requires nb % 8 == 0 && MIN_CHUNK <= nb <= size
      modifies this, smallbins, treebins
      ensures Took(p, nb - 8, {}) && Got(State(), p, Cut(size, nb)) && dv == old(dv) && dvsize == old(dvsize)
    {
      hide OnlyTagWords;
      hide SameBlocks;
      hide Linked;
      hide HeapOk;
      hide TreeIndex;
      var rsize := size - nb;
      if rsize < MIN_CHUNK {
        SetInUse(p);
      } else {
        SizeIsEven(State(), {p}, p);
        var r := SplitChunk(p, nb);
        BinLoose(r, rsize);
      }
    }

    /** The designated victim serves the request. */
    method UseDv(nb: nat) returns (p: int)
      requires Inv({}) && nb % 8 == 0 && MIN_CHUNK <= nb <= dvsize
      modifies this, smallbins, treebins
      ensures Took(p, nb - 8, {}) && FromDv(old(State()), State(), nb, p)
    {
      hide OnlyTagWords;
      hide SameBlocks;
      hide Linked;
      hide HeapOk;
      ghost var h := State();
      DvSize(h, {});
      DropDv(h, {});
      assert {} + {h.dv} == {h.dv};
      var rsize := dvsize - nb;
      p := dv;
      dv, dvsize := 0, 0;
      assert State() == h.(dv := 0, dvsize := 0);
      if rsize >= MIN_CHUNK {
        var r := SplitChunk(p, nb);
        SetDv(State(), r);
        dv, dvsize := r, rsize;
      } else {
        SetInUse(p);
      }
    }

    // -------------------------------------------------------------- giving back

    /** What an operation that takes back p has done to everything else. */
    twostate predicate Gave(p: int, loose: set<int>)
      reads this, smallbins, treebins
    {
      && Inv(loose) && live == old(live) - {p} && segs == old(segs)
      && SameBlocks(old(Tg()), Tg(), live)
      && OnlyTagWords(old(head), old(foot), old(starts), head, foot, starts)
    }

    /** set_free_with_pinuse on the run from a on, which contains the block p. */
    method SetFree(a: int, size: nat, ghost p: int, ghost loose: set<int>, ghost i: nat)
      requires Inv(loose) && Run(State(), loose, a, a + size, p)
      requires IsChunk(Tg(), a + size) && head[a + size].cinuse
      requires i < |segs| && Holds(segs[i], Tg(), a) && Holds(segs[i], Tg(), a + size)
      modifies this`head, this`foot, this`starts, this`live
      ensures Gave(p, {a}) && IsFree(Tg(), a) && a != top && Tg().head[a].size == size
    {
      hide Linked;
      hide HeapOk;
      hide Run;
      hide Holds;
      hide OnlyTagWords;
      hide SameBlocks;
      var n := a + size;
      FreedHeap(State(), head, starts, loose, a, size, p, i);
      head := head[n := head[n].(pinuse := false)];
      head := head[a := Head(size, false, true)];
      foot := foot[n := size];
      starts := Outside(starts, a, n);
      live := live - {p};
    }

    /** The run from a on, which contains the block p, becomes part of top. */
    method JoinTop(a: int, size: nat, ghost p: int, ghost loose: set<int>, ghost i: nat)
      requires Inv(loose) && Run(State(), loose, a, a + size, p) && a + size == top
      requires i < |segs| && Holds(segs[i], Tg(), a) && Holds(segs[i], Tg(), top)
      modifies this`head, this`top, this`topsize, this`starts, this`live
      ensures Gave(p, {}) && top == a && topsize == old(topsize) + size
    {
      hide Linked;
      hide HeapOk;
      ghost var h := State();
      TopOf(h, loose);
      MergeTopHeap(h, loose, a, p, i);
      MergeTopKeeps(h, loose, a, p);
      assert a in starts && a < top;
      ghost var n := Next(h.tg, top);
      MergedTopRestrict(head, starts, a, n);
      WritesHead(head, foot, starts, a, Head(n - a, false, true), Outside(starts, a, n));
      hide OnlyTagWords;
      topsize := topsize + size;
      top := a;
      head := head[a := Head(topsize, false, true)];
      starts := Outside(starts, a, n);
      live := live - {p};
      assert n - a == topsize;
      assert Tg() == MergeTop(h.tg, a);
      hide MergeTop;
      hide SameBlocks;
      assert State() == h.(tg := MergeTop(h.tg, a), live := h.live - {p});
    }

    /** Freeing block: p is where the merged chunk will start, the block itself or the free chunk before it, which
        has left its bin unless it is the designated victim. */
    ghost predicate Freeing(loose: set<int>, p: int, block: int)
      reads this, smallbins, treebins
    {
      && Inv(loose) && block in live && block !in directs && block in starts
      && ((p == block && head[block].pinuse) || (PrevFree(Tg(), block, p) && p < block && p > 0))
      && loose == (if p == block || p == dv then {} else {p})
    }

    /** The victim before or behind the block is taken up into the merged chunk, which becomes the victim. */
    method MergeVictim(p: int, size: nat, ghost loose: set<int>, ghost block: int)
      requires Inv(loose) && block in live && block !in directs && block in starts && dvsize > 0 && 0 !in loose
      requires (p == block && head[block].pinuse) || (PrevFree(Tg(), block, p) && (p == dv || p in loose))
      requires var next := Next(Tg(), block);
               && next in starts
               && (if IsFree(Tg(), next) then next != top && (next == dv || next in loose)
                   && p + size == Next(Tg(), next)
                   else p + size == next)
               && forall q {:trigger q in loose} ::
                    q in loose + {dv} ==> (q == p && q != block) || (q == next && q != p + size)
      modifies this`dv, this`dvsize, this`head, this`foot, this`starts, this`live
      ensures Gave(block, {}) && p in starts
      ensures IsFree(Tg(), p) && Got(State(), p, size) && dv == p && dvsize == size
    {
      hide Linked;
      hide HeapOk;
      hide Holds;
      hide Run;
      hide SameBlocks;
      hide OnlyTagWords;
      hide PrevFree;
      ghost var h := State();
      ghost var i := VictimRun(h, loose, p, size, block);
      dv, dvsize := 0, 0;
      assert State() == h.(dv := 0, dvsize := 0) && Tg() == h.tg;
      SetFree(p, size, block, loose + {h.dv}, i);
      ghost var h2 := State();
      SetDv(h2, p);
      hide IsFree;
      hide Restrict;
      dv, dvsize := p, size;
      assert State() == h2.(dv := p, dvsize := size) && Tg() == h2.tg;
    }

    /** The chunk behind the block is in use: the merged chunk ends with the block. */
    method FreeBefore(p: int, psize: nat, ghost loose: set<int>, ghost block: int)
      requires Freeing(loose, p, block) && p != dv && head[block].size == psize - (block - p)
      requires p + psize in starts && head[p + psize].cinuse
      modifies this, smallbins, treebins
      ensures Gave(block, {}) && p in starts
      ensures IsFree(Tg(), p) && Got(State(), p, psize) && SameDv(old(State()), State()) && top == old(top)
    {
      hide HeapOk;
      hide Holds;
      hide Run;
      hide SameBlocks;
      hide OnlyTagWords;
      hide PrevFree;
      ghost var h := State();
      ghost var i := Neighbours(h, loose, block);
      assert p != block ==> p in loose;
      RunAround(h, loose, p, p + psize, block);
      SetFree(p, psize, block, loose, i);
      BinLoose(p, psize);
    }

    /** The merged chunk goes into its bin. */
    method BinLoose(p: int, psize: nat)
      requires Inv({p}) && IsFree(Tg(), p) && p != top && Tg().head[p].size == psize
      modifies this`small, this`smallmap, this`trees, this`treemap, smallbins, treebins
      ensures Inv({}) && Tg() == old(Tg())
    {
      hide Linked;
      hide HeapOk;
      hide TreeIndex;
      hide InsertBins;
      BinsOf(State(), {p});
      InsertHeap(State(), {p}, p);
      PositiveChunk(State(), {p}, p);
      LooseIsUnbinned(State(), {p}, p);
      assert {p} - {p} == {};
      InsertChunk(p, psize);
    }

    /** Top is behind the block. */
    method FreeToTop(p: int, psize: nat, ghost loose: set<int>, ghost block: int)
      requires Freeing(loose, p, block) && head[block].size == psize - (block - p) && p + psize == top
      modifies this, smallbins, treebins
      ensures Gave(block, {}) && p in starts
      ensures top == p && topsize == psize + old(topsize) && IsFree(Tg(), p) && Got(State(), p, topsize)
      ensures if p == old(dv) then dv == 0 && dvsize == 0 else SameDv(old(State()), State())
    {
      hide HeapOk;
      hide Holds;
      hide Run;
      hide SameBlocks;
      hide OnlyTagWords;
      hide PrevFree;
      ghost var h := State();
      ghost var i := Neighbours(h, loose, block);
      if p == dv {
        DvSize(h, loose);
        BlockIsNotDv(h, loose, block);
        DropDv(h, loose);
        assert loose + {p} == {p};
        dv, dvsize := 0, 0;
        RunAround(State(), {p}, p, top, block);
        JoinTop(p, psize, block, {p}, i);
      } else {
        RunAround(h, loose, p, top, block);
        JoinTop(p, psize, block, loose, i);
      }
      TopOf(State(), {});
    }

    /** A free chunk in a bin is behind the block. */
    method FreeToBin(p: int, psize: nat, ghost loose: set<int>, ghost block: int)
      requires Freeing(loose, p, block) && head[block].size == psize - (block - p)
      requires p + psize != top && p + psize != dv && IsFree(Tg(), p + psize)
      modifies this, smallbins, treebins
      ensures Gave(block, {}) && p in starts
      ensures var size := psize + old(Tg()).head[p + psize].size;
              && IsFree(Tg(), p) && Got(State(), p, size) && top == old(top)
              && if p == old(dv) then dv == p && dvsize == size else SameDv(old(State()), State())
    {
      hide Linked;
      hide HeapOk;
      hide Holds;
      hide Run;
      hide SameBlocks;
      hide OnlyTagWords;
      hide PrevFree;
      hide TreeIndex;
      hide UnlinkBins;
      ghost var h := State();
      ghost var i := Neighbours(h, loose, block);
      DvSize(h, loose);
      BlockIsNotDv(h, loose, block);
      var next := p + psize;
      var nsize := head[next].size;
      LooseIsNotLive(h, loose, next);
      UnlinkFree(next, nsize, loose);
      ghost var loose' := loose + {next};
      assert Tg() == h.tg;
      hide Restrict;
      hide HeapOk;
      if p == dv {
        MergeVictim(p, psize + nsize, loose', block);
      } else {
        assert p != block ==> p in loose;
        RunAround(State(), loose', p, next + nsize, block);
        SetFree(p, psize + nsize, block, loose', i);
        BinLoose(p, psize + nsize);
      }
    }

    /** munmap of a direct chunk. */
    method Unmap(p: int)
      requires Inv({}) && p in live && p in directs
      modifies this`starts, this`fences, this`directs, this`live
      ensures Gave(p, {}) && p !in Tg().head && SameDv(old(State()), State())
    {
      hide HeapOk;
      ghost var h := State();
      RemoveDirectHeap(h, p);
      DirectKeeps(h, p);
      ghost var n := Next(h.tg, p);
      starts := starts - {p, n};
      fences := fences - {n};
      directs := directs - {p};
      live := live - {p};
      assert Restrict(head, starts) == h.tg.head - {p, n};
      assert Tg() == RemoveDirect(h.tg, p);
      hide RemoveDirect;
      assert State() == h.(tg := RemoveDirect(h.tg, p), live := h.live - {p});
    }

    /** lj_alloc_free. */
    method Free(mem: int)
      requires Valid() && (mem == 0 || mem - 16 in live)
      modifies this, smallbins, treebins
      ensures mem == 0 ==> Valid() && unchanged(this)
      ensures mem != 0 ==> Gave(mem - 16, {})
      ensures mem != 0 ==> && mem - 16 in old(Tg()).head
                           && (old(Tg()).head[mem - 16].pinuse || mem - 16 in old(Tg()).foot)
                           && Returned(old(State()), State(), mem - 16)
    {
      hide Linked;
      hide HeapOk;
      hide Holds;
      hide TreeIndex;
      hide UnlinkBins;
      hide SameBlocks;
      hide OnlyTagWords;
      if mem == 0 { return; }
      ghost var h := State();
      var p := mem - 16;
      ghost var block := p;
      BeforeBlock(h, {}, p);
      BlockIsNotDv(h, {}, p);
      LiveAligned(h, p);
      DvSize(h, {});
      TopOf(h, {});
      var psize := head[p].size;
      var next := p + psize;
      if !head[p].pinuse && foot[p] % 2 == 1 {
        Unmap(p);
        return;
      }
      ghost var i := Neighbours(h, {}, p);
      ghost var loose: set<int> := {};
      if !head[p].pinuse {
        var prevsize := foot[p];
        p := p - prevsize;
        psize := psize + prevsize;
        PrevFacts(h, p, block);
        if p != dv {
          UnlinkFree(p, prevsize, {});
          loose := {p};
          assert {} + {p} == {p};
        } else if head[next].cinuse && head[next].pinuse {
          MergeVictim(p, psize, {}, block);
          return;
        }
      }
      assert Tg() == h.tg;
      FreeAround(p, psize, loose, block);
    }

    /** The block, merged with a free chunk before it, is merged with what is behind it. */
    method FreeAround(p: int, psize: nat, ghost loose: set<int>, ghost block: int)
      requires Freeing(loose, p, block) && head[block].size == psize - (block - p) && psize > 0
      requires p + psize in starts && p + psize == Next(Tg(), block)
      requires p == dv ==> head[p + psize].cinuse ==> !head[p + psize].pinuse
      modifies this, smallbins, treebins
      ensures Gave(block, {}) && Merged(old(State()), State(), p, p + psize, RunEnd(old(State()), block))
    {
      hide Linked;
      hide HeapOk;
      hide Holds;
      hide TreeIndex;
      hide UnlinkBins;
      hide SameBlocks;
      hide OnlyTagWords;
      hide PrevFree;
      ghost var h := State();
      ghost var i := Neighbours(h, loose, block);
      BlockIsNotDv(h, loose, block);
      DvSize(h, loose);
      TopOf(h, loose);
      var next := p + psize;
      if !head[next].cinuse {
        if next == top {
          FreeToTop(p, psize, loose, block);
        } else if next == dv {
          MergeVictim(p, psize + dvsize, loose, block);
        } else {
          FreeToBin(p, psize, loose, block);
        }
      } else {
        FreeBefore(p, psize, loose, block);
      }
    }

    // -------------------------------------------------------------- new memory

    /** What an operation that only adds memory has done to everything else. */
    twostate predicate Grew()
      reads this, smallbins, treebins
    {
      && Inv({}) && live == old(live)
      && SameBlocks(old(Tg()), Tg(), live)
      && OnlyTagWords(old(head), old(foot), old(starts), head, foot, starts)
    }

    /** The new region continues top's segment. */
    method ExtendTopSegment(j: nat, tsize: nat)
      requires Inv({}) && j < |segs| && HoldsTop(Tg(), segs[j]) && tsize % 8 == 0 && tsize > 0
      requires FreshRegion(Tg(), segs, Region(segs[j].end, segs[j].end + tsize))
      modifies this`segs, this`topsize, this`head, this`starts, this`fences
      ensures Grew() && topsize == old(topsize) + tsize && top == old(top)
      ensures segs == old(segs)[j := Region(old(segs)[j].base, old(segs)[j].end + tsize)]
      ensures foot == old(foot) && starts - old(starts) <= starts
    {
      hide Linked;
      hide HeapOk;
      hide SameBlocks;
      hide OnlyTagWords;
      hide FreshRegion;
      ghost var n := Next(Tg(), top);
      ExtendedHeap(State(), head, starts, j, tsize);
      segs := segs[j := Region(segs[j].base, segs[j].end + tsize)];
      topsize := topsize + tsize;
      head := head[top := Head(topsize, false, true)][top + topsize := Head(TOP_FOOT, false, false)];
      starts := starts - {n} + {top + topsize};
      fences := fences - {n} + {top + topsize};
    }

    /** The markers behind a segment record. */
    method WritePosts(sp: int, end: int)
      requires sp + 48 <= end && sp % 8 == 0 && end % 8 == 0
      modifies this`head
      ensures head == old(head) + Posts(sp, end)
    {
      hide Posts;
      var p := sp + 32;
      var more := true;
      ghost var e := p + 8;
      NoPosts(sp);
      while more
        invariant sp + 32 <= p <= end - 16 && p % 8 == 0
        invariant head == old(head) + Posts(sp, e) && e == (if more then p + 8 else p + 16)
        invariant more || p + 16 == end
        decreases more, end - p
      {
        NextPost(sp, p, p + 8, p + 16);
        head := head[p := Head(8, true, true)];
        e := p + 16;
        if p + 16 < end { p := p + 8; } else { more := false; }
      }
    }

    /** Where the record of the segment that holds top goes, and the end of that segment. */
    method RecordSpot() returns (sp: int, oldend: int)
      requires Inv({})
      ensures sp == RecordPlace(Tg()) && oldend == Next(Tg(), top) + TOP_FOOT && sp % 8 == 0 && oldend % 8 == 0
    {
      hide HeapOk;
      var k := HoldingTop();
      EndOfTop(State());
      oldend := segs[k].end;
      var rawsp := oldend - 71;
      var asp := rawsp + (8 - rawsp % 8) % 8;
      sp := if asp < top + MIN_CHUNK then top else asp;
    }

    /** The writes of add_segment: a record and markers seal the old segment, and top moves into the new one. */
    method Seal(tbase: int, tsize: nat, sp: int, oldend: int)
      requires top in Tg().head && topsize == Tg().head[top].size && tsize >= TOP_FOOT + 8
      requires sp == RecordPlace(Tg()) && oldend == Next(Tg(), top) + TOP_FOOT && sp % 8 == 0 && oldend % 8 == 0
      modifies this`head, this`foot, this`top, this`topsize, this`segs, this`starts, this`fences, this`records
      ensures head == SealedMemory(old(Tg()), old(head), tbase, tsize - TOP_FOOT)
      ensures starts == SealedStarts(old(Tg()), old(starts), tbase, tsize - TOP_FOOT)
      ensures Tg() == SealedTags(old(Tg()), old(head), old(starts), tbase, tsize - TOP_FOOT)
      ensures topsize == tsize - TOP_FOOT && segs == [Region(tbase, tbase + tsize)] + old(segs)
    {
      hide Linked;
      hide FencePosts;
      hide Posts;
      hide Restrict;
      ghost var tg, size, m, from := Tg(), tsize - TOP_FOOT, head, starts;
      var oldtop := top;
      top, topsize := tbase, tsize - TOP_FOOT;
      head := head[top := Head(topsize, false, true)][top + topsize := Head(TOP_FOOT, false, false)];
      head := head[sp := Head(32, true, true)];
      segs := [Region(tbase, tbase + tsize)] + segs;
      WritePosts(sp, oldend);
      starts := SealedStarts(tg, starts, tbase, size);
      hide SealedStarts;
      fences := fences - {Next(tg, oldtop)} + FencePosts(sp, oldend) + {tbase + size};
      records := records + {sp};
      if sp != oldtop {
        var psize := sp - oldtop;
        head := head[sp := Head(32, true, false)][oldtop := Head(psize, false, true)];
        foot := foot[sp := psize];
      }
      assert head == SealedMemory(tg, m, tbase, size);
      hide SealedMemory;
      hide SealedHeads;
      hide RecordPlace;
      assert Tg() == SealedTags(tg, m, from, tbase, size);
    }

    /** add_segment. */
    method AddSegment(tbase: int, tsize: nat)
      requires Inv({}) && tsize % 8 == 0 && tsize >= TOP_FOOT + 8
               && FreshRegion(Tg(), segs, Region(tbase, tbase + tsize))
      modifies this, smallbins, treebins
      ensures Grew() && top == tbase && topsize == tsize - TOP_FOOT
      ensures segs == [Region(tbase, tbase + tsize)] + old(segs)
    {
      hide Linked;
      hide HeapOk;
      hide SameBlocks;
      hide OnlyTagWords;
      hide FreshRegion;
      hide SealedMemory;
      hide SealedStarts;
      ghost var h := State();
      SealedHeap(h, head, starts, tbase, tsize - TOP_FOOT);
      var oldtop := top;
      var sp, oldend := RecordSpot();
      Seal(tbase, tsize, sp, oldend);
      assert State() == h.(tg := Tg(), segs := segs);
      if sp != oldtop {
        BinLoose(oldtop, sp - oldtop);
      }
    }

    /** The new region in front of segment j becomes two in-use chunks. */
    method AddFront(j: nat, p: int, nb: nat, qsize: nat)
      requires Inv({}) && j < |segs| && segs[j].base == p + nb + qsize
      requires nb % 8 == 0 && qsize % 8 == 0 && nb >= MIN_CHUNK && qsize >= MIN_CHUNK
      requires FreshRegion(Tg(), segs, Region(p, p + nb + qsize))
      modifies this`segs, this`head, this`starts, this`live
      ensures Inv({}) && live == old(live) + {p, p + nb} && p !in old(live) && p + nb !in old(live) && p > 0
      ensures SameBlocks(old(Tg()), Tg(), old(live))
      ensures OnlyTagWords(old(head), old(foot), old(starts), head, foot, starts) && starts == old(starts) + {p, p + nb}
      ensures head[p] == Head(nb, true, true) && head[p + nb] == Head(qsize, true, true) && p !in directs
              && p + nb !in directs
      ensures segs == old(segs)[j := Region(p, old(segs)[j].end)]
    {
      hide HeapOk;
      ghost var h := State();
      AddTwoHeap(h, j, p, nb, qsize);
      FrontKeeps(h, p, nb, qsize);
      FrontWrites(head, foot, starts, p, nb, qsize);
      hide OnlyTagWords;
      segs := segs[j := Region(p, segs[j].end)];
      var q := p + nb;
      RestrictPut(head, starts, p, Head(nb, true, true));
      RestrictPut(head[p := Head(nb, true, true)], starts + {p}, q, Head(qsize, true, true));
      head := head[p := Head(nb, true, true)][q := Head(qsize, true, true)];
      assert starts + {p} + {q} == starts + {p, q};
      starts := starts + {p, q};
      live := live + {p, q};
      assert Tg() == AddTwo(h.tg, p, nb, qsize);
      hide AddTwo;
      hide SameBlocks;
      assert State() == h.(tg := Tg(), segs := segs, live := live);
    }

    /** prepend_alloc: the request is served from the start of the region, and the rest joins what was the
        first chunk. */
    method PrependAlloc(j: nat, tbase: int, tsize: nat, nb: nat) returns (p: int)
      requires Inv({}) && j < |segs| && segs[j].base == tbase + tsize
      requires nb % 8 == 0 && tsize % 8 == 0 && nb >= MIN_CHUNK && tsize >= nb + MIN_CHUNK
      requires FreshRegion(Tg(), segs, Region(tbase, tbase + tsize))
      modifies this, smallbins, treebins
      ensures Took(p, nb - 8, {}) && p == tbase && segs == old(segs)[j := Region(tbase, old(segs)[j].end)]
    {
      hide HeapOk;
      hide SameBlocks;
      hide OnlyTagWords;
      hide FreshRegion;
      hide Holds;
      p := tbase;
      var oldfirst := segs[j].base;
      var q := p + nb;
      var qsize := tsize - nb;
      AddFront(j, p, nb, qsize);
      ghost var h, head1, starts1 := State(), head, starts;
      ghost var i := Neighbours(h, {}, q);
      BlockIsNotDv(h, {}, q);
      DvSize(h, {});
      if oldfirst == top {
        FreeToTop(q, qsize, {}, q);
      } else if oldfirst == dv {
        MergeVictim(q, qsize + dvsize, {}, q);
      } else if !head[oldfirst].cinuse {
        FreeToBin(q, qsize, {}, q);
      } else {
        FreeBefore(q, qsize, {}, q);
      }
      BlocksThen(old(Tg()), h.tg, Tg(), old(live), h.live - {q}, p);
      InRestrict(head, starts, p);
      WritesThen(old(head), old(foot), old(starts), head1, old(foot), starts1, head, foot, starts);
    }

    /** The tags of a direct chunk. */
    method MapDirect(p: int, psize: nat)
      requires Inv({}) && psize % 8 == 0 && psize >= MIN_CHUNK
      requires FreshRegion(Tg(), segs, Region(p, p + psize + DIRECT_FOOT_PAD))
      modifies this`head, this`foot, this`starts, this`fences, this`directs, this`live
      ensures Took(p, psize - 16, {}) && p in directs
    {
      hide Linked;
      hide HeapOk;
      hide FreshRegion;
      hide SameBlocks;
      hide OnlyTagWords;
      ghost var h := State();
      DirectHeap(h, head, starts, p, psize);
      var n := p + psize;
      foot := foot[p := 1];
      head := head[p := Head(psize, true, false)][n := Head(8, true, true)];
      starts := starts + {p, n};
      fences := fences + {n};
      directs := directs + {p};
      live := live + {p};
      assert State() == h.(tg := Tg(), live := live);
    }

    /** direct_alloc: a mapping of its own. */
    method DirectAlloc(nb: nat, m: Mapping) returns (p: int)
      requires Inv({}) && nb < WORD && nb >= MIN_CHUNK && Granted(State(), m, DirectSize(nb))
      modifies this`head, this`foot, this`starts, this`fences, this`directs, this`live
      ensures p == 0 ==> Inv({}) && unchanged(this) && (m.Failed? || DirectSize(nb) <= nb)
      ensures p != 0 ==> Took(p, nb - 8, {}) && DirectSize(nb) > nb && m == Mapped(p) && p in directs && top == old(top)
    {
      hide HeapOk;
      hide FreshRegion;
      hide SameBlocks;
      hide OnlyTagWords;
      p := 0;
      var mmsize := DirectSize(nb);
      if mmsize > nb && m.Mapped? {
        DirectSizeFits(nb);
        p := m.base;
        MapDirect(p, mmsize - DIRECT_FOOT_PAD);
      }
    }

    /** alloc_sys: a mapping of its own for a large request, else a new or larger segment. */
    method AllocSys(nb: nat, direct: Mapping, m: Mapping) returns (p: int)
      requires Inv({}) && (nb == WORD - 1 || (nb % 8 == 0 && MIN_CHUNK <= nb < WORD))
      requires Granted(State(), direct, DirectSize(nb)) && Granted(State(), m, SegmentSize(nb))
      modifies this, smallbins, treebins
      ensures p == 0 ==> Inv({}) && unchanged(this) && (m.Failed? || SegmentSize(nb) <= nb)
                         && (nb >= MMAP_THRESHOLD ==> direct.Failed? || DirectSize(nb) <= nb)
      ensures p != 0 ==> Took(p, nb - 8, {}) && (DirectSize(nb) > nb || SegmentSize(nb) > nb)
      ensures p != 0 ==> FromSystem(old(State()), State(), direct, m, nb, p)
    {
      hide HeapOk;
      hide FreshRegion;
      hide SameBlocks;
      hide OnlyTagWords;
      hide Holds;
      p := 0;
      if nb >= MMAP_THRESHOLD {
        p := DirectAlloc(nb, direct);
        if p != 0 { return; }
      }
      var rsize := SegmentSize(nb);
      if rsize > nb && m.Mapped? {
        SegmentSizeFits(nb);
        p := Grow(nb, m.base, rsize);
      }
    }

    /** A fresh region joins top's segment, goes in front of another one, or becomes a segment, and serves the
        request. */
    method Grow(nb: nat, tbase: int, tsize: nat) returns (p: int)
      requires Inv({}) && nb % 8 == 0 && MIN_CHUNK <= nb && tsize >= nb + TOP_FOOT + 1 && tsize % 8 == 0
      requires FreshRegion(Tg(), segs, Region(tbase, tbase + tsize))
      modifies this, smallbins, treebins
      ensures Took(p, nb - 8, {})
      ensures Placed(old(State()), State(), Region(tbase, tbase + tsize), nb, p)
    {
      hide HeapOk;
      hide FreshRegion;
      hide SameBlocks;
      hide OnlyTagWords;
      hide Holds;
      hide HoldsTop;
      hide Linked;
      ghost var h := State();
      TopOf(h, {});
      TopsEnd(h, tbase);
      var j := 0;
      while j < |segs| && tbase != segs[j].end
        invariant 0 <= j <= |segs| && forall k :: 0 <= k < j ==> tbase != segs[k].end
      {
        j := j + 1;
      }
      if j < |segs| && segs[j].base <= top < segs[j].end {
        TopSegment(h, j);
        ExtendTopSegment(j, tsize);
      } else {
        j := 0;
        while j < |segs| && segs[j].base != tbase + tsize
          invariant 0 <= j <= |segs| && forall k :: 0 <= k < j ==> segs[k].base != tbase + tsize
        {
          j := j + 1;
        }
        if j < |segs| {
          p := PrependAlloc(j, tbase, tsize, nb);
          return;
        }
        AddSegment(tbase, tsize);
      }
      ghost var tg, head1, foot1, starts1 := Tg(), head, foot, starts;
      p := SplitTopChunk(nb);
      BlocksOnto(old(Tg()), tg, Tg(), live - {p});
      assert live - {p} == old(live);
      WritesThen(old(head), old(foot), old(starts), head1, foot1, starts1, head, foot, starts);
    }

    /** lj_alloc_malloc: a block with room for nsize bytes.  There is none only if no free chunk can serve and the
        operating system refuses. */
    method Malloc(nsize: nat, direct: Mapping, m: Mapping) returns (mem: int)
      requires Valid() && nsize < WORD
      requires Granted(State(), direct, DirectSize(Request(nsize))) && Granted(State(), m, SegmentSize(Request(nsize)))
      modifies this, smallbins, treebins
      ensures mem != 0 ==> Took(mem - 16, nsize, {})
      ensures mem != 0 ==> Served(old(State()), State(), old(topsize), Request(nsize), mem - 16)
      ensures mem != 0 && BinsFail(old(State()), Request(nsize)) && old(topsize) <= Request(nsize)
              ==> FromSystem(old(State()), State(), direct, m, Request(nsize), mem - 16)
      ensures mem == 0 ==> Valid() && unchanged(this) && NothingFits(State(), Request(nsize))
      ensures mem == 0 ==> Refused(Request(nsize), direct, m)
    {
      hide Linked;
      hide HeapOk;
      hide FreshRegion;
      hide SameBlocks;
      hide OnlyTagWords;
      hide NoBinFits;
      hide NoExact;
      hide FromExact;
      hide FromBin;
      hide NoneFits;
      hide DvServes;
      hide BinsFail;
      var nb := Request(nsize);
      ghost var h := State();
      var p := 0;
      if nsize < MAX_REQUEST { RequestFits(nsize); }
      if nsize <= MAX_SMALL_REQUEST {
        p := MallocSmall(nb);
      } else if nsize >= MAX_REQUEST {
        HugeFits(h, nb);
        NoneFit(h, nb);
        LargeNoExact(h.b, nb);
        TooLarge();
      } else {
        LargeNoExact(h.b, nb);
        p := TreeMallocLarge(nb);
      }
      BinsServed(h, State(), nb, p);
      if p == 0 {
        BinsDone(h, nb);
        DvSize(h, {});
        TopSize(h);
        if nb <= dvsize {
          p := UseDv(nb);
        } else if nb < topsize {
          p := SplitTopChunk(nb);
        } else {
          NothingLeft(h, nb);
          p := AllocSys(nb, direct, m);
        }
      }
      mem := if p == 0 then 0 else p + 16;
    }

    // -------------------------------------------------------------- realloc

    /** The block at p has become the block at p' and has kept its contents, as far as there is room; all
        other blocks are as they were. */
    twostate predicate Moved(p: int, p': int, room: int)
      reads this, smallbins, treebins
    {
      && Inv({}) && live == old(live) - {p} + {p'} && (p' == p || p' !in old(live)) && p' > 0
      && p' in starts && Room(Tg(), p') >= room
      && SameBlocks(old(Tg()), Tg(), old(live) - {p})
      && BlocksKept(old(Tg()), old(live) - {p}, old(head), old(foot), head, foot)
      && p in old(Tg()).head
      && Carried(old(head), old(foot), p, head, foot, p', Min(room, Room(old(Tg()), p)))
    }

    /** set_inuse twice: a live block is cut into two. */
    method SplitBlock(p: int, nb: nat)
      requires Inv({}) && p in live && p !in directs && p in starts
      requires nb % 8 == 0 && MIN_CHUNK <= nb && nb + MIN_CHUNK <= head[p].size
      modifies this`head, this`starts, this`live
      ensures Inv({}) && live == old(live) + {p + nb} && p + nb !in old(live) && p + nb != p
      ensures SameBlocks(old(Tg()), Tg(), old(live) - {p}) && head[p].size == nb && p in Tg().head
      ensures OnlyTagWords(old(head), old(foot), old(starts), head, foot, starts) && p in starts
    {
      hide HeapOk;
      ghost var h := State();
      SplitUsedHeap(h, p, nb);
      LiveAreChunks(h, {});
      TopOf(h, {});
      hide SameBlocks;
      var rem, rsize := p + nb, head[p].size - nb;
      RestrictPut(head, starts, p, head[p].(size := nb));
      RestrictPut(head[p := head[p].(size := nb)], starts, rem, Head(rsize, true, true));
      head := head[p := head[p].(size := nb)];
      head := head[rem := Head(rsize, true, true)];
      starts := starts + {rem};
      live := live + {rem};
      assert Tg() == SplitUsed(h.tg, p, nb);
      hide SplitUsed;
      assert State() == h.(tg := Tg(), live := live);
    }

    /** The block grows into top. */
    method Expand(p: int, nb: nat)
      requires Inv({}) && p in live && p !in directs && p in starts && GrowPre(Tg(), p, nb)
      modifies this`head, this`starts, this`top, this`topsize
      ensures Moved(p, p, nb - 8) && Got(State(), p, nb)
    {
      hide HeapOk;
      hide TagsOk;
      hide Linked;
      hide BlocksKept;
      hide Carried;
      ghost var h, head0, starts0 := State(), head, starts;
      GrowHeap(h, p, nb);
      LiveAreChunks(h, {});
      hide SameBlocks;
      var newtopsize := head[p].size + topsize - nb;
      var newtop := p + nb;
      ghost var oldtop := top;
      GrownTags(head, starts, p, newtop, oldtop, head[p].(size := nb), Head(newtopsize, false, true));
      head := head[p := head[p].(size := nb)];
      head := head[newtop := Head(newtopsize, false, true)];
      top, topsize := newtop, newtopsize;
      starts := starts - {oldtop} + {newtop};
      assert Tg() == GrowIntoTop(h.tg, p, nb);
      hide GrowIntoTop;
      assert State() == h.(tg := Tg());
      assert live - {p} + {p} == live;
      KeptAfter(h, State(), head0, foot, starts0, head, foot, starts, p, nb - 8);
    }

    /** lj_alloc_realloc, with mremap refused: the block is kept, cut, grown into top, or moved. */
    method Realloc(mem: int, nsize: nat, direct: Mapping, m: Mapping) returns (mem': int)
      requires Valid() && mem - 16 in live && nsize < WORD
      requires Granted(State(), direct, DirectSize(Request(nsize))) && Granted(State(), m, SegmentSize(Request(nsize)))
      modifies this, smallbins, treebins
      ensures mem' != 0 ==> Moved(mem - 16, mem' - 16, nsize)
      ensures mem - 16 in old(Tg()).head
      ensures mem' == mem
              <==> nsize < MAX_REQUEST && CanStay(old(State()), old(topsize), mem - 16, Request(nsize))
      ensures mem' == mem ==> Got(State(), mem - 16, StaySize(old(State()), mem - 16, Request(nsize)))
      ensures mem' != mem && mem' != 0 ==> ServedAt(old(State()), old(topsize), Request(nsize), mem' - 16)
      ensures mem' == 0 ==> Valid() && unchanged(this)
      ensures mem' == 0 && nsize < MAX_REQUEST
              ==> NothingFits(State(), Request(nsize)) && Refused(Request(nsize), direct, m)
    {
      hide HeapOk;
      hide TagsOk;
      hide Linked;
      hide NothingFits;
      hide ServedAt;
      hide BlocksKept;
      hide FreshRegion;
      hide OnlyTagWords;
      ghost var h := State();
      LiveAreChunks(h, {});
      if nsize >= MAX_REQUEST { return 0; }
      RequestFits(nsize);
      var nb := Request(nsize);
      var p := mem - 16;
      BeforeBlock(h, {}, p);
      BlockIsNotDv(h, {}, p);
      SizeIsEven(h, {}, p);
      var oldsize := head[p].size;
      var next := p + oldsize;
      if !head[p].pinuse && foot[p] % 2 == 1 {
        if !IsSmall(nb) && oldsize >= nb + 8 && oldsize - nb <= GRANULARITY / 2 {
          Stays(p, nsize);
          return mem;
        }
      } else if oldsize >= nb {
        if oldsize - nb >= MIN_CHUNK {
          CutBlock(p, nb);
        } else {
          Stays(p, nsize);
        }
        return mem;
      } else if next == top && oldsize + topsize > nb {
        Growable(h, p, nb);
        Expand(p, nb);
        return mem;
      }
      mem' := MoveBlock(mem, nsize, direct, m);
    }

    /** The rest of the block is given back. */
    method CutBlock(p: int, nb: nat)
      requires Inv({}) && p in live && p !in directs && p in starts && p > 0
      requires nb % 8 == 0 && MIN_CHUNK <= nb && nb + MIN_CHUNK <= head[p].size
      modifies this, smallbins, treebins
      ensures Moved(p, p, nb - 8) && Got(State(), p, nb)
    {
      hide HeapOk;
      hide OnlyTagWords;
      hide Linked;
      hide BlocksKept;
      hide Carried;
      hide SameBlocks;
      ghost var h, head0, foot0, starts0 := State(), head, foot, starts;
      SplitBlock(p, nb);
      ghost var h1, head1, foot1, starts1 := State(), head, foot, starts;
      KeptAfter(h, h1, head0, foot0, starts0, head1, foot1, starts1, p, nb - 8);
      Free(p + nb + 16);
      assert live == old(live) == old(live) - {p} + {p};
      SameBlocksOf(h1.tg, Tg(), live, p);
      InRestrict(head, starts, p);
      BlocksCarried(h1, State(), head1, foot1, starts1, head, foot, starts, live);
      ThenKept(h.tg, h1.tg, Tg(), live, p, head0, foot0, head1, foot1, head, foot, p, Min(nb - 8, Room(h.tg, p)));
    }

    lemma Stays(p: int, room: int)
      requires Inv({}) && p in live && p > 0 && p in starts && Room(Tg(), p) >= room
      ensures Inv({}) && live == live - {p} + {p} && SameBlocks(Tg(), Tg(), live - {p})
      ensures BlocksKept(Tg(), live - {p}, head, foot, head, foot)
      ensures Carried(head, foot, p, head, foot, p, Min(room, Room(Tg(), p)))
    {
      LiveAreChunks(State(), {});
    }

    /** One word of memcpy into a live block. */
    method CopyWord(p: int, from: int, to: int)
      requires Valid() && p in live && p in starts && p + 16 <= to < p + head[p].size + 8 && to % 8 == 0
      modifies this`head, this`foot
      ensures Valid() && Tg().head == old(Tg().head)
      ensures head == Copy(old(head), from - 8, to - 8) && foot == Copy(old(foot), from, to)
    {
      hide HeapOk;
      hide Linked;
      ghost var h := State();
      if from - 8 in head {
        StoreOk(h, p, to, 0);
        assert Restrict(head[to - 8 := head[from - 8]], starts) == Restrict(head, starts);
        head := head[to - 8 := head[from - 8]];
        assert State() == h;
      }
      if from in foot {
        StoreOk(h, p, to, foot[from]);
        foot := foot[to := foot[from]];
        assert State() == h.(tg := h.tg.(foot := foot));
      }
    }

    /** memcpy of n bytes from block p to block p', in words. */
    method CopyBlock(p: int, p': int, n: nat)
      requires Valid() && p in live && p' in live && p != p' && p in starts && p' in starts
      requires n <= Room(Tg(), p) && n <= Room(Tg(), p')
      modifies this`head, this`foot
      ensures Valid() && Tg().head == old(Tg().head)
      ensures BlocksKept(old(Tg()), live - {p'}, old(head), old(foot), head, foot)
      ensures Carried(old(head), old(foot), p, head, foot, p', n)
    {
      hide Copied;
      hide Copy;
      hide HeapOk;
      hide Linked;
      hide BlocksKept;
      hide Carried;
      ghost var h := State();
      LiveAligned(h, p);
      LiveAligned(h, p');
      LiveBlocksDisjoint(h, p, p');
      assert head[p'].size == h.tg.head[p'].size;
      var d := 0;
      CopiedNone(head, foot, p, p');
      while d + 8 <= n
        invariant 0 <= d < n + 8 && d % 8 == 0 && (d > 0 ==> d <= n) && Valid() && Tg().head == h.tg.head
        invariant head[p'].size == h.tg.head[p'].size
        invariant Copied(old(head), old(foot), p, head, foot, p', d)
      {
        CopiedMore(old(head), old(foot), p, head, foot, p', d, h.tg.head[p].size, h.tg.head[p'].size);
        CopyWord(p', p + 16 + d, p' + 16 + d);
        d := d + 8;
      }
      CopiedAll(h, old(head), old(foot), p, head, foot, p', d, n);
    }

    /** A new block is taken, the contents are copied, and then the old block is freed. */
    method MoveBlock(mem: int, nsize: nat, direct: Mapping, m: Mapping) returns (mem': int)
      requires Valid() && mem - 16 in live && nsize < MAX_REQUEST
      requires Granted(State(), direct, DirectSize(Request(nsize))) && Granted(State(), m, SegmentSize(Request(nsize)))
      modifies this, smallbins, treebins
      ensures mem' == 0 ==> Valid() && unchanged(this)
                            && NothingFits(State(), Request(nsize)) && Refused(Request(nsize), direct, m)
      ensures mem' != 0 ==> Moved(mem - 16, mem' - 16, nsize) && mem' != mem
      ensures mem' != 0 ==> ServedAt(old(State()), old(topsize), Request(nsize), mem' - 16)
    {
      hide HeapOk;
      hide FreshRegion;
      hide OnlyTagWords;
      hide SameBlocks;
      hide Linked;
      hide NothingFits;
      hide Served;
      hide BinsFail;
      hide BlocksKept;
      hide Carried;
      ghost var h, head0, foot0, starts0 := State(), head, foot, starts;
      LiveAreChunks(h, {});
      InRestrict(head, starts, mem - 16);
      mem' := Malloc(nsize, direct, m);
      if mem' != 0 {
        var p, p' := mem - 16, mem' - 16;
        ghost var h1, head1, foot1 := State(), head, foot;
        assert ServedAt(h, old(topsize), Request(nsize), p');
        BlocksCarried(h, h1, head0, foot0, starts0, head1, foot1, starts, h.live);
        BeforeBlock(h1, {}, p);
        SameBlocksOf(h.tg, h1.tg, h.live, p);
        InRestrict(head, starts, p);
        LiveAligned(h1, p);
        var oc := head[p].size - (if !head[p].pinuse && foot[p] % 2 == 1 then 16 else 8);
        CopyBlock(p, p', if oc < nsize then oc else nsize);
        ghost var h2, head2, foot2, starts2 := State(), head, foot, starts;
        Free(mem);
        BlocksCarried(h2, State(), head2, foot2, starts2, head, foot, starts, live);
        assert live == h.live - {p} + {p'};
        SameTags(h1.tg, h2.tg, Tg(), live);
        BlocksVia(h.tg, h1.tg, Tg(), h.live, live, h.live - {p}, p');
        InRestrict(head, starts, p');
        MoveKept(h.tg, h1.tg, h2.tg, h.live, p, p', head0, foot0, head1, foot1, head2, foot2, head, foot,
                 if oc < nsize then oc else nsize);
      }
    }

    /** The owner of a block stores a word into it, whatever that word would mean as a tag. */
    method Store(p: int, w: int, asHead: Head, asFoot: int)
      requires Valid() && p in live && p in starts && p + 16 <= w < p + head[p].size + 8 && w % 8 == 0
      modifies this`head, this`foot
      ensures Valid() && Tg().head == old(Tg().head)
    {
      hide HeapOk;
      StoreOk(State(), p, w, asFoot);
      assert Restrict(head[w - 8 := asHead], starts) == Restrict(head, starts);
      head := head[w - 8 := asHead];
      foot := foot[w := asFoot];
      assert State() == old(State()).(tg := old(Tg()).(foot := foot));
    }

    /** segment_holding(top). */
    method HoldingTop() returns (k: nat)
      requires Inv({})
      ensures k < |segs| && HoldsTop(Tg(), segs[k])
    {
      hide HeapOk;
      ghost var w := TopsSegment(State());
      k := 0;
      while !(segs[k].base <= top < segs[k].end)
        invariant k <= w < |segs| && segs[w].base <= top < segs[w].end
        decreases |segs| - k
      {
        k := k + 1;
      }
      TopSegment(State(), k);
    }
  }

  function Posts(sp: int, end: int): map<int, Head> {
    map x | x in FencePosts(sp, end) :: Head(8, true, true)
  }

  /** The words written when top moves to a new segment. */
  function SealedHeads(head: map<int, Head>, top: int, topsize: nat, sp: int, end: int, base: int,
                       size: nat): map<int, Head> {
    var m := head[base := Head(size, false, true)]
                 [base + size := Head(TOP_FOOT, false, false)][sp := Head(32, true, true)]
             + Posts(sp, end);
    if sp == top then m else m[sp := Head(32, true, false)][top := Head(topsize, false, true)]
  }

  /** Those words make up the tags with the new top. */
  lemma SealedAt(h: Heap, head: map<int, Head>, starts: set<int>, base: int, size: nat, q: int)
    requires starts <= head.Keys && h.tg.head == Restrict(head, starts) && NewTopPre(h.tg, base, size)
    ensures var tg := h.tg;
            var n, sp := Next(tg, tg.top), RecordPlace(tg);
            var m := Restrict(SealedHeads(head, tg.top, tg.head[tg.top].size, sp, n + TOP_FOOT, base, size),
                              starts - {n} + FencePosts(sp, n + TOP_FOOT) + {sp, base, base + size});
            && (q in m <==> q in NewTop(tg, base, size).head)
            && (q in m && q in NewTop(tg, base, size).head ==> m[q] == NewTop(tg, base, size).head[q])
  {
    hide NewTop;
    hide FencePosts;
    hide ChunkOk;
    hide DirectOk;
    var tg := h.tg;
    ChunkIsTop(tg);
    TopPinuse(tg);
    var n, sp := Next(tg, tg.top), RecordPlace(tg);
    PositiveSizes(tg);
    NewTopHead(tg, base, size, q);
    InPosts(sp, n + TOP_FOOT, q);
    if q in tg.head { TailOfSegment(tg, q); }
  }

  ghost function SealedStarts(tg: Tags, starts: set<int>, base: int, size: nat): set<int>
    requires tg.top in tg.head
  {
    var n := Next(tg, tg.top);
    starts - {n} + FencePosts(RecordPlace(tg), n + TOP_FOOT) + {RecordPlace(tg), base, base + size}
  }

  ghost function SealedMemory(tg: Tags, head: map<int, Head>, base: int, size: nat): map<int, Head>
    requires tg.top in tg.head
  {
    SealedHeads(head, tg.top, tg.head[tg.top].size, RecordPlace(tg), Next(tg, tg.top) + TOP_FOOT, base, size)
  }

  ghost function SealedTags(tg: Tags, head: map<int, Head>, starts: set<int>, base: int, size: nat): Tags
    requires tg.top in tg.head
  {
    var n, sp := Next(tg, tg.top), RecordPlace(tg);
    Tags(Restrict(SealedMemory(tg, head, base, size), SealedStarts(tg, starts, base, size)),
         if sp == tg.top then tg.foot else tg.foot[sp := tg.head[tg.top].size], base,
         tg.fences - {n} + FencePosts(sp, n + TOP_FOOT) + {base + size}, tg.directs, tg.records + {sp})
  }

  lemma SealedIsNewTop(h: Heap, head: map<int, Head>, starts: set<int>, base: int, size: nat)
    requires starts <= head.Keys && h.tg.head == Restrict(head, starts) && NewTopPre(h.tg, base, size)
             && h.tg.top in starts
    ensures SealedTags(h.tg, head, starts, base, size) == NewTop(h.tg, base, size)
    ensures base in SealedStarts(h.tg, starts, base, size)
    ensures SealedStarts(h.tg, starts, base, size) <= SealedMemory(h.tg, head, base, size).Keys
  {
    ChunkIsTop(h.tg);
    hide TagsOk;
    hide Restrict;
    hide SealedHeads;
    hide FencePosts;
    var m := Restrict(SealedMemory(h.tg, head, base, size), SealedStarts(h.tg, starts, base, size));
    var m' := NewTop(h.tg, base, size).head;
    assert m == m' by {
      hide NewTop;
      forall q
        ensures (q in m <==> q in m') && (q in m && q in m' ==> m[q] == m'[q])
      {
        SealedAt(h, head, starts, base, size, q);
      }
    }
    NewTopRest(h.tg, base, size);
    SealedKeys(h, head, starts, base, size);
  }

  lemma SealedKeys(h: Heap, head: map<int, Head>, starts: set<int>, base: int, size: nat)
    requires starts <= head.Keys && h.tg.top in h.tg.head
    ensures base in SealedStarts(h.tg, starts, base, size)
    ensures SealedStarts(h.tg, starts, base, size) <= SealedMemory(h.tg, head, base, size).Keys
  {
    hide FencePosts;
  }

  /** Everything the move of top achieves. */
  lemma SealedHeap(h: Heap, head: map<int, Head>, starts: set<int>, base: int, size: nat)
    requires starts <= head.Keys && h.tg.head == Restrict(head, starts) && HeapOk(h, {}) && h.tg.top in starts
    requires size >= 8 && size % 8 == 0 && FreshRegion(h.tg, h.segs, Region(base, base + size + TOP_FOOT))
    ensures var tg := h.tg;
            var starts', head', tg' := SealedStarts(tg, starts, base, size), SealedMemory(tg, head, base, size),
                SealedTags(tg, head, starts, base, size);
            && starts' <= head'.Keys && base in starts' && base in tg'.head && tg'.head[base].size == size
            && HeapOk(h.(tg := tg', segs := [Region(base, base + size + TOP_FOOT)] + h.segs), Sealed(tg))
            && SameBlocks(tg, tg', h.live) && OnlyTagWords(head, tg.foot, starts, head', tg'.foot, starts')
            && (RecordPlace(tg) != tg.top
                ==> IsFree(tg', tg.top) && tg.top != base && tg'.head[tg.top].size == tg.head[tg.top].size)
  {
    NewTopHeap(h, base, size);
    NewTopIsPre(h, base, size);
    NewTopKeeps(h, base, size);
    hide HeapOk;
    SealedIsNewTop(h, head, starts, base, size);
    SealedWrites(h, head, starts, base, size);
    NewTopWho(h.tg, base, size, base);
    hide OnlyTagWords;
    hide SealedTags;
    hide SealedMemory;
    hide SealedStarts;
    hide TagsOk;
    hide SameBlocks;
    hide NewTop;
    hide FencePosts;
    hide FreshRegion;
    hide SealedHeads;
  }

  lemma NewTopIsPre(h: Heap, base: int, size: nat)
    requires HeapOk(h, {}) && size >= 8 && FreshRegion(h.tg, h.segs, Region(base, base + size + TOP_FOOT))
    ensures NewTopPre(h.tg, base, size) && h.tg.top in h.tg.head
  {
    ChunkIsTop(h.tg);
    FreshHoldsNothing(h.tg, h.segs, Region(base, base + size + TOP_FOOT));
    TopOffFresh(h, Region(base, base + size + TOP_FOOT));
  }

  lemma NewTopKeeps(h: Heap, base: int, size: nat)
    requires HeapOk(h, {}) && NewTopPre(h.tg, base, size)
    ensures SameBlocks(h.tg, NewTop(h.tg, base, size), h.live)
  {
    hide NewTop;
    ChunkIsTop(h.tg);
    NewTopRest(h.tg, base, size);
    hide TagsOk;
    hide PoolOk;
    hide FencePosts;
    forall q | q in h.live
      ensures q in NewTop(h.tg, base, size).head && NewTop(h.tg, base, size).head[q] == h.tg.head[q]
    {
      NewTopWho(h.tg, base, size, q);
    }
  }

  lemma SealedWrites(h: Heap, head: map<int, Head>, starts: set<int>, base: int, size: nat)
    requires starts <= head.Keys && h.tg.head == Restrict(head, starts) && h.tg.top in starts
             && NewTopPre(h.tg, base, size)
    ensures OnlyTagWords(head, h.tg.foot, starts, SealedMemory(h.tg, head, base, size),
                         SealedTags(h.tg, head, starts, base, size).foot,
                         SealedStarts(h.tg, starts, base, size))
  {
    PositiveSizes(h.tg);
    hide TagsOk;
    hide FencePosts;
  }

  lemma TopPinuse(tg: Tags)
    requires TagsOk(tg)
    ensures IsFree(tg, tg.top) && tg.head[tg.top].pinuse && Next(tg, tg.top) in tg.head
  {
    ChunkIsTop(tg);
  }

  /** A mapping is a fresh range of the size asked for. */
  ghost predicate Granted(h: Heap, m: Mapping, size: nat) {
    m.Mapped? ==> FreshRegion(h.tg, h.segs, Region(m.base, m.base + size))
  }

  lemma TopsSegment(h: Heap) returns (w: nat)
    requires HeapOk(h, {})
    ensures w < |h.segs| && h.segs[w].base <= h.tg.top < h.segs[w].end
  {
    ChunkIsTop(h.tg);
    var k :| 0 <= k < |h.segs| && HoldsTop(h.tg, h.segs[k]);
    w := k;
  }

  lemma EndOfTop(h: Heap)
    requires HeapOk(h, {})
    ensures h.tg.top in h.tg.head && h.tg.top % 8 == 0 && h.tg.head[h.tg.top].size % 8 == 0
  {
    ChunkIsTop(h.tg);
  }

  lemma NextPost(sp: int, p: int, e: int, e': int)
    requires sp % 8 == 0 && p % 8 == 0 && p >= sp + 32 && e == p + 8 && e' == p + 16
    ensures Posts(sp, e') == Posts(sp, e)[p := Head(8, true, true)]
  {
    assert forall x :: x in FencePosts(sp, e') <==> x in FencePosts(sp, e) || x == p by {
      forall x ensures x in FencePosts(sp, e') <==> x in FencePosts(sp, e) || x == p {
        InPosts(sp, e', x);
        InPosts(sp, e, x);
      }
    }
  }

  lemma NoPosts(sp: int)
    ensures Posts(sp, sp + 40) == map[]
  {
    var e := sp + 40;
    forall x ensures x !in FencePosts(sp, e) { InPosts(sp, e, x); }
  }

  lemma InRestrict(head: map<int, Head>, starts: set<int>, q: int)
    requires q in Restrict(head, starts)
    ensures q in starts && q in head && Restrict(head, starts)[q] == head[q]
  {
  }

  /** The segment that ends behind top's foot is the one that holds top. */
  lemma TopsEnd(h: Heap, x: int)
    requires HeapOk(h, {}) && h.tg.top in h.tg.head
    ensures forall j :: 0 <= j < |h.segs| && h.segs[j].end == x
                        ==> (h.segs[j].base <= h.tg.top < h.segs[j].end <==> x == Next(h.tg, h.tg.top) + TOP_FOOT)
    ensures x == Next(h.tg, h.tg.top) + TOP_FOOT ==> exists j :: 0 <= j < |h.segs| && h.segs[j].end == x
  {
    ChunkIsTop(h.tg);
    var k :| 0 <= k < |h.segs| && HoldsTop(h.tg, h.segs[k]);
    hide PoolOk;
    hide TagsOk;
    forall j | 0 <= j < |h.segs| && h.segs[j].end == x
      ensures h.segs[j].base <= h.tg.top < h.segs[j].end <==> x == Next(h.tg, h.tg.top) + TOP_FOOT
    {
      assert j < k ==> Off(h.segs[j], h.segs[k]);
      assert k < j ==> Off(h.segs[k], h.segs[j]);
      assert Sane(h.segs[j]) && Sane(h.segs[k]);
    }
  }

  lemma TopSegment(h: Heap, j: nat)
    requires HeapOk(h, {}) && j < |h.segs| && h.segs[j].base <= h.tg.top < h.segs[j].end
    ensures HoldsTop(h.tg, h.segs[j])
  {
    ChunkIsTop(h.tg);
    var k :| 0 <= k < |h.segs| && HoldsTop(h.tg, h.segs[k]);
    hide PoolOk;
    hide TagsOk;
    assert j < k ==> Off(h.segs[j], h.segs[k]);
    assert k < j ==> Off(h.segs[k], h.segs[j]);
  }

  /** The effect of the writes that extend top by d bytes. */
  lemma ExtendedHeap(h: Heap, head: map<int, Head>, starts: set<int>, j: nat, d: nat)
    requires starts <= head.Keys && h.tg.head == Restrict(head, starts) && HeapOk(h, {}) && h.tg.top in starts
    requires j < |h.segs| && HoldsTop(h.tg, h.segs[j]) && d % 8 == 0 && d > 0
    requires FreshRegion(h.tg, h.segs, Region(h.segs[j].end, h.segs[j].end + d))
    ensures var n := Next(h.tg, h.tg.top);
            var size := h.tg.head[h.tg.top].size + d;
            var starts' := starts - {n} + {n + d};
            var head' := head[h.tg.top := Head(size, false, true)][n + d := Head(TOP_FOOT, false, false)];
            var tg' := h.tg.(head := Restrict(head', starts'), fences := h.tg.fences - {n} + {n + d});
            && starts' <= head'.Keys && h.tg.top in starts' && head'[h.tg.top].size == size
            && HeapOk(h.(tg := tg', segs := h.segs[j := Region(h.segs[j].base, h.segs[j].end + d)]), {})
            && SameBlocks(h.tg, tg', h.live) && OnlyTagWords(head, h.tg.foot, starts, head', h.tg.foot, starts')
  {
    var n := Next(h.tg, h.tg.top);
    var size := h.tg.head[h.tg.top].size + d;
    ChunkIsTop(h.tg);
    ExtendTopHeap(h, j, d);
    assert SameBlocks(h.tg, ExtendTop(h.tg, d), h.live) by {
      FreshHoldsNothing(h.tg, h.segs, Region(h.segs[j].end, h.segs[j].end + d));
      MarkMoves(h.tg, d);
      hide TagsOk;
      hide PoolOk;
    }
    hide HeapOk;
    hide TagsOk;
    var starts' := starts - {n} + {n + d};
    var head' := head[h.tg.top := Head(size, false, true)][n + d := Head(TOP_FOOT, false, false)];
    assert Restrict(head', starts') == ExtendTop(h.tg, d).head;
  }

  lemma FrontKeeps(h: Heap, p: int, nb: nat, qsize: nat)
    requires HeapOk(h, {}) && p !in h.tg.head && p + nb !in h.tg.head
             && FreshRegion(h.tg, h.segs, Region(p, p + nb + qsize))
    ensures SameBlocks(h.tg, AddTwo(h.tg, p, nb, qsize), h.live)
    ensures p !in h.tg.directs && p + nb !in h.tg.directs && p > 0 && p !in h.live && p + nb !in h.live
            && h.tg.top in h.tg.head
  {
    Unlisted(h.tg, p);
    Unlisted(h.tg, p + nb);
    hide PoolOk;
    hide RegionsOk;
  }

  lemma FrontWrites(head: map<int, Head>, foot: map<int, int>, starts: set<int>, p: int, nb: nat, qsize: nat)
    ensures OnlyTagWords(head, foot, starts, head[p := Head(nb, true, true)][p + nb := Head(qsize, true, true)], foot,
                         starts + {p, p + nb})
  {
  }

  lemma DirectWrites(head: map<int, Head>, foot: map<int, int>, starts: set<int>, p: int, psize: nat)
    requires psize > 0
    ensures OnlyTagWords(head, foot, starts, head[p := Head(psize, true, false)][p + psize := Head(8, true, true)],
                         foot[p := 1], starts + {p, p + psize})
  {
  }

  lemma FreshForDirect(h: Heap, p: int, psize: nat)
    requires HeapOk(h, {}) && p !in h.tg.head && FreshRegion(h.tg, h.segs, Region(p, p + psize + DIRECT_FOOT_PAD))
             && psize > 0
    ensures p + psize !in h.tg.head && p > 0 && p !in h.live && h.tg.top in h.tg.head
  {
    FreshHoldsNothing(h.tg, h.segs, Region(p, p + psize + DIRECT_FOOT_PAD));
    PositiveSizes(h.tg);
  }

  lemma AddDirectKeeps(h: Heap, p: int, psize: nat)
    requires HeapOk(h, {}) && p !in h.tg.head && p + psize !in h.tg.head
    ensures SameBlocks(h.tg, AddDirect(h.tg, p, psize), h.live)
  {
    hide PoolOk;
    hide RegionsOk;
  }

  /** No free chunk can serve a request of nb bytes; top must keep at least one byte. */
  ghost predicate NothingFits(h: Heap, nb: nat) {
    && (forall p {:trigger IsFree(h.tg, p)} :: IsFree(h.tg, p) && p != h.tg.top ==> h.tg.head[p].size < nb)
    && h.tg.top in h.tg.head && h.tg.head[h.tg.top].size <= nb
  }

  lemma NothingLeft(h: Heap, nb: nat)
    requires HeapOk(h, {}) && NoBinFits(h.b, nb) && h.dvsize < nb && h.tg.top in h.tg.head
             && h.tg.head[h.tg.top].size <= nb
    ensures NothingFits(h, nb)
  {
    DvSize(h, {});
    hide TagsOk;
    hide RegionsOk;
    forall p | IsFree(h.tg, p) && p != h.tg.top ensures h.tg.head[p].size < nb {
      var c := Chunk(p, h.tg.head[p].size);
      if p != h.dv {
        assert Binnable(h.tg, h.dv, {}, c);
        assert Pool(h.b.small, h.b.trees)[c] == 1;
      } else {
        DvIsPositive(h, p);
      }
    }
  }

  lemma DvIsPositive(h: Heap, p: int)
    requires HeapOk(h, {}) && IsChunk(h.tg, p) && p == h.dv
    ensures h.dvsize > 0
  {
    ChunkIs(h.tg, p);
  }

  lemma TopSize(h: Heap)
    requires HeapOk(h, {})
    ensures h.tg.top in h.tg.head && h.tg.head[h.tg.top].size < SIZE_LIMIT
  {
    ChunkIsTop(h.tg);
    SizeBound(h.tg, h.segs, h.tg.top);
  }

  lemma BlocksOnto(tg: Tags, tg1: Tags, tg2: Tags, live: set<int>)
    requires SameBlocks(tg, tg1, live) && SameBlocks(tg1, tg2, live)
    ensures SameBlocks(tg, tg2, live)
  {
  }

  /** The effect of the writes of MapDirect. */
  lemma DirectHeap(h: Heap, head: map<int, Head>, starts: set<int>, p: int, psize: nat)
    requires starts <= head.Keys && h.tg.head == Restrict(head, starts) && HeapOk(h, {}) && psize % 8 == 0
             && psize >= MIN_CHUNK
    requires FreshRegion(h.tg, h.segs, Region(p, p + psize + DIRECT_FOOT_PAD))
    ensures var head' := head[p := Head(psize, true, false)][p + psize := Head(8, true, true)];
            var starts' := starts + {p, p + psize};
            var tg' := h.tg.(head := Restrict(head', starts'), foot := h.tg.foot[p := 1],
                             fences := h.tg.fences + {p + psize},
                             directs := h.tg.directs + {p});
            && starts' <= head'.Keys && p > 0 && p !in h.live
            && HeapOk(h.(tg := tg', live := h.live + {p}), {})
            && SameBlocks(h.tg, tg', h.live) && OnlyTagWords(head, h.tg.foot, starts, head', tg'.foot, starts')
            && p in tg'.head && Room(tg', p) == psize - 16
            && h.tg.top in starts' && head'[h.tg.top] == head[h.tg.top]
  {
    AddDirectHeap(h, p, psize);
    FreshForDirect(h, p, psize);
    AddDirectKeeps(h, p, psize);
    hide HeapOk;
    hide FreshRegion;
    hide SameBlocks;
    DirectWrites(head, h.tg.foot, starts, p, psize);
    hide OnlyTagWords;
    var n := p + psize;
    RestrictPut(head, starts, p, Head(psize, true, false));
    RestrictPut(head[p := Head(psize, true, false)], starts + {p}, n, Head(8, true, true));
    assert starts + {p} + {n} == starts + {p, n};
  }

  /** Stores into a block meet no tag that anyone reads. */
  lemma StoreOk(h: Heap, p: int, w: int, v: int)
    requires HeapOk(h, {}) && p in h.live && p in h.tg.head && BlockStart(p) <= w < BlockEnd(h.tg, p) && w % 8 == 0
    ensures w - 8 !in h.tg.head
    ensures HeapOk(h.(tg := h.tg.(foot := h.tg.foot[w := v])), {})
  {
    var tg, tg' := h.tg, h.tg.(foot := h.tg.foot[w := v]);
    ChunkIs(tg, p);
    Inside(tg, p, w - 8);
    if w < Next(tg, p) { Inside(tg, p, w); }
    assert w in tg.head ==> w == Next(tg, p) && tg.head[w].pinuse;
    assert TagsOk(tg') by {
      hide PoolOk;
      hide RegionsOk;
      hide SegmentsOk;
      forall q | IsChunk(tg', q) ensures ChunkOk(tg', q) {
        ChunkIs(tg, q);
        if !tg.head[q].cinuse && q != tg.top { AfterFree(tg, q); }
      }
      forall x, y | x in tg'.head && y in tg'.head ensures Apart(tg', x, y) { assert Apart(tg, x, y); }
      forall q | q in tg'.directs ensures DirectOk(tg', q) { assert DirectOk(tg, q); }
    }
    hide TagsOk;
    StoreRest(h, w, v);
  }

  lemma StoreRest(h: Heap, w: int, v: int)
    requires HeapOk(h, {})
    ensures var tg' := h.tg.(foot := h.tg.foot[w := v]);
            && PoolOk(tg', h.dv, {}, h.b) && DvOk(tg', h.dv, h.dvsize) && LiveOk(tg', h.live)
            && RegionsOk(tg', h.segs) && SegmentsOk(tg', h.segs)
  {
    var tg' := h.tg.(foot := h.tg.foot[w := v]);
    TopOf(h, {});
    DirectsAreChunks(h.tg);
    hide TagsOk;
    PoolFrame(h.tg, h.dv, {}, h.b, tg', h.dv, {});
    hide PoolOk;
    forall q | IsChunk(tg', q) && tg'.head[q].cinuse
      ensures q in h.live || q in tg'.records
    {
      assert IsChunk(h.tg, q);
    }
    forall q | q in tg'.head ensures Stays(h.tg, tg', h.segs, q) { }
    RegionsFrame(h.tg, tg', h.segs);
    SegmentsFrame(h.tg, tg', h.segs);
  }

  lemma BlocksVia(tg: Tags, tg1: Tags, tg2: Tags, live: set<int>, live2: set<int>, rest: set<int>, p: int)
    requires SameBlocks(tg, tg1, live) && SameBlocks(tg1, tg2, live2) && rest <= live && rest <= live2 && p in live2
    ensures SameBlocks(tg, tg2, rest)
    ensures p in tg1.head && p in tg2.head && Room(tg2, p) == Room(tg1, p)
  {
    assert forall q :: q in rest ==> q in live && q in live2;
  }

  lemma LiveAreChunks(h: Heap, loose: set<int>)
    requires HeapOk(h, loose)
    ensures forall p :: p in h.live ==> IsChunk(h.tg, p) && h.tg.head[p].cinuse && p > 0
  {
    forall p | p in h.live ensures IsChunk(h.tg, p) && h.tg.head[p].cinuse && p > 0 { ChunkIs(h.tg, p); }
  }

  lemma GrownTags(head: map<int, Head>, starts: set<int>, p: int, r: int, top: int, w: Head, v: Head)
    requires starts <= head.Keys && p in starts && p != top
    ensures Restrict(head[p := w][r := v], starts - {top} + {r}) == (Restrict(head, starts) - {top})[p := w][r := v]
  {
  }

  /** A block in front of top that is too small alone, but not together with it. */
  lemma Growable(h: Heap, p: int, nb: nat)
    requires HeapOk(h, {}) && p in h.live && p !in h.tg.directs && p in h.tg.head && Next(h.tg, p) == h.tg.top
             && nb % 8 == 0
    requires h.tg.top in h.tg.head && h.tg.head[p].size < nb < h.tg.head[p].size + h.tg.head[h.tg.top].size
    ensures GrowPre(h.tg, p, nb)
  {
    LiveResizable(h, {}, p);
  }

  /** Two operations in a row. */
  lemma BlocksThen(tg: Tags, tg1: Tags, tg2: Tags, live: set<int>, live1: set<int>, p: int)
    requires SameBlocks(tg, tg1, live) && SameBlocks(tg1, tg2, live1) && live1 == live + {p} && p in tg1.head
             && p !in tg1.directs
    ensures SameBlocks(tg, tg2, live) && p in tg2.head && tg2.head[p].size == tg1.head[p].size && p !in tg2.directs
  {
    assert forall q :: q in live ==> q in live1;
  }

  lemma WritesThen(head: map<int, Head>, foot: map<int, int>, starts: set<int>, head1: map<int, Head>,
                   foot1: map<int, int>,
                   starts1: set<int>, head2: map<int, Head>, foot2: map<int, int>, starts2: set<int>)
    requires OnlyTagWords(head, foot, starts, head1, foot1, starts1)
             && OnlyTagWords(head1, foot1, starts1, head2, foot2, starts2)
    requires forall x {:trigger x in starts1} :: x in starts1 ==> x in starts || x in starts2
    requires foot == foot1
             || (starts1 <= starts2 && foot1 == foot2 && starts2 <= head2.Keys && starts1 <= head1.Keys
                 && forall x {:trigger x in starts1} :: x in starts1 ==> head2[x].pinuse == head1[x].pinuse)
    ensures OnlyTagWords(head, foot, starts, head2, foot2, starts2)
  {
    forall x | x !in starts && x !in starts2 ensures SameHead(head, head2, x) {
      assert SameHead(head, head1, x) && SameHead(head1, head2, x);
    }
    forall x | x !in starts2 || (x in head2 && head2[x].pinuse) ensures SameFoot(foot, foot2, x) {
      assert SameFoot(foot1, foot2, x);
      assert foot == foot1 || SameFoot(foot, foot1, x);
    }
  }

  lemma DirectKeeps(h: Heap, p: int)
    requires HeapOk(h, {}) && p in h.tg.directs && p in h.tg.head
    ensures SameBlocks(h.tg, RemoveDirect(h.tg, p), h.live - {p})
    ensures h.tg.top != p && h.tg.top != Next(h.tg, p)
  {
    ChunkIs(h.tg, p);
    ChunkIsTop(h.tg);
    assert DirectOk(h.tg, p);
  }

  lemma BlockIsNotDv(h: Heap, loose: set<int>, block: int)
    requires HeapOk(h, loose) && block in h.live
    ensures block != h.dv && block > 0
  {
    ChunkIs(h.tg, block);
  }

  /** The effect of the writes of SetFree. */
  lemma FreedHeap(h: Heap, head: map<int, Head>, starts: set<int>, loose: set<int>, a: int, size: nat, p: int, i: nat)
    requires starts <= head.Keys && h.tg.head == Restrict(head, starts) && HeapOk(h, loose)
             && Run(h, loose, a, a + size, p)
    requires IsChunk(h.tg, a + size) && h.tg.head[a + size].cinuse
    requires i < |h.segs| && Holds(h.segs[i], h.tg, a) && Holds(h.segs[i], h.tg, a + size)
    ensures var n := a + size;
            var starts' := Outside(starts, a, n);
            var head' := head[n := head[n].(pinuse := false)][a := Head(size, false, true)];
            var tg' := h.tg.(head := Restrict(head', starts'), foot := h.tg.foot[n := size]);
            && starts' <= head'.Keys && HeapOk(h.(tg := tg', live := h.live - {p}), {a})
            && SameBlocks(h.tg, tg', h.live - {p}) && OnlyTagWords(head, h.tg.foot, starts, head', tg'.foot, starts')
            && a in starts' && head'[a] == Head(size, false, true) && a != h.tg.top && IsFree(tg', a)
            && h.tg.top in starts && h.tg.top in starts' && head'[h.tg.top].size == head[h.tg.top].size
  {
    var n := a + size;
    MergeHeap(h, loose, a, n, p, i);
    MergeKeeps(h, loose, a, n, p);
    TopOutside(h, loose, a, n, p);
    TopOf(h, loose);
    hide HeapOk;
    assert a < n && a in starts && n in starts;
    hide Run;
    hide Holds;
    hide SameBlocks;
    MergedRestrict(head, starts, a, n);
    WritesMerge(head, h.tg.foot, starts, a, n);
    hide OnlyTagWords;
    var head' := head[n := head[n].(pinuse := false)][a := Head(size, false, true)];
    assert h.tg.(head := Restrict(head', Outside(starts, a, n)), foot := h.tg.foot[n := size]) == MergeRun(h.tg, a, n);
  }

  lemma WritesMerge(head: map<int, Head>, foot: map<int, int>, starts: set<int>, a: int, n: int)
    requires starts <= head.Keys && a in starts && n in starts && a < n
    ensures OnlyTagWords(head, foot, starts, head[n := head[n].(pinuse := false)][a := Head(n - a, false, true)],
                         foot[n := n - a], Outside(starts, a, n))
  {
  }

  lemma WritesHead(head: map<int, Head>, foot: map<int, int>, starts: set<int>, a: int, w: Head, starts': set<int>)
    requires a in starts
    ensures OnlyTagWords(head, foot, starts, head[a := w], foot, starts')
  {
  }

  lemma WritesSplit(head: map<int, Head>, foot: map<int, int>, starts: set<int>, p: int, nb: nat, rsize: nat)
    requires p in starts && starts <= head.Keys && p + nb + rsize in starts && !head[p + nb + rsize].pinuse
             && rsize > 0 && nb > 0
    ensures OnlyTagWords(head, foot, starts, head[p := Head(nb, true, true)][p + nb := Head(rsize, false, true)],
                         foot[p + nb + rsize := rsize], starts + {p + nb})
  {
  }

  lemma WritesTopSplit(head: map<int, Head>, foot: map<int, int>, starts: set<int>, p: int, nb: nat, rsize: nat)
    requires p in starts && starts <= head.Keys
    ensures OnlyTagWords(head, foot, starts, head[p := Head(nb, true, true)][p + nb := Head(rsize, false, true)],
                         foot, starts + {p + nb})
  {
  }

  lemma TopOutside(h: Heap, loose: set<int>, a: int, n: int, p: int)
    requires HeapOk(h, loose) && Run(h, loose, a, n, p)
    ensures !(a <= h.tg.top < n)
  {
    ChunkIsTop(h.tg);
  }

  /** With the victim taken up, the chunks to be merged are a run. */
  lemma VictimRun(h: Heap, loose: set<int>, p: int, size: nat, block: int) returns (i: nat)
    requires HeapOk(h, loose) && block in h.live && block !in h.tg.directs && block in h.tg.head && h.dvsize > 0
             && 0 !in loose
    requires (p == block && h.tg.head[block].pinuse) || (PrevFree(h.tg, block, p) && (p == h.dv || p in loose))
    requires var next := Next(h.tg, block);
             && next in h.tg.head
             && (if IsFree(h.tg, next) then next != h.tg.top && (next == h.dv || next in loose)
                 && p + size == Next(h.tg, next)
                 else p + size == next)
             && forall q {:trigger q in loose} ::
                  q in loose + {h.dv} ==> (q == p && q != block) || (q == next && q != p + size)
    ensures var h1 := h.(dv := 0, dvsize := 0); HeapOk(h1, loose + {h.dv})
                                                && Run(h1, loose + {h.dv}, p, p + size, block)
    ensures IsChunk(h.tg, p + size) && h.tg.head[p + size].cinuse
    ensures i < |h.segs| && Holds(h.segs[i], h.tg, p) && Holds(h.segs[i], h.tg, p + size)
  {
    hide HeapOk;
    hide Holds;
    hide Run;
    hide PrevFree;
    i := Neighbours(h, loose, block);
    DvSize(h, loose);
    DropDv(h, loose);
    RunAround(h.(dv := 0, dvsize := 0), loose + {h.dv}, p, p + size, block);
  }

  lemma PrevFacts(h: Heap, q: int, p: int)
    requires HeapOk(h, {}) && p in h.tg.head && PrevFree(h.tg, p, q)
    ensures IsFree(h.tg, q) && q != h.tg.top && h.tg.head[q].size == p - q && q > 0
  {
    ChunkIs(h.tg, q);
  }

  lemma MergedRestrict(head: map<int, Head>, starts: set<int>, a: int, n: int)
    requires starts <= head.Keys && a in starts && n in starts && a < n
    ensures var rest := Restrict(head, starts);
            var outside := map q | q in rest && !(a < q < n) :: rest[q];
            Restrict(head[n := head[n].(pinuse := false)][a := Head(n - a, false, true)], Outside(starts, a, n))
            == outside[a := Head(n - a, false, true)][n := rest[n].(pinuse := false)]
  {
  }

  lemma MergedTopRestrict(head: map<int, Head>, starts: set<int>, a: int, n: int)
    requires starts <= head.Keys && a in starts && a < n
    ensures var rest := Restrict(head, starts);
            var outside := map q | q in rest && !(a < q < n) :: rest[q];
            Restrict(head[a := Head(n - a, false, true)], Outside(starts, a, n))
                == outside[a := Head(n - a, false, true)]
  {
  }

  lemma HugeFits(h: Heap, nb: nat)
    requires HeapOk(h, {}) && nb >= SIZE_LIMIT
    ensures NoBinFits(h.b, nb)
  {
    forall c | c in Pool(h.b.small, h.b.trees) ensures c.size < nb {
      PooledIsFree(h, c);
      SizeBound(h.tg, h.segs, c.at);
    }
  }

  lemma NothingLargeFits(b: Bins, nb: nat, dvsize: nat)
    requires BinShape(b) && !IsSmall(nb) && nb > dvsize
    requires NoFit(b.trees, nb)
    ensures NoBinFits(b, nb)
  {
    hide TreeIndex;
    hide Pool;
    forall c | c in Pool(b.small, b.trees) ensures c.size < nb {
      Locate(b.small, b.trees, c);
      if !IsSmall(c.size) { ChunkSizes(b.trees[TreeIndex(c.size)]); }
    }
  }

  /** No chunk of any bin has nb bytes. */
  /** A block of a chunk p is kept: a direct one that is big enough and not much too big, any other that is
      big enough, or that together with top behind it is. */
  ghost predicate CanStay(h: Heap, topsize: nat, p: int, nb: nat)
    requires p in h.tg.head
  {
    var size := h.tg.head[p].size;
    if p in h.tg.directs then !IsSmall(nb) && nb + 8 <= size <= nb + GRANULARITY / 2
    else nb <= size || (Next(h.tg, p) == h.tg.top && nb < size + topsize)
  }

  /** Its size then: what exceeds the request is cut off, unless it is too small for a chunk. */
  ghost function StaySize(h: Heap, p: int, nb: nat): nat
    requires p in h.tg.head
  {
    var size := h.tg.head[p].size;
    if p in h.tg.directs then size else if nb <= size then Cut(size, nb) else nb
  }

  /** Where a request would be served. */
  ghost predicate ServedAt(h: Heap, topsize: nat, nb: nat, p: int) {
    exists h' :: Served(h, h', topsize, nb, p)
  }

  /** The system refuses a request. */
  predicate Refused(nb: nat, direct: Mapping, m: Mapping) {
    && (m.Failed? || SegmentSize(nb) <= nb)
    && (nb >= MMAP_THRESHOLD ==> direct.Failed? || DirectSize(nb) <= nb)
  }

  /** Fresh memory: a mapping of its own for a large request, otherwise the start of the new region, unless
      that continues top's segment, when top serves. */
  ghost predicate FromSystem(h: Heap, h': Heap, direct: Mapping, m: Mapping, nb: nat, p: int) {
    if nb >= MMAP_THRESHOLD && direct.Mapped? && DirectSize(nb) > nb then
      p == direct.base && h'.segs == h.segs && h'.tg.top == h.tg.top && p in h'.tg.directs
    else && m.Mapped? && SegmentSize(nb) > nb
         && Placed(h, h', Region(m.base, m.base + SegmentSize(nb)), nb, p)
  }

  /** Where top's segment ends. */
  ghost function TopEnd(h: Heap): int {
    if h.tg.top in h.tg.head then Next(h.tg, h.tg.top) + TOP_FOOT else 0
  }

  /** Fresh memory behind top makes its segment larger. */
  ghost predicate Extends(h: Heap, h': Heap, r: Region, nb: nat, p: int) {
    && r.base == TopEnd(h) && p == h.tg.top && h'.tg.top == p + nb && TopEnd(h') == r.end
    && exists j :: 0 <= j < |h.segs| && h.segs[j].end == r.base
                   && h'.segs == h.segs[j := Region(h.segs[j].base, r.end)]
  }

  /** In front of a segment it becomes part of that one. */
  ghost predicate Prepends(h: Heap, h': Heap, r: Region, p: int) {
    r.base != TopEnd(h) && p == r.base
    && exists j :: 0 <= j < |h.segs| && h.segs[j].base == r.end
                   && h'.segs == h.segs[j := Region(r.base, h.segs[j].end)]
  }

  /** Anywhere else it becomes the first segment, with top in it. */
  ghost predicate Adds(h: Heap, h': Heap, r: Region, nb: nat, p: int) {
    && r.base != TopEnd(h) && (forall j :: 0 <= j < |h.segs| ==> h.segs[j].base != r.end)
    && h'.segs == [r] + h.segs && p == r.base && h'.tg.top == p + nb && TopEnd(h') == r.end
  }

  ghost predicate Placed(h: Heap, h': Heap, r: Region, nb: nat, p: int) {
    Extends(h, h', r, nb, p) || Prepends(h, h', r, p) || Adds(h, h', r, nb, p)
  }

  /** A chunk that serves a small request, or an exact fit. */
  ghost predicate ServedSmall(h: Heap, h': Heap, nb: nat, p: int) {
    FromExact(h, h', nb, p) || (NoExact(h.b, nb) && FromBin(h, h', nb, p))
  }

  lemma ExactServes(h: Heap, h': Heap, nb: nat, p: int, i: nat)
    requires ExactBin(h.b, nb, i) && i < |h.b.small| && h.b.small[i] != [] && p == h.b.small[i][0]
    requires Got(h', p, 8 * i) && SameDv(h, h')
    ensures FromExact(h, h', nb, p)
  {
  }

  lemma ChunkServes(h: Heap, h': Heap, nb: nat, p: int, size: nat)
    requires LeastFit(h, Chunk(p, size), nb) && Got(h', p, Cut(size, nb))
    requires if IsSmall(nb) && size >= nb + MIN_CHUNK then h'.dv == p + nb && h'.dvsize == size - nb else SameDv(h, h')
    requires h.dvsize < nb || (!IsSmall(nb) && size < h.dvsize)
    ensures FromBin(h, h', nb, p)
  {
    hide LeastFit;
    assert FromChunk(h, h', nb, p, Chunk(p, size));
  }

  lemma NoneFit(h: Heap, nb: nat)
    requires HeapOk(h, {}) && NoBinFits(h.b, nb)
    ensures NoneFits(h, nb)
  {
    forall d ensures !Fits(h, d, nb) { FitIsPooled(h, d, nb); }
  }

  lemma DvBetter(h: Heap, nb: nat)
    requires HeapOk(h, {}) && !IsSmall(nb) && nb <= h.dvsize && NoBetter(h.b.trees, nb, h.dvsize)
    ensures DvServes(h, nb)
  {
    LargeFits(h, nb, h.dvsize);
  }

  ghost predicate NoBinFits(b: Bins, nb: nat) {
    forall c :: c in Pool(b.small, b.trees) ==> c.size < nb
  }

  lemma NothingSmallFits(b: Bins, nb: nat)
    requires BinShape(b) && nb % 8 == 0 && IsSmall(nb)
    requires forall i :: nb / 8 <= i < NSMALLBINS ==> !b.smallmap[i]
    requires forall i :: 0 <= i < NTREEBINS ==> !b.treemap[i]
    ensures NoBinFits(b, nb)
  {
    hide TreeIndex;
    hide Pool;
    forall c | c in Pool(b.small, b.trees) ensures c.size < nb {
      Locate(b.small, b.trees, c);
    }
  }

  /** Whatever is in a bin is a free chunk. */
  lemma PooledIsFree(h: Heap, c: Chunk)
    requires HeapOk(h, {}) && c in Pool(h.b.small, h.b.trees)
    ensures IsFree(h.tg, c.at) && h.tg.head[c.at].size == c.size && c.at != h.tg.top && c.at != h.dv
  {
    assert Pool(h.b.small, h.b.trees)[c] > 0;
    assert Binnable(h.tg, h.dv, {}, c);
  }

  lemma FirstIsPooled(h: Heap, i: nat)
    requires HeapOk(h, {}) && i < NSMALLBINS && i < |h.b.small| && i < |h.b.smallmap| && h.b.smallmap[i]
    ensures |h.b.small[i]| > 0
    ensures var p := h.b.small[i][0]; IsFree(h.tg, p) && h.tg.head[p].size == 8 * i && p != h.tg.top && p != h.dv
  {
    hide PoolOk;
    hide TagsOk;
    assert h.b.small[i] != [];
    FromSmall(h.b.small, |h.b.small|, i, 0);
    PooledIsFree(h, Chunk(h.b.small[i][0], 8 * i));
  }

  lemma FirstDropped(s: seq<int>)
    requires |s| > 0
    ensures IndexOf(s, s[0]) == 0 && Dropped(s, 0) == s[1..]
  {
  }

  /** The first chunk of a node that was found is a free chunk. */
  lemma NodeIsFree(h: Heap, v: Tree)
    requires HeapOk(h, {}) && v.Node? && exists i :: 0 <= i < |h.b.trees| && Within(v, h.b.trees[i])
    ensures |v.ring| > 0
    ensures var p := v.ring[0]; IsFree(h.tg, p) && h.tg.head[p].size == v.size && p != h.tg.top && p != h.dv
  {
    hide PoolOk;
    hide TagsOk;
    var i :| 0 <= i < |h.b.trees| && Within(v, h.b.trees[i]);
    assert BinOk(i, h.b.trees[i]);
    WithinSizes(v, h.b.trees[i], BinBase(i), BinHeight(i));
    FromTrees(h.b.trees, |h.b.trees|, i, Chunk(v.ring[0], v.size));
    PooledIsFree(h, Chunk(v.ring[0], v.size));
  }

  lemma SizeIsEven(h: Heap, loose: set<int>, p: int)
    requires HeapOk(h, loose) && IsChunk(h.tg, p)
    ensures h.tg.head[p].size % 8 == 0
  {
    ChunkIs(h.tg, p);
  }

  function Room(tg: Tags, p: int): int
    requires p in tg.head
  {
    tg.head[p].size - (if p in tg.directs then 16 else 8)
  }

  /** A free chunk is neither live nor direct. */
  lemma LooseIsNotLive(h: Heap, loose: set<int>, p: int)
    requires HeapOk(h, loose) && IsFree(h.tg, p)
    ensures p !in h.live && p !in h.tg.directs && p > 0
    ensures Next(h.tg, p) in h.tg.head && h.tg.head[p].size >= 8 && Next(h.tg, p) != p
  {
    ChunkIs(h.tg, p);
  }

  lemma OccupyKeeps(h: Heap, p: int)
    requires HeapOk(h, {p}) && p in h.tg.head && Next(h.tg, p) in h.tg.head
    ensures SameBlocks(h.tg, Occupy(h.tg, p), h.live)
  {
  }

  lemma SplitKeeps(h: Heap, p: int, nb: nat)
    requires HeapOk(h, {p}) && IsFree(h.tg, p) && p != h.tg.top && nb + MIN_CHUNK <= h.tg.head[p].size && nb > 0
    ensures SameBlocks(h.tg, SplitFree(h.tg, p, nb), h.live)
    ensures Next(h.tg, p) in h.tg.head && !h.tg.head[Next(h.tg, p)].pinuse && p + nb !in h.tg.head
            && p + nb !in h.tg.directs
    ensures p + nb != Next(h.tg, p) && p + nb != h.tg.top && p != h.tg.top
  {
    AfterFree(h.tg, p);
    Inside(h.tg, p, p + nb);
    Unlisted(h.tg, p + nb);
    hide TagsOk;
    hide PoolOk;
  }

  lemma SplitTopKeeps(h: Heap, nb: nat)
    requires HeapOk(h, {}) && h.tg.top in h.tg.head && 0 < nb < h.tg.head[h.tg.top].size
    ensures SameBlocks(h.tg, SplitTop(h.tg, nb), h.live)
  {
    ChunkIsTop(h.tg);
    Inside(h.tg, h.tg.top, h.tg.top + nb);
    hide TagsOk;
    hide PoolOk;
  }

  lemma TopTags(h: Heap, nb: nat)
    requires HeapOk(h, {}) && h.tg.top in h.tg.head && 0 < nb < h.tg.head[h.tg.top].size
    ensures h.tg.head[h.tg.top].pinuse && h.tg.top + nb !in h.tg.head
  {
    ChunkIsTop(h.tg);
    Inside(h.tg, h.tg.top, h.tg.top + nb);
  }

  lemma TopOf(h: Heap, loose: set<int>)
    requires HeapOk(h, loose)
    ensures IsFree(h.tg, h.tg.top)
  {
  }

  lemma BinsOf(h: Heap, loose: set<int>)
    requires HeapOk(h, loose)
    ensures BinShape(h.b) && BinLengths(h.b)
  {
    ShapeLengths(h.b);
  }

  lemma PositiveChunk(h: Heap, loose: set<int>, p: int)
    requires HeapOk(h, loose) && IsChunk(h.tg, p)
    ensures p > 0 && p % 8 == 0
  {
    ChunkIs(h.tg, p);
  }

  lemma DvSize(h: Heap, loose: set<int>)
    requires HeapOk(h, loose)
    ensures h.dv !in loose && h.dvsize < SIZE_LIMIT
    ensures h.dvsize > 0 ==> IsFree(h.tg, h.dv) && h.dv != h.tg.top && h.tg.head[h.dv].size == h.dvsize
    ensures h.dvsize == 0 ==> h.dv == 0
  {
    if h.dvsize > 0 { SizeBound(h.tg, h.segs, h.dv); }
  }
}
