/**
  Small bins and tree bins together: where a free chunk is kept, and how
  linking and unlinking change the contents.
 */
module AllocPool {
  import opened Arith
  import opened AllocTree
  import opened AllocBins
  import opened AllocSearch

  const NSMALLBINS: nat := 32

  predicate IsSmall(size: nat) {
    size / 8 < NSMALLBINS
  }

  /** Contents of the first n small bins; bin i holds chunks of 8i bytes. */
  ghost function SmallChunks(small: seq<seq<int>>, n: nat): multiset<Chunk>
    requires n <= |small|
  {
    if n == 0 then multiset{} else SmallChunks(small, n - 1) + RingChunks(8 * (n - 1), small[n-1])
  }

  ghost function TreeChunks(trees: seq<Tree>, n: nat): multiset<Chunk>
    requires n <= |trees|
  {
    if n == 0 then multiset{} else TreeChunks(trees, n - 1) + Chunks(trees[n-1])
  }

  ghost function Pool(small: seq<seq<int>>, trees: seq<Tree>): multiset<Chunk> {
    SmallChunks(small, |small|) + TreeChunks(trees, |trees|)
  }

  /** Changing one bin changes the pool by the difference. */
  lemma {:induction false} SmallUpdate(small: seq<seq<int>>, n: nat, i: nat, b: seq<int>, add: multiset<Chunk>,
                                       sub: multiset<Chunk>)
    requires i < |small| && n <= |small|
    requires RingChunks(8 * i, b) + sub == RingChunks(8 * i, small[i]) + add
    ensures if i < n then SmallChunks(small[i := b], n) + sub == SmallChunks(small, n) + add
            else SmallChunks(small[i := b], n) == SmallChunks(small, n)
  {
    hide RingChunks;
    if n > 0 {
      SmallUpdate(small, n - 1, i, b, add, sub);
      var small' := small[i := b];
      var x, x', y, y' := SmallChunks(small, n - 1), SmallChunks(small', n - 1),
                          RingChunks(8 * (n - 1), small[n-1]), RingChunks(8 * (n - 1), small'[n-1]);
      if i < n - 1 {
        SumShift(x, x', y, add, sub);
      } else if i == n - 1 {
        SumShift(y, y', x, add, sub);
        assert x + y == y + x && x + y' == y' + x;
      }
    }
  }

  lemma SumShift(a: multiset<Chunk>, a': multiset<Chunk>, b: multiset<Chunk>, add: multiset<Chunk>,
                 sub: multiset<Chunk>)
    requires a' + sub == a + add
    ensures (a' + b) + sub == (a + b) + add
  {
    assert (a' + b) + sub == (a' + sub) + b;
    assert (a + b) + add == (a + add) + b;
  }

  lemma {:induction false} TreeUpdate(trees: seq<Tree>, n: nat, i: nat, t: Tree, add: multiset<Chunk>,
                                      sub: multiset<Chunk>)
    requires i < |trees| && n <= |trees|
    requires Chunks(t) + sub == Chunks(trees[i]) + add
    ensures if i < n then TreeChunks(trees[i := t], n) + sub == TreeChunks(trees, n) + add
            else TreeChunks(trees[i := t], n) == TreeChunks(trees, n)
  {
    hide Chunks;
    if n > 0 {
      TreeUpdate(trees, n - 1, i, t, add, sub);
      var trees' := trees[i := t];
      var x, x', y, y' := TreeChunks(trees, n - 1), TreeChunks(trees', n - 1), Chunks(trees[n-1]), Chunks(trees'[n-1]);
      if i < n - 1 {
        SumShift(x, x', y, add, sub);
      } else if i == n - 1 {
        SumShift(y, y', x, add, sub);
        assert x + y == y + x && x + y' == y' + x;
      }
    }
  }

  // ---------------------------------------------------------------- small bins

  /** insert_small_chunk links at the front. */
  lemma InsertSmallPool(small: seq<seq<int>>, trees: seq<Tree>, i: nat, p: int)
    requires i < |small|
    ensures Pool(small[i := [p] + small[i]], trees) == Pool(small, trees) + multiset{Chunk(p, 8 * i)}
  {
    RingConcat(8 * i, [p], small[i]);
    RingOne(8 * i, p);
    hide RingChunks;
    var one := multiset{Chunk(p, 8 * i)};
    SmallUpdate(small, |small|, i, [p] + small[i], one, multiset{});
    PlusNothing(SmallChunks(small[i := [p] + small[i]], |small|));
    SumShift(SmallChunks(small, |small|), SmallChunks(small[i := [p] + small[i]], |small|),
             TreeChunks(trees, |trees|), one, multiset{});
    PlusNothing(Pool(small[i := [p] + small[i]], trees));
  }

  lemma PlusNothing(a: multiset<Chunk>)
    ensures a + multiset{} == a
  {
  }

  function Dropped(s: seq<int>, k: nat): seq<int>
    requires k < |s|
  {
    s[..k] + s[k+1..]
  }

  /** unlink_small_chunk takes out one chunk. */
  lemma UnlinkSmallPool(small: seq<seq<int>>, trees: seq<Tree>, i: nat, k: nat)
    requires i < |small| && k < |small[i]|
    ensures Pool(small, trees) == Pool(small[i := Dropped(small[i], k)], trees) + multiset{Chunk(small[i][k], 8 * i)}
  {
    var s := small[i];
    var d := Dropped(s, k);
    assert s == s[..k] + [s[k]] + s[k+1..];
    RingConcat(8 * i, s[..k], [s[k]]);
    RingConcat(8 * i, s[..k] + [s[k]], s[k+1..]);
    RingConcat(8 * i, s[..k], s[k+1..]);
    RingOne(8 * i, s[k]);
    hide RingChunks;
    var one := multiset{Chunk(s[k], 8 * i)};
    SmallUpdate(small, |small|, i, d, multiset{}, one);
    SumShift(SmallChunks(small, |small|), SmallChunks(small[i := d], |small|), TreeChunks(trees, |trees|), multiset{},
             one);
    PlusNothing(Pool(small, trees));
  }

  // ---------------------------------------------------------------- tree bins

  /** The directions to the node of a size, by the walk along its bits. */
  function PathTo(t: Tree, base: nat, h: nat, s: nat): seq<bool> {
    if t.Empty? || t.size == s || h == 0 then []
    else if Upper(base, h, s) then [true] + PathTo(t.hi, base + Pow2(h - 1), h - 1, s)
    else [false] + PathTo(t.lo, base, h - 1, s)
  }

  lemma {:induction false} PathFinds(t: Tree, base: nat, h: nat, s: nat)
    requires Trie(t, base, h) && s in Sizes(t)
    ensures var n := Subtree(t, PathTo(t, base, h, s)); n.Node? && n.size == s
    ensures forall c :: c in Chunks(t) && c.size == s ==> c.at in Subtree(t, PathTo(t, base, h, s)).ring
  {
    assert t.Node?;
    ChunkSizes(t.lo);
    ChunkSizes(t.hi);
    RingSizes(t.size, t.ring);
    if t.size != s {
      SizesInRange(t.lo, base, h - 1);
      SizesInRange(t.hi, base + Pow2(h - 1), h - 1);
      if Upper(base, h, s) {
        PathFinds(t.hi, base + Pow2(h - 1), h - 1, s);
      } else {
        PathFinds(t.lo, base, h - 1, s);
      }
    }
  }

  function IndexOf(ring: seq<int>, p: int): nat {
    if ring == [] || ring[0] == p then 0 else 1 + IndexOf(ring[1..], p)
  }

  lemma {:induction false} IndexOfFinds(ring: seq<int>, p: int)
    requires p in ring
    ensures IndexOf(ring, p) < |ring| && ring[IndexOf(ring, p)] == p
  {
    if ring[0] != p {
      assert p in ring[1..];
      IndexOfFinds(ring[1..], p);
    }
  }

  function InsertLarge(trees: seq<Tree>, p: int, size: nat): seq<Tree>
    requires TreeIndex(size) < |trees|
  {
    var i := TreeIndex(size);
    trees[i := Insert(trees[i], BinBase(i), BinHeight(i), size, p)]
  }

  lemma InsertLargePool(small: seq<seq<int>>, trees: seq<Tree>, p: int, size: nat)
    requires BinsOk(trees) && MIN_LARGE_SIZE <= size < SIZE_LIMIT
    ensures TreeIndex(size) < |trees| && BinsOk(InsertLarge(trees, p, size))
    ensures InsertLarge(trees, p, size)[TreeIndex(size)].Node?
    ensures Pool(small, InsertLarge(trees, p, size)) == Pool(small, trees) + multiset{Chunk(p, size)}
  {
    hide Trie;
    hide Chunks;
    hide Sizes;
    hide TreeIndex;
    IndexRange(size);
    var i := TreeIndex(size);
    var t := trees[i];
    InBinRange(i, size);
    assert BinOk(i, trees[i]);
    InsertCorrect(t, BinBase(i), BinHeight(i), size, p);
    InsertTrie(t, BinBase(i), BinHeight(i), size, p);
    var t' := Insert(t, BinBase(i), BinHeight(i), size, p);
    assert BinOk(i, t');
    var trees' := InsertLarge(trees, p, size);
    forall j | 0 <= j < NTREEBINS ensures BinOk(j, trees'[j]) {
      assert BinOk(j, trees[j]);
    }
    var one := multiset{Chunk(p, size)};
    PlusNothing(Chunks(t'));
    TreeUpdate(trees, |trees|, i, t', one, multiset{});
    PlusNothing(TreeChunks(trees', |trees|));
    assert Pool(small, trees') == SmallChunks(small, |small|) + (TreeChunks(trees, |trees|) + one);
  }

  function UnlinkLarge(trees: seq<Tree>, p: int, size: nat): seq<Tree> {
    var i := TreeIndex(size);
    if i >= |trees| then trees else
      var path := PathTo(trees[i], BinBase(i), BinHeight(i), size);
      var n := Subtree(trees[i], path);
      if n.Node? && IndexOf(n.ring, p) < |n.ring| then trees[i := Unlink(trees[i], path, IndexOf(n.ring, p))] else trees
  }

  lemma UnlinkLargePool(small: seq<seq<int>>, trees: seq<Tree>, p: int, size: nat)
    requires BinsOk(trees) && TreeIndex(size) < |trees| && Chunk(p, size) in Chunks(trees[TreeIndex(size)])
    ensures BinsOk(UnlinkLarge(trees, p, size))
    ensures Pool(small, trees) == Pool(small, UnlinkLarge(trees, p, size)) + multiset{Chunk(p, size)}
  {
    hide Trie;
    hide Chunks;
    hide Sizes;
    hide TreeIndex;
    hide Unlink;
    var i := TreeIndex(size);
    var t := trees[i];
    assert BinOk(i, trees[i]);
    ChunkSizes(t);
    PathFinds(t, BinBase(i), BinHeight(i), size);
    var path := PathTo(t, BinBase(i), BinHeight(i), size);
    var n := Subtree(t, path);
    IndexOfFinds(n.ring, p);
    var k := IndexOf(n.ring, p);
    UnlinkCorrect(t, BinBase(i), BinHeight(i), path, k);
    UnlinkTrie(t, BinBase(i), BinHeight(i), path, k);
    var t' := Unlink(t, path, k);
    assert BinOk(i, t');
    var trees' := UnlinkLarge(trees, p, size);
    assert trees' == trees[i := t'];
    forall j | 0 <= j < NTREEBINS ensures BinOk(j, trees'[j]) {
      assert BinOk(j, trees[j]);
    }
    var one := multiset{Chunk(p, size)};
    PlusNothing(Chunks(t));
    TreeUpdate(trees, |trees|, i, t', multiset{}, one);
    PlusNothing(TreeChunks(trees, |trees|));
    assert Pool(small, trees) == SmallChunks(small, |small|) + (TreeChunks(trees', |trees|) + one);
  }

  // ---------------------------------------------------------------- finding a chunk's bin

  lemma {:induction false} InSmall(small: seq<seq<int>>, n: nat, c: Chunk)
    requires n <= |small| && c in SmallChunks(small, n)
    ensures c.size % 8 == 0 && c.size / 8 < n && c.at in small[c.size / 8]
  {
    hide RingChunks;
    if c in SmallChunks(small, n - 1) {
      InSmall(small, n - 1, c);
    } else {
      RingSizes(8 * (n - 1), small[n-1]);
    }
  }

  lemma {:induction false} InTrees(trees: seq<Tree>, n: nat, c: Chunk)
    requires BinsOk(trees) && n <= |trees| && c in TreeChunks(trees, n)
    ensures TreeIndex(c.size) < n && c in Chunks(trees[TreeIndex(c.size)]) && MIN_LARGE_SIZE <= c.size < SIZE_LIMIT
  {
    hide TreeIndex;
    hide Trie;
    if c in TreeChunks(trees, n - 1) {
      InTrees(trees, n - 1, c);
    } else {
      assert BinOk(n - 1, trees[n-1]);
      ChunkSizes(trees[n-1]);
      assert SizeInBin(n - 1, c.size);
    }
  }

  lemma {:induction false} FromSmall(small: seq<seq<int>>, n: nat, i: nat, k: nat)
    requires i < n <= |small| && k < |small[i]|
    ensures Chunk(small[i][k], 8 * i) in SmallChunks(small, n)
  {
    hide RingChunks;
    if i == n - 1 { RingSizes(8 * i, small[i]); } else { FromSmall(small, n - 1, i, k); }
  }

  lemma {:induction false} FromTrees(trees: seq<Tree>, n: nat, i: nat, c: Chunk)
    requires i < n <= |trees| && c in Chunks(trees[i])
    ensures c in TreeChunks(trees, n)
  {
    hide Chunks;
    if i != n - 1 { FromTrees(trees, n - 1, i, c); }
  }

  /** A pooled chunk is in the bin its size names. */
  lemma Locate(small: seq<seq<int>>, trees: seq<Tree>, c: Chunk)
    requires |small| == NSMALLBINS && BinsOk(trees) && c in Pool(small, trees)
    ensures IsSmall(c.size) ==> c.at in small[c.size / 8]
    ensures !IsSmall(c.size)
            ==> TreeIndex(c.size) < |trees| && c in Chunks(trees[TreeIndex(c.size)]) && c.size < SIZE_LIMIT
    ensures c.size % 8 == 0 || !IsSmall(c.size)
  {
    hide TreeIndex;
    if c in SmallChunks(small, |small|) {
      InSmall(small, |small|, c);
    } else {
      InTrees(trees, |trees|, c);
    }
  }
}
