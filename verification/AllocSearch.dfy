/**
  What the best-fit search over the tree bins relies on: one walk along the bits
  of the request, then the leftmost walk through the deepest right subtree not
  taken.
 */
module AllocSearch {
  import opened Arith
  import opened AllocTree
  import opened AllocBins

  const WORD: nat := 0x1_0000_0000_0000_0000
  const TOP_BIT: nat := 0x8000_0000_0000_0000

  /** The best candidate so far: none, or a node of t that is large enough, with its excess. */
  ghost predicate Candidate(v: Tree, rsize: nat, nb: nat, t: Tree) {
    if v.Empty? then rsize == WORD - nb else Within(v, t) && v.size >= nb && rsize == v.size - nb
  }

  /** Some size of t is at most s. */
  ghost predicate Below(t: Tree, s: nat) {
    exists r :: r in Sizes(t) && r <= s
  }

  /** Size s is no better than the candidate, or than something still in t. */
  ghost predicate Beaten(v: Tree, t: Tree, s: nat) {
    (v.Node? && v.size <= s) || Below(t, s)
  }

  ghost predicate AllBeaten(v: Tree, t: Tree, sizes: set<nat>, nb: nat) {
    forall s :: s in sizes && s >= nb ==> Beaten(v, t, s)
  }

  /** The unsigned difference of two sizes. */
  function Excess(size: nat, nb: nat): nat {
    (size - nb) % WORD
  }

  lemma ExcessMeans(size: nat, nb: nat)
    requires size < SIZE_LIMIT && nb < SIZE_LIMIT
    ensures size >= nb ==> Excess(size, nb) == size - nb
    ensures size < nb ==> Excess(size, nb) == WORD + size - nb
  {
  }

  function LeftmostChild(t: Tree): Tree
    requires t.Node?
  {
    if t.lo.Node? then t.lo else t.hi
  }

  /** In the walk along the bits of nb, the half that is given up matters only if it is the upper one. */
  lemma StepDown(t: Tree, base: nat, h: nat, nb: nat)
    requires Trie(t, base, h) && t.Node? && h > 0 && base <= nb < base + Pow2(h)
    ensures Upper(base, h, nb) ==> forall s :: s in Sizes(t.lo) ==> s < nb
    ensures !Upper(base, h, nb) ==> forall s :: s in Sizes(t.hi) ==> s > nb
    ensures t.lo.Node? && t.hi.Node? ==> t.lo != t.hi
    ensures forall a, b :: a in Sizes(t.lo) && b in Sizes(t.hi) ==> a < b
  {
    SizesInRange(t.lo, base, h - 1);
    SizesInRange(t.hi, base + Pow2(h - 1), h - 1);
    if t.lo.Node? && t.hi.Node? { assert t.lo.size in Sizes(t.lo) && t.hi.size in Sizes(t.hi); }
  }

  /** The state of the walk in bin tree `root`: t is the current subtree and rst the deepest
      right subtree passed by. */
  ghost predicate Walking(root: Tree, t: Tree, rst: Tree, v: Tree, rsize: nat, k: nat, nb: nat, base: nat, h: nat) {
    && Trie(t, base, h) && Shifted(k, nb, base, h)
    && (t.Node? ==> Within(t, root)) && (rst.Node? ==> Within(rst, root))
    && Candidate(v, rsize, nb, root)
    && (forall s :: s in Sizes(rst) ==> s >= base + Pow2(h))
    && (forall s :: s in Sizes(root) && s >= nb ==>
          (v.Node? && v.size <= s) || s in Sizes(t) || Below(rst, s))
  }

  lemma {:induction false} WithinTrie(v: Tree, t: Tree, base: nat, h: nat) returns (b: nat, g: nat)
    requires Within(v, t) && Trie(t, base, h)
    ensures Trie(v, b, g)
  {
    if v == t {
      b, g := base, h;
    } else if Within(v, t.lo) {
      b, g := WithinTrie(v, t.lo, base, h - 1);
    } else {
      b, g := WithinTrie(v, t.hi, base + Pow2(h - 1), h - 1);
    }
  }

  lemma ChildWithin(t: Tree, root: Tree)
    requires t.Node? && Within(t, root)
    ensures t.lo.Node? ==> Within(t.lo, root)
    ensures t.hi.Node? ==> Within(t.hi, root)
  {
    if t.lo.Node? { assert Within(t.lo, t); WithinTrans(t.lo, t, root); }
    if t.hi.Node? { assert Within(t.hi, t); WithinTrans(t.hi, t, root); }
  }

  /** One step of the walk, after node t itself has been looked at. */
  lemma WalkOn(root: Tree, t: Tree, rst: Tree, v: Tree, rsize: nat, k: nat, nb: nat, base: nat, h: nat)
    requires Walking(root, t, rst, v, rsize, k, nb, base, h) && t.Node? && h > 0
    requires t.size >= nb ==> v.Node? && v.size <= t.size
    ensures k / Pow2(63) == if Upper(base, h, nb) then 1 else 0
    ensures var up := Upper(base, h, nb);
            var t' := if up then t.hi else t.lo;
            var rst' := if t.hi.Node? && t.hi != t' then t.hi else rst;
            Walking(root, t', rst', v, rsize, (2 * k) % Pow2(64), nb, if up then base + Pow2(h - 1) else base, h - 1)
  {
    WalkBits(t, k, nb, base, h);
    WalkCovers(root, t, rst, v, nb, base, h);
    WalkBeyond(t, rst, nb, base, h);
    ChildWithin(t, root);
    hide Trie;
    hide Shifted;
    hide Pow2;
    hide Sizes;
    hide Within;
    hide Below;
  }

  /** The top bit of the shifted size tells the half, and the rest is the shifted size there. */
  lemma WalkBits(t: Tree, k: nat, nb: nat, base: nat, h: nat)
    requires Trie(t, base, h) && Shifted(k, nb, base, h) && t.Node? && h > 0
    ensures base <= nb < base + Pow2(h)
    ensures k / Pow2(63) == if Upper(base, h, nb) then 1 else 0
    ensures var up := Upper(base, h, nb);
            var base' := if up then base + Pow2(h - 1) else base;
            Trie(if up then t.hi else t.lo, base', h - 1) && Shifted((2 * k) % Pow2(64), nb, base', h - 1)
  {
    ShiftedBits(k, nb, base, h);
    hide Pow2;
    hide Sizes;
  }

  /** The right subtree passed by lies beyond the sizes ahead. */
  lemma WalkBeyond(t: Tree, rst: Tree, nb: nat, base: nat, h: nat)
    requires Trie(t, base, h) && t.Node? && h > 0 && base <= nb < base + Pow2(h)
    requires forall s :: s in Sizes(rst) ==> s >= base + Pow2(h)
    ensures var up := Upper(base, h, nb);
            var t' := if up then t.hi else t.lo;
            var base' := if up then base + Pow2(h - 1) else base;
            var rst' := if t.hi.Node? && t.hi != t' then t.hi else rst;
            forall s :: s in Sizes(rst') ==> s >= base' + Pow2(h - 1)
  {
    assert Pow2(h) == 2 * Pow2(h - 1);
    SizesInRange(t.hi, base + Pow2(h - 1), h - 1);
  }

  /** Whatever fits is still ahead, passed by on the right, or no better than the candidate. */
  lemma WalkCovers(root: Tree, t: Tree, rst: Tree, v: Tree, nb: nat, base: nat, h: nat)
    requires Trie(t, base, h) && t.Node? && h > 0 && base <= nb < base + Pow2(h)
    requires forall s :: s in Sizes(rst) ==> s >= base + Pow2(h)
    requires forall s :: s in Sizes(root) && s >= nb ==> (v.Node? && v.size <= s) || s in Sizes(t) || Below(rst, s)
    requires t.size >= nb ==> v.Node? && v.size <= t.size
    ensures var t' := if Upper(base, h, nb) then t.hi else t.lo;
            var rst' := if t.hi.Node? && t.hi != t' then t.hi else rst;
            forall s :: s in Sizes(root) && s >= nb ==> (v.Node? && v.size <= s) || s in Sizes(t') || Below(rst', s)
  {
    StepDown(t, base, h, nb);
    SizesInRange(t, base, h);
    var up := Upper(base, h, nb);
    var t' := if up then t.hi else t.lo;
    var rst' := if t.hi.Node? && t.hi != t' then t.hi else rst;
    assert Sizes(t) == {t.size} + Sizes(t.lo) + Sizes(t.hi);
    assert t.hi.Node? ==> t.hi.size in Sizes(t.hi);
    assert t.hi.Empty? ==> Sizes(t.hi) == {};
    hide Trie;
    hide Sizes;
    forall s | s in Sizes(root) && s >= nb
      ensures (v.Node? && v.size <= s) || s in Sizes(t') || Below(rst', s)
    {
      if Below(rst, s) && rst' != rst {
        var r :| r in Sizes(rst) && r <= s;
        assert t.hi.size in Sizes(t) && t.hi.size <= s;
      }
    }
  }

  lemma WalkEnds(root: Tree, t: Tree, rst: Tree, v: Tree, rsize: nat, k: nat, nb: nat, base: nat)
    requires Walking(root, t, rst, v, rsize, k, nb, base, 0) && t.Node?
    requires t.size >= nb ==> v.Node? && v.size <= t.size
    ensures t.lo.Empty? && t.hi.Empty? && k == 0
    ensures Walking(root, Empty, rst, v, rsize, k, nb, base, 0)
  {
    ShiftedBits(k, nb, base, 0);
    forall s | s in Sizes(root) && s >= nb
      ensures (v.Node? && v.size <= s) || s in Sizes(Empty) || Below(rst, s)
    {
      if s in Sizes(t) { assert s == t.size; }
    }
  }

  lemma WalkStarts(root: Tree, i: nat, nb: nat)
    requires BinOk(i, root) && root.Node? && SizeInBin(i, nb)
    ensures BinHeight(i) <= SIZE_T_BITS
    ensures Walking(root, root, Empty, Empty, WORD - nb, (nb * Pow2(SIZE_T_BITS - BinHeight(i))) % Pow2(64), nb,
                    BinBase(i), BinHeight(i))
  {
    hide Trie;
    hide Shifted;
    ShiftAtRoot(nb, i);
  }

  /** What the sizes met in the walk look like to unsigned arithmetic. */
  lemma WalkFacts(root: Tree, i: nat, t: Tree, rst: Tree, v: Tree, rsize: nat, k: nat, nb: nat, base: nat, h: nat)
    requires BinOk(i, root) && SizeInBin(i, nb) && t.Node? && Walking(root, t, rst, v, rsize, k, nb, base, h)
    ensures t.size >= nb ==> Excess(t.size, nb) == t.size - nb
    ensures Excess(t.size, nb) < rsize <==> t.size >= nb && (v.Node? ==> t.size < v.size)
    ensures v.Node? ==> v.size >= nb && rsize == v.size - nb
  {
    hide Trie;
    hide Shifted;
    WithinSizes(t, root, BinBase(i), BinHeight(i));
    if v.Node? { WithinSizes(v, root, BinBase(i), BinHeight(i)); }
    assert SizeInBin(i, t.size);
    ExcessMeans(t.size, nb);
  }

  lemma WalkDone(root: Tree, t: Tree, rst: Tree, v: Tree, rsize: nat, k: nat, nb: nat, base: nat, h: nat)
    requires Walking(root, t, rst, v, rsize, k, nb, base, h)
    requires v.Node? && v.size == nb
    ensures AllBeaten(v, t, Sizes(root), nb) && Candidate(v, rsize, nb, root) && (t.Node? ==> Within(t, root))
  {
  }

  lemma WalkLeft(root: Tree, rst: Tree, v: Tree, rsize: nat, nb: nat)
    requires exists k: nat, base: nat, h: nat :: Walking(root, Empty, rst, v, rsize, k, nb, base, h)
    ensures AllBeaten(v, rst, Sizes(root), nb) && Candidate(v, rsize, nb, root) && (rst.Node? ==> Within(rst, root))
    ensures forall r :: r in Sizes(rst) ==> r >= nb
  {
    var k: nat, base: nat, h: nat :| Walking(root, Empty, rst, v, rsize, k, nb, base, h);
  }

  lemma LargeSize(i: nat, s: nat)
    requires SizeInBin(i, s)
    ensures MIN_LARGE_SIZE <= s < SIZE_LIMIT
  {
  }

  /** Taking the current node as the new candidate. */
  lemma LookedAt(root: Tree, t: Tree, rst: Tree, v: Tree, rsize: nat, k: nat, nb: nat, base: nat, h: nat)
    requires Walking(root, t, rst, v, rsize, k, nb, base, h) && t.Node? && t.size >= nb
    requires v.Node? ==> t.size <= v.size
    ensures Walking(root, t, rst, t, t.size - nb, k, nb, base, h)
  {
  }

  /** Stepping to the leftmost child loses nothing: either the node itself or something below
      it on that side is at most any size of the subtree. */
  lemma LeftmostStep(t: Tree, base: nat, h: nat, v: Tree, sizes: set<nat>, nb: nat)
    requires Trie(t, base, h) && t.Node? && AllBeaten(v, t, sizes, nb)
    requires t.size >= nb ==> v.Node? && v.size <= t.size
    requires v.Node? ==> v.size >= nb
    requires forall r :: r in Sizes(t) ==> r >= nb || (v.Node? && v.size == nb)
    ensures AllBeaten(v, LeftmostChild(t), sizes, nb)
  {
    var t' := LeftmostChild(t);
    if h > 0 { StepDown(t, base, h, base); }
    forall s | s in sizes && s >= nb ensures Beaten(v, t', s) {
      assert Beaten(v, t, s);
      if !(v.Node? && v.size <= s) {
        var r :| r in Sizes(t) && r <= s;
        if r in Sizes(t.hi) && t.lo.Node? {
          assert t.lo.size in Sizes(t.lo);
        }
      }
    }
  }

  lemma NodeFacts(root: Tree, j: nat, t: Tree, nb: nat)
    requires BinOk(j, root) && Within(t, root) && MIN_LARGE_SIZE <= nb < SIZE_LIMIT
    ensures t.Node? && t.size < SIZE_LIMIT
    ensures t.size >= nb ==> Excess(t.size, nb) == t.size - nb
    ensures t.size < nb ==> Excess(t.size, nb) == WORD + t.size - nb
  {
    hide Trie;
    WithinSizes(t, root, BinBase(j), BinHeight(j));
    assert SizeInBin(j, t.size);
    ExcessMeans(t.size, nb);
  }

  lemma CandidateSize(v: Tree, rsize: nat, nb: nat, vroot: Tree, i: nat, root: Tree, j: nat)
    requires v.Node? && BinOk(i, vroot) && BinOk(j, root)
    requires Candidate(v, rsize, nb, vroot) || Candidate(v, rsize, nb, root)
    ensures v.size < SIZE_LIMIT && v.size >= nb && rsize == v.size - nb
  {
    hide Trie;
    if Candidate(v, rsize, nb, vroot) {
      WithinSizes(v, vroot, BinBase(i), BinHeight(i));
      assert SizeInBin(i, v.size);
    } else {
      WithinSizes(v, root, BinBase(j), BinHeight(j));
      assert SizeInBin(j, v.size);
    }
  }

  lemma BetterBeats(v: Tree, v': Tree, t: Tree, sizes: set<nat>, nb: nat)
    requires AllBeaten(v, t, sizes, nb) && v'.Node? && (v.Node? ==> v'.size <= v.size)
    ensures AllBeaten(v', t, sizes, nb)
  {
    forall s | s in sizes && s >= nb ensures Beaten(v', t, s) {
      assert Beaten(v, t, s);
    }
  }

  // ---------------------------------------------------------------- the whole search

  /** v is a node of some bin, large enough, and no chunk of any bin fits better. */
  ghost predicate BestFit(bins: seq<Tree>, v: Tree, nb: nat) {
    && (exists i :: 0 <= i < |bins| && Within(v, bins[i]))
    && v.Node? && v.size >= nb
    && forall i, s :: 0 <= i < |bins| && s in Sizes(bins[i]) && s >= nb ==> v.size <= s
  }

  ghost predicate NoFit(bins: seq<Tree>, nb: nat) {
    forall i, s :: 0 <= i < |bins| && s in Sizes(bins[i]) ==> s < nb
  }

  /** A best fit of the bin where the request itself would be is a best fit of all bins. */
  lemma BestOfBin(bins: seq<Tree>, i: nat, v: Tree, rsize: nat, nb: nat)
    requires BinsOk(bins) && i < NTREEBINS && v.Node? && Candidate(v, rsize, nb, bins[i])
    requires AllBeaten(v, Empty, Sizes(bins[i]), nb)
    requires MIN_LARGE_SIZE <= nb < SIZE_LIMIT && TreeIndex(nb) <= i
    requires forall j, s :: TreeIndex(nb) <= j < i && s in Sizes(bins[j]) ==> s < nb
    ensures BestFit(bins, v, nb)
  {
    hide Trie;
    hide TreeIndex;
    assert BinOk(i, bins[i]);
    WithinSizes(v, bins[i], BinBase(i), BinHeight(i));
    forall j, s | 0 <= j < |bins| && s in Sizes(bins[j]) && s >= nb ensures v.size <= s {
      assert BinOk(j, bins[j]);
      assert SizeInBin(j, s) && SizeInBin(i, v.size);
      if j < TreeIndex(nb) {
        LaterBinLarger(j, s, TreeIndex(nb), nb);
      } else if j == i {
        assert Beaten(v, Empty, s);
      } else if j > i {
        LaterBinLarger(i, v.size, j, s);
      }
    }
  }

  lemma NothingInBin(t: Tree, nb: nat)
    requires AllBeaten(Empty, Empty, Sizes(t), nb)
    ensures forall s :: s in Sizes(t) ==> s < nb
  {
    assert forall s :: s in Sizes(t) && s >= nb ==> Beaten(Empty, Empty, s);
  }

  lemma WithinSelf(t: Tree)
    requires t.Node?
    ensures Within(t, t)
  {
  }

  lemma StartBin(t: Tree, nb: nat)
    ensures AllBeaten(Empty, t, Sizes(t), nb)
  {
    forall s | s in Sizes(t) && s >= nb ensures Beaten(Empty, t, s) {
    }
  }

  lemma FitBelowLimit(bins: seq<Tree>, v: Tree, nb: nat)
    requires BinsOk(bins) && BestFit(bins, v, nb)
    ensures v.size < SIZE_LIMIT
  {
    hide Trie;
    var i :| 0 <= i < |bins| && Within(v, bins[i]);
    assert BinOk(i, bins[i]);
    WithinSizes(v, bins[i], BinBase(i), BinHeight(i));
    assert SizeInBin(i, v.size);
  }

  lemma NodeIsLarge(root: Tree, i: nat, t: Tree)
    requires BinOk(i, root) && Within(t, root)
    ensures t.Node? && MIN_LARGE_SIZE <= t.size < SIZE_LIMIT
  {
    hide Trie;
    WithinSizes(t, root, BinBase(i), BinHeight(i));
    assert SizeInBin(i, t.size);
  }

  lemma SmallestOfAll(bins: seq<Tree>, i: nat, v: Tree)
    requires BinsOk(bins) && i < NTREEBINS && v.Node? && Within(v, bins[i])
    requires AllBeaten(v, Empty, Sizes(bins[i]), 0) && forall j :: 0 <= j < i ==> bins[j].Empty?
    ensures BestFit(bins, v, 0)
  {
    hide Trie;
    hide TreeIndex;
    assert BinOk(i, bins[i]);
    WithinSizes(v, bins[i], BinBase(i), BinHeight(i));
    forall j, s | 0 <= j < |bins| && s in Sizes(bins[j]) && s >= 0 ensures v.size <= s {
      assert BinOk(j, bins[j]);
      assert SizeInBin(j, s) && SizeInBin(i, v.size);
      if j == i {
        assert Beaten(v, Empty, s);
      } else {
        LaterBinLarger(i, v.size, j, s);
      }
    }
  }
}
