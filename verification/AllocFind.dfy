/**
  Best-fit search over the tree bins in memory, by following child pointers.
 */
module AllocFind {
  import opened Arith
  import opened AllocTree
  import opened AllocBins
  import opened AllocSearch
  import opened AllocLinks

  lemma {:induction false} WithinRep(m: Links, root: Tree, par: int, t: Tree) returns (par': int)
    requires Rep(m, root, par) && NoShare(root) && Within(t, root)
    ensures t.Node? && Rep(m, t, par') && NoShare(t)
  {
    if t == root {
      par' := par;
    } else if Within(t, root.lo) {
      par' := WithinRep(m, root.lo, root.ring[0], t);
    } else {
      par' := WithinRep(m, root.hi, root.ring[0], t);
    }
  }

  /** The fields of the node that t stands for. */
  ghost predicate NodeAt(m: Links, t: Tree) {
    var x := Addr(t);
    && t.Node? && |t.ring| > 0 && Has(m, x) && m.size[x] == t.size && m.lo[x] == Addr(t.lo) && m.hi[x] == Addr(t.hi)
    && (Addr(t.lo) == 0 <==> t.lo.Empty?) && (Addr(t.hi) == 0 <==> t.hi.Empty?)
    && (t.lo.Node? && t.hi.Node? ==> Addr(t.lo) != Addr(t.hi))
  }

  lemma NodeIn(m: Links, root: Tree, t: Tree)
    requires Rep(m, root, BIN) && NoShare(root) && Within(t, root)
    ensures NodeAt(m, t)
  {
    var par := WithinRep(m, root, BIN, t);
    NodeFields(m, t, par);
    if t.lo.Node? && t.hi.Node? {
      NodeFields(m, t.lo, t.ring[0]);
      NodeFields(m, t.hi, t.ring[0]);
      assert Addr(t.lo) in RingSet(t.lo.ring) && Addr(t.hi) in RingSet(t.hi.ring);
    }
  }

  /** The address of a subtree; an empty one has none. */
  ghost predicate Points(x: int, t: Tree) {
    x == Addr(t) && (x == 0 <==> t.Empty?)
  }

  /** The first loop of tmalloc_large, in one bin. */
  method WalkBin(bin: TreeBin, nb: nat) returns (v: int, rsize: nat, t: int, ghost vt: Tree, ghost tt: Tree)
    requires bin.Valid() && bin.tree.Node? && SizeInBin(bin.index, nb)
    ensures v != 0 ==> v in bin.links.size && rsize == bin.links.size[v] - nb
    ensures v == 0 ==> rsize == WORD - nb
    ensures v == 0 && t == 0 ==> forall s :: s in Sizes(bin.tree) ==> s < nb
    ensures Points(v, vt) && Points(t, tt)
    ensures Candidate(vt, rsize, nb, bin.tree) && (tt.Node? ==> Within(tt, bin.tree))
    ensures AllBeaten(vt, tt, Sizes(bin.tree), nb)
    ensures forall r :: r in Sizes(tt) ==> r >= nb || (vt.Node? && vt.size == nb)
  {
    hide Walking;
    hide Trie;
    hide SizeInBin;
    hide Within;
    hide AllBeaten;
    hide Pow2;
    hide Excess;
    hide Rep;
    hide NoShare;
    hide Candidate;
    ghost var i, root := bin.index, bin.tree;
    Word();
    LargeSize(i, nb);
    WithinSelf(root);
    NodeIn(bin.links, root, root);
    v, rsize, t := 0, WORD - nb, bin.root;
    vt, tt := Empty, root;
    var rst := 0;
    ghost var rt' := Empty;
    var k: nat := (nb * Pow2(SIZE_T_BITS - BinHeight(bin.index))) % WORD;
    ghost var base: nat, h := BinBase(i), BinHeight(i);
    WalkStarts(root, i, nb);
    while true
      invariant tt.Node? && Walking(root, tt, rt', vt, rsize, k, nb, base, h)
      invariant Points(t, tt) && Points(v, vt) && Points(rst, rt')
      decreases h
    {
      WalkFacts(root, i, tt, rt', vt, rsize, k, nb, base, h);
      WalkIn(root, tt, rt', vt, rsize, k, nb, base, h);
      NodeIn(bin.links, root, tt);
      var trem := Excess(bin.links.size[t], nb);
      if trem < rsize {
        LookedAt(root, tt, rt', vt, rsize, k, nb, base, h);
        v, rsize, vt := t, trem, tt;
        if rsize == 0 {
          WalkDone(root, tt, rt', vt, rsize, k, nb, base, h);
          CandidateAt(bin, v, vt, rsize, nb, tt);
          return;
        }
      }
      var rt := bin.links.hi[t];
      ghost var up := (k / TOP_BIT) % 2 == 1;
      if h > 0 {
        WalkOn(root, tt, rt', vt, rsize, k, nb, base, h);
      } else {
        WalkEnds(root, tt, rt', vt, rsize, k, nb, base);
      }
      t := if (k / TOP_BIT) % 2 == 1 then bin.links.hi[t] else bin.links.lo[t];
      if rt != 0 && rt != t { rst := rt; }
      if tt.hi.Node? && !up { rt' := tt.hi; }
      tt := if up then tt.hi else tt.lo;
      if t == 0 {
        t, tt := rst, rt';
        WalkLeft(root, rt', vt, rsize, nb);
        CandidateAt(bin, v, vt, rsize, nb, tt);
        return;
      }
      k := (2 * k) % WORD;
      if Upper(base, h, nb) { base := base + Pow2(h - 1); }
      h := h - 1;
    }
  }

  /** The candidate's size is in memory; without a candidate and a subtree left nothing fits. */
  lemma CandidateAt(bin: TreeBin, v: int, vt: Tree, rsize: nat, nb: nat, tt: Tree)
    requires bin.Valid() && Points(v, vt) && Candidate(vt, rsize, nb, bin.tree)
    requires AllBeaten(vt, tt, Sizes(bin.tree), nb)
    ensures v != 0 ==> v in bin.links.size && rsize == bin.links.size[v] - nb
    ensures v == 0 ==> rsize == WORD - nb
    ensures v == 0 && tt.Empty? ==> forall s :: s in Sizes(bin.tree) ==> s < nb
  {
    hide Rep;
    hide NoShare;
    hide BinOk;
    if v != 0 {
      NodeIn(bin.links, bin.tree, vt);
    } else if tt.Empty? {
      NothingInBin(bin.tree, nb);
    }
  }

  lemma WalkIn(root: Tree, t: Tree, rst: Tree, v: Tree, rsize: nat, k: nat, nb: nat, base: nat, h: nat)
    requires Walking(root, t, rst, v, rsize, k, nb, base, h) && t.Node?
    ensures Within(t, root)
  {
  }

  /** The second loop of tmalloc_large: the smallest chunk of a subtree by the leftmost walk. */
  method Leftmost(bin: TreeBin, t0: int, v0: int, rsize0: nat, nb: nat, ghost tt0: Tree, ghost vt0: Tree,
                  ghost sizes: set<nat>, ghost vroot: Tree)
    returns (v: int, rsize: nat, ghost vt: Tree)
    requires bin.Valid() && BinOk(bin.index, vroot) && MIN_LARGE_SIZE <= nb < SIZE_LIMIT
    requires Points(t0, tt0) && Points(v0, vt0)
    requires tt0.Node? ==> Within(tt0, bin.tree)
    requires Candidate(vt0, rsize0, nb, vroot)
    requires AllBeaten(vt0, tt0, sizes, nb)
    requires forall r :: r in Sizes(tt0) ==> r >= nb || (vt0.Node? && vt0.size == nb)
    ensures v != 0 ==> forall s :: s in sizes && s >= nb ==> nb + rsize <= s
    ensures v == 0 ==> forall s :: s in sizes ==> s < nb
    ensures Points(v, vt) && (Candidate(vt, rsize, nb, vroot) || Candidate(vt, rsize, nb, bin.tree))
    ensures AllBeaten(vt, Empty, sizes, nb)
  {
    hide Trie;
    hide Within;
    hide AllBeaten;
    hide Excess;
    hide Rep;
    hide NoShare;
    ghost var root, i := bin.tree, bin.index;
    v, rsize, vt := v0, rsize0, vt0;
    var t := t0;
    ghost var tt := tt0;
    while t != 0
      invariant Points(t, tt) && Points(v, vt)
      invariant tt.Node? ==> Within(tt, root)
      invariant Candidate(vt, rsize, nb, vroot) || (vt.Node? && Candidate(vt, rsize, nb, root))
      invariant AllBeaten(vt, tt, sizes, nb)
      invariant forall r :: r in Sizes(tt) ==> r >= nb || (vt.Node? && vt.size == nb)
      decreases tt
    {
      ghost var b, g := WithinTrie(tt, root, BinBase(i), BinHeight(i));
      NodeFacts(root, i, tt, nb);
      NodeIn(bin.links, root, tt);
      if vt.Node? { CandidateSize(vt, rsize, nb, vroot, i, root, i); }
      var trem := Excess(bin.links.size[t], nb);
      if trem < rsize {
        BetterBeats(vt, tt, tt, sizes, nb);
        rsize, v, vt := trem, t, tt;
      }
      LeftmostStep(tt, b, g, vt, sizes, nb);
      ChildWithin(tt, root);
      assert forall r :: r in Sizes(LeftmostChild(tt)) ==> r in Sizes(tt);
      t := if bin.links.lo[t] != 0 then bin.links.lo[t] else bin.links.hi[t];
      tt := LeftmostChild(tt);
    }
    assert tt == Empty;
    LeastOf(vt, rsize, nb, vroot, root, sizes);
  }

  lemma LeastOf(v: Tree, rsize: nat, nb: nat, vroot: Tree, root: Tree, sizes: set<nat>)
    requires Candidate(v, rsize, nb, vroot) || Candidate(v, rsize, nb, root)
    requires AllBeaten(v, Empty, sizes, nb)
    ensures v.Node? ==> forall s :: s in sizes && s >= nb ==> nb + rsize <= s
    ensures v.Empty? ==> forall s :: s in sizes ==> s < nb
  {
    assert forall s :: s in sizes && s >= nb ==> Beaten(v, Empty, s);
  }

  /** x is the address of a smallest chunk with at least nb bytes, and that chunk has the given size. */
  ghost predicate FitAt(trees: seq<Tree>, x: int, size: int, nb: nat) {
    exists t :: BestFit(trees, t, nb) && Points(x, t) && t.size == size
  }

  /** No tree holds a fitting chunk smaller than the bound. */
  ghost predicate NoBetter(trees: seq<Tree>, nb: nat, bound: nat) {
    forall i, s :: 0 <= i < |trees| && s in Sizes(trees[i]) && s >= nb ==> bound <= s
  }

  /** The bins in memory hold these trees. */
  ghost predicate TreesLoaded(bins: seq<TreeBin>, trees: seq<Tree>)
    reads bins
  {
    && |bins| == |trees| == NTREEBINS
    && (forall i :: 0 <= i < NTREEBINS ==> bins[i].Valid() && bins[i].index == i && bins[i].tree == trees[i])
    && (forall i, j :: 0 <= i < j < NTREEBINS ==> bins[i] != bins[j])
  }

  /** And the map marks the non-empty ones. */
  ghost predicate Loaded(bins: seq<TreeBin>, trees: seq<Tree>, nonempty: seq<bool>)
    reads bins
  {
    && TreesLoaded(bins, trees) && |nonempty| == NTREEBINS
    && (forall i :: 0 <= i < NTREEBINS ==> nonempty[i] == trees[i].Node?)
  }

  /** The smallest chunk of the first non-empty bin behind the request's own one, in which nothing fits. */
  method FindLater(bins: seq<TreeBin>, ghost trees: seq<Tree>, nonempty: seq<bool>, idx: nat, nb: nat)
    returns (v: int, rsize: nat)
    requires BinsOk(trees) && Loaded(bins, trees, nonempty)
    requires MIN_LARGE_SIZE <= nb < SIZE_LIMIT && idx == TreeIndex(nb) && SizeInBin(idx, nb) && idx < NTREEBINS
    requires forall s :: s in Sizes(trees[idx]) ==> s < nb
    ensures v != 0 ==> FitAt(trees, v, nb + rsize, nb)
    ensures v == 0 ==> NoFit(trees, nb) && rsize == WORD - nb
  {
    hide Trie;
    hide TreeIndex;
    hide AllBeaten;
    hide Within;
    hide Rep;
    hide NoShare;
    v, rsize := 0, WORD - nb;
    // left_bits(idx2bit(idx)) & treemap, then lj_ffs: the first non-empty bin after idx.
    var j := idx + 1;
    while j < NTREEBINS && !nonempty[j]
      invariant idx < j <= NTREEBINS
      invariant forall i :: idx < i < j ==> trees[i].Empty?
    {
      j := j + 1;
    }
    if j < NTREEBINS {
      assert BinOk(j, trees[j]);
      StartBin(trees[j], nb);
      WithinSelf(trees[j]);
      RootPoints(bins[j]);
      forall r | r in Sizes(trees[j]) ensures r >= nb { LaterBinLarger(idx, nb, j, r); }
      ghost var vt;
      v, rsize, vt := Leftmost(bins[j], bins[j].root, 0, WORD - nb, nb, trees[j], Empty, Sizes(trees[j]), trees[j]);
      assert trees[j].size in Sizes(trees[j]);
      assert vt.Node?;
      BestOfBin(trees, j, vt, rsize, nb);
      assert FitAt(trees, v, nb + rsize, nb);
    } else {
      forall i, s | 0 <= i < |trees| && s in Sizes(trees[i]) ensures s < nb {
        assert BinOk(i, trees[i]);
        if i < idx { LaterBinLarger(i, s, idx, nb); }
      }
    }
  }

  /** The search of tmalloc_large without regard to dv. */
  method FindFit(bins: seq<TreeBin>, ghost trees: seq<Tree>, nonempty: seq<bool>, nb: nat)
    returns (v: int, rsize: nat)
    requires BinsOk(trees) && Loaded(bins, trees, nonempty)
    requires MIN_LARGE_SIZE <= nb < SIZE_LIMIT
    ensures v != 0 ==> FitAt(trees, v, nb + rsize, nb)
    ensures v == 0 ==> NoFit(trees, nb) && rsize == WORD - nb
  {
    hide Trie;
    hide TreeIndex;
    hide AllBeaten;
    hide Within;
    hide Rep;
    hide NoShare;
    IndexRange(nb);
    var idx := TreeIndex(nb);
    v, rsize := 0, WORD - nb;
    var t := bins[idx].root;
    ghost var vt, tt := Empty, trees[idx];
    assert BinOk(idx, trees[idx]);
    RootPoints(bins[idx]);
    if t != 0 {
      v, rsize, t, vt, tt := WalkBin(bins[idx], nb);
    } else {
      StartBin(tt, nb);
    }
    if t != 0 || v != 0 {
      v, rsize, vt := Leftmost(bins[idx], t, v, rsize, nb, tt, vt, Sizes(trees[idx]), trees[idx]);
      if v != 0 {
        BestOfBin(trees, idx, vt, rsize, nb);
        assert FitAt(trees, v, nb + rsize, nb);
        return;
      }
    }
    NothingInBin(trees[idx], nb);
    v, rsize := FindLater(bins, trees, nonempty, idx, nb);
  }

  lemma RootPoints(bin: TreeBin)
    requires bin.Valid()
    ensures Points(bin.root, bin.tree)
  {
    if bin.tree.Node? { NodeFields(bin.links, bin.tree, BIN); }
  }

  /** tmalloc_large up to the choice: nothing is chosen only when no chunk fits, or when the
      designated victim fits at least as well as every chunk that does. */
  method ChooseLarge(bins: seq<TreeBin>, ghost trees: seq<Tree>, nonempty: seq<bool>, nb: nat, dvsize: nat)
    returns (v: int, rsize: nat)
    requires BinsOk(trees) && Loaded(bins, trees, nonempty)
    requires MIN_LARGE_SIZE <= nb < SIZE_LIMIT && dvsize < SIZE_LIMIT
    ensures v != 0 ==> FitAt(trees, v, nb + rsize, nb) && (nb <= dvsize ==> nb + rsize < dvsize)
    ensures v == 0 ==> NoFit(trees, nb) || (nb <= dvsize && NoBetter(trees, nb, dvsize))
  {
    hide Within;
    hide TreeIndex;
    hide Loaded;
    v, rsize := FindFit(bins, trees, nonempty, nb);
    ExcessMeans(dvsize, nb);
    if v != 0 {
      ghost var vt :| BestFit(trees, vt, nb) && Points(v, vt) && vt.size == nb + rsize;
      FitBelowLimit(trees, vt, nb);
      if !(rsize < Excess(dvsize, nb)) {
        v := 0;
      }
    }
  }

  /** tmalloc_small: the smallest chunk of all tree bins. */
  method ChooseSmallest(bins: seq<TreeBin>, ghost trees: seq<Tree>, nonempty: seq<bool>, nb: nat)
    returns (v: int, rsize: nat)
    requires BinsOk(trees) && Loaded(bins, trees, nonempty)
    requires exists i :: 0 <= i < NTREEBINS && nonempty[i]
    requires nb < MIN_LARGE_SIZE
    ensures FitAt(trees, v, nb + rsize, 0) && nb + rsize >= MIN_LARGE_SIZE
  {
    hide Trie;
    hide TreeIndex;
    hide AllBeaten;
    hide Within;
    hide Rep;
    hide NoShare;
    var i := 0;
    while !nonempty[i]
      invariant 0 <= i < NTREEBINS && exists j :: i <= j < NTREEBINS && nonempty[j]
      invariant forall j :: 0 <= j < i ==> trees[j].Empty?
      decreases NTREEBINS - i
    {
      i := i + 1;
    }
    var bin := bins[i];
    ghost var root, tt := trees[i], trees[i];
    assert BinOk(i, root);
    WithinSelf(root);
    StartBin(root, 0);
    RootPoints(bin);
    NodeIn(bin.links, root, root);
    var t := bin.root;
    v := t;
    ghost var vt := root;
    NodeIsLarge(root, i, root);
    rsize := bin.links.size[t] - nb;
    BetterBeats(Empty, vt, tt, Sizes(root), 0);
    LeftmostStep(tt, BinBase(i), BinHeight(i), vt, Sizes(root), 0);
    ChildWithin(tt, root);
    t := if bin.links.lo[t] != 0 then bin.links.lo[t] else bin.links.hi[t];
    tt := LeftmostChild(tt);
    while t != 0
      invariant Points(t, tt) && Points(v, vt)
      invariant tt.Node? ==> Within(tt, root)
      invariant vt.Node? && Within(vt, root) && vt.size >= MIN_LARGE_SIZE && rsize == vt.size - nb
      invariant AllBeaten(vt, tt, Sizes(root), 0)
      decreases tt
    {
      NodeIsLarge(root, i, tt);
      NodeIn(bin.links, root, tt);
      ghost var b, g := WithinTrie(tt, root, BinBase(i), BinHeight(i));
      var trem := bin.links.size[t] - nb;
      if trem < rsize {
        BetterBeats(vt, tt, tt, Sizes(root), 0);
        rsize, v, vt := trem, t, tt;
      }
      LeftmostStep(tt, b, g, vt, Sizes(root), 0);
      ChildWithin(tt, root);
      t := if bin.links.lo[t] != 0 then bin.links.lo[t] else bin.links.hi[t];
      tt := LeftmostChild(tt);
    }
    assert tt == Empty;
    SmallestOfAll(trees, i, vt);
    assert BestFit(trees, vt, 0) && Points(v, vt) && vt.size == nb + rsize;
  }
}
