/**
  Which tree bin a size belongs to, and the best-fit search over the bins.
 */
module AllocBins {
  import opened Arith
  import opened AllocTree

  const NTREEBINS: nat := 32
  const SIZE_T_BITS: nat := 64
  const MIN_LARGE_SIZE: nat := 256

  /** compute_tree_index. */
  function TreeIndex(s: nat): nat {
    var x := (s / 256) % 0x1_0000_0000;
    if x == 0 then 0
    else if x > 0xffff then NTREEBINS - 1
    else 2 * Fls(x) + (s / Pow2(Fls(x) + 7)) % 2
  }

  /** minsize_for_tree_index. */
  function BinMin(i: nat): nat {
    Pow2(i / 2 + 8) + (i % 2) * Pow2(i / 2 + 7)
  }

  /** The size range the trie of a bin resolves: the last bin looks at all bits. */
  function BinBase(i: nat): nat {
    if i >= NTREEBINS - 1 then 0 else BinMin(i)
  }

  function BinHeight(i: nat): nat {
    if i >= NTREEBINS - 1 then SIZE_T_BITS else i / 2 + 7
  }

  lemma BinMinNext(i: nat)
    ensures BinMin(i + 1) == BinMin(i) + Pow2(i / 2 + 7)
  {
    var k := i / 2;
    assert Pow2(k + 8) == 2 * Pow2(k + 7);
    if i % 2 == 0 {
      assert (i + 1) / 2 == k && (i + 1) % 2 == 1;
    } else {
      assert (i + 1) / 2 == k + 1 && (i + 1) % 2 == 0;
      assert Pow2(k + 1 + 8) == 2 * Pow2(k + 8);
    }
  }

  lemma {:induction false} BinMinMonotone(i: nat, j: nat)
    requires i <= j
    ensures BinMin(i) <= BinMin(j)
  {
    if i < j {
      BinMinMonotone(i, j - 1);
      BinMinNext(j - 1);
    }
  }

  /** x / m is 2 or 3 when x lies between 2m and 4m. */
  lemma TopTwoBits(x: nat, m: nat)
    requires m > 0 && 2 * m <= x < 4 * m
    ensures (x / m) % 2 == if x < 3 * m then 0 else 1
  {
    if x < 3 * m { DivUnique(x, m, 2, x - 2 * m); } else { DivUnique(x, m, 3, x - 3 * m); }
  }

  lemma SmallPowers()
    ensures Pow2(7) == 128 && Pow2(8) == 256 && Pow2(15) == 0x8000 && Pow2(16) == 0x1_0000
    ensures Pow2(22) == 0x40_0000 && Pow2(23) == 0x80_0000 && Pow2(24) == 0x100_0000
  {
    assert Pow2(4) == 16;
    Pow2Add(4, 4);
    Pow2Add(7, 8);
    Pow2Add(8, 8);
    Pow2Add(8, 14);
    Pow2Add(7, 7);
    Pow2Add(8, 15);
    Pow2Add(8, 16);
    assert Pow2(7) * 2 == Pow2(8);
  }

  lemma BinMinAt(k: nat)
    ensures BinMin(2 * k) == Pow2(k + 8)
    ensures BinMin(2 * k + 1) == Pow2(k + 8) + Pow2(k + 7)
    ensures BinMin(2 * k + 2) == Pow2(k + 9)
  {
    hide Pow2;
    assert (2 * k) / 2 == k && (2 * k + 1) / 2 == k && (2 * k + 2) / 2 == k + 1;
  }

  /** A size between 2^(k+8) and 2^(k+9) lies in bin 2k or 2k+1, by its second bit. */
  lemma MiddleBin(s: nat, k: nat)
    requires Pow2(k + 8) <= s < Pow2(k + 9)
    ensures (s / Pow2(k + 7)) % 2 == 0 ==> BinMin(2 * k) <= s < BinMin(2 * k + 1)
    ensures (s / Pow2(k + 7)) % 2 == 1 ==> BinMin(2 * k + 1) <= s < BinMin(2 * k + 2)
  {
    var m := Pow2(k + 7);
    assert Pow2(k + 9) == 2 * Pow2(k + 8) && Pow2(k + 8) == 2 * m;
    BinMinAt(k);
    hide Pow2;
    hide BinMin;
    TopTwoBits(s, m);
  }

  lemma ScaledUp(s: nat, k: nat)
    requires Pow2(k) <= s / 256 < Pow2(k + 1)
    ensures Pow2(k + 8) <= s < Pow2(k + 9)
  {
    SmallPowers();
    Pow2Add(k, 8);
    Pow2Add(k + 1, 8);
    hide Pow2;
  }

  /** The index names the bin whose range holds the size: the bins partition the large sizes in order. */
  lemma IndexRange(s: nat)
    requires MIN_LARGE_SIZE <= s < 0x100_0000_0000
    ensures TreeIndex(s) < NTREEBINS
    ensures BinMin(TreeIndex(s)) <= s
    ensures TreeIndex(s) < NTREEBINS - 1 ==> s < BinMin(TreeIndex(s) + 1)
  {
    hide Fls;
    hide Pow2;
    hide BinMin;
    SmallPowers();
    BinMinAt(15);
    var x := s / 256;
    assert x % 0x1_0000_0000 == x;
    if x <= 0xffff {
      var k := Fls(x);
      FlsBounds(x);
      if k >= 16 { Pow2Monotone(16, k); }
      ScaledUp(s, k);
      MiddleBin(s, k);
    }
  }

  // ---------------------------------------------------------------- the bins

  /** Chunk sizes stay far below the width the index computation truncates to. */
  const SIZE_LIMIT: nat := 0x100_0000_0000

  ghost predicate SizeInBin(i: nat, s: nat) {
    MIN_LARGE_SIZE <= s < SIZE_LIMIT && TreeIndex(s) == i
  }

  ghost predicate BinOk(i: nat, t: Tree) {
    Trie(t, BinBase(i), BinHeight(i)) && forall s :: s in Sizes(t) ==> SizeInBin(i, s)
  }

  ghost predicate BinsOk(bins: seq<Tree>) {
    |bins| == NTREEBINS && forall i {:trigger BinOk(i, bins[i])} :: 0 <= i < NTREEBINS ==> BinOk(i, bins[i])
  }

  lemma InBinRange(i: nat, s: nat)
    requires SizeInBin(i, s)
    ensures i < NTREEBINS && BinMin(i) <= s && BinBase(i) <= s < BinBase(i) + Pow2(BinHeight(i))
    ensures i < NTREEBINS - 1 ==> s < BinMin(i + 1)
  {
    hide Pow2;
    hide BinMin;
    IndexRange(s);
    BinMinNext(i);
    Word();
  }

  lemma Word()
    ensures Pow2(40) == SIZE_LIMIT && Pow2(63) == 0x8000_0000_0000_0000 && Pow2(64) == 0x1_0000_0000_0000_0000
  {
    SmallPowers();
    Pow2Add(16, 24);
    Pow2Add(40, 23);
    Pow2Add(40, 24);
  }

  /** Sizes in a later bin are larger. */
  lemma LaterBinLarger(i: nat, s: nat, j: nat, r: nat)
    requires SizeInBin(i, s) && SizeInBin(j, r) && i < j
    ensures s < r
  {
    hide BinMin;
    hide TreeIndex;
    hide Pow2;
    InBinRange(i, s);
    InBinRange(j, r);
    BinMinMonotone(i + 1, j);
  }

  /** v is a node of t. */
  ghost predicate Within(v: Tree, t: Tree) {
    t.Node? && (v == t || Within(v, t.lo) || Within(v, t.hi))
  }

  lemma {:induction false} WithinSizes(v: Tree, t: Tree, base: nat, h: nat)
    requires Within(v, t) && Trie(t, base, h)
    ensures v.Node? && v.size in Sizes(t) && |v.ring| > 0 && Chunk(v.ring[0], v.size) in Chunks(t)
  {
    if v == t {
      RingSizes(t.size, t.ring);
    } else if Within(v, t.lo) {
      WithinSizes(v, t.lo, base, h - 1);
    } else {
      WithinSizes(v, t.hi, base + Pow2(h - 1), h - 1);
    }
  }

  lemma {:induction false} WithinTrans(v: Tree, t: Tree, u: Tree)
    requires Within(v, t) && Within(t, u)
    ensures Within(v, u)
  {
    if t != u {
      if Within(t, u.lo) { WithinTrans(v, t, u.lo); } else { WithinTrans(v, t, u.hi); }
    }
  }

  // ---------------------------------------------------------------- the walk along the bits of a size

  /** The shifted size at a subtree: its top bit tells the half. */
  ghost predicate Shifted(k: nat, nb: nat, base: nat, h: nat) {
    h <= SIZE_T_BITS && base <= nb < base + Pow2(h) && k == (nb - base) * Pow2(SIZE_T_BITS - h)
  }

  lemma ShiftedBits(k: nat, nb: nat, base: nat, h: nat)
    requires Shifted(k, nb, base, h)
    ensures k < Pow2(64)
    ensures h == 0 ==> k == 0
    ensures h > 0 ==> (k / Pow2(63) == if Upper(base, h, nb) then 1 else 0)
    ensures h > 0 ==> Shifted((2 * k) % Pow2(64), nb, if Upper(base, h, nb) then base + Pow2(h - 1) else base, h - 1)
  {
    if h == 0 { return; }
    var m, w := Pow2(SIZE_T_BITS - h), Pow2(h - 1);
    Pow2Add(h - 1, SIZE_T_BITS - h);
    assert w * m == Pow2(63) && Pow2(64) == 2 * Pow2(63);
    assert Pow2(SIZE_T_BITS - (h - 1)) == 2 * m && Pow2(h) == 2 * w;
    hide Pow2;
    HalfStep(k, nb - base, w, m, Pow2(63));
  }

  lemma HalfStep(k: nat, d: nat, w: nat, m: nat, p: nat)
    requires w > 0 && m > 0 && w * m == p && d < 2 * w && k == d * m
    ensures k < 2 * p
    ensures d >= w ==> k / p == 1 && (2 * k) % (2 * p) == (d - w) * (2 * m)
    ensures d < w ==> k / p == 0 && (2 * k) % (2 * p) == d * (2 * m)
  {
    if d >= w {
      MulSplit(d, w, m);
      MulLess(d - w, w, m);
      DivUnique(k, p, 1, (d - w) * m);
      Double(d - w, m);
      DivUnique(2 * k, 2 * p, 1, 2 * ((d - w) * m));
    } else {
      MulLess(d, w, m);
      DivUnique(k, p, 0, k);
      Double(d, m);
      DivUnique(2 * k, 2 * p, 0, 2 * k);
    }
  }

  lemma Double(d: nat, m: nat)
    ensures d * (2 * m) == 2 * (d * m)
  {
  }

  lemma MulSplit(d: nat, w: nat, m: nat)
    requires d >= w
    ensures d * m == w * m + (d - w) * m
  {
  }

  lemma MulLess(d: nat, w: nat, m: nat)
    requires d < w && m > 0
    ensures d * m < w * m
  {
    MulGap(w, d, m);
  }

  /** nb << leftshift_for_tree_index(i), in 64 bits, is the shifted size at the root of bin i. */
  lemma ShiftAtRoot(nb: nat, i: nat)
    requires SizeInBin(i, nb)
    ensures BinHeight(i) <= SIZE_T_BITS
    ensures Shifted((nb * Pow2(SIZE_T_BITS - BinHeight(i))) % Pow2(64), nb, BinBase(i), BinHeight(i))
  {
    InBinRange(i, nb);
    var h, base := BinHeight(i), BinBase(i);
    var m := Pow2(SIZE_T_BITS - h);
    Pow2Add(h, SIZE_T_BITS - h);
    BaseMultiple(i);
    assert h == SIZE_T_BITS ==> m == 1;
    hide Pow2;
    hide BinMin;
    hide TreeIndex;
    if i < NTREEBINS - 1 {
      RootShift(nb, base, Pow2(h), m, Pow2(64), 2 + i % 2);
    } else {
      RootShift(nb, 0, Pow2(h), m, Pow2(64), 0);
    }
  }

  lemma RootShift(nb: nat, base: nat, w: nat, m: nat, p: nat, c: nat)
    requires w > 0 && m > 0 && w * m == p && base == c * w && base <= nb < base + w
    ensures (nb * m) % p == (nb - base) * m
  {
    MulLess(nb - base, w, m);
    MulSplit(nb, base, m);
    MulAssoc(c, w, m);
    DivUnique(nb * m, p, c, (nb - base) * m);
  }

  lemma BaseMultiple(i: nat)
    ensures BinMin(i) == (2 + i % 2) * Pow2(i / 2 + 7)
  {
    assert Pow2(i / 2 + 8) == 2 * Pow2(i / 2 + 7);
  }

  lemma MulAssoc(a: nat, b: nat, c: nat)
    ensures (a * b) * c == a * (b * c)
  {
  }
}
