/**
  The tree bins of the bundled allocator: bitwise tries over chunk sizes.  A
  node holds the chunks of one size in a ring; its two subtrees hold sizes with
  the next bit clear or set.
 */
module AllocTree {
  import opened Arith

  /** A free chunk: its address and its size. */
  datatype Chunk = Chunk(at: int, size: nat)

  datatype Tree = Empty | Node(size: nat, ring: seq<int>, lo: Tree, hi: Tree)

  /** All chunks of a ring, and of a tree. */
  ghost function RingChunks(size: nat, ring: seq<int>): multiset<Chunk> {
    if ring == [] then multiset{} else RingChunks(size, ring[..|ring|-1]) + multiset{Chunk(ring[|ring|-1], size)}
  }

  ghost function Chunks(t: Tree): multiset<Chunk> {
    if t.Empty? then multiset{} else RingChunks(t.size, t.ring) + Chunks(t.lo) + Chunks(t.hi)
  }

  ghost function Sizes(t: Tree): set<nat> {
    if t.Empty? then {} else {t.size} + Sizes(t.lo) + Sizes(t.hi)
  }

  /** The trie invariant: the subtree covers the 2^h sizes from base on, each child one half of
      them, and no size has two rings. */
  ghost predicate Trie(t: Tree, base: nat, h: nat) {
    t.Node? ==>
      && base <= t.size < base + Pow2(h)
      && |t.ring| > 0
      && t.size !in Sizes(t.lo) && t.size !in Sizes(t.hi)
      && (h == 0 ==> t.lo.Empty? && t.hi.Empty?)
      && (h > 0 ==> Trie(t.lo, base, h - 1) && Trie(t.hi, base + Pow2(h - 1), h - 1))
  }

  lemma {:induction false} SizesInRange(t: Tree, base: nat, h: nat)
    requires Trie(t, base, h)
    ensures forall s :: s in Sizes(t) ==> base <= s < base + Pow2(h)
  {
    if t.Node? && h > 0 {
      SizesInRange(t.lo, base, h - 1);
      SizesInRange(t.hi, base + Pow2(h - 1), h - 1);
    }
  }

  /** The chunks of a tree have the sizes of its nodes. */
  lemma {:induction false} RingSizes(size: nat, ring: seq<int>)
    ensures forall c :: c in RingChunks(size, ring) ==> c.size == size && c.at in ring
    ensures forall x :: x in ring ==> Chunk(x, size) in RingChunks(size, ring)
  {
    if ring != [] {
      var init, last := ring[..|ring|-1], ring[|ring|-1];
      RingSizes(size, init);
      forall x | x in ring ensures Chunk(x, size) in RingChunks(size, ring) {
        if x != last { assert x in init; }
      }
    }
  }

  lemma {:induction false} ChunkSizes(t: Tree)
    ensures forall c :: c in Chunks(t) ==> c.size in Sizes(t)
  {
    if t.Node? {
      RingSizes(t.size, t.ring);
      ChunkSizes(t.lo);
      ChunkSizes(t.hi);
    }
  }

  lemma {:induction false} SizeHasChunk(t: Tree, base: nat, h: nat, s: nat) returns (c: Chunk)
    requires Trie(t, base, h) && s in Sizes(t)
    ensures c in Chunks(t) && c.size == s
  {
    if s == t.size {
      RingSizes(t.size, t.ring);
      c := Chunk(t.ring[0], s);
    } else if s in Sizes(t.lo) {
      c := SizeHasChunk(t.lo, base, h - 1, s);
    } else {
      c := SizeHasChunk(t.hi, base + Pow2(h - 1), h - 1, s);
    }
  }

  // ---------------------------------------------------------------- insertion

  /** Does a size of this subtree go to the upper half? */
  predicate Upper(base: nat, h: nat, s: nat)
    requires h > 0
  {
    s >= base + Pow2(h - 1)
  }

  /** A new chunk joins the ring of its size right after the head, or becomes a leaf. */
  function Insert(t: Tree, base: nat, h: nat, s: nat, x: int): Tree
  {
    if t.Empty? then Node(s, [x], Empty, Empty)
    else if t.size == s && |t.ring| > 0 then t.(ring := [t.ring[0], x] + t.ring[1..])
    else if h == 0 then t
    else if Upper(base, h, s) then t.(hi := Insert(t.hi, base + Pow2(h - 1), h - 1, s, x))
    else t.(lo := Insert(t.lo, base, h - 1, s, x))
  }

  lemma {:induction false} RingConcat(size: nat, a: seq<int>, b: seq<int>)
    ensures RingChunks(size, a + b) == RingChunks(size, a) + RingChunks(size, b)
  {
    if b == [] {
      assert a + b == a;
    } else {
      var init := b[..|b|-1];
      RingConcat(size, a, init);
      assert (a + b)[..|a + b|-1] == a + init && (a + b)[|a + b|-1] == b[|b|-1];
      Regroup(RingChunks(size, a), RingChunks(size, init), multiset{Chunk(b[|b|-1], size)});
    }
  }

  lemma Regroup(a: multiset<Chunk>, b: multiset<Chunk>, c: multiset<Chunk>)
    ensures a + b + c == a + (b + c)
  {
  }

  lemma RingOne(size: nat, x: int)
    ensures RingChunks(size, [x]) == multiset{Chunk(x, size)}
  {
    assert [x][..0] == [];
  }

  lemma {:induction false} InsertTrie(t: Tree, base: nat, h: nat, s: nat, x: int)
    requires Trie(t, base, h) && base <= s < base + Pow2(h)
    ensures Trie(Insert(t, base, h, s, x), base, h)
    ensures Sizes(Insert(t, base, h, s, x)) == Sizes(t) + {s}
  {
    if t.Empty? || t.size == s {
    } else if Upper(base, h, s) {
      InsertTrie(t.hi, base + Pow2(h - 1), h - 1, s, x);
    } else {
      InsertTrie(t.lo, base, h - 1, s, x);
    }
  }

  lemma RingInsert(s: nat, ring: seq<int>, x: int)
    requires |ring| > 0
    ensures RingChunks(s, [ring[0], x] + ring[1..]) == RingChunks(s, ring) + multiset{Chunk(x, s)}
  {
    hide RingChunks;
    var head, rest := [ring[0]], ring[1..];
    RingConcat(s, head, rest);
    RingConcat(s, head, [x]);
    RingConcat(s, head + [x], rest);
    RingOne(s, x);
    assert head + rest == ring;
    assert head + [x] + rest == [ring[0], x] + ring[1..];
  }

  lemma {:induction false} InsertChunks(t: Tree, base: nat, h: nat, s: nat, x: int)
    requires Trie(t, base, h) && base <= s < base + Pow2(h)
    ensures Chunks(Insert(t, base, h, s, x)) == Chunks(t) + multiset{Chunk(x, s)}
  {
    hide Sizes;
    hide RingChunks;
    if t.Empty? {
      RingOne(s, x);
    } else if t.size == s {
      RingInsert(s, t.ring, x);
    } else if Upper(base, h, s) {
      InsertChunks(t.hi, base + Pow2(h - 1), h - 1, s, x);
    } else {
      InsertChunks(t.lo, base, h - 1, s, x);
    }
  }

  /** insert_large_chunk adds exactly the one chunk and keeps the trie. */
  lemma InsertCorrect(t: Tree, base: nat, h: nat, s: nat, x: int)
    requires Trie(t, base, h) && base <= s < base + Pow2(h)
    ensures Trie(Insert(t, base, h, s, x), base, h)
    ensures Chunks(Insert(t, base, h, s, x)) == Chunks(t) + multiset{Chunk(x, s)}
  {
    InsertTrie(t, base, h, s, x);
    InsertChunks(t, base, h, s, x);
  }

  // ---------------------------------------------------------------- removal

  /** The leaf that the descent preferring the upper child ends at, and the tree without it. */
  function FarLeaf(t: Tree): (r: (nat, seq<int>))
    requires t.Node?
  {
    if t.hi.Node? then FarLeaf(t.hi) else if t.lo.Node? then FarLeaf(t.lo) else (t.size, t.ring)
  }

  function WithoutFarLeaf(t: Tree): Tree
    requires t.Node?
  {
    if t.hi.Node? then t.(hi := WithoutFarLeaf(t.hi))
    else if t.lo.Node? then t.(lo := WithoutFarLeaf(t.lo))
    else Empty
  }

  lemma {:induction false} FarLeafTrie(t: Tree, base: nat, h: nat)
    requires Trie(t, base, h) && t.Node?
    ensures Trie(WithoutFarLeaf(t), base, h)
    ensures |FarLeaf(t).1| > 0 && base <= FarLeaf(t).0 < base + Pow2(h)
    ensures FarLeaf(t).0 !in Sizes(WithoutFarLeaf(t))
    ensures Sizes(t) == Sizes(WithoutFarLeaf(t)) + {FarLeaf(t).0}
  {
    if t.hi.Node? {
      FarLeafTrie(t.hi, base + Pow2(h - 1), h - 1);
      SizesInRange(t.lo, base, h - 1);
    } else if t.lo.Node? {
      FarLeafTrie(t.lo, base, h - 1);
    }
  }

  lemma {:induction false} FarLeafChunks(t: Tree)
    requires t.Node?
    ensures Chunks(t) == Chunks(WithoutFarLeaf(t)) + RingChunks(FarLeaf(t).0, FarLeaf(t).1)
  {
    hide RingChunks;
    if t.hi.Node? {
      FarLeafChunks(t.hi);
    } else if t.lo.Node? {
      FarLeafChunks(t.lo);
    }
  }

  /** What replaces a node whose ring has become empty: a far leaf of the upper, else of the lower subtree. */
  function Collapse(lo: Tree, hi: Tree): Tree {
    if hi.Node? then Node(FarLeaf(hi).0, FarLeaf(hi).1, lo, WithoutFarLeaf(hi))
    else if lo.Node? then Node(FarLeaf(lo).0, FarLeaf(lo).1, WithoutFarLeaf(lo), hi)
    else Empty
  }

  lemma CollapseTrie(lo: Tree, hi: Tree, base: nat, h: nat)
    requires h > 0 && Trie(lo, base, h - 1) && Trie(hi, base + Pow2(h - 1), h - 1)
    ensures Trie(Collapse(lo, hi), base, h)
    ensures Sizes(Collapse(lo, hi)) == Sizes(lo) + Sizes(hi)
  {
    SizesInRange(lo, base, h - 1);
    SizesInRange(hi, base + Pow2(h - 1), h - 1);
    if hi.Node? {
      FarLeafTrie(hi, base + Pow2(h - 1), h - 1);
    } else if lo.Node? {
      FarLeafTrie(lo, base, h - 1);
    }
  }

  lemma CollapseChunks(lo: Tree, hi: Tree)
    ensures Chunks(Collapse(lo, hi)) == Chunks(lo) + Chunks(hi)
  {
    hide RingChunks;
    if hi.Node? {
      FarLeafChunks(hi);
    } else if lo.Node? {
      FarLeafChunks(lo);
    }
  }

  /** The ring without its i-th chunk; when the head goes, its predecessor in the ring takes over. */
  function RingWithout(ring: seq<int>, i: nat): seq<int>
    requires i < |ring|
  {
    if i == 0 && |ring| > 1 then [ring[|ring|-1]] + ring[1..|ring|-1] else ring[..i] + ring[i+1..]
  }

  lemma RingWithoutCorrect(size: nat, ring: seq<int>, i: nat)
    requires i < |ring|
    ensures |RingWithout(ring, i)| == |ring| - 1
    ensures RingChunks(size, ring) == RingChunks(size, RingWithout(ring, i)) + multiset{Chunk(ring[i], size)}
  {
    hide RingChunks;
    var pre, mid, post := ring[..i], [ring[i]], ring[i+1..];
    assert ring == pre + mid + post;
    RingConcat(size, pre, mid);
    RingConcat(size, pre + mid, post);
    RingOne(size, ring[i]);
    MoveLast(RingChunks(size, pre), RingChunks(size, mid), RingChunks(size, post));
    RingConcat(size, pre, post);
    if i == 0 && |ring| > 1 {
      var a, z := ring[1..|ring|-1], [ring[|ring|-1]];
      assert pre + post == a + z;
      RingConcat(size, a, z);
      RingConcat(size, z, a);
      Swap(RingChunks(size, a), RingChunks(size, z));
      assert RingWithout(ring, i) == z + a;
    } else {
      assert RingWithout(ring, i) == pre + post;
    }
  }

  lemma MoveLast(a: multiset<Chunk>, b: multiset<Chunk>, c: multiset<Chunk>)
    ensures a + b + c == a + c + b
  {
  }

  lemma Swap(a: multiset<Chunk>, b: multiset<Chunk>)
    ensures a + b == b + a
  {
  }

  /** A position in a tree: the directions from the root and the place in the ring. */
  function Subtree(t: Tree, path: seq<bool>): Tree {
    if path == [] || t.Empty? then t else Subtree(if path[0] then t.hi else t.lo, path[1..])
  }

  /** The subtree after its i-th ring chunk has been unlinked. */
  function Unlinked(t: Tree, i: nat): Tree
    requires t.Node? && i < |t.ring|
  {
    if |t.ring| > 1 then t.(ring := RingWithout(t.ring, i)) else Collapse(t.lo, t.hi)
  }

  /** unlink_large_chunk on the chunk at place i of the ring at the end of `path`. */
  function Unlink(t: Tree, path: seq<bool>, i: nat): Tree
    requires Subtree(t, path).Node? && i < |Subtree(t, path).ring|
  {
    if path == [] then Unlinked(t, i)
    else if path[0] then t.(hi := Unlink(t.hi, path[1..], i))
    else t.(lo := Unlink(t.lo, path[1..], i))
  }

  lemma UnlinkedTrie(t: Tree, base: nat, h: nat, i: nat)
    requires Trie(t, base, h) && t.Node? && i < |t.ring|
    ensures Trie(Unlinked(t, i), base, h)
    ensures Sizes(Unlinked(t, i)) <= Sizes(t)
  {
    if |t.ring| == 1 && h > 0 { CollapseTrie(t.lo, t.hi, base, h); }
  }

  lemma UnlinkedChunks(t: Tree, i: nat)
    requires t.Node? && i < |t.ring|
    ensures Chunks(t) == Chunks(Unlinked(t, i)) + multiset{Chunk(t.ring[i], t.size)}
  {
    RingWithoutCorrect(t.size, t.ring, i);
    if |t.ring| == 1 {
      assert RingWithout(t.ring, i) == [];
      CollapseChunks(t.lo, t.hi);
    }
  }

  lemma {:induction false} UnlinkTrie(t: Tree, base: nat, h: nat, path: seq<bool>, i: nat)
    requires Trie(t, base, h) && Subtree(t, path).Node? && i < |Subtree(t, path).ring|
    ensures Trie(Unlink(t, path, i), base, h)
    ensures Sizes(Unlink(t, path, i)) <= Sizes(t)
  {
    if path == [] {
      UnlinkedTrie(t, base, h, i);
    } else if path[0] {
      UnlinkTrie(t.hi, base + Pow2(h - 1), h - 1, path[1..], i);
    } else {
      UnlinkTrie(t.lo, base, h - 1, path[1..], i);
    }
  }

  lemma {:induction false} UnlinkChunks(t: Tree, path: seq<bool>, i: nat)
    requires Subtree(t, path).Node? && i < |Subtree(t, path).ring|
    ensures var n := Subtree(t, path);
            Chunks(t) == Chunks(Unlink(t, path, i)) + multiset{Chunk(n.ring[i], n.size)}
  {
    hide RingChunks;
    hide Unlinked;
    if path == [] {
      UnlinkedChunks(t, i);
    } else if path[0] {
      UnlinkChunks(t.hi, path[1..], i);
    } else {
      UnlinkChunks(t.lo, path[1..], i);
    }
  }

  /** unlink_large_chunk takes out exactly the one chunk and keeps the trie, also when a far leaf
      or a ring sibling takes the place of a node. */
  lemma UnlinkCorrect(t: Tree, base: nat, h: nat, path: seq<bool>, i: nat)
    requires Trie(t, base, h) && Subtree(t, path).Node? && i < |Subtree(t, path).ring|
    ensures Trie(Unlink(t, path, i), base, h)
    ensures var n := Subtree(t, path);
            Chunks(t) == Chunks(Unlink(t, path, i)) + multiset{Chunk(n.ring[i], n.size)}
  {
    UnlinkTrie(t, base, h, path, i);
    UnlinkChunks(t, path, i);
  }
}
