/**
  A small bin in memory: a circular list through the bin's header, whose links
  go stale when the list runs empty.
 */
module AllocSmall {
  import opened AllocPool
  import opened AllocLinks

  ghost predicate LinkedAt(fd: map<int, int>, bk: map<int, int>, ring: seq<int>, i: nat)
    requires i < |ring|
  {
    var x := ring[i];
    x in fd && x in bk && fd[x] == NextIn(ring, i) && bk[x] == PrevIn(ring, i)
  }

  /** The links lead around the ring in both directions. */
  ghost predicate Circular(fd: map<int, int>, bk: map<int, int>, ring: seq<int>) {
    forall i {:trigger LinkedAt(fd, bk, ring, i)} :: 0 <= i < |ring| ==> LinkedAt(fd, bk, ring, i)
  }

  /** Linking p behind the first element. */
  lemma LinkSecond(fd: map<int, int>, bk: map<int, int>, ring: seq<int>, p: int)
    requires |ring| > 0 && Circular(fd, bk, ring) && DistinctRing([ring[0], p] + ring[1..])
    ensures ring[0] in fd
    ensures var h := ring[0];
            var f := fd[h];
            Circular(fd[h := p][p := f], bk[f := p][p := h], [h, p] + ring[1..])
  {
    assert LinkedAt(fd, bk, ring, 0);
    var h, f, n := ring[0], fd[ring[0]], |ring|;
    var ring' := [h, p] + ring[1..];
    var fd', bk' := fd[h := p][p := f], bk[f := p][p := h];
    forall i | 0 <= i < |ring'| ensures LinkedAt(fd', bk', ring', i) {
      assert ring'[0] == h && ring'[1] == p && (forall k :: 1 <= k < n ==> ring'[k+1] == ring[k]);
      if i >= 2 { assert LinkedAt(fd, bk, ring, i - 1); }
    }
  }

  /** Bypassing the k-th element, which is not the first. */
  lemma Bypass(fd: map<int, int>, bk: map<int, int>, ring: seq<int>, k: nat)
    requires 0 < k < |ring| && |ring| > 2 && Circular(fd, bk, ring) && DistinctRing(ring)
    ensures ring[k] in fd && ring[k] in bk && fd[ring[k]] != bk[ring[k]]
    ensures var f, b := fd[ring[k]], bk[ring[k]];
            Circular(fd[b := f], bk[f := b], Dropped(ring, k))
  {
    assert LinkedAt(fd, bk, ring, k);
    var f, b := fd[ring[k]], bk[ring[k]];
    var ring' := Dropped(ring, k);
    var fd', bk' := fd[b := f], bk[f := b];
    forall i | 0 <= i < |ring'| ensures LinkedAt(fd', bk', ring', i) {
      var j := if i < k then i else i + 1;
      assert LinkedAt(fd, bk, ring, j);
      assert ring'[i] == ring[j];
    }
  }

  class SmallBin {
    /** The address of the header. */
    const home: int
    var fd: map<int, int>
    var bk: map<int, int>
    /** The chunks, in the order of the list. */
    ghost var contents: seq<int>

    /** The links mean something only while there are chunks. */
    ghost predicate Valid()
      reads this
    {
      DistinctRing([home] + contents) && (contents != [] ==> Circular(fd, bk, [home] + contents))
    }

    constructor (home: int)
      ensures Valid() && contents == [] && this.home == home
    {
      this.home := home;
      fd, bk, contents := map[home := home], map[home := home], [];
    }

    method First() returns (p: int)
      requires Valid() && contents != []
      ensures p == contents[0]
    {
      assert LinkedAt(fd, bk, [home] + contents, 0);
      p := fd[home];
    }

    /** insert_small_chunk: the header's links are used only if the bin is marked. */
    method Insert(p: int, marked: bool)
      requires Valid() && p != home && p !in contents && marked == (contents != [])
      modifies this
      ensures Valid() && contents == [p] + old(contents)
    {
      ghost var ring := [home] + contents;
      if marked { LinkSecond(fd, bk, ring, p); }
      var f := home;
      if marked { f := fd[home]; }
      fd := fd[home := p];
      bk := bk[f := p];
      fd := fd[p := f];
      bk := bk[p := home];
      contents := [p] + contents;
      assert [home, p] + ring[1..] == [home] + contents;
    }

    /** unlink_small_chunk: both links of p lead to the same place just when p is the only chunk. */
    method Unlink(p: int, ghost k: nat) returns (last: bool)
      requires Valid() && k < |contents| && contents[k] == p
      modifies this
      ensures Valid() && contents == Dropped(old(contents), k) && (last <==> contents == [])
    {
      ghost var ring := [home] + contents;
      assert LinkedAt(fd, bk, ring, k + 1) && ring[k+1] == p;
      if |contents| > 1 { Bypass(fd, bk, ring, k + 1); }
      assert Dropped(ring, k + 1) == [home] + Dropped(contents, k);
      var f, b := fd[p], bk[p];
      last := f == b;
      if !last {
        bk := bk[f := b];
        fd := fd[b := f];
      }
      contents := Dropped(contents, k);
    }

    /** unlink_first_small_chunk. */
    method UnlinkFirst(p: int) returns (last: bool)
      requires Valid() && contents != [] && contents[0] == p
      modifies this
      ensures Valid() && contents == old(contents[1..]) && (last <==> contents == [])
    {
      ghost var ring := [home] + contents;
      assert LinkedAt(fd, bk, ring, 1) && ring[1] == p;
      if |contents| > 1 { Bypass(fd, bk, ring, 1); }
      assert Dropped(ring, 1) == [home] + contents[1..];
      var f := fd[p];
      last := home == f;
      if !last {
        fd := fd[home := f];
        bk := bk[f := home];
      }
      contents := contents[1..];
    }
  }
}
