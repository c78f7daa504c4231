/**
  The tree bins in memory: child and parent pointers and rings of equal-sized
  chunks, all changed in place, refine the tries.
 */
module AllocLinks {
  import opened Arith
  import opened AllocTree
  import opened AllocBins
  import opened AllocSearch

  /** The fields of tree chunks.  A null pointer is 0; the root's parent is the bin itself. */
  datatype Links = Links(size: map<int, nat>, lo: map<int, int>, hi: map<int, int>, parent: map<int, int>,
                         fd: map<int, int>, bk: map<int, int>)

  const BIN: int := -1

  /** All fields of x are there. */
  predicate Has(m: Links, x: int) {
    x > 0 && x in m.size && x in m.lo && x in m.hi && x in m.parent && x in m.fd && x in m.bk
  }

  function Addr(t: Tree): int {
    if t.Node? && |t.ring| > 0 then t.ring[0] else 0
  }

  function NextIn(ring: seq<int>, i: nat): int
    requires i < |ring|
  {
    if i + 1 < |ring| then ring[i+1] else ring[0]
  }

  function PrevIn(ring: seq<int>, i: nat): int
    requires i < |ring|
  {
    if i > 0 then ring[i-1] else ring[|ring|-1]
  }

  /** x is the i-th chunk of a ring: only the first one is a node of the tree. */
  ghost predicate RingAt(m: Links, ring: seq<int>, size: nat, i: nat)
    requires i < |ring|
  {
    var x := ring[i];
    && Has(m, x) && m.size[x] == size && m.fd[x] == NextIn(ring, i) && m.bk[x] == PrevIn(ring, i)
    && (i > 0 ==> m.parent[x] == 0 && m.lo[x] == 0 && m.hi[x] == 0)
  }

  ghost predicate RingOk(m: Links, ring: seq<int>, size: nat) {
    && |ring| > 0
    && (forall i {:trigger RingAt(m, ring, size, i)} :: 0 <= i < |ring| ==> RingAt(m, ring, size, i))
  }

  /** The memory holds tree t below parent par. */
  ghost predicate Rep(m: Links, t: Tree, par: int) {
    t.Node? ==>
      && RingOk(m, t.ring, t.size) && Has(m, t.ring[0])
      && m.parent[t.ring[0]] == par && m.lo[t.ring[0]] == Addr(t.lo) && m.hi[t.ring[0]] == Addr(t.hi)
      && Rep(m, t.lo, t.ring[0]) && Rep(m, t.hi, t.ring[0])
  }

  ghost function RingSet(ring: seq<int>): set<int> {
    set i | 0 <= i < |ring| :: ring[i]
  }

  /** The chunks of a tree. */
  ghost function Addrs(t: Tree): set<int> {
    if t.Empty? then {} else RingSet(t.ring) + Addrs(t.lo) + Addrs(t.hi)
  }

  ghost predicate DistinctRing(ring: seq<int>) {
    forall i, j :: 0 <= i < j < |ring| ==> ring[i] != ring[j]
  }

  /** No chunk occurs twice. */
  ghost predicate NoShare(t: Tree) {
    t.Node? ==>
      && DistinctRing(t.ring) && RingSet(t.ring) !! Addrs(t.lo) && RingSet(t.ring) !! Addrs(t.hi)
         && Addrs(t.lo) !! Addrs(t.hi)
      && NoShare(t.lo) && NoShare(t.hi)
  }

  /** The fields of x are the same. */
  predicate SameAt(m: Links, m': Links, x: int) {
    && (Has(m, x) ==> Has(m', x) && m'.size[x] == m.size[x] && m'.lo[x] == m.lo[x] && m'.hi[x] == m.hi[x]
                      && m'.parent[x] == m.parent[x] && m'.fd[x] == m.fd[x] && m'.bk[x] == m.bk[x])
  }

  ghost predicate SameOn(m: Links, m': Links, s: set<int>) {
    forall x {:trigger SameAt(m, m', x)} :: x in s ==> SameAt(m, m', x)
  }

  lemma RingFrame(m: Links, m': Links, ring: seq<int>, size: nat)
    requires RingOk(m, ring, size) && SameOn(m, m', RingSet(ring))
    ensures RingOk(m', ring, size)
  {
    forall i | 0 <= i < |ring| ensures RingAt(m', ring, size, i) {
      assert RingAt(m, ring, size, i);
      assert ring[i] in RingSet(ring);
      assert SameAt(m, m', ring[i]);
    }
  }

  lemma {:induction false} RepFrame(m: Links, m': Links, t: Tree, par: int)
    requires Rep(m, t, par) && SameOn(m, m', Addrs(t))
    ensures Rep(m', t, par)
  {
    if t.Node? {
      RingFrame(m, m', t.ring, t.size);
      assert RingAt(m, t.ring, t.size, 0);
      assert t.ring[0] in RingSet(t.ring);
      assert SameAt(m, m', t.ring[0]);
      RepFrame(m, m', t.lo, t.ring[0]);
      RepFrame(m, m', t.hi, t.ring[0]);
    }
  }

  // ---------------------------------------------------------------- changing a subtree

  /** t with the subtree at the end of a path replaced. */
  function Graft(t: Tree, path: seq<bool>, u: Tree): Tree {
    if path == [] || t.Empty? then u
    else if path[0] then t.(hi := Graft(t.hi, path[1..], u))
    else t.(lo := Graft(t.lo, path[1..], u))
  }

  /** The parent of the subtree at the end of a path. */
  function ParentAt(t: Tree, path: seq<bool>, par: int): int {
    if path == [] || t.Empty? then par else ParentAt(if path[0] then t.hi else t.lo, path[1..], Addr(t))
  }

  lemma {:induction false} SubRep(m: Links, t: Tree, par: int, path: seq<bool>)
    requires Rep(m, t, par) && NoShare(t)
    ensures Rep(m, Subtree(t, path), ParentAt(t, path, par)) && NoShare(Subtree(t, path))
            && Addrs(Subtree(t, path)) <= Addrs(t)
  {
    if path != [] && t.Node? {
      if path[0] { SubRep(m, t.hi, t.ring[0], path[1..]); } else { SubRep(m, t.lo, t.ring[0], path[1..]); }
    }
  }

  /** Changing only the chunks of a subtree, and keeping its root where it is, changes the tree at that place only. */
  lemma {:induction false} GraftRep(m: Links, m': Links, t: Tree, par: int, path: seq<bool>, u: Tree)
    requires Rep(m, t, par) && NoShare(t) && Subtree(t, path).Node? && u.Node?
    requires Addr(u) == Addr(Subtree(t, path)) && Rep(m', u, ParentAt(t, path, par))
    requires SameOn(m, m', Addrs(t) - Addrs(Subtree(t, path)))
    ensures Rep(m', Graft(t, path, u), par) && Addr(Graft(t, path, u)) == Addr(t)
  {
    if path != [] {
      var sub := Subtree(t, path);
      SubRep(m, t, par, path);
      var next, other := if path[0] then t.hi else t.lo, if path[0] then t.lo else t.hi;
      assert Subtree(next, path[1..]) == sub;
      SubRep(m, next, t.ring[0], path[1..]);
      assert RingAt(m, t.ring, t.size, 0);
      forall x | x in RingSet(t.ring) ensures SameAt(m, m', x) { assert x in Addrs(t) - Addrs(sub); }
      RingFrame(m, m', t.ring, t.size);
      assert t.ring[0] in RingSet(t.ring);
      assert SameAt(m, m', t.ring[0]);
      forall x | x in Addrs(other) ensures SameAt(m, m', x) { assert x in Addrs(t) - Addrs(sub); }
      RepFrame(m, m', other, t.ring[0]);
      forall x | x in Addrs(next) - Addrs(sub) ensures SameAt(m, m', x) { assert x in Addrs(t) - Addrs(sub); }
      GraftRep(m, m', next, t.ring[0], path[1..], u);
    }
  }

  lemma {:induction false} GraftShare(t: Tree, path: seq<bool>, u: Tree, more: set<int>)
    requires NoShare(t) && NoShare(u) && Addrs(u) <= Addrs(Subtree(t, path)) + more && more !! Addrs(t)
    ensures NoShare(Graft(t, path, u)) && Addrs(Graft(t, path, u)) <= Addrs(t) + more
  {
    if path != [] && t.Node? {
      if path[0] { GraftShare(t.hi, path[1..], u, more); } else { GraftShare(t.lo, path[1..], u, more); }
    }
  }

  // ---------------------------------------------------------------- insertion

  /** x joins the ring of h, right behind it. */
  function LinkRing(m: Links, h: int, x: int): Links
    requires h in m.fd
  {
    var f := m.fd[h];
    m.(fd := m.fd[h := x][x := f], bk := m.bk[f := x][x := h], parent := m.parent[x := 0], lo := m.lo[x := 0],
       hi := m.hi[x := 0])
  }

  lemma RingLinked(m: Links, ring: seq<int>, size: nat, x: int)
    requires RingOk(m, ring, size) && DistinctRing(ring) && x !in RingSet(ring) && x > 0 && x in m.size
             && m.size[x] == size
    ensures ring[0] in m.fd
    ensures var m', ring' := LinkRing(m, ring[0], x), [ring[0], x] + ring[1..];
            && RingOk(m', ring', size) && DistinctRing(ring') && RingSet(ring') == RingSet(ring) + {x}
            && (forall y :: y !in RingSet(ring) && y != x ==> SameAt(m, m', y))
            && Has(m', ring[0]) && m'.parent[ring[0]] == m.parent[ring[0]] && m'.lo[ring[0]] == m.lo[ring[0]]
               && m'.hi[ring[0]] == m.hi[ring[0]]
  {
    assert RingAt(m, ring, size, 0);
    var m', ring' := LinkRing(m, ring[0], x), [ring[0], x] + ring[1..];
    assert forall i :: 0 <= i < |ring| ==> ring[i] in RingSet(ring);
    assert m.fd[ring[0]] == NextIn(ring, 0);
    forall i | 0 <= i < |ring'| ensures RingAt(m', ring', size, i) {
      if i >= 2 { assert RingAt(m, ring, size, i - 1); assert ring'[i] == ring[i-1]; }
    }
    RingInserted(ring, x);
  }

  lemma RingInserted(ring: seq<int>, x: int)
    requires |ring| > 0 && DistinctRing(ring) && x !in RingSet(ring)
    ensures var ring' := [ring[0], x] + ring[1..]; DistinctRing(ring') && RingSet(ring') == RingSet(ring) + {x}
  {
    var ring' := [ring[0], x] + ring[1..];
    assert forall i :: 0 <= i < |ring| ==> ring[i] in RingSet(ring);
    forall i, j | 0 <= i < j < |ring'| ensures ring'[i] != ring'[j] {
      assert i >= 2 ==> ring'[i] == ring[i-1];
      assert j >= 2 ==> ring'[j] == ring[j-1];
    }
    forall y | y in RingSet(ring) ensures y in RingSet(ring') {
      var i :| 0 <= i < |ring| && ring[i] == y;
      assert ring'[if i == 0 then 0 else i + 1] == y;
    }
    assert ring'[1] == x;
    forall y | y in RingSet(ring') ensures y in RingSet(ring) + {x} {
      var i :| 0 <= i < |ring'| && ring'[i] == y;
      assert i >= 2 ==> ring[i-1] == y;
    }
  }

  /** x becomes a child of p. */
  function LinkLeaf(m: Links, p: int, up: bool, x: int): Links {
    var m1 := m.(fd := m.fd[x := x], bk := m.bk[x := x], parent := m.parent[x := p], lo := m.lo[x := 0],
                 hi := m.hi[x := 0]);
    if up then m1.(hi := m1.hi[p := x]) else m1.(lo := m1.lo[p := x])
  }

  lemma LeafRep(m: Links, x: int, s: nat, par: int)
    requires Has(m, x) && m.size[x] == s && m.fd[x] == x && m.bk[x] == x && m.parent[x] == par && m.lo[x] == 0
             && m.hi[x] == 0
    ensures Rep(m, Node(s, [x], Empty, Empty), par)
  {
    assert RingAt(m, [x], s, 0);
  }

  /** A ring keeps its links when only the tree pointers of its first chunk change. */
  lemma HeadFrame(m: Links, m': Links, ring: seq<int>, size: nat)
    requires RingOk(m, ring, size) && DistinctRing(ring) && Has(m, ring[0]) && Has(m', ring[0])
    requires m'.size[ring[0]] == m.size[ring[0]] && m'.fd[ring[0]] == m.fd[ring[0]] && m'.bk[ring[0]] == m.bk[ring[0]]
    requires SameOn(m, m', RingSet(ring) - {ring[0]})
    ensures RingOk(m', ring, size)
  {
    forall i | 0 <= i < |ring| ensures RingAt(m', ring, size, i) {
      assert RingAt(m, ring, size, i);
      assert ring[i] in RingSet(ring);
      assert i > 0 ==> SameAt(m, m', ring[i]);
    }
  }

  /** What the last step of the walk does to the node it ends at. */
  lemma InsertHere(m: Links, t: Tree, par: int, base: nat, h: nat, s: nat, x: int)
    requires t.Node? && Rep(m, t, par) && NoShare(t) && x !in Addrs(t) && x > 0 && x in m.size && m.size[x] == s
    requires t.size == s || (h > 0 && (if Upper(base, h, s) then t.hi.Empty? else t.lo.Empty?))
    ensures t.ring[0] in m.fd
    ensures var p := t.ring[0];
            var m' := if t.size == s then LinkRing(m, p, x) else LinkLeaf(m, p, Upper(base, h, s), x);
            var u := Insert(t, base, h, s, x);
            && Rep(m', u, par) && NoShare(u) && Addr(u) == p && u.Node? && Addrs(u) == Addrs(t) + {x}
            && (forall y :: y !in Addrs(t) && y != x ==> SameAt(m, m', y))
  {
    NodeFields(m, t, par);
    if t.size == s { JoinRing(m, t, par, x); } else { AddLeaf(m, t, par, Upper(base, h, s), s, x); }
    hide Rep;
    hide NoShare;
    hide SameAt;
  }

  lemma JoinRing(m: Links, t: Tree, par: int, x: int)
    requires t.Node? && Rep(m, t, par) && NoShare(t) && x !in Addrs(t) && x > 0 && x in m.size && m.size[x] == t.size
    ensures |t.ring| > 0 && t.ring[0] in m.fd
    ensures var m', u := LinkRing(m, t.ring[0], x), t.(ring := [t.ring[0], x] + t.ring[1..]);
            && Rep(m', u, par) && NoShare(u) && Addrs(u) == Addrs(t) + {x}
            && (forall y :: y !in Addrs(t) && y != x ==> SameAt(m, m', y))
  {
    var p := t.ring[0];
    NodeFields(m, t, par);
    var m' := LinkRing(m, p, x);
    RingLinked(m, t.ring, t.size, x);
    hide LinkRing;
    RepFrame(m, m', t.lo, p);
    RepFrame(m, m', t.hi, p);
  }

  lemma AddLeaf(m: Links, t: Tree, par: int, up: bool, s: nat, x: int)
    requires t.Node? && Rep(m, t, par) && NoShare(t) && x !in Addrs(t) && x > 0 && x in m.size && m.size[x] == s
    requires if up then t.hi.Empty? else t.lo.Empty?
    ensures |t.ring| > 0
    ensures var leaf := Node(s, [x], Empty, Empty);
            var m', u := LinkLeaf(m, t.ring[0], up, x), if up then t.(hi := leaf) else t.(lo := leaf);
            && Rep(m', u, par) && NoShare(u) && Addrs(u) == Addrs(t) + {x}
            && (forall y :: y !in Addrs(t) && y != x ==> SameAt(m, m', y))
  {
    var p := t.ring[0];
    NodeFields(m, t, par);
    assert p in RingSet(t.ring);
    var m' := LinkLeaf(m, p, up, x);
    forall y | y != p && y != x ensures SameAt(m, m', y) { }
    HeadFrame(m, m', t.ring, t.size);
    LeafRep(m', x, s, p);
    assert RingSet([x]) == {x} by { assert [x][0] == x; }
    RepFrame(m, m', if up then t.lo else t.hi, p);
  }

  /** The insertion happens at the end of the walk. */
  lemma {:induction false} InsertGrafts(t: Tree, base: nat, h: nat, s: nat, x: int, path: seq<bool>, base': nat,
                                        h': nat)
    requires Walked(t, base, h, s, path, base', h')
    ensures Insert(t, base, h, s, x) == Graft(t, path, Insert(Subtree(t, path), base', h', s, x))
  {
    if path != [] {
      var up := path[0];
      InsertGrafts(if up then t.hi else t.lo, if up then base + Pow2(h - 1) else base, h - 1, s, x, path[1..], base',
                   h');
    }
  }

  /** The walk for size s passes through path: other sizes on the way, and each time the half that s lies in. */
  ghost predicate Walked(t: Tree, base: nat, h: nat, s: nat, path: seq<bool>, base': nat, h': nat)
    decreases path
  {
    if path == [] then base' == base && h' == h
    else t.Node? && t.size != s && h > 0 && path[0] == Upper(base, h, s)
         && Walked(if path[0] then t.hi else t.lo, if path[0] then base + Pow2(h - 1) else base, h - 1, s, path[1..],
                   base', h')
  }

  lemma {:induction false} WalkedOn(t: Tree, base: nat, h: nat, s: nat, path: seq<bool>, base': nat, h': nat, up: bool)
    requires Walked(t, base, h, s, path, base', h') && Subtree(t, path).Node? && Subtree(t, path).size != s && h' > 0
    requires up == Upper(base', h', s)
    ensures Walked(t, base, h, s, path + [up], if up then base' + Pow2(h' - 1) else base', h' - 1)
    ensures Subtree(t, path + [up]) == if up then Subtree(t, path).hi else Subtree(t, path).lo
  {
    if path == [] {
      assert ([] + [up])[1..] == [];
    } else {
      assert (path + [up])[1..] == path[1..] + [up];
      WalkedOn(if path[0] then t.hi else t.lo, if path[0] then base + Pow2(h - 1) else base, h - 1, s, path[1..],
               base', h', up);
    }
  }

  // ---------------------------------------------------------------- removal

  /** x leaves its ring. */
  function UnlinkRing(m: Links, x: int): Links
    requires x in m.fd && x in m.bk
  {
    m.(bk := m.bk[m.fd[x] := m.bk[x]], fd := m.fd[m.bk[x] := m.fd[x]])
  }

  lemma RingUnlinked(m: Links, ring: seq<int>, size: nat, i: nat)
    requires RingOk(m, ring, size) && DistinctRing(ring) && |ring| > 1 && i < |ring|
    ensures Has(m, ring[i])
    ensures var m', ring' := UnlinkRing(m, ring[i]), RingWithout(ring, i);
            && RingOk(m', ring', size)
            && (forall y :: y !in RingSet(ring) ==> SameAt(m, m', y))
            && (forall y ::
                  Has(m, y) ==> Has(m', y) && m'.parent[y] == m.parent[y] && m'.lo[y] == m.lo[y] && m'.hi[y] == m.hi[y])
  {
    var n := |ring|;
    assert RingAt(m, ring, size, i);
    assert RingAt(m, ring, size, if i + 1 < n then i + 1 else 0);
    assert RingAt(m, ring, size, if i > 0 then i - 1 else n - 1);
    var m', ring' := UnlinkRing(m, ring[i]), RingWithout(ring, i);
    assert forall j :: 0 <= j < n ==> ring[j] in RingSet(ring);
    forall k | 0 <= k < |ring'| ensures RingAt(m', ring', size, k) {
      if i == 0 { HeadUnlinked(m, ring, size, k); } else { MemberUnlinked(m, ring, size, i, k); }
    }
  }

  lemma HeadUnlinked(m: Links, ring: seq<int>, size: nat, k: nat)
    requires RingOk(m, ring, size) && DistinctRing(ring) && |ring| > 1 && k + 1 < |ring| && Has(m, ring[0])
    ensures RingAt(UnlinkRing(m, ring[0]), RingWithout(ring, 0), size, k)
  {
    var n, ring' := |ring|, RingWithout(ring, 0);
    assert RingAt(m, ring, size, 0);
    var j := if k == 0 then n - 1 else k;
    assert RingAt(m, ring, size, j);
    assert forall l :: 1 <= l < n - 1 ==> ring'[l] == ring[l];
    assert ring'[0] == ring[n-1] && |ring'| == n - 1;
  }

  lemma MemberUnlinked(m: Links, ring: seq<int>, size: nat, i: nat, k: nat)
    requires RingOk(m, ring, size) && DistinctRing(ring) && 0 < i < |ring| && k + 1 < |ring| && Has(m, ring[i])
    ensures RingAt(UnlinkRing(m, ring[i]), RingWithout(ring, i), size, k)
  {
    var n, ring' := |ring|, RingWithout(ring, i);
    assert RingAt(m, ring, size, i);
    var j := if k < i then k else k + 1;
    assert RingAt(m, ring, size, j);
    assert forall l :: 0 <= l < i ==> ring'[l] == ring[l];
    assert forall l :: i <= l < n - 1 ==> ring'[l] == ring[l + 1];
    assert |ring'| == n - 1;
  }

  lemma RingRemoved(ring: seq<int>, i: nat)
    requires DistinctRing(ring) && i < |ring|
    ensures DistinctRing(RingWithout(ring, i)) && RingSet(RingWithout(ring, i)) == RingSet(ring) - {ring[i]}
  {
    var n, ring' := |ring|, RingWithout(ring, i);
    forall k | 0 <= k < |ring'| ensures ring'[k] in RingSet(ring) - {ring[i]} {
      var j := if i == 0 && n > 1 then (if k == 0 then n - 1 else k) else if k < i then k else k + 1;
      assert ring'[k] == ring[j];
    }
    forall y | y in RingSet(ring) - {ring[i]} ensures y in RingSet(ring') {
      var j :| 0 <= j < n && ring[j] == y;
      var k := if i == 0 && n > 1 then (if j == n - 1 then 0 else j) else if j < i then j else j - 1;
      assert ring'[k] == y;
    }
    forall k, l | 0 <= k < l < |ring'| ensures ring'[k] != ring'[l] {
      var j := if i == 0 && n > 1 then (if k == 0 then n - 1 else k) else if k < i then k else k + 1;
      var p := if i == 0 && n > 1 then (if l == 0 then n - 1 else l) else if l < i then l else l + 1;
      assert ring'[k] == ring[j] && ring'[l] == ring[p] && j != p;
    }
  }

  /** A subtree gets a new parent. */
  lemma Reparented(m: Links, m': Links, t: Tree, par: int, par': int)
    requires Rep(m, t, par) && NoShare(t) && SameOn(m, m', Addrs(t) - {Addr(t)})
    requires t.Node?
             ==> Has(m, Addr(t)) && Has(m', Addr(t)) && m'.parent[Addr(t)] == par'
                 && m'.size[Addr(t)] == m.size[Addr(t)]
                         && m'.lo[Addr(t)] == m.lo[Addr(t)] && m'.hi[Addr(t)] == m.hi[Addr(t)]
                         && m'.fd[Addr(t)] == m.fd[Addr(t)] && m'.bk[Addr(t)] == m.bk[Addr(t)]
    ensures Rep(m', t, par')
  {
    if t.Node? {
      assert t.ring[0] in RingSet(t.ring);
      HeadFrame(m, m', t.ring, t.size);
      RepFrame(m, m', t.lo, t.ring[0]);
      RepFrame(m, m', t.hi, t.ring[0]);
    }
  }

  /** r takes over the place of x in the tree: its parent and its children. */
  function Promote(m: Links, x: int, r: int, par: int): Links
    requires Has(m, x)
  {
    var m1 := m.(parent := m.parent[r := par]);
    var m2 := if m.lo[x] != 0 then m1.(lo := m1.lo[r := m.lo[x]], parent := m1.parent[m.lo[x] := r]) else m1;
    if m.hi[x] != 0 then m2.(hi := m2.hi[r := m.hi[x]], parent := m2.parent[m.hi[x] := r]) else m2
  }

  /** r with its ring gets the subtrees a and b of x. */
  ghost predicate PromotePre(m: Links, x: int, a: Tree, b: Tree, size: nat, ring: seq<int>) {
    && RingOk(m, ring, size) && DistinctRing(ring) && Has(m, x) && Has(m, ring[0]) && m.lo[ring[0]] == 0
       && m.hi[ring[0]] == 0
    && Rep(m, a, x) && Rep(m, b, x) && NoShare(a) && NoShare(b) && m.lo[x] == Addr(a) && m.hi[x] == Addr(b)
    && RingSet(ring) !! Addrs(a) && RingSet(ring) !! Addrs(b) && Addrs(a) !! Addrs(b)
    && x !in RingSet(ring) && x !in Addrs(a) && x !in Addrs(b)
  }

  lemma RootIn(m: Links, t: Tree, par: int)
    requires Rep(m, t, par)
    ensures t.Node? ==> Addr(t) > 0 && Addr(t) in Addrs(t) && Has(m, Addr(t))
    ensures t.Empty? ==> Addr(t) == 0
  {
    if t.Node? {
      assert RingAt(m, t.ring, t.size, 0);
      assert t.ring[0] in RingSet(t.ring);
    }
  }

  lemma Promoted(m: Links, x: int, a: Tree, b: Tree, size: nat, ring: seq<int>, par: int)
    requires PromotePre(m, x, a, b, size, ring)
    ensures var m' := Promote(m, x, ring[0], par);
            && Rep(m', Node(size, ring, a, b), par)
            && (forall y :: y != ring[0] && y != Addr(a) && y != Addr(b) ==> SameAt(m, m', y))
  {
    var r := ring[0];
    var m' := Promote(m, x, r, par);
    RootIn(m, a, x);
    RootIn(m, b, x);
    assert r in RingSet(ring);
    forall y | y != r && y != Addr(a) && y != Addr(b) ensures SameAt(m, m', y) { }
    HeadFrame(m, m', ring, size);
    Reparented(m, m', a, x, r);
    Reparented(m, m', b, x, r);
  }

  // ---------------------------------------------------------------- the far leaf

  predicate IsLeaf(t: Tree) {
    t.Node? && t.lo.Empty? && t.hi.Empty?
  }

  /** The far leaf is cut off below the node above it. */
  function CutFar(m: Links, t: Tree): Links
    requires t.Node? && !IsLeaf(t)
  {
    if t.hi.Node? then (if IsLeaf(t.hi) then m.(hi := m.hi[Addr(t) := 0]) else CutFar(m, t.hi))
    else if IsLeaf(t.lo) then m.(lo := m.lo[Addr(t) := 0]) else CutFar(m, t.lo)
  }

  /** The node above the far leaf. */
  function AboveFar(t: Tree): int
    requires t.Node? && !IsLeaf(t)
  {
    if t.hi.Node? then (if IsLeaf(t.hi) then Addr(t) else AboveFar(t.hi))
    else if IsLeaf(t.lo) then Addr(t) else AboveFar(t.lo)
  }

  lemma {:induction false} CutRep(m: Links, t: Tree, par: int)
    requires Rep(m, t, par) && NoShare(t) && t.Node? && !IsLeaf(t)
    ensures var m', q := CutFar(m, t), AboveFar(t);
            && Rep(m', WithoutFarLeaf(t), par) && Addr(WithoutFarLeaf(t)) == Addr(t)
            && Has(m, q) && q in Addrs(t) && (forall y :: y != q ==> SameAt(m, m', y)) && Has(m', q)
            && m'.size[q] == m.size[q] && m'.parent[q] == m.parent[q] && m'.fd[q] == m.fd[q] && m'.bk[q] == m.bk[q]
  {
    NodeFields(m, t, par);
    var p := t.ring[0];
    assert p in RingSet(t.ring);
    var next, other := if t.hi.Node? then t.hi else t.lo, if t.hi.Node? then t.lo else t.hi;
    var m' := CutFar(m, t);
    if IsLeaf(next) {
      forall y | y != p ensures SameAt(m, m', y) { }
      HeadFrame(m, m', t.ring, t.size);
      RepFrame(m, m', other, p);
    } else {
      CutRep(m, next, p);
      RootIn(m, next, p);
      RingFrame(m, m', t.ring, t.size);
      RepFrame(m, m', other, p);
      assert SameAt(m, m', p);
    }
  }

  /** The far leaf itself: a ring without children, apart from the rest. */
  lemma {:induction false} FarLeafIs(m: Links, t: Tree, par: int)
    requires Rep(m, t, par) && NoShare(t) && t.Node?
    ensures var ring := FarLeaf(t).1;
            && RingOk(m, ring, FarLeaf(t).0) && DistinctRing(ring) && Has(m, ring[0]) && m.lo[ring[0]] == 0
               && m.hi[ring[0]] == 0
            && RingSet(ring) !! Addrs(WithoutFarLeaf(t)) && RingSet(ring) <= Addrs(t)
               && Addrs(WithoutFarLeaf(t)) <= Addrs(t)
            && NoShare(WithoutFarLeaf(t)) && (!IsLeaf(t) ==> AboveFar(t) !in RingSet(ring))
            && Addrs(t) == RingSet(ring) + Addrs(WithoutFarLeaf(t))
  {
    NodeFields(m, t, par);
    assert t.ring[0] in RingSet(t.ring);
    if t.hi.Node? {
      FarLeafIs(m, t.hi, t.ring[0]);
      if !IsLeaf(t.hi) { CutRep(m, t.hi, t.ring[0]); }
    } else if t.lo.Node? {
      FarLeafIs(m, t.lo, t.ring[0]);
      if !IsLeaf(t.lo) { CutRep(m, t.lo, t.ring[0]); }
    }
  }

  // ---------------------------------------------------------------- removal from the whole tree

  lemma {:induction false} UnlinkGrafts(t: Tree, path: seq<bool>, i: nat)
    requires Subtree(t, path).Node? && i < |Subtree(t, path).ring|
    ensures Unlink(t, path, i) == Graft(t, path, Unlinked(Subtree(t, path), i))
  {
    hide Unlinked;
    if path != [] { UnlinkGrafts(if path[0] then t.hi else t.lo, path[1..], i); }
  }

  lemma {:induction false} GraftMinus(t: Tree, path: seq<bool>, u: Tree, x: int)
    requires NoShare(t) && NoShare(u) && Subtree(t, path).Node? && Addrs(u) == Addrs(Subtree(t, path)) - {x}
             && x in Addrs(Subtree(t, path))
    ensures NoShare(Graft(t, path, u)) && Addrs(Graft(t, path, u)) == Addrs(t) - {x} && x in Addrs(t)
  {
    if path != [] { GraftMinus(if path[0] then t.hi else t.lo, path[1..], u, x); }
  }

  /** What becomes of a subtree, as a set of chunks. */
  lemma UnlinkedShare(m: Links, t: Tree, par: int, i: nat)
    requires t.Node? && Rep(m, t, par) && NoShare(t) && i < |t.ring|
    ensures NoShare(Unlinked(t, i)) && Addrs(Unlinked(t, i)) == Addrs(t) - {t.ring[i]} && t.ring[i] in Addrs(t)
  {
    RingRemoved(t.ring, i);
    assert t.ring[i] in RingSet(t.ring);
    if |t.ring| == 1 {
      assert RingSet(t.ring) == {t.ring[0]};
      if t.hi.Node? { FarLeafIs(m, t.hi, t.ring[0]); } else if t.lo.Node? { FarLeafIs(m, t.lo, t.ring[0]); }
    }
  }

  /** A chunk that is not a node leaves its ring. */
  lemma MemberRep(m: Links, t: Tree, par: int, i: nat)
    requires t.Node? && Rep(m, t, par) && NoShare(t) && 0 < i < |t.ring|
    ensures Has(m, t.ring[i])
    ensures var m' := UnlinkRing(m, t.ring[i]);
            Rep(m', Unlinked(t, i), par) && Addr(Unlinked(t, i)) == Addr(t) && Unlinked(t, i).Node?
            && forall y :: y !in Addrs(t) ==> SameAt(m, m', y)
  {
    NodeFields(m, t, par);
    RingUnlinked(m, t.ring, t.size, i);
    var m' := UnlinkRing(m, t.ring[i]);
    hide UnlinkRing;
    RepFrame(m, m', t.lo, t.ring[0]);
    RepFrame(m, m', t.hi, t.ring[0]);
  }

  /** The links after the first part of unlink_large_chunk, which finds the replacement of a node. */
  function Detached(m: Links, t: Tree): Links
    requires t.Node? && |t.ring| > 0 && t.ring[0] in m.fd && t.ring[0] in m.bk
  {
    if |t.ring| > 1 then UnlinkRing(m, t.ring[0]) else if IsLeaf(t) then m else CutFar(m, t)
  }

  lemma DetachedReady(m: Links, t: Tree, par: int)
    requires t.Node? && Rep(m, t, par) && NoShare(t)
    ensures |t.ring| > 0 && Has(m, t.ring[0])
    ensures var m', u := Detached(m, t), Unlinked(t, 0);
            && (forall y :: y !in Addrs(t) ==> SameAt(m, m', y))
            && (u.Node? ==> PromotePre(m', t.ring[0], u.lo, u.hi, u.size, u.ring))
            && (u.Empty? <==> |t.ring| == 1 && IsLeaf(t)) && (u.Empty? ==> m' == m)
  {
    NodeFields(m, t, par);
    var x := t.ring[0];
    assert x in RingSet(t.ring);
    if |t.ring| > 1 {
      RingUnlinked(m, t.ring, t.size, 0);
      RingRemoved(t.ring, 0);
      assert RingAt(m, t.ring, t.size, |t.ring| - 1);
      var m' := Detached(m, t);
      hide UnlinkRing;
      RepFrame(m, m', t.lo, x);
      RepFrame(m, m', t.hi, x);
    } else if !IsLeaf(t) {
      CutReady(m, t, par);
    }
  }

  lemma CutReady(m: Links, t: Tree, par: int)
    requires t.Node? && Rep(m, t, par) && NoShare(t) && |t.ring| == 1 && !IsLeaf(t)
    ensures var m', u := CutFar(m, t), Unlinked(t, 0);
            && u.Node? && (forall y :: y !in Addrs(t) ==> SameAt(m, m', y))
            && PromotePre(m', t.ring[0], u.lo, u.hi, u.size, u.ring)
  {
    NodeFields(m, t, par);
    var x := t.ring[0];
    assert RingSet(t.ring) == {x};
    CutRep(m, t, par);
    FarLeafIs(m, t, par);
    var m', u := CutFar(m, t), Unlinked(t, 0);
    var next := if t.hi.Node? then t.hi else t.lo;
    FarLeafIs(m, next, x);
    assert WithoutFarLeaf(t) == Node(t.size, t.ring, u.lo, u.hi) && u.ring == FarLeaf(t).1 && u.size == FarLeaf(t).0;
    hide CutFar;
    forall y | y in RingSet(u.ring) ensures SameAt(m, m', y) { }
    RingFrame(m, m', u.ring, u.size);
    assert u.ring[0] in RingSet(u.ring);
    assert SameAt(m, m', u.ring[0]);
  }

  /** The last step of a path. */
  lemma {:induction false} LastStep(t: Tree, path: seq<bool>, par: int, u: Tree)
    requires path != [] && Subtree(t, path).Node?
    ensures var pp, up := path[..|path|-1], path[|path|-1];
            var p := Subtree(t, pp);
            && p.Node? && Subtree(t, path) == (if up then p.hi else p.lo) && ParentAt(t, path, par) == Addr(p)
            && Graft(t, path, u) == Graft(t, pp, if up then p.(hi := u) else p.(lo := u))
  {
    if |path| == 1 {
      assert path[..0] == [] && path[1..] == [];
    } else {
      var next := if path[0] then t.hi else t.lo;
      LastStep(next, path[1..], Addr(t), u);
      assert path[1..][..|path|-2] == path[..|path|-1][1..];
    }
  }

  /** The parent's pointer to a node is redirected. */
  function Redirect(m: Links, p: int, x: int, r: int): Links {
    if p in m.lo && m.lo[p] == x then m.(lo := m.lo[p := r]) else m.(hi := m.hi[p := r])
  }

  /** The second part: the replacement takes the node's place. */
  function Replaced(m: Links, x: int, r: int, par: int): Links
    requires Has(m, x)
  {
    if r == 0 then m else Promote(m, x, r, par)
  }

  /** A root is replaced. */
  lemma RootReplaced(m: Links, t: Tree)
    requires t.Node? && Rep(m, t, BIN) && NoShare(t)
    ensures |t.ring| > 0 && Has(m, t.ring[0]) && Has(Detached(m, t), t.ring[0])
    ensures var u := Unlinked(t, 0);
            var m' := Replaced(Detached(m, t), t.ring[0], Addr(u), BIN);
            Rep(m', u, BIN) && forall y :: y !in Addrs(t) ==> SameAt(m, m', y)
  {
    hide PromotePre;
    var u := Unlinked(t, 0);
    DetachedReady(m, t, BIN);
    UnlinkedShare(m, t, BIN, 0);
    hide Detached;
    hide Unlinked;
    PromoteNow(Detached(m, t), t.ring[0], u, BIN);
  }

  /** The promotion, if there is anything to promote. */
  lemma PromoteNow(m: Links, x: int, u: Tree, par: int)
    requires Has(m, x) || u.Node?
    requires u.Node? ==> PromotePre(m, x, u.lo, u.hi, u.size, u.ring)
    ensures Has(m, x)
    ensures var m' := Replaced(m, x, Addr(u), par);
            Rep(m', u, par) && forall y :: y !in Addrs(u) ==> SameAt(m, m', y)
  {
    if u.Node? {
      Promoted(m, x, u.lo, u.hi, u.size, u.ring, par);
      RootIn(m, u.lo, x);
      RootIn(m, u.hi, x);
      assert u.ring[0] in RingSet(u.ring);
      assert RingAt(m, u.ring, u.size, 0);
      hide Promote;
      hide Rep;
    }
  }

  /** A child of p is replaced. */
  lemma ChildReplaced(m: Links, p: Tree, par: int, up: bool)
    requires p.Node? && Rep(m, p, par) && NoShare(p) && (if up then p.hi.Node? else p.lo.Node?)
    ensures var t := if up then p.hi else p.lo;
            && |p.ring| > 0 && |t.ring| > 0 && Has(m, t.ring[0])
            && var u := Unlinked(t, 0);
               var m1 := Redirect(Detached(m, t), p.ring[0], t.ring[0], Addr(u));
               && Has(m1, t.ring[0])
               && var m', p' := Replaced(m1, t.ring[0], Addr(u), p.ring[0]), if up then p.(hi := u) else p.(lo := u);
                  Rep(m', p', par) && forall y :: y !in Addrs(p) ==> SameAt(m, m', y)
  {
    var t := if up then p.hi else p.lo;
    var q := p.ring[0];
    NodeFields(m, p, par);
    NodeFields(m, t, q);
    assert q in RingSet(p.ring) && t.ring[0] in RingSet(t.ring);
    DetachedReady(m, t, q);
    UnlinkedShare(m, t, q, 0);
    var x, u := t.ring[0], Unlinked(t, 0);
    var m0 := Detached(m, t);
    hide Unlinked;
    hide Detached;
    assert SameAt(m, m0, q);
    var m1 := Redirect(m0, q, x, Addr(u));
    SiblingsDiffer(m, p, par);
    forall y | y != q ensures SameAt(m0, m1, y) { }
    if u.Node? { PromoteFrame(m0, m1, x, u, q); }
    hide PromotePre;
    PromoteNow(m1, x, u, q);
    var m' := Replaced(m1, x, Addr(u), q);
    hide Replaced;
    ParentKept(m, m0, m1, m', p, par, up, u);
  }

  lemma SiblingsDiffer(m: Links, p: Tree, par: int)
    requires p.Node? && Rep(m, p, par) && NoShare(p)
    ensures p.lo.Node? && p.hi.Node? ==> Addr(p.lo) != Addr(p.hi)
    ensures Addr(p.lo) == Addr(p.hi) ==> p.lo.Empty? && p.hi.Empty?
  {
    RootIn(m, p.lo, Addr(p));
    RootIn(m, p.hi, Addr(p));
  }

  lemma PromoteFrame(m: Links, m': Links, x: int, u: Tree, q: int)
    requires u.Node? && PromotePre(m, x, u.lo, u.hi, u.size, u.ring) && q != x && q !in Addrs(u)
             && forall y :: y != q ==> SameAt(m, m', y)
    ensures PromotePre(m', x, u.lo, u.hi, u.size, u.ring)
  {
    assert u.ring[0] in RingSet(u.ring);
    RingFrame(m, m', u.ring, u.size);
    RepFrame(m, m', u.lo, x);
    RepFrame(m, m', u.hi, x);
    assert SameAt(m, m', x) && SameAt(m, m', u.ring[0]);
  }

  /** The parent and its other subtree, before and after. */
  lemma ParentKept(m: Links, m0: Links, m1: Links, m': Links, p: Tree, par: int, up: bool, u: Tree)
    requires p.Node? && Rep(m, p, par) && NoShare(p)
    requires var t := if up then p.hi else p.lo;
             && t.Node? && Addrs(u) <= Addrs(t) && Rep(m', u, p.ring[0])
             && (forall y :: y !in Addrs(t) ==> SameAt(m, m0, y)) && m1 == Redirect(m0, p.ring[0], Addr(t), Addr(u))
             && (forall y :: y !in Addrs(u) ==> SameAt(m1, m', y))
    ensures Rep(m', if up then p.(hi := u) else p.(lo := u), par) && forall y :: y !in Addrs(p) ==> SameAt(m, m', y)
  {
    var t, other := if up then p.hi else p.lo, if up then p.lo else p.hi;
    var q := p.ring[0];
    NodeFields(m, p, par);
    SiblingsDiffer(m, p, par);
    assert q in RingSet(p.ring);
    assert SameAt(m, m0, q) && SameAt(m1, m', q);
    forall y | y != q && y !in Addrs(t)
      ensures SameAt(m, m', y)
    {
      assert SameAt(m, m0, y) && SameAt(m1, m', y) && SameAt(m0, m1, y);
    }
    HeadFrame(m, m', p.ring, p.size);
    RepFrame(m, m', other, q);
  }

  // ---------------------------------------------------------------- one bin

  class TreeBin {
    const index: nat
    var links: Links
    var root: int
    ghost var tree: Tree

    ghost predicate Valid()
      reads this
    {
      && index < NTREEBINS && BinOk(index, tree) && Rep(links, tree, BIN) && NoShare(tree)
      && root == Addr(tree)
    }

    /** An empty bin. */
    constructor (index: nat)
      requires index < NTREEBINS
      ensures Valid() && tree == Empty && this.index == index
    {
      this.index := index;
      links := Links(map[], map[], map[], map[], map[], map[]);
      root, tree := 0, Empty;
    }

    /** The walk of insert_large_chunk along the bits of the size, and the links at its end. */
    method LinkInTree(x: int, s: nat)
      requires Valid() && tree.Node? && SizeInBin(index, s) && x > 0 && x !in Addrs(tree) && x in links.size
               && links.size[x] == s
      modifies this`links
      ensures WholeInsertOk(old(links), links, tree, Insert(tree, BinBase(index), BinHeight(index), s, x), x)
    {
      hide TreeIndex;
      hide Rep;
      hide NoShare;
      hide BinMin;
      hide Trie;
      hide At;
      hide Pow2;
      hide Insert;
      hide WholeInsertOk;
      ghost var base, h := BinBase(index), BinHeight(index);
      ghost var path: seq<bool>, base': nat, h': nat := [], base, h;
      var t, k: nat := root, (s * Pow2(SIZE_T_BITS - BinHeight(index))) % WORD;
      StartWalk(index, tree, s, k);
      while true
        invariant At(tree, base, h, s, path, base', h', t, k) && links == old(links)
        decreases h'
      {
        AtFields(links, tree, base, h, s, path, base', h', t, k);
        if links.size[t] != s {
          var up := k / TOP_BIT == 1;
          var c := if up then links.hi[t] else links.lo[t];
          k := (2 * k) % WORD;
          if c == 0 {
            WholeInsert(links, tree, base, h, s, x, path, base', h');
            links := LinkLeaf(links, t, up, x);
            return;
          }
          path := path + [up];
          base', h' := if up then base' + Pow2(h' - 1) else base', h' - 1;
          t := c;
        } else {
          WholeInsert(links, tree, base, h, s, x, path, base', h');
          links := LinkRing(links, t, x);
          return;
        }
      }
    }

    /** insert_large_chunk of a chunk x of size s, which its head says; `marked` is the bin's bit. */
    method InsertLarge(x: int, s: nat, marked: bool)
      requires Valid() && SizeInBin(index, s) && x > 0 && x !in Addrs(tree) && marked == tree.Node?
      modifies this`links, this`root, this`tree
      ensures Valid() && tree == Insert(old(tree), BinBase(index), BinHeight(index), s, x)
      ensures Addrs(tree) == old(Addrs(tree)) + {x}
      ensures forall y :: y !in Addrs(tree) ==> SameAt(old(links), links, y)
    {
      hide BinOk;
      hide Trie;
      hide TreeIndex;
      hide BinMin;
      hide Pow2;
      ghost var base, h := BinBase(index), BinHeight(index);
      InsertKeepsBin(index, tree, s, x);
      ghost var m := links;
      links := links.(size := links.size[x := s]);
      RepFrame(m, links, tree, BIN);
      ghost var m1 := links;
      if !marked {
        links := links.(lo := links.lo[x := 0], hi := links.hi[x := 0]);
        root := x;
        links := links.(parent := links.parent[x := BIN]);
        links := links.(fd := links.fd[x := x], bk := links.bk[x := x]);
        LeafRep(links, x, s, BIN);
        assert RingSet([x]) == {x} by { assert [x][0] == x; }
      } else {
        LinkInTree(x, s);
      }
      tree := Insert(tree, base, h, s, x);
      assert tree.Node?;
      forall y | y !in Addrs(tree) ensures SameAt(m, links, y) {
        assert SameAt(m, m1, y) && SameAt(m1, links, y);
      }
    }

    /** The descent to the far leaf, preferring the upper child, which is then cut off. */
    method CutFarLeaf(x: int, ghost sub: Tree, ghost par: int) returns (r: int)
      requires sub.Node? && Rep(links, sub, par) && NoShare(sub) && |sub.ring| == 1 && x == sub.ring[0]
      modifies this`links
      ensures r == Addr(Unlinked(sub, 0)) && links == (if IsLeaf(sub) then old(links) else CutFar(old(links), sub))
    {
      NodeFields(links, sub, par);
      var rp, up := x, true;
      r := links.hi[x];
      if r == 0 {
        r := links.lo[x];
        up := false;
      }
      if r != 0 {
        ghost var cur, par' := sub, par;
        ghost var next := if up then sub.hi else sub.lo;
        NodeFields(links, next, x);
        while links.hi[r] != 0 || links.lo[r] != 0
          invariant cur.Node? && Rep(links, cur, par') && NoShare(cur) && !IsLeaf(cur) && links == old(links)
          invariant FarLeaf(cur) == FarLeaf(sub) && CutFar(links, cur) == CutFar(links, sub)
          invariant rp == Addr(cur) && up == cur.hi.Node? && next == (if up then cur.hi else cur.lo) && r == Addr(next)
          invariant next.Node? && Rep(links, next, rp) && Has(links, r) && links.lo[r] == Addr(next.lo)
                    && links.hi[r] == Addr(next.hi)
          decreases next
        {
          NodeFields(links, next, rp);
          cur, par' := next, rp;
          rp := r;
          up := links.hi[r] != 0;
          r := if up then links.hi[r] else links.lo[r];
          next := if up then cur.hi else cur.lo;
          NodeFields(links, next, rp);
        }
        NodeFields(links, next, rp);
        links := if up then links.(hi := links.hi[rp := 0]) else links.(lo := links.lo[rp := 0]);
        FarLeafIs(old(links), sub, par);
      }
    }

    /** The first part of unlink_large_chunk: out of the ring, or the far leaf as a replacement. */
    method Detach(x: int, ghost sub: Tree, ghost par: int, ghost i: nat) returns (r: int)
      requires sub.Node? && Rep(links, sub, par) && NoShare(sub) && i < |sub.ring| && x == sub.ring[i]
      modifies this`links
      ensures i > 0 ==> Has(old(links), x) && links == UnlinkRing(old(links), x)
      ensures i == 0 ==> Has(old(links), x) && links == Detached(old(links), sub) && r == Addr(Unlinked(sub, 0))
    {
      assert RingAt(links, sub.ring, sub.size, i);
      if links.bk[x] != x {
        assert |sub.ring| > 1;
        var f := links.fd[x];
        r := links.bk[x];
        links := links.(bk := links.bk[f := r]);
        links := links.(fd := links.fd[r := f]);
        assert links == UnlinkRing(old(links), x);
      } else {
        assert |sub.ring| == 1;
        r := CutFarLeaf(x, sub, par);
      }
    }

    /** The replacement takes over parent and children. */
    method TakePlace(x: int, r: int, xp: int)
      requires Movable(links, x, r) && r != 0
      modifies this`links
      ensures links == Promote(old(links), x, r, xp)
    {
      links := links.(parent := links.parent[r := xp]);
      var c0 := links.lo[x];
      if c0 != 0 {
        links := links.(lo := links.lo[r := c0]);
        links := links.(parent := links.parent[c0 := r]);
      }
      var c1 := links.hi[x];
      if c1 != 0 {
        links := links.(hi := links.hi[r := c1]);
        links := links.(parent := links.parent[c1 := r]);
      }
    }

    /** unlink_large_chunk of the chunk x, which is the i-th of the ring at the end of a path; the bin's bit
        is to be cleared when the root is gone. */
    method UnlinkLarge(x: int, ghost path: seq<bool>, ghost i: nat) returns (clear: bool)
      requires Valid() && Subtree(tree, path).Node? && i < |Subtree(tree, path).ring|
               && x == Subtree(tree, path).ring[i]
      modifies this`links, this`root, this`tree
      ensures clear <==> tree.Empty?
      ensures Valid() && tree == Unlink(old(tree), path, i) && Addrs(tree) == old(Addrs(tree)) - {x}
      ensures forall y :: y !in old(Addrs(tree)) ==> SameAt(old(links), links, y)
    {
      hide BinOk;
      hide UnlinkDone;
      hide Unlink;
      hide Unlinked;
      hide Detached;
      hide UnlinkRing;
      hide Promote;
      ghost var m, t := links, tree;
      ghost var sub, par := Subtree(t, path), ParentAt(t, path, BIN);
      UnlinkFacts(m, t, path, i);
      UnlinkKeepsBin(index, t, path, i);
      if i > 0 { MemberDone(m, t, path, i); } else if path == [] { RootDone(m, t); } else { ChildDone(m, t, path); }
      hide Rep;
      hide NoShare;
      hide Subtree;
      clear := false;
      var xp := links.parent[x];
      var r := Detach(x, sub, par, i);
      if xp != 0 {
        if x == root {
          root := r;
          if r == 0 { clear := true; }
        } else if links.lo[xp] == x {
          links := links.(lo := links.lo[xp := r]);
        } else {
          links := links.(hi := links.hi[xp := r]);
        }
        if r != 0 { TakePlace(x, r, xp); }
      }
      tree := Unlink(t, path, i);
      assert UnlinkDone(m, links, t, tree, x);
      Conclude(m, links, t, tree, x);
    }
  }

  lemma Conclude(m: Links, m': Links, t: Tree, t': Tree, x: int)
    requires UnlinkDone(m, m', t, t', x)
    ensures Rep(m', t', BIN) && NoShare(t') && Addrs(t') == Addrs(t) - {x}
    ensures forall y :: y !in Addrs(t) ==> SameAt(m, m', y)
  {
  }

  /** Tree t without chunk x is in memory, and chunks outside of t are not touched. */
  ghost predicate UnlinkDone(m: Links, m': Links, t: Tree, t': Tree, x: int) {
    && Rep(m', t', BIN) && NoShare(t') && Addrs(t') == Addrs(t) - {x}
    && forall y {:trigger SameAt(m, m', y)} :: y !in Addrs(t) ==> SameAt(m, m', y)
  }

  /** r can take the place of x. */
  predicate Movable(m: Links, x: int, r: int) {
    Has(m, x) && r != x && (r != 0 ==> m.lo[x] != r && m.hi[x] != r) && m.lo[x] != x
  }

  lemma CanMove(m: Links, x: int, u: Tree)
    requires u.Node? && PromotePre(m, x, u.lo, u.hi, u.size, u.ring)
    ensures Movable(m, x, Addr(u))
  {
    RootIn(m, u.lo, x);
    RootIn(m, u.hi, x);
    assert u.ring[0] in RingSet(u.ring);
    assert RingAt(m, u.ring, u.size, 0);
  }

  lemma UnlinkFacts(m: Links, t: Tree, path: seq<bool>, i: nat)
    requires Rep(m, t, BIN) && NoShare(t) && Subtree(t, path).Node? && i < |Subtree(t, path).ring|
    ensures var sub := Subtree(t, path);
            var x := sub.ring[i];
            && Has(m, x) && Rep(m, sub, ParentAt(t, path, BIN)) && NoShare(sub)
            && m.parent[x] == (if i > 0 then 0 else ParentAt(t, path, BIN))
            && (path == [] ==> ParentAt(t, path, BIN) == BIN)
    ensures path != [] ==> ParentAt(t, path, BIN) > 0 && Subtree(t, path).ring[i] != Addr(t)
  {
    SubRep(m, t, BIN, path);
    var sub := Subtree(t, path);
    NodeFields(m, sub, ParentAt(t, path, BIN));
    assert RingAt(m, sub.ring, sub.size, i);
    if path != [] {
      LastStep(t, path, BIN, sub);
      SubRep(m, t, BIN, path[..|path|-1]);
      NodeFields(m, Subtree(t, path[..|path|-1]), ParentAt(t, path[..|path|-1], BIN));
      NodeFields(m, t, BIN);
      assert t.ring[0] in RingSet(t.ring) && sub.ring[i] in RingSet(sub.ring);
      var next := if path[0] then t.hi else t.lo;
      SubRep(m, next, t.ring[0], path[1..]);
    }
  }

  lemma MemberDone(m: Links, t: Tree, path: seq<bool>, i: nat)
    requires Rep(m, t, BIN) && NoShare(t) && Subtree(t, path).Node? && 0 < i < |Subtree(t, path).ring|
    ensures var x := Subtree(t, path).ring[i];
            Has(m, x) && UnlinkDone(m, UnlinkRing(m, x), t, Unlink(t, path, i), x)
    ensures Addr(Unlink(t, path, i)) == Addr(t) && Unlink(t, path, i).Node?
  {
    hide Rep;
    hide NoShare;
    var sub := Subtree(t, path);
    var u := Unlinked(sub, i);
    SubRep(m, t, BIN, path);
    MemberRep(m, sub, ParentAt(t, path, BIN), i);
    UnlinkedShare(m, sub, ParentAt(t, path, BIN), i);
    UnlinkGrafts(t, path, i);
    hide Unlinked;
    hide Unlink;
    hide UnlinkRing;
    GraftRep(m, UnlinkRing(m, sub.ring[i]), t, BIN, path, u);
    GraftMinus(t, path, u, sub.ring[i]);
    GraftNode(t, path, u);
  }

  lemma GraftNode(t: Tree, path: seq<bool>, u: Tree)
    requires u.Node? || (path != [] && t.Node?)
    ensures Graft(t, path, u).Node?
  {
  }

  lemma RootDone(m: Links, t: Tree)
    requires Rep(m, t, BIN) && NoShare(t) && t.Node? && |t.ring| > 0
    ensures var x, u := t.ring[0], Unlinked(t, 0);
            && Has(m, x) && Has(Detached(m, t), x) && Unlink(t, [], 0) == u
            && UnlinkDone(m, Replaced(Detached(m, t), x, Addr(u), BIN), t, u, x)
            && (u.Node? ==> Movable(Detached(m, t), x, Addr(u)) && Addr(u) != 0) && (u.Empty? ==> Addr(u) == 0)
  {
    hide Rep;
    hide NoShare;
    RootReplaced(m, t);
    UnlinkedShare(m, t, BIN, 0);
    DetachedReady(m, t, BIN);
    var u := Unlinked(t, 0);
    hide Unlinked;
    if u.Node? {
      CanMove(Detached(m, t), t.ring[0], u);
      assert RingAt(Detached(m, t), u.ring, u.size, 0);
    }
    hide Detached;
  }

  lemma ChildDone(m: Links, t: Tree, path: seq<bool>)
    requires Rep(m, t, BIN) && NoShare(t) && path != [] && Subtree(t, path).Node? && |Subtree(t, path).ring| > 0
    ensures var sub, xp := Subtree(t, path), ParentAt(t, path, BIN);
            var x, u := sub.ring[0], Unlinked(sub, 0);
            && Has(m, x) && xp in Detached(m, sub).lo
            && var m1 := Redirect(Detached(m, sub), xp, x, Addr(u));
               && Has(m1, x) && (Addr(u) != 0 ==> Movable(m1, x, Addr(u)))
               && UnlinkDone(m, Replaced(m1, x, Addr(u), xp), t, Unlink(t, path, 0), x)
    ensures Addr(Unlink(t, path, 0)) == Addr(t) && Unlink(t, path, 0).Node?
  {
    hide Rep;
    hide NoShare;
    var sub, pp, up := Subtree(t, path), path[..|path|-1], path[|path|-1];
    var u := Unlinked(sub, 0);
    LastStep(t, path, BIN, u);
    var p := Subtree(t, pp);
    SubRep(m, t, BIN, pp);
    SubRep(m, t, BIN, path);
    NodeFields(m, p, ParentAt(t, pp, BIN));
    ChildReplaced(m, p, ParentAt(t, pp, BIN), up);
    ChildMoves(m, p, ParentAt(t, pp, BIN), up);
    UnlinkedShare(m, sub, ParentAt(t, path, BIN), 0);
    UnlinkGrafts(t, path, 0);
    var p' := if up then p.(hi := u) else p.(lo := u);
    var m' := Replaced(Redirect(Detached(m, sub), p.ring[0], sub.ring[0], Addr(u)), sub.ring[0], Addr(u), p.ring[0]);
    hide Unlinked;
    hide Detached;
    hide Redirect;
    hide Replaced;
    GraftRep(m, m', t, BIN, pp, p');
    GraftMinus(t, path, u, sub.ring[0]);
    GraftNode(t, path, u);
  }

  /** The replacement of a child can take its place. */
  lemma ChildMoves(m: Links, p: Tree, par: int, up: bool)
    requires p.Node? && Rep(m, p, par) && NoShare(p) && (if up then p.hi.Node? else p.lo.Node?)
    ensures var t := if up then p.hi else p.lo;
            && |p.ring| > 0 && |t.ring| > 0 && Has(m, t.ring[0]) && p.ring[0] in Detached(m, t).lo
            && var u := Unlinked(t, 0);
               Addr(u) != 0 ==> Movable(Redirect(Detached(m, t), p.ring[0], t.ring[0], Addr(u)), t.ring[0], Addr(u))
  {
    var t := if up then p.hi else p.lo;
    var q := p.ring[0];
    NodeFields(m, p, par);
    NodeFields(m, t, q);
    assert q in RingSet(p.ring) && t.ring[0] in RingSet(t.ring);
    DetachedReady(m, t, q);
    var u := Unlinked(t, 0);
    var m0 := Detached(m, t);
    hide Unlinked;
    hide Detached;
    assert SameAt(m, m0, q);
    if u.Node? { CanMove(m0, t.ring[0], u); }
  }

  lemma UnlinkKeepsBin(index: nat, t: Tree, path: seq<bool>, i: nat)
    requires BinOk(index, t) && Subtree(t, path).Node? && i < |Subtree(t, path).ring|
    ensures BinOk(index, Unlink(t, path, i))
  {
    hide TreeIndex;
    UnlinkTrie(t, BinBase(index), BinHeight(index), path, i);
  }

  lemma NodeFields(m: Links, t: Tree, par: int)
    requires t.Node? && Rep(m, t, par)
    ensures |t.ring| > 0 && Has(m, t.ring[0]) && m.size[t.ring[0]] == t.size && m.lo[t.ring[0]] == Addr(t.lo)
            && m.hi[t.ring[0]] == Addr(t.hi)
    ensures (Addr(t.lo) == 0 <==> t.lo.Empty?) && (Addr(t.hi) == 0 <==> t.hi.Empty?)
  {
    assert RingAt(m, t.ring, t.size, 0);
    if t.lo.Node? { assert RingAt(m, t.lo.ring, t.lo.size, 0); }
    if t.hi.Node? { assert RingAt(m, t.hi.ring, t.hi.size, 0); }
  }

  /** At the bottom of a trie the size is resolved. */
  lemma AtBottom(t: Tree, k: nat, s: nat, base: nat, h: nat)
    requires t.Node? && Trie(t, base, h) && Shifted(k, s, base, h) && t.size != s
    ensures h > 0 && Trie(t.lo, base, h - 1) && Trie(t.hi, base + Pow2(h - 1), h - 1)
  {
    assert Pow2(0) == 1;
  }

  /** Tree t with one chunk more is in memory, and no other chunk is touched. */
  ghost predicate WholeInsertOk(m: Links, m': Links, t: Tree, t': Tree, x: int) {
    && Rep(m', t', BIN) && NoShare(t') && Addr(t') == Addr(t) && Addrs(t') == Addrs(t) + {x}
    && forall y {:trigger SameAt(m, m', y)} :: y !in Addrs(t) && y != x ==> SameAt(m, m', y)
  }

  /** The walk has come to node p along path; k holds the bits of the size not yet used. */
  ghost predicate At(t: Tree, base: nat, h: nat, s: nat, path: seq<bool>, base': nat, h': nat, p: int, k: nat) {
    && Walked(t, base, h, s, path, base', h') && Subtree(t, path).Node? && p == Addr(Subtree(t, path))
    && Trie(Subtree(t, path), base', h') && Shifted(k, s, base', h')
  }

  lemma StartWalk(i: nat, t: Tree, s: nat, k: nat)
    requires i < NTREEBINS && BinOk(i, t) && t.Node? && SizeInBin(i, s) && BinHeight(i) <= SIZE_T_BITS
    requires k == (s * Pow2(SIZE_T_BITS - BinHeight(i))) % WORD
    ensures At(t, BinBase(i), BinHeight(i), s, [], BinBase(i), BinHeight(i), Addr(t), k)
  {
    hide TreeIndex;
    hide BinMin;
    ShiftAtRoot(s, i);
    Word();
  }

  /** The fields the walk reads, and where it goes from here. */
  lemma AtFields(m: Links, t: Tree, base: nat, h: nat, s: nat, path: seq<bool>, base': nat, h': nat, p: int, k: nat)
    requires At(t, base, h, s, path, base', h', p, k) && Rep(m, t, BIN) && NoShare(t)
    ensures var sub := Subtree(t, path);
            && Walked(t, base, h, s, path, base', h') && sub.Node? && |sub.ring| > 0 && p == sub.ring[0] && Has(m, p)
               && m.size[p] == sub.size
            && m.lo[p] == Addr(sub.lo) && m.hi[p] == Addr(sub.hi) && (Addr(sub.lo) == 0 <==> sub.lo.Empty?)
               && (Addr(sub.hi) == 0 <==> sub.hi.Empty?)
            && (sub.size != s ==> h' > 0 && (k / TOP_BIT == 1 <==> Upper(base', h', s)))
            && (sub.size != s && (if Upper(base', h', s) then sub.hi.Node? else sub.lo.Node?) ==>
                  At(t, base, h, s, path + [Upper(base', h', s)], if Upper(base', h', s) then base' + Pow2(h' - 1)
                     else base', h' - 1,
                     Addr(if Upper(base', h', s) then sub.hi else sub.lo), (2 * k) % WORD))
  {
    hide Rep;
    hide NoShare;
    var sub := Subtree(t, path);
    SubRep(m, t, BIN, path);
    NodeFields(m, sub, ParentAt(t, path, BIN));
    if sub.size != s {
      BitsHere(sub, k, s, base', h');
      hide Pow2;
      hide Trie;
      hide Shifted;
      hide Has;
      WalkedOn(t, base, h, s, path, base', h', Upper(base', h', s));
    }
  }

  lemma BitsHere(t: Tree, k: nat, s: nat, base: nat, h: nat)
    requires t.Node? && Trie(t, base, h) && Shifted(k, s, base, h) && t.size != s
    ensures h > 0 && (k / TOP_BIT == 1 <==> Upper(base, h, s))
    ensures var up := Upper(base, h, s);
            var base' := if up then base + Pow2(h - 1) else base;
            Trie(if up then t.hi else t.lo, base', h - 1) && Shifted((2 * k) % WORD, s, base', h - 1)
  {
    AtBottom(t, k, s, base, h);
    ShiftedBits(k, s, base, h);
    Word();
    hide Pow2;
    hide Trie;
    hide Shifted;
  }

  /** The links at the end of the walk make up the whole tree with the new chunk. */
  lemma WholeInsert(m: Links, t: Tree, base: nat, h: nat, s: nat, x: int, path: seq<bool>, base': nat, h': nat)
    requires Rep(m, t, BIN) && NoShare(t) && x !in Addrs(t) && x > 0 && x in m.size && m.size[x] == s
    requires Walked(t, base, h, s, path, base', h') && Subtree(t, path).Node?
    requires var sub := Subtree(t, path); sub.size == s
                                          || (h' > 0 && (if Upper(base', h', s) then sub.hi.Empty? else sub.lo.Empty?))
    ensures var sub, t' := Subtree(t, path), Insert(t, base, h, s, x);
            && |sub.ring| > 0 && sub.ring[0] in m.fd
            && var m' := if sub.size == s then LinkRing(m, sub.ring[0], x)
               else LinkLeaf(m, sub.ring[0], Upper(base', h', s), x);
               WholeInsertOk(m, m', t, t', x)
  {
    hide Rep;
    hide NoShare;
    var sub := Subtree(t, path);
    SubRep(m, t, BIN, path);
    NodeFields(m, sub, ParentAt(t, path, BIN));
    InsertHere(m, sub, ParentAt(t, path, BIN), base', h', s, x);
    InsertGrafts(t, base, h, s, x, path, base', h');
    var u := Insert(sub, base', h', s, x);
    var m' := if sub.size == s then LinkRing(m, sub.ring[0], x) else LinkLeaf(m, sub.ring[0], Upper(base', h', s), x);
    hide LinkRing;
    hide LinkLeaf;
    hide Insert;
    GraftRep(m, m', t, BIN, path, u);
    GraftShare(t, path, u, {x});
    GraftAddrs(t, path, u, {x});
  }

  lemma {:induction false} GraftAddrs(t: Tree, path: seq<bool>, u: Tree, more: set<int>)
    requires Addrs(u) == Addrs(Subtree(t, path)) + more && (t.Node? || path == [])
    requires Subtree(t, path).Node?
    ensures Addrs(Graft(t, path, u)) == Addrs(t) + more
  {
    if path != [] {
      if path[0] { GraftAddrs(t.hi, path[1..], u, more); } else { GraftAddrs(t.lo, path[1..], u, more); }
    }
  }

  lemma InsertKeepsBin(i: nat, t: Tree, s: nat, x: int)
    requires BinOk(i, t) && SizeInBin(i, s) && i < NTREEBINS
    ensures BinOk(i, Insert(t, BinBase(i), BinHeight(i), s, x)) && Insert(t, BinBase(i), BinHeight(i), s, x).Node?
  {
    hide TreeIndex;
    hide BinMin;
    InBinRange(i, s);
    InsertTrie(t, BinBase(i), BinHeight(i), s, x);
  }
}
