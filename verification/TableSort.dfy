/**
  The quicksort of table.sort, under any comparison function.
 */
module TableSort {
  import opened Arith

  /** A comparison may answer differently each time: its first argument counts the calls. */
  type Compare<!T> = (nat, T, T) -> bool

  ghost predicate Le<T(!new)>(cmp: Compare<T>, x: T, y: T) {
    !cmp(0, y, x)
  }

  /** The comparison is a strict weak order: it depends on its arguments only, and "not greater" is total and
      transitive. */
  ghost predicate StrictWeak<T(!new)>(cmp: Compare<T>) {
    && (forall n, x, y :: cmp(n, x, y) == cmp(0, x, y))
    && (forall x, y {:trigger Le(cmp, x, y)} :: Le(cmp, x, y) || Le(cmp, y, x))
    && (forall x, y, z {:trigger Le(cmp, x, y), Le(cmp, y, z)} :: Le(cmp, x, y) && Le(cmp, y, z) ==> Le(cmp, x, z))
  }

  /** The usual definition: irreflexive, transitive, and with transitive incomparability. */
  lemma StrictWeakAsUsual<T(!new)>(lt: (T, T) -> bool)
    requires forall x :: !lt(x, x)
    requires forall x, y, z :: lt(x, y) && lt(y, z) ==> lt(x, z)
    requires forall x, y, z :: !lt(x, y) && !lt(y, x) && !lt(y, z) && !lt(z, y) ==> !lt(x, z) && !lt(z, x)
    ensures StrictWeak((n: nat, x: T, y: T) => lt(x, y))
  {
    var cmp: Compare<T> := (n: nat, x: T, y: T) => lt(x, y);
    forall x, y ensures Le(cmp, x, y) || Le(cmp, y, x) { assert lt(x, y) && lt(y, x) ==> lt(x, x); }
    forall x, y, z | Le(cmp, x, y) && Le(cmp, y, z) ensures Le(cmp, x, z) {
      assert lt(z, x) && lt(x, y) ==> lt(z, y);
      assert lt(y, z) && lt(z, x) ==> lt(y, x);
    }
  }

  /** s' differs from s only in positions l..u, and those hold the same elements in some order. */
  ghost predicate Shuffled<T(!new)>(s: seq<T>, s': seq<T>, l: int, u: int) {
    0 <= l <= u + 1 && u < |s| == |s'| && multiset(s[l..u + 1]) == multiset(s'[l..u + 1]) && s[..l] == s'[..l]
    && s[u + 1..] == s'[u + 1..]
  }

  lemma ShuffledWider<T(!new)>(s: seq<T>, s': seq<T>, l: int, u: int, l': int, u': int)
    requires Shuffled(s, s', l, u) && 0 <= l' <= l && u <= u' < |s|
    ensures Shuffled(s, s', l', u')
  {
    assert s[l'..u' + 1] == s[..l][l'..] + s[l..u + 1] + s[u + 1..][..u' - u];
    assert s'[l'..u' + 1] == s'[..l][l'..] + s'[l..u + 1] + s'[u + 1..][..u' - u];
    assert s[..l'] == s[..l][..l'] && s'[..l'] == s'[..l][..l'];
    assert s[u' + 1..] == s[u + 1..][u' - u..] && s'[u' + 1..] == s'[u + 1..][u' - u..];
  }

  lemma ShuffledThen<T(!new)>(s: seq<T>, t: seq<T>, r: seq<T>, l: int, u: int)
    requires Shuffled(s, t, l, u) && Shuffled(t, r, l, u)
    ensures Shuffled(s, r, l, u)
  {
  }

  /** s' is s with two elements exchanged. */
  ghost predicate Exchanged<T(!new)>(s: seq<T>, s': seq<T>, i: int, j: int) {
    0 <= i < |s| && 0 <= j < |s| && s' == s[i := s[j]][j := s[i]]
  }

  method Swap<T(!new)>(a: array<T>, i: int, j: int, ghost l: int, ghost u: int)
    requires 0 <= l <= i <= u < a.Length && l <= j <= u
    modifies a
    ensures Exchanged(old(a[..]), a[..], i, j) && Shuffled(old(a[..]), a[..], l, u)
  {
    ghost var s := a[..];
    a[i], a[j] := a[j], a[i];
    ghost var t := a[l..u + 1];
    ghost var o := s[l..u + 1];
    assert t == o[i - l := o[j - l]][j - l := o[i - l]];
    assert a[..][l..u + 1] == t;
  }

  /** The largest, middle and smallest of three: enough for the ends to stop the scans. */
  ghost predicate EndsOrdered<T(!new)>(cmp: Compare<T>, s: seq<T>, l: int, i: int, u: int) {
    0 <= l <= i <= u < |s| && Le(cmp, s[l], s[i]) && Le(cmp, s[i], s[u]) && Le(cmp, s[l], s[u])
  }

  /** The first part of a round: a[l], a[(l+u)/2] and a[u] are put in order. */
  method OrderThree<T(!new)>(a: array<T>, l: int, u: int, cmp: Compare<T>, n0: nat) returns (i: int, n: nat)
    requires 1 <= l < u < a.Length
    modifies a
    ensures l <= i <= u && (u - l >= 2 ==> l < i < u) && i == (l + u) / 2
    ensures Shuffled(old(a[..]), a[..], l, u)
    ensures StrictWeak(cmp) ==> Le(cmp, a[l], a[u]) && (u - l >= 2 ==> EndsOrdered(cmp, a[..], l, i, u))
  {
    hide Shuffled;
    hide StrictWeak;
    ghost var s0 := a[..];
    n := n0 + 1;
    i := (l + u) / 2;
    assert Shuffled(s0, s0, l, u) by { ShuffledSelf(s0, l, u); }
    if cmp(n0, a[u], a[l]) {
      Swap(a, l, u, l, u);
    }
    Answer(cmp, n0, s0[u], s0[l]);
    assert StrictWeak(cmp) ==> Le(cmp, a[l], a[u]);
    if u - l == 1 { return; }
    ghost var s1 := a[..];
    n := n + 1;
    Answer(cmp, n - 1, s1[i], s1[l]);
    if cmp(n - 1, a[i], a[l]) {
      Swap(a, i, l, l, u);
      ShuffledThen(s0, s1, a[..], l, u);
      Chain(cmp, s1[i], s1[l], s1[u]);
    } else {
      n := n + 1;
      Answer(cmp, n - 1, s1[u], s1[i]);
      if cmp(n - 1, a[u], a[i]) {
        Swap(a, i, u, l, u);
        ShuffledThen(s0, s1, a[..], l, u);
      }
      Chain(cmp, a[l], a[i], a[u]);
    }
  }

  lemma ShuffledSelf<T(!new)>(s: seq<T>, l: int, u: int)
    requires 0 <= l <= u + 1 && u < |s|
    ensures Shuffled(s, s, l, u)
  {
  }

  /** What an answer of a strict weak order means. */
  lemma Answer<T(!new)>(cmp: Compare<T>, n: nat, x: T, y: T)
    ensures StrictWeak(cmp) ==> (cmp(n, x, y) ==> Le(cmp, x, y)) && (!cmp(n, x, y) <==> Le(cmp, y, x))
  {
    assert StrictWeak(cmp) ==> cmp(n, x, y) == cmp(0, x, y);
    assert StrictWeak(cmp) ==> Le(cmp, x, y) || Le(cmp, y, x);
  }

  lemma Chain<T(!new)>(cmp: Compare<T>, x: T, y: T, z: T)
    ensures StrictWeak(cmp) && Le(cmp, x, y) && Le(cmp, y, z) ==> Le(cmp, x, z)
  {
  }

  ghost predicate Below<T(!new)>(cmp: Compare<T>, s: seq<T>, l: int, i: int, x: T) {
    0 <= l && i <= |s| && forall k :: l <= k < i ==> Le(cmp, s[k], x)
  }

  ghost predicate Above<T(!new)>(cmp: Compare<T>, s: seq<T>, j: int, u: int, x: T) {
    0 <= j && u <= |s| && forall k :: j <= k < u ==> Le(cmp, x, s[k])
  }

  /** The last calls compared the elements behind i0 up to u with the pivot at u - 1, and all of them said less. */
  ghost predicate UpLeft<T(!new)>(cmp: Compare<T>, s: seq<T>, i0: int, u: int, n: nat) {
    && 0 <= i0 < u < |s| && u - i0 <= n
    && forall k :: i0 < k <= u ==> cmp(n - 1 - (u - k), s[k], s[u - 1])
  }

  /** The last calls compared the pivot with the elements before j0 down to l, and all of them said less. */
  ghost predicate DownLeft<T(!new)>(cmp: Compare<T>, s: seq<T>, l: int, j0: int, u: int, n: nat) {
    && 0 <= l < j0 < u < |s| && j0 - l <= n
    && forall k :: l <= k < j0 ==> cmp(n - 1 - (k - l), s[u - 1], s[k])
  }

  /** A scan has left the part from l to u. */
  ghost predicate ScanLeft<T(!new)>(cmp: Compare<T>, s: seq<T>, l: int, u: int, n: nat) {
    || (exists i0 :: l <= i0 < u && UpLeft(cmp, s, i0, u, n))
    || (exists j0 :: DownLeft(cmp, s, l, j0, u, n))
  }

  /** The order is invalid: a scan has left some part of l0 to u0. */
  ghost predicate OrderInvalid<T(!new)>(cmp: Compare<T>, s: seq<T>, l0: int, u0: int, n: nat) {
    exists l, u :: l0 <= l < u <= u0 && ScanLeft(cmp, s, l, u, n)
  }

  lemma InvalidWider<T(!new)>(cmp: Compare<T>, s: seq<T>, l: int, u: int, l0: int, u0: int, n: nat)
    requires OrderInvalid(cmp, s, l, u, n) && l0 <= l && u <= u0
    ensures OrderInvalid(cmp, s, l0, u0, n)
  {
    hide ScanLeft;
  }

  /** Repeat ++i until a[i] is not less than the pivot; an order for which nothing stops the scan is invalid. */
  method ScanUp<T(!new)>(a: array<T>, i0: int, u: int, x: T, cmp: Compare<T>, n0: nat, ghost stop: int)
    returns (ok: bool, i: int, n: nat)
    requires 0 <= i0 < u < a.Length && i0 < stop <= u
    ensures i0 < i <= u && n == n0 + (i - i0) && (ok <==> !cmp(n - 1, a[i], x)) && (!ok ==> i == u)
    ensures forall k :: i0 < k < i ==> cmp(n0 + (k - i0 - 1), a[k], x)
    ensures StrictWeak(cmp) && Le(cmp, x, a[stop])
            ==> ok && i <= stop && Below(cmp, a[..], i0 + 1, i, x) && Le(cmp, x, a[i])
  {
    hide StrictWeak;
    i, n := i0 + 1, n0 + 1;
    Answer(cmp, n0, a[i], x);
    while cmp(n - 1, a[i], x)
      invariant i0 < i <= u && n == n0 + (i - i0)
      invariant forall k :: i0 < k < i ==> cmp(n0 + (k - i0 - 1), a[k], x)
      invariant StrictWeak(cmp)
                ==> (!cmp(n - 1, a[i], x) <==> Le(cmp, x, a[i])) && (cmp(n - 1, a[i], x) ==> Le(cmp, a[i], x))
      invariant StrictWeak(cmp) && Le(cmp, x, a[stop]) ==> i <= stop && Below(cmp, a[..], i0 + 1, i, x)
      decreases u - i
    {
      if i >= u { return false, i, n; }
      i, n := i + 1, n + 1;
      Answer(cmp, n - 1, a[i], x);
    }
    return true, i, n;
  }

  /** Repeat --j until the pivot is not less than a[j]. */
  method ScanDown<T(!new)>(a: array<T>, j0: int, l: int, x: T, cmp: Compare<T>, n0: nat, ghost stop: int)
    returns (ok: bool, j: int, n: nat)
    requires 0 <= l < j0 < a.Length && l <= stop < j0
    ensures l <= j < j0 && n == n0 + (j0 - j) && (ok <==> !cmp(n - 1, x, a[j])) && (!ok ==> j == l)
    ensures forall k :: j < k < j0 ==> cmp(n0 + (j0 - 1 - k), x, a[k])
    ensures StrictWeak(cmp) && Le(cmp, a[stop], x)
            ==> ok && stop <= j && Above(cmp, a[..], j + 1, j0, x) && Le(cmp, a[j], x)
  {
    hide StrictWeak;
    j, n := j0 - 1, n0 + 1;
    Answer(cmp, n0, x, a[j]);
    while cmp(n - 1, x, a[j])
      invariant l <= j < j0 && n == n0 + (j0 - j)
      invariant forall k :: j < k < j0 ==> cmp(n0 + (j0 - 1 - k), x, a[k])
      invariant StrictWeak(cmp)
                ==> (!cmp(n - 1, x, a[j]) <==> Le(cmp, a[j], x)) && (cmp(n - 1, x, a[j]) ==> Le(cmp, x, a[j]))
      invariant StrictWeak(cmp) && Le(cmp, a[stop], x) ==> stop <= j && Above(cmp, a[..], j + 1, j0, x)
      decreases j
    {
      if j <= l { return false, j, n; }
      j, n := j - 1, n + 1;
      Answer(cmp, n - 1, x, a[j]);
    }
    return true, j, n;
  }

  /** Nothing before position i is greater, and nothing behind it is less. */
  ghost predicate Split<T(!new)>(cmp: Compare<T>, s: seq<T>, l: int, i: int, u: int) {
    0 <= l < i < u < |s| && Below(cmp, s, l, i, s[i]) && Above(cmp, s, i + 1, u + 1, s[i])
  }

  /** Both scans. */
  method ScanBoth<T(!new)>(a: array<T>, l: int, i0: int, j0: int, u: int, x: T, cmp: Compare<T>, n0: nat)
    returns (ok: bool, i: int, j: int, n: nat)
    requires 0 <= l <= i0 <= j0 < u < a.Length && i0 < u - 1 && l < j0 && x == a[u - 1]
    ensures ok ==> i0 < i <= u && l <= j < j0
    ensures !ok ==> OrderInvalid(cmp, a[..], l, u, n)
    ensures StrictWeak(cmp) && Below(cmp, a[..], l, i0 + 1, x) && Above(cmp, a[..], j0, u + 1, x)
            ==> ok && Scanned(cmp, a[..], l, i, j, u, x)
  {
    hide StrictWeak;
    hide Below;
    hide Above;
    j := j0;
    Sentinels(cmp, a[..], l, i0, j0, u, x);
    ok, i, n := ScanUp(a, i0, u, x, cmp, n0, if i0 < j0 then j0 else u - 1);
    if !ok {
      assert UpLeft(cmp, a[..], i0, u, n);
      assert ScanLeft(cmp, a[..], l, u, n);
      return;
    }
    ok, j, n := ScanDown(a, j0, l, x, cmp, n, l);
    if !ok {
      assert DownLeft(cmp, a[..], l, j0, u, n);
      assert ScanLeft(cmp, a[..], l, u, n);
      return;
    }
    Joined(cmp, a[..], l, i0, i, j, j0, u, x);
  }

  ghost predicate Scanned<T(!new)>(cmp: Compare<T>, s: seq<T>, l: int, i: int, j: int, u: int, x: T) {
    && 0 <= l < i < u < |s| && l <= j < u
    && Below(cmp, s, l, i, x) && Above(cmp, s, j + 1, u + 1, x) && (j < i ==> Above(cmp, s, i, u + 1, x))
    && Le(cmp, x, s[i]) && Le(cmp, s[j], x)
  }

  /** The exchange loop, with the pivot at u - 1: it ends with i and j crossed. */
  method Sweep<T(!new)>(a: array<T>, l: int, u: int, cmp: Compare<T>, n0: nat)
    returns (ok: bool, i: int, j: int, n: nat)
    requires 1 <= l && l + 3 <= u < a.Length
    requires StrictWeak(cmp) ==> Below(cmp, a[..], l, l + 1, a[u - 1]) && Above(cmp, a[..], u - 1, u + 1, a[u - 1])
    modifies a
    ensures Shuffled(old(a[..]), a[..], l, u)
    ensures ok ==> l < i <= u && j < i
    ensures !ok ==> OrderInvalid(cmp, a[..], l, u, n)
    ensures StrictWeak(cmp) ==> ok && Scanned(cmp, a[..], l, i, j, u, a[..][u - 1])
  {
    hide Shuffled;
    hide StrictWeak;
    hide Below;
    hide Above;
    hide Scanned;
    hide Exchanged;
    ghost var s0 := a[..];
    ShuffledSelf(s0, l, u);
    var x := a[u - 1];
    ok, i, j, n := true, l, u - 1, n0;
    while true
      invariant l <= i <= j < u && i < u - 1 && l < j && x == a[u - 1] && ok
      invariant Shuffled(s0, a[..], l, u)
      invariant StrictWeak(cmp) ==> Below(cmp, a[..], l, i + 1, x) && Above(cmp, a[..], j, u + 1, x)
      decreases j - i
    {
      ghost var s := a[..];
      ok, i, j, n := ScanBoth(a, l, i, j, u, x, cmp, n);
      if !ok || j < i { return; }
      Swap(a, i, j, l, u);
      ShuffledThen(s0, s, a[..], l, u);
      Swapped(cmp, s, a[..], l, i, j, u, x);
    }
  }

  /** The exchange loop and the last swap, which puts the pivot into its place. */
  method SweepAndPlace<T(!new)>(a: array<T>, l: int, u: int, cmp: Compare<T>, n0: nat)
    returns (ok: bool, i: int, n: nat)
    requires 1 <= l && l + 3 <= u < a.Length
    requires StrictWeak(cmp) ==> Below(cmp, a[..], l, l + 1, a[u - 1]) && Above(cmp, a[..], u - 1, u + 1, a[u - 1])
    modifies a
    ensures Shuffled(old(a[..]), a[..], l, u)
    ensures ok ==> l < i <= u
    ensures !ok ==> OrderInvalid(cmp, a[..], l, u, n)
    ensures StrictWeak(cmp) ==> ok && Split(cmp, a[..], l, i, u)
  {
    hide *;
    var j: int;
    ok, i, j, n := Sweep(a, l, u, cmp, n0);
    if !ok { return; }
    ghost var s := a[..];
    Swap(a, u - 1, i, l, u);
    PivotPlaced(cmp, old(a[..]), s, a[..], l, i, j, u);
  }

  /** The second part of a round: the pivot ends at i, with nothing greater before it and nothing less behind it. */
  method Partition<T(!new)>(a: array<T>, l: int, u: int, mid: int, cmp: Compare<T>, n0: nat)
    returns (ok: bool, i: int, n: nat)
    requires 1 <= l && l + 3 <= u < a.Length && l < mid < u
    requires StrictWeak(cmp) ==> EndsOrdered(cmp, a[..], l, mid, u)
    modifies a
    ensures Shuffled(old(a[..]), a[..], l, u)
    ensures ok ==> l < i <= u
    ensures !ok ==> OrderInvalid(cmp, a[..], l, u, n)
    ensures StrictWeak(cmp) ==> ok && Split(cmp, a[..], l, i, u)
  {
    hide *;
    Swap(a, mid, u - 1, l, u);
    ghost var s := a[..];
    FirstBounds(cmp, old(a[..]), s, l, mid, u);
    ok, i, n := SweepAndPlace(a, l, u, cmp, n0);
    ShuffledVia(old(a[..]), s, a[..], l, u);
  }

  lemma ShuffledVia<T(!new)>(s0: seq<T>, s: seq<T>, s': seq<T>, l: int, u: int)
    ensures Shuffled(s0, s, l, u) && Shuffled(s, s', l, u) ==> Shuffled(s0, s', l, u)
  {
  }

  lemma FirstBounds<T(!new)>(cmp: Compare<T>, s0: seq<T>, s: seq<T>, l: int, mid: int, u: int)
    requires 0 <= l && l + 3 <= u < |s0| && l < mid < u && Exchanged(s0, s, mid, u - 1)
    requires StrictWeak(cmp) ==> EndsOrdered(cmp, s0, l, mid, u)
    ensures StrictWeak(cmp) ==> Below(cmp, s, l, l + 1, s[u - 1]) && Above(cmp, s, u - 1, u + 1, s[u - 1])
  {
    assert StrictWeak(cmp) ==> Le(cmp, s[u - 1], s[u - 1]);
  }

  lemma Sentinels<T(!new)>(cmp: Compare<T>, s: seq<T>, l: int, i: int, j: int, u: int, x: T)
    requires 0 <= l <= i <= j < u < |s| && x == s[u - 1]
    ensures StrictWeak(cmp) && Below(cmp, s, l, i + 1, x) && Above(cmp, s, j, u + 1, x)
            ==> Le(cmp, s[l], x) && Le(cmp, x, s[j]) && Le(cmp, x, s[u - 1])
  {
  }

  /** What two scans establish. */
  lemma Joined<T(!new)>(cmp: Compare<T>, s: seq<T>, l: int, i0: int, i: int, j: int, j0: int, u: int, x: T)
    requires 0 <= l <= i0 < i <= u < |s| && l <= j < j0 < u
    ensures Below(cmp, s, l, i0 + 1, x) && Below(cmp, s, i0 + 1, i, x) ==> Below(cmp, s, l, i, x)
    ensures Above(cmp, s, j0, u + 1, x) && Above(cmp, s, j + 1, j0, x) ==> Above(cmp, s, j + 1, u + 1, x)
    ensures j < i && Above(cmp, s, j + 1, u + 1, x) ==> Above(cmp, s, i, u + 1, x)
  {
  }

  lemma Swapped<T(!new)>(cmp: Compare<T>, s: seq<T>, s': seq<T>, l: int, i: int, j: int, u: int, x: T)
    requires 0 <= l < i <= j < u - 1 && u < |s| && Exchanged(s, s', i, j)
    ensures |s'| == |s| && s'[u - 1] == s[u - 1]
    ensures Scanned(cmp, s, l, i, j, u, x) ==> Below(cmp, s', l, i + 1, x) && Above(cmp, s', j, u + 1, x)
  {
  }

  lemma PivotPlaced<T(!new)>(cmp: Compare<T>, s0: seq<T>, s: seq<T>, s': seq<T>, l: int, i: int, j: int, u: int)
    ensures Shuffled(s0, s, l, u) && Shuffled(s, s', l, u) ==> Shuffled(s0, s', l, u)
    ensures 0 <= l < i && 0 <= u - 1 < |s| && Exchanged(s, s', u - 1, i) && j < i
            && Scanned(cmp, s, l, i, j, u, s[u - 1]) ==>
              Split(cmp, s', l, i, u)
  {
  }

  // ---------------------------------------------------------------- whole runs

  /** Positions of l0..u0 are in order, except between two positions of l..u. */
  ghost predicate Arranged<T(!new)>(cmp: Compare<T>, s: seq<T>, l0: int, l: int, u: int, u0: int) {
    && 0 <= l0 <= l <= u + 1 <= u0 + 1 <= |s|
    && forall x, y :: l0 <= x < y <= u0 && (x < l || y > u) ==> Le(cmp, s[x], s[y])
  }

  /** Positions l..u are in order. */
  ghost predicate SortedRange<T(!new)>(cmp: Compare<T>, s: seq<T>, l: int, u: int) {
    0 <= l && u < |s| && forall x, y :: l <= x < y <= u ==> Le(cmp, s[x], s[y])
  }

  /** Every element after a shuffle was there before. */
  lemma Came<T(!new)>(s: seq<T>, s': seq<T>, l: int, u: int, y: int) returns (y': int)
    requires Shuffled(s, s', l, u) && 0 <= y < |s|
    ensures 0 <= y' < |s| && s'[y] == s[y'] && (if l <= y <= u then l <= y' <= u else y' == y)
  {
    if l <= y <= u {
      var m, m' := s[l..u + 1], s'[l..u + 1];
      assert m'[y - l] in multiset(m');
      assert m'[y - l] in multiset(m);
      var k :| 0 <= k < |m| && m[k] == m'[y - l];
      y' := l + k;
    } else {
      y' := y;
      if y < l { assert s[..l][y] == s'[..l][y]; } else { assert s[u + 1..][y - u - 1] == s'[u + 1..][y - u - 1]; }
    }
  }

  lemma ArrangedShuffle<T(!new)>(cmp: Compare<T>, s: seq<T>, s': seq<T>, l0: int, l: int, u: int, u0: int)
    requires Arranged(cmp, s, l0, l, u, u0) && Shuffled(s, s', l, u)
    ensures Arranged(cmp, s', l0, l, u, u0)
  {
    forall x, y | l0 <= x < y <= u0 && (x < l || y > u) ensures Le(cmp, s'[x], s'[y]) {
      var x' := Came(s, s', l, u, x);
      var y' := Came(s, s', l, u, y);
    }
  }

  lemma SplitShuffle<T(!new)>(cmp: Compare<T>, s: seq<T>, s': seq<T>, l: int, i: int, u: int, p: int, q: int)
    requires Split(cmp, s, l, i, u) && Shuffled(s, s', p, q) && l <= p && q <= u && (q < i || i < p)
    ensures Split(cmp, s', l, i, u)
  {
    var i' := Came(s, s', p, q, i);
    forall k | l <= k < i ensures Le(cmp, s'[k], s'[i]) { var k' := Came(s, s', p, q, k); }
    forall k | i + 1 <= k < u + 1 ensures Le(cmp, s'[i], s'[k]) { var k' := Came(s, s', p, q, k); }
  }

  lemma LeftDone<T(!new)>(cmp: Compare<T>, s: seq<T>, l0: int, l: int, i: int, u: int, u0: int)
    requires StrictWeak(cmp) && Arranged(cmp, s, l0, l, u, u0) && Split(cmp, s, l, i, u)
             && SortedRange(cmp, s, l, i - 1)
    ensures Arranged(cmp, s, l0, i + 1, u, u0)
  {
    forall x, y | l0 <= x < y <= u0 && (x < i + 1 || y > u) ensures Le(cmp, s[x], s[y]) {
      if l <= x && y <= u { Chain(cmp, s[x], s[i], s[y]); }
    }
  }

  lemma RightDone<T(!new)>(cmp: Compare<T>, s: seq<T>, l0: int, l: int, i: int, u: int, u0: int)
    requires StrictWeak(cmp) && Arranged(cmp, s, l0, l, u, u0) && Split(cmp, s, l, i, u)
             && SortedRange(cmp, s, i + 1, u)
    ensures Arranged(cmp, s, l0, l, i - 1, u0)
  {
    forall x, y | l0 <= x < y <= u0 && (x < l || y > i - 1) ensures Le(cmp, s[x], s[y]) {
      if l <= x && y <= u { Chain(cmp, s[x], s[i], s[y]); }
    }
  }

  /** Two or three elements in order complete the arrangement. */
  lemma FewDone<T(!new)>(cmp: Compare<T>, s: seq<T>, l0: int, l: int, u: int, u0: int)
    requires Arranged(cmp, s, l0, l, u, u0) && l < u && Le(cmp, s[l], s[u])
    requires u - l == 1 || (u - l == 2 && EndsOrdered(cmp, s, l, l + 1, u))
    ensures SortedRange(cmp, s, l0, u0)
  {
  }

  /** A recursion on the smaller part adds one level. */
  ghost predicate Shallow(levels: nat, size: int) {
    levels > 0 && (Pow2(levels - 1) <= size || levels == 1)
  }

  /** One round on at least four elements: the pivot goes to its place, and the smaller part is sorted recursively. */
  method Round<T(!new)>(a: array<T>, l: int, u: int, mid: int, cmp: Compare<T>, n0: nat)
    returns (ok: bool, l': int, u': int, n: nat, ghost levels: nat)
    requires 1 <= l && l + 3 <= u < a.Length && l < mid < u
    requires StrictWeak(cmp) ==> EndsOrdered(cmp, a[..], l, mid, u)
    modifies a
    ensures Shuffled(old(a[..]), a[..], l, u) && Shallow(levels, u - l + 1)
    ensures ok ==> l <= l' <= u' + 1 && u' <= u && u' - l' < u - l
    ensures !ok ==> OrderInvalid(cmp, a[..], l, u, n)
    ensures StrictWeak(cmp) ==> ok
    ensures StrictWeak(cmp) ==> forall l0, u0 ::
              Arranged(cmp, old(a[..]), l0, l, u, u0) ==> Arranged(cmp, a[..], l0, l', u', u0)
    decreases u - l + 1, 0
  {
    hide Shuffled;
    hide StrictWeak;
    hide Split;
    hide Arranged;
    hide SortedRange;
    hide EndsOrdered;
    hide OrderInvalid;
    ghost var s0 := a[..];
    var i: int;
    levels := 1;
    ok, i, n := Partition(a, l, u, mid, cmp, n0);
    if !ok { l', u' := l, u; return; }
    ghost var s1 := a[..];
    var j: int;
    if i - l < u - i {
      j, i, l', u' := l, i - 1, i + 1, u;
    } else {
      j, i, l', u' := i + 1, u, l, i - 1;
    }
    ghost var sub;
    ok, n, sub := AuxSort(a, j, i, cmp, n);
    levels := sub + 1;
    if !ok { InvalidWider(cmp, a[..], j, i, l, u, n); }
    ShuffledWider(s1, a[..], j, i, l, u);
    ShuffledThen(s0, s1, a[..], l, u);
    if StrictWeak(cmp) {
      RoundArranges(cmp, s0, s1, a[..], l, u, j, i, l', u');
    }
  }

  lemma RoundArranges<T(!new)>(cmp: Compare<T>, s0: seq<T>, s1: seq<T>, s2: seq<T>, l: int, u: int, j: int, i: int,
                               l': int, u': int)
    requires StrictWeak(cmp) && Shuffled(s0, s1, l, u) && Shuffled(s1, s2, j, i) && Shuffled(s0, s2, l, u)
             && SortedRange(cmp, s2, j, i)
    requires (j == l && l' == i + 2 && u' == u && Split(cmp, s1, l, i + 1, u))
             || (i == u && l' == l && u' == j - 2 && Split(cmp, s1, l, j - 1, u))
    ensures forall l0, u0 :: Arranged(cmp, s0, l0, l, u, u0) ==> Arranged(cmp, s2, l0, l', u', u0)
  {
    hide Shuffled;
    hide StrictWeak;
    hide Arranged;
    hide SortedRange;
    forall l0, u0 | Arranged(cmp, s0, l0, l, u, u0) ensures Arranged(cmp, s2, l0, l', u', u0) {
      ArrangedShuffle(cmp, s0, s2, l0, l, u, u0);
      if j == l && l' == i + 2 && u' == u && Split(cmp, s1, l, i + 1, u) {
        SplitShuffle(cmp, s1, s2, l, i + 1, u, j, i);
        LeftDone(cmp, s2, l0, l, i + 1, u, u0);
      } else {
        SplitShuffle(cmp, s1, s2, l, j - 1, u, j, i);
        RightDone(cmp, s2, l0, l, j - 1, u, u0);
      }
    }
  }

  /** auxsort: under a strict weak order it sorts; under any comparison at all it ends, touches only l0..u0 and leaves a
      rearrangement there, even when it gives up.  The recursion is logarithmically deep. */
  method AuxSort<T(!new)>(a: array<T>, l0: int, u0: int, cmp: Compare<T>, n0: nat)
    returns (ok: bool, n: nat, ghost levels: nat)
    requires 1 <= l0 <= u0 + 1 <= a.Length
    modifies a
    ensures Shuffled(old(a[..]), a[..], l0, u0)
    ensures StrictWeak(cmp) ==> ok && SortedRange(cmp, a[..], l0, u0)
    ensures !ok ==> OrderInvalid(cmp, a[..], l0, u0, n)
    ensures Shallow(levels, u0 - l0 + 1)
    decreases u0 - l0 + 1, 1
  {
    hide Shuffled;
    hide StrictWeak;
    hide Arranged;
    hide EndsOrdered;
    hide OrderInvalid;
    var l, u := l0, u0;
    n, levels, ok := n0, 1, true;
    ghost var s0 := a[..];
    ShuffledSelf(s0, l0, u0);
    assert Arranged(cmp, s0, l0, l, u, u0) by { StartArranged(cmp, s0, l0, u0); }
    while l < u
      invariant l0 <= l <= u + 1 && u <= u0 && ok
      invariant Shuffled(s0, a[..], l0, u0)
      invariant StrictWeak(cmp) ==> Arranged(cmp, a[..], l0, l, u, u0)
      invariant Shallow(levels, u0 - l0 + 1)
      decreases u - l
    {
      ghost var s := a[..];
      var i: int;
      i, n := OrderThree(a, l, u, cmp, n);
      Follows(cmp, s0, s, a[..], l0, l, u, u0);
      if u - l <= 2 {
        if StrictWeak(cmp) { assert a[..][l] == a[l] && a[..][u] == a[u]; FewDone(cmp, a[..], l0, l, u, u0); }
        return;
      }
      ghost var s1 := a[..];
      ghost var deep;
      ghost var lo, hi := l, u;
      ok, l, u, n, deep := Round(a, l, u, i, cmp, n);
      levels := if deep > levels then deep else levels;
      Kept(s0, s1, a[..], l0, lo, hi, u0);
      if !ok {
        InvalidWider(cmp, a[..], lo, hi, l0, u0, n);
        return;
      }
    }
    if StrictWeak(cmp) { AllDone(cmp, a[..], l0, l, u, u0); }
  }

  lemma StartArranged<T(!new)>(cmp: Compare<T>, s: seq<T>, l0: int, u0: int)
    requires 1 <= l0 <= u0 + 1 <= |s|
    ensures Arranged(cmp, s, l0, l0, u0, u0)
  {
  }

  lemma Kept<T(!new)>(s0: seq<T>, s: seq<T>, s': seq<T>, l0: int, l: int, u: int, u0: int)
    requires Shuffled(s0, s, l0, u0) && Shuffled(s, s', l, u) && 0 <= l0 <= l && u <= u0
    ensures Shuffled(s0, s', l0, u0)
  {
    ShuffledWider(s, s', l, u, l0, u0);
  }

  lemma Follows<T(!new)>(cmp: Compare<T>, s0: seq<T>, s: seq<T>, s': seq<T>, l0: int, l: int, u: int, u0: int)
    requires Shuffled(s0, s, l0, u0) && Shuffled(s, s', l, u) && 0 <= l0 <= l && u <= u0
    ensures Shuffled(s0, s', l0, u0)
    ensures Arranged(cmp, s, l0, l, u, u0) ==> Arranged(cmp, s', l0, l, u, u0)
  {
    Kept(s0, s, s', l0, l, u, u0);
    if Arranged(cmp, s, l0, l, u, u0) { ArrangedShuffle(cmp, s, s', l0, l, u, u0); }
  }

  lemma AllDone<T(!new)>(cmp: Compare<T>, s: seq<T>, l0: int, l: int, u: int, u0: int)
    requires Arranged(cmp, s, l0, l, u, u0) && l >= u
    ensures SortedRange(cmp, s, l0, u0)
  {
  }
}
