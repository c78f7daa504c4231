/**
  luaL_ref and luaL_unref: references into a table whose unused slots form a
  free list.
 */
module RefTable {
  import opened Common

  const FREELIST: int := 0
  const REFNIL: int := -1

  /** Values in the table; nil is absence. */
  datatype Value = Number(n: int) | Other(id: nat)

  /** lua_tointeger of a slot. */
  function AsInteger(t: map<int, Value>, k: int): int {
    if k in t && t[k].Number? then t[k].n else 0
  }

  /** A value that lua_objlen may return. */
  ghost predicate IsBorder(t: map<int, Value>, n: nat) {
    (n == 0 || n in t) && n + 1 !in t
  }

  /** Copy a slot; copying nil clears the target. */
  function Copy(t: map<int, Value>, from: int, to: int): map<int, Value> {
    if from in t then t[to := t[from]] else t - {to}
  }

  /** The free slots in the order of the list that starts at t[at]. */
  ghost predicate Chain(t: map<int, Value>, at: int, free: seq<int>)
    decreases free
  {
    if free == [] then at !in t
    else at in t && t[at] == Number(free[0]) && Chain(t, free[0], free[1..])
  }

  /** A chain depends on its own slots only. */
  lemma {:induction false} ChainFrame(t: map<int, Value>, t': map<int, Value>, at: int, free: seq<int>)
    requires Chain(t, at, free)
    requires at in t <==> at in t'
    requires at in t ==> t'[at] == t[at]
    requires forall k :: k in free ==> (k in t <==> k in t') && (k in t ==> t'[k] == t[k])
    ensures Chain(t', at, free)
    decreases free
  {
    if free != [] {
      assert free[0] in free;
      ChainFrame(t, t', free[0], free[1..]);
    }
  }

  ghost predicate Distinct(free: seq<int>) {
    forall i, j :: 0 <= i < j < |free| ==> free[i] != free[j]
  }

  /** Slots 1 to n are either live or on the free list, which is without repetition and leads through exactly
      the unused ones. */
  ghost predicate TableOk(t: map<int, Value>, live: map<int, Value>, free: seq<int>, n: nat) {
    && Chain(t, FREELIST, free) && Distinct(free)
    && (forall k :: k in live ==> 1 <= k <= n && k !in free && k in t && t[k] == live[k])
    && (forall k :: k in free ==> 1 <= k <= n)
    && (forall k :: 1 <= k <= n ==> k in live || k in free)
    && (forall k :: k in t ==> 0 <= k <= n)
  }

  /** With an empty free list the table has exactly one border, behind the last live slot. */
  lemma OneBorder(t: map<int, Value>, live: map<int, Value>, n: nat, border: nat)
    requires TableOk(t, live, [], n) && IsBorder(t, border)
    ensures border == n
  {
    assert border < n ==> border + 1 in live;
  }

  class References {
    var t: map<int, Value>
    ghost var live: map<int, Value>
    ghost var free: seq<int>
    ghost var n: nat

    ghost predicate Valid()
      reads this
    {
      TableOk(t, live, free, n)
    }

    constructor ()
      ensures Valid() && live == map[]
    {
      t, live, free, n := map[], map[], [], 0;
    }

    /** luaL_ref: a reference that is not live, namely the one given back last or the next new one.  The border is what
        lua_objlen would answer. */
    method Ref(v: Option<Value>, border: nat) returns (ref: int)
      requires Valid() && IsBorder(t, border)
      modifies this
      ensures Valid()
      ensures v.None? ==> ref == REFNIL && live == old(live) && free == old(free) && t == old(t)
      ensures v.Some? ==> ref > 0 && ref !in old(live) && live == old(live)[ref := v.value]
      ensures v.Some? ==> if old(free) != [] then ref == old(free)[0] && free == old(free)[1..] && n == old(n)
                          else ref == old(n) + 1 == n && free == []
    {
      if v.None? { return REFNIL; }
      ref := AsInteger(t, FREELIST);
      if free != [] { FirstFree(t, live, free, n); }
      ghost var t0 := t;
      if ref != 0 {
        assert free != [] && free[0] == ref && ref in free;
        t := Copy(t, ref, FREELIST);
        TakeFirst(t0, t[ref := v.value], free);
        Others(free);
        free := free[1..];
      } else {
        OneBorder(t, live, n, border);
        ref := border + 1;
        n := n + 1;
      }
      t := t[ref := v.value];
      live := live[ref := v.value];
    }

    /** luaL_unref of a live reference. */
    method Unref(ref: int)
      requires Valid() && (ref < 0 || ref in live)
      modifies this
      ensures Valid()
      ensures ref < 0 ==> live == old(live) && free == old(free) && t == old(t)
      ensures ref >= 0 ==> live == old(live) - {ref} && free == [ref] + old(free) && n == old(n)
    {
      if ref >= 0 {
        ghost var t0 := t;
        t := Copy(t, FREELIST, ref);
        t := t[FREELIST := Number(ref)];
        PutFirst(t0, t, free, ref);
        free := [ref] + free;
        live := live - {ref};
      }
    }
  }

  lemma FirstFree(t: map<int, Value>, live: map<int, Value>, free: seq<int>, n: nat)
    requires TableOk(t, live, free, n) && free != []
    ensures AsInteger(t, FREELIST) == free[0] > 0
  {
    assert free[0] in free;
  }

  /** The list behind its first slot, once that slot is used. */
  lemma TakeFirst(t: map<int, Value>, t': map<int, Value>, free: seq<int>)
    requires free != [] && Chain(t, FREELIST, free) && Distinct(free) && forall k :: k in free ==> k != FREELIST
    requires forall k :: k != free[0] && k != FREELIST ==> (k in t <==> k in t') && (k in t ==> t'[k] == t[k])
    requires (FREELIST in t' <==> free[0] in t) && (FREELIST in t' ==> t'[FREELIST] == t[free[0]])
    ensures Chain(t', FREELIST, free[1..]) && Distinct(free[1..])
  {
    var rest := free[1..];
    assert Chain(t, free[0], rest);
    if rest != [] {
      forall k | k in rest
        ensures k != free[0] && k in free
      {
        var i :| 0 <= i < |rest| && rest[i] == k;
        assert free[i + 1] == k;
      }
      assert rest[0] in rest;
      ChainFrame(t, t', rest[0], rest[1..]);
    }
  }

  lemma Others(free: seq<int>)
    requires free != [] && Distinct(free)
    ensures forall k :: k in free[1..] <==> k in free && k != free[0]
  {
    forall k | k in free[1..] ensures k in free && k != free[0] {
      var i :| 0 <= i < |free[1..]| && free[1..][i] == k;
      assert free[i + 1] == k;
    }
  }

  lemma PutFirst(t: map<int, Value>, t': map<int, Value>, free: seq<int>, ref: int)
    requires Chain(t, FREELIST, free) && Distinct(free) && ref !in free && ref != FREELIST
             && forall k :: k in free ==> k != FREELIST
    requires t' == Copy(t, FREELIST, ref)[FREELIST := Number(ref)]
    ensures Chain(t', FREELIST, [ref] + free) && Distinct([ref] + free)
  {
    var all := [ref] + free;
    assert all[0] == ref && all[1..] == free;
    if free != [] {
      Others(free);
      assert free[0] in free;
      ChainFrame(t, t', free[0], free[1..]);
    }
    assert Chain(t', ref, free);
  }
}
