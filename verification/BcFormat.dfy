/**
  The format of bytecode dumps: what the writer puts down for a prototype and
  how the reader takes it apart again.
 */
module BcFormat {
  import opened Common
  import opened BcNumbers

  /** A number constant, as the two words of its double. */
  datatype Words = Words(lo: u32, hi: u32)

  /** Conversions between doubles and 32-bit integers: narrow finds the integer a double is equal to, widen is the
      double of an integer. */
  datatype Numbers = Numbers(narrow: Words -> Option<u32>, widen: u32 -> Words)

  datatype Val = Nil | False | True | Num(w: Words) | Str(s: seq<byte>)
  datatype Entry = Entry(key: Val, val: Val)

  /** A template table: its array part, and the slots of its hash part, of which some are unused. */
  datatype Table = Table(slots: seq<Val>, nodes: seq<Entry>)
  datatype Const = KStr(s: seq<byte>) | KTab(t: Table) | KChild(p: Proto)
  datatype Proto = Proto(flags: byte, numparams: byte, framesize: byte, bc: seq<byte>, uv: seq<byte>, kgc: seq<Const>,
                         kn: seq<Words>, firstline: u32, numline: u32, dbg: seq<byte>)

  /** What the reader builds; tables are maps. */
  datatype LoadedTable = LoadedTable(slots: seq<Val>, hash: map<Val, Val>)
  datatype LoadedConst = LStr(s: seq<byte>) | LTab(t: LoadedTable) | LChild(p: Loaded)
  datatype Loaded = Loaded(flags: byte, numparams: byte, framesize: byte, bc: seq<byte>, uv: seq<byte>,
                           kgc: seq<LoadedConst>,
                           kn: seq<Words>, firstline: u32, numline: u32, dbg: seq<byte>)

  const KTAB_INT: nat := 3
  const KTAB_NUM: nat := 4
  const KTAB_STR: nat := 5
  const KGC_CHILD: nat := 0
  const KGC_TAB: nat := 1
  const KGC_STR: nat := 5
  const MAX_MEM: nat := 0x7fff_ff00

  // ---------------------------------------------------------------- blocks of bytes

  /** The next n bytes. */
  function Take(s: seq<byte>, n: nat): Parsed<seq<byte>> {
    if n <= |s| then Got(s[..n], s[n..]) else Bad
  }

  lemma TakeBack(b: seq<byte>, t: seq<byte>)
    ensures Take(b + t, |b|) == Got(b, t)
  {
  }

  // ---------------------------------------------------------------- keys and values of template tables

  /** bcwrite_ktabk. */
  function WriteVal(nums: Numbers, v: Val, narrow: bool): (r: seq<byte>)
  {
    match v
    case Nil => [0]
    case False => [1]
    case True => [2]
    case Num(w) =>
      var k := nums.narrow(w);
      if narrow && k.Some? then [3] + Uleb(k.value) else [4] + Uleb(w.lo) + Uleb(w.hi)
    case Str(b) => Uleb(KTAB_STR + |b|) + b
  }

  /** bcread_ktabk. */
  function ReadVal(nums: Numbers, s: seq<byte>): Parsed<Val> {
    match ReadUleb(s)
    case Bad => Bad
    case Got(tp, t) =>
      if tp >= KTAB_STR then
        match Take(t, tp - KTAB_STR)
        case Bad => Bad
        case Got(b, t1) => Got(Str(b), t1)
      else if tp == KTAB_INT then
        match ReadUleb(t)
        case Bad => Bad
        case Got(k, t1) => Got(Num(nums.widen(k)), t1)
      else if tp == KTAB_NUM then ReadWords(t)
      else Got(if tp == 0 then Nil else if tp == 1 then False else True, t)
  }

  function ReadWords(t: seq<byte>): Parsed<Val> {
    match ReadUleb(t)
    case Bad => Bad
    case Got(lo, t1) =>
      match ReadUleb(t1)
      case Bad => Bad
      case Got(hi, t2) => Got(Num(Words(lo, hi)), t2)
  }

  /** A double that narrows to an integer is the double of that integer; this leaves out -0 only. */
  ghost predicate Exact(nums: Numbers, w: Words) {
    nums.narrow(w).Some? ==> nums.widen(nums.narrow(w).value) == w
  }

  ghost predicate ValOk(nums: Numbers, v: Val) {
    (v.Str? ==> |v.s| + KTAB_STR < 0x1_0000_0000) && (v.Num? ==> Exact(nums, v.w))
  }

  lemma ValRoundTrip(nums: Numbers, v: Val, narrow: bool, t: seq<byte>)
    requires ValOk(nums, v)
    ensures ReadVal(nums, WriteVal(nums, v, narrow) + t) == Got(v, t)
  {
    hide Uleb;
    hide ReadUleb;
    var s := WriteVal(nums, v, narrow) + t;
    match v
    case Nil => SmallCode(0, t);
    case False => SmallCode(1, t);
    case True => SmallCode(2, t);
    case Num(w) =>
      var k := nums.narrow(w);
      if narrow && k.Some? {
        assert s == [3] + (Uleb(k.value) + t);
        SmallCode(3, Uleb(k.value) + t);
        UlebRoundTrip(k.value, t);
      } else {
        assert s == [4] + (Uleb(w.lo) + (Uleb(w.hi) + t));
        SmallCode(4, Uleb(w.lo) + (Uleb(w.hi) + t));
        UlebRoundTrip(w.lo, Uleb(w.hi) + t);
        UlebRoundTrip(w.hi, t);
      }
    case Str(b) =>
      assert s == Uleb(KTAB_STR + |b|) + (b + t);
      UlebRoundTrip(KTAB_STR + |b|, b + t);
      TakeBack(b, t);
  }

  lemma SmallCode(c: byte, t: seq<byte>)
    requires c < 128
    ensures ReadUleb([c] + t) == Got(c, t)
  {
    assert Uleb(c) == [c];
    UlebRoundTrip(c, t);
  }

  // ---------------------------------------------------------------- template tables

  /** The array part without the nils at its end. */
  function Trim(a: seq<Val>): (r: seq<Val>)
    ensures |r| <= |a| && r == a[..|r|] && (r != [] ==> r[|r| - 1] != Nil) && forall i :: |r| <= i < |a| ==> a[i] == Nil
  {
    if a == [] || a[|a| - 1] != Nil then a else Trim(a[..|a| - 1])
  }

  /** The used slots. */
  function Used(nodes: seq<Entry>): (r: seq<Entry>)
    ensures |r| <= |nodes| && forall e :: e in r <==> e in nodes && e.val != Nil
  {
    if nodes == [] then []
    else
      var init, last := nodes[..|nodes| - 1], nodes[|nodes| - 1];
      assert nodes == init + [last];
      if last.val == Nil then Used(init) else Used(init) + [last]
  }

  function WriteVals(nums: Numbers, vs: seq<Val>): seq<byte> {
    if vs == [] then [] else WriteVal(nums, vs[0], true) + WriteVals(nums, vs[1..])
  }

  /** The used slots are written from the last to the first. */
  function WriteEntries(nums: Numbers, es: seq<Entry>): seq<byte> {
    if es == [] then []
    else
      var e := es[|es| - 1];
      WriteVal(nums, e.key, false) + WriteVal(nums, e.val, true) + WriteEntries(nums, es[..|es| - 1])
  }

  ghost predicate TableOk(nums: Numbers, t: Table) {
    && |t.slots| < 0x1_0000_0000 && |t.nodes| < 0x1_0000_0000
    && (forall v :: v in t.slots ==> ValOk(nums, v))
    && (forall e :: e in t.nodes ==> ValOk(nums, e.key) && ValOk(nums, e.val) && !InArray(nums, e.key, |t.slots|))
    && Distinct(Used(t.nodes))
  }

  ghost predicate Distinct(es: seq<Entry>) {
    forall i, j :: 0 <= i < j < |es| ==> es[i].key != es[j].key
  }

  /** Does a key belong to an array part of size n? */
  predicate InArray(nums: Numbers, key: Val, n: nat) {
    key.Num? && nums.narrow(key.w).Some? && nums.narrow(key.w).value < n
  }

  /** bcwrite_ktab. */
  function WriteTable(nums: Numbers, t: Table): seq<byte> {
    var a, es := Trim(t.slots), Used(t.nodes);
    Uleb(|a|) + Uleb(|es|) + WriteVals(nums, a) + WriteEntries(nums, es)
  }

  function ReadVals(nums: Numbers, s: seq<byte>, n: nat): Parsed<seq<Val>>
    decreases n
  {
    if n == 0 then Got([], s)
    else match ReadVal(nums, s)
      case Bad => Bad
      case Got(v, t) =>
        match ReadVals(nums, t, n - 1)
        case Bad => Bad
        case Got(vs, t1) => Got([v] + vs, t1)
  }

  /** lj_tab_set. */
  function Set(nums: Numbers, t: LoadedTable, key: Val, v: Val): LoadedTable {
    if InArray(nums, key, |t.slots|) then t.(slots := t.slots[nums.narrow(key.w).value := v])
    else t.(hash := t.hash[key := v])
  }

  function ReadEntries(nums: Numbers, s: seq<byte>, n: nat, t: LoadedTable): Parsed<LoadedTable>
    decreases n
  {
    if n == 0 then Got(t, s)
    else match ReadVal(nums, s)
      case Bad => Bad
      case Got(key, s1) =>
        match ReadVal(nums, s1)
        case Bad => Bad
        case Got(v, s2) => ReadEntries(nums, s2, n - 1, Set(nums, t, key, v))
  }

  /** bcread_ktab. */
  function ReadTable(nums: Numbers, s: seq<byte>): Parsed<LoadedTable> {
    match ReadUleb(s)
    case Bad => Bad
    case Got(narray, s1) =>
      match ReadUleb(s1)
      case Bad => Bad
      case Got(nhash, s2) =>
        match ReadVals(nums, s2, narray)
        case Bad => Bad
        case Got(a, s3) => ReadEntries(nums, s3, nhash, LoadedTable(a, map[]))
  }

  lemma {:induction false} ValsRoundTrip(nums: Numbers, vs: seq<Val>, t: seq<byte>)
    requires forall v :: v in vs ==> ValOk(nums, v)
    ensures ReadVals(nums, WriteVals(nums, vs) + t, |vs|) == Got(vs, t)
  {
    hide WriteVal;
    hide ReadVal;
    if vs != [] {
      var rest := WriteVals(nums, vs[1..]) + t;
      assert WriteVals(nums, vs) + t == WriteVal(nums, vs[0], true) + rest;
      ValRoundTrip(nums, vs[0], true, rest);
      ValsRoundTrip(nums, vs[1..], t);
      assert [vs[0]] + vs[1..] == vs;
    }
  }

  /** The hash part as a map. */
  function MapOf(es: seq<Entry>): map<Val, Val> {
    if es == [] then map[] else MapOf(es[..|es| - 1])[es[|es| - 1].key := es[|es| - 1].val]
  }

  lemma {:induction false} MapOfKeys(es: seq<Entry>)
    ensures forall k :: k in MapOf(es) <==> exists i :: 0 <= i < |es| && es[i].key == k
    ensures Distinct(es) ==> forall i :: 0 <= i < |es| ==> MapOf(es)[es[i].key] == es[i].val
  {
    if es != [] {
      var init := es[..|es| - 1];
      MapOfKeys(init);
      forall k ensures k in MapOf(es) <==> exists i :: 0 <= i < |es| && es[i].key == k {
        if k in MapOf(init) { var i :| 0 <= i < |init| && init[i].key == k; assert es[i].key == k; }
        if i :| 0 <= i < |es| && es[i].key == k { assert i < |init| ==> init[i].key == k; }
      }
      if Distinct(es) {
        assert Distinct(init);
        forall i | 0 <= i < |es| ensures MapOf(es)[es[i].key] == es[i].val { assert i < |init| ==> es[i] == init[i]; }
      }
    }
  }

  /** Reading the entries from the last to the first gives the same map. */
  lemma {:induction false} EntriesRoundTrip(nums: Numbers, es: seq<Entry>, t: seq<byte>, lt: LoadedTable)
    requires forall e :: e in es ==> ValOk(nums, e.key) && ValOk(nums, e.val) && !InArray(nums, e.key, |lt.slots|)
    requires Distinct(es) && forall e :: e in es ==> e.key !in lt.hash
    ensures ReadEntries(nums, WriteEntries(nums, es) + t, |es|, lt) == Got(lt.(hash := MapOf(es) + lt.hash), t)
  {
    hide WriteVal;
    hide ReadVal;
    if es == [] {
      assert map[] + lt.hash == lt.hash;
    } else {
      var init, e := es[..|es| - 1], es[|es| - 1];
      var rest := WriteEntries(nums, init) + t;
      assert e in es && forall d :: d in init ==> d in es;
      assert WriteEntries(nums, es) + t == WriteVal(nums, e.key, false) + (WriteVal(nums, e.val, true) + rest);
      ValRoundTrip(nums, e.key, false, WriteVal(nums, e.val, true) + rest);
      ValRoundTrip(nums, e.val, true, rest);
      var lt' := lt.(hash := lt.hash[e.key := e.val]);
      assert Set(nums, lt, e.key, e.val) == lt';
      InsertLast(es, lt.hash);
      hide Distinct;
      hide MapOf;
      hide WriteEntries;
      EntriesRoundTrip(nums, init, t, lt');
    }
  }

  lemma InsertLast(es: seq<Entry>, m: map<Val, Val>)
    requires es != [] && Distinct(es) && forall e :: e in es ==> e.key !in m
    ensures var init, e := es[..|es| - 1], es[|es| - 1];
            && Distinct(init) && (forall d :: d in init ==> d.key !in m[e.key := e.val])
            && MapOf(init) + m[e.key := e.val] == MapOf(es) + m
  {
    var init, e := es[..|es| - 1], es[|es| - 1];
    forall d | d in init ensures d.key !in m[e.key := e.val] {
      var i :| 0 <= i < |init| && init[i] == d;
      assert es[i].key != e.key && es[i] in es;
    }
    MapOfKeys(init);
    assert e.key !in MapOf(init);
  }

  /** A table as the reader builds it. */
  function LoadTable(t: Table): LoadedTable {
    LoadedTable(Trim(t.slots), MapOf(Used(t.nodes)))
  }

  lemma TableRoundTrip(nums: Numbers, t: Table, u: seq<byte>)
    requires TableOk(nums, t)
    ensures ReadTable(nums, WriteTable(nums, t) + u) == Got(LoadTable(t), u)
  {
    hide Uleb;
    hide ReadUleb;
    hide WriteVals;
    hide ReadVals;
    hide WriteEntries;
    hide ReadEntries;
    var a, es := Trim(t.slots), Used(t.nodes);
    var s3 := WriteEntries(nums, es) + u;
    var s2 := WriteVals(nums, a) + s3;
    var s1 := Uleb(|es|) + s2;
    assert WriteTable(nums, t) + u == Uleb(|a|) + s1;
    UlebRoundTrip(|a|, s1);
    UlebRoundTrip(|es|, s2);
    ValsRoundTrip(nums, a, s3);
    var lt := LoadedTable(a, map[]);
    EntriesRoundTrip(nums, es, u, lt);
    assert MapOf(es) + map[] == MapOf(es);
  }

  /** The map has exactly the used slots. */
  lemma LoadedHash(nums: Numbers, t: Table, k: Val)
    requires TableOk(nums, t)
    ensures k in LoadTable(t).hash <==> exists e :: e in t.nodes && e.val != Nil && e.key == k
    ensures forall e :: e in t.nodes && e.val != Nil ==> e.key in LoadTable(t).hash && LoadTable(t).hash[e.key] == e.val
  {
    var es := Used(t.nodes);
    MapOfKeys(es);
    if i :| 0 <= i < |es| && es[i].key == k { assert es[i] in es; }
    forall e | e in t.nodes && e.val != Nil ensures e.key in LoadTable(t).hash && LoadTable(t).hash[e.key] == e.val {
      var i :| 0 <= i < |es| && es[i] == e;
    }
  }
}
