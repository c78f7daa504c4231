/**
  Which bytes are a dump: the format as relations between bytes and what they
  stand for, and the reader's functions as the search for the only reading.
 */
module BcGrammar {
  import opened Common
  import opened BcNumbers
  import opened BcFormat
  import opened BcProto

  // ---------------------------------------------------------------- numbers

  /** All bytes but the last have the top bit. */
  predicate Chain(b: seq<byte>) {
    && b != [] && b[|b| - 1] < 128
    && forall i :: 0 <= i < |b| - 1 ==> b[i] >= 128
  }

  /** Seven bits of each byte, the lowest first. */
  function Value(b: seq<byte>): nat {
    if b == [] then 0 else b[0] % 128 + 128 * Value(b[1..])
  }

  /** One to five bytes that stand for v; leading zeros are allowed, and what exceeds 32 bits is lost. */
  predicate Number(b: seq<byte>, v: nat) {
    Chain(b) && |b| <= 5 && v == Value(b) % 0x1_0000_0000
  }

  /** The same with one bit more, the lowest, which is not part of k. */
  predicate Number33(b: seq<byte>, low: nat, k: nat) {
    Chain(b) && |b| <= 5 && low == Value(b) % 2 && k == Value(b) / 2 % 0x1_0000_0000
  }

  lemma Accumulate(v: nat, d: nat, scale: nat, more: nat)
    ensures ((v + d * scale) % 0x1_0000_0000 + more * (scale * 128)) % 0x1_0000_0000
            == (v + (d + 128 * more) * scale) % 0x1_0000_0000
  {
    var x := v + d * scale;
    var y := more * (scale * 128);
    assert v + (d + 128 * more) * scale == x + y;
    assert (x % 0x1_0000_0000 + y) % 0x1_0000_0000 == (x + y) % 0x1_0000_0000;
  }

  /** What has been read is a number of at most max bytes. */
  lemma {:induction false} MoreFinds(s: seq<byte>, v: u32, scale: nat, max: nat) returns (b: seq<byte>)
    requires MoreUleb(s, v, scale, max).Got?
    ensures var r := MoreUleb(s, v, scale, max);
            s == b + r.rest && Chain(b) && |b| <= max && r.value == (v + Value(b) * scale) % 0x1_0000_0000
  {
    var d := s[0] % 128;
    var v' := (v + d * scale) % 0x1_0000_0000;
    if s[0] >= 128 {
      var c := MoreFinds(s[1..], v', scale * 128, max - 1);
      b := [s[0]] + c;
      assert b[1..] == c && Chain(b);
      Accumulate(v, d, scale, Value(c));
    } else {
      b := [s[0]];
      assert b[1..] == [];
      assert Value(b) == d;
    }
  }

  /** A number is read, whatever follows. */
  lemma {:induction false} MoreReads(b: seq<byte>, t: seq<byte>, v: u32, scale: nat, max: nat)
    requires Chain(b) && |b| <= max
    ensures MoreUleb(b + t, v, scale, max) == Got((v + Value(b) * scale) % 0x1_0000_0000, t)
  {
    var d := b[0] % 128;
    assert (b + t)[1..] == b[1..] + t;
    if |b| > 1 {
      var c := b[1..];
      assert Chain(c) by { assert forall i :: 0 <= i < |c| - 1 ==> c[i] == b[i + 1]; }
      MoreReads(c, t, (v + d * scale) % 0x1_0000_0000, scale * 128, max - 1);
      Accumulate(v, d, scale, Value(c));
    } else {
      assert b[1..] == [];
      assert Value(b) == d && [] + t == t;
    }
  }

  lemma UlebFinds(s: seq<byte>) returns (b: seq<byte>)
    requires ReadUleb(s).Got?
    ensures s == b + ReadUleb(s).rest && Number(b, ReadUleb(s).value)
  {
    b := MoreFinds(s, 0, 1, 5);
  }

  lemma UlebReads(b: seq<byte>, v: nat, t: seq<byte>)
    requires Number(b, v)
    ensures ReadUleb(b + t) == Got(v, t)
  {
    MoreReads(b, t, 0, 1, 5);
  }

  /** The value of a byte string without its lowest bit. */
  lemma WithoutLow(b: seq<byte>)
    requires b != []
    ensures Value(b) % 2 == b[0] % 2 && Value(b) / 2 == b[0] % 128 / 2 + 64 * Value(b[1..])
  {
  }

  lemma Uleb33Finds(s: seq<byte>) returns (b: seq<byte>)
    requires ReadUleb33(s).Got?
    ensures s == b + ReadUleb33(s).rest && b != [] && Number33(b, s[0] % 2, ReadUleb33(s).value)
  {
    if s[0] < 128 {
      b := [s[0]];
    } else {
      var c := MoreFinds(s[1..], s[0] % 128 / 2, 64, 4);
      b := [s[0]] + c;
      assert b[1..] == c && Chain(b);
    }
    WithoutLow(b);
  }

  lemma Uleb33Reads(b: seq<byte>, low: nat, k: nat, t: seq<byte>)
    requires Number33(b, low, k)
    ensures ReadUleb33(b + t) == Got(k, t) && b != [] && (b + t)[0] % 2 == low
  {
    WithoutLow(b);
    assert (b + t)[1..] == b[1..] + t;
    if |b| > 1 {
      var c := b[1..];
      assert Chain(c) by { assert forall i :: 0 <= i < |c| - 1 ==> c[i] == b[i + 1]; }
      MoreReads(c, t, b[0] % 128 / 2, 64, 4);
    } else {
      assert b[1..] == [];
      assert [] + t == t;
    }
  }

  // ---------------------------------------------------------------- template tables

  /** The bytes of a key or a value. */
  ghost predicate ValCode(nums: Numbers, b: seq<byte>, v: Val) {
    match v
    case Nil => Number(b, 0)
    case False => Number(b, 1)
    case True => Number(b, 2)
    case Num(w) => IntCode(nums, b, w) || WordsCode(b, w)
    case Str(x) => TextCode(b, KTAB_STR, x)
  }

  ghost predicate IntCode(nums: Numbers, b: seq<byte>, w: Words) {
    exists a, c, k: u32 :: b == a + c && Number(a, KTAB_INT) && Number(c, k) && w == nums.widen(k)
  }

  ghost predicate WordsCode(b: seq<byte>, w: Words) {
    exists a, c, d :: b == a + (c + d) && Number(a, KTAB_NUM) && Number(c, w.lo) && Number(d, w.hi)
  }

  /** A number that tells the length of the string behind it. */
  ghost predicate TextCode(b: seq<byte>, base: nat, x: seq<byte>) {
    exists a :: b == a + x && Number(a, base + |x|)
  }

  ghost predicate ValsCode(nums: Numbers, b: seq<byte>, vs: seq<Val>)
    decreases |vs|
  {
    if vs == [] then b == []
    else exists a, c :: b == a + c && ValCode(nums, a, vs[0]) && ValsCode(nums, c, vs[1..])
  }

  ghost predicate EntriesCode(nums: Numbers, b: seq<byte>, es: seq<Entry>)
    decreases |es|
  {
    if es == [] then b == []
    else exists a, c, d ::
        b == a + (c + d) && ValCode(nums, a, es[0].key) && ValCode(nums, c, es[0].val) && EntriesCode(nums, d, es[1..])
  }

  /** A table with more entries. */
  function Filled(nums: Numbers, t: LoadedTable, es: seq<Entry>): LoadedTable
    decreases |es|
  {
    if es == [] then t else Filled(nums, Set(nums, t, es[0].key, es[0].val), es[1..])
  }

  /** The two sizes, the array part, the entries. */
  ghost predicate TableCode(nums: Numbers, b: seq<byte>, t: LoadedTable) {
    exists na, nh, a, e, slots, es ::
      && b == na + (nh + (a + e)) && Number(na, |slots|) && Number(nh, |es|)
      && ValsCode(nums, a, slots) && EntriesCode(nums, e, es) && t == Filled(nums, LoadedTable(slots, map[]), es)
  }

  lemma ValFinds(nums: Numbers, s: seq<byte>) returns (b: seq<byte>)
    requires ReadVal(nums, s).Got?
    ensures s == b + ReadVal(nums, s).rest && ValCode(nums, b, ReadVal(nums, s).value)
  {
    hide ReadUleb;
    hide Number;
    var a := UlebFinds(s);
    var tp, t := ReadUleb(s).value, ReadUleb(s).rest;
    if tp >= KTAB_STR {
      var x := t[..tp - KTAB_STR];
      b := a + x;
      assert s == b + t[tp - KTAB_STR..];
      assert TextCode(b, KTAB_STR, x);
    } else if tp == KTAB_INT {
      var c := UlebFinds(t);
      b := a + c;
      var k := ReadUleb(t).value;
      assert Number(a, KTAB_INT) && Number(c, k);
      assert IntCode(nums, b, nums.widen(k));
    } else if tp == KTAB_NUM {
      var c := UlebFinds(t);
      var d := UlebFinds(ReadUleb(t).rest);
      b := a + (c + d);
      assert WordsCode(b, ReadVal(nums, s).value.w);
    } else {
      b := a;
    }
  }

  lemma ValReads(nums: Numbers, b: seq<byte>, v: Val, t: seq<byte>)
    requires ValCode(nums, b, v)
    ensures ReadVal(nums, b + t) == Got(v, t)
  {
    hide ReadUleb;
    hide Number;
    match v
    case Nil => UlebReads(b, 0, t);
    case False => UlebReads(b, 1, t);
    case True => UlebReads(b, 2, t);
    case Num(w) =>
      if IntCode(nums, b, w) { IntReads(nums, b, w, t); } else { WordsReads(nums, b, w, t); }
    case Str(x) =>
      var a :| b == a + x && Number(a, KTAB_STR + |x|);
      assert b + t == a + (x + t);
      UlebReads(a, KTAB_STR + |x|, x + t);
      TakeBack(x, t);
  }

  lemma IntReads(nums: Numbers, b: seq<byte>, w: Words, t: seq<byte>)
    requires IntCode(nums, b, w)
    ensures ReadVal(nums, b + t) == Got(Num(w), t)
  {
    hide ReadUleb;
    hide Number;
    var a, c, k: u32 :| b == a + c && Number(a, KTAB_INT) && Number(c, k) && w == nums.widen(k);
    assert b + t == a + (c + t);
    UlebReads(a, KTAB_INT, c + t);
    UlebReads(c, k, t);
  }

  lemma WordsReads(nums: Numbers, b: seq<byte>, w: Words, t: seq<byte>)
    requires WordsCode(b, w)
    ensures ReadVal(nums, b + t) == Got(Num(w), t)
  {
    hide ReadUleb;
    hide Number;
    var a, c, d :| b == a + (c + d) && Number(a, KTAB_NUM) && Number(c, w.lo) && Number(d, w.hi);
    assert b + t == a + (c + (d + t));
    UlebReads(a, KTAB_NUM, c + (d + t));
    UlebReads(c, w.lo, d + t);
    UlebReads(d, w.hi, t);
  }

  lemma {:induction false} ValsFinds(nums: Numbers, s: seq<byte>, n: nat) returns (b: seq<byte>)
    requires ReadVals(nums, s, n).Got?
    ensures var r := ReadVals(nums, s, n); s == b + r.rest && |r.value| == n && ValsCode(nums, b, r.value)
    decreases n
  {
    hide ReadVal;
    hide ValCode;
    b := [];
    if n > 0 {
      var a := ValFinds(nums, s);
      var t := ReadVal(nums, s).rest;
      var c := ValsFinds(nums, t, n - 1);
      b := a + c;
      var vs := ReadVals(nums, s, n).value;
      assert vs[1..] == ReadVals(nums, t, n - 1).value;
      assert ValCode(nums, a, vs[0]) && ValsCode(nums, c, vs[1..]);
    }
  }

  lemma {:induction false} ValsReads(nums: Numbers, b: seq<byte>, vs: seq<Val>, t: seq<byte>)
    requires ValsCode(nums, b, vs)
    ensures ReadVals(nums, b + t, |vs|) == Got(vs, t)
    decreases |vs|
  {
    hide ReadVal;
    hide ValCode;
    if vs == [] {
      assert [] + t == t;
    } else {
      var a, c :| b == a + c && ValCode(nums, a, vs[0]) && ValsCode(nums, c, vs[1..]);
      assert b + t == a + (c + t);
      ValReads(nums, a, vs[0], c + t);
      ValsReads(nums, c, vs[1..], t);
      assert [vs[0]] + vs[1..] == vs;
    }
  }

  lemma {:induction false} EntriesFinds(nums: Numbers, s: seq<byte>, n: nat, t: LoadedTable)
    returns (b: seq<byte>, es: seq<Entry>)
    requires ReadEntries(nums, s, n, t).Got?
    ensures var r := ReadEntries(nums, s, n, t);
            s == b + r.rest && |es| == n && EntriesCode(nums, b, es) && r.value == Filled(nums, t, es)
    decreases n
  {
    hide ReadVal;
    hide ValCode;
    hide Set;
    b, es := [], [];
    if n > 0 {
      var a := ValFinds(nums, s);
      var key, s1 := ReadVal(nums, s).value, ReadVal(nums, s).rest;
      var c := ValFinds(nums, s1);
      var v, s2 := ReadVal(nums, s1).value, ReadVal(nums, s1).rest;
      var d, more := EntriesFinds(nums, s2, n - 1, Set(nums, t, key, v));
      b, es := a + (c + d), [Entry(key, v)] + more;
      assert es[1..] == more;
      assert ValCode(nums, a, es[0].key) && ValCode(nums, c, es[0].val) && EntriesCode(nums, d, es[1..]);
    }
  }

  lemma {:induction false} EntriesReads(nums: Numbers, b: seq<byte>, es: seq<Entry>, t: LoadedTable, u: seq<byte>)
    requires EntriesCode(nums, b, es)
    ensures ReadEntries(nums, b + u, |es|, t) == Got(Filled(nums, t, es), u)
    decreases |es|
  {
    hide ReadVal;
    hide ValCode;
    hide Set;
    if es == [] {
      assert [] + u == u;
    } else {
      var a, c, d :| b == a + (c + d) && ValCode(nums, a, es[0].key) && ValCode(nums, c, es[0].val)
          && EntriesCode(nums, d, es[1..]);
      assert b + u == a + (c + (d + u));
      ValReads(nums, a, es[0].key, c + (d + u));
      ValReads(nums, c, es[0].val, d + u);
      EntriesReads(nums, d, es[1..], Set(nums, t, es[0].key, es[0].val), u);
    }
  }

  lemma TableFinds(nums: Numbers, s: seq<byte>) returns (b: seq<byte>)
    requires ReadTable(nums, s).Got?
    ensures s == b + ReadTable(nums, s).rest && TableCode(nums, b, ReadTable(nums, s).value)
  {
    hide ReadUleb;
    hide Number;
    hide ReadVals;
    hide ReadEntries;
    hide ValsCode;
    hide EntriesCode;
    hide Filled;
    var na := UlebFinds(s);
    var narray, s1 := ReadUleb(s).value, ReadUleb(s).rest;
    var nh := UlebFinds(s1);
    var nhash, s2 := ReadUleb(s1).value, ReadUleb(s1).rest;
    var a := ValsFinds(nums, s2, narray);
    var slots, s3 := ReadVals(nums, s2, narray).value, ReadVals(nums, s2, narray).rest;
    var e, es := EntriesFinds(nums, s3, nhash, LoadedTable(slots, map[]));
    b := na + (nh + (a + e));
    assert Number(na, |slots|) && Number(nh, |es|) && ValsCode(nums, a, slots) && EntriesCode(nums, e, es);
  }

  lemma TableReads(nums: Numbers, b: seq<byte>, t: LoadedTable, u: seq<byte>)
    requires TableCode(nums, b, t)
    ensures ReadTable(nums, b + u) == Got(t, u)
  {
    hide ReadUleb;
    hide Number;
    hide ReadVals;
    hide ReadEntries;
    hide ValsCode;
    hide EntriesCode;
    hide Filled;
    var na, nh, a, e, slots, es :| b == na + (nh + (a + e)) && Number(na, |slots|) && Number(nh, |es|)
        && ValsCode(nums, a, slots) && EntriesCode(nums, e, es) && t == Filled(nums, LoadedTable(slots, map[]), es);
    hide TableCode;
    Regroup(na, nh, a, e, u);
    PartsRead(nums, na, nh, a, e, slots, es, u);
  }

  lemma Regroup(a: seq<byte>, b: seq<byte>, c: seq<byte>, d: seq<byte>, t: seq<byte>)
    ensures a + (b + (c + d)) + t == a + (b + (c + (d + t)))
  {
  }

  lemma PartsRead(nums: Numbers, na: seq<byte>, nh: seq<byte>, a: seq<byte>, e: seq<byte>, slots: seq<Val>,
                  es: seq<Entry>, u: seq<byte>)
    requires Number(na, |slots|) && Number(nh, |es|) && ValsCode(nums, a, slots) && EntriesCode(nums, e, es)
    ensures ReadTable(nums, na + (nh + (a + (e + u)))) == Got(Filled(nums, LoadedTable(slots, map[]), es), u)
  {
    hide ReadUleb;
    hide Number;
    hide ReadVals;
    hide ReadEntries;
    hide ValsCode;
    hide EntriesCode;
    hide Filled;
    UlebReads(na, |slots|, nh + (a + (e + u)));
    UlebReads(nh, |es|, a + (e + u));
    ValsReads(nums, a, slots, e + u);
    EntriesReads(nums, e, es, LoadedTable(slots, map[]), u);
  }

  // ---------------------------------------------------------------- constants

  /** The bytes of a constant; those of a child stand elsewhere. */
  ghost predicate ConstCode(nums: Numbers, b: seq<byte>, c: LoadedConst) {
    match c
    case LStr(x) => TextCode(b, KGC_STR, x)
    case LTab(t) => exists a, d :: b == a + d && Number(a, KGC_TAB) && TableCode(nums, d, t)
    case LChild(_) => Number(b, KGC_CHILD)
  }

  ghost predicate ConstsCode(nums: Numbers, b: seq<byte>, ks: seq<LoadedConst>)
    decreases |ks|
  {
    if ks == [] then b == []
    else exists a, c :: b == a + c && ConstCode(nums, a, ks[0]) && ConstsCode(nums, c, ks[1..])
  }

  /** The children of some constants, in the order in which they lie on the stack: the first one on top. */
  function Kids(ks: seq<LoadedConst>): seq<Loaded> {
    if ks == [] then [] else Kids(ks[1..]) + Kid(ks[0])
  }

  function Kid(c: LoadedConst): seq<Loaded> {
    if c.LChild? then [c.p] else []
  }

  /** A number: the one of 33 bits is an integer, or the low word with the high one behind it. */
  ghost predicate NumCode(nums: Numbers, b: seq<byte>, w: Words) {
    || (exists k: u32 :: Number33(b, 0, k) && w == nums.widen(k))
    || (exists a, c :: b == a + c && Number33(a, 1, w.lo) && Number(c, w.hi))
  }

  ghost predicate NumsCode(nums: Numbers, b: seq<byte>, ws: seq<Words>)
    decreases |ws|
  {
    if ws == [] then b == []
    else exists a, c :: b == a + c && NumCode(nums, a, ws[0]) && NumsCode(nums, c, ws[1..])
  }

  /** One constant is read. */
  lemma ConstFinds(nums: Numbers, s: seq<byte>, n: nat, stack: seq<Loaded>)
    returns (a: seq<byte>, c: LoadedConst, t: seq<byte>, stack': seq<Loaded>)
    requires n > 0 && ReadConsts(nums, s, n, stack).Got?
    ensures s == a + t && ConstCode(nums, a, c) && stack == stack' + Kid(c)
    ensures ReadConsts(nums, s, n, stack) == Before(c, ReadConsts(nums, t, n - 1, stack'))
  {
    hide ReadUleb;
    hide Number;
    hide ReadTable;
    hide TableCode;
    a := UlebFinds(s);
    var tp, u := ReadUleb(s).value, ReadUleb(s).rest;
    stack' := stack;
    if tp >= KGC_STR {
      var x := u[..tp - KGC_STR];
      c, t := LStr(x), u[tp - KGC_STR..];
      assert Number(a, KGC_STR + |x|);
      a := a + x;
      assert TextCode(a, KGC_STR, x);
    } else if tp == KGC_TAB {
      var d := TableFinds(nums, u);
      c, t := LTab(ReadTable(nums, u).value), ReadTable(nums, u).rest;
      assert Number(a, KGC_TAB) && TableCode(nums, d, c.t);
      a := a + d;
    } else {
      c, t, stack' := LChild(stack[|stack| - 1]), u, stack[..|stack| - 1];
    }
  }

  lemma {:induction false} ConstsFinds(nums: Numbers, s: seq<byte>, n: nat, stack: seq<Loaded>) returns (b: seq<byte>)
    requires ReadConsts(nums, s, n, stack).Got?
    ensures var r := ReadConsts(nums, s, n, stack);
            && s == b + r.rest && |r.value.consts| == n && ConstsCode(nums, b, r.value.consts)
            && stack == r.value.stack + Kids(r.value.consts)
    decreases n
  {
    hide ConstCode;
    hide ConstsCode;
    hide Kid;
    hide Kids;
    hide ReadConsts;
    if n == 0 {
      b := [];
      ReadNone(nums, s, stack);
      NoConst(nums, stack);
    } else {
      var a, k, t, stack' := ConstFinds(nums, s, n, stack);
      var c := ConstsFinds(nums, t, n - 1, stack');
      b := a + c;
      var r := ReadConsts(nums, t, n - 1, stack').value;
      assert s == b + ReadConsts(nums, t, n - 1, stack').rest;
      ConstFirst(nums, a, k, c, r.consts, r.stack);
    }
  }

  lemma NoConst(nums: Numbers, stack: seq<Loaded>)
    ensures ConstsCode(nums, [], []) && stack == stack + Kids([])
  {
  }

  lemma ConstFirst(nums: Numbers, a: seq<byte>, k: LoadedConst, c: seq<byte>, ks: seq<LoadedConst>, stack: seq<Loaded>)
    requires ConstCode(nums, a, k) && ConstsCode(nums, c, ks)
    ensures ConstsCode(nums, a + c, [k] + ks) && stack + Kids(ks) + Kid(k) == stack + Kids([k] + ks)
  {
    hide ConstCode;
    hide Kid;
    var all := [k] + ks;
    assert all[1..] == ks;
    assert ConstCode(nums, a, all[0]) && ConstsCode(nums, c, all[1..]);
  }

  lemma ConstReads(nums: Numbers, a: seq<byte>, c: LoadedConst, t: seq<byte>, n: nat, stack: seq<Loaded>)
    requires n > 0 && ConstCode(nums, a, c)
    ensures ReadConsts(nums, a + t, n, stack + Kid(c)) == Before(c, ReadConsts(nums, t, n - 1, stack))
  {
    hide ReadUleb;
    hide Number;
    hide ReadTable;
    hide TableCode;
    match c
    case LStr(x) =>
      var d :| a == d + x && Number(d, KGC_STR + |x|);
      assert a + t == d + (x + t);
      UlebReads(d, KGC_STR + |x|, x + t);
      TakeBack(x, t);
      assert stack + [] == stack;
    case LTab(l) =>
      var e, d :| a == e + d && Number(e, KGC_TAB) && TableCode(nums, d, l);
      assert a + t == e + (d + t);
      UlebReads(e, KGC_TAB, d + t);
      TableReads(nums, d, l, t);
      assert stack + [] == stack;
    case LChild(p) =>
      UlebReads(a, KGC_CHILD, t);
      assert (stack + [p])[..|stack|] == stack;
  }

  lemma {:induction false} ConstsReads(nums: Numbers, b: seq<byte>, ks: seq<LoadedConst>, t: seq<byte>,
                                       stack: seq<Loaded>)
    requires ConstsCode(nums, b, ks)
    ensures ReadConsts(nums, b + t, |ks|, stack + Kids(ks)) == Got(WithStack(ks, stack), t)
    decreases |ks|
  {
    hide ConstCode;
    hide Kid;
    if ks == [] {
      assert [] + t == t && stack + [] == stack;
    } else {
      hide ReadConsts;
      var a, c :| b == a + c && ConstCode(nums, a, ks[0]) && ConstsCode(nums, c, ks[1..]);
      hide ConstsCode;
      assert b + t == a + (c + t);
      assert stack + Kids(ks) == stack + Kids(ks[1..]) + Kid(ks[0]);
      hide Kids;
      ConstReads(nums, a, ks[0], c + t, |ks|, stack + Kids(ks[1..]));
      ConstsReads(nums, c, ks[1..], t, stack);
      assert [ks[0]] + ks[1..] == ks;
    }
  }

  lemma NumFinds(nums: Numbers, s: seq<byte>) returns (b: seq<byte>)
    requires ReadNum(nums, s).Got?
    ensures s == b + ReadNum(nums, s).rest && NumCode(nums, b, ReadNum(nums, s).value)
  {
    hide ReadUleb;
    hide ReadUleb33;
    hide Number;
    hide Number33;
    b := Uleb33Finds(s);
    var k, t := ReadUleb33(s).value, ReadUleb33(s).rest;
    if s[0] % 2 == 1 {
      var c := UlebFinds(t);
      assert Number33(b, 1, k) && Number(c, ReadUleb(t).value);
      b := b + c;
    } else {
      assert Number33(b, 0, k);
    }
  }

  lemma NumReads(nums: Numbers, b: seq<byte>, w: Words, t: seq<byte>)
    requires NumCode(nums, b, w)
    ensures ReadNum(nums, b + t) == Got(w, t)
  {
    hide ReadUleb;
    hide ReadUleb33;
    hide Number;
    hide Number33;
    if k: u32 :| Number33(b, 0, k) && w == nums.widen(k) {
      Uleb33Reads(b, 0, k, t);
    } else {
      var a, c :| b == a + c && Number33(a, 1, w.lo) && Number(c, w.hi);
      assert b + t == a + (c + t);
      Uleb33Reads(a, 1, w.lo, c + t);
      UlebReads(c, w.hi, t);
    }
  }

  lemma {:induction false} NumsFinds(nums: Numbers, s: seq<byte>, n: nat) returns (b: seq<byte>)
    requires ReadNums(nums, s, n).Got?
    ensures var r := ReadNums(nums, s, n); s == b + r.rest && |r.value| == n && NumsCode(nums, b, r.value)
    decreases n
  {
    hide ReadNum;
    hide NumCode;
    b := [];
    if n > 0 {
      var a := NumFinds(nums, s);
      var t := ReadNum(nums, s).rest;
      var c := NumsFinds(nums, t, n - 1);
      b := a + c;
      var ws := ReadNums(nums, s, n).value;
      assert ws[1..] == ReadNums(nums, t, n - 1).value;
      assert NumCode(nums, a, ws[0]) && NumsCode(nums, c, ws[1..]);
    }
  }

  lemma {:induction false} NumsReads(nums: Numbers, b: seq<byte>, ws: seq<Words>, t: seq<byte>)
    requires NumsCode(nums, b, ws)
    ensures ReadNums(nums, b + t, |ws|) == Got(ws, t)
    decreases |ws|
  {
    hide ReadNum;
    hide NumCode;
    if ws == [] {
      assert [] + t == t;
    } else {
      var a, c :| b == a + c && NumCode(nums, a, ws[0]) && NumsCode(nums, c, ws[1..]);
      assert b + t == a + (c + t);
      NumReads(nums, a, ws[0], c + t);
      NumsReads(nums, c, ws[1..], t);
      assert [ws[0]] + ws[1..] == ws;
    }
  }

  // ---------------------------------------------------------------- bodies

  /** The parts of a body that take numbers: three sizes, the debug numbers, the constants. */
  datatype Layout = Layout(sizekgc: seq<byte>, sizekn: seq<byte>, sizebc: seq<byte>, debug: seq<byte>, kgc: seq<byte>,
                           kn: seq<byte>)

  /** Nothing at all, or the size of the debug information, with two line numbers unless it is zero. */
  ghost predicate DebugCode(b: seq<byte>, size: nat, firstline: nat, numline: nat, strip: bool) {
    if strip then b == [] && size == firstline == numline == 0
    else if size == 0 then Number(b, 0) && firstline == numline == 0
    else exists a, c, d :: b == a + (c + d) && Number(a, size) && Number(c, firstline) && Number(d, numline)
  }

  ghost predicate Sizes(l: Layout, kgc: nat, kn: nat, bc: nat) {
    Number(l.sizekgc, kgc) && Number(l.sizekn, kn) && Number(l.sizebc, bc)
  }

  ghost predicate LayoutOf(nums: Numbers, l: Layout, p: Loaded, strip: bool) {
    && |p.bc| % 4 == 0 && |p.uv| % 2 == 0 && |p.uv| < 512
    && Sizes(l, |p.kgc|, |p.kn|, |p.bc| / 4) && DebugCode(l.debug, |p.dbg|, p.firstline, p.numline, strip)
    && ConstsCode(nums, l.kgc, p.kgc) && NumsCode(nums, l.kn, p.kn)
  }

  /** Four bytes, the sizes, the debug numbers. */
  function HeadText(l: Layout, flags: byte, numparams: byte, framesize: byte, sizeuv: byte): seq<byte> {
    [flags, numparams, framesize, sizeuv] + (l.sizekgc + (l.sizekn + (l.sizebc + l.debug)))
  }

  function BodyText(l: Layout, p: Loaded): seq<byte> {
    HeadText(l, p.flags, p.numparams, p.framesize, |p.uv| / 2 % 256) + (p.bc + (p.uv + (l.kgc + (l.kn + p.dbg))))
  }

  /** The bytes of a prototype without its children, all of them. */
  ghost predicate BodyCode(nums: Numbers, b: seq<byte>, p: Loaded, strip: bool) {
    exists l :: LayoutOf(nums, l, p, strip) && b == BodyText(l, p)
  }

  lemma DebugFinds(h: Head, s: seq<byte>, strip: bool) returns (b: seq<byte>)
    requires ReadDebugHead(h, s, strip).Got? && h.sizedbg == h.firstline == h.numline == 0
    ensures var r := ReadDebugHead(h, s, strip);
            && s == b + r.rest && DebugCode(b, r.value.sizedbg, r.value.firstline, r.value.numline, strip)
            && r.value == h.(sizedbg := r.value.sizedbg, firstline := r.value.firstline, numline := r.value.numline)
  {
    hide ReadUleb;
    hide Number;
    b := [];
    if !strip {
      b := UlebFinds(s);
      var size, t := ReadUleb(s).value, ReadUleb(s).rest;
      if size > 0 {
        var c := UlebFinds(t);
        var firstline, u := ReadUleb(t).value, ReadUleb(t).rest;
        var d := UlebFinds(u);
        assert Number(b, size) && Number(c, firstline) && Number(d, ReadUleb(u).value);
        b := b + (c + d);
      }
    }
  }

  lemma DebugReads(h: Head, b: seq<byte>, t: seq<byte>, strip: bool, size: u32, firstline: u32, numline: u32)
    requires DebugCode(b, size, firstline, numline, strip) && h.sizedbg == h.firstline == h.numline == 0
    ensures ReadDebugHead(h, b + t, strip)
            == Got(h.(sizedbg := size, firstline := firstline, numline := numline), t)
  {
    hide ReadUleb;
    hide Number;
    if strip {
      assert [] + t == t;
    } else if size == 0 {
      UlebReads(b, 0, t);
    } else {
      var a, c, d :| b == a + (c + d) && Number(a, size) && Number(c, firstline) && Number(d, numline);
      assert b + t == a + (c + (d + t));
      UlebReads(a, size, c + (d + t));
      UlebReads(c, firstline, d + t);
      UlebReads(d, numline, t);
    }
  }

  lemma HeadFinds(s: seq<byte>, strip: bool) returns (l: Layout)
    requires ReadHead(s, strip).Got?
    ensures var r := ReadHead(s, strip);
            var h := r.value;
            && s == HeadText(l, h.flags, h.numparams, h.framesize, h.sizeuv) + r.rest
            && Sizes(l, h.sizekgc, h.sizekn, h.sizebc) && DebugCode(l.debug, h.sizedbg, h.firstline, h.numline, strip)
  {
    hide ReadUleb;
    hide Number;
    hide ReadDebugHead;
    hide DebugCode;
    var k := UlebFinds(s[4..]);
    var s1 := ReadUleb(s[4..]).rest;
    var n := UlebFinds(s1);
    var s2 := ReadUleb(s1).rest;
    var c := UlebFinds(s2);
    var s3 := ReadUleb(s2).rest;
    var h0 := Head(s[0], s[1], s[2], s[3], ReadUleb(s[4..]).value, ReadUleb(s1).value, ReadUleb(s2).value, 0, 0, 0);
    var d := DebugFinds(h0, s3, strip);
    l := Layout(k, n, c, d, [], []);
    var t := ReadHead(s, strip).rest;
    assert s[4..] == k + (n + (c + (d + t)));
    Regroup(k, n, c, d, t);
    assert s == s[..4] + s[4..] && s[..4] == [s[0], s[1], s[2], s[3]];
  }

  lemma HeadReads(l: Layout, h: Head, t: seq<byte>, strip: bool)
    requires Sizes(l, h.sizekgc, h.sizekn, h.sizebc)
    requires DebugCode(l.debug, h.sizedbg, h.firstline, h.numline, strip)
    ensures ReadHead(HeadText(l, h.flags, h.numparams, h.framesize, h.sizeuv) + t, strip) == Got(h, t)
  {
    hide ReadUleb;
    hide Number;
    hide ReadDebugHead;
    hide DebugCode;
    var s := HeadText(l, h.flags, h.numparams, h.framesize, h.sizeuv) + t;
    Regroup(l.sizekgc, l.sizekn, l.sizebc, l.debug, t);
    assert s[4..] == l.sizekgc + (l.sizekn + (l.sizebc + (l.debug + t)));
    UlebReads(l.sizekgc, h.sizekgc, l.sizekn + (l.sizebc + (l.debug + t)));
    UlebReads(l.sizekn, h.sizekn, l.sizebc + (l.debug + t));
    UlebReads(l.sizebc, h.sizebc, l.debug + t);
    DebugReads(h.(sizedbg := 0, firstline := 0, numline := 0), l.debug, t, strip, h.sizedbg, h.firstline, h.numline);
  }

  /** A body that is read is the code of the prototype, whose children were on top of the stack. */
  lemma BodyFinds(nums: Numbers, b: seq<byte>, stack: seq<Loaded>, strip: bool)
    requires ReadBody(nums, b, stack, strip).Got?
    ensures var r := ReadBody(nums, b, stack, strip);
            && r.rest == [] && BodyCode(nums, b, r.value.p, strip) && stack == r.value.stack + Kids(r.value.p.kgc)
  {
    hide ReadHead;
    hide Sizes;
    hide DebugCode;
    hide ReadConsts;
    hide ReadNums;
    hide ConstsCode;
    hide NumsCode;
    hide HeadText;
    hide Kids;
    var l := HeadFinds(b, strip);
    var h, s1 := ReadHead(b, strip).value, ReadHead(b, strip).rest;
    var bc, s2 := s1[..4 * h.sizebc], s1[4 * h.sizebc..];
    var uv, s3 := s2[..2 * h.sizeuv], s2[2 * h.sizeuv..];
    var kgc := ConstsFinds(nums, s3, h.sizekgc, stack);
    var s4 := ReadConsts(nums, s3, h.sizekgc, stack).rest;
    var kn := NumsFinds(nums, s4, h.sizekn);
    var s5 := ReadNums(nums, s4, h.sizekn).rest;
    var p := ReadBody(nums, b, stack, strip).value.p;
    assert p.bc == bc && p.uv == uv && p.dbg == s5;
    assert s1 == p.bc + (p.uv + (kgc + (kn + p.dbg)));
    var l' := l.(kgc := kgc, kn := kn);
    LayoutParts(nums, l, h, p, kgc, kn, strip);
    assert LayoutOf(nums, l', p, strip) && b == BodyText(l', p);
  }

  lemma LayoutParts(nums: Numbers, l: Layout, h: Head, p: Loaded, kgc: seq<byte>, kn: seq<byte>, strip: bool)
    requires Sizes(l, h.sizekgc, h.sizekn, h.sizebc) && DebugCode(l.debug, h.sizedbg, h.firstline, h.numline, strip)
    requires |p.kgc| == h.sizekgc && |p.kn| == h.sizekn && |p.bc| == 4 * h.sizebc && |p.uv| == 2 * h.sizeuv
    requires |p.dbg| == h.sizedbg && p.firstline == h.firstline && p.numline == h.numline
    requires ConstsCode(nums, kgc, p.kgc) && NumsCode(nums, kn, p.kn)
    requires p.flags == h.flags && p.numparams == h.numparams && p.framesize == h.framesize
    ensures var l' := l.(kgc := kgc, kn := kn);
            && LayoutOf(nums, l', p, strip)
            && HeadText(l', p.flags, p.numparams, p.framesize, |p.uv| / 2 % 256)
               == HeadText(l, h.flags, h.numparams, h.framesize, h.sizeuv)
  {
    hide Number;
    hide DebugCode;
    hide ConstsCode;
    hide NumsCode;
  }

  /** The code of a prototype is read when its children are on top of the stack. */
  lemma BodyReads(nums: Numbers, b: seq<byte>, p: Loaded, stack: seq<Loaded>, strip: bool)
    requires BodyCode(nums, b, p, strip)
    ensures ReadBody(nums, b, stack + Kids(p.kgc), strip) == Got(Popped(p, stack), [])
  {
    var l :| LayoutOf(nums, l, p, strip) && b == BodyText(l, p);
    LayoutReads(nums, l, p, stack, strip);
  }

  lemma LayoutReads(nums: Numbers, l: Layout, p: Loaded, stack: seq<Loaded>, strip: bool)
    requires LayoutOf(nums, l, p, strip)
    ensures ReadBody(nums, BodyText(l, p), stack + Kids(p.kgc), strip) == Got(Popped(p, stack), [])
  {
    hide ReadHead;
    hide DebugCode;
    hide ReadConstants;
    hide ConstsCode;
    hide NumsCode;
    hide HeadText;
    hide Kids;
    SizesFit(l, |p.kgc|, |p.kn|, |p.bc| / 4);
    DebugFits(l.debug, |p.dbg|, p.firstline, p.numline, strip);
    hide Sizes;
    var h := Head(p.flags, p.numparams, p.framesize, |p.uv| / 2, |p.kgc|, |p.kn|, |p.bc| / 4, |p.dbg|, p.firstline,
                  p.numline);
    var t := l.kgc + (l.kn + p.dbg);
    HeadReads(l, h, p.bc + (p.uv + t), strip);
    TakeBack(p.bc, p.uv + t);
    TakeBack(p.uv, t);
    ConstantsRead(nums, l, h, p, stack);
  }

  lemma ConstantsRead(nums: Numbers, l: Layout, h: Head, p: Loaded, stack: seq<Loaded>)
    requires ConstsCode(nums, l.kgc, p.kgc) && NumsCode(nums, l.kn, p.kn)
    requires |p.kgc| == h.sizekgc && |p.kn| == h.sizekn && |p.dbg| == h.sizedbg
    requires p.firstline == h.firstline && p.numline == h.numline
    requires p.flags == h.flags && p.numparams == h.numparams && p.framesize == h.framesize
    ensures ReadConstants(nums, h, p.bc, p.uv, l.kgc + (l.kn + p.dbg), stack + Kids(p.kgc)) == Got(Popped(p, stack), [])
  {
    hide ReadConsts;
    hide ReadNums;
    hide ConstsCode;
    hide NumsCode;
    hide Kids;
    ConstsReads(nums, l.kgc, p.kgc, l.kn + p.dbg, stack);
    NumsReads(nums, l.kn, p.kn, p.dbg);
    assert p.dbg + [] == p.dbg;
    TakeBack(p.dbg, []);
  }

  lemma SizesFit(l: Layout, kgc: nat, kn: nat, bc: nat)
    requires Sizes(l, kgc, kn, bc)
    ensures kgc < 0x1_0000_0000 && kn < 0x1_0000_0000 && bc < 0x1_0000_0000
  {
  }

  lemma DebugFits(b: seq<byte>, size: nat, firstline: nat, numline: nat, strip: bool)
    requires DebugCode(b, size, firstline, numline, strip)
    ensures size < 0x1_0000_0000
  {
  }

  // ---------------------------------------------------------------- trees

  /** The bytes of a prototype with all below it: its children from the last constant to the first, then its length
      and its body. */
  ghost predicate TreeCode(nums: Numbers, b: seq<byte>, p: Loaded, strip: bool)
    decreases p
  {
    exists a, len, body ::
      && b == a + (len + body) && KidsCode(nums, a, p.kgc, strip) && Number(len, |body|)
      && BodyCode(nums, body, p, strip)
  }

  ghost predicate KidsCode(nums: Numbers, b: seq<byte>, ks: seq<LoadedConst>, strip: bool)
    decreases ks
  {
    if ks == [] then b == []
    else exists a, c :: b == a + c && KidsCode(nums, a, ks[1..], strip) && KidCode(nums, c, ks[0], strip)
  }

  ghost predicate KidCode(nums: Numbers, b: seq<byte>, c: LoadedConst, strip: bool)
    decreases c
  {
    if c.LChild? then TreeCode(nums, b, c.p, strip) else b == []
  }

  /** The bytes of some trees, one after the other. */
  ghost predicate Forest(nums: Numbers, b: seq<byte>, ps: seq<Loaded>, strip: bool)
    decreases |ps|
  {
    if ps == [] then b == []
    else exists a, c ::
        b == a + c && Forest(nums, a, ps[..|ps| - 1], strip) && TreeCode(nums, c, ps[|ps| - 1], strip)
  }

  lemma ForestGrows(nums: Numbers, a: seq<byte>, ps: seq<Loaded>, c: seq<byte>, p: Loaded, strip: bool)
    requires Forest(nums, a, ps, strip) && TreeCode(nums, c, p, strip)
    ensures Forest(nums, a + c, ps + [p], strip)
  {
    hide TreeCode;
    var all := ps + [p];
    assert all[..|all| - 1] == ps && all[|all| - 1] == p;
    assert Forest(nums, a, all[..|all| - 1], strip);
  }

  lemma ForestEnds(nums: Numbers, b: seq<byte>, ps: seq<Loaded>, p: Loaded, strip: bool)
    returns (a: seq<byte>, c: seq<byte>)
    requires Forest(nums, b, ps + [p], strip)
    ensures b == a + c && Forest(nums, a, ps, strip) && TreeCode(nums, c, p, strip)
  {
    hide TreeCode;
    var all := ps + [p];
    assert all[..|all| - 1] == ps && all[|all| - 1] == p;
    a, c :| b == a + c && Forest(nums, a, all[..|all| - 1], strip) && TreeCode(nums, c, all[|all| - 1], strip);
  }

  lemma KidsGrow(nums: Numbers, a: seq<byte>, c: seq<byte>, ks: seq<LoadedConst>, strip: bool)
    requires ks != [] && KidsCode(nums, a, ks[1..], strip) && KidCode(nums, c, ks[0], strip)
    ensures KidsCode(nums, a + c, ks, strip)
  {
    hide KidCode;
  }

  lemma NoKids(nums: Numbers, ps: seq<Loaded>, strip: bool)
    ensures ps + Kids([]) == ps && KidsCode(nums, [], [], strip)
  {
  }

  lemma KidsFirst(ps: seq<Loaded>, ks: seq<LoadedConst>)
    requires ks != []
    ensures ps + Kids(ks) == ps + Kids(ks[1..]) + Kid(ks[0])
  {
  }

  lemma KidEnds(nums: Numbers, b: seq<byte>, ps: seq<Loaded>, k: LoadedConst, strip: bool)
    returns (a: seq<byte>, c: seq<byte>)
    requires Forest(nums, b, ps + Kid(k), strip)
    ensures b == a + c && Forest(nums, a, ps, strip) && KidCode(nums, c, k, strip)
  {
    hide Forest;
    hide TreeCode;
    if k.LChild? {
      a, c := ForestEnds(nums, b, ps, k.p, strip);
    } else {
      a, c := b, [];
      assert ps + [] == ps;
    }
  }

  /** The children of a prototype are the last trees. */
  lemma {:induction false} ForestSplits(nums: Numbers, b: seq<byte>, ps: seq<Loaded>, ks: seq<LoadedConst>, strip: bool)
    returns (a: seq<byte>, c: seq<byte>)
    requires Forest(nums, b, ps + Kids(ks), strip)
    ensures b == a + c && Forest(nums, a, ps, strip) && KidsCode(nums, c, ks, strip)
    decreases |ks|
  {
    hide Forest;
    hide KidsCode;
    hide KidCode;
    hide Kids;
    hide Kid;
    if ks == [] {
      a, c := b, [];
      NoKids(nums, ps, strip);
    } else {
      KidsFirst(ps, ks);
      var front, d := KidEnds(nums, b, ps + Kids(ks[1..]), ks[0], strip);
      var more;
      a, more := ForestSplits(nums, front, ps, ks[1..], strip);
      c := more + d;
      KidsGrow(nums, more, d, ks, strip);
    }
  }

  /** Seven bytes at least. */
  lemma BodyCodeLong(nums: Numbers, b: seq<byte>, p: Loaded, strip: bool)
    requires BodyCode(nums, b, p, strip)
    ensures |b| >= 7
  {
    hide DebugCode;
    hide ConstsCode;
    hide NumsCode;
    var l :| LayoutOf(nums, l, p, strip) && b == BodyText(l, p);
    assert |l.sizekgc| > 0 && |l.sizekn| > 0 && |l.sizebc| > 0;
    var h := HeadText(l, p.flags, p.numparams, p.framesize, |p.uv| / 2 % 256);
    assert |h| == 4 + |l.sizekgc| + |l.sizekn| + |l.sizebc| + |l.debug|;
    assert |b| >= |h|;
  }

  /** A length that is not zero does not start with a zero byte, and a zero one that does has no more bytes. */
  lemma FirstByte(b: seq<byte>, v: nat)
    requires Number(b, v)
    ensures b[0] == 0 ==> v == 0 && b == [0]
  {
    if b[0] == 0 {
      assert |b| == 1;
      assert b[1..] == [];
      assert Value(b) == 0 && b == [0];
    }
  }

  /** A length and its body push a prototype in place of its children. */
  lemma BlockReads(nums: Numbers, len: seq<byte>, body: seq<byte>, t: seq<byte>, p: Loaded, stack: seq<Loaded>,
                   strip: bool, eof: bool)
    requires Number(len, |body|) && BodyCode(nums, body, p, strip)
    ensures var s := len + (body + t);
            && ReadTrees(nums, s, stack + Kids(p.kgc), strip, eof) == ReadTrees(nums, t, stack + [p], strip, eof)
            && Terminator(nums, s, stack + Kids(p.kgc), strip) == Terminator(nums, t, stack + [p], strip)
  {
    hide ReadUleb;
    hide ReadBody;
    hide BodyCode;
    hide ReadTrees;
    hide Terminator;
    hide Kids;
    var s := len + (body + t);
    UlebReads(len, |body|, body + t);
    FirstByte(len, |body|);
    hide Number;
    BodyCodeLong(nums, body, p, strip);
    BodyReads(nums, body, p, stack, strip);
    assert (body + t)[..|body|] == body && (body + t)[|body|..] == t;
    assert s != [] && s[0] != 0;
    TreesUnfold(nums, s, stack + Kids(p.kgc), strip, eof);
    TerminatorUnfolds(nums, s, stack + Kids(p.kgc), strip);
  }

  /** The code of a tree pushes its root, whatever lies below on the stack and whatever follows. */
  lemma {:induction false} TreeReads(nums: Numbers, b: seq<byte>, p: Loaded, t: seq<byte>, stack: seq<Loaded>,
                                     strip: bool, eof: bool)
    requires TreeCode(nums, b, p, strip)
    ensures ReadTrees(nums, b + t, stack, strip, eof) == ReadTrees(nums, t, stack + [p], strip, eof)
    ensures Terminator(nums, b + t, stack, strip) == Terminator(nums, t, stack + [p], strip)
    decreases p
  {
    hide Number;
    hide BodyCode;
    hide KidsCode;
    hide ReadTrees;
    hide Terminator;
    var a, len, body :| b == a + (len + body) && KidsCode(nums, a, p.kgc, strip) && Number(len, |body|)
        && BodyCode(nums, body, p, strip);
    hide TreeCode;
    assert b + t == a + (len + (body + t));
    KidsRead(nums, a, p.kgc, len + (body + t), stack, strip, eof);
    BlockReads(nums, len, body, t, p, stack, strip, eof);
  }

  lemma {:induction false} KidsRead(nums: Numbers, b: seq<byte>, ks: seq<LoadedConst>, t: seq<byte>,
                                    stack: seq<Loaded>, strip: bool, eof: bool)
    requires KidsCode(nums, b, ks, strip)
    ensures ReadTrees(nums, b + t, stack, strip, eof) == ReadTrees(nums, t, stack + Kids(ks), strip, eof)
    ensures Terminator(nums, b + t, stack, strip) == Terminator(nums, t, stack + Kids(ks), strip)
    decreases ks
  {
    hide TreeCode;
    hide ReadTrees;
    hide Terminator;
    if ks == [] {
      assert b + t == t && stack + Kids(ks) == stack;
    } else {
      var a, c :| b == a + c && KidsCode(nums, a, ks[1..], strip) && KidCode(nums, c, ks[0], strip);
      hide KidsCode;
      hide KidCode;
      assert b + t == a + (c + t);
      KidsFirst(stack, ks);
      hide Kids;
      hide Kid;
      KidsRead(nums, a, ks[1..], c + t, stack, strip, eof);
      KidReads(nums, c, ks[0], t, stack + Kids(ks[1..]), strip, eof);
    }
  }

  lemma {:induction false} KidReads(nums: Numbers, b: seq<byte>, c: LoadedConst, t: seq<byte>, stack: seq<Loaded>,
                                    strip: bool, eof: bool)
    requires KidCode(nums, b, c, strip)
    ensures ReadTrees(nums, b + t, stack, strip, eof) == ReadTrees(nums, t, stack + Kid(c), strip, eof)
    ensures Terminator(nums, b + t, stack, strip) == Terminator(nums, t, stack + Kid(c), strip)
    decreases c
  {
    hide TreeCode;
    hide ReadTrees;
    hide Terminator;
    if c.LChild? {
      TreeReads(nums, b, c.p, t, stack, strip, eof);
    } else {
      assert b + t == t && stack + Kid(c) == stack;
    }
  }

  /** When prototypes have been read up to a length of zero, what has been read is the code of the trees on the stack;
      `past` is that of the trees that were there before. */
  lemma {:induction false} TreesFind(nums: Numbers, s: seq<byte>, stack: seq<Loaded>, strip: bool, eof: bool,
                                     past: seq<byte>)
    returns (b: seq<byte>, end: seq<byte>)
    requires ReadTrees(nums, s, stack, strip, eof).Got? && Forest(nums, past, stack, strip)
    ensures var r := ReadTrees(nums, s, stack, strip, eof);
            && s == b + (end + r.rest) && Forest(nums, past + b, r.value, strip) && Number(end, 0)
            && Terminator(nums, s, stack, strip) == end + r.rest
    decreases |s|
  {
    hide ReadUleb;
    hide ReadBody;
    hide BodyCode;
    hide Number;
    hide Kids;
    hide Forest;
    hide ReadTrees;
    hide Terminator;
    hide TreeCode;
    TreesUnfold(nums, s, stack, strip, eof);
    TerminatorUnfolds(nums, s, stack, strip);
    ZeroLength(s);
    UlebShrinks(s);
    var len := ReadUleb(s).value;
    if len == 0 {
      b := [];
      end := UlebFinds(s);
      assert past + b == past && b + (end + ReadUleb(s).rest) == s;
    } else {
      var u := ReadUleb(s).rest[len..];
      var w := ReadBody(nums, ReadUleb(s).rest[..len], stack, strip).value;
      var first := BlockFinds(nums, s, stack, strip, past);
      b, end := TreesFind(nums, u, w.stack + [w.p], strip, eof || |s| < 5, past + first);
      assert past + first + b == past + (first + b);
      b := first + b;
    }
  }

  /** A length and a body that are read make one tree of the last ones. */
  lemma BlockFinds(nums: Numbers, s: seq<byte>, stack: seq<Loaded>, strip: bool, past: seq<byte>)
    returns (b: seq<byte>)
    requires Forest(nums, past, stack, strip) && ReadUleb(s).Got? && ReadUleb(s).value <= |ReadUleb(s).rest|
    requires ReadBody(nums, ReadUleb(s).rest[..ReadUleb(s).value], stack, strip).Got?
    ensures var len, t := ReadUleb(s).value, ReadUleb(s).rest;
            var w := ReadBody(nums, t[..len], stack, strip).value;
            s == b + t[len..] && Forest(nums, past + b, w.stack + [w.p], strip)
  {
    hide ReadUleb;
    hide ReadBody;
    hide BodyCode;
    hide Number;
    hide Kids;
    hide Forest;
    hide KidsCode;
    hide TreeCode;
    var a := UlebFinds(s);
    var len, t := ReadUleb(s).value, ReadUleb(s).rest;
    var body := t[..len];
    BodyFinds(nums, body, stack, strip);
    var w := ReadBody(nums, body, stack, strip).value;
    var below, kids := ForestSplits(nums, past, w.stack, w.p.kgc, strip);
    OwnTree(nums, kids, a, body, w.p, strip);
    ForestGrows(nums, below, w.stack, kids + (a + body), w.p, strip);
    b := a + body;
    assert below + (kids + (a + body)) == past + b;
  }

  lemma OwnTree(nums: Numbers, a: seq<byte>, len: seq<byte>, body: seq<byte>, p: Loaded, strip: bool)
    requires KidsCode(nums, a, p.kgc, strip) && Number(len, |body|) && BodyCode(nums, body, p, strip)
    ensures TreeCode(nums, a + (len + body), p, strip)
  {
    hide Number;
    hide BodyCode;
    hide KidsCode;
  }

  // ---------------------------------------------------------------- dumps

  /** The three bytes behind the escape character of every dump. */
  const MAGIC: seq<byte> := [0x4c, 0x4a, 1]

  /** Stripped or not, with the foreign function interface or without. */
  predicate Known(flags: nat) {
    flags == 0 || flags == 2 || flags == 4 || flags == 6
  }

  ghost predicate NameCode(b: seq<byte>, h: Header, chunkarg: seq<byte>) {
    if Strips(h) then b == [] && h.name == chunkarg else TextCode(b, 0, h.name)
  }

  /** The magic bytes, known flags, and the name unless it is stripped. */
  ghost predicate HeaderCode(b: seq<byte>, h: Header, chunkarg: seq<byte>) {
    exists f, c :: b == MAGIC + (f + c) && Number(f, h.flags) && Known(h.flags) && NameCode(c, h, chunkarg)
  }

  /** Three other bytes, or flags that are not known. */
  ghost predicate Foreign(s: seq<byte>) {
    |s| >= 3 && (s[..3] != MAGIC || exists f, t, v :: s[3..] == f + t && Number(f, v) && !Known(v))
  }

  /** A dump with what follows it: a header, one tree and a length of zero. */
  ghost predicate DumpCode(nums: Numbers, s: seq<byte>, chunkarg: seq<byte>, c: Chunk, end: seq<byte>,
                           rest: seq<byte>) {
    exists a, h, b ::
      && s == a + (b + (end + rest)) && HeaderCode(a, h, chunkarg) && h.name == c.name
      && TreeCode(nums, b, c.p, Strips(h)) && Number(end, 0)
  }

  lemma HeaderFinds(s: seq<byte>, chunkarg: seq<byte>) returns (b: seq<byte>)
    requires ReadHeader(s, chunkarg).Ok?
    ensures var a := ReadHeader(s, chunkarg).value; s == b + a.rest && HeaderCode(b, a.h, chunkarg)
  {
    hide ReadUleb;
    hide Number;
    var f := UlebFinds(s[3..]);
    var flags, t := ReadUleb(s[3..]).value, ReadUleb(s[3..]).rest;
    var a := ReadHeader(s, chunkarg).value;
    var c := [];
    if !Strips(a.h) {
      var n := UlebFinds(t);
      assert Number(n, 0 + |a.h.name|);
      c := n + a.h.name;
      assert TextCode(c, 0, a.h.name);
      assert t == c + a.rest;
    }
    b := MAGIC + (f + c);
    assert s == s[..3] + s[3..] && s[..3] == MAGIC;
    assert NameCode(c, a.h, chunkarg);
  }

  lemma HeaderReads(b: seq<byte>, h: Header, chunkarg: seq<byte>, t: seq<byte>)
    requires HeaderCode(b, h, chunkarg)
    ensures ReadHeader(b + t, chunkarg) == Ok(AfterHeader(h, t))
  {
    hide ReadUleb;
    hide Number;
    var f, c :| b == MAGIC + (f + c) && Number(f, h.flags) && Known(h.flags) && NameCode(c, h, chunkarg);
    var s := b + t;
    assert s[3..] == f + (c + t) && s[0] == MAGIC[0] && s[1] == MAGIC[1] && s[2] == MAGIC[2];
    UlebReads(f, h.flags, c + t);
    if Strips(h) {
      assert [] + t == t;
    } else {
      var n :| c == n + h.name && Number(n, 0 + |h.name|);
      assert c + t == n + (h.name + t);
      UlebReads(n, |h.name|, h.name + t);
      TakeBack(h.name, t);
    }
  }

  /** A header is accepted if and only if it is the code of one, and then that one is read. */
  lemma HeaderExactly(s: seq<byte>, chunkarg: seq<byte>, h: Header, t: seq<byte>)
    ensures ReadHeader(s, chunkarg) == Ok(AfterHeader(h, t)) <==> exists b :: s == b + t && HeaderCode(b, h, chunkarg)
  {
    hide ReadHeader;
    hide HeaderCode;
    if ReadHeader(s, chunkarg) == Ok(AfterHeader(h, t)) {
      var b := HeaderFinds(s, chunkarg);
    }
    if b :| s == b + t && HeaderCode(b, h, chunkarg) {
      HeaderReads(b, h, chunkarg, t);
    }
  }

  /** The format is refused exactly for other magic bytes or unknown flags. */
  lemma ForeignExactly(s: seq<byte>, chunkarg: seq<byte>)
    ensures ReadHeader(s, chunkarg) == WrongFormat <==> Foreign(s)
  {
    hide ReadUleb;
    hide Number;
    if |s| >= 3 {
      assert s[..3] == [s[0], s[1], s[2]];
      if ReadUleb(s[3..]).Got? {
        var f := UlebFinds(s[3..]);
      }
      if f, t, v :| s[3..] == f + t && Number(f, v) && !Known(v) {
        UlebReads(f, v, t);
      }
    }
  }

  /** A terminator ends the loop, unless input was missing before and is again. */
  lemma EndReads(nums: Numbers, end: seq<byte>, rest: seq<byte>, stack: seq<Loaded>, strip: bool, eof: bool)
    requires Number(end, 0) && (eof ==> |end| + |rest| >= 5 || end[0] == 0)
    ensures ReadTrees(nums, end + rest, stack, strip, eof) == Got(stack, rest)
    ensures Terminator(nums, end + rest, stack, strip) == end + rest
  {
    hide ReadUleb;
    hide ReadBody;
    hide ReadTrees;
    hide Terminator;
    var s := end + rest;
    UlebReads(end, 0, rest);
    FirstByte(end, 0);
    TreesUnfold(nums, s, stack, strip, eof);
    TerminatorUnfolds(nums, s, stack, strip);
  }

  /** Eight bytes at least. */
  lemma TreeCodeLong(nums: Numbers, b: seq<byte>, p: Loaded, strip: bool)
    requires TreeCode(nums, b, p, strip)
    ensures |b| >= 8
  {
    hide KidsCode;
    hide BodyCode;
    var a, len, body :| b == a + (len + body) && KidsCode(nums, a, p.kgc, strip) && Number(len, |body|)
        && BodyCode(nums, body, p, strip);
    BodyCodeLong(nums, body, p, strip);
  }

  lemma HeaderCodeLong(b: seq<byte>, h: Header, chunkarg: seq<byte>)
    requires HeaderCode(b, h, chunkarg)
    ensures |b| >= 4
  {
    hide NameCode;
  }

  lemma DumpFinds(nums: Numbers, s: seq<byte>, chunkarg: seq<byte>) returns (end: seq<byte>)
    requires ReadDump(nums, s, chunkarg).Ok?
    ensures var x := ReadDump(nums, s, chunkarg).value;
            DumpCode(nums, s, chunkarg, x.0, end, x.1) && DumpTerminator(nums, s, chunkarg) == end + x.1
  {
    hide Number;
    hide TreeCode;
    hide HeaderCode;
    hide ReadHeader;
    hide ReadTrees;
    hide Terminator;
    hide Strips;
    var a := HeaderFinds(s, chunkarg);
    var x, h := ReadDump(nums, s, chunkarg).value, ReadHeader(s, chunkarg).value;
    var strip := Strips(h.h);
    assert Forest(nums, [], [], strip);
    var b;
    b, end := TreesFind(nums, h.rest, [], strip, |s| < 13, []);
    var stack := ReadTrees(nums, h.rest, [], strip, |s| < 13).value;
    assert [] + b == b && [] + stack == stack == [x.0.p];
    var below, own := ForestEnds(nums, b, [], x.0.p, strip);
    assert below == [] && own == b;
  }

  lemma DumpReads(nums: Numbers, s: seq<byte>, chunkarg: seq<byte>, c: Chunk, end: seq<byte>, rest: seq<byte>)
    requires DumpCode(nums, s, chunkarg, c, end, rest)
    ensures ReadDump(nums, s, chunkarg) == Ok((c, rest)) && DumpTerminator(nums, s, chunkarg) == end + rest
  {
    hide Number;
    hide TreeCode;
    hide HeaderCode;
    hide ReadHeader;
    hide ReadTrees;
    hide Terminator;
    hide Strips;
    var a, h, b :| s == a + (b + (end + rest)) && HeaderCode(a, h, chunkarg) && h.name == c.name
        && TreeCode(nums, b, c.p, Strips(h)) && Number(end, 0);
    hide DumpCode;
    HeaderReads(a, h, chunkarg, b + (end + rest));
    HeaderCodeLong(a, h, chunkarg);
    TreeCodeLong(nums, b, c.p, Strips(h));
    NotEmpty(end, 0);
    TreeReads(nums, b, c.p, end + rest, [], Strips(h), |s| < 13);
    assert [] + [c.p] == [c.p];
    EndReads(nums, end, rest, [c.p], Strips(h), |s| < 13);
  }

  lemma NotEmpty(b: seq<byte>, v: nat)
    requires Number(b, v)
    ensures b != []
  {
  }

  /** Exactly the dumps are read, each as the only thing it is the code of: all that stands between the header and
      the length of zero is one tree. That input may be missing only once rules out none of them. */
  lemma DumpExactly(nums: Numbers, s: seq<byte>, chunkarg: seq<byte>, c: Chunk, rest: seq<byte>)
    ensures ReadDump(nums, s, chunkarg) == Ok((c, rest)) <==> exists end :: DumpCode(nums, s, chunkarg, c, end, rest)
  {
    hide ReadDump;
    hide DumpCode;
    hide DumpTerminator;
    if ReadDump(nums, s, chunkarg) == Ok((c, rest)) {
      var end := DumpFinds(nums, s, chunkarg);
    }
    if end :| DumpCode(nums, s, chunkarg, c, end, rest) {
      DumpReads(nums, s, chunkarg, c, end, rest);
    }
  }

  /** What is no dump is of a wrong format or broken, the former exactly for other magic bytes or unknown flags. */
  lemma RefusedExactly(nums: Numbers, s: seq<byte>, chunkarg: seq<byte>)
    ensures ReadDump(nums, s, chunkarg) == WrongFormat <==> Foreign(s)
    ensures ReadDump(nums, s, chunkarg) == Broken
            <==> !Foreign(s) && !exists c, end, rest :: DumpCode(nums, s, chunkarg, c, end, rest)
  {
    hide Foreign;
    hide DumpCode;
    hide ReadHeader;
    hide ReadTrees;
    ForeignExactly(s, chunkarg);
    assert ReadDump(nums, s, chunkarg) == WrongFormat <==> Foreign(s);
    hide ReadDump;
    if ReadDump(nums, s, chunkarg).Ok? {
      var end := DumpFinds(nums, s, chunkarg);
    }
    if c, end, rest :| DumpCode(nums, s, chunkarg, c, end, rest) {
      DumpReads(nums, s, chunkarg, c, end, rest);
    }
  }

  /** No bytes are two dumps. */
  lemma OneReading(nums: Numbers, s: seq<byte>, chunkarg: seq<byte>, c: Chunk, end: seq<byte>, rest: seq<byte>,
                   c': Chunk, end': seq<byte>, rest': seq<byte>)
    requires DumpCode(nums, s, chunkarg, c, end, rest) && DumpCode(nums, s, chunkarg, c', end', rest')
    ensures c == c' && end == end' && rest == rest'
  {
    hide DumpCode;
    hide ReadDump;
    hide DumpTerminator;
    DumpReads(nums, s, chunkarg, c, end, rest);
    DumpReads(nums, s, chunkarg, c', end', rest');
    assert (end + rest)[..|end|] == end && (end' + rest')[..|end'|] == end';
  }

  /** The header that is written begins as every dump does, and has known flags. */
  lemma WrittenHeader(name: seq<byte>, strip: bool, ffi: bool, chunkarg: seq<byte>)
    requires |name| < 0x1_0000_0000
    ensures WriteHeader(name, strip, ffi)[..3] == MAGIC
    ensures HeaderCode(WriteHeader(name, strip, ffi),
                       Header((if strip then 2 else 0) + (if ffi then 4 else 0), if strip then chunkarg else name),
                       chunkarg)
  {
    var w := WriteHeader(name, strip, ffi);
    HeaderRoundTrip(name, strip, ffi, chunkarg, []);
    assert w + [] == w;
    var h := ReadHeader(w, chunkarg).value;
    HeaderExactly(w, chunkarg, h.h, []);
    hide WriteHeader;
    hide HeaderCode;
    hide ReadHeader;
    var b :| w == b + [] && HeaderCode(b, h.h, chunkarg);
    assert b == w;
  }

  /** A written dump is the code of what it is loaded as, under a header that says whether it is stripped and whether
      the prototype needs the foreign function interface. */
  lemma WrittenDump(nums: Numbers, p: Proto, name: seq<byte>, strip: bool, chunkarg: seq<byte>)
    requires ProtoOk(nums, p) && |name| < 0x1_0000_0000
    ensures var h := Header((if strip then 2 else 0) + (if p.flags / 4 % 2 == 1 then 4 else 0),
                            if strip then chunkarg else name);
            exists a, b :: && WriteDump(nums, p, name, strip) == [HEAD1] + (a + (b + [0]))
                           && HeaderCode(a, h, chunkarg) && TreeCode(nums, b, Load(p, strip), strip)
  {
    hide WriteTree;
    hide ProtoOk;
    hide HeaderCode;
    hide TreeCode;
    hide Load;
    hide WriteHeader;
    WrittenHeader(name, strip, p.flags / 4 % 2 == 1, chunkarg);
    WrittenTree(nums, p, strip);
    var a, b := WriteHeader(name, strip, p.flags / 4 % 2 == 1), WriteTree(nums, p, strip);
    assert WriteDump(nums, p, name, strip) == [HEAD1] + (a + (b + [0]));
  }

  lemma WrittenTree(nums: Numbers, p: Proto, strip: bool)
    requires ProtoOk(nums, p)
    ensures TreeCode(nums, WriteTree(nums, p, strip), Load(p, strip), strip)
  {
    hide ProtoOk;
    hide WriteTree;
    hide ReadTrees;
    hide Terminator;
    hide TreeCode;
    hide Load;
    hide Number;
    var w, q := WriteTree(nums, p, strip), Load(p, strip);
    TreeRoundTrip(nums, p, strip, [], [0], false);
    AtEnd(nums, [] + [q], strip, [], false);
    assert [0] + [] == [0];
    assert Forest(nums, [], [], strip);
    var b, end := TreesFind(nums, w + [0], [], strip, false, []);
    assert b == w by {
      assert end == [0];
      assert b + (end + []) == w + [0];
      assert |b| == |w| && (w + [0])[..|w|] == w && (b + (end + []))[..|b|] == b;
    }
    assert [] + b == b;
    var below, own := ForestEnds(nums, b, [], q, strip);
    assert below == [] && own == b;
  }

  /** A number is written as an integer exactly when it is equal to one: in the array part and as a value of a
      table, and among the constants of a prototype.  Keys are written as they are. */
  lemma WrittenNumbers(nums: Numbers, w: Words, narrow: bool)
    ensures WriteVal(nums, Num(w), narrow)[0] == (if narrow && nums.narrow(w).Some? then KTAB_INT else KTAB_NUM)
    ensures WriteNum(nums, w)[0] % 2 == if nums.narrow(w).Some? then 0 else 1
  {
    hide Uleb33;
    hide Uleb;
    var k := nums.narrow(w);
    Uleb33RoundTrip(0, if k.Some? then k.value else 0, []);
    Uleb33RoundTrip(1, w.lo, Uleb(w.hi));
    if k.Some? { assert Uleb33(0, k.value) + [] == Uleb33(0, k.value); }
  }

  /** A written dump with one of its first three bytes changed, such as the number of the format, is refused as of
      a wrong format. */
  lemma OtherVersion(nums: Numbers, p: Proto, name: seq<byte>, strip: bool, chunkarg: seq<byte>, more: seq<byte>,
                     i: nat, x: byte)
    requires 1 <= i <= 3
    ensures var d := WriteDump(nums, p, name, strip);
            |d| > 3 && (x != d[i] <==> ReadDump(nums, d[i := x][1..] + more, chunkarg) == WrongFormat)
  {
    hide WriteTree;
  }
}
