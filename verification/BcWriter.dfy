/**
  The bytecode writer: prototypes are put together in a growing buffer and
  passed on one by one, children first.
 */
module BcWriter {
  import opened Common
  import opened BcNumbers
  import opened BcFormat
  import opened BcProto

  class Writer {
    const nums: Numbers
    const strip: bool
    /** What the callback answers to its calls, in order. */
    const answers: nat -> int
    /** The output buffer, of which n bytes are used. */
    var buf: array<byte>
    var n: nat
    var status: int
    var calls: nat
    var output: seq<byte>

    constructor (nums: Numbers, strip: bool, answers: nat -> int)
      ensures Valid() && fresh(buf) && output == [] && status == 0 && this.nums == nums && this.strip == strip
              && this.answers == answers
    {
      this.nums, this.strip, this.answers := nums, strip, answers;
      buf := new byte[1024](_ => 0);
      n, status, calls, output := 0, 0, 0, [];
    }

    ghost predicate Valid()
      reads this
    {
      1024 <= buf.Length && n <= buf.Length
    }

    ghost function Written(): seq<byte>
      requires Valid()
      reads this, buf
    {
      buf[..n]
    }

    /** s has been appended, in the same buffer or a larger one. */
    twostate predicate Appended(s: seq<byte>)
      requires old(Valid())
      reads this, buf
    {
      Valid() && (buf == old(buf) || fresh(buf)) && Written() == old(Written()) + s
    }

    /** bcwrite_need: room for len more bytes. */
    method Need(len: nat)
      requires Valid()
      modifies this`buf
      ensures Valid() && (buf == old(buf) || fresh(buf)) && Written() == old(Written()) && n + len <= buf.Length
    {
      if n + len > buf.Length {
        var sz := buf.Length * 2;
        while n + len > sz
          invariant sz >= buf.Length * 2
          decreases n + len - sz
        {
          sz := sz * 2;
        }
        var b := new byte[sz](_ => 0);
        forall i | 0 <= i < n { b[i] := buf[i]; }
        assert b[..n] == buf[..n];
        buf := b;
      }
    }

    /** bcwrite_byte. */
    method PutByte(b: byte)
      requires Valid() && n + 1 <= buf.Length
      modifies this`n, buf
      ensures Appended([b]) && buf == old(buf) && n == old(n) + 1 && buf[n..] == old(buf[n + 1..])
    {
      buf[n] := b;
      n := n + 1;
    }

    /** bcwrite_block. */
    method PutBlock(s: seq<byte>)
      requires Valid() && n + |s| <= buf.Length
      modifies this`n, buf
      ensures Appended(s) && buf == old(buf) && n == old(n) + |s|
    {
      var q := n;
      n := n + |s|;
      var i := 0;
      while i < |s|
        invariant 0 <= i <= |s| && Valid() && n == q + |s|
        invariant buf[..q] == old(buf[..n]) && buf[q..q + i] == s[..i]
      {
        buf[q + i] := s[i];
        i := i + 1;
      }
      assert Written() == buf[..q] + buf[q..q + i];
    }

    /** bcwrite_uleb128. */
    method PutUleb(v0: nat)
      requires Valid() && n + |Uleb(v0)| <= buf.Length
      modifies this`n, buf
      ensures Appended(Uleb(v0)) && buf == old(buf) && n == old(n) + |Uleb(v0)|
              && buf[n..] == old(buf[n + |Uleb(v0)|..])
    {
      hide Uleb;
      var v := v0;
      ghost var pre, all := Written(), buf[..];
      ghost var done: seq<byte> := [];
      while v >= 128
        invariant Valid() && buf == old(buf) && Uleb(v0) == done + Uleb(v) && n == |pre| + |done|
        invariant Written() == pre + done && buf[n..] == all[n..]
        decreases v
      {
        ghost var b: byte := v % 128 + 128;
        UlebStep(v, v / 128, v % 128);
        Tail(all, n);
        Join(done, [b], Uleb(v / 128));
        Join(pre, done, [b]);
        PutByte(v % 128 + 128);
        done := done + [b];
        v := v / 128;
      }
      UlebLast(v);
      Tail(all, n);
      Join(pre, done, [v]);
      PutByte(v);
    }

    // -------------------------------------------------------------- template tables

    /** A type code and a number of one or two words. */
    method PutWords(code: byte, lo: u32, hi: Option<u32>)
      requires Valid() && n + 11 <= buf.Length
      modifies this`n, buf
      ensures buf == old(buf) && Appended(if hi.Some? then [code] + Uleb(lo) + Uleb(hi.value) else [code] + Uleb(lo))
    {
      hide Uleb;
      ghost var w := Written();
      UlebAtMostFive(lo);
      PutByte(code);
      PutUleb(lo);
      Join(w, [code], Uleb(lo));
      if hi.Some? {
        UlebAtMostFive(hi.value);
        PutUleb(hi.value);
        Join(w, [code] + Uleb(lo), Uleb(hi.value));
      }
    }

    /** A length, moved up by the type codes, and a string. */
    method PutString(base: nat, s: seq<byte>)
      requires Valid() && n + 5 + |s| <= buf.Length && base + |s| < 0x1_0000_0000
      modifies this`n, buf
      ensures buf == old(buf) && Appended(Uleb(base + |s|) + s)
    {
      hide Uleb;
      ghost var w := Written();
      UlebAtMostFive(base + |s|);
      PutUleb(base + |s|);
      PutBlock(s);
      Join(w, Uleb(base + |s|), s);
    }

    /** bcwrite_ktabk. */
    method PutVal(v: Val, narrow: bool)
      requires Valid() && ValOk(nums, v)
      modifies this`buf, this`n, buf
      ensures Appended(WriteVal(nums, v, narrow))
    {
      hide Uleb;
      Need(11);
      match v
      case Nil => PutByte(0);
      case False => PutByte(1);
      case True => PutByte(2);
      case Num(w) =>
        var k := nums.narrow(w);
        if narrow && k.Some? {
          PutWords(3, k.value, None);
        } else {
          PutWords(4, w.lo, Some(w.hi));
        }
      case Str(b) =>
        Need(5 + |b|);
        PutString(KTAB_STR, b);
    }

    /** The array entries of a template table. */
    method PutVals(a: seq<Val>)
      requires Valid() && forall v :: v in a ==> ValOk(nums, v)
      modifies this`buf, this`n, buf
      ensures Appended(WriteVals(nums, a))
    {
      hide WriteVal;
      var i := 0;
      ghost var done: seq<byte> := [];
      while i < |a|
        invariant 0 <= i <= |a| && Appended(done) && WriteVals(nums, a) == done + WriteVals(nums, a[i..])
      {
        ghost var w := Written();
        assert a[i] in a;
        PutVal(a[i], true);
        Join(old(Written()), done, WriteVal(nums, a[i], true));
        Join(done, WriteVal(nums, a[i], true), WriteVals(nums, a[i + 1..]));
        assert a[i..][1..] == a[i + 1..];
        done := done + WriteVal(nums, a[i], true);
        i := i + 1;
      }
      assert done + [] == done;
    }

    /** The used hash entries, from the last slot down. */
    method PutEntries(nodes: seq<Entry>, count: nat)
      requires Valid() && forall e :: e in nodes ==> ValOk(nums, e.key) && ValOk(nums, e.val)
      requires count == |Used(nodes)|
      modifies this`buf, this`n, buf
      ensures Appended(WriteEntries(nums, Used(nodes)))
    {
      hide WriteVal;
      hide Used;
      hide WriteEntries;
      var i, j := count, |nodes|;
      ghost var done: seq<byte> := [];
      assert nodes[..j] == nodes;
      EntriesNone(nums);
      while i > 0
        invariant 0 <= j <= |nodes| && i == |Used(nodes[..j])| && Appended(done)
        invariant WriteEntries(nums, Used(nodes)) == done + WriteEntries(nums, Used(nodes[..j]))
        decreases j
      {
        j := j - 1;
        UsedLast(nodes[..j + 1]);
        assert nodes[..j + 1][..j] == nodes[..j];
        var e := nodes[j];
        assert e in nodes;
        if e.val != Nil {
          ghost var kv := WriteVal(nums, e.key, false) + WriteVal(nums, e.val, true);
          EntriesLast(nums, Used(nodes[..j]), e);
          PutEntry(e);
          Join(old(Written()), done, kv);
          Join(done, kv, WriteEntries(nums, Used(nodes[..j])));
          done := done + kv;
          i := i - 1;
        }
      }
      assert Used(nodes[..j]) == [];
      assert done + [] == done;
    }

    method PutEntry(e: Entry)
      requires Valid() && ValOk(nums, e.key) && ValOk(nums, e.val)
      modifies this`buf, this`n, buf
      ensures Appended(WriteVal(nums, e.key, false) + WriteVal(nums, e.val, true))
    {
      hide WriteVal;
      PutVal(e.key, false);
      PutVal(e.val, true);
      Join(old(Written()), WriteVal(nums, e.key, false), WriteVal(nums, e.val, true));
    }

    /** bcwrite_ktab; the caller has made room for the two counts. */
    method PutTable(t: Table)
      requires Valid() && n + 10 <= buf.Length && TableOk(nums, t)
      modifies this`buf, this`n, buf
      ensures Appended(WriteTable(nums, t))
    {
      hide Uleb;
      hide WriteVals;
      hide WriteEntries;
      ghost var w := Written();
      var narray := TrimmedLength(t.slots);
      var nhash := CountUsed(t.nodes);
      ghost var a, es := Trim(t.slots), Used(t.nodes);
      UlebAtMostFive(narray);
      UlebAtMostFive(nhash);
      PutUleb(narray);
      PutUleb(nhash);
      Join(w, Uleb(|a|), Uleb(|es|));
      assert forall v :: v in a ==> v in t.slots;
      PutVals(t.slots[..narray]);
      Join(w, Uleb(|a|) + Uleb(|es|), WriteVals(nums, a));
      PutEntries(t.nodes, nhash);
      Join(w, Uleb(|a|) + Uleb(|es|) + WriteVals(nums, a), WriteEntries(nums, es));
    }

    // -------------------------------------------------------------- constants

    method PutConst(c: Const)
      requires Valid() && ConstOk(nums, c)
      modifies this`buf, this`n, buf
      ensures Appended(WriteConst(nums, c))
    {
      hide Uleb;
      hide WriteTable;
      match c
      case KStr(b) =>
        Need(5 + |b|);
        PutString(KGC_STR, b);
      case KTab(t) =>
        Need(11);
        PutByte(KGC_TAB);
        PutTable(t);
        Join(old(Written()), [KGC_TAB], WriteTable(nums, t));
      case KChild(_) =>
        Need(1);
        PutByte(KGC_CHILD);
    }

    /** bcwrite_kgc. */
    method PutConsts(ks: seq<Const>)
      requires Valid() && forall i :: 0 <= i < |ks| ==> ConstOk(nums, ks[i])
      modifies this`buf, this`n, buf
      ensures Appended(WriteConsts(nums, ks))
    {
      hide WriteConst;
      hide ConstOk;
      var i := 0;
      ghost var done: seq<byte> := [];
      while i < |ks|
        invariant 0 <= i <= |ks| && Appended(done) && WriteConsts(nums, ks) == done + WriteConsts(nums, ks[i..])
      {
        PutConst(ks[i]);
        Join(old(Written()), done, WriteConst(nums, ks[i]));
        Join(done, WriteConst(nums, ks[i]), WriteConsts(nums, ks[i + 1..]));
        assert ks[i..][1..] == ks[i + 1..];
        done := done + WriteConst(nums, ks[i]);
        i := i + 1;
      }
      assert done + [] == done;
    }

    /** A number of 33 bits: the last byte is patched if the top bit of the payload is set. */
    method PutUleb33(low: nat, k: u32)
      requires Valid() && low <= 1 && n + 5 <= buf.Length
      modifies this`n, buf
      ensures buf == old(buf) && Appended(Uleb33(low, k))
    {
      hide Uleb;
      Uleb33AtMostFive(low, k);
      if k < 0x8000_0000 {
        PutUleb(low + 2 * k);
      } else {
        DoubledIs(low, k);
        UlebAtMostFive(Doubled(low, k));
        var v := Doubled(low, k);
        PutUleb(v);
        ghost var w := Written();
        buf[n - 1] := buf[n - 1] % 8 + k / 0x4000_0000 * 8;
        assert Written() == w[n - 1 := buf[n - 1]];
        assert Written() == old(Written()) + Uleb33(low, k);
      }
    }

    method PutNum(w: Words)
      requires Valid() && n + 10 <= buf.Length
      modifies this`n, buf
      ensures buf == old(buf) && Appended(WriteNum(nums, w)) && n <= old(n) + 10
    {
      hide Uleb;
      hide Uleb33;
      var k := nums.narrow(w);
      if k.Some? {
        Uleb33AtMostFive(0, k.value);
        PutUleb33(0, k.value);
      } else {
        Uleb33AtMostFive(1, w.lo);
        UlebAtMostFive(w.hi);
        PutUleb33(1, w.lo);
        PutUleb(w.hi);
        Join(old(Written()), Uleb33(1, w.lo), Uleb(w.hi));
      }
    }

    /** bcwrite_knum. */
    method PutNums(ws: seq<Words>)
      requires Valid()
      modifies this`buf, this`n, buf
      ensures Appended(WriteNums(nums, ws))
    {
      hide WriteNum;
      Need(10 * |ws|);
      ghost var w := Written();
      var i := 0;
      ghost var done: seq<byte> := [];
      ghost var b := buf;
      while i < |ws|
        invariant 0 <= i <= |ws| && buf == b && n + 10 * (|ws| - i) <= buf.Length
        invariant Appended(done) && WriteNums(nums, ws) == done + WriteNums(nums, ws[i..])
      {
        PutNum(ws[i]);
        Join(old(Written()), done, WriteNum(nums, ws[i]));
        Join(done, WriteNum(nums, ws[i]), WriteNums(nums, ws[i + 1..]));
        assert ws[i..][1..] == ws[i + 1..];
        done := done + WriteNum(nums, ws[i]);
        i := i + 1;
      }
      assert done + [] == done;
    }

    // -------------------------------------------------------------- prototypes

    method PutFour(a: byte, b: byte, c: byte, d: byte)
      requires Valid() && n + 4 <= buf.Length
      modifies this`n, buf
      ensures buf == old(buf) && Appended([a, b, c, d]) && n == old(n) + 4
    {
      ghost var w := Written();
      PutByte(a);
      PutByte(b);
      Join(w, [a], [b]);
      PutByte(c);
      Join(w, [a, b], [c]);
      PutByte(d);
      Join(w, [a, b, c], [d]);
    }

    method PutHead(p: Proto)
      requires Valid() && n + 34 <= buf.Length
      requires |p.kgc| < 0x1_0000_0000 && |p.kn| < 0x1_0000_0000 && |p.bc| / 4 < 0x1_0000_0000
               && |p.dbg| < 0x1_0000_0000
      modifies this`n, buf
      ensures buf == old(buf) && Appended(WriteHead(p, strip)) && n <= old(n) + 34
    {
      hide Uleb;
      hide WriteDebugHead;
      ghost var w := Written();
      UlebAtMostFive(|p.kgc|);
      UlebAtMostFive(|p.kn|);
      UlebAtMostFive(|p.bc| / 4);
      ghost var four := [p.flags % 8, p.numparams, p.framesize, |p.uv| / 2 % 256];
      PutFour(p.flags % 8, p.numparams, p.framesize, |p.uv| / 2 % 256);
      PutUleb(|p.kgc|);
      Join(w, four, Uleb(|p.kgc|));
      PutUleb(|p.kn|);
      Join(w, four + Uleb(|p.kgc|), Uleb(|p.kn|));
      PutUleb(|p.bc| / 4);
      Join(w, four + Uleb(|p.kgc|) + Uleb(|p.kn|), Uleb(|p.bc| / 4));
      PutDebugHead(p);
      Join(w, four + Uleb(|p.kgc|) + Uleb(|p.kn|) + Uleb(|p.bc| / 4), WriteDebugHead(p, strip));
    }

    method PutDebugHead(p: Proto)
      requires Valid() && |p.dbg| < 0x1_0000_0000 && n + 15 <= buf.Length
      modifies this`n, buf
      ensures buf == old(buf) && Appended(WriteDebugHead(p, strip)) && n <= old(n) + 15
    {
      hide Uleb;
      ghost var w := Written();
      UlebAtMostFive(|p.dbg|);
      UlebAtMostFive(p.firstline);
      UlebAtMostFive(p.numline);
      if !strip {
        PutUleb(|p.dbg|);
        if |p.dbg| > 0 {
          PutUleb(p.firstline);
          Join(w, Uleb(|p.dbg|), Uleb(p.firstline));
          PutUleb(p.numline);
          Join(w, Uleb(|p.dbg|) + Uleb(p.firstline), Uleb(p.numline));
        }
      } else {
        assert w + [] == w;
      }
    }

    /** The body of a prototype. */
    method PutBody(p: Proto)
      requires Valid() && ProtoOk(nums, p) && n == 5
      modifies this`buf, this`n, buf
      ensures Appended(WriteBody(nums, p, strip))
    {
      hide WriteHead;
      hide WriteConsts;
      hide WriteNums;
      hide ConstOk;
      ghost var w := Written();
      Need(4 + 6 * 5 + |p.bc| + |p.uv|);
      PutHead(p);
      PutBlock(p.bc);
      Join(w, WriteHead(p, strip), p.bc);
      PutBlock(p.uv);
      ghost var code := WriteHead(p, strip) + p.bc + p.uv;
      Join(w, WriteHead(p, strip) + p.bc, p.uv);
      PutConsts(p.kgc);
      Join(w, code, WriteConsts(nums, p.kgc));
      PutNums(p.kn);
      Join(w, code + WriteConsts(nums, p.kgc), WriteNums(nums, p.kn));
      ghost var dbg := if strip then [] else p.dbg;
      if !strip && |p.dbg| > 0 {
        Need(|p.dbg|);
        PutBlock(p.dbg);
      } else {
        assert Written() + [] == Written();
      }
      Join(w, code + WriteConsts(nums, p.kgc) + WriteNums(nums, p.kn), dbg);
    }

    /** Pass some bytes to the callback. */
    method Pass(s: seq<byte>)
      modifies this`output, this`status, this`calls
      ensures output == old(output) + s
    {
      output := output + s;
      status := answers(calls);
      calls := calls + 1;
    }

    /** The callback has got s, or has refused and got at least nothing else. */
    twostate predicate Passed(s: seq<byte>)
      reads this
    {
      && (status == 0 ==> old(status) == 0 && output == old(output) + s)
      && (old(status) != 0 ==> status == old(status) && output == old(output))
      && old(output) <= output <= old(output) + s
    }

    /** The last part of bcwrite_proto: the size goes right in front of the body, into the room left for it. */
    method PassBlock(ghost body: seq<byte>)
      requires Valid() && n >= 5 && buf[5..n] == body && 0 < |body| < 0x1_0000_0000
      modifies this`n, this`output, this`status, this`calls, buf
      ensures Valid() && buf == old(buf) && Passed(Block(body))
    {
      hide Uleb;
      if status == 0 {
        var size := n - 5;
        PrefixWidthExact(size);
        var nn := PrefixWidth(size);
        ghost var end := n;
        n := 5 - nn;
        PutUleb(size);
        assert n == 5;
        assert buf[5 - nn..5] == Uleb(size) by { assert buf[..5][5 - nn..] == buf[5 - nn..5]; }
        assert buf[5..][..size] == body && buf[5..5 + size] == buf[5..][..size];
        assert buf[5 - nn..5 + size] == buf[5 - nn..5] + buf[5..5 + size];
        Pass(buf[5 - nn..5 + size]);
      }
    }

    /** bcwrite_proto: children from the last constant down, then the prototype. */
    method PutProto(p: Proto)
      requires Valid() && ProtoOk(nums, p)
      modifies this, buf
      ensures Valid() && (buf == old(buf) || fresh(buf)) && Passed(WriteTree(nums, p, strip))
      decreases p
    {
      hide WriteBody;
      hide ConstOk;
      hide Block;
      hide WriteChildren;
      ghost var children := if p.flags % 2 == 1 then WriteChildren(nums, p.kgc, strip) else [];
      if p.flags % 2 == 1 {
        PutChildren(p.kgc);
      }
      label mid:
      assert Passed(children);
      BodySize(nums, p, strip);
      n := 5;
      ghost var w := Written();
      PutBody(p);
      assert buf[5..n] == WriteBody(nums, p, strip) by { assert Written()[5..] == buf[5..n]; }
      PassBlock(WriteBody(nums, p, strip));
      Join(old(output), children, Block(WriteBody(nums, p, strip)));
    }

    method PutChild(c: Const)
      requires Valid() && ConstOk(nums, c)
      modifies this, buf
      ensures Valid() && (buf == old(buf) || fresh(buf)) && Passed(WriteChild(nums, c, strip))
      decreases c
    {
      if c.KChild? { PutProto(c.p); }
    }

    method PutChildren(ks: seq<Const>)
      requires Valid() && forall i :: 0 <= i < |ks| ==> ConstOk(nums, ks[i])
      modifies this, buf
      ensures Valid() && (buf == old(buf) || fresh(buf)) && Passed(WriteChildren(nums, ks, strip))
      decreases ks
    {
      hide WriteTree;
      var i := |ks|;
      ghost var done: seq<byte> := [];
      assert ks[..i] == ks;
      while i > 0
        invariant 0 <= i <= |ks| && Valid() && (buf == old(buf) || fresh(buf)) && Passed(done)
        invariant WriteChildren(nums, ks, strip) == done + WriteChildren(nums, ks[..i], strip)
      {
        i := i - 1;
        var c := ks[i];
        assert ks[..i + 1][..i] == ks[..i] && ks[..i + 1][i] == c;
        Join(done, WriteChild(nums, c, strip), WriteChildren(nums, ks[..i], strip));
        Join(old(output), done, WriteChild(nums, c, strip));
        PutChild(c);
        done := done + WriteChild(nums, c, strip);
      }
      assert done + [] == done;
    }

    // -------------------------------------------------------------- dumps

    /** bcwrite_header. */
    method PutHeader(p: Proto, name: seq<byte>)
      requires Valid() && |name| < 0x1_0000_0000 && status == 0
      modifies this, buf
      ensures Valid() && (buf == old(buf) || fresh(buf))
              && output == old(output) + ([HEAD1] + WriteHeader(name, strip, p.flags / 4 % 2 == 1))
    {
      hide Uleb;
      n := 0;
      assert Written() == [];
      Need(5 + 5 + |name|);
      var flags: byte := (if strip then F_STRIP else 0) + (if p.flags / 4 % 2 == 1 then 4 else 0);
      ghost var four := [HEAD2, HEAD3, VERSION, flags];
      PutByte(HEAD1);
      assert Written() == [HEAD1];
      PutFour(HEAD2, HEAD3, VERSION, flags);
      if !strip {
        PutString(0, name);
        Join([HEAD1], four, Uleb(|name|) + name);
      } else {
        assert four + [] == four;
      }
      Pass(buf[..n]);
    }

    /** lj_bcwrite: if the callback takes everything, it gets the dump. */
    method Write(p: Proto, name: seq<byte>)
      requires Valid() && ProtoOk(nums, p) && |name| < 0x1_0000_0000 && status == 0 && output == []
      modifies this, buf
      ensures Valid() && output <= WriteDump(nums, p, name, strip)
      ensures status == 0 ==> output == WriteDump(nums, p, name, strip)
    {
      hide WriteTree;
      hide WriteHeader;
      ghost var header := WriteHeader(name, strip, p.flags / 4 % 2 == 1);
      PutHeader(p, name);
      assert output == [HEAD1] + header;
      PutProto(p);
      ghost var tree := WriteTree(nums, p, strip);
      Join([HEAD1], header, tree);
      Join([HEAD1], header + tree, [0]);
      Join(header, tree, [0]);
      assert WriteDump(nums, p, name, strip) == [HEAD1] + header + tree + [0];
      if status == 0 { Pass([0]); }
    }
  }

  /** The length of the array part without the nils at its end. */
  method TrimmedLength(a: seq<Val>) returns (k: nat)
    ensures k == |Trim(a)| <= |a|
  {
    k := |a|;
    assert a[..k] == a;
    while k > 0 && a[k - 1] == Nil
      invariant k <= |a| && Trim(a) == Trim(a[..k])
    {
      assert a[..k][..k - 1] == a[..k - 1];
      k := k - 1;
    }
  }

  method CountUsed(nodes: seq<Entry>) returns (count: nat)
    ensures count == |Used(nodes)|
  {
    count := 0;
    var i := 0;
    while i < |nodes|
      invariant 0 <= i <= |nodes| && count == |Used(nodes[..i])|
    {
      UsedLast(nodes[..i + 1]);
      assert nodes[..i + 1][..i] == nodes[..i];
      if nodes[i].val != Nil { count := count + 1; }
      i := i + 1;
    }
    assert nodes[..i] == nodes;
  }

  lemma UsedLast(nodes: seq<Entry>)
    requires nodes != []
    ensures var init, last := nodes[..|nodes| - 1], nodes[|nodes| - 1];
            Used(nodes) == if last.val == Nil then Used(init) else Used(init) + [last]
  {
  }

  lemma EntriesNone(nums: Numbers)
    ensures WriteEntries(nums, []) == [] && Used([]) == []
  {
  }

  lemma EntriesLast(nums: Numbers, es: seq<Entry>, e: Entry)
    ensures WriteEntries(nums, es + [e])
            == WriteVal(nums, e.key, false) + WriteVal(nums, e.val, true) + WriteEntries(nums, es)
  {
    assert (es + [e])[..|es|] == es;
  }

  lemma UlebLast(v: nat)
    requires v < 128
    ensures Uleb(v) == [v]
  {
  }

  lemma Tail(s: seq<byte>, m: nat)
    requires m < |s|
    ensures s[m..][1..] == s[m + 1..]
  {
  }

  lemma Join(w: seq<byte>, a: seq<byte>, b: seq<byte>)
    ensures w + a + b == w + (a + b)
  {
  }
}
